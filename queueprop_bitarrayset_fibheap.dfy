/** src/wfc/queueprop_bitarrayset_fibheap.rs: the bit-set solver of `queueprop_bitarrayset` with
  * the cell to collapse taken from a Fibonacci heap. Every interior cell is inserted once, keyed by
  * its number of candidates; propagation lowers the key of every cell it rewrites; `solve` pops
  * the cell with the fewest candidates until the heap is empty. `prepare_rules`, `legal_tiles`
  * and `format_solution` are the same code as in `queueprop_bitarrayset` and the model reuses
  * them. */
module QueuePropBitArraySetFibHeap {
  import opened Prelude
  import opened Vec3
  import opened Rules
  import opened Bits256Sets
  import opened Propagation
  import opened FibHeaps
  import QueueProp
  import QueuePropBitArraySet

  // ---------------------------------------------------------------------------
  // Heap keys

  /** `n as u8`: the low eight bits. */
  function AsU8(n: nat): (b: U8)
    ensures n < 256 ==> b == n
    ensures n == 256 ==> b == 0
  {
    n % 256
  }

  /** The `n` byte values below `n`. */
  function Bytes(n: nat): (r: set<U8>)
    requires n <= 256
    ensures |r| == n && forall a: U8 :: a in r <==> a < n
  {
    if n == 0 then {} else Bytes(n - 1) + {(n - 1) as U8}
  }

  /** A set of tiles (all below 255) has at most 255 members, so `len() as u8` is its size. */
  lemma TileCount(s: set<U8>)
    requires forall t :: t in s ==> t < 255
    ensures |s| <= 255 && AsU8(|s|) == |s|
  {
    SubsetSize(s, Bytes(255));
  }

  /** The heap tracks the grid: its keys are interior cells whose priority is their number of
    * candidates, and every interior cell that has left the heap has at most one candidate. */
  ghost predicate Tracked(d: Dims, g: Domains, heap: map<Pos, U8>) {
    |g| == d.Count() &&
    (forall k :: k in heap ==> Interior(d, k) && heap[k] == AsU8(|At(d, g, k)|)) &&
    (forall p {:trigger p in heap} :: Interior(d, p) && p !in heap ==> |At(d, g, p)| <= 1)
  }

  /** A rewrite by propagation hits a cell still in the heap, and its new size, being smaller, is
    * a key `decrease_key` accepts; lowering the key keeps the heap tracking the grid. */
  lemma TrackRewrite(d: Dims, g: Domains, heap: map<Pos, U8>, p: Pos, v: set<U8>)
    requires Tracked(d, g, heap) && TilesOk(g) && Interior(d, p) && |At(d, g, p)| > 1
    requires v <= At(d, g, p) && v != At(d, g, p)
    ensures p in heap && AsU8(|v|) == |v| && |v| < heap[p] && At(d, Write(d, g, p, v), p) == v
    ensures Tracked(d, Write(d, g, p, v), heap[p := AsU8(|v|)])
  {
    IndexInRange(d, p);
    TileCount(At(d, g, p));
    ProperSubsetSize(v, At(d, g, p));
    AtUpdate(d, g, p, v);
  }

  /** Popping a cell and collapsing it to one tile keeps the heap tracking the grid. */
  lemma TrackCollapse(d: Dims, g: Domains, heap: map<Pos, U8>, p: Pos, t: U8)
    requires Tracked(d, g, heap) && p in heap
    ensures Tracked(d, Write(d, g, p, {t}), heap - {p})
  {
    AtUpdate(d, g, p, {t});
  }

  /** Collapsing a popped cell to one of its candidates keeps the invariants of `solve` and leaves
    * the heap, without that cell, tracking the grid. A cell with one candidate is unchanged. */
  lemma CollapseTracked(r: Table, d: Dims, start: Domains, g: Domains, queued: map<Pos, U8>, p: Pos, t: U8)
    requires QueueProp.SolveInv(r, d, start, g) && Tracked(d, g, queued) && p in queued && t in At(d, g, p)
    ensures QueueProp.SolveInv(r, d, start, Write(d, g, p, {t}))
    ensures Tracked(d, Write(d, g, p, {t}), queued - {p})
  {
    if |At(d, g, p)| > 1 {
      QueueProp.CollapseKeeps(r, d, start, g, p, t);
    } else {
      Single(At(d, g, p), t);
      IndexInRange(d, p);
      assert Write(d, g, p, {t}) == g;
    }
    TrackCollapse(d, g, queued, p, t);
  }

  /** A set with one member is that member alone. */
  lemma Single(s: set<U8>, t: U8)
    requires |s| <= 1 && t in s
    ensures s == {t}
  {
    if s != {t} {
      ProperSubsetSize({t}, s);
      assert false;
    }
  }

  // ---------------------------------------------------------------------------
  // Propagation (src/wfc/queueprop_bitarrayset_fibheap.rs:46-66)

  /** `propagate`: the FIFO propagation of `queueprop_bitarrayset`, and after every rewrite the
    * cell's key lowered to `updated.len() as u8` with `decrease_key`. Besides what the bit-set
    * propagation promises, the heap keeps its positions and keeps tracking the grid. */
  method Propagate(solution: Vec3D<Bits256Set>, rules: QueuePropBitArraySet.BitTable, ghost r: Table,
                   queue: seq<Pos>, heap: FibHeap)
    requires solution.Valid() && RulesOk(r) && rules == QueuePropBitArraySet.PrepareRules(r)
    requires Sound(r, solution.Size(), QueuePropBitArraySet.Dom(solution.repr[..]))
    requires TilesOk(QueuePropBitArraySet.Dom(solution.repr[..]))
    requires MultiInterior(solution.Size(), QueuePropBitArraySet.Dom(solution.repr[..]))
    requires forall q :: q in queue ==> InGrid(solution.Size(), q)
    requires heap.Valid() && Tracked(solution.Size(), QueuePropBitArraySet.Dom(solution.repr[..]), heap.Contents())
    modifies solution.repr, heap
    ensures MultiInterior(solution.Size(), QueuePropBitArraySet.Dom(solution.repr[..]))
    ensures Narrowed(r, solution.Size(), QueuePropBitArraySet.Dom(old(solution.repr[..])), QueuePropBitArraySet.Dom(solution.repr[..]))
    ensures Pending(r, solution.Size(), QueuePropBitArraySet.Dom(old(solution.repr[..])), queue) ==>
      FixedPoint(r, solution.Size(), QueuePropBitArraySet.Dom(solution.repr[..]))
    ensures (forall q :: q in queue ==> |At(solution.Size(), QueuePropBitArraySet.Dom(old(solution.repr[..])), q)| <= 1) ==>
      solution.repr[..] == old(solution.repr[..])
    ensures heap.Valid() && Tracked(solution.Size(), QueuePropBitArraySet.Dom(solution.repr[..]), heap.Contents())
    ensures heap.Contents().Keys == old(heap.Contents()).Keys
  {
    var d := solution.Size();
    ghost var start := QueuePropBitArraySet.Dom(solution.repr[..]);
    ghost var pend := Pending(r, d, start, queue);
    ghost var idle := forall q :: q in queue ==> |At(d, start, q)| <= 1;
    ghost var first := solution.repr[..];
    NarrowedRefl(r, d, start);
    var work := queue;
    while |work| > 0
      invariant QueueProp.QueueInv(r, d, start, QueuePropBitArraySet.Dom(solution.repr[..]), work, pend, idle)
      invariant idle ==> solution.repr[..] == first
      invariant heap.Valid() && Tracked(d, QueuePropBitArraySet.Dom(solution.repr[..]), heap.Contents())
      invariant heap.Contents().Keys == old(heap.Contents()).Keys
      decreases Weight(QueuePropBitArraySet.Dom(solution.repr[..])), |work|
    {
      var p := work[0];
      var rest := work[1..];
      ghost var cells := solution.repr[..];
      ghost var g := QueuePropBitArraySet.Dom(cells);
      ghost var popped := work;
      QueueProp.PoppedFrontMembers(work, p, rest);
      work := rest;
      var wrote := VisitTracked(solution, rules, r, p, heap);
      if wrote {
        QueueProp.PopRewrite(r, d, start, g, popped, p, rest, pend, idle);
        work := work + Pushes(p);
      } else {
        QueueProp.PopKept(r, d, start, g, popped, p, rest, pend, idle);
      }
    }
    if pend {
      PendingEmpty(r, d, QueuePropBitArraySet.Dom(solution.repr[..]));
    }
  }

  /** One pop of `propagate`: the `Visit` of `queueprop_bitarrayset`, then, when the cell was
    * rewritten, `decrease_key` with the new `len() as u8`. */
  method VisitTracked(solution: Vec3D<Bits256Set>, rules: QueuePropBitArraySet.BitTable, ghost r: Table, p: Pos, heap: FibHeap)
    returns (wrote: bool)
    requires solution.Valid() && RulesOk(r) && rules == QueuePropBitArraySet.PrepareRules(r) && InGrid(solution.Size(), p)
    requires TilesOk(QueuePropBitArraySet.Dom(solution.repr[..])) && MultiInterior(solution.Size(), QueuePropBitArraySet.Dom(solution.repr[..]))
    requires Sound(r, solution.Size(), QueuePropBitArraySet.Dom(solution.repr[..]))
    requires heap.Valid() && Tracked(solution.Size(), QueuePropBitArraySet.Dom(solution.repr[..]), heap.Contents())
    modifies solution.repr, heap
    ensures var d := solution.Size(); var g := QueuePropBitArraySet.Dom(old(solution.repr[..]));
      wrote <==> Interior(d, p) && |At(d, g, p)| > 1 && Legal(r, d, g, p) != At(d, g, p)
    ensures var d := solution.Size(); var g := QueuePropBitArraySet.Dom(old(solution.repr[..]));
      wrote ==> Interior(d, p) && QueuePropBitArraySet.Dom(solution.repr[..]) == Write(d, g, p, Legal(r, d, g, p))
    ensures !wrote ==> solution.repr[..] == old(solution.repr[..])
    ensures heap.Valid() && Tracked(solution.Size(), QueuePropBitArraySet.Dom(solution.repr[..]), heap.Contents())
    ensures heap.Contents().Keys == old(heap.Contents()).Keys
    ensures !wrote ==> heap.Contents() == old(heap.Contents())
  {
    ghost var d := solution.Size();
    ghost var g := QueuePropBitArraySet.Dom(solution.repr[..]);
    wrote := QueuePropBitArraySet.Visit(solution, rules, r, p);
    if wrote {
      Retrack(solution, heap, p, g, Legal(r, d, g, p));
    }
  }

  /** `decrease_key(key, updated.len() as u8)` after the cell at `p` of the grid `g` has been
    * rewritten to the smaller set `v`: the heap keeps its positions and goes on tracking the grid. */
  method Retrack(solution: Vec3D<Bits256Set>, heap: FibHeap, p: Pos, ghost g: Domains, ghost v: set<U8>)
    requires solution.Valid() && heap.Valid() && Tracked(solution.Size(), g, heap.Contents()) && TilesOk(g)
    requires Interior(solution.Size(), p) && |At(solution.Size(), g, p)| > 1 && v <= At(solution.Size(), g, p) && v != At(solution.Size(), g, p)
    requires QueuePropBitArraySet.Dom(solution.repr[..]) == Write(solution.Size(), g, p, v)
    modifies heap
    ensures heap.Valid() && Tracked(solution.Size(), QueuePropBitArraySet.Dom(solution.repr[..]), heap.Contents())
    ensures heap.Contents() == old(heap.Contents())[p := AsU8(|v|)]
  {
    var d := solution.Size();
    IndexInRange(d, p);
    var updated := solution.Get(p.x, p.y, p.z);
    QueuePropBitArraySet.DomAt(d, solution.repr[..], p);
    TrackRewrite(d, g, heap.Contents(), p, v);
    heap.DecreaseKey(p, AsU8(updated.Len()));
  }

  // ---------------------------------------------------------------------------
  // Setup (src/wfc/queueprop_bitarrayset_fibheap.rs:20-44)

  /** `prepare_heap`: an empty heap. */
  method PrepareHeap() returns (heap: FibHeap)
    ensures fresh(heap) && heap.Valid() && heap.Contents() == map[]
  {
    heap := new FibHeap();
  }

  /** The heap after the first `i` positions of the second loop of `prepare_map`: exactly the
    * interior ones, each keyed by its number of candidates. */
  ghost predicate InsertedBefore(d: Dims, g: Domains, heap: map<Pos, U8>, i: nat) {
    |g| == d.Count() &&
    (forall k :: k in heap ==> Interior(d, k) && Index(d, k) < i && heap[k] == AsU8(|At(d, g, k)|)) &&
    (forall k :: Interior(d, k) && Index(d, k) < i ==> k in heap)
  }

  /** One more position of the loop: inserted when interior, skipped otherwise. */
  lemma InsertedNext(d: Dims, g: Domains, heap: map<Pos, U8>, heap': map<Pos, U8>, i: nat)
    requires i < d.Count() && InsertedBefore(d, g, heap, i)
    requires InGrid(d, IterPos(d, false, i))
    requires heap' == if Interior(d, IterPos(d, false, i)) then heap[IterPos(d, false, i) := AsU8(|At(d, g, IterPos(d, false, i))|)] else heap
    ensures InsertedBefore(d, g, heap', i + 1)
  {
    AllPositionsOnce(d);
  }

  /** After the whole loop the heap holds every interior position and tracks the grid. */
  lemma InsertedAll(d: Dims, g: Domains, heap: map<Pos, U8>)
    requires InsertedBefore(d, g, heap, d.Count())
    ensures Tracked(d, g, heap) && forall p :: p in heap <==> Interior(d, p)
  {
    AllPositionsOnce(d);
  }

  /** The second loop of `prepare_map`: every strictly interior position, in iterator order,
    * inserted with its `len() as u8`. The heap starts empty (it comes from `prepare_heap`). */
  method InsertInterior(solution: Vec3D<Bits256Set>, heap: FibHeap)
    requires solution.Valid() && TilesOk(QueuePropBitArraySet.Dom(solution.repr[..]))
    requires heap.Valid() && heap.Contents() == map[]
    modifies heap
    ensures heap.Valid() && Tracked(solution.Size(), QueuePropBitArraySet.Dom(solution.repr[..]), heap.Contents())
    ensures forall p :: p in heap.Contents() <==> Interior(solution.Size(), p)
  {
    var d := solution.Size();
    ghost var g := QueuePropBitArraySet.Dom(solution.repr[..]);
    var it := new PosIter3D.New(d);
    while true
      invariant it.size == d && !it.noBorder && it.i <= d.Count()
      invariant heap.Valid() && InsertedBefore(d, g, heap.Contents(), it.i)
      decreases d.Count() - it.i
    {
      var done := InsertNext(solution, heap, it);
      if done {
        break;
      }
    }
    InsertedAll(d, g, heap.Contents());
  }

  /** One turn of the second loop of `prepare_map`: the iterator's next position, inserted when
    * it is strictly interior. True, changing nothing, once the iterator is exhausted. */
  method InsertNext(solution: Vec3D<Bits256Set>, heap: FibHeap, it: PosIter3D) returns (done: bool)
    requires solution.Valid() && it.size == solution.Size() && !it.noBorder && it.i <= solution.Size().Count()
    requires heap.Valid() && InsertedBefore(solution.Size(), QueuePropBitArraySet.Dom(solution.repr[..]), heap.Contents(), it.i)
    modifies heap, it
    ensures done <==> old(it.i) == solution.Size().Count()
    ensures done ==> it.i == old(it.i)
    ensures !done ==> it.i == old(it.i) + 1
    ensures heap.Valid() && InsertedBefore(solution.Size(), QueuePropBitArraySet.Dom(solution.repr[..]), heap.Contents(), it.i)
  {
    var d := solution.Size();
    ghost var i := it.i;
    ghost var before := heap.Contents();
    var next := it.Next();
    if next.None? {
      return true;
    }
    var p := next.value;
    IndexOfPos(d, i);
    if d.xs - 1 > p.x && p.x > 0 && d.ys - 1 > p.y && p.y > 0 && d.zs - 1 > p.z && p.z > 0 {
      InsertCell(solution, heap, p);
    }
    InsertedNext(d, QueuePropBitArraySet.Dom(solution.repr[..]), before, heap.Contents(), i);
    done := false;
  }

  /** One `insert` of the second loop of `prepare_map`: the cell's `len() as u8` as its key. */
  method InsertCell(solution: Vec3D<Bits256Set>, heap: FibHeap, p: Pos)
    requires solution.Valid() && InGrid(solution.Size(), p)
    requires heap.Valid() && p !in heap.Contents()
    modifies heap
    ensures heap.Valid()
    ensures heap.Contents() == old(heap.Contents())[p := AsU8(|At(solution.Size(), QueuePropBitArraySet.Dom(solution.repr[..]), p)|)]
  {
    IndexInRange(solution.Size(), p);
    var cell := solution.Get(p.x, p.y, p.z);
    QueuePropBitArraySet.DomAt(solution.Size(), solution.repr[..], p);
    heap.Insert(p, AsU8(cell.Len()));
  }

  /** `prepare_map`: the prepared grid as bit sets, every interior cell in the heap, then the
    * propagation from the queue of given cells (which holds cells with one candidate, so it writes
    * nothing). */
  method PrepareMap(grid: Vec3D<U8>, rules: QueuePropBitArraySet.BitTable, ghost r: Table, heap: FibHeap)
    returns (solution: Vec3D<Bits256Set>)
    requires grid.Valid() && RulesOk(r) && rules == QueuePropBitArraySet.PrepareRules(r)
    requires TableIds(grid.repr[..]) && BorderGiven(grid.Size(), grid.repr[..])
    requires heap.Valid() && heap.Contents() == map[]
    modifies heap
    ensures solution.Valid() && solution.Size() == grid.Size() && fresh(solution.repr)
    ensures QueuePropBitArraySet.Dom(solution.repr[..]) == Prepared(grid.repr[..])
    ensures heap.Valid() && Tracked(grid.Size(), Prepared(grid.repr[..]), heap.Contents())
    ensures forall p :: p in heap.Contents() <==> Interior(grid.Size(), p)
  {
    var d := grid.Size();
    var toPropagate;
    solution, toPropagate := QueuePropBitArraySet.SetGiven(grid);
    PreparedOk(r, d, grid.repr[..]);
    InsertInterior(solution, heap);
    forall q | q in toPropagate ensures |At(d, QueuePropBitArraySet.Dom(solution.repr[..]), q)| <= 1 {
      IndexInRange(d, q);
    }
    PropagateGiven(solution, rules, r, toPropagate, heap);
  }

  /** The propagation that ends `prepare_map`: its queue holds given cells, each with at most one
    * candidate, so it rewrites nothing, and the heap keeps its keys and priorities. */
  method PropagateGiven(solution: Vec3D<Bits256Set>, rules: QueuePropBitArraySet.BitTable, ghost r: Table,
                        queue: seq<Pos>, heap: FibHeap)
    requires solution.Valid() && RulesOk(r) && rules == QueuePropBitArraySet.PrepareRules(r)
    requires Sound(r, solution.Size(), QueuePropBitArraySet.Dom(solution.repr[..]))
    requires TilesOk(QueuePropBitArraySet.Dom(solution.repr[..]))
    requires MultiInterior(solution.Size(), QueuePropBitArraySet.Dom(solution.repr[..]))
    requires forall q :: q in queue ==> InGrid(solution.Size(), q) && |At(solution.Size(), QueuePropBitArraySet.Dom(solution.repr[..]), q)| <= 1
    requires heap.Valid() && Tracked(solution.Size(), QueuePropBitArraySet.Dom(solution.repr[..]), heap.Contents())
    modifies solution.repr, heap
    ensures solution.repr[..] == old(solution.repr[..])
    ensures heap.Valid() && Tracked(solution.Size(), QueuePropBitArraySet.Dom(solution.repr[..]), heap.Contents())
    ensures heap.Contents().Keys == old(heap.Contents()).Keys
  {
    Propagate(solution, rules, r, queue, heap);
  }

  // ---------------------------------------------------------------------------
  // The solver (src/wfc/queueprop_bitarrayset_fibheap.rs:68-71, 100-129)

  /** `find_minimal`: `pop_min`. None exactly when the heap is empty; otherwise a position with the
    * smallest key, which leaves the heap. */
  method FindMinimal(heap: FibHeap) returns (r: Option<Pos>)
    requires heap.Valid()
    modifies heap
    ensures heap.Valid()
    ensures r.None? <==> old(heap.Contents()) == map[]
    ensures r.Some? ==> r.value in old(heap.Contents()) && heap.Contents() == old(heap.Contents()) - {r.value}
    ensures r.Some? ==> forall k :: k in old(heap.Contents()) ==> old(heap.Contents())[r.value] <= old(heap.Contents())[k]
    ensures r.None? ==> heap.Contents() == old(heap.Contents())
  {
    r := heap.PopMin();
  }

  /** One round of `solve` after `find_minimal` has popped `p`: the cell is set to
    * `new_from_vec` of one of its items (`get_random`, any item here) and propagation runs from
    * its six neighbours. False, changing nothing, exactly when the cell has no candidate left,
    * where `get_random` panics. */
  method CollapseAt(solution: Vec3D<Bits256Set>, rules: QueuePropBitArraySet.BitTable, ghost r: Table,
                    ghost start: Domains, p: Pos, ghost queued: map<Pos, U8>, heap: FibHeap)
    returns (collapsed: bool)
    requires solution.Valid() && RulesOk(r) && rules == QueuePropBitArraySet.PrepareRules(r)
    requires QueueProp.SolveInv(r, solution.Size(), start, QueuePropBitArraySet.Dom(solution.repr[..]))
    requires Tracked(solution.Size(), QueuePropBitArraySet.Dom(solution.repr[..]), queued) && p in queued
    requires heap.Valid() && heap.Contents() == queued - {p}
    modifies solution.repr, heap
    ensures var g := QueuePropBitArraySet.Dom(old(solution.repr[..]));
      !collapsed <==> At(solution.Size(), g, p) == {}
    ensures !collapsed ==> Interior(solution.Size(), p) && solution.repr[..] == old(solution.repr[..])
    ensures collapsed ==> QueueProp.SolveInv(r, solution.Size(), start, QueuePropBitArraySet.Dom(solution.repr[..]))
    ensures collapsed ==> heap.Valid() && Tracked(solution.Size(), QueuePropBitArraySet.Dom(solution.repr[..]), heap.Contents())
    ensures collapsed ==> heap.Contents().Keys == old(heap.Contents()).Keys
  {
    var d := solution.Size();
    ghost var before := solution.repr[..];
    ghost var g := QueuePropBitArraySet.Dom(before);
    IndexInRange(d, p);
    QueuePropBitArraySet.DomAt(d, before, p);
    var current := solution.Get(p.x, p.y, p.z);
    var items := current.Items();
    if items == [] {
      assert At(d, g, p) == {};
      return false;
    }
    assert items[0] in items;
    var t :| t in items;
    CollapseTracked(r, d, start, g, queued, p, t);
    var one := NewFromVec([t]);
    ElemsOf(one, {t});
    solution.Set(p.x, p.y, p.z, one);
    QueuePropBitArraySet.DomWrite(d, before, p, one);
    ghost var mid := solution.repr[..];
    NeighboursInGrid(d, p);
    Propagate(solution, rules, r, Pushes(p), heap);
    QueueProp.PropagateKeeps(r, d, start, QueuePropBitArraySet.Dom(mid), QueuePropBitArraySet.Dom(solution.repr[..]));
    collapsed := true;
  }

  /** One turn of the loop of `solve`: `find_minimal`, then, when it found a cell, the collapse of
    * that cell and the propagation from its neighbours. Nothing changes when the heap is empty; a
    * popped cell with no candidate stops the round (the panic of `get_random`); otherwise the
    * invariants of `solve` hold again over a heap with fewer positions. */
  method Round(solution: Vec3D<Bits256Set>, rules: QueuePropBitArraySet.BitTable, ghost r: Table,
               ghost start: Domains, heap: FibHeap)
    returns (popped: Option<Pos>, collapsed: bool)
    requires solution.Valid() && RulesOk(r) && rules == QueuePropBitArraySet.PrepareRules(r)
    requires QueueProp.SolveInv(r, solution.Size(), start, QueuePropBitArraySet.Dom(solution.repr[..]))
    requires heap.Valid() && Tracked(solution.Size(), QueuePropBitArraySet.Dom(solution.repr[..]), heap.Contents())
    modifies solution.repr, heap
    ensures popped.None? <==> old(heap.Contents()) == map[]
    ensures popped.None? ==> solution.repr[..] == old(solution.repr[..])
    ensures popped.Some? && !collapsed ==> Interior(solution.Size(), popped.value)
    ensures popped.Some? && !collapsed ==> At(solution.Size(), QueuePropBitArraySet.Dom(old(solution.repr[..])), popped.value) == {}
    ensures popped.Some? && collapsed ==> QueueProp.SolveInv(r, solution.Size(), start, QueuePropBitArraySet.Dom(solution.repr[..]))
    ensures popped.Some? && collapsed ==> heap.Valid() && Tracked(solution.Size(), QueuePropBitArraySet.Dom(solution.repr[..]), heap.Contents())
    ensures popped.Some? && collapsed ==> |heap.Contents().Keys| < |old(heap.Contents()).Keys|
  {
    ghost var queued := heap.Contents();
    popped := FindMinimal(heap);
    if popped.None? {
      return popped, false;
    }
    FewerKeys(queued, popped.value);
    collapsed := CollapseAt(solution, rules, r, start, popped.value, queued, heap);
  }

  /** Taking a key out of a map leaves fewer keys. */
  lemma FewerKeys(m: map<Pos, U8>, p: Pos)
    requires p in m
    ensures |(m - {p}).Keys| < |m.Keys|
  {
    assert m.Keys == (m - {p}).Keys + {p};
  }

  /** The end of `solve`: `format_solution` of the grid, which then agrees with the input on every
    * given cell and holds a tile of `get_any_tile` or EMPTY everywhere else. */
  method Output(grid: Vec3D<U8>, r: Table, solution: Vec3D<Bits256Set>) returns (formatted: Vec3D<U8>)
    requires grid.Valid() && TableIds(grid.repr[..]) && solution.Valid() && solution.Size() == grid.Size()
    requires QueueProp.SolveInv(r, grid.Size(), Prepared(grid.repr[..]), QueuePropBitArraySet.Dom(solution.repr[..]))
    ensures formatted.Valid() && formatted.Size() == grid.Size()
    ensures SolvedFrom(grid.Size(), grid.repr[..], formatted.repr[..])
  {
    var d := grid.Size();
    formatted := QueuePropBitArraySet.FormatSolution(solution);
    QueuePropBitArraySet.OutputFormatted(d, solution.repr[..], formatted.repr[..]);
    QueueProp.OutputTiles(r, d, grid.repr[..], QueuePropBitArraySet.Dom(solution.repr[..]), formatted.repr[..]);
  }

  /** The loop of `solve`, from the prepared grid and heap: rounds until `find_minimal` finds the
    * heap empty, then `format_solution`; None when a popped cell has no candidate. */
  method SolveLoop(grid: Vec3D<U8>, r: Table, rules: QueuePropBitArraySet.BitTable,
                   solution: Vec3D<Bits256Set>, heap: FibHeap)
    returns (result: Option<Vec3D<U8>>, ghost last: Domains)
    requires grid.Valid() && RulesOk(r) && rules == QueuePropBitArraySet.PrepareRules(r) && TableIds(grid.repr[..])
    requires solution.Valid() && solution.Size() == grid.Size()
    requires QueueProp.SolveInv(r, grid.Size(), Prepared(grid.repr[..]), QueuePropBitArraySet.Dom(solution.repr[..]))
    requires heap.Valid() && Tracked(grid.Size(), QueuePropBitArraySet.Dom(solution.repr[..]), heap.Contents())
    modifies solution.repr, heap
    ensures result.Some? ==> result.value.Valid() && result.value.Size() == grid.Size()
    ensures result.Some? ==> SolvedFrom(grid.Size(), grid.repr[..], result.value.repr[..])
    ensures result.None? ==> QueueProp.SolveInv(r, grid.Size(), Prepared(grid.repr[..]), last)
    ensures result.None? ==> exists p :: Interior(grid.Size(), p) && At(grid.Size(), last, p) == {}
  {
    var d := grid.Size();
    ghost var start := Prepared(grid.repr[..]);
    while true
      invariant QueueProp.SolveInv(r, d, start, QueuePropBitArraySet.Dom(solution.repr[..]))
      invariant heap.Valid() && Tracked(d, QueuePropBitArraySet.Dom(solution.repr[..]), heap.Contents())
      decreases |heap.Contents().Keys|
    {
      ghost var g := QueuePropBitArraySet.Dom(solution.repr[..]);
      var popped, collapsed := Round(solution, rules, r, start, heap);
      if popped.None? {
        var formatted := Output(grid, r, solution);
        return Some(formatted), g;
      }
      if !collapsed {
        return None, g;
      }
    }
  }

  /** `QueuePropBitArraySetFibHeap::solve`: prepare the heap and the grid, then pop cells until the
    * heap is empty; each popped cell is set to `new_from_vec` of one of its items (`get_random`,
    * any item here) and propagation runs from its six neighbours; then format. Cells with one
    * candidate are popped too (first, having the smallest keys), and set to the tile they hold.
    * `get_random` panics on an empty slice: the result is None exactly there, which happens
    * only when propagation has left an interior cell without candidates. Otherwise every non-EMPTY
    * input cell comes out unchanged, and every other cell as a tile of `get_any_tile` or EMPTY. */
  method Solve(grid: Vec3D<U8>, r: Table) returns (result: Option<Vec3D<U8>>, ghost last: Domains)
    requires grid.Valid() && RulesOk(r) && TableIds(grid.repr[..]) && BorderGiven(grid.Size(), grid.repr[..])
    ensures result.Some? ==> result.value.Valid() && result.value.Size() == grid.Size()
    ensures result.Some? ==> SolvedFrom(grid.Size(), grid.repr[..], result.value.repr[..])
    ensures result.None? ==> QueueProp.SolveInv(r, grid.Size(), Prepared(grid.repr[..]), last)
    ensures result.None? ==> exists p :: Interior(grid.Size(), p) && At(grid.Size(), last, p) == {}
  {
    var d := grid.Size();
    var rules := QueuePropBitArraySet.PrepareRules(r);
    var heap := PrepareHeap();
    var solution := PrepareMap(grid, rules, r, heap);
    PreparedOk(r, d, grid.repr[..]);
    result, last := SolveLoop(grid, r, rules, solution, heap);
  }
}
