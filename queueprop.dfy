/** src/wfc/queueprop.rs: candidates as plain sets of ids (`HashSet<u8>`), the rule table used as
  * given, propagation driven by a FIFO queue (`VecDeque`), a `legal_tiles` that counts in how many
  * of the six sides each tile appears, and a `find_minimal` that sorts and pops. */
module QueueProp {
  import opened Prelude
  import opened Vec3
  import opened Rules
  import opened Propagation

  // ---------------------------------------------------------------------------
  // Legal tiles by counting (src/wfc/queueprop.rs:55-111)

  /** The number of the first `n` lists that hold `t`. */
  function Hits(lists: seq<set<U8>>, n: nat, t: U8): (c: nat)
    requires n <= |lists|
    ensures c <= n
  {
    if n == 0 then 0 else Hits(lists, n - 1, t) + if t in lists[n - 1] then 1 else 0
  }

  /** Each list counts a tile at most once, so a tile reaches `n` hits exactly when all of the
    * first `n` lists hold it, and none exactly when no list does. */
  lemma {:induction false} HitsAll(lists: seq<set<U8>>, n: nat, t: U8)
    requires n <= |lists|
    ensures Hits(lists, n, t) == n <==> forall k :: 0 <= k < n ==> t in lists[k]
    ensures Hits(lists, n, t) == 0 <==> forall k :: 0 <= k < n ==> t !in lists[k]
  {
    if n > 0 {
      HitsAll(lists, n - 1, t);
    }
  }

  /** The `HashMap` of counts after the first `k` lists and the part `done` of list `k`: a tile
    * has an entry iff it was met, and the entry is the number of times it was met. */
  ghost predicate Counted(lists: seq<set<U8>>, k: nat, done: set<U8>, counts: map<U8, nat>)
    requires k <= |lists|
  {
    forall t: U8 ::
      (t in counts <==> Hits(lists, k, t) > 0 || t in done) &&
      (t in counts ==> counts[t] == Hits(lists, k, t) + if t in done then 1 else 0)
  }

  /** `legal_tiles`: the six sides (y+1 through `down`, y-1 through `up`, x-1 through `left`, x+1
    * through `right`, z-1 through `front`, z+1 through `back`), each sorted and deduplicated, are
    * run through a map counting how often each tile appears; the tiles counted six times are the
    * result. That is exactly the intersection of the six sides. Every candidate of a neighbour
    * must index the rule table (`rules[s as usize]` panics otherwise). */
  method LegalTiles(solution: Vec3D<set<U8>>, rules: Table, p: Pos) returns (legal: set<U8>)
    requires solution.Valid() && WellFormed(rules) && |rules| >= 255 && TilesOk(solution.repr[..])
    requires Interior(solution.Size(), p)
    ensures legal == Legal(rules, solution.Size(), solution.repr[..], p)
  {
    var d := solution.Size();
    var cells := solution.repr[..];
    var w := [Side(rules, d, cells, p, 1), Side(rules, d, cells, p, 0), Side(rules, d, cells, p, 3),
              Side(rules, d, cells, p, 2), Side(rules, d, cells, p, 4), Side(rules, d, cells, p, 5)];
    var counts: map<U8, nat> := map[];
    for k := 0 to 6
      invariant Counted(w, k, {}, counts)
    {
      counts := CountSide(counts, w, k);
    }
    legal := set t | t in counts && counts[t] == 6;
    forall t: U8 ensures t in legal <==> forall k :: 0 <= k < 6 ==> t in w[k] {
      HitsAll(w, 6, t);
    }
    assert legal == w[0] * w[1] * w[2] * w[3] * w[4] * w[5];
  }

  /** The inner loop over one deduplicated side: every tile of side `k` has its count raised by
    * one, or is entered with count 1. */
  method CountSide(counts: map<U8, nat>, w: seq<set<U8>>, k: nat) returns (counts': map<U8, nat>)
    requires k < |w| && Counted(w, k, {}, counts)
    ensures Counted(w, k + 1, {}, counts')
  {
    counts' := counts;
    var rest := w[k];
    while rest != {}
      invariant rest <= w[k] && Counted(w, k, w[k] - rest, counts')
      decreases |rest|
    {
      var item :| item in rest;
      if item in counts' {
        counts' := counts'[item := counts'[item] + 1];
      } else {
        counts' := counts'[item := 1];
      }
      rest := rest - {item};
    }
  }

  // ---------------------------------------------------------------------------
  // Propagation from a queue (src/wfc/queueprop.rs:24-43)

  /** What holds between the pops of `propagate` started from `start`: the grid is narrowed from
    * `start` and only its interior has several candidates; every queued position is in the grid;
    * if `start` had every unstable cell queued (`pend`), so does the grid; and if every queued
    * cell of `start` had at most one candidate (`idle`), nothing has been written. */
  ghost predicate QueueInv(r: Table, d: Dims, start: Domains, g: Domains, queue: seq<Pos>, pend: bool, idle: bool) {
    |g| == d.Count() && |start| == d.Count() &&
    Narrowed(r, d, start, g) && MultiInterior(d, g) &&
    (forall q :: q in queue ==> InGrid(d, q)) &&
    (pend ==> Pending(r, d, g, queue)) &&
    (idle ==> g == start && forall q :: q in queue ==> InGrid(d, q) && |At(d, g, q)| <= 1)
  }

  /** `pop_front` returned `p` and left `rest`. */
  predicate PoppedFront(queue: seq<Pos>, p: Pos, rest: seq<Pos>) {
    |queue| > 0 && p == queue[0] && rest == queue[1..]
  }

  lemma PoppedFrontMembers(queue: seq<Pos>, p: Pos, rest: seq<Pos>)
    requires PoppedFront(queue, p, rest)
    ensures p in queue && forall q :: q in queue ==> q == p || q in rest
  {
    assert queue == [p] + rest;
  }

  /** Popping `p` when it has at most one candidate, or exactly its legal tiles: nothing is
    * written and the invariant holds for the rest of the queue. */
  lemma PopKept(r: Table, d: Dims, start: Domains, g: Domains, queue: seq<Pos>, p: Pos, rest: seq<Pos>,
                pend: bool, idle: bool)
    requires QueueInv(r, d, start, g, queue, pend, idle) && PoppedFront(queue, p, rest)
    requires |At(d, g, p)| <= 1 || (Interior(d, p) && Legal(r, d, g, p) == At(d, g, p))
    ensures QueueInv(r, d, start, g, rest, pend, idle)
  {
    PoppedFrontMembers(queue, p, rest);
    if pend {
      SkipKeepsPending(r, d, g, queue, p, rest);
    }
  }

  /** Popping an interior `p` with several candidates whose legal tiles differ: the cell is
    * rewritten, its six neighbours are queued, the invariant holds and the weight drops. */
  lemma PopRewrite(r: Table, d: Dims, start: Domains, g: Domains, queue: seq<Pos>, p: Pos, rest: seq<Pos>,
                   pend: bool, idle: bool)
    requires QueueInv(r, d, start, g, queue, pend, idle) && PoppedFront(queue, p, rest)
    requires Interior(d, p) && |At(d, g, p)| > 1 && Legal(r, d, g, p) != At(d, g, p)
    ensures var next := Write(d, g, p, Legal(r, d, g, p));
      QueueInv(r, d, start, next, rest + Pushes(p), pend, idle) && Weight(next) < Weight(g)
  {
    PoppedFrontMembers(queue, p, rest);
    if idle {
      assert false;
    }
    var next := Write(d, g, p, Legal(r, d, g, p));
    RewriteStep(r, d, g, p);
    NarrowedTrans(r, d, start, g, next);
    NeighboursInGrid(d, p);
    if pend {
      RewriteKeepsPending(r, d, g, queue, p, rest);
    }
  }

  /** `propagate`: pops positions off the front of the queue until it is empty; a popped cell with
    * more than one candidate is rewritten with its legal tiles when they differ, and then its six
    * neighbours are pushed to the back (x+1, x-1, y+1, y-1, z+1, z-1). On return the grid is
    * narrowed from the one given; if every unstable cell was queued, it is a fixed point; and if
    * every queued cell had at most one candidate, nothing was written. */
  method Propagate(solution: Vec3D<set<U8>>, r: Table, queue: seq<Pos>)
    requires solution.Valid() && RulesOk(r)
    requires Sound(r, solution.Size(), solution.repr[..]) && TilesOk(solution.repr[..])
    requires MultiInterior(solution.Size(), solution.repr[..])
    requires forall q :: q in queue ==> InGrid(solution.Size(), q)
    modifies solution.repr
    ensures MultiInterior(solution.Size(), solution.repr[..])
    ensures Narrowed(r, solution.Size(), old(solution.repr[..]), solution.repr[..])
    ensures Pending(r, solution.Size(), old(solution.repr[..]), queue) ==> FixedPoint(r, solution.Size(), solution.repr[..])
    ensures (forall q :: q in queue ==> |At(solution.Size(), old(solution.repr[..]), q)| <= 1) ==>
      solution.repr[..] == old(solution.repr[..])
  {
    var d := solution.Size();
    ghost var start := solution.repr[..];
    ghost var pend := Pending(r, d, start, queue);
    ghost var idle := forall q :: q in queue ==> |At(d, start, q)| <= 1;
    NarrowedRefl(r, d, start);
    var work := queue;
    while |work| > 0
      invariant QueueInv(r, d, start, solution.repr[..], work, pend, idle)
      decreases Weight(solution.repr[..]), |work|
    {
      var p := work[0];
      var rest := work[1..];
      ghost var g := solution.repr[..];
      ghost var popped := work;
      PoppedFrontMembers(work, p, rest);
      IndexInRange(d, p);
      work := rest;
      var cell := solution.Get(p.x, p.y, p.z);
      if |cell| > 1 {
        var updated := LegalTiles(solution, r, p);
        if updated != cell {
          PopRewrite(r, d, start, g, popped, p, rest, pend, idle);
          solution.Set(p.x, p.y, p.z, updated);
          work := work + Pushes(p);
        } else {
          PopKept(r, d, start, g, popped, p, rest, pend, idle);
        }
      } else {
        PopKept(r, d, start, g, popped, p, rest, pend, idle);
      }
    }
    if pend {
      PendingEmpty(r, d, solution.repr[..]);
    }
  }

  // ---------------------------------------------------------------------------
  // Choosing the cell to collapse (src/wfc/queueprop.rs:45-53)

  /** Some entry of a non-empty list has a size no other entry exceeds. */
  lemma {:induction false} LargestExists(entries: seq<(Pos, set<U8>)>)
    requires entries != []
    ensures exists i :: 0 <= i < |entries| && forall j :: 0 <= j < |entries| ==> |entries[j].1| <= |entries[i].1|
  {
    if |entries| > 1 {
      var init := entries[..|entries| - 1];
      LargestExists(init);
      var i :| 0 <= i < |init| && forall j :: 0 <= j < |init| ==> |init[j].1| <= |init[i].1|;
      var last := |entries| - 1;
      if |entries[last].1| > |entries[i].1| {
        assert forall j :: 0 <= j < |entries| ==> |entries[j].1| <= |entries[last].1|;
      } else {
        assert forall j :: 0 <= j < |entries| ==> |entries[j].1| <= |entries[i].1|;
      }
    } else {
      assert forall j :: 0 <= j < |entries| ==> |entries[j].1| <= |entries[0].1|;
    }
  }

  /** `find_minimal`: collects, in iterator order, the cells with more than one candidate, sorts
    * them by size ascending (`sort_unstable_by`) and pops the last. Despite the name it returns a
    * cell with the MOST candidates; which one among equals is unspecified. `None` iff no cell has
    * more than one candidate. */
  method FindMinimal(solution: Vec3D<set<U8>>) returns (r: Option<(Pos, set<U8>)>)
    requires solution.Valid()
    ensures r.None? <==> forall p :: InGrid(solution.Size(), p) ==> |At(solution.Size(), solution.repr[..], p)| <= 1
    ensures r.Some? ==> (InGrid(solution.Size(), r.value.0) && |r.value.1| > 1 &&
                         r.value.1 == At(solution.Size(), solution.repr[..], r.value.0))
    ensures r.Some? ==> forall q :: InGrid(solution.Size(), q) && |At(solution.Size(), solution.repr[..], q)| > 1 ==>
      |At(solution.Size(), solution.repr[..], q)| <= |r.value.1|
  {
    var d := solution.Size();
    ghost var cells := solution.repr[..];
    var notCollapsed: seq<(Pos, set<U8>)> := [];
    AllPositionsOnce(d);
    var it := new PosIter3D.New(d);
    while true
      invariant it.size == d && !it.noBorder && it.i <= d.Count()
      invariant forall e :: e in notCollapsed ==> InGrid(d, e.0) && e.1 == At(d, cells, e.0) && |e.1| > 1
      invariant forall j: nat :: j < it.i && |cells[j]| > 1 ==> (IterPos(d, false, j), cells[j]) in notCollapsed
      decreases d.Count() - it.i
    {
      ghost var n := it.i;
      var next := it.Next();
      if next.None? {
        break;
      }
      var p := next.value;
      IndexInRange(d, p);
      var cell := solution.Get(p.x, p.y, p.z);
      if |cell| > 1 {
        notCollapsed := notCollapsed + [(p, cell)];
      }
    }
    if notCollapsed == [] {
      r := None;
      forall p | InGrid(d, p) ensures |At(d, cells, p)| <= 1 {
        IndexInRange(d, p);
      }
      return;
    }
    LargestExists(notCollapsed);
    var i :| 0 <= i < |notCollapsed| &&
      forall j :: 0 <= j < |notCollapsed| ==> |notCollapsed[j].1| <= |notCollapsed[i].1|;
    r := Some(notCollapsed[i]);
    forall q | InGrid(d, q) && |At(d, cells, q)| > 1 ensures |At(d, cells, q)| <= |notCollapsed[i].1| {
      IndexInRange(d, q);
      assert (q, At(d, cells, q)) in notCollapsed;
    }
  }

  // ---------------------------------------------------------------------------
  // Output (src/wfc/queueprop.rs:113-121)

  /** What `format_solution` may write for a cell: EMPTY for an empty set, otherwise the first
    * member the set yields, which is some member. */
  ghost predicate Formatted(cell: set<U8>, t: U8) {
    if cell == {} then t == EMPTY else t in cell
  }

  /** `format_solution`: every cell, in iterator order, set to the first member its set yields, or
    * EMPTY when it has none. */
  method FormatSolution(solution: Vec3D<set<U8>>) returns (ret: Vec3D<U8>)
    requires solution.Valid()
    ensures ret.Valid() && ret.Size() == solution.Size()
    ensures forall p :: InGrid(ret.Size(), p) ==>
      Formatted(At(solution.Size(), solution.repr[..], p), At(ret.Size(), ret.repr[..], p))
  {
    var d := solution.Size();
    ret := new Vec3D(solution.xSize, solution.ySize, solution.zSize, EMPTY);
    AllPositionsOnce(d);
    var it := new PosIter3D.New(d);
    while true
      invariant it.size == d && !it.noBorder && it.i <= d.Count()
      invariant ret.Valid() && ret.Size() == d && fresh(ret.repr)
      invariant forall j :: 0 <= j < it.i ==> Formatted(solution.repr[j], ret.repr[j])
      decreases d.Count() - it.i
    {
      var next := it.Next();
      if next.None? {
        break;
      }
      var p := next.value;
      IndexInRange(d, p);
      var cell := solution.Get(p.x, p.y, p.z);
      var t: U8 := EMPTY;
      if cell != {} {
        t :| t in cell;
      }
      ret.Set(p.x, p.y, p.z, t);
    }
    forall p | InGrid(d, p) ensures Formatted(At(d, solution.repr[..], p), At(d, ret.repr[..], p)) {
      IndexInRange(d, p);
    }
  }

  // ---------------------------------------------------------------------------
  // Setup and the solver (src/wfc/queueprop.rs:9-22, 127-153)

  /** `prepare`: a grid of `get_any_tile` sets, every non-EMPTY input cell replaced by its tile
    * alone and queued, then propagated from that queue. Every queued cell holds one candidate, so
    * the propagation writes nothing: the result is exactly the prepared grid. */
  method Prepare(grid: Vec3D<U8>, r: Table) returns (solution: Vec3D<set<U8>>)
    requires grid.Valid() && RulesOk(r) && TableIds(grid.repr[..]) && BorderGiven(grid.Size(), grid.repr[..])
    ensures solution.Valid() && solution.Size() == grid.Size() && fresh(solution.repr)
    ensures solution.repr[..] == Prepared(grid.repr[..])
  {
    var d := grid.Size();
    var toPropagate;
    solution, toPropagate := SetGiven(grid);
    PreparedOk(r, d, grid.repr[..]);
    forall q | q in toPropagate ensures |At(d, solution.repr[..], q)| <= 1 {
      IndexInRange(d, q);
    }
    Propagate(solution, r, toPropagate);
  }

  /** The loop of `prepare`: every cell prepared from its input tile, and the positions of the
    * non-EMPTY ones queued. */
  method SetGiven(grid: Vec3D<U8>) returns (solution: Vec3D<set<U8>>, toPropagate: seq<Pos>)
    requires grid.Valid()
    ensures solution.Valid() && solution.Size() == grid.Size() && fresh(solution.repr)
    ensures solution.repr[..] == Prepared(grid.repr[..])
    ensures forall q :: q in toPropagate ==> InGrid(grid.Size(), q) && At(grid.Size(), grid.repr[..], q) != EMPTY
  {
    var d := grid.Size();
    ghost var tiles := grid.repr[..];
    toPropagate := [];
    solution := new Vec3D(grid.xSize, grid.ySize, grid.zSize, AnyTile());
    AllPositionsOnce(d);
    var it := new PosIter3D.New(d);
    while true
      invariant it.size == d && !it.noBorder && it.i <= d.Count()
      invariant solution.Valid() && solution.Size() == d && fresh(solution.repr)
      invariant forall j :: 0 <= j < d.Count() ==>
        solution.repr[j] == if j < it.i then Prepared(tiles)[j] else AnyTile()
      invariant forall q :: q in toPropagate ==> InGrid(d, q) && At(d, tiles, q) != EMPTY
      decreases d.Count() - it.i
    {
      var next := it.Next();
      if next.None? {
        break;
      }
      var p := next.value;
      IndexInRange(d, p);
      var val := grid.Get(p.x, p.y, p.z);
      if val != EMPTY {
        solution.Set(p.x, p.y, p.z, {val});
        toPropagate := toPropagate + [p];
      }
    }
  }

  /** What holds between the steps of `solve`: the sets are sound, narrowed from the prepared grid
    * `start` with its settled cells untouched, and only interior cells have several candidates. */
  ghost predicate SolveInv(r: Table, d: Dims, start: Domains, g: Domains) {
    |g| == d.Count() && Sound(r, d, g) && TilesOk(g) && Shrunk(start, g) && Settled(d, start, g) &&
    MultiInterior(d, g)
  }

  /** Collapsing a cell with several candidates to one of them keeps the invariants of `solve` and
    * lowers the weight. */
  lemma CollapseKeeps(r: Table, d: Dims, start: Domains, g: Domains, p: Pos, t: U8)
    requires SolveInv(r, d, start, g) && InGrid(d, p) && |At(d, g, p)| > 1 && t in At(d, g, p)
    ensures SolveInv(r, d, start, Write(d, g, p, {t})) && Weight(Write(d, g, p, {t})) < Weight(g)
  {
    CollapseStep(r, d, g, p, t);
    AtUpdate(d, g, p, {t});
  }

  /** A propagation keeps the invariants of `solve` and does not raise the weight. */
  lemma PropagateKeeps(r: Table, d: Dims, start: Domains, g: Domains, h: Domains)
    requires SolveInv(r, d, start, g) && Narrowed(r, d, g, h) && MultiInterior(d, h)
    ensures SolveInv(r, d, start, h) && Weight(h) <= Weight(g)
  {
    SettledThenKept(d, start, g, h);
    ShrunkWeight(g, h);
  }

  /** Relates the formatted output to the input through the invariants of `solve`. */
  lemma OutputTiles(r: Table, d: Dims, tiles: seq<U8>, g: Domains, out: seq<U8>)
    requires |tiles| == d.Count() && TableIds(tiles) && SolveInv(r, d, Prepared(tiles), g)
    requires |out| == d.Count() && forall p :: InGrid(d, p) ==> Formatted(At(d, g, p), At(d, out, p))
    ensures SolvedFrom(d, tiles, out)
  {
    forall p | InGrid(d, p)
      ensures At(d, tiles, p) != EMPTY ==> At(d, out, p) == At(d, tiles, p)
      ensures At(d, tiles, p) == EMPTY ==> At(d, out, p) == EMPTY || At(d, out, p) in AnyTile()
    {
      IndexInRange(d, p);
      var i := Index(d, p);
      assert g[i] <= Prepared(tiles)[i];
    }
  }

  /** `QueueProp::solve`: prepare, then repeatedly take the cell `find_minimal` gives (the one
    * with the most candidates), replace its candidates by one of them (`get_random`, any member
    * here) and propagate from a queue of its six neighbours, until no cell has more than one
    * candidate; then format. Every non-EMPTY input cell comes out unchanged, and every other cell
    * as a tile of `get_any_tile` or EMPTY. */
  method Solve(grid: Vec3D<U8>, r: Table) returns (result: Vec3D<U8>)
    requires grid.Valid() && RulesOk(r) && TableIds(grid.repr[..]) && BorderGiven(grid.Size(), grid.repr[..])
    ensures result.Valid() && result.Size() == grid.Size()
    ensures SolvedFrom(grid.Size(), grid.repr[..], result.repr[..])
  {
    var d := grid.Size();
    ghost var start := Prepared(grid.repr[..]);
    var solution := Prepare(grid, r);
    PreparedOk(r, d, grid.repr[..]);
    while true
      invariant solution.Valid() && solution.Size() == d && fresh(solution.repr)
      invariant SolveInv(r, d, start, solution.repr[..])
      decreases Weight(solution.repr[..])
    {
      var minimal := FindMinimal(solution);
      if minimal.None? {
        result := FormatSolution(solution);
        OutputTiles(r, d, grid.repr[..], solution.repr[..], result.repr[..]);
        return;
      }
      var p := minimal.value.0;
      var current := minimal.value.1;
      ghost var before := solution.repr[..];
      var t :| t in current;
      IndexInRange(d, p);
      CollapseKeeps(r, d, start, before, p, t);
      solution.Set(p.x, p.y, p.z, {t});
      ghost var mid := solution.repr[..];
      assert Interior(d, p);
      NeighboursInGrid(d, p);
      Propagate(solution, r, Pushes(p));
      PropagateKeeps(r, d, start, mid, solution.repr[..]);
    }
  }
}
