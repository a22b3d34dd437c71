/** src/wfc/queueprop_bitarrayset.rs: the FIFO propagation of `queueprop` with candidates held as
  * `Bits256Set`s, a rule table converted to bit sets, `legal_tiles` as an intersection of six
  * unions of bit sets, and the `find_minimal` fold of `baseline`. */
module QueuePropBitArraySet {
  import opened Prelude
  import opened Vec3
  import opened DirectionMappings
  import opened Rules
  import opened Bits256Sets
  import opened Propagation
  import QueueProp

  // ---------------------------------------------------------------------------
  // Rules and cells as bit sets (src/wfc/queueprop_bitarrayset.rs:9-19)

  /** The rule table with every slot a bit set. */
  type BitTable = seq<DirectionMapping<Bits256Set>>

  /** Every entry has its six slots. */
  ghost predicate BitTableOk(rules: BitTable) {
    forall s :: 0 <= s < |rules| ==> rules[s].Valid()
  }

  /** `prepare_rules`: every slot of every entry converted with `new_from_hash_set` (whose result is
    * `FromSet`); the converted slot holds exactly the ids of the original. */
  function PrepareRules(rules: Table): (r: BitTable)
    requires WellFormed(rules)
    ensures |r| == |rules| && BitTableOk(r)
    ensures forall s, k :: 0 <= s < |rules| && 0 <= k < 6 ==> r[s].repr[k].Elems() == rules[s].repr[k]
  {
    seq(|rules|, s requires 0 <= s < |rules| => MapSlots(rules[s], FromSet))
  }

  /** The sets the bit-set grid stands for. */
  ghost function Dom(cells: seq<Bits256Set>): (g: Domains)
    ensures |g| == |cells| && forall i :: 0 <= i < |cells| ==> g[i] == cells[i].Elems()
  {
    seq(|cells|, i requires 0 <= i < |cells| => cells[i].Elems())
  }

  lemma DomAt(d: Dims, cells: seq<Bits256Set>, p: Pos)
    requires |cells| == d.Count() && InGrid(d, p)
    ensures At(d, Dom(cells), p) == At(d, cells, p).Elems()
  {
    IndexInRange(d, p);
  }

  lemma DomWrite(d: Dims, cells: seq<Bits256Set>, p: Pos, v: Bits256Set)
    requires |cells| == d.Count() && InGrid(d, p)
    ensures Dom(Write(d, cells, p, v)) == Write(d, Dom(cells), p, v.Elems())
  {
    IndexInRange(d, p);
  }

  // ---------------------------------------------------------------------------
  // Legal tiles (src/wfc/queueprop_bitarrayset.rs:93-104)

  /** One `new_sum` of `legal_tiles`: slot `k` of the entry of every item of the neighbour's set
    * (its members below 255), OR-ed together. */
  function SideSum(rules: BitTable, cell: Bits256Set, k: nat): (r: Bits256Set)
    requires BitTableOk(rules) && |rules| >= 255 && k < 6
    ensures forall t: U8 :: r.Contains(t) <==>
      exists s: U8 :: s < 255 && cell.Contains(s) && rules[s].repr[k].Contains(t)
  {
    var items := cell.Items();
    var sets := seq(|items|, i requires 0 <= i < |items| => rules[items[i]].repr[k]);
    var r := NewSum(sets);
    assert forall t: U8 :: (exists s: U8 :: s < 255 && cell.Contains(s) && rules[s].repr[k].Contains(t)) ==> r.Contains(t) by {
      forall t: U8 | exists s: U8 :: s < 255 && cell.Contains(s) && rules[s].repr[k].Contains(t)
        ensures r.Contains(t)
      {
        var s: U8 :| s < 255 && cell.Contains(s) && rules[s].repr[k].Contains(t);
        var i :| 0 <= i < |items| && items[i] == s;
        assert sets[i].Contains(t);
      }
    }
    r
  }

  /** The slots in the order `legal_tiles` lists its sums: `down` of y+1, `up` of y-1, `left` of
    * x-1, `right` of x+1, `front` of z-1, `back` of z+1. The order is its own inverse. */
  const SUM_ORDER: seq<nat> := [1, 0, 3, 2, 4, 5]

  /** The six sums of `legal_tiles`, in its order. */
  function Sums(rules: BitTable, d: Dims, cells: seq<Bits256Set>, p: Pos): (r: seq<Bits256Set>)
    requires BitTableOk(rules) && |rules| >= 255 && |cells| == d.Count() && Interior(d, p)
    ensures |r| == 6
  {
    NeighboursInGrid(d, p);
    seq(6, i requires 0 <= i < 6 => SideSum(rules, At(d, cells, Neighbour(p, SUM_ORDER[i])), SUM_ORDER[i]))
  }

  /** `legal_tiles`: the intersection of the six sums. */
  function LegalTiles(rules: BitTable, d: Dims, cells: seq<Bits256Set>, p: Pos): (r: Bits256Set)
    requires BitTableOk(rules) && |rules| >= 255 && |cells| == d.Count() && Interior(d, p)
  {
    NewIntersection(Sums(rules, d, cells, p))
  }

  /** One sum holds exactly the union of the shared specification, when every member of the
    * neighbour's set is an id below 255. */
  lemma SideSumIsUnion(r: Table, cell: Bits256Set, k: nat)
    requires RulesOk(r) && k < 6 && forall s :: s in cell.Elems() ==> s < 255
    ensures SideSum(PrepareRules(r), cell, k).Elems() == Union(r, cell.Elems(), k)
  {
    var rules := PrepareRules(r);
    var sum := SideSum(rules, cell, k);
    forall t: U8 ensures sum.Contains(t) <==> t in Union(r, cell.Elems(), k) {
      if sum.Contains(t) {
        var s: U8 :| s < 255 && cell.Contains(s) && rules[s].repr[k].Contains(t);
        assert s in cell.Elems() && t in rules[s].repr[k].Elems();
      }
      if t in Union(r, cell.Elems(), k) {
        var s: U8 :| s in cell.Elems() && s < |r| && t in r[s].repr[k];
        assert s < 255 && t in rules[s].repr[k].Elems();
      }
    }
    ElemsOf(sum, Union(r, cell.Elems(), k));
  }

  /** The bit-set `legal_tiles` stands for the legal set of the shared specification. */
  lemma LegalTilesIsLegal(r: Table, d: Dims, cells: seq<Bits256Set>, p: Pos)
    requires RulesOk(r) && |cells| == d.Count() && TilesOk(Dom(cells)) && Interior(d, p)
    ensures LegalTiles(PrepareRules(r), d, cells, p).Elems() == Legal(r, d, Dom(cells), p)
  {
    var sides := seq(6, i requires 0 <= i < 6 => Side(r, d, Dom(cells), p, SUM_ORDER[i]));
    SumsAreSides(r, d, cells, p);
    IntersectionOfSix(Sums(PrepareRules(r), d, cells, p), sides);
  }

  /** Each sum stands for the side of the shared specification in the same slot. */
  lemma SumsAreSides(r: Table, d: Dims, cells: seq<Bits256Set>, p: Pos)
    requires RulesOk(r) && |cells| == d.Count() && TilesOk(Dom(cells)) && Interior(d, p)
    ensures forall i :: 0 <= i < 6 ==>
      Sums(PrepareRules(r), d, cells, p)[i].Elems() == Side(r, d, Dom(cells), p, SUM_ORDER[i])
  {
    NeighboursInGrid(d, p);
    var sums := Sums(PrepareRules(r), d, cells, p);
    forall i | 0 <= i < 6 ensures sums[i].Elems() == Side(r, d, Dom(cells), p, SUM_ORDER[i]) {
      var q := Neighbour(p, SUM_ORDER[i]);
      DomAt(d, cells, q);
      IndexInRange(d, q);
      SideSumIsUnion(r, At(d, cells, q), SUM_ORDER[i]);
    }
  }

  /** `new_intersection` of six sets stands for the intersection of what they stand for. */
  lemma IntersectionOfSix(sums: seq<Bits256Set>, sides: seq<set<U8>>)
    requires |sums| == 6 && |sides| == 6 && forall i :: 0 <= i < 6 ==> sums[i].Elems() == sides[i]
    ensures NewIntersection(sums).Elems() == sides[0] * sides[1] * sides[2] * sides[3] * sides[4] * sides[5]
  {
    var all := sides[0] * sides[1] * sides[2] * sides[3] * sides[4] * sides[5];
    forall t: U8 ensures NewIntersection(sums).Contains(t) <==> t in all {
      assert forall i :: 0 <= i < 6 ==> (sums[i].Contains(t) <==> t in sides[i]);
    }
    ElemsOf(NewIntersection(sums), all);
  }

  // ---------------------------------------------------------------------------
  // Propagation (src/wfc/queueprop_bitarrayset.rs:35-54)

  /** `propagate`: the FIFO propagation of `queueprop` on bit sets. A popped cell with `len() > 1`
    * is rewritten with its legal tiles when they differ (derived `PartialEq`), and its six
    * neighbours are pushed to the back. On return the grid is narrowed from the one given; if every
    * unstable cell was queued, it is a fixed point; and if every queued cell had at most one
    * candidate, nothing was written. */
  method Propagate(solution: Vec3D<Bits256Set>, rules: BitTable, ghost r: Table, queue: seq<Pos>)
    requires solution.Valid() && RulesOk(r) && rules == PrepareRules(r)
    requires Sound(r, solution.Size(), Dom(solution.repr[..])) && TilesOk(Dom(solution.repr[..]))
    requires MultiInterior(solution.Size(), Dom(solution.repr[..]))
    requires forall q :: q in queue ==> InGrid(solution.Size(), q)
    modifies solution.repr
    ensures MultiInterior(solution.Size(), Dom(solution.repr[..]))
    ensures Narrowed(r, solution.Size(), Dom(old(solution.repr[..])), Dom(solution.repr[..]))
    ensures Pending(r, solution.Size(), Dom(old(solution.repr[..])), queue) ==>
      FixedPoint(r, solution.Size(), Dom(solution.repr[..]))
    ensures (forall q :: q in queue ==> |At(solution.Size(), Dom(old(solution.repr[..])), q)| <= 1) ==>
      solution.repr[..] == old(solution.repr[..])
  {
    var d := solution.Size();
    ghost var start := Dom(solution.repr[..]);
    ghost var pend := Pending(r, d, start, queue);
    ghost var idle := forall q :: q in queue ==> |At(d, start, q)| <= 1;
    ghost var first := solution.repr[..];
    NarrowedRefl(r, d, start);
    var work := queue;
    while |work| > 0
      invariant QueueProp.QueueInv(r, d, start, Dom(solution.repr[..]), work, pend, idle)
      invariant idle ==> solution.repr[..] == first
      decreases Weight(Dom(solution.repr[..])), |work|
    {
      var p := work[0];
      var rest := work[1..];
      ghost var g := Dom(solution.repr[..]);
      ghost var popped := work;
      QueueProp.PoppedFrontMembers(work, p, rest);
      work := rest;
      var wrote := Visit(solution, rules, r, p);
      if wrote {
        QueueProp.PopRewrite(r, d, start, g, popped, p, rest, pend, idle);
        work := work + Pushes(p);
      } else {
        QueueProp.PopKept(r, d, start, g, popped, p, rest, pend, idle);
      }
    }
    if pend {
      PendingEmpty(r, d, Dom(solution.repr[..]));
    }
  }

  /** One pop of `propagate`: the cell at `p`, when it has more than one member, is rewritten with
    * its legal tiles if they differ from it; `wrote` tells whether it was. */
  method Visit(solution: Vec3D<Bits256Set>, rules: BitTable, ghost r: Table, p: Pos) returns (wrote: bool)
    requires solution.Valid() && RulesOk(r) && rules == PrepareRules(r) && InGrid(solution.Size(), p)
    requires TilesOk(Dom(solution.repr[..])) && MultiInterior(solution.Size(), Dom(solution.repr[..]))
    modifies solution.repr
    ensures var d := solution.Size(); var g := Dom(old(solution.repr[..]));
      wrote <==> Interior(d, p) && |At(d, g, p)| > 1 && Legal(r, d, g, p) != At(d, g, p)
    ensures var d := solution.Size(); var g := Dom(old(solution.repr[..]));
      wrote ==> Interior(d, p) && Dom(solution.repr[..]) == Write(d, g, p, Legal(r, d, g, p))
    ensures !wrote ==> solution.repr[..] == old(solution.repr[..])
  {
    var d := solution.Size();
    ghost var cells := solution.repr[..];
    IndexInRange(d, p);
    DomAt(d, cells, p);
    wrote := false;
    var cell := solution.Get(p.x, p.y, p.z);
    if cell.Len() > 1 {
      var updated := LegalTiles(rules, d, solution.repr[..], p);
      LegalTilesIsLegal(r, d, cells, p);
      EqualIffSameElems(updated, cell);
      if updated != cell {
        solution.Set(p.x, p.y, p.z, updated);
        DomWrite(d, cells, p, updated);
        wrote := true;
      }
    }
  }

  // ---------------------------------------------------------------------------
  // Choosing the cell to collapse (src/wfc/queueprop_bitarrayset.rs:56-91)

  /** The `len()` of each cell. */
  function Lens(cells: seq<Bits256Set>): (r: seq<nat>)
    ensures |r| == |cells| && forall i :: 0 <= i < |cells| ==> r[i] == cells[i].Len()
  {
    seq(|cells|, i requires 0 <= i < |cells| => cells[i].Len())
  }

  /** `find_minimal`: the position and set of the first cell, in iterator order, with the fewest
    * members above one; `None` iff no cell has more than one. */
  function FindMinimal(d: Dims, cells: seq<Bits256Set>): (r: Option<(Pos, Bits256Set)>)
    requires |cells| == d.Count()
    ensures r.None? <==> forall p :: InGrid(d, p) ==> At(d, cells, p).Len() <= 1
    ensures r.Some? ==> InGrid(d, r.value.0) && r.value.1 == At(d, cells, r.value.0) && r.value.1.Len() > 1
    ensures r.Some? ==> forall q :: InGrid(d, q) && At(d, cells, q).Len() > 1 ==>
      r.value.1.Len() <= At(d, cells, q).Len() &&
      (Index(d, q) < Index(d, r.value.0) ==> r.value.1.Len() < At(d, cells, q).Len())
  {
    AllPositionsOnce(d);
    match MinFold(Lens(cells), |cells|)
    case None => None
    case Some(i) =>
      IndexOfPos(d, i);
      var p := GetPosFromIndex(d, i);
      Some((p, cells[i]))
  }

  // ---------------------------------------------------------------------------
  // Output (src/wfc/queueprop_bitarrayset.rs:106-114)

  /** The first of `items()`, or EMPTY when there is none: the lowest member below 255. */
  function First(cell: Bits256Set): (t: U8)
    ensures (forall u: U8 :: u < 255 ==> !cell.Contains(u)) ==> t == EMPTY
    ensures (exists u: U8 :: u < 255 && cell.Contains(u)) ==>
      t < 255 && cell.Contains(t) && forall u: U8 :: u < 255 && cell.Contains(u) ==> t <= u
  {
    var items := cell.Items();
    if items == [] then EMPTY
    else
      assert forall u: U8 :: u in items ==> items[0] <= u by {
        forall u: U8 | u in items ensures items[0] <= u {
          var j :| 0 <= j < |items| && items[j] == u;
        }
      }
      items[0]
  }

  /** With every member below 255, the first item is what `Formatted` allows. */
  lemma FirstFormatted(cell: Bits256Set)
    requires forall t :: t in cell.Elems() ==> t < 255
    ensures QueueProp.Formatted(cell.Elems(), First(cell))
  {
    if cell.Elems() != {} {
      var u := PickFrom(cell.Elems());
      assert u < 255 && cell.Contains(u);
    } else {
      forall u: U8 | u < 255 ensures !cell.Contains(u) {
        assert u !in cell.Elems();
      }
    }
  }

  /** `format_solution`: every cell, in iterator order, set to its first item or EMPTY. */
  method FormatSolution(solution: Vec3D<Bits256Set>) returns (ret: Vec3D<U8>)
    requires solution.Valid()
    ensures ret.Valid() && ret.Size() == solution.Size()
    ensures forall p :: InGrid(ret.Size(), p) ==> At(ret.Size(), ret.repr[..], p) == First(At(solution.Size(), solution.repr[..], p))
  {
    var d := solution.Size();
    ret := new Vec3D(solution.xSize, solution.ySize, solution.zSize, EMPTY);
    AllPositionsOnce(d);
    var it := new PosIter3D.New(d);
    while true
      invariant it.size == d && !it.noBorder && it.i <= d.Count()
      invariant ret.Valid() && ret.Size() == d && fresh(ret.repr)
      invariant forall j :: 0 <= j < it.i ==> ret.repr[j] == First(solution.repr[j])
      decreases d.Count() - it.i
    {
      var next := it.Next();
      if next.None? {
        break;
      }
      var p := next.value;
      IndexInRange(d, p);
      var cell := solution.Get(p.x, p.y, p.z);
      ret.Set(p.x, p.y, p.z, First(cell));
    }
    forall p | InGrid(d, p) ensures At(d, ret.repr[..], p) == First(At(d, solution.repr[..], p)) {
      IndexInRange(d, p);
    }
  }

  // ---------------------------------------------------------------------------
  // Setup and the solver (src/wfc/queueprop_bitarrayset.rs:20-33, 120-147)

  /** The loop of `prepare_map`: every cell set from `new_from_hash_set(get_any_tile())`, then each
    * non-EMPTY input cell replaced by `new_from_vec([val])` and queued. */
  method SetGiven(grid: Vec3D<U8>) returns (solution: Vec3D<Bits256Set>, toPropagate: seq<Pos>)
    requires grid.Valid()
    ensures solution.Valid() && solution.Size() == grid.Size() && fresh(solution.repr)
    ensures Dom(solution.repr[..]) == Prepared(grid.repr[..])
    ensures forall q :: q in toPropagate ==> InGrid(grid.Size(), q) && At(grid.Size(), grid.repr[..], q) != EMPTY
  {
    var d := grid.Size();
    ghost var tiles := grid.repr[..];
    toPropagate := [];
    var any := NewFromHashSet(AnyTile());
    solution := new Vec3D(grid.xSize, grid.ySize, grid.zSize, any);
    AllPositionsOnce(d);
    var it := new PosIter3D.New(d);
    while true
      invariant it.size == d && !it.noBorder && it.i <= d.Count()
      invariant solution.Valid() && solution.Size() == d && fresh(solution.repr)
      invariant forall j :: 0 <= j < d.Count() ==>
        solution.repr[j].Elems() == if j < it.i then Prepared(tiles)[j] else AnyTile()
      invariant forall q :: q in toPropagate ==> InGrid(d, q) && At(d, tiles, q) != EMPTY
      decreases d.Count() - it.i
    {
      var next := it.Next();
      if next.None? {
        break;
      }
      var p := next.value;
      IndexInRange(d, p);
      var val := grid.Get(p.x, p.y, p.z);
      if val != EMPTY {
        var one := NewFromVec([val]);
        ElemsOf(one, {val});
        solution.Set(p.x, p.y, p.z, one);
        toPropagate := toPropagate + [p];
      }
    }
  }

  /** `prepare_map`: the prepared grid as bit sets, propagated from the queue of given cells. Every
    * queued cell holds one candidate, so the propagation writes nothing. */
  method PrepareMap(grid: Vec3D<U8>, rules: BitTable, ghost r: Table) returns (solution: Vec3D<Bits256Set>)
    requires grid.Valid() && RulesOk(r) && rules == PrepareRules(r)
    requires TableIds(grid.repr[..]) && BorderGiven(grid.Size(), grid.repr[..])
    ensures solution.Valid() && solution.Size() == grid.Size() && fresh(solution.repr)
    ensures Dom(solution.repr[..]) == Prepared(grid.repr[..])
  {
    var d := grid.Size();
    var toPropagate;
    solution, toPropagate := SetGiven(grid);
    PreparedOk(r, d, grid.repr[..]);
    forall q | q in toPropagate ensures |At(d, Dom(solution.repr[..]), q)| <= 1 {
      IndexInRange(d, q);
    }
    Propagate(solution, rules, r, toPropagate);
  }

  /** The output of the solver formats the final sets as `Formatted` allows. */
  lemma OutputFormatted(d: Dims, cells: seq<Bits256Set>, out: seq<U8>)
    requires |cells| == d.Count() && |out| == d.Count() && TilesOk(Dom(cells))
    requires forall p :: InGrid(d, p) ==> At(d, out, p) == First(At(d, cells, p))
    ensures forall p :: InGrid(d, p) ==> QueueProp.Formatted(At(d, Dom(cells), p), At(d, out, p))
  {
    forall p | InGrid(d, p) ensures QueueProp.Formatted(At(d, Dom(cells), p), At(d, out, p)) {
      DomAt(d, cells, p);
      IndexInRange(d, p);
      FirstFormatted(At(d, cells, p));
    }
  }

  /** `QueuePropBitArraySet::solve`: prepare, then repeatedly take the cell `find_minimal` gives,
    * replace it by `new_from_vec` of one of its items (`get_random`, any item here) and propagate
    * from a queue of its six neighbours, until no cell has more than one member; then format.
    * Every non-EMPTY input cell comes out unchanged, and every other cell as a tile of
    * `get_any_tile` or EMPTY. */
  method Solve(grid: Vec3D<U8>, r: Table) returns (result: Vec3D<U8>)
    requires grid.Valid() && RulesOk(r) && TableIds(grid.repr[..]) && BorderGiven(grid.Size(), grid.repr[..])
    ensures result.Valid() && result.Size() == grid.Size()
    ensures SolvedFrom(grid.Size(), grid.repr[..], result.repr[..])
  {
    var d := grid.Size();
    ghost var start := Prepared(grid.repr[..]);
    var rules := PrepareRules(r);
    var solution := PrepareMap(grid, rules, r);
    PreparedOk(r, d, grid.repr[..]);
    while true
      invariant solution.Valid() && solution.Size() == d && fresh(solution.repr)
      invariant QueueProp.SolveInv(r, d, start, Dom(solution.repr[..]))
      decreases Weight(Dom(solution.repr[..]))
    {
      var minimal := FindMinimal(d, solution.repr[..]);
      if minimal.None? {
        result := FormatSolution(solution);
        OutputFormatted(d, solution.repr[..], result.repr[..]);
        QueueProp.OutputTiles(r, d, grid.repr[..], Dom(solution.repr[..]), result.repr[..]);
        return;
      }
      var p := minimal.value.0;
      var current := minimal.value.1;
      ghost var before := solution.repr[..];
      DomAt(d, before, p);
      var t := Pick(current);
      var one := NewFromVec([t]);
      ElemsOf(one, {t});
      IndexInRange(d, p);
      QueueProp.CollapseKeeps(r, d, start, Dom(before), p, t);
      solution.Set(p.x, p.y, p.z, one);
      DomWrite(d, before, p, one);
      ghost var mid := solution.repr[..];
      assert Interior(d, p);
      NeighboursInGrid(d, p);
      Propagate(solution, rules, r, Pushes(p));
      QueueProp.PropagateKeeps(r, d, start, Dom(mid), Dom(solution.repr[..]));
    }
  }

  /** `get_random(current.items())`: some item of a set with a member below 255. */
  method Pick(current: Bits256Set) returns (t: U8)
    requires current.Len() > 1 && forall u :: u in current.Elems() ==> u < 255
    ensures t < 255 && current.Contains(t)
  {
    ghost var u := PickFrom(current.Elems());
    var items := current.Items();
    assert u in items;
    t :| t in items;
  }
}
