/** src/wfc/stackprop.rs: the flag vectors, rule table, `legal_tiles`, `find_minimal` and
  * `format_solution` of `baseline.rs` (the code is the same), with propagation driven by a stack of
  * positions instead of full sweeps. */
module StackProp {
  import opened Prelude
  import opened Vec3
  import opened Rules
  import opened Propagation
  import opened Baseline

  // ---------------------------------------------------------------------------
  // Propagation from a stack (src/wfc/stackprop.rs:43-62)

  /** What holds between the pops of `propagate` started from the flag grid `start`: the grid is
    * narrowed from `start` and only its interior has several candidates; every stacked position
    * is in the grid; if `start` had every unstable cell stacked (`pend`), so does the grid; and if
    * every stacked cell of `start` had at most one candidate (`idle`), nothing has been written. */
  ghost predicate StackInv(r: Table, d: Dims, start: seq<seq<bool>>, cells: seq<seq<bool>>,
                           stack: seq<Pos>, pend: bool, idle: bool)
  {
    CellsOk(cells) && |cells| == d.Count() && |start| == d.Count() &&
    Narrowed(r, d, Dom(start), Dom(cells)) && MultiInterior(d, Dom(cells)) &&
    (forall q :: q in stack ==> InGrid(d, q)) &&
    (pend ==> Pending(r, d, Dom(cells), stack)) &&
    (idle ==> cells == start && forall q :: q in stack ==> InGrid(d, q) && Count(At(d, cells, q)) <= 1)
  }

  /** `work.pop()` returned `p` and left `rest`. */
  predicate Popped(work: seq<Pos>, p: Pos, rest: seq<Pos>) {
    |work| > 0 && p == work[|work| - 1] && rest == work[..|work| - 1]
  }

  lemma PoppedMembers(work: seq<Pos>, p: Pos, rest: seq<Pos>)
    requires Popped(work, p, rest)
    ensures p in work && forall q :: q in work ==> q == p || q in rest
  {
    assert work == rest + [p];
  }

  /** A cell with several candidates in a grid where only the interior has several is interior. */
  lemma SeveralIsInterior(d: Dims, cells: seq<seq<bool>>, p: Pos)
    requires CellsOk(cells) && |cells| == d.Count() && MultiInterior(d, Dom(cells))
    requires InGrid(d, p) && Count(At(d, cells, p)) > 1
    ensures Interior(d, p)
  {
    IndexInRange(d, p);
    DomAt(d, cells, p);
    CountIsSize(At(d, cells, p));
  }

  /** Popping `p` when its cell has at most one candidate: the cell is left alone and the
    * invariant holds for the rest of the stack. */
  lemma PopSettled(r: Table, d: Dims, start: seq<seq<bool>>, cells: seq<seq<bool>>, work: seq<Pos>, p: Pos,
                   rest: seq<Pos>, pend: bool, idle: bool)
    requires StackInv(r, d, start, cells, work, pend, idle) && Popped(work, p, rest)
    requires InGrid(d, p) && Count(At(d, cells, p)) <= 1
    ensures StackInv(r, d, start, cells, rest, pend, idle)
  {
    var g := Dom(cells);
    PoppedMembers(work, p, rest);
    IndexInRange(d, p);
    DomAt(d, cells, p);
    CountIsSize(At(d, cells, p));
    if pend {
      SkipKeepsPending(r, d, g, work, p, rest);
    }
  }

  /** Popping an interior `p` whose legal tiles equal its candidates: nothing is written. */
  lemma PopStable(r: Table, d: Dims, start: seq<seq<bool>>, cells: seq<seq<bool>>, work: seq<Pos>, p: Pos,
                  rest: seq<Pos>, pend: bool, idle: bool)
    requires RulesOk(r) && StackInv(r, d, start, cells, work, pend, idle) && Popped(work, p, rest)
    requires Interior(d, p) && Count(At(d, cells, p)) > 1
    requires LegalTiles(PrepareRules(r), d, cells, p) == At(d, cells, p)
    ensures StackInv(r, d, start, cells, rest, pend, idle)
  {
    PoppedMembers(work, p, rest);
    CellStep(r, d, cells, p);
    if pend {
      SkipKeepsPending(r, d, Dom(cells), work, p, rest);
    }
  }

  /** Popping an interior `p` whose legal tiles differ from its candidates: the cell is rewritten,
    * its six neighbours are pushed, the invariant holds and the total number of candidates
    * drops. */
  lemma PopRewrite(r: Table, d: Dims, start: seq<seq<bool>>, cells: seq<seq<bool>>, work: seq<Pos>, p: Pos,
                   rest: seq<Pos>, pend: bool, idle: bool)
    requires RulesOk(r) && StackInv(r, d, start, cells, work, pend, idle) && Popped(work, p, rest)
    requires Interior(d, p) && Count(At(d, cells, p)) > 1
    requires LegalTiles(PrepareRules(r), d, cells, p) != At(d, cells, p)
    ensures var next := Write(d, cells, p, LegalTiles(PrepareRules(r), d, cells, p));
      StackInv(r, d, start, next, rest + Pushes(p), pend, idle) && Weight(Dom(next)) < Weight(Dom(cells))
  {
    var g := Dom(cells);
    var cell := At(d, cells, p);
    var updated := LegalTiles(PrepareRules(r), d, cells, p);
    var next := Write(d, cells, p, updated);
    PoppedMembers(work, p, rest);
    IndexInRange(d, p);
    DomAt(d, cells, p);
    CountIsSize(cell);
    if idle {
      assert false;
    }
    CellStep(r, d, cells, p);
    NarrowedTrans(r, d, Dom(start), g, Dom(next));
    WriteKeepsMultiInterior(d, g, p, Legal(r, d, g, p));
    NeighboursInGrid(d, p);
    if pend {
      RewriteKeepsPending(r, d, g, work, p, rest);
    }
  }

  /** `propagate`: pops positions off the end of the stack until it is empty; a popped cell with
    * more than one candidate is rewritten with its legal tiles when they differ, and then its six
    * neighbours are pushed (x+1, x-1, y+1, y-1, z+1, z-1). On return the grid is narrowed from the
    * one given; if every unstable cell was stacked, it is a fixed point; and if every stacked cell
    * had at most one candidate, nothing was written. Only interior cells may have several
    * candidates (otherwise the code would step off the grid). */
  method Propagate(solution: Vec3D<seq<bool>>, rules: FlagTable, ghost r: Table, stack: seq<Pos>)
    requires solution.Valid() && RulesOk(r) && rules == PrepareRules(r)
    requires CellsOk(solution.repr[..])
    requires Sound(r, solution.Size(), Dom(solution.repr[..])) && TilesOk(Dom(solution.repr[..]))
    requires MultiInterior(solution.Size(), Dom(solution.repr[..]))
    requires forall q :: q in stack ==> InGrid(solution.Size(), q)
    modifies solution.repr
    ensures CellsOk(solution.repr[..]) && MultiInterior(solution.Size(), Dom(solution.repr[..]))
    ensures Narrowed(r, solution.Size(), Dom(old(solution.repr[..])), Dom(solution.repr[..]))
    ensures Pending(r, solution.Size(), Dom(old(solution.repr[..])), stack) ==>
      FixedPoint(r, solution.Size(), Dom(solution.repr[..]))
    ensures (forall q :: q in stack ==> Count(At(solution.Size(), old(solution.repr[..]), q)) <= 1) ==>
      solution.repr[..] == old(solution.repr[..])
  {
    var d := solution.Size();
    ghost var start := solution.repr[..];
    ghost var pend := Pending(r, d, Dom(start), stack);
    ghost var idle := forall q :: q in stack ==> Count(At(d, start, q)) <= 1;
    NarrowedRefl(r, d, Dom(start));
    var work := stack;
    while |work| > 0
      invariant StackInv(r, d, start, solution.repr[..], work, pend, idle)
      decreases Weight(Dom(solution.repr[..])), |work|
    {
      var p := work[|work| - 1];
      var rest := work[..|work| - 1];
      ghost var cells := solution.repr[..];
      ghost var popped := work;
      PoppedMembers(work, p, rest);
      IndexInRange(d, p);
      work := rest;
      var cell := solution.Get(p.x, p.y, p.z);
      if Count(cell) > 1 {
        SeveralIsInterior(d, cells, p);
        var updated := LegalTiles(rules, d, solution.repr[..], p);
        if updated != cell {
          PopRewrite(r, d, start, cells, popped, p, rest, pend, idle);
          solution.Set(p.x, p.y, p.z, updated);
          work := work + Pushes(p);
        } else {
          PopStable(r, d, start, cells, popped, p, rest, pend, idle);
        }
      } else {
        PopSettled(r, d, start, cells, popped, p, rest, pend, idle);
      }
    }
    if pend {
      PendingEmpty(r, d, Dom(solution.repr[..]));
    }
  }

  // ---------------------------------------------------------------------------
  // Setup and the solver (src/wfc/stackprop.rs:28-41, 186-222)

  /** A cell holding one tile has a single set flag. */
  lemma OneFlag(t: U8)
    requires t < FLAGS
    ensures Count(PreparedCell(t)) == if t == EMPTY then |AnyTile()| else 1
  {
    CountIsSize(PreparedCell(t));
  }

  /** `prepare_map`: a grid of `get_any_tile` vectors, every non-EMPTY input cell replaced by its
    * tile alone and stacked, then propagated from that stack. Every stacked cell holds one
    * candidate, so the propagation writes nothing: the result is exactly the prepared grid. */
  method PrepareMap(grid: Vec3D<U8>, rules: FlagTable, ghost r: Table) returns (solution: Vec3D<seq<bool>>)
    requires grid.Valid() && RulesOk(r) && rules == PrepareRules(r) && TableIds(grid.repr[..])
    requires BorderGiven(grid.Size(), grid.repr[..])
    ensures solution.Valid() && solution.Size() == grid.Size() && fresh(solution.repr)
    ensures CellsOk(solution.repr[..]) && Dom(solution.repr[..]) == Prepared(grid.repr[..])
  {
    var d := grid.Size();
    var toPropagate;
    solution, toPropagate := SetGiven(grid);
    PreparedCells(d, grid.repr[..], solution.repr[..]);
    PreparedOk(r, d, grid.repr[..]);
    forall q | q in toPropagate ensures Count(At(d, solution.repr[..], q)) <= 1 {
      IndexInRange(d, q);
      OneFlag(At(d, grid.repr[..], q));
    }
    Propagate(solution, rules, r, toPropagate);
  }

  /** The loop of `prepare_map`: every cell prepared from its input tile, and the positions of the
    * non-EMPTY ones stacked. */
  method SetGiven(grid: Vec3D<U8>) returns (solution: Vec3D<seq<bool>>, toPropagate: seq<Pos>)
    requires grid.Valid() && TableIds(grid.repr[..])
    ensures solution.Valid() && solution.Size() == grid.Size() && fresh(solution.repr)
    ensures forall j :: 0 <= j < grid.Size().Count() ==> solution.repr[j] == PreparedCell(grid.repr[j])
    ensures forall q :: q in toPropagate ==> InGrid(grid.Size(), q) && At(grid.Size(), grid.repr[..], q) != EMPTY
  {
    var d := grid.Size();
    ghost var tiles := grid.repr[..];
    var any := VecBoolSetFromSet(AnyTile());
    toPropagate := [];
    solution := new Vec3D(grid.xSize, grid.ySize, grid.zSize, any);
    AllPositionsOnce(d);
    var it := new PosIter3D.New(d);
    while true
      invariant it.size == d && !it.noBorder && it.i <= d.Count()
      invariant solution.Valid() && solution.Size() == d && fresh(solution.repr)
      invariant forall j :: 0 <= j < d.Count() ==>
        solution.repr[j] == if j < it.i then PreparedCell(tiles[j]) else any
      invariant forall q :: q in toPropagate ==> InGrid(d, q) && At(d, tiles, q) != EMPTY
      decreases d.Count() - it.i
    {
      var next := it.Next();
      if next.None? {
        break;
      }
      var p := next.value;
      IndexInRange(d, p);
      var val := grid.Get(p.x, p.y, p.z);
      if val != EMPTY {
        solution.Set(p.x, p.y, p.z, VecBoolSetFrom([val]));
        toPropagate := toPropagate + [p];
      }
    }
  }

  /** A grid of prepared cells stands for the prepared sets. */
  lemma PreparedCells(d: Dims, tiles: seq<U8>, cells: seq<seq<bool>>)
    requires |tiles| == d.Count() && |cells| == d.Count() && TableIds(tiles)
    requires forall j :: 0 <= j < d.Count() ==> cells[j] == PreparedCell(tiles[j])
    ensures CellsOk(cells) && Dom(cells) == Prepared(tiles)
  {
  }

  /** A collapse of an interior cell keeps only interior cells with several candidates. */
  lemma CollapseKeepsMultiInterior(d: Dims, cells: seq<seq<bool>>, next: seq<seq<bool>>, p: Pos, t: U8)
    requires |cells| == d.Count() && MultiInterior(d, Dom(cells)) && InGrid(d, p) && t < FLAGS
    requires next == Write(d, cells, p, VecBoolSetFrom([t]))
    ensures MultiInterior(d, Dom(next))
  {
    DomWrite(d, cells, p, VecBoolSetFrom([t]));
    assert Members(VecBoolSetFrom([t])) == {t};
    WriteKeepsMultiInterior(d, Dom(cells), p, Members(VecBoolSetFrom([t])));
  }

  /** `StackProp::solve`: prepare, then repeatedly choose the cell `find_minimal` gives, replace
    * its candidates by one of them (`get_random`, any member here) and propagate from a stack of
    * its six neighbours, until no cell has more than one candidate; then format. Every non-EMPTY
    * input cell comes out unchanged, and every other cell as a tile of `get_any_tile` or EMPTY. */
  method Solve(grid: Vec3D<U8>, r: Table) returns (result: Vec3D<U8>)
    requires grid.Valid() && RulesOk(r) && TableIds(grid.repr[..]) && BorderGiven(grid.Size(), grid.repr[..])
    ensures result.Valid() && result.Size() == grid.Size()
    ensures SolvedFrom(grid.Size(), grid.repr[..], result.repr[..])
  {
    var d := grid.Size();
    ghost var start := Prepared(grid.repr[..]);
    var rules := PrepareRules(r);
    var solution := PrepareMap(grid, rules, r);
    PreparedOk(r, d, grid.repr[..]);
    NarrowedRefl(r, d, start);
    PreparedInv(r, d, start, solution.repr[..]);
    while true
      invariant solution.Valid() && solution.Size() == d && fresh(solution.repr)
      invariant SolveInv(r, d, start, solution.repr[..]) && MultiInterior(d, Dom(solution.repr[..]))
      decreases Weight(Dom(solution.repr[..]))
    {
      var minimal := FindMinimal(d, solution.repr[..]);
      if minimal.None? {
        result := FormatSolution(solution);
        OutputTiles(r, d, grid.repr[..], solution.repr[..], result.repr[..]);
        return;
      }
      var p := minimal.value.0;
      ghost var before := solution.repr[..];
      SeveralIsInterior(d, before, p);
      Collapse(solution, p, minimal.value.1, r, start);
      ghost var t :| t in Members(minimal.value.1) && solution.repr[..] == Write(d, before, p, VecBoolSetFrom([t]));
      CollapseKeepsMultiInterior(d, before, solution.repr[..], p, t);
      ghost var mid := solution.repr[..];
      NeighboursInGrid(d, p);
      Propagate(solution, rules, r, Pushes(p));
      PropagateKeeps(r, d, start, mid, solution.repr[..]);
    }
  }
}
