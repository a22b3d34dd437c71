/** src/wfc/simple.rs: the naive solver. It works directly on a grid of tiles: it repeatedly fills
  * every EMPTY interior cell that has exactly one legal tile, and when a whole sweep fills nothing,
  * it fills the EMPTY interior cell with the fewest (but some) legal tiles with a random one. */
module Simple {
  import opened Prelude
  import opened Vec3
  import opened Rules
  import opened Propagation

  /** `usize::MAX`, the "nothing found yet" value of the minimum search. */
  const USIZE_MAX: int := 0xFFFF_FFFF_FFFF_FFFF

  /** `Simple::legal_tiles`: the intersection of the six neighbour rule sets. */
  function LegalTiles(solution: Vec3D<U8>, x: nat, y: nat, z: nat, rules: Table): (r: set<U8>)
    reads solution.repr
    requires solution.Valid() && WellFormed(rules)
    requires NeighboursIndexable(rules, solution.Size(), solution.repr[..])
    requires Interior(solution.Size(), Pos(x, y, z))
    ensures r == TileLegal(rules, solution.Size(), solution.repr[..], Pos(x, y, z))
  {
    var p := Pos(x, y, z);
    rules[NeighbourTile(solution, rules, p, 1)].Down() * rules[NeighbourTile(solution, rules, p, 0)].Up()
      * rules[NeighbourTile(solution, rules, p, 3)].Left() * rules[NeighbourTile(solution, rules, p, 2)].Right()
      * rules[NeighbourTile(solution, rules, p, 4)].Front() * rules[NeighbourTile(solution, rules, p, 5)].Back()
  }

  /** `is_collapsible`: exactly one legal tile. */
  function IsCollapsible(legal: set<U8>): (r: bool)
    ensures r <==> exists t :: legal == {t}
  {
    if |legal| == 1 then
      var t := PickFrom(legal);
      assert legal == {t} by { SingletonOfSizeOne(legal, t); }
      true
    else
      false
  }

  lemma SingletonOfSizeOne(s: set<U8>, t: U8)
    requires |s| == 1 && t in s
    ensures s == {t}
  {
    if s != {t} {
      var u := PickFrom(s - {t});
      SubsetSize({t, u}, s);
    }
  }

  // ---------------------------------------------------------------------------
  // Invariants

  /** Table ids and a table of at least 255 entries: every neighbour read is in range. */
  lemma IdsIndexable(rules: Table, d: Dims, tiles: seq<U8>)
    requires |rules| >= 255 && |tiles| == d.Count() && TableIds(tiles)
    ensures NeighboursIndexable(rules, d, tiles)
  {
    forall p, k | Interior(d, p) && 0 <= k < 6 ensures At(d, tiles, Neighbour(p, k)) < |rules| {
      NeighboursInGrid(d, p);
      IndexInRange(d, Neighbour(p, k));
    }
  }

  /** Only EMPTY interior cells of the input have been written, and only with tiles of
    * `get_any_tile`. */
  ghost predicate Preserves(d: Dims, input: seq<U8>, cur: seq<U8>) {
    |input| == d.Count() && |cur| == d.Count() &&
    forall p :: InGrid(d, p) ==>
      if Interior(d, p) && At(d, input, p) == EMPTY then At(d, cur, p) == EMPTY || At(d, cur, p) in AnyTile()
      else At(d, cur, p) == At(d, input, p)
  }

  /** The number of EMPTY cells, which every write lowers. */
  function EmptyCount(tiles: seq<U8>): nat {
    if tiles == [] then 0 else EmptyCount(tiles[..|tiles| - 1]) + if tiles[|tiles| - 1] == EMPTY then 1 else 0
  }

  lemma {:induction false} EmptyCountUpdate(tiles: seq<U8>, i: nat, v: U8)
    requires i < |tiles| && tiles[i] == EMPTY && v != EMPTY
    ensures EmptyCount(tiles[i := v]) == EmptyCount(tiles) - 1
    decreases |tiles|
  {
    var n := |tiles| - 1;
    if i < n {
      EmptyCountUpdate(tiles[..n], i, v);
      assert tiles[i := v][..n] == tiles[..n][i := v];
    } else {
      assert tiles[i := v][..n] == tiles[..n];
    }
  }

  /** Filling an EMPTY interior cell with a tile of `get_any_tile` keeps every invariant and lowers
    * the EMPTY count. */
  lemma FillKeeps(d: Dims, input: seq<U8>, cur: seq<U8>, p: Pos, t: U8)
    requires Preserves(d, input, cur) && TableIds(cur)
    requires Interior(d, p) && At(d, cur, p) == EMPTY && t in AnyTile()
    ensures Preserves(d, input, Write(d, cur, p, t)) && TableIds(Write(d, cur, p, t))
    ensures EmptyCount(Write(d, cur, p, t)) == EmptyCount(cur) - 1
    ensures At(d, Write(d, cur, p, t), p) == t
  {
    AtUpdate(d, cur, p, t);
    EmptyCountUpdate(cur, Index(d, p), t);
  }

  /** A legal tile of a cell is a tile of `get_any_tile`, so writing it into an EMPTY interior
    * cell keeps the invariants. */
  lemma CollapseKeeps(rules: Table, d: Dims, input: seq<U8>, cur: seq<U8>, p: Pos, t: U8)
    requires RulesOk(rules) && Preserves(d, input, cur) && TableIds(cur)
    requires Interior(d, p) && At(d, cur, p) == EMPTY
    requires NeighboursIndexable(rules, d, cur) && t in TileLegal(rules, d, cur, p)
    ensures Preserves(d, input, Write(d, cur, p, t)) && TableIds(Write(d, cur, p, t))
    ensures EmptyCount(Write(d, cur, p, t)) == EmptyCount(cur) - 1
    ensures At(d, Write(d, cur, p, t), p) == t
  {
    LegalWithinAnyTile(rules, d, Singletons(cur), p);
    TileLegalIsLegal(rules, d, cur, p);
    FillKeeps(d, input, cur, p, t);
  }

  // ---------------------------------------------------------------------------
  // The collapse sweep (src/wfc/simple.rs:13-28)

  /** The body of the sweep at `(x, y, z)`: an EMPTY cell with exactly one legal tile gets it. */
  method CollapseCell(solution: Vec3D<U8>, rules: Table, ghost input: seq<U8>, x: nat, y: nat, z: nat)
    returns (collapsed: bool)
    requires solution.Valid() && RulesOk(rules) && Interior(solution.Size(), Pos(x, y, z))
    requires Preserves(solution.Size(), input, solution.repr[..]) && TableIds(solution.repr[..])
    requires NeighboursIndexable(rules, solution.Size(), solution.repr[..])
    modifies solution.repr
    ensures Preserves(solution.Size(), input, solution.repr[..]) && TableIds(solution.repr[..])
    ensures collapsed ==> EmptyCount(solution.repr[..]) == EmptyCount(old(solution.repr[..])) - 1
    ensures !collapsed ==> solution.repr[..] == old(solution.repr[..])
    ensures collapsed <==> (At(solution.Size(), old(solution.repr[..]), Pos(x, y, z)) == EMPTY &&
      |TileLegal(rules, solution.Size(), old(solution.repr[..]), Pos(x, y, z))| == 1)
    ensures collapsed ==>
      var t := At(solution.Size(), solution.repr[..], Pos(x, y, z));
      TileLegal(rules, solution.Size(), old(solution.repr[..]), Pos(x, y, z)) == {t} &&
      solution.repr[..] == Write(solution.Size(), old(solution.repr[..]), Pos(x, y, z), t)
  {
    var d := solution.Size();
    var p := Pos(x, y, z);
    IndexInRange(d, p);
    collapsed := false;
    if solution.Get(x, y, z) == EMPTY {
      var legal := LegalTiles(solution, x, y, z, rules);
      if IsCollapsible(legal) {
        var t :| t in legal;
        SingletonOfSizeOne(legal, t);
        CollapseKeeps(rules, d, input, solution.repr[..], p, t);
        solution.Set(x, y, z, t);
        collapsed := true;
      }
    }
  }

  /** No EMPTY interior cell the sweep has passed has exactly one legal tile. */
  ghost predicate NoneCollapsibleBefore(rules: Table, d: Dims, tiles: seq<U8>, x: nat, y: nat, z: nat)
    requires WellFormed(rules) && NeighboursIndexable(rules, d, tiles)
  {
    forall p :: Interior(d, p) && LexBefore(p, x, y, z) && At(d, tiles, p) == EMPTY ==>
      |TileLegal(rules, d, tiles, p)| != 1
  }

  /** No EMPTY interior cell has exactly one legal tile: a sweep over this grid fills nothing. */
  ghost predicate Stuck(rules: Table, d: Dims, tiles: seq<U8>)
    requires WellFormed(rules) && NeighboursIndexable(rules, d, tiles)
  {
    forall p :: Interior(d, p) && At(d, tiles, p) == EMPTY ==> |TileLegal(rules, d, tiles, p)| != 1
  }

  lemma NoneCollapsibleStep(rules: Table, d: Dims, tiles: seq<U8>, x: nat, y: nat, z: nat)
    requires WellFormed(rules) && NeighboursIndexable(rules, d, tiles) && Interior(d, Pos(x, y, z))
    requires NoneCollapsibleBefore(rules, d, tiles, x, y, z)
    requires At(d, tiles, Pos(x, y, z)) == EMPTY ==> |TileLegal(rules, d, tiles, Pos(x, y, z))| != 1
    ensures NoneCollapsibleBefore(rules, d, tiles, x, y, z + 1)
  {
  }

  /** Running off the end of an axis moves the frontier to the next row, the next layer, or past
    * every interior cell. */
  lemma NoneCollapsibleRowDone(rules: Table, d: Dims, tiles: seq<U8>, x: nat, y: nat, z: nat)
    requires WellFormed(rules) && NeighboursIndexable(rules, d, tiles)
    requires NoneCollapsibleBefore(rules, d, tiles, x, y, z)
    ensures z >= d.zs - 1 ==> NoneCollapsibleBefore(rules, d, tiles, x, y + 1, 1)
    ensures z == 1 && y >= d.ys - 1 ==> NoneCollapsibleBefore(rules, d, tiles, x + 1, 1, 1)
    ensures z == 1 && y == 1 && x >= d.xs - 1 ==> Stuck(rules, d, tiles)
  {
  }

  /** What holds while a sweep is at `(x, y, z)`, having started from `before`. */
  ghost predicate SweepInv(rules: Table, d: Dims, input: seq<U8>, before: seq<U8>, cur: seq<U8>,
                           collapsed: bool, x: nat, y: nat, z: nat)
  {
    |rules| >= 255 && WellFormed(rules) &&
    Preserves(d, input, cur) && TableIds(cur) && NeighboursIndexable(rules, d, cur) &&
    |before| == d.Count() && NeighboursIndexable(rules, d, before) &&
    (collapsed ==> EmptyCount(cur) < EmptyCount(before)) &&
    (!collapsed ==> cur == before && NoneCollapsibleBefore(rules, d, before, x, y, z))
  }

  lemma SweepCellStep(rules: Table, d: Dims, input: seq<U8>, before: seq<U8>, cur: seq<U8>, next: seq<U8>,
                      collapsed: bool, c: bool, x: nat, y: nat, z: nat)
    requires SweepInv(rules, d, input, before, cur, collapsed, x, y, z) && Interior(d, Pos(x, y, z))
    requires Preserves(d, input, next) && TableIds(next)
    requires c ==> EmptyCount(next) == EmptyCount(cur) - 1
    requires !c ==> next == cur
    requires c <==> (At(d, cur, Pos(x, y, z)) == EMPTY && |TileLegal(rules, d, cur, Pos(x, y, z))| == 1)
    ensures SweepInv(rules, d, input, before, next, collapsed || c, x, y, z + 1)
  {
    IdsIndexable(rules, d, next);
    if c {
      assert EmptyCount(next) < EmptyCount(before);
    } else if !collapsed {
      NoneCollapsibleStep(rules, d, before, x, y, z);
    }
  }

  /** One pass of the three loops of `solve` (src/wfc/simple.rs:13-28). Cells filled earlier in
    * the pass are already seen by later cells. Either some cell was filled (and the EMPTY count
    * went down), or nothing changed and no EMPTY interior cell has exactly one legal tile. */
  method Sweep(solution: Vec3D<U8>, rules: Table, ghost input: seq<U8>) returns (collapsed: bool)
    requires solution.Valid() && RulesOk(rules)
    requires Preserves(solution.Size(), input, solution.repr[..]) && TableIds(solution.repr[..])
    modifies solution.repr
    ensures Preserves(solution.Size(), input, solution.repr[..]) && TableIds(solution.repr[..])
    ensures collapsed ==> EmptyCount(solution.repr[..]) < EmptyCount(old(solution.repr[..]))
    ensures !collapsed ==> solution.repr[..] == old(solution.repr[..])
    ensures !collapsed ==> (NeighboursIndexable(rules, solution.Size(), solution.repr[..]) &&
      Stuck(rules, solution.Size(), solution.repr[..]))
  {
    var d := solution.Size();
    ghost var before := solution.repr[..];
    IdsIndexable(rules, d, before);
    collapsed := false;
    var x := 1;
    while x < solution.xSize - 1
      invariant 1 <= x
      invariant SweepInv(rules, d, input, before, solution.repr[..], collapsed, x, 1, 1)
    {
      var y := 1;
      while y < solution.ySize - 1
        invariant 1 <= y
        invariant SweepInv(rules, d, input, before, solution.repr[..], collapsed, x, y, 1)
      {
        var z := 1;
        while z < solution.zSize - 1
          invariant 1 <= z
          invariant SweepInv(rules, d, input, before, solution.repr[..], collapsed, x, y, z)
        {
          ghost var cur := solution.repr[..];
          var c := CollapseCell(solution, rules, input, x, y, z);
          SweepCellStep(rules, d, input, before, cur, solution.repr[..], collapsed, c, x, y, z);
          collapsed := collapsed || c;
          z := z + 1;
        }
        if !collapsed {
          NoneCollapsibleRowDone(rules, d, before, x, y, z);
        }
        y := y + 1;
      }
      if !collapsed {
        NoneCollapsibleRowDone(rules, d, before, x, y, 1);
      }
      x := x + 1;
    }
    if !collapsed {
      NoneCollapsibleRowDone(rules, d, before, x, 1, 1);
    }
  }

  // ---------------------------------------------------------------------------
  // The minimum search (src/wfc/simple.rs:29-42)

  /** Any set of `u8` has at most 256 members, far below `usize::MAX`. */
  lemma SmallSet(s: set<U8>)
    ensures |s| <= 256
  {
    SubsetSize(s, IdsBelow(256));
  }

  /** An EMPTY interior cell with at least one legal tile: a cell the search may pick. */
  ghost predicate Open(rules: Table, d: Dims, tiles: seq<U8>, p: Pos)
    requires WellFormed(rules) && NeighboursIndexable(rules, d, tiles)
  {
    Interior(d, p) && At(d, tiles, p) == EMPTY && |TileLegal(rules, d, tiles, p)| > 0
  }

  /** `min_position` is the first open cell (in loop order) with the fewest legal tiles among the
    * open cells before `(x, y, z)`, and `min` is that count; `min` stays `usize::MAX` while there
    * is none. */
  ghost predicate MinBefore(rules: Table, d: Dims, tiles: seq<U8>, x: nat, y: nat, z: nat, min: int, minPos: Pos)
    requires WellFormed(rules) && NeighboursIndexable(rules, d, tiles)
  {
    (min == USIZE_MAX ==> forall p :: LexBefore(p, x, y, z) ==> !Open(rules, d, tiles, p)) &&
    (min != USIZE_MAX ==>
      LexBefore(minPos, x, y, z) && Open(rules, d, tiles, minPos) &&
      min == |TileLegal(rules, d, tiles, minPos)| &&
      forall p :: LexBefore(p, x, y, z) && Open(rules, d, tiles, p) ==>
        min <= |TileLegal(rules, d, tiles, p)| &&
        (LexBefore(p, minPos.x, minPos.y, minPos.z) ==> min < |TileLegal(rules, d, tiles, p)|))
  }

  /** The result of the search over the whole interior. */
  ghost predicate FirstMinimal(rules: Table, d: Dims, tiles: seq<U8>, min: int, minPos: Pos)
    requires WellFormed(rules) && NeighboursIndexable(rules, d, tiles)
  {
    (min == USIZE_MAX <==> forall p :: !Open(rules, d, tiles, p)) &&
    (min != USIZE_MAX ==>
      Open(rules, d, tiles, minPos) && min == |TileLegal(rules, d, tiles, minPos)| &&
      forall p :: Open(rules, d, tiles, p) ==>
        min <= |TileLegal(rules, d, tiles, p)| &&
        (LexBefore(p, minPos.x, minPos.y, minPos.z) ==> min < |TileLegal(rules, d, tiles, p)|))
  }

  lemma MinStep(rules: Table, d: Dims, tiles: seq<U8>, x: nat, y: nat, z: nat, min: int, minPos: Pos,
                min': int, minPos': Pos)
    requires WellFormed(rules) && NeighboursIndexable(rules, d, tiles) && Interior(d, Pos(x, y, z))
    requires MinBefore(rules, d, tiles, x, y, z, min, minPos)
    requires var n := |TileLegal(rules, d, tiles, Pos(x, y, z))|;
      if At(d, tiles, Pos(x, y, z)) == EMPTY && n > 0 && n < min then min' == n && minPos' == Pos(x, y, z)
      else min' == min && minPos' == minPos
    ensures MinBefore(rules, d, tiles, x, y, z + 1, min', minPos')
  {
    var c := Pos(x, y, z);
    var n := |TileLegal(rules, d, tiles, c)|;
    if At(d, tiles, c) == EMPTY && n > 0 && n < min {
      MinStepTaken(rules, d, tiles, x, y, z, min, minPos);
    } else {
      MinStepKept(rules, d, tiles, x, y, z, min, minPos);
    }
  }

  /** `MinStep` when the cell at `(x, y, z)` is open with fewer legal tiles than `min`. */
  lemma MinStepTaken(rules: Table, d: Dims, tiles: seq<U8>, x: nat, y: nat, z: nat, min: int, minPos: Pos)
    requires WellFormed(rules) && NeighboursIndexable(rules, d, tiles) && Interior(d, Pos(x, y, z))
    requires MinBefore(rules, d, tiles, x, y, z, min, minPos)
    requires var n := |TileLegal(rules, d, tiles, Pos(x, y, z))|;
      At(d, tiles, Pos(x, y, z)) == EMPTY && n > 0 && n < min
    ensures MinBefore(rules, d, tiles, x, y, z + 1, |TileLegal(rules, d, tiles, Pos(x, y, z))|, Pos(x, y, z))
  {
    var c := Pos(x, y, z);
    var n := |TileLegal(rules, d, tiles, c)|;
    SmallSet(TileLegal(rules, d, tiles, c));
    assert Open(rules, d, tiles, c);
    forall p | LexBefore(p, x, y, z + 1) && Open(rules, d, tiles, p)
      ensures n <= |TileLegal(rules, d, tiles, p)| && (LexBefore(p, x, y, z) ==> n < |TileLegal(rules, d, tiles, p)|)
    {
      if p != c {
        assert LexBefore(p, x, y, z);
      }
    }
  }

  /** `MinStep` when the cell at `(x, y, z)` does not beat `min`. */
  lemma MinStepKept(rules: Table, d: Dims, tiles: seq<U8>, x: nat, y: nat, z: nat, min: int, minPos: Pos)
    requires WellFormed(rules) && NeighboursIndexable(rules, d, tiles) && Interior(d, Pos(x, y, z))
    requires MinBefore(rules, d, tiles, x, y, z, min, minPos)
    requires var n := |TileLegal(rules, d, tiles, Pos(x, y, z))|;
      !(At(d, tiles, Pos(x, y, z)) == EMPTY && n > 0 && n < min)
    ensures MinBefore(rules, d, tiles, x, y, z + 1, min, minPos)
  {
    var c := Pos(x, y, z);
    var n := |TileLegal(rules, d, tiles, c)|;
    SmallSet(TileLegal(rules, d, tiles, c));
    assert !Open(rules, d, tiles, c) || min <= n;
    forall p | LexBefore(p, x, y, z + 1) && !LexBefore(p, x, y, z) ensures p == c { }
  }

  /** The `z` loop has passed the last interior cell of row `(x, y)`. */
  lemma MinRowDone(rules: Table, d: Dims, tiles: seq<U8>, x: nat, y: nat, z: nat, min: int, minPos: Pos)
    requires WellFormed(rules) && NeighboursIndexable(rules, d, tiles)
    requires MinBefore(rules, d, tiles, x, y, z, min, minPos) && z >= d.zs - 1
    ensures MinBefore(rules, d, tiles, x, y + 1, 1, min, minPos)
  {
  }

  /** The `y` loop has passed the last interior row of plane `x`. */
  lemma MinPlaneDone(rules: Table, d: Dims, tiles: seq<U8>, x: nat, y: nat, min: int, minPos: Pos)
    requires WellFormed(rules) && NeighboursIndexable(rules, d, tiles)
    requires MinBefore(rules, d, tiles, x, y, 1, min, minPos) && y >= d.ys - 1
    ensures MinBefore(rules, d, tiles, x + 1, 1, 1, min, minPos)
  {
  }

  /** The `x` loop has passed the last interior plane. */
  lemma MinSearchDone(rules: Table, d: Dims, tiles: seq<U8>, x: nat, min: int, minPos: Pos)
    requires WellFormed(rules) && NeighboursIndexable(rules, d, tiles)
    requires MinBefore(rules, d, tiles, x, 1, 1, min, minPos) && x >= d.xs - 1
    ensures FirstMinimal(rules, d, tiles, min, minPos)
  {
    if min != USIZE_MAX {
      assert Open(rules, d, tiles, minPos);
    }
  }

  /** One iteration of the innermost search loop: the cell at `(x, y, z)` replaces the current
    * minimum when it is EMPTY and has some, but strictly fewer, legal tiles. */
  method ConsiderCell(solution: Vec3D<U8>, rules: Table, x: nat, y: nat, z: nat, min: int, minPos: Pos)
    returns (min': int, minPos': Pos)
    requires solution.Valid() && WellFormed(rules)
    requires NeighboursIndexable(rules, solution.Size(), solution.repr[..])
    requires Interior(solution.Size(), Pos(x, y, z))
    requires MinBefore(rules, solution.Size(), solution.repr[..], x, y, z, min, minPos)
    ensures MinBefore(rules, solution.Size(), solution.repr[..], x, y, z + 1, min', minPos')
  {
    IndexInRange(solution.Size(), Pos(x, y, z));
    var n := |LegalTiles(solution, x, y, z, rules)|;
    min', minPos' := min, minPos;
    if solution.Get(x, y, z) == EMPTY && n > 0 && n < min {
      min', minPos' := n, Pos(x, y, z);
    }
    MinStep(rules, solution.Size(), solution.repr[..], x, y, z, min, minPos, min', minPos');
  }

  /** The innermost search loop, over `z` along the row `(x, y)`. */
  method SearchRow(solution: Vec3D<U8>, rules: Table, x: nat, y: nat, min: int, minPos: Pos)
    returns (min': int, minPos': Pos)
    requires solution.Valid() && WellFormed(rules)
    requires NeighboursIndexable(rules, solution.Size(), solution.repr[..])
    requires 0 < x < solution.xSize - 1 && 0 < y < solution.ySize - 1
    requires MinBefore(rules, solution.Size(), solution.repr[..], x, y, 1, min, minPos)
    ensures MinBefore(rules, solution.Size(), solution.repr[..], x, y + 1, 1, min', minPos')
  {
    ghost var d := solution.Size();
    ghost var tiles := solution.repr[..];
    min', minPos' := min, minPos;
    var z := 1;
    while z < solution.zSize - 1
      invariant 1 <= z
      invariant MinBefore(rules, d, tiles, x, y, z, min', minPos')
    {
      min', minPos' := ConsiderCell(solution, rules, x, y, z, min', minPos');
      z := z + 1;
    }
    MinRowDone(rules, d, tiles, x, y, z, min', minPos');
  }

  /** The search of `solve`: the open cell with the fewest legal tiles, the first one in loop order
    * on a tie (`<` keeps the earlier cell), or `usize::MAX` when no cell is open. */
  method FindMinimum(solution: Vec3D<U8>, rules: Table) returns (min: int, minPos: Pos)
    requires solution.Valid() && WellFormed(rules)
    requires NeighboursIndexable(rules, solution.Size(), solution.repr[..])
    ensures FirstMinimal(rules, solution.Size(), solution.repr[..], min, minPos)
  {
    var d := solution.Size();
    ghost var tiles := solution.repr[..];
    min, minPos := USIZE_MAX, Pos(0, 0, 0);
    var x := 1;
    while x < solution.xSize - 1
      invariant 1 <= x
      invariant MinBefore(rules, d, tiles, x, 1, 1, min, minPos)
    {
      var y := 1;
      while y < solution.ySize - 1
        invariant 1 <= y
        invariant MinBefore(rules, d, tiles, x, y, 1, min, minPos)
      {
        min, minPos := SearchRow(solution, rules, x, y, min, minPos);
        y := y + 1;
      }
      MinPlaneDone(rules, d, tiles, x, y, min, minPos);
      x := x + 1;
    }
    MinSearchDone(rules, d, tiles, x, min, minPos);
  }

  // ---------------------------------------------------------------------------
  // The solver (src/wfc/simple.rs:9-53)

  /** `Simple::solve`: sweeps until a sweep fills nothing, then fills the first cell with the fewest
    * legal tiles with one of them (`get_random` is any member here), and stops when no EMPTY
    * interior cell has a legal tile left. Only EMPTY interior cells of the input are ever written,
    * always with a tile of `get_any_tile`, and at the end every interior cell still EMPTY has no
    * legal tile: the solver gives up on a cell only when its neighbours rule out everything. */
  method Solve(grid: Vec3D<U8>, rules: Table) returns (solution: Vec3D<U8>)
    requires grid.Valid() && RulesOk(rules) && TableIds(grid.repr[..])
    requires grid.xSize >= 1 && grid.ySize >= 1 && grid.zSize >= 1
    ensures solution.Valid() && solution.Size() == grid.Size()
    ensures Preserves(grid.Size(), grid.repr[..], solution.repr[..]) && TableIds(solution.repr[..])
    ensures NeighboursIndexable(rules, grid.Size(), solution.repr[..])
    ensures forall p :: Interior(grid.Size(), p) && At(grid.Size(), solution.repr[..], p) == EMPTY ==>
      TileLegal(rules, grid.Size(), solution.repr[..], p) == {}
  {
    var d := grid.Size();
    ghost var input := grid.repr[..];
    solution := grid.Clone();
    while true
      invariant solution.Valid() && solution.Size() == d && fresh(solution.repr)
      invariant Preserves(d, input, solution.repr[..]) && TableIds(solution.repr[..])
      decreases EmptyCount(solution.repr[..])
    {
      var collapsed := Sweep(solution, rules, input);
      if !collapsed {
        var min, minPos := FindMinimum(solution, rules);
        if min != USIZE_MAX {
          IndexInRange(d, minPos);
          var legal := LegalTiles(solution, minPos.x, minPos.y, minPos.z, rules);
          var t :| t in legal;
          CollapseKeeps(rules, d, input, solution.repr[..], minPos, t);
          solution.Set(minPos.x, minPos.y, minPos.z, t);
        } else {
          NoOpenCell(rules, d, solution.repr[..]);
          return;
        }
      }
    }
  }

  /** Stuck and nothing open: every EMPTY interior cell has an empty set of legal tiles. */
  lemma NoOpenCell(rules: Table, d: Dims, tiles: seq<U8>)
    requires WellFormed(rules) && NeighboursIndexable(rules, d, tiles)
    requires forall p :: !Open(rules, d, tiles, p)
    ensures forall p :: Interior(d, p) && At(d, tiles, p) == EMPTY ==> TileLegal(rules, d, tiles, p) == {}
  {
    forall p | Interior(d, p) && At(d, tiles, p) == EMPTY ensures TileLegal(rules, d, tiles, p) == {} {
      assert !Open(rules, d, tiles, p);
    }
  }
}
