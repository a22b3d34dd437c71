/** src/wfc/baseline.rs: candidates as `Vec<bool>` of 255 flags (entry `i` for id `i`), a rule
  * table converted to the same form, and propagation by full sweeps of the interior until a sweep
  * changes nothing. */
module Baseline {
  import opened Prelude
  import opened Vec3
  import opened DirectionMappings
  import opened Rules
  import opened Propagation

  /** The length of every flag vector: the ids `0..u8::MAX`, so id 255 has no flag. */
  const FLAGS: nat := 255

  // ---------------------------------------------------------------------------
  // Flag vectors

  /** The ids whose flag is set. */
  ghost function Members(v: seq<bool>): (r: set<U8>)
    ensures forall t: U8 :: t in r <==> t < |v| && v[t]
  {
    set t: U8 | t < |v| && v[t]
  }

  /** `.iter().filter(|&&x| x).count()`: the number of set flags. */
  function Count(v: seq<bool>): (n: nat)
    ensures n <= |v|
  {
    if v == [] then 0 else Count(v[..|v| - 1]) + if v[|v| - 1] then 1 else 0
  }

  /** The count of set flags is the number of members. */
  lemma {:induction false} CountIsSize(v: seq<bool>)
    requires |v| <= 256
    ensures Count(v) == |Members(v)|
    decreases |v|
  {
    if v != [] {
      var n := |v| - 1;
      CountIsSize(v[..n]);
      if v[n] {
        assert Members(v) == Members(v[..n]) + {n};
      } else {
        assert Members(v) == Members(v[..n]);
      }
    }
  }

  /** Two flag vectors of the same length are equal exactly when they have the same members, so the
    * code's `updated != current` test is a test on sets. */
  lemma SameMembers(a: seq<bool>, b: seq<bool>)
    requires |a| == |b| <= 256
    ensures a == b <==> Members(a) == Members(b)
  {
    if Members(a) == Members(b) {
      forall i | 0 <= i < |a| ensures a[i] == b[i] {
        assert a[i] <==> i in Members(a);
      }
    }
  }

  /** `vec_bool_set_from_set`: flag `i` is set iff `i` is in `s`, for `i` in `0..u8::MAX`. */
  function VecBoolSetFromSet(s: set<U8>): (r: seq<bool>)
    ensures |r| == FLAGS
    ensures forall i :: 0 <= i < FLAGS ==> (r[i] <==> i in s)
    ensures Members(r) == s - {255}
  {
    seq(FLAGS, i => i in s)
  }

  /** `vec_bool_set_from`: flag `i` is set iff `i` occurs in `collection`. */
  function VecBoolSetFrom(collection: seq<U8>): (r: seq<bool>)
    ensures |r| == FLAGS
    ensures forall i :: 0 <= i < FLAGS ==> (r[i] <==> i in collection)
    ensures Members(r) == set t | t in collection && t < FLAGS
  {
    seq(FLAGS, i => i in collection)
  }

  /** Pointwise `a || b` over `a.iter().zip(b)`, which stops at the shorter vector. */
  function Or(a: seq<bool>, b: seq<bool>): (r: seq<bool>)
    ensures |r| == if |a| < |b| then |a| else |b|
    ensures forall i :: 0 <= i < |r| ==> (r[i] <==> a[i] || b[i])
  {
    seq(if |a| < |b| then |a| else |b|, i requires 0 <= i < |a| && i < |b| => a[i] || b[i])
  }

  /** Pointwise `a && b` over `a.iter().zip(b)`. */
  function And(a: seq<bool>, b: seq<bool>): (r: seq<bool>)
    ensures |r| == if |a| < |b| then |a| else |b|
    ensures forall i :: 0 <= i < |r| ==> (r[i] <==> a[i] && b[i])
  {
    seq(if |a| < |b| then |a| else |b|, i requires 0 <= i < |a| && i < |b| => a[i] && b[i])
  }

  // ---------------------------------------------------------------------------
  // The converted rule table (src/wfc/baseline.rs:17-27)

  type FlagTable = seq<DirectionMapping<seq<bool>>>

  /** Every entry has six slots of 255 flags. */
  ghost predicate FlagTableOk(rules: FlagTable) {
    forall s :: 0 <= s < |rules| ==>
      rules[s].Valid() && forall k :: 0 <= k < 6 ==> |rules[s].repr[k]| == FLAGS
  }

  /** `prepare_rules`: every slot of every entry as a flag vector. Since every rule set of a solver
    * table lies within `get_any_tile` (ids below 255), no member is lost. */
  function PrepareRules(rules: Table): (r: FlagTable)
    requires WellFormed(rules)
    ensures |r| == |rules| && FlagTableOk(r)
    ensures forall s, k, t :: 0 <= s < |rules| && 0 <= k < 6 && 0 <= t < FLAGS ==>
      (r[s].repr[k][t] <==> t in rules[s].repr[k])
    ensures RulesOk(rules) ==>
      forall s, k :: 0 <= s < |rules| && 0 <= k < 6 ==> Members(r[s].repr[k]) == rules[s].repr[k]
  {
    seq(|rules|, s requires 0 <= s < |rules| => MapSlots(rules[s], VecBoolSetFromSet))
  }

  // ---------------------------------------------------------------------------
  // Legal tiles (src/wfc/baseline.rs:98-160)

  /** The fold of one direction: starting from 255 unset flags, OR in slot `k` of `rules[s]` for
    * every `s` below `n` whose flag is set in the neighbour's vector `cell`. */
  function OrFold(rules: FlagTable, cell: seq<bool>, k: nat, n: nat): (r: seq<bool>)
    requires FlagTableOk(rules) && k < 6 && n <= |cell| && n <= |rules|
    ensures |r| == FLAGS
  {
    if n == 0 then seq(FLAGS, _ => false)
    else if cell[n - 1] then Or(OrFold(rules, cell, k, n - 1), rules[n - 1].repr[k])
    else OrFold(rules, cell, k, n - 1)
  }

  /** Flag `t` of the fold is set iff some flagged `s` below `n` allows `t` in slot `k`. */
  lemma {:induction false} OrFoldMembers(rules: FlagTable, cell: seq<bool>, k: nat, n: nat, t: nat)
    requires FlagTableOk(rules) && k < 6 && n <= |cell| && n <= |rules| && t < FLAGS
    ensures OrFold(rules, cell, k, n)[t] <==> exists s :: 0 <= s < n && cell[s] && rules[s].repr[k][t]
  {
    if n > 0 {
      OrFoldMembers(rules, cell, k, n - 1, t);
    }
  }

  /** The six directions, folded together with `&&` from 255 set flags. */
  function AndFold(ws: seq<seq<bool>>): (r: seq<bool>)
    requires forall i :: 0 <= i < |ws| ==> |ws[i]| == FLAGS
    ensures |r| == FLAGS
    ensures forall t :: 0 <= t < FLAGS ==> (r[t] <==> forall i :: 0 <= i < |ws| ==> ws[i][t])
  {
    if ws == [] then seq(FLAGS, _ => true) else And(AndFold(ws[..|ws| - 1]), ws[|ws| - 1])
  }

  /** Every cell is a vector of 255 flags. */
  ghost predicate CellsOk(cells: seq<seq<bool>>) {
    forall i :: 0 <= i < |cells| ==> |cells[i]| == FLAGS
  }

  /** The side of `p` towards its neighbour in slot `k`. */
  function SideFlags(rules: FlagTable, d: Dims, cells: seq<seq<bool>>, p: Pos, k: nat): (r: seq<bool>)
    requires FlagTableOk(rules) && |rules| >= FLAGS && CellsOk(cells) && |cells| == d.Count()
    requires Interior(d, p) && k < 6
    ensures |r| == FLAGS
  {
    NeighboursInGrid(d, p);
    IndexInRange(d, Neighbour(p, k));
    OrFold(rules, At(d, cells, Neighbour(p, k)), k, FLAGS)
  }

  /** `legal_tiles(x, y, z)`: the six sides in the code's order (y+1 through `down`, y-1 through
    * `up`, x-1 through `left`, x+1 through `right`, z-1 through `front`, z+1 through `back`),
    * intersected. */
  function LegalTiles(rules: FlagTable, d: Dims, cells: seq<seq<bool>>, p: Pos): (r: seq<bool>)
    requires FlagTableOk(rules) && |rules| >= FLAGS && CellsOk(cells) && |cells| == d.Count()
    requires Interior(d, p)
    ensures |r| == FLAGS
  {
    AndFold([SideFlags(rules, d, cells, p, 1), SideFlags(rules, d, cells, p, 0),
             SideFlags(rules, d, cells, p, 3), SideFlags(rules, d, cells, p, 2),
             SideFlags(rules, d, cells, p, 4), SideFlags(rules, d, cells, p, 5)])
  }

  /** The sets the flag grid stands for. */
  ghost function Dom(cells: seq<seq<bool>>): (g: Domains)
    ensures |g| == |cells| && forall i :: 0 <= i < |cells| ==> g[i] == Members(cells[i])
  {
    seq(|cells|, i requires 0 <= i < |cells| => Members(cells[i]))
  }

  lemma DomAt(d: Dims, cells: seq<seq<bool>>, p: Pos)
    requires |cells| == d.Count() && InGrid(d, p)
    ensures At(d, Dom(cells), p) == Members(At(d, cells, p))
  {
    IndexInRange(d, p);
  }

  lemma DomWrite(d: Dims, cells: seq<seq<bool>>, p: Pos, v: seq<bool>)
    requires |cells| == d.Count() && InGrid(d, p)
    ensures Dom(Write(d, cells, p, v)) == Write(d, Dom(cells), p, Members(v))
  {
    IndexInRange(d, p);
  }

  /** One side in flags is the union of the rule sets over the neighbour's candidates. */
  lemma SideFlagsMembers(r: Table, d: Dims, cells: seq<seq<bool>>, p: Pos, k: nat)
    requires RulesOk(r) && CellsOk(cells) && |cells| == d.Count() && Interior(d, p) && k < 6
    ensures Members(SideFlags(PrepareRules(r), d, cells, p, k)) == Side(r, d, Dom(cells), p, k)
  {
    var rules := PrepareRules(r);
    NeighboursInGrid(d, p);
    var q := Neighbour(p, k);
    var cell := At(d, cells, q);
    IndexInRange(d, q);
    DomAt(d, cells, q);
    var lhs := Members(SideFlags(rules, d, cells, p, k));
    var rhs := Side(r, d, Dom(cells), p, k);
    forall t: U8 ensures t in lhs <==> t in rhs {
      if t < FLAGS {
        OrFoldMembers(rules, cell, k, FLAGS, t);
        if t in rhs {
          var s :| s in Members(cell) && s < |r| && t in r[s].repr[k];
          assert 0 <= s < FLAGS && cell[s] && rules[s].repr[k][t];
        }
      }
    }
  }

  /** Six sides folded with `&&` from set flags: the intersection of their members. */
  lemma AndFoldSix(ws: seq<seq<bool>>)
    requires |ws| == 6 && forall i :: 0 <= i < 6 ==> |ws[i]| == FLAGS
    ensures Members(AndFold(ws)) ==
      Members(ws[0]) * Members(ws[1]) * Members(ws[2]) * Members(ws[3]) * Members(ws[4]) * Members(ws[5])
  {
  }

  /** `legal_tiles` in flags computes `Legal` of the sets the grid stands for. */
  lemma LegalTilesIsLegal(r: Table, d: Dims, cells: seq<seq<bool>>, p: Pos)
    requires RulesOk(r) && CellsOk(cells) && |cells| == d.Count() && Interior(d, p)
    ensures Members(LegalTiles(PrepareRules(r), d, cells, p)) == Legal(r, d, Dom(cells), p)
  {
    var rules := PrepareRules(r);
    var ws := [SideFlags(rules, d, cells, p, 1), SideFlags(rules, d, cells, p, 0),
               SideFlags(rules, d, cells, p, 3), SideFlags(rules, d, cells, p, 2),
               SideFlags(rules, d, cells, p, 4), SideFlags(rules, d, cells, p, 5)];
    AndFoldSix(ws);
    SideFlagsMembers(r, d, cells, p, 0);
    SideFlagsMembers(r, d, cells, p, 1);
    SideFlagsMembers(r, d, cells, p, 2);
    SideFlagsMembers(r, d, cells, p, 3);
    SideFlagsMembers(r, d, cells, p, 4);
    SideFlagsMembers(r, d, cells, p, 5);
  }

  // ---------------------------------------------------------------------------
  // Propagation by sweeps (src/wfc/baseline.rs:42-59)

  /** The cell at `p` after the body of the sweep: rewritten with its legal tiles when it has
    * several candidates and those differ, unchanged otherwise. */
  lemma CellStep(r: Table, d: Dims, cells: seq<seq<bool>>, p: Pos)
    requires RulesOk(r) && CellsOk(cells) && |cells| == d.Count() && Sound(r, d, Dom(cells))
    requires Interior(d, p)
    ensures var cell := At(d, cells, p);
      var updated := LegalTiles(PrepareRules(r), d, cells, p);
      if Count(cell) > 1 && updated != cell then
        var next := Write(d, cells, p, updated);
        CellsOk(next) && Dom(next) == Write(d, Dom(cells), p, Legal(r, d, Dom(cells), p)) &&
        Narrowed(r, d, Dom(cells), Dom(next)) && Weight(Dom(next)) < Weight(Dom(cells))
      else
        Stable(r, d, Dom(cells), p)
  {
    var g := Dom(cells);
    IndexInRange(d, p);
    var cell := At(d, cells, p);
    var updated := LegalTiles(PrepareRules(r), d, cells, p);
    DomAt(d, cells, p);
    CountIsSize(cell);
    LegalTilesIsLegal(r, d, cells, p);
    SameMembers(updated, cell);
    if Count(cell) > 1 && updated != cell {
      DomWrite(d, cells, p, updated);
      RewriteStep(r, d, g, p);
      AtUpdate(d, cells, p, updated);
    }
  }

  /** The first `n` positions of the interior iterator are stable in `g`. */
  ghost predicate VisitedStable(r: Table, d: Dims, g: Domains, n: nat)
    requires d.xs >= 2 && d.ys >= 2 && d.zs >= 2 && |g| == d.Count()
  {
    forall k: nat :: k < n && k < Inner(d).Count() ==>
      Interior(d, IterPos(Inner(d), true, k)) && Stable(r, d, g, IterPos(Inner(d), true, k))
  }

  /** Every interior position is yielded by the interior iterator, so a whole pass of stable
    * cells is a fixed point. */
  lemma PassDone(r: Table, d: Dims, g: Domains)
    requires d.xs >= 2 && d.ys >= 2 && d.zs >= 2 && |g| == d.Count()
    requires VisitedStable(r, d, g, Inner(d).Count())
    ensures FixedPoint(r, d, g)
  {
    InteriorPositionsOnce(d);
  }

  /** The state of a sweep of `propagate` that started from `pass` inside a call that started from
    * `start`: either some cell changed (and the weight dropped), or nothing has and every cell
    * visited so far is stable. */
  ghost predicate PassInv(r: Table, d: Dims, start: Domains, pass: Domains, cells: seq<seq<bool>>,
                          changed: bool, n: nat)
    requires d.xs >= 2 && d.ys >= 2 && d.zs >= 2
  {
    CellsOk(cells) && |cells| == d.Count() && |pass| == d.Count() &&
    Narrowed(r, d, start, Dom(cells)) &&
    (changed ==> Weight(Dom(cells)) < Weight(pass)) &&
    (!changed ==> Dom(cells) == pass && VisitedStable(r, d, pass, n))
  }

  /** The interior iterator yields interior positions. */
  lemma IterInterior(d: Dims, n: nat)
    requires d.xs >= 2 && d.ys >= 2 && d.zs >= 2 && n < Inner(d).Count()
    ensures Interior(d, IterPos(Inner(d), true, n))
  {
    InteriorPositionsOnce(d);
  }

  lemma VisitedStep(r: Table, d: Dims, g: Domains, n: nat)
    requires d.xs >= 2 && d.ys >= 2 && d.zs >= 2 && |g| == d.Count() && n < Inner(d).Count()
    requires VisitedStable(r, d, g, n) && Interior(d, IterPos(Inner(d), true, n))
    requires Stable(r, d, g, IterPos(Inner(d), true, n))
    ensures VisitedStable(r, d, g, n + 1)
  {
  }

  lemma PassStep(r: Table, d: Dims, start: Domains, pass: Domains, cells: seq<seq<bool>>, changed: bool,
                 n: nat, p: Pos)
    requires d.xs >= 2 && d.ys >= 2 && d.zs >= 2 && RulesOk(r)
    requires PassInv(r, d, start, pass, cells, changed, n)
    requires n < Inner(d).Count() && p == IterPos(Inner(d), true, n) && Interior(d, p)
    ensures var cell := At(d, cells, p);
      var updated := LegalTiles(PrepareRules(r), d, cells, p);
      if Count(cell) > 1 && updated != cell then
        PassInv(r, d, start, pass, Write(d, cells, p, updated), true, n + 1)
      else
        PassInv(r, d, start, pass, cells, changed, n + 1)
  {
    CellStep(r, d, cells, p);
    var cell := At(d, cells, p);
    var updated := LegalTiles(PrepareRules(r), d, cells, p);
    if Count(cell) > 1 && updated != cell {
      var next := Write(d, cells, p, updated);
      NarrowedTrans(r, d, start, Dom(cells), Dom(next));
    } else if !changed {
      VisitedStep(r, d, pass, n);
    }
  }

  /** The body of the sweep at `p`: a cell with more than one candidate is rewritten with its legal
    * tiles when they differ from it. */
  method VisitCell(solution: Vec3D<seq<bool>>, rules: FlagTable, p: Pos) returns (wrote: bool)
    requires solution.Valid() && FlagTableOk(rules) && |rules| >= FLAGS && CellsOk(solution.repr[..])
    requires Interior(solution.Size(), p)
    modifies solution.repr
    ensures var cell := At(solution.Size(), old(solution.repr[..]), p);
      var updated := LegalTiles(rules, solution.Size(), old(solution.repr[..]), p);
      (wrote <==> Count(cell) > 1 && updated != cell) &&
      solution.repr[..] == if wrote then Write(solution.Size(), old(solution.repr[..]), p, updated)
                           else old(solution.repr[..])
  {
    var d := solution.Size();
    IndexInRange(d, p);
    wrote := false;
    var cell := solution.Get(p.x, p.y, p.z);
    if Count(cell) > 1 {
      var updated := LegalTiles(rules, d, solution.repr[..], p);
      if updated != cell {
        solution.Set(p.x, p.y, p.z, updated);
        wrote := true;
      }
    }
  }

  /** `propagate`: sweeps the interior with `PosIter3D::new_no_border` until a sweep changes
    * nothing. A cell with more than one candidate is rewritten with its legal tiles when they
    * differ. On return the grid is a fixed point; it was only narrowed, and border cells and cells
    * with at most one candidate were never written. */
  method Propagate(solution: Vec3D<seq<bool>>, rules: FlagTable, ghost r: Table)
    requires solution.Valid() && RulesOk(r) && rules == PrepareRules(r)
    requires solution.xSize >= 2 && solution.ySize >= 2 && solution.zSize >= 2
    requires CellsOk(solution.repr[..]) && Sound(r, solution.Size(), Dom(solution.repr[..]))
    modifies solution.repr
    ensures CellsOk(solution.repr[..])
    ensures Narrowed(r, solution.Size(), Dom(old(solution.repr[..])), Dom(solution.repr[..]))
    ensures FixedPoint(r, solution.Size(), Dom(solution.repr[..]))
  {
    var d := solution.Size();
    ghost var start := Dom(solution.repr[..]);
    NarrowedRefl(r, d, start);
    var changed := true;
    while changed
      invariant CellsOk(solution.repr[..]) && Narrowed(r, d, start, Dom(solution.repr[..]))
      invariant !changed ==> FixedPoint(r, d, Dom(solution.repr[..]))
      decreases Weight(Dom(solution.repr[..])), if changed then 1 else 0
    {
      changed := Pass(solution, rules, r, start);
    }
  }

  /** One sweep of `propagate` over the interior. Either some cell was rewritten and the total
    * number of candidates dropped, or nothing was and the grid is a fixed point. */
  method Pass(solution: Vec3D<seq<bool>>, rules: FlagTable, ghost r: Table, ghost start: Domains)
    returns (changed: bool)
    requires solution.Valid() && RulesOk(r) && rules == PrepareRules(r)
    requires solution.xSize >= 2 && solution.ySize >= 2 && solution.zSize >= 2
    requires CellsOk(solution.repr[..]) && Narrowed(r, solution.Size(), start, Dom(solution.repr[..]))
    modifies solution.repr
    ensures CellsOk(solution.repr[..]) && Narrowed(r, solution.Size(), start, Dom(solution.repr[..]))
    ensures changed ==> Weight(Dom(solution.repr[..])) < Weight(Dom(old(solution.repr[..])))
    ensures !changed ==> Dom(solution.repr[..]) == Dom(old(solution.repr[..]))
    ensures !changed ==> FixedPoint(r, solution.Size(), Dom(solution.repr[..]))
  {
    var d := solution.Size();
    changed := false;
    ghost var pass := Dom(solution.repr[..]);
    var it := new PosIter3D.NewNoBorder(d);
    while true
      invariant it.size == Inner(d) && it.noBorder && it.i <= Inner(d).Count()
      invariant PassInv(r, d, start, pass, solution.repr[..], changed, it.i)
      decreases Inner(d).Count() - it.i
    {
      ghost var n := it.i;
      var next := it.Next();
      if next.None? {
        break;
      }
      var p := next.value;
      ghost var cells := solution.repr[..];
      assert PassInv(r, d, start, pass, cells, changed, n);
      assert n < Inner(d).Count() && p == IterPos(Inner(d), true, n);
      IterInterior(d, n);
      PassStep(r, d, start, pass, cells, changed, n, p);
      var wrote := VisitCell(solution, rules, p);
      changed := changed || wrote;
    }
    if !changed {
      PassDone(r, d, pass);
    }
  }

  // ---------------------------------------------------------------------------
  // Choosing the cell to collapse (src/wfc/baseline.rs:61-96)

  /** The number of candidates of each cell. */
  function Sizes(cells: seq<seq<bool>>): (r: seq<nat>)
    ensures |r| == |cells| && forall i :: 0 <= i < |cells| ==> r[i] == Count(cells[i])
  {
    seq(|cells|, i requires 0 <= i < |cells| => Count(cells[i]))
  }

  /** `find_minimal`: the position and candidates of the first cell, in iterator order, with the
    * fewest candidates above one; `None` iff no cell has more than one. Border cells take part. */
  function FindMinimal(d: Dims, cells: seq<seq<bool>>): (r: Option<(Pos, seq<bool>)>)
    requires |cells| == d.Count()
    ensures r.None? <==> forall p :: InGrid(d, p) ==> Count(At(d, cells, p)) <= 1
    ensures r.Some? ==> InGrid(d, r.value.0) && r.value.1 == At(d, cells, r.value.0) && Count(r.value.1) > 1
    ensures r.Some? ==> forall q :: InGrid(d, q) && Count(At(d, cells, q)) > 1 ==>
      Count(r.value.1) <= Count(At(d, cells, q)) &&
      (Index(d, q) < Index(d, r.value.0) ==> Count(r.value.1) < Count(At(d, cells, q)))
  {
    AllPositionsOnce(d);
    match MinFold(Sizes(cells), |cells|)
    case None => None
    case Some(i) =>
      IndexOfPos(d, i);
      var p := GetPosFromIndex(d, i);
      Some((p, cells[i]))
  }

  // ---------------------------------------------------------------------------
  // Output (src/wfc/baseline.rs:162-179)

  /** The first set flag at or after `i` among the flags zipped with `0..u8::MAX`, or EMPTY when
    * there is none. */
  function LowestFrom(v: seq<bool>, i: nat): (t: U8)
    ensures (exists j :: i <= j < |v| && j < FLAGS && v[j]) ==>
      i <= t < |v| && v[t] && forall j :: i <= j < t ==> !v[j]
    ensures (forall j :: i <= j < |v| && j < FLAGS ==> !v[j]) ==> t == EMPTY
    decreases |v| - i
  {
    if i >= |v| || i >= FLAGS then EMPTY else if v[i] then i else LowestFrom(v, i + 1)
  }

  /** The tile `format_solution` writes for a cell: its lowest candidate, or EMPTY if it has none. */
  function Lowest(v: seq<bool>): (t: U8)
    ensures |v| <= FLAGS && Members(v) == {} ==> t == EMPTY
    ensures |v| <= FLAGS && Members(v) != {} ==> t in Members(v) && forall u :: u in Members(v) ==> t <= u
  {
    LowestFrom(v, 0)
  }

  /** `format_solution`: every cell, in iterator order, set to its lowest candidate or EMPTY. */
  method FormatSolution(solution: Vec3D<seq<bool>>) returns (ret: Vec3D<U8>)
    requires solution.Valid() && CellsOk(solution.repr[..])
    ensures ret.Valid() && ret.Size() == solution.Size()
    ensures forall p :: InGrid(ret.Size(), p) ==>
      At(ret.Size(), ret.repr[..], p) == Lowest(At(solution.Size(), solution.repr[..], p))
  {
    var d := solution.Size();
    ret := new Vec3D(solution.xSize, solution.ySize, solution.zSize, EMPTY);
    AllPositionsOnce(d);
    var it := new PosIter3D.New(d);
    while true
      invariant it.size == d && !it.noBorder && it.i <= d.Count()
      invariant ret.Valid() && ret.Size() == d && fresh(ret.repr)
      invariant forall j :: 0 <= j < it.i ==> ret.repr[j] == Lowest(solution.repr[j])
      decreases d.Count() - it.i
    {
      var next := it.Next();
      if next.None? {
        break;
      }
      var p := next.value;
      IndexInRange(d, p);
      ret.Set(p.x, p.y, p.z, Lowest(solution.Get(p.x, p.y, p.z)));
    }
    forall p | InGrid(d, p) ensures At(d, ret.repr[..], p) == Lowest(At(d, solution.repr[..], p)) {
      IndexInRange(d, p);
    }
  }

  // ---------------------------------------------------------------------------
  // Setup and the solver (src/wfc/baseline.rs:29-40, 184-215)

  /** The starting flag vector of a cell: `get_any_tile` for EMPTY, the tile alone otherwise. */
  function PreparedCell(t: U8): (v: seq<bool>)
    requires t < FLAGS
    ensures |v| == FLAGS && Members(v) == if t == EMPTY then AnyTile() else {t}
  {
    if t == EMPTY then VecBoolSetFromSet(AnyTile()) else VecBoolSetFrom([t])
  }

  /** `prepare_map`: a grid of `get_any_tile` vectors, every non-EMPTY input cell (border included)
    * replaced by its tile alone, then propagated. The result stands for the prepared sets, narrowed
    * to a fixed point. */
  method PrepareMap(grid: Vec3D<U8>, rules: FlagTable, ghost r: Table) returns (solution: Vec3D<seq<bool>>)
    requires grid.Valid() && RulesOk(r) && rules == PrepareRules(r) && TableIds(grid.repr[..])
    requires grid.xSize >= 2 && grid.ySize >= 2 && grid.zSize >= 2
    ensures solution.Valid() && solution.Size() == grid.Size() && fresh(solution.repr)
    ensures CellsOk(solution.repr[..])
    ensures Narrowed(r, grid.Size(), Prepared(grid.repr[..]), Dom(solution.repr[..]))
    ensures FixedPoint(r, grid.Size(), Dom(solution.repr[..]))
  {
    var d := grid.Size();
    ghost var tiles := grid.repr[..];
    var any := VecBoolSetFromSet(AnyTile());
    solution := new Vec3D(grid.xSize, grid.ySize, grid.zSize, any);
    AllPositionsOnce(d);
    var it := new PosIter3D.New(d);
    while true
      invariant it.size == d && !it.noBorder && it.i <= d.Count()
      invariant solution.Valid() && solution.Size() == d && fresh(solution.repr)
      invariant forall j :: 0 <= j < d.Count() ==>
        solution.repr[j] == if j < it.i then PreparedCell(tiles[j]) else any
      decreases d.Count() - it.i
    {
      var next := it.Next();
      if next.None? {
        break;
      }
      var p := next.value;
      IndexInRange(d, p);
      var val := grid.Get(p.x, p.y, p.z);
      if val != EMPTY {
        solution.Set(p.x, p.y, p.z, VecBoolSetFrom([val]));
      }
    }
    assert Dom(solution.repr[..]) == Prepared(tiles);
    PreparedOk(r, d, tiles);
    Propagate(solution, rules, r);
  }

  /** `BaseLine::solve`: propagate, choose the cell `find_minimal` gives, replace its candidates by
    * one of them (`get_random`, any member here), and repeat until no cell has more than one
    * candidate; then format. Every non-EMPTY input cell comes out unchanged, and every other cell
    * comes out as a tile of `get_any_tile` or EMPTY. */
  method Solve(grid: Vec3D<U8>, r: Table) returns (result: Vec3D<U8>)
    requires grid.Valid() && RulesOk(r) && TableIds(grid.repr[..])
    requires grid.xSize >= 2 && grid.ySize >= 2 && grid.zSize >= 2
    ensures result.Valid() && result.Size() == grid.Size()
    ensures SolvedFrom(grid.Size(), grid.repr[..], result.repr[..])
  {
    var d := grid.Size();
    ghost var start := Prepared(grid.repr[..]);
    var rules := PrepareRules(r);
    var solution := PrepareMap(grid, rules, r);
    PreparedInv(r, d, start, solution.repr[..]);
    while true
      invariant solution.Valid() && solution.Size() == d && fresh(solution.repr)
      invariant SolveInv(r, d, start, solution.repr[..])
      decreases Weight(Dom(solution.repr[..]))
    {
      ghost var before := solution.repr[..];
      Propagate(solution, rules, r);
      PropagateKeeps(r, d, start, before, solution.repr[..]);
      var minimal := FindMinimal(d, solution.repr[..]);
      if minimal.None? {
        result := FormatSolution(solution);
        OutputTiles(r, d, grid.repr[..], solution.repr[..], result.repr[..]);
        return;
      }
      Collapse(solution, minimal.value.0, minimal.value.1, r, start);
    }
  }

  /** The `Some` arm of `solve`: the chosen cell gets one of its candidates (`get_random`, any
    * member here) as its only candidate. */
  method Collapse(solution: Vec3D<seq<bool>>, p: Pos, current: seq<bool>, ghost r: Table, ghost start: Domains)
    requires solution.Valid() && SolveInv(r, solution.Size(), start, solution.repr[..])
    requires InGrid(solution.Size(), p) && current == At(solution.Size(), solution.repr[..], p) && Count(current) > 1
    modifies solution.repr
    ensures SolveInv(r, solution.Size(), start, solution.repr[..])
    ensures Weight(Dom(solution.repr[..])) < Weight(Dom(old(solution.repr[..])))
    ensures exists t :: (t in Members(current) &&
      solution.repr[..] == Write(solution.Size(), old(solution.repr[..]), p, VecBoolSetFrom([t])))
  {
    var d := solution.Size();
    IndexInRange(d, p);
    SomeFlag(current);
    var t :| 0 <= t < |current| && current[t];
    SolveStep(r, d, start, solution.repr[..], p, t);
    solution.Set(p.x, p.y, p.z, VecBoolSetFrom([t]));
  }

  /** Relates the formatted output to the input through the invariants of `solve`. */
  lemma OutputTiles(r: Table, d: Dims, tiles: seq<U8>, cells: seq<seq<bool>>, out: seq<U8>)
    requires |tiles| == d.Count() && TableIds(tiles) && SolveInv(r, d, Prepared(tiles), cells)
    requires |out| == d.Count() && forall p :: InGrid(d, p) ==> At(d, out, p) == Lowest(At(d, cells, p))
    ensures SolvedFrom(d, tiles, out)
  {
    var g := Prepared(tiles);
    forall p | InGrid(d, p)
      ensures At(d, tiles, p) != EMPTY ==> At(d, out, p) == At(d, tiles, p)
      ensures At(d, tiles, p) == EMPTY ==> At(d, out, p) == EMPTY || At(d, out, p) in AnyTile()
    {
      IndexInRange(d, p);
      DomAt(d, cells, p);
      var i := Index(d, p);
      assert Members(cells[i]) <= g[i];
      if tiles[i] != EMPTY {
        assert g[i] == {tiles[i]};
        assert Members(cells[i]) == {tiles[i]};
      }
    }
  }

  /** What holds between the steps of `solve`: the flag grid stands for sound sets, narrowed from
    * the prepared grid `start`, with the settled cells of `start` untouched. */
  ghost predicate SolveInv(r: Table, d: Dims, start: Domains, cells: seq<seq<bool>>) {
    CellsOk(cells) && |cells| == d.Count() && Sound(r, d, Dom(cells)) && TilesOk(Dom(cells)) &&
    Shrunk(start, Dom(cells)) && Settled(d, start, Dom(cells))
  }

  lemma PreparedInv(r: Table, d: Dims, start: Domains, cells: seq<seq<bool>>)
    requires CellsOk(cells) && Narrowed(r, d, start, Dom(cells))
    ensures SolveInv(r, d, start, cells)
  {
  }

  /** A vector with more than one set flag has a set flag. */
  lemma SomeFlag(v: seq<bool>)
    requires Count(v) > 1
    ensures exists t :: 0 <= t < |v| && v[t]
    decreases |v|
  {
    var n := |v| - 1;
    if !v[n] {
      SomeFlag(v[..n]);
      var t :| 0 <= t < n && v[..n][t];
      assert v[t];
    }
  }

  /** A propagation keeps the invariants of `solve` and does not raise the weight. */
  lemma PropagateKeeps(r: Table, d: Dims, start: Domains, cells: seq<seq<bool>>, next: seq<seq<bool>>)
    requires SolveInv(r, d, start, cells) && CellsOk(next) && Narrowed(r, d, Dom(cells), Dom(next))
    ensures SolveInv(r, d, start, next) && Weight(Dom(next)) <= Weight(Dom(cells))
  {
    SettledThenKept(d, start, Dom(cells), Dom(next));
    ShrunkWeight(Dom(cells), Dom(next));
  }

  /** Collapsing the chosen cell to one of its candidates keeps the invariants of `solve` and
    * lowers the weight. */
  lemma SolveStep(r: Table, d: Dims, start: Domains, cells: seq<seq<bool>>, p: Pos, t: U8)
    requires SolveInv(r, d, start, cells)
    requires InGrid(d, p) && Count(At(d, cells, p)) > 1 && t < |At(d, cells, p)| && At(d, cells, p)[t]
    ensures var next := Write(d, cells, p, VecBoolSetFrom([t]));
      SolveInv(r, d, start, next) && Weight(Dom(next)) < Weight(Dom(cells))
  {
    var g := Dom(cells);
    var v := VecBoolSetFrom([t]);
    IndexInRange(d, p);
    DomAt(d, cells, p);
    CountIsSize(At(d, cells, p));
    assert Members(v) == {t};
    CollapseStep(r, d, g, p, t);
    DomWrite(d, cells, p, v);
    AtUpdate(d, g, p, {t});
    AtUpdate(d, cells, p, v);
  }
}
