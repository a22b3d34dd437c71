/** src/wfc/rules.rs: the compatibility table of the pipe tile set.
  * A tile id is a `u8`: the top six bits are openings (up, down, left, right, front, back) and the
  * low two bits the pipe type; type 3 marks the two special tiles EMPTY and BORDER. */
module Rules {
  import opened Prelude
  import opened DirectionMappings

  const UP: U8 := 0x80
  const DOWN: U8 := 0x40
  const LEFT: U8 := 0x20
  const RIGHT: U8 := 0x10
  const FRONT: U8 := 0x08
  const BACK: U8 := 0x04
  const RED: U8 := 0
  const GREEN: U8 := 1
  const BLUE: U8 := 2
  const SPECIAL: U8 := 3
  const EMPTY: U8 := 3
  const BORDER: U8 := 7
  const TYPE_MASK: U8 := 3

  /** The six opening flags. */
  predicate IsDirection(dir: U8) {
    dir == UP || dir == DOWN || dir == LEFT || dir == RIGHT || dir == FRONT || dir == BACK
  }

  /** The bit pattern of a `u8`. */
  function Bits(a: U8): bv8 { a as bv8 }

  /** `a & TYPE_MASK`: the pipe type, the two low bits, which for an unsigned value is its residue
    * modulo 4. */
  function PipeType(a: U8): (t: U8)
    ensures t == a % 4
  {
    (Bits(a) & Bits(TYPE_MASK)) as U8
  }

  /** `is_special_type`: EMPTY or BORDER. */
  predicate IsSpecialType(a: U8) { a == EMPTY || a == BORDER }

  /** `is_pipe`: `(a & TYPE_MASK) ^ TYPE_MASK` is zero exactly when both low bits are set, so a
    * pipe is any id whose type is not 3; EMPTY and BORDER are not pipes. */
  function IsPipe(a: U8): (r: bool)
    ensures r <==> a % 4 != 3
    ensures IsSpecialType(a) ==> !r
  {
    (Bits(a) & Bits(TYPE_MASK)) ^ Bits(TYPE_MASK) != 0
  }

  /** `a & dir != 0` */
  predicate HasOpening(a: U8, dir: U8) { Bits(a) & Bits(dir) != 0 }

  /** `is_pipe_with_direction` */
  predicate IsPipeWithDirection(a: U8, dir: U8) { IsPipe(a) && HasOpening(a, dir) }

  /** `is_pipe_without_direction` */
  predicate IsPipeWithoutDirection(a: U8, dir: U8) { IsPipe(a) && !HasOpening(a, dir) }

  /** `get_oposite_dir` */
  function OppositeDir(dir: U8): (r: U8)
    ensures dir == UP <==> r == DOWN
    ensures dir == DOWN <==> r == UP
    ensures dir == LEFT <==> r == RIGHT
    ensures dir == RIGHT <==> r == LEFT
    ensures dir == FRONT <==> r == BACK
    ensures dir == BACK <==> r == FRONT
    ensures IsDirection(dir) <==> IsDirection(r)
    ensures !IsDirection(dir) ==> r == 0
  {
    if dir == UP then DOWN
    else if dir == DOWN then UP
    else if dir == LEFT then RIGHT
    else if dir == RIGHT then LEFT
    else if dir == FRONT then BACK
    else if dir == BACK then FRONT
    else 0
  }

  /** Up and down, left and right, front and back are each other's opposites, and taking the
    * opposite twice gives the flag back. */
  lemma OppositeIsInvolution(dir: U8)
    requires IsDirection(dir)
    ensures OppositeDir(OppositeDir(dir)) == dir
    ensures OppositeDir(dir) != dir
  {
  }

  /** The filter of `get_pipe_dir_rules` for a tile `i` that has the opening `dir`. */
  predicate JoinsOpening(a: U8, dir: U8, pipeType: U8) {
    (IsPipeWithDirection(a, OppositeDir(dir)) && PipeType(a) == pipeType) || a == BORDER
  }

  /** The filter of `get_pipe_dir_rules` for a tile `i` closed towards `dir`. */
  predicate KeepsClosed(a: U8, dir: U8) {
    IsPipeWithoutDirection(a, OppositeDir(dir)) || a == BORDER
  }

  /** `get_pipe_dir_rules(i, dir, pipe_type)`: the ids below 255 that may sit next to tile `i` on
    * its `dir` side. With an opening there, they are the pipes of the same type open back towards
    * `i`; without one, the pipes of any type closed towards `i`. BORDER is always allowed. */
  function PipeDirRules(i: U8, dir: U8, pipeType: U8): (r: set<U8>)
    ensures BORDER in r
    ensures forall a :: a in r ==> a < 255 && (a == BORDER || IsPipe(a))
    ensures HasOpening(i, dir) ==> forall a: U8 :: a != BORDER ==>
      (a in r <==> a < 255 && IsPipe(a) && PipeType(a) == pipeType && HasOpening(a, OppositeDir(dir)))
    ensures !HasOpening(i, dir) ==> forall a: U8 :: a != BORDER ==>
      (a in r <==> a < 255 && IsPipe(a) && !HasOpening(a, OppositeDir(dir)))
  {
    if HasOpening(i, dir) then set a: U8 | a < 255 && JoinsOpening(a, dir, pipeType)
    else set a: U8 | a < 255 && KeepsClosed(a, dir)
  }

  /** `get_any_tile`: every pipe below 255 and BORDER; EMPTY is not a tile a cell can take. */
  function AnyTile(): (r: set<U8>)
    ensures forall a: U8 :: a in r <==> a < 255 && (a % 4 != 3 || a == BORDER)
    ensures EMPTY !in r && BORDER in r && 255 !in r
  {
    set a: U8 | a < 255 && (IsPipe(a) || a == BORDER)
  }

  /** `get_pipe_rules(i)`. An id that is neither a pipe nor special (type 3 other than EMPTY and
    * BORDER) allows nothing in any direction; EMPTY and BORDER allow any tile everywhere; a pipe
    * takes `get_pipe_dir_rules` for each of the six directions, in the slot order of
    * `DirectionMapping::new`. */
  function PipeRules(i: U8): (m: DirectionMapping<set<U8>>)
    ensures m.Valid()
    ensures !IsPipe(i) && !IsSpecialType(i) ==> forall k :: 0 <= k < 6 ==> m.repr[k] == {}
    ensures IsSpecialType(i) ==> forall k :: 0 <= k < 6 ==> m.repr[k] == AnyTile()
    ensures IsPipe(i) ==> forall k :: 0 <= k < 6 ==> m.repr[k] == PipeDirRules(i, SlotFlag(k), i % 4)
  {
    var pipeType := PipeType(i);
    if !IsPipe(i) && !IsSpecialType(i) then
      New({}, {}, {}, {}, {}, {})
    else if pipeType == SPECIAL then
      New(AnyTile(), AnyTile(), AnyTile(), AnyTile(), AnyTile(), AnyTile())
    else
      New(PipeDirRules(i, UP, pipeType), PipeDirRules(i, DOWN, pipeType),
          PipeDirRules(i, RIGHT, pipeType), PipeDirRules(i, LEFT, pipeType),
          PipeDirRules(i, FRONT, pipeType), PipeDirRules(i, BACK, pipeType))
  }

  /** `get_pipes_rules`: one entry per id 0..=254, so id 255 has none. */
  function PipesRules(): (r: seq<DirectionMapping<set<U8>>>)
    ensures |r| == 255
    ensures forall i :: 0 <= i < 255 ==> r[i] == PipeRules(i)
  {
    seq(255, i requires 0 <= i < 255 => PipeRules(i))
  }

  // ---------------------------------------------------------------------------
  // What the solvers need of a table

  /** The opening flag that slot `k` of a `DirectionMapping` describes. */
  function SlotFlag(k: nat): U8
    requires k < 6
  {
    [UP, DOWN, RIGHT, LEFT, FRONT, BACK][k]
  }

  /** Slots 0/1, 2/3 and 4/5 face each other. */
  function OppositeSlot(k: nat): (r: nat)
    requires k < 6
    ensures r < 6 && SlotFlag(r) == OppositeDir(SlotFlag(k))
  {
    if k % 2 == 0 then k + 1 else k - 1
  }

  /** A table the solvers can run on: an entry for every id below 255, six slots each, and every
    * allowed id within `get_any_tile`. The last clause is what makes every propagation step shrink
    * a cell's candidates. */
  ghost predicate RulesOk(rules: seq<DirectionMapping<set<U8>>>) {
    |rules| >= 255 &&
    forall s :: 0 <= s < |rules| ==> rules[s].Valid() && forall k :: 0 <= k < 6 ==> rules[s].repr[k] <= AnyTile()
  }

  /** The pipe table is such a table. */
  lemma PipesRulesOk()
    ensures RulesOk(PipesRules())
  {
    var r := PipesRules();
    forall s | 0 <= s < |r| ensures r[s].Valid() && forall k :: 0 <= k < 6 ==> r[s].repr[k] <= AnyTile() {
      assert r[s] == PipeRules(s);
    }
  }

  /** The pipe table is symmetric: `a` may sit on side `k` of `s` exactly when `s` may sit on the
    * opposite side of `a`, for all tiles `s` and `a` a cell can hold. */
  lemma PipesRulesSymmetric(s: U8, a: U8, k: nat)
    requires s in AnyTile() && a in AnyTile() && k < 6
    ensures a in PipesRules()[s].repr[k] <==> s in PipesRules()[a].repr[OppositeSlot(k)]
  {
    assert PipesRules()[s] == PipeRules(s) && PipesRules()[a] == PipeRules(a);
    if IsPipe(s) && IsPipe(a) {
      PipePairSymmetric(s, a, k);
    } else if IsPipe(s) {
      assert a == BORDER;
    } else if IsPipe(a) {
      assert s == BORDER;
    }
  }

  /** The case of two pipes: both sides read the same opening flag and the same pipe type. */
  lemma PipePairSymmetric(s: U8, a: U8, k: nat)
    requires IsPipe(s) && IsPipe(a) && s < 255 && a < 255 && k < 6
    ensures a in PipeRules(s).repr[k] <==> s in PipeRules(a).repr[OppositeSlot(k)]
  {
    var dir := SlotFlag(k);
    assert IsDirection(dir);
    assert OppositeDir(dir) == SlotFlag(OppositeSlot(k));
    assert PipeRules(s).repr[k] == PipeDirRules(s, dir, s % 4);
    assert PipeRules(a).repr[OppositeSlot(k)] == PipeDirRules(a, OppositeDir(dir), a % 4);
    PipeDirSymmetric(s, a, dir);
  }

  lemma PipeDirSymmetric(s: U8, a: U8, dir: U8)
    requires IsPipe(s) && IsPipe(a) && s < 255 && a < 255 && IsDirection(dir)
    ensures a in PipeDirRules(s, dir, s % 4) <==> s in PipeDirRules(a, OppositeDir(dir), a % 4)
  {
    var opp := OppositeDir(dir);
    OppositeIsInvolution(dir);
    var sOpen := HasOpening(s, dir);
    var aOpen := HasOpening(a, opp);
    assert a != BORDER && s != BORDER;
    assert a in PipeDirRules(s, dir, s % 4) <==> if sOpen then a % 4 == s % 4 && aOpen else !aOpen;
    assert s in PipeDirRules(a, opp, a % 4) <==> if aOpen then s % 4 == a % 4 && sOpen else !sOpen;
  }
}
