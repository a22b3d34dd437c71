/** src/vec3d.rs: a flat vector addressed by (x, y, z), and an iterator over positions. */
module Vec3 {
  import opened Prelude

  /** A position `(x, y, z)`. */
  datatype Pos = Pos(x: nat, y: nat, z: nat)

  /** The three sizes of a grid. */
  datatype Dims = Dims(xs: nat, ys: nat, zs: nat) {
    /** `xs * ys * zs`, counted as `zs` layers of `xs * ys` cells (see `CountIsProduct`). */
    function Count(): nat { Mul(zs, Mul(xs, ys)) }
  }

  predicate InGrid(d: Dims, p: Pos) { p.x < d.xs && p.y < d.ys && p.z < d.zs }

  /** Strictly inside the one-cell border. */
  predicate Interior(d: Dims, p: Pos) {
    0 < p.x < d.xs - 1 && 0 < p.y < d.ys - 1 && 0 < p.z < d.zs - 1
  }

  /** Some coordinate is 0 or the last one on its axis. */
  predicate OnBorder(d: Dims, p: Pos) {
    p.x == 0 || p.x == d.xs - 1 || p.y == 0 || p.y == d.ys - 1 || p.z == 0 || p.z == d.zs - 1
  }

  /** The pair `(a, b)` comes before `(i, j)` in the order of the two `with_borders` loops. */
  predicate Before(a: nat, b: nat, i: nat, j: nat) { a < i || (a == i && b < j) }

  /** `(p.x, p.y, p.z)` comes before `(x, y, z)` when three nested loops run x outermost and
    * z innermost (the order of `validate` and of the naive solver). */
  predicate LexBefore(p: Pos, x: nat, y: nat, z: nat) {
    p.x < x || (p.x == x && (p.y < y || (p.y == y && p.z < z)))
  }

  /** The cells of a cube of side `n` that `with_borders` has overwritten once its loops reach `(i, j)`. */
  predicate Covered(n: nat, p: Pos, i: nat, j: nat) {
    ((p.z == 0 || p.z == n - 1) && Before(p.x, p.y, i, j))
    || ((p.x == 0 || p.x == n - 1) && Before(p.y, p.z, i, j))
    || ((p.y == 0 || p.y == n - 1) && Before(p.x, p.z, i, j))
  }

  // ---------------------------------------------------------------------------
  // Arithmetic behind the index formula
  //
  // Products, quotients and remainders of variables are written as recursive functions, so the
  // solver sees only linear arithmetic and each fact about them comes from a lemma below.

  /** `a * b`. */
  function Mul(a: nat, b: nat): nat {
    if a == 0 then 0 else b + Mul(a - 1, b)
  }

  /** `n / m` on unsigned integers. */
  function Div(n: nat, m: nat): nat
    requires m > 0
    decreases n
  {
    if n < m then 0 else 1 + Div(n - m, m)
  }

  /** `n % m` on unsigned integers. */
  function Mod(n: nat, m: nat): nat
    requires m > 0
    decreases n
  {
    if n < m then n else Mod(n - m, m)
  }

  lemma {:induction false} MulIsProduct(a: nat, b: nat)
    ensures Mul(a, b) == a * b
  {
    if a > 0 {
      MulIsProduct(a - 1, b);
    }
  }

  lemma {:induction false} MulAdd(a: nat, b: nat, c: nat)
    ensures Mul(a + b, c) == Mul(a, c) + Mul(b, c)
  {
    if a > 0 {
      MulAdd(a - 1, b, c);
    }
  }

  lemma {:induction false} MulSucc(a: nat, b: nat)
    ensures Mul(a, b + 1) == Mul(a, b) + a
  {
    if a > 0 {
      MulSucc(a - 1, b);
    }
  }

  lemma {:induction false} MulComm(a: nat, b: nat)
    ensures Mul(a, b) == Mul(b, a)
    decreases b
  {
    if b == 0 {
      MulZero(a);
    } else {
      MulSucc(a, b - 1);
      MulComm(a, b - 1);
    }
  }

  lemma {:induction false} MulZero(a: nat)
    ensures Mul(a, 0) == 0
  {
    if a > 0 {
      MulZero(a - 1);
    }
  }

  lemma {:induction false} MulAssoc(a: nat, b: nat, c: nat)
    ensures Mul(Mul(a, b), c) == Mul(a, Mul(b, c))
  {
    if a > 0 {
      MulAdd(b, Mul(a - 1, b), c);
      MulAssoc(a - 1, b, c);
    }
  }

  /** One more row before `b` rows fits: `a < b` gives `a * c + c <= b * c`. */
  lemma MulLeBound(a: nat, b: nat, c: nat)
    requires a < b
    ensures Mul(a, c) + c <= Mul(b, c)
  {
    MulAdd(a + 1, b - a - 1, c);
  }

  /** Quotient and remainder put `n` back together. */
  lemma {:induction false} DivMod(n: nat, m: nat)
    requires m > 0
    ensures n == Mul(Div(n, m), m) + Mod(n, m) && Mod(n, m) < m
    decreases n
  {
    if n >= m {
      DivMod(n - m, m);
    }
  }

  /** Euclidean division has a unique quotient and remainder. */
  lemma {:induction false} DivModUnique(n: nat, m: nat, q: nat, r: nat)
    requires r < m && n == Mul(q, m) + r
    ensures Div(n, m) == q && Mod(n, m) == r
    decreases q
  {
    if q > 0 {
      DivModUnique(n - m, m, q - 1, r);
    }
  }

  /** The linear index used by `get` and `set`: `x + y * xs + z * xs * ys`. */
  function Index(d: Dims, p: Pos): nat { p.x + Mul(p.y, d.xs) + Mul(p.z, Mul(d.xs, d.ys)) }

  /** `get_pos_from_index` */
  function GetPosFromIndex(d: Dims, i: nat): Pos
    requires d.xs > 0 && d.ys > 0 && d.zs > 0
  {
    Pos(Mod(i, d.xs), Mod(Div(i, d.xs), d.ys), Mod(Div(i, Mul(d.xs, d.ys)), d.zs))
  }

  /** The index formula read as "z layers of `xs * ys` cells, then y rows of `xs` cells, then x". */
  lemma IndexRows(d: Dims, p: Pos)
    ensures Index(d, p) == Mul(p.y + Mul(p.z, d.ys), d.xs) + p.x
  {
    MulComm(d.xs, d.ys);
    MulAssoc(p.z, d.ys, d.xs);
    MulAdd(p.y, Mul(p.z, d.ys), d.xs);
  }

  /** The cell count is the product of the three sides. */
  lemma CountIsProduct(d: Dims)
    ensures d.Count() == d.xs * d.ys * d.zs
  {
    MulIsProduct(d.xs, d.ys);
    MulIsProduct(d.zs, d.xs * d.ys);
  }

  /** In-range coordinates give an in-range linear index. */
  lemma {:induction false} IndexInRange(d: Dims, p: Pos)
    requires InGrid(d, p)
    ensures Index(d, p) < d.Count()
  {
    MulLeBound(p.y, d.ys, d.xs);
    MulComm(d.ys, d.xs);
    MulLeBound(p.z, d.zs, Mul(d.xs, d.ys));
  }

  /** The index formula is invertible by `get_pos_from_index`. */
  lemma {:induction false} PosOfIndex(d: Dims, p: Pos)
    requires InGrid(d, p)
    ensures GetPosFromIndex(d, Index(d, p)) == p
  {
    var i := Index(d, p);
    IndexRows(d, p);
    DivModUnique(i, d.xs, p.y + Mul(p.z, d.ys), p.x);
    DivModUnique(p.y + Mul(p.z, d.ys), d.ys, p.z, p.y);
    MulLeBound(p.y, d.ys, d.xs);
    MulComm(d.ys, d.xs);
    DivModUnique(i, Mul(d.xs, d.ys), p.z, p.x + Mul(p.y, d.xs));
    DivModUnique(p.z, d.zs, 0, p.z);
  }

  /** A non-empty box has no empty side. */
  lemma CountPositive(d: Dims)
    requires d.Count() > 0
    ensures d.xs > 0 && d.ys > 0 && d.zs > 0
  {
    if d.xs == 0 || d.ys == 0 {
      MulZero(d.xs);
      MulZero(d.zs);
    }
  }

  /** For `i` below the cell count, `get_pos_from_index(i)` is in range and maps back to `i`. */
  lemma {:induction false} IndexOfPos(d: Dims, i: nat)
    requires i < d.Count()
    ensures d.xs > 0 && d.ys > 0 && d.zs > 0
    ensures InGrid(d, GetPosFromIndex(d, i))
    ensures Index(d, GetPosFromIndex(d, i)) == i
  {
    CountPositive(d);
    var layer := Mul(d.xs, d.ys);
    var q := Div(i, d.xs);
    var x := Mod(i, d.xs);
    var y := Mod(q, d.ys);
    var z := Div(q, d.ys);
    DivMod(i, d.xs);
    DivMod(q, d.ys);
    var p := Pos(x, y, z);
    IndexRows(d, p);
    assert i == Index(d, p);
    MulLeBound(y, d.ys, d.xs);
    MulComm(d.ys, d.xs);
    assert Index(d, p) == Mul(z, layer) + (x + Mul(y, d.xs));
    DivModUnique(i, layer, z, x + Mul(y, d.xs));
    if z >= d.zs {
      MulAdd(d.zs, z - d.zs, layer);
    }
    DivModUnique(z, d.zs, 0, z);
  }

  /** `set` at one in-range position leaves every other in-range position alone. */
  lemma IndexInjective(d: Dims, p: Pos, q: Pos)
    requires InGrid(d, p) && InGrid(d, q) && p != q
    ensures Index(d, p) != Index(d, q)
  {
    PosOfIndex(d, p);
    PosOfIndex(d, q);
  }

  /** The six axis neighbours of a position are at fixed offsets from its index. */
  lemma NeighbourOffsets(d: Dims, p: Pos)
    requires p.x > 0 && p.y > 0 && p.z > 0
    ensures Index(d, Pos(p.x + 1, p.y, p.z)) == Index(d, p) + 1
    ensures Index(d, Pos(p.x - 1, p.y, p.z)) == Index(d, p) - 1
    ensures Index(d, Pos(p.x, p.y + 1, p.z)) == Index(d, p) + d.xs
    ensures Index(d, Pos(p.x, p.y - 1, p.z)) == Index(d, p) - d.xs
    ensures Index(d, Pos(p.x, p.y, p.z + 1)) == Index(d, p) + Mul(d.xs, d.ys)
    ensures Index(d, Pos(p.x, p.y, p.z - 1)) == Index(d, p) - Mul(d.xs, d.ys)
  {
    assert Mul(p.y, d.xs) == d.xs + Mul(p.y - 1, d.xs);
    assert Mul(p.z, Mul(d.xs, d.ys)) == Mul(d.xs, d.ys) + Mul(p.z - 1, Mul(d.xs, d.ys));
  }

  /** The cell at position `p` of a flat vector laid out by `Index`. */
  function At<T>(d: Dims, s: seq<T>, p: Pos): T
    requires |s| == d.Count() && InGrid(d, p)
  {
    IndexInRange(d, p);
    s[Index(d, p)]
  }

  /** The flat vector after `set` at position `p`. */
  function Write<T>(d: Dims, s: seq<T>, p: Pos, v: T): (r: seq<T>)
    requires |s| == d.Count() && InGrid(d, p)
    ensures |r| == |s|
  {
    IndexInRange(d, p);
    s[Index(d, p) := v]
  }

  /** Overwriting the cell at `p` changes what `At` gives at `p` and nowhere else. */
  lemma AtUpdate<T>(d: Dims, s: seq<T>, p: Pos, v: T)
    requires |s| == d.Count() && InGrid(d, p)
    ensures Index(d, p) < |s|
    ensures forall q :: InGrid(d, q) ==>
      At(d, Write(d, s, p, v), q) == if q == p then v else At(d, s, q)
  {
    IndexInRange(d, p);
    forall q | InGrid(d, q)
      ensures At(d, Write(d, s, p, v), q) == if q == p then v else At(d, s, q)
    {
      IndexInRange(d, q);
      if q != p {
        IndexInjective(d, p, q);
        assert s[Index(d, p) := v][Index(d, q)] == s[Index(d, q)];
      }
    }
  }

  /** The cells of a cube of side `n` hold `border` exactly where `with_borders` has written by
    * the time its loops reach `(i, j)`, and `interior` elsewhere. */
  ghost predicate CoveredUpTo<T>(n: nat, s: seq<T>, i: nat, j: nat, interior: T, border: T) {
    |s| == Dims(n, n, n).Count() &&
    forall p :: InGrid(Dims(n, n, n), p) ==>
      At(Dims(n, n, n), s, p) == if Covered(n, p, i, j) then border else interior
  }

  lemma CoveredRowDone<T>(n: nat, s: seq<T>, i: nat, interior: T, border: T)
    requires CoveredUpTo(n, s, i, n, interior, border)
    ensures CoveredUpTo(n, s, i + 1, 0, interior, border)
  {
    forall p | InGrid(Dims(n, n, n), p)
      ensures Covered(n, p, i, n) == Covered(n, p, i + 1, 0)
    {
    }
  }

  lemma CoveredAll<T>(n: nat, s: seq<T>, interior: T, border: T)
    requires CoveredUpTo(n, s, n, 0, interior, border)
    ensures forall p :: InGrid(Dims(n, n, n), p) ==>
      At(Dims(n, n, n), s, p) == if OnBorder(Dims(n, n, n), p) then border else interior
  {
    forall p | InGrid(Dims(n, n, n), p)
      ensures Covered(n, p, n, 0) == OnBorder(Dims(n, n, n), p)
    {
    }
  }

  /** One pass of the inner `with_borders` loop, which writes `border` at six cells, moves the
    * covered region from `(i, j)` to `(i, j + 1)`. */
  lemma BorderStep<T>(n: nat, s: seq<T>, t: seq<T>, i: nat, j: nat, interior: T, border: T)
    requires i < n && j < n && |s| == Dims(n, n, n).Count()
    requires forall p :: InGrid(Dims(n, n, n), p) ==>
      At(Dims(n, n, n), s, p) == if Covered(n, p, i, j) then border else interior
    requires
      var d := Dims(n, n, n);
      var s1 := Write(d, s, Pos(i, j, 0), border);
      var s2 := Write(d, s1, Pos(i, j, n - 1), border);
      var s3 := Write(d, s2, Pos(0, i, j), border);
      var s4 := Write(d, s3, Pos(n - 1, i, j), border);
      var s5 := Write(d, s4, Pos(i, 0, j), border);
      t == Write(d, s5, Pos(i, n - 1, j), border)
    ensures |t| == |s|
    ensures forall p :: InGrid(Dims(n, n, n), p) ==>
      At(Dims(n, n, n), t, p) == if Covered(n, p, i, j + 1) then border else interior
  {
    var d := Dims(n, n, n);
    var s1 := Write(d, s, Pos(i, j, 0), border);
    AtUpdate(d, s, Pos(i, j, 0), border);
    var s2 := Write(d, s1, Pos(i, j, n - 1), border);
    AtUpdate(d, s1, Pos(i, j, n - 1), border);
    var s3 := Write(d, s2, Pos(0, i, j), border);
    AtUpdate(d, s2, Pos(0, i, j), border);
    var s4 := Write(d, s3, Pos(n - 1, i, j), border);
    AtUpdate(d, s3, Pos(n - 1, i, j), border);
    var s5 := Write(d, s4, Pos(i, 0, j), border);
    AtUpdate(d, s4, Pos(i, 0, j), border);
    AtUpdate(d, s5, Pos(i, n - 1, j), border);
  }

  // ---------------------------------------------------------------------------
  // The grid

  class Vec3D<T> {
    const xSize: nat
    const ySize: nat
    const zSize: nat
    const repr: array<T>

    function Size(): Dims { Dims(xSize, ySize, zSize) }

    ghost predicate Valid() { repr.Length == Size().Count() }

    /** `Vec3D::new`: `xs * ys * zs` cells, all equal to `init`. */
    constructor (xSize: nat, ySize: nat, zSize: nat, init: T)
      ensures Valid() && fresh(repr)
      ensures this.xSize == xSize && this.ySize == ySize && this.zSize == zSize
      ensures repr[..] == seq(Dims(xSize, ySize, zSize).Count(), _ => init)
    {
      this.xSize, this.ySize, this.zSize := xSize, ySize, zSize;
      repr := new T[Dims(xSize, ySize, zSize).Count()](_ => init);
    }

    /** `get`: the source only checks the linear index against the vector length. */
    function Get(x: nat, y: nat, z: nat): (v: T)
      reads repr
      requires Index(Size(), Pos(x, y, z)) < repr.Length
      ensures v == repr[..][Index(Size(), Pos(x, y, z))]
    {
      repr[Index(Size(), Pos(x, y, z))]
    }

    /** `set`: overwrites the one cell at the linear index, so `get` at the same
      * coordinates returns `val` afterwards (see `AtUpdate` for the other cells). */
    method Set(x: nat, y: nat, z: nat, val: T)
      requires Index(Size(), Pos(x, y, z)) < repr.Length
      modifies repr
      ensures repr[..] == old(repr[..])[Index(Size(), Pos(x, y, z)) := val]
      ensures Get(x, y, z) == val
    {
      repr[Index(Size(), Pos(x, y, z))] := val;
    }

    /** `with_borders` for a cube of side `n`: `border` on every cell with a coordinate equal
      * to 0 or `n - 1`, `interior` elsewhere. */
    static method WithBorders(xSize: nat, ySize: nat, zSize: nat, interior: T, border: T) returns (a: Vec3D<T>)
      requires xSize == ySize == zSize
      ensures a.Valid() && fresh(a.repr) && a.Size() == Dims(xSize, ySize, zSize)
      ensures forall p :: InGrid(a.Size(), p) ==>
        At(a.Size(), a.repr[..], p) == if OnBorder(a.Size(), p) then border else interior
    {
      var n := xSize;
      var d := Dims(n, n, n);
      a := new Vec3D(n, n, n, interior);
      forall p | InGrid(d, p) ensures At(d, a.repr[..], p) == interior {
        IndexInRange(d, p);
      }
      var i := 0;
      while i < n
        invariant 0 <= i <= n
        invariant a.Valid() && fresh(a.repr) && a.Size() == d
        invariant CoveredUpTo(n, a.repr[..], i, 0, interior, border)
      {
        var j := 0;
        while j < n
          invariant 0 <= j <= n
          invariant a.Valid() && fresh(a.repr) && a.Size() == d
          invariant CoveredUpTo(n, a.repr[..], i, j, interior, border)
        {
          a.BorderCells(n, i, j, interior, border);
          j := j + 1;
        }
        CoveredRowDone(n, a.repr[..], i, interior, border);
        i := i + 1;
      }
      CoveredAll(n, a.repr[..], interior, border);
    }

    /** The body of the inner `with_borders` loop: `border` at the six cells `(i, j, 0)`,
      * `(i, j, n - 1)`, `(0, i, j)`, `(n - 1, i, j)`, `(i, 0, j)` and `(i, n - 1, j)`. */
    method BorderCells(n: nat, i: nat, j: nat, interior: T, border: T)
      requires Valid() && Size() == Dims(n, n, n) && i < n && j < n
      requires CoveredUpTo(n, repr[..], i, j, interior, border)
      modifies repr
      ensures CoveredUpTo(n, repr[..], i, j + 1, interior, border)
    {
      var d := Dims(n, n, n);
      ghost var before := repr[..];
      IndexInRange(d, Pos(i, j, 0));
      Set(i, j, 0, border);
      ghost var s1 := repr[..];
      assert s1 == Write(d, before, Pos(i, j, 0), border);
      IndexInRange(d, Pos(i, j, n - 1));
      Set(i, j, n - 1, border);
      ghost var s2 := repr[..];
      assert s2 == Write(d, s1, Pos(i, j, n - 1), border);
      IndexInRange(d, Pos(0, i, j));
      Set(0, i, j, border);
      ghost var s3 := repr[..];
      assert s3 == Write(d, s2, Pos(0, i, j), border);
      IndexInRange(d, Pos(n - 1, i, j));
      Set(n - 1, i, j, border);
      ghost var s4 := repr[..];
      assert s4 == Write(d, s3, Pos(n - 1, i, j), border);
      IndexInRange(d, Pos(i, 0, j));
      Set(i, 0, j, border);
      ghost var s5 := repr[..];
      assert s5 == Write(d, s4, Pos(i, 0, j), border);
      IndexInRange(d, Pos(i, n - 1, j));
      Set(i, n - 1, j, border);
      assert repr[..] == Write(d, s5, Pos(i, n - 1, j), border);
      BorderStep(n, before, repr[..], i, j, interior, border);
    }

    /** A grid of the given shape holding exactly `cells`. */
    constructor FromCells(xSize: nat, ySize: nat, zSize: nat, cells: seq<T>)
      requires |cells| == Dims(xSize, ySize, zSize).Count()
      ensures Valid() && fresh(repr)
      ensures this.xSize == xSize && this.ySize == ySize && this.zSize == zSize
      ensures repr[..] == cells
    {
      this.xSize, this.ySize, this.zSize := xSize, ySize, zSize;
      repr := new T[|cells|](i requires 0 <= i < |cells| => cells[i]);
    }

    /** `#[derive(Clone)]`: a grid of the same shape with a fresh copy of the cells. */
    method Clone() returns (c: Vec3D<T>)
      requires Valid()
      ensures c.Valid() && fresh(c.repr) && c.Size() == Size()
      ensures c.repr[..] == repr[..]
    {
      c := new Vec3D.FromCells(xSize, ySize, zSize, repr[..]);
    }
  }

  // ---------------------------------------------------------------------------
  // Iterating over positions

  /** The `k`-th position an iterator over a box of the given size yields; the interior
    * iterator shifts every position by one on each axis. */
  function IterPos(size: Dims, noBorder: bool, k: nat): (p: Pos)
    requires k < size.Count()
  {
    IndexOfPos(size, k);
    var q := GetPosFromIndex(size, k);
    if noBorder then Pos(q.x + 1, q.y + 1, q.z + 1) else q
  }

  /** `PosIter3D`: yields `get_pos_from_index(i)` for `i` from 0 below the cell count. */
  class PosIter3D {
    const size: Dims
    const noBorder: bool
    var i: nat

    /** `PosIter3D::new`: every position of the grid. */
    constructor New(grid: Dims)
      ensures size == grid && !noBorder && i == 0
    {
      size, noBorder, i := grid, false, 0;
    }

    /** `PosIter3D::new_no_border`: positions of the box two smaller on each axis, shifted by
      * one; the sizes are unsigned, so a side below 2 is a panic there. */
    constructor NewNoBorder(grid: Dims)
      requires grid.xs >= 2 && grid.ys >= 2 && grid.zs >= 2
      ensures size == Inner(grid) && noBorder && i == 0
    {
      size, noBorder, i := Inner(grid), true, 0;
    }

    /** `next`: the position at the counter, then the counter moves on; `None` once it reaches
      * the cell count. */
    method Next() returns (r: Option<Pos>)
      modifies this
      ensures old(i) < size.Count() ==> i == old(i) + 1 && r == Some(IterPos(size, noBorder, old(i)))
      ensures old(i) >= size.Count() ==> i == old(i) && r == None
    {
      if i < size.Count() {
        i := i + 1;
        IndexOfPos(size, i - 1);
        var pos := GetPosFromIndex(size, i - 1);
        if noBorder {
          r := Some(Pos(pos.x + 1, pos.y + 1, pos.z + 1));
        } else {
          r := Some(pos);
        }
      } else {
        r := None;
      }
    }
  }

  /** The box `new_no_border` walks: every side two shorter. */
  function Inner(d: Dims): Dims
    requires d.xs >= 2 && d.ys >= 2 && d.zs >= 2
  {
    Dims(d.xs - 2, d.ys - 2, d.zs - 2)
  }

  /** `PosIter3D::new` yields each position of the grid exactly once: the `k`-th item has linear
    * index `k` (so x varies fastest, then y, then z), and every position is the item at its index. */
  lemma AllPositionsOnce(d: Dims)
    ensures forall k: nat :: k < d.Count() ==> InGrid(d, IterPos(d, false, k)) && Index(d, IterPos(d, false, k)) == k
    ensures forall p :: InGrid(d, p) ==> Index(d, p) < d.Count() && IterPos(d, false, Index(d, p)) == p
  {
    forall k: nat | k < d.Count()
      ensures InGrid(d, IterPos(d, false, k)) && Index(d, IterPos(d, false, k)) == k
    {
      IndexOfPos(d, k);
    }
    forall p | InGrid(d, p)
      ensures Index(d, p) < d.Count() && IterPos(d, false, Index(d, p)) == p
    {
      IndexInRange(d, p);
      PosOfIndex(d, p);
    }
  }

  /** `PosIter3D::new_no_border` yields exactly the interior positions, each once: the `k`-th item is
    * interior, distinct items have distinct `k`, and every interior position is yielded. */
  lemma InteriorPositionsOnce(d: Dims)
    requires d.xs >= 2 && d.ys >= 2 && d.zs >= 2
    ensures forall k: nat :: k < Inner(d).Count() ==> Interior(d, IterPos(Inner(d), true, k))
    ensures forall k: nat, k': nat :: k < k' < Inner(d).Count() ==>
      IterPos(Inner(d), true, k) != IterPos(Inner(d), true, k')
    ensures forall p :: Interior(d, p) ==>
      var q := Pos(p.x - 1, p.y - 1, p.z - 1);
      Index(Inner(d), q) < Inner(d).Count() && IterPos(Inner(d), true, Index(Inner(d), q)) == p
  {
    var e := Inner(d);
    forall k: nat | k < e.Count() ensures Interior(d, IterPos(e, true, k)) {
      IndexOfPos(e, k);
    }
    forall k: nat, k': nat | k < k' < e.Count()
      ensures IterPos(e, true, k) != IterPos(e, true, k')
    {
      IndexOfPos(e, k);
      IndexOfPos(e, k');
    }
    forall p | Interior(d, p)
      ensures Index(e, Pos(p.x - 1, p.y - 1, p.z - 1)) < e.Count()
      ensures IterPos(e, true, Index(e, Pos(p.x - 1, p.y - 1, p.z - 1))) == p
    {
      var q := Pos(p.x - 1, p.y - 1, p.z - 1);
      IndexInRange(e, q);
      PosOfIndex(e, q);
    }
  }
}
