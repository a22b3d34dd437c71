/** What every solver in src/wfc/ computes, stated once on plain sets: a grid of candidate sets
  * (one per cell, flat-indexed like `Vec3D`), the legal tiles of a cell, and the invariants that
  * propagation keeps. Each solver module relates its own cell representation to this. */
module Propagation {
  import opened Prelude
  import opened Vec3
  import opened DirectionMappings
  import opened Rules

  /** The rule table as `get_pipes_rules` returns it: entry `s` lists, per slot, the ids allowed
    * next to tile `s`. */
  type Table = seq<DirectionMapping<set<U8>>>

  /** Candidate tiles per cell, flat-indexed. */
  type Domains = seq<set<U8>>

  /** Every entry has its six slots. */
  predicate WellFormed(rules: Table) {
    forall s :: 0 <= s < |rules| ==> rules[s].Valid()
  }

  // ---------------------------------------------------------------------------
  // Neighbours

  /** A position whose coordinates can all be decremented. */
  predicate HasNeighbours(p: Pos) { p.x > 0 && p.y > 0 && p.z > 0 }

  /** The neighbour whose slot `k` constrains `p` in every `legal_tiles`: `up` of y-1, `down` of
    * y+1, `right` of x+1, `left` of x-1, `front` of z-1, `back` of z+1. */
  function Neighbour(p: Pos, k: nat): Pos
    requires k < 6 && HasNeighbours(p)
  {
    if k == 0 then Pos(p.x, p.y - 1, p.z)
    else if k == 1 then Pos(p.x, p.y + 1, p.z)
    else if k == 2 then Pos(p.x + 1, p.y, p.z)
    else if k == 3 then Pos(p.x - 1, p.y, p.z)
    else if k == 4 then Pos(p.x, p.y, p.z - 1)
    else Pos(p.x, p.y, p.z + 1)
  }

  /** The six positions a propagation step pushes after rewriting `p`, in push order:
    * x+1, x-1, y+1, y-1, z+1, z-1. */
  function Pushes(p: Pos): (r: seq<Pos>)
    requires HasNeighbours(p)
    ensures |r| == 6
  {
    [Pos(p.x + 1, p.y, p.z), Pos(p.x - 1, p.y, p.z), Pos(p.x, p.y + 1, p.z),
     Pos(p.x, p.y - 1, p.z), Pos(p.x, p.y, p.z + 1), Pos(p.x, p.y, p.z - 1)]
  }

  /** An interior cell's neighbours are in the grid and differ from it, and so are the positions
    * pushed after rewriting it. */
  lemma NeighboursInGrid(d: Dims, p: Pos)
    requires Interior(d, p)
    ensures forall k :: 0 <= k < 6 ==> InGrid(d, Neighbour(p, k)) && Neighbour(p, k) != p
    ensures forall q :: q in Pushes(p) ==> InGrid(d, q)
  {
  }

  /** `c` is the neighbour of `p` in some slot exactly when `p` is among the positions pushed
    * after rewriting `c`. */
  lemma NeighbourIffPushed(p: Pos, c: Pos)
    requires HasNeighbours(p) && HasNeighbours(c)
    ensures (exists k :: 0 <= k < 6 && Neighbour(p, k) == c) <==> p in Pushes(c)
  {
    if p in Pushes(c) {
      var ps := Pushes(c);
      if p == ps[0] { assert Neighbour(p, 3) == c; }
      else if p == ps[1] { assert Neighbour(p, 2) == c; }
      else if p == ps[2] { assert Neighbour(p, 0) == c; }
      else if p == ps[3] { assert Neighbour(p, 1) == c; }
      else if p == ps[4] { assert Neighbour(p, 4) == c; }
      else { assert Neighbour(p, 5) == c; }
    }
  }

  // ---------------------------------------------------------------------------
  // Legal tiles

  /** One direction of `legal_tiles`: the union, over the candidates `s` of the neighbour, of
    * slot `k` of `rules[s]`. */
  function Union(rules: Table, cands: set<U8>, k: nat): set<U8>
    requires k < 6
  {
    set s, t | s in cands && s < |rules| && k < |rules[s].repr| && t in rules[s].repr[k] :: t
  }

  /** The union over the neighbour in slot `k`. */
  function Side(rules: Table, d: Dims, g: Domains, p: Pos, k: nat): set<U8>
    requires |g| == d.Count() && Interior(d, p) && k < 6
  {
    NeighboursInGrid(d, p);
    Union(rules, At(d, g, Neighbour(p, k)), k)
  }

  /** `legal_tiles(p)`: the intersection of the six sides, folded in the order the solvers list
    * them (y+1, y-1, x-1, x+1, z-1, z+1). */
  function Legal(rules: Table, d: Dims, g: Domains, p: Pos): set<U8>
    requires |g| == d.Count() && Interior(d, p)
  {
    Side(rules, d, g, p, 1) * Side(rules, d, g, p, 0) * Side(rules, d, g, p, 3)
      * Side(rules, d, g, p, 2) * Side(rules, d, g, p, 4) * Side(rules, d, g, p, 5)
  }

  /** A tile is legal exactly when every one of the six sides allows it. */
  lemma LegalMembers(rules: Table, d: Dims, g: Domains, p: Pos, t: U8)
    requires |g| == d.Count() && Interior(d, p)
    ensures t in Legal(rules, d, g, p) <==> forall k :: 0 <= k < 6 ==> t in Side(rules, d, g, p, k)
  {
    if forall k :: 0 <= k < 6 ==> t in Side(rules, d, g, p, k) {
      assert t in Side(rules, d, g, p, 0) && t in Side(rules, d, g, p, 1);
      assert t in Side(rules, d, g, p, 2) && t in Side(rules, d, g, p, 3);
      assert t in Side(rules, d, g, p, 4) && t in Side(rules, d, g, p, 5);
    }
  }

  /** Fewer candidates next door never allow more tiles. */
  lemma LegalMonotone(rules: Table, d: Dims, g: Domains, h: Domains, p: Pos)
    requires |g| == d.Count() && |h| == d.Count() && Interior(d, p)
    requires forall q :: InGrid(d, q) ==> At(d, h, q) <= At(d, g, q)
    ensures Legal(rules, d, h, p) <= Legal(rules, d, g, p)
  {
    NeighboursInGrid(d, p);
  }

  /** Writing a cell that is not a neighbour of `p` (in particular `p` itself) leaves the legal
    * tiles of `p` unchanged. */
  lemma LegalLocal(rules: Table, d: Dims, g: Domains, c: Pos, v: set<U8>, p: Pos)
    requires |g| == d.Count() && InGrid(d, c) && Interior(d, p)
    requires forall k :: 0 <= k < 6 ==> Neighbour(p, k) != c
    ensures Legal(rules, d, Write(d, g, c, v), p) == Legal(rules, d, g, p)
  {
    AtUpdate(d, g, c, v);
    NeighboursInGrid(d, p);
    forall k | 0 <= k < 6 ensures Side(rules, d, Write(d, g, c, v), p, k) == Side(rules, d, g, p, k) {
    }
  }

  /** With every rule set inside `get_any_tile`, so is every legal set. */
  lemma LegalWithinAnyTile(rules: Table, d: Dims, g: Domains, p: Pos)
    requires RulesOk(rules) && |g| == d.Count() && Interior(d, p)
    ensures Legal(rules, d, g, p) <= AnyTile()
  {
  }

  /** A neighbour holding a single tile `s` contributes exactly slot `k` of `rules[s]`. */
  lemma UnionOfSingleton(rules: Table, s: U8, k: nat)
    requires WellFormed(rules) && s < |rules| && k < 6
    ensures Union(rules, {s}, k) == rules[s].repr[k]
  {
  }

  // ---------------------------------------------------------------------------
  // Invariants of propagation

  /** Every candidate is an id the tables cover. */
  ghost predicate TilesOk(g: Domains) {
    forall i, t :: 0 <= i < |g| && t in g[i] ==> t < 255
  }

  /** Every interior cell with several candidates keeps all its legal tiles among them. This is
    * what makes a rewrite with `legal_tiles` a shrink, although the code never intersects the
    * two. */
  ghost predicate Sound(rules: Table, d: Dims, g: Domains) {
    |g| == d.Count() &&
    forall p {:trigger Legal(rules, d, g, p)} :: Interior(d, p) && |At(d, g, p)| > 1 ==> Legal(rules, d, g, p) <= At(d, g, p)
  }

  /** Only interior cells have more than one candidate, so no propagation step ever computes the
    * legal tiles of a border cell (whose neighbours would be off the grid). */
  ghost predicate MultiInterior(d: Dims, g: Domains) {
    |g| == d.Count() &&
    forall p :: InGrid(d, p) && |At(d, g, p)| > 1 ==> Interior(d, p)
  }

  /** A cell propagation leaves alone: at most one candidate, or exactly its legal tiles. */
  ghost predicate Stable(rules: Table, d: Dims, g: Domains, p: Pos)
    requires |g| == d.Count() && Interior(d, p)
  {
    |At(d, g, p)| <= 1 || Legal(rules, d, g, p) == At(d, g, p)
  }

  /** Every interior cell is stable. */
  ghost predicate FixedPoint(rules: Table, d: Dims, g: Domains) {
    |g| == d.Count() && forall p :: Interior(d, p) ==> Stable(rules, d, g, p)
  }

  /** Every interior cell that is not stable waits in the worklist. */
  ghost predicate Pending(rules: Table, d: Dims, g: Domains, wl: seq<Pos>) {
    |g| == d.Count() && forall p :: Interior(d, p) && !Stable(rules, d, g, p) ==> p in wl
  }

  /** An empty worklist with nothing pending is a fixed point. */
  lemma PendingEmpty(rules: Table, d: Dims, g: Domains)
    requires Pending(rules, d, g, [])
    ensures FixedPoint(rules, d, g)
  {
  }

  /** `h` is `g` with some candidates removed. */
  ghost predicate Shrunk(g: Domains, h: Domains) {
    |g| == |h| && forall i :: 0 <= i < |g| ==> h[i] <= g[i]
  }

  /** The total number of candidates: every rewrite lowers it. */
  function Weight(g: Domains): nat {
    if g == [] then 0 else Weight(g[..|g| - 1]) + |g[|g| - 1]|
  }

  lemma {:induction false} WeightUpdate(g: Domains, i: nat, v: set<U8>)
    requires i < |g|
    ensures Weight(g[i := v]) == Weight(g) - |g[i]| + |v|
    decreases |g|
  {
    var n := |g| - 1;
    if i < n {
      WeightUpdate(g[..n], i, v);
      assert g[i := v][..n] == g[..n][i := v];
    } else {
      assert g[i := v][..n] == g[..n];
    }
  }

  // ---------------------------------------------------------------------------
  // One propagation step

  /** Writing `v` at `c` keeps `Sound` when `v` is within the old candidates and, if it still has
    * several, holds all of `c`'s legal tiles; both a rewrite with `legal_tiles` and a collapse to
    * one tile qualify. */
  lemma WriteKeepsSound(rules: Table, d: Dims, g: Domains, c: Pos, v: set<U8>)
    requires Sound(rules, d, g) && InGrid(d, c) && v <= At(d, g, c)
    requires Interior(d, c) && |v| > 1 ==> Legal(rules, d, g, c) <= v
    ensures Sound(rules, d, Write(d, g, c, v))
  {
    var h := Write(d, g, c, v);
    forall p | Interior(d, p) && |At(d, h, p)| > 1
      ensures Legal(rules, d, h, p) <= At(d, h, p)
    {
      WriteKeepsSoundAt(rules, d, g, c, v, p);
    }
  }

  /** `WriteKeepsSound` at one cell `p`. */
  lemma WriteKeepsSoundAt(rules: Table, d: Dims, g: Domains, c: Pos, v: set<U8>, p: Pos)
    requires Sound(rules, d, g) && InGrid(d, c) && v <= At(d, g, c)
    requires Interior(d, c) && |v| > 1 ==> Legal(rules, d, g, c) <= v
    requires Interior(d, p) && |At(d, Write(d, g, c, v), p)| > 1
    ensures Legal(rules, d, Write(d, g, c, v), p) <= At(d, Write(d, g, c, v), p)
  {
    var h := Write(d, g, c, v);
    AtUpdate(d, g, c, v);
    LegalMonotone(rules, d, g, h, p);
    if p == c {
      NeighboursInGrid(d, p);
      LegalLocal(rules, d, g, c, v, p);
    }
  }

  /** Writing a subset of a cell's candidates at that cell shrinks the grid. */
  lemma WriteShrinks(d: Dims, g: Domains, c: Pos, v: set<U8>)
    requires |g| == d.Count() && InGrid(d, c) && v <= At(d, g, c)
    ensures Shrunk(g, Write(d, g, c, v))
  {
    IndexInRange(d, c);
    var h := Write(d, g, c, v);
    forall i | 0 <= i < |g| ensures h[i] <= g[i] {
      if i == Index(d, c) {
        assert h[i] == v;
      }
    }
  }

  /** Only interior cells, or writes of at most one candidate, keep `MultiInterior`. */
  lemma WriteKeepsMultiInterior(d: Dims, g: Domains, c: Pos, v: set<U8>)
    requires MultiInterior(d, g) && InGrid(d, c)
    requires Interior(d, c) || |v| <= 1
    ensures MultiInterior(d, Write(d, g, c, v))
  {
    AtUpdate(d, g, c, v);
  }

  lemma WriteKeepsTilesOk(d: Dims, g: Domains, c: Pos, v: set<U8>)
    requires TilesOk(g) && |g| == d.Count() && InGrid(d, c)
    requires forall t :: t in v ==> t < 255
    ensures TilesOk(Write(d, g, c, v))
  {
    AtUpdate(d, g, c, v);
  }

  /** A rewrite of a cell with several candidates by a different legal set removes candidates:
    * the weight strictly drops. */
  lemma RewriteShrinks(rules: Table, d: Dims, g: Domains, c: Pos)
    requires Sound(rules, d, g) && Interior(d, c) && |At(d, g, c)| > 1
    requires Legal(rules, d, g, c) != At(d, g, c)
    ensures Weight(Write(d, g, c, Legal(rules, d, g, c))) < Weight(g)
  {
    var v := Legal(rules, d, g, c);
    var i := Index(d, c);
    IndexInRange(d, c);
    assert v <= g[i];
    ProperSubsetSize(v, g[i]);
    WeightUpdate(g, i, v);
  }

  /** Popping `c` and leaving it alone keeps every unstable cell waiting, provided `c` itself is
    * stable (or not interior). */
  lemma SkipKeepsPending(rules: Table, d: Dims, g: Domains, wl: seq<Pos>, c: Pos, rest: seq<Pos>)
    requires Pending(rules, d, g, wl)
    requires forall q :: q in wl ==> q == c || q in rest
    requires Interior(d, c) ==> Stable(rules, d, g, c)
    ensures Pending(rules, d, g, rest)
  {
  }

  /** Popping `c`, rewriting it with its legal tiles and pushing its six neighbours keeps every
    * unstable cell waiting: `c` becomes stable, and only its neighbours' legal sets can change. */
  lemma RewriteKeepsPending(rules: Table, d: Dims, g: Domains, wl: seq<Pos>, c: Pos, rest: seq<Pos>)
    requires Pending(rules, d, g, wl)
    requires forall q :: q in wl ==> q == c || q in rest
    requires Interior(d, c)
    ensures Pending(rules, d, Write(d, g, c, Legal(rules, d, g, c)), rest + Pushes(c))
  {
    var v := Legal(rules, d, g, c);
    var h := Write(d, g, c, v);
    AtUpdate(d, g, c, v);
    NeighboursInGrid(d, c);
    LegalLocal(rules, d, g, c, v, c);
    assert Stable(rules, d, h, c);
    forall p | Interior(d, p) && !Stable(rules, d, h, p)
      ensures p in rest + Pushes(c)
    {
      if p !in Pushes(c) {
        NeighbourIffPushed(p, c);
        LegalLocal(rules, d, g, c, v, p);
      }
    }
  }

  /** Collapsing an interior cell of a fixed point to one tile leaves only the six cells pushed
    * after it possibly unstable: the worklist `solve` hands to `propagate` is enough. */
  lemma CollapseKeepsPending(rules: Table, d: Dims, g: Domains, c: Pos, t: U8)
    requires FixedPoint(rules, d, g) && Interior(d, c)
    ensures Pending(rules, d, Write(d, g, c, {t}), Pushes(c))
  {
    var h := Write(d, g, c, {t});
    AtUpdate(d, g, c, {t});
    forall p | Interior(d, p) && !Stable(rules, d, h, p)
      ensures p in Pushes(c)
    {
      if p !in Pushes(c) {
        NeighbourIffPushed(p, c);
        LegalLocal(rules, d, g, c, {t}, p);
      }
    }
  }

  /** Border cells and cells with at most one candidate are as they were in `g`: propagation
    * never writes them. */
  ghost predicate Kept(d: Dims, g: Domains, h: Domains) {
    |g| == d.Count() && |h| == d.Count() &&
    forall p :: InGrid(d, p) && (!Interior(d, p) || |At(d, g, p)| <= 1) ==> At(d, h, p) == At(d, g, p)
  }

  /** Cells that had at most one candidate in `g` still have exactly that in `h`. */
  ghost predicate Settled(d: Dims, g: Domains, h: Domains) {
    |g| == d.Count() && |h| == d.Count() &&
    forall p :: InGrid(d, p) && |At(d, g, p)| <= 1 ==> At(d, h, p) == At(d, g, p)
  }

  lemma SettledThenKept(d: Dims, f: Domains, g: Domains, h: Domains)
    requires Settled(d, f, g) && Kept(d, g, h)
    ensures Settled(d, f, h)
  {
  }

  /** What every propagation keeps, relative to the grid `g` it started from. */
  ghost predicate Narrowed(rules: Table, d: Dims, g: Domains, h: Domains) {
    Sound(rules, d, h) && TilesOk(h) && Shrunk(g, h) && Kept(d, g, h)
  }

  lemma {:induction false} ShrunkWeight(g: Domains, h: Domains)
    requires Shrunk(g, h)
    ensures Weight(h) <= Weight(g)
    decreases |g|
  {
    if g != [] {
      var n := |g| - 1;
      ShrunkWeight(g[..n], h[..n]);
      SubsetSize(h[n], g[n]);
    }
  }

  lemma NarrowedTrans(rules: Table, d: Dims, f: Domains, g: Domains, h: Domains)
    requires Narrowed(rules, d, f, g) && Narrowed(rules, d, g, h)
    ensures Narrowed(rules, d, f, h)
  {
  }

  /** A grid is narrowed from itself when it is sound. */
  lemma NarrowedRefl(rules: Table, d: Dims, g: Domains)
    requires Sound(rules, d, g) && TilesOk(g)
    ensures Narrowed(rules, d, g, g)
  {
  }

  /** Rewriting an interior cell that has several candidates with its different legal set: every
    * invariant holds afterwards, and the weight drops. */
  lemma RewriteStep(rules: Table, d: Dims, g: Domains, c: Pos)
    requires Sound(rules, d, g) && TilesOk(g) && Interior(d, c) && |At(d, g, c)| > 1
    requires Legal(rules, d, g, c) != At(d, g, c)
    ensures Narrowed(rules, d, g, Write(d, g, c, Legal(rules, d, g, c)))
    ensures Weight(Write(d, g, c, Legal(rules, d, g, c))) < Weight(g)
    ensures MultiInterior(d, g) ==> MultiInterior(d, Write(d, g, c, Legal(rules, d, g, c)))
  {
    var v := Legal(rules, d, g, c);
    assert v <= At(d, g, c);
    IndexInRange(d, c);
    WriteKeepsSound(rules, d, g, c, v);
    WriteKeepsTilesOk(d, g, c, v);
    WriteShrinks(d, g, c, v);
    WriteKept(d, g, c, v);
    RewriteShrinks(rules, d, g, c);
    if MultiInterior(d, g) {
      WriteKeepsMultiInterior(d, g, c, v);
    }
  }

  /** A write at an interior cell with several candidates keeps every other cell. */
  lemma WriteKept(d: Dims, g: Domains, c: Pos, v: set<U8>)
    requires |g| == d.Count() && Interior(d, c) && |At(d, g, c)| > 1
    ensures Kept(d, g, Write(d, g, c, v))
  {
    AtUpdate(d, g, c, v);
  }

  /** Collapsing a cell to one of its candidates keeps soundness and lowers the weight by all but
    * one of the cell's candidates. */
  lemma CollapseStep(rules: Table, d: Dims, g: Domains, c: Pos, t: U8)
    requires Sound(rules, d, g) && TilesOk(g) && InGrid(d, c) && t in At(d, g, c)
    ensures Sound(rules, d, Write(d, g, c, {t})) && TilesOk(Write(d, g, c, {t}))
    ensures Shrunk(g, Write(d, g, c, {t}))
    ensures Weight(Write(d, g, c, {t})) == Weight(g) - |At(d, g, c)| + 1
    ensures MultiInterior(d, g) ==> MultiInterior(d, Write(d, g, c, {t}))
  {
    IndexInRange(d, c);
    assert t < 255;
    WriteKeepsSound(rules, d, g, c, {t});
    WriteKeepsTilesOk(d, g, c, {t});
    if MultiInterior(d, g) {
      WriteKeepsMultiInterior(d, g, c, {t});
    }
    WriteShrinks(d, g, c, {t});
    WeightUpdate(g, Index(d, c), {t});
  }

  // ---------------------------------------------------------------------------
  // The starting grid

  /** Every tile of an input grid is an id of the table (EMPTY and BORDER included). */
  ghost predicate TableIds(tiles: seq<U8>) {
    forall i :: 0 <= i < |tiles| ==> tiles[i] < 255
  }

  /** No border cell of the input is EMPTY (`Vec3D::with_borders` fills the border with BORDER).
    * The worklist solvers need this: they compute the legal tiles of any popped cell with several
    * candidates, and a border cell's neighbours are off the grid. */
  ghost predicate BorderGiven(d: Dims, tiles: seq<U8>) {
    |tiles| == d.Count() && forall p :: InGrid(d, p) && !Interior(d, p) ==> At(d, tiles, p) != EMPTY
  }

  /** The candidates every `prepare_map` starts from: `get_any_tile` for an EMPTY cell, the cell's
    * own tile otherwise (the border included). */
  function Prepared(tiles: seq<U8>): (g: Domains)
    ensures |g| == |tiles|
    ensures forall i :: 0 <= i < |tiles| ==> g[i] == if tiles[i] == EMPTY then AnyTile() else {tiles[i]}
  {
    seq(|tiles|, i requires 0 <= i < |tiles| => if tiles[i] == EMPTY then AnyTile() else {tiles[i]})
  }

  /** The prepared grid is sound for any table within `get_any_tile`; its candidates are table
    * ids when the input tiles are; and when no border cell is EMPTY, only interior cells have
    * several candidates. */
  lemma PreparedOk(rules: Table, d: Dims, tiles: seq<U8>)
    requires RulesOk(rules) && |tiles| == d.Count()
    requires TableIds(tiles)
    ensures Sound(rules, d, Prepared(tiles))
    ensures TilesOk(Prepared(tiles))
    ensures BorderGiven(d, tiles) ==> MultiInterior(d, Prepared(tiles))
  {
    var g := Prepared(tiles);
    forall p | Interior(d, p) && |At(d, g, p)| > 1 ensures Legal(rules, d, g, p) <= At(d, g, p) {
      IndexInRange(d, p);
      LegalWithinAnyTile(rules, d, g, p);
    }
    if BorderGiven(d, tiles) {
      forall p | InGrid(d, p) && |At(d, g, p)| > 1 ensures Interior(d, p) {
        IndexInRange(d, p);
      }
    }
  }

  /** An output grid of a solver for the input `tiles`: every non-EMPTY input cell comes out
    * unchanged, and every EMPTY one as EMPTY or a tile of `get_any_tile`. */
  ghost predicate SolvedFrom(d: Dims, tiles: seq<U8>, out: seq<U8>) {
    |tiles| == d.Count() && |out| == d.Count() &&
    (forall p :: InGrid(d, p) && At(d, tiles, p) != EMPTY ==> At(d, out, p) == At(d, tiles, p)) &&
    (forall p :: InGrid(d, p) && At(d, tiles, p) == EMPTY ==> At(d, out, p) == EMPTY || At(d, out, p) in AnyTile())
  }

  // ---------------------------------------------------------------------------
  // Tile grids (`simple` and `validate`)

  /** The neighbours of interior cells hold ids the table has entries for. */
  ghost predicate NeighboursIndexable(rules: Table, d: Dims, tiles: seq<U8>) {
    |tiles| == d.Count() &&
    forall p, k :: Interior(d, p) && 0 <= k < 6 ==> At(d, tiles, Neighbour(p, k)) < |rules|
  }

  /** Slot `k` of the rule entry of the neighbour in slot `k`. */
  function TileSide(rules: Table, d: Dims, tiles: seq<U8>, p: Pos, k: nat): set<U8>
    requires WellFormed(rules) && NeighboursIndexable(rules, d, tiles) && Interior(d, p) && k < 6
  {
    NeighboursInGrid(d, p);
    rules[At(d, tiles, Neighbour(p, k))].repr[k]
  }

  /** The legal tiles of a cell of a grid of tiles: the six rule sets intersected in the same
    * order as `legal_tiles` (src/wfc/simple.rs) and `validate` (src/main.rs). */
  function TileLegal(rules: Table, d: Dims, tiles: seq<U8>, p: Pos): set<U8>
    requires WellFormed(rules) && NeighboursIndexable(rules, d, tiles) && Interior(d, p)
  {
    TileSide(rules, d, tiles, p, 1) * TileSide(rules, d, tiles, p, 0) * TileSide(rules, d, tiles, p, 3)
      * TileSide(rules, d, tiles, p, 2) * TileSide(rules, d, tiles, p, 4) * TileSide(rules, d, tiles, p, 5)
  }

  /** `grid.get` at the neighbour of `p` in slot `k`. */
  function NeighbourTile(grid: Vec3D<U8>, rules: Table, p: Pos, k: nat): (t: U8)
    reads grid.repr
    requires grid.Valid() && NeighboursIndexable(rules, grid.Size(), grid.repr[..])
    requires Interior(grid.Size(), p) && k < 6
    ensures t < |rules| && t == At(grid.Size(), grid.repr[..], Neighbour(p, k))
  {
    NeighboursInGrid(grid.Size(), p);
    var q := Neighbour(p, k);
    IndexInRange(grid.Size(), q);
    grid.Get(q.x, q.y, q.z)
  }

  /** Each tile as a one-candidate set. */
  function Singletons(tiles: seq<U8>): (g: Domains)
    ensures |g| == |tiles| && forall i :: 0 <= i < |tiles| ==> g[i] == {tiles[i]}
  {
    seq(|tiles|, i requires 0 <= i < |tiles| => {tiles[i]})
  }

  /** On a grid of tiles, the legal set is the candidate-set `Legal` of the grid of singletons:
    * `simple`, `validate` and the propagating solvers share one notion of legality. */
  lemma TileLegalIsLegal(rules: Table, d: Dims, tiles: seq<U8>, p: Pos)
    requires WellFormed(rules) && NeighboursIndexable(rules, d, tiles) && Interior(d, p)
    ensures TileLegal(rules, d, tiles, p) == Legal(rules, d, Singletons(tiles), p)
  {
    NeighboursInGrid(d, p);
    forall k | 0 <= k < 6 ensures TileSide(rules, d, tiles, p, k) == Side(rules, d, Singletons(tiles), p, k) {
      var q := Neighbour(p, k);
      IndexInRange(d, q);
      UnionOfSingleton(rules, At(d, tiles, q), k);
    }
  }

  // ---------------------------------------------------------------------------
  // The fold of `find_minimal`

  /** The fold of `find_minimal` (src/wfc/baseline.rs, stackprop.rs, queueprop_bitarrayset.rs)
    * over the sizes of the first `n` cells in `PosIter3D::new` order (the flat index order): the
    * first cell with the fewest candidates among those with more than one. A later cell replaces
    * the one held only with strictly fewer candidates. */
  function MinFold(sizes: seq<nat>, n: nat): (r: Option<nat>)
    requires n <= |sizes|
    ensures r.None? <==> forall i :: 0 <= i < n ==> sizes[i] <= 1
    ensures r.Some? ==> r.value < n && sizes[r.value] > 1
    ensures r.Some? ==> forall i :: 0 <= i < n && sizes[i] > 1 ==> sizes[r.value] <= sizes[i]
    ensures r.Some? ==> forall i :: 0 <= i < r.value && sizes[i] > 1 ==> sizes[r.value] < sizes[i]
  {
    if n == 0 then None
    else
      var len := sizes[n - 1];
      match MinFold(sizes, n - 1)
      case None => if len > 1 then Some(n - 1) else None
      case Some(a) => if len > 1 && len < sizes[a] then Some(n - 1) else Some(a)
  }

  // ---------------------------------------------------------------------------
  // Counting ids

  /** A set of table ids has at most 255 members, so its size fits a `u8`. */
  lemma CandidatesFitU8(s: set<U8>)
    requires forall t :: t in s ==> t < 255
    ensures |s| <= 255
  {
    SubsetSize(s, IdsBelow(255));
  }

}
