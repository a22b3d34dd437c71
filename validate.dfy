/** `validate` (src/main.rs), the check the tests apply to a solver's output grid. */
module Validate {
  import opened Prelude
  import opened Vec3
  import opened Rules
  import opened Propagation

  /** The tile at `p` is among the tiles its six neighbours allow. */
  ghost predicate Fits(rules: Table, d: Dims, tiles: seq<U8>, p: Pos)
    requires WellFormed(rules) && NeighboursIndexable(rules, d, tiles) && Interior(d, p)
  {
    At(d, tiles, p) in TileLegal(rules, d, tiles, p)
  }

  /** Every interior cell the loops have passed fits. */
  ghost predicate FitsBefore(rules: Table, d: Dims, tiles: seq<U8>, x: nat, y: nat, z: nat)
    requires WellFormed(rules) && NeighboursIndexable(rules, d, tiles)
  {
    forall p :: Interior(d, p) && LexBefore(p, x, y, z) ==> Fits(rules, d, tiles, p)
  }

  /** `validate`: walks the interior (x, then y, then z) and fails at the first cell whose tile is
    * not in the intersection of its neighbours' rule sets. Border cells are only read as
    * neighbours. The extra failure case "no tile allowed and the cell is BORDER" is already a
    * membership failure, so the result is exactly membership at every interior cell. */
  method Validate(grid: Vec3D<U8>, rules: Table) returns (ok: bool)
    requires grid.Valid() && WellFormed(rules)
    requires grid.xSize >= 1 && grid.ySize >= 1 && grid.zSize >= 1
    requires NeighboursIndexable(rules, grid.Size(), grid.repr[..])
    ensures ok <==> forall p :: Interior(grid.Size(), p) ==> Fits(rules, grid.Size(), grid.repr[..], p)
  {
    var d := grid.Size();
    ghost var tiles := grid.repr[..];
    var x := 1;
    while x < grid.xSize - 1
      invariant 1 <= x
      invariant FitsBefore(rules, d, tiles, x, 1, 1)
    {
      var y := 1;
      while y < grid.ySize - 1
        invariant 1 <= y
        invariant FitsBefore(rules, d, tiles, x, y, 1)
      {
        var z := 1;
        while z < grid.zSize - 1
          invariant 1 <= z
          invariant FitsBefore(rules, d, tiles, x, y, z)
        {
          var bad := CellFails(grid, rules, x, y, z);
          if bad {
            return false;
          }
          FitsStep(rules, d, tiles, x, y, z);
          z := z + 1;
        }
        RowDone(rules, d, tiles, x, y, z);
        y := y + 1;
      }
      RowDone(rules, d, tiles, x, y, 1);
      x := x + 1;
    }
    RowDone(rules, d, tiles, x, 1, 1);
    return true;
  }

  lemma FitsStep(rules: Table, d: Dims, tiles: seq<U8>, x: nat, y: nat, z: nat)
    requires WellFormed(rules) && NeighboursIndexable(rules, d, tiles)
    requires Interior(d, Pos(x, y, z))
    requires FitsBefore(rules, d, tiles, x, y, z) && Fits(rules, d, tiles, Pos(x, y, z))
    ensures FitsBefore(rules, d, tiles, x, y, z + 1)
  {
  }

  /** Running off the end of an axis: the cells passed are those before the next row, the next
    * layer, or all of them. */
  lemma RowDone(rules: Table, d: Dims, tiles: seq<U8>, x: nat, y: nat, z: nat)
    requires WellFormed(rules) && NeighboursIndexable(rules, d, tiles)
    requires FitsBefore(rules, d, tiles, x, y, z)
    ensures z >= d.zs - 1 ==> FitsBefore(rules, d, tiles, x, y + 1, 1)
    ensures z == 1 && y >= d.ys - 1 ==> FitsBefore(rules, d, tiles, x + 1, 1, 1)
    ensures z == 1 && y == 1 && x >= d.xs - 1 ==> forall p :: Interior(d, p) ==> Fits(rules, d, tiles, p)
  {
  }

  /** The body of the innermost `validate` loop for the interior cell `(x, y, z)`: the six
    * neighbour rule sets, their intersection, and the failure test. */
  method CellFails(grid: Vec3D<U8>, rules: Table, x: nat, y: nat, z: nat) returns (bad: bool)
    requires grid.Valid() && WellFormed(rules)
    requires NeighboursIndexable(rules, grid.Size(), grid.repr[..])
    requires Interior(grid.Size(), Pos(x, y, z))
    ensures bad <==> !Fits(rules, grid.Size(), grid.repr[..], Pos(x, y, z))
  {
    var d := grid.Size();
    ghost var tiles := grid.repr[..];
    var p := Pos(x, y, z);
    NeighboursInGrid(d, p);
    IndexInRange(d, p);
    var down := rules[NeighbourTile(grid, rules, p, 1)].Down();
    var up := rules[NeighbourTile(grid, rules, p, 0)].Up();
    var left := rules[NeighbourTile(grid, rules, p, 3)].Left();
    var right := rules[NeighbourTile(grid, rules, p, 2)].Right();
    var front := rules[NeighbourTile(grid, rules, p, 4)].Front();
    var back := rules[NeighbourTile(grid, rules, p, 5)].Back();
    var possible := down * up * left * right * front * back;
    assert possible == TileLegal(rules, d, tiles, p);
    var tile := grid.Get(x, y, z);
    bad := tile !in possible || (possible == {} && tile == BORDER);
  }
}
