# A verified model of the `wfc` pipe-world solvers

The crate fills a 3D grid of pipe tiles by Wave Function Collapse. A tile id is a `u8`. Its top
six bits say which of the six sides has a pipe opening, and its low two bits give the pipe type
(red, green or blue). Type 3 marks the two special ids `EMPTY` (a cell still to be filled) and
`BORDER` (the frame around the grid). `get_pipes_rules` builds the rule table. For every id and
each of the six directions it lists the ids that may sit next to it.

The crate has six solvers. `simple` works directly on a grid of tiles. The other five keep a grid
of candidate sets:

- `baseline` rescans the whole interior until nothing changes;
- `stackprop` and `queueprop` propagate from a LIFO stack or a FIFO queue of dirty cells;
- `queueprop_bitarrayset` stores the sets as 256-bit sets;
- `queueprop_bitarrayset_fibheap` also keeps every interior cell in a Fibonacci heap keyed by its
  number of candidates.

`validate` in `src/main.rs` checks a finished grid.

Each Rust file is modelled by one Dafny module in a file of the same name:

| Dafny module | Rust source | form |
|---|---|---|
| `Prelude` | (shared) | `U8`, `Option`, small set lemmas |
| `DirectionMappings` | `direction_mapping.rs` | datatype over a six-slot sequence |
| `Vec3` | `src/vec3d.rs` | class `Vec3D<T>` over an `array`, class `PosIter3D` |
| `Rules` | `rules.rs` | pure functions on `u8` flags (`bv8` for the bit tests) |
| `Bits256Sets` | `bits256_set.rs` | datatype of two 128-bit words, each a `seq<bool>` |
| `Propagation` | (shared) | the propagation specification every solver is proved against |
| `Validate` | `src/main.rs` | method with the three nested loops |
| `Simple` | `simple.rs` | methods over a `Vec3D<U8>` |
| `Baseline` | `baseline.rs` | methods over a `Vec3D<seq<bool>>` |
| `StackProp` | `stackprop.rs` | methods; uses the `Baseline` helpers, which the source duplicates |
| `QueueProp` | `queueprop.rs` | methods over a `Vec3D<set<U8>>` |
| `QueuePropBitArraySet` | `queueprop_bitarrayset.rs` | methods over a `Vec3D<Bits256Set>` |
| `FibHeaps` | `fib_heap.rs` | class `FibHeap` whose nodes live in a `map<Pos, Node>` |
| `QueuePropBitArraySetFibHeap` | `queueprop_bitarrayset_fibheap.rs` | methods over a grid and a `FibHeap` |

`Propagation` states once, on plain sets, what every propagating solver computes:

- `Legal` gives the legal tiles of a cell. It intersects six unions: for each direction, the
  union over the neighbour's candidates of that neighbour's rule set for that direction.
- `Sound`: the legal tiles of an interior cell with several candidates stay among its candidates.
- `Narrowed`: candidates are only removed, and border cells and settled cells keep theirs.
- `FixedPoint`: every interior cell either has at most one candidate or holds exactly its legal
  tiles.
- `Pending`: every unstable cell is in the worklist.
- `Weight` is the total number of candidates, and it decreases at every rewrite.
- `SolvedFrom`: every non-`EMPTY` input cell comes out unchanged, and every `EMPTY` cell comes out
  as a tile of `get_any_tile` or as `EMPTY`.

Each solver relates its own cell representation to these sets and proves the following:

- its `legal_tiles` equals `Legal`;
- its `propagate` ends in a `Narrowed` fixed point (the worklist solvers do so when every
  unstable cell started out queued);
- its `solve` terminates and returns a `SolvedFrom` grid.

The Fibonacci heap is proved to keep a forest that is heap-ordered and acyclic, whose positions
and priorities are exactly `Contents()`. `pop_min` is proved to return a position of least
priority. In the fib-heap solver the heap's keys are proved to track the candidate counts of the
grid. Because of that, `decrease_key` is never called on a position that has left the heap, and
its `unwrap` cannot fail.

Behaviour worth knowing about, where the code departs from what its names or the textbook operation suggest:

- `Bits256Set::new_intersection` of no sets is the FULL set (the fold starts from all ones), not
  the empty set.
- `items()` never lists 255, because it ranges over `0..u8::MAX`. The same holds for every
  `0..u8::MAX` range in `rules.rs` and in the flag vectors of `baseline`/`stackprop`, which have
  255 entries.
- `cascade_cut(node)` tests whether the node's PARENT is marked. When it is, the node is cut and
  the cascade goes on from the parent. Otherwise the node itself is marked. The textbook
  operation tests and sets the mark of the node itself.
- `QueueProp::find_minimal` sorts the unfinished cells by size in ascending order and pops the
  last one. So it returns a cell with the MOST candidates. This changes which cell is collapsed,
  not what the solver guarantees.
- `remove` of `Bits256Set` does not remove: see Findings.

## Model

| member | source | states |
|---|---|---|
| `DirectionMappings.New` | src/wfc/direction_mapping.rs:7-29 | the six getters return the six constructor arguments in order up, down, right, left, front, back |
| `DirectionMappings.MapSlots` | src/wfc/queueprop_bitarrayset.rs:11-18 | mapping a function over a mapping keeps the six slots in place: slot `k` of the result is `f` of slot `k` |
| `Vec3.Vec3D.constructor` | src/vec3d.rs:10-18 | `new` has `xs*ys*zs` cells, all equal to `init`, and the given sizes |
| `Vec3.Vec3D.Get` | src/vec3d.rs:34-37 | `get` reads the cell at linear index `x + y*xs + z*xs*ys` |
| `Vec3.Vec3D.Set` | src/vec3d.rs:38-41 | `set` overwrites exactly that cell, and `get` then returns the value written |
| `Vec3.Vec3D.WithBorders` | src/vec3d.rs:19-33 | for a cube, `border` is on every cell with a coordinate 0 or `n-1` and `interior` everywhere else |
| `Vec3.Vec3D.BorderCells` | src/vec3d.rs:24-29 | one pass of the inner loop of `with_borders` extends the covered region by one step |
| `Vec3.BorderStep` | src/vec3d.rs:24-29 | the six writes of one inner pass put `border` exactly on the newly covered cells |
| `Vec3.CoveredRowDone` | src/vec3d.rs:23-30 | when the inner loop of `with_borders` ends, the covered region moves on to the next `i` |
| `Vec3.CoveredAll` | src/vec3d.rs:22-31 | when both loops of `with_borders` end, the covered cells are exactly the border cells |
| `Vec3.Vec3D.Clone` | src/vec3d.rs:1 | a derived `clone` is a fresh grid of the same shape holding the same cells |
| `Vec3.Vec3D.FromCells` | src/vec3d.rs:1 | a grid built from a cell sequence of the right length holds exactly those cells |
| `Vec3.IndexInRange` | src/vec3d.rs:34-41 | in-range coordinates give a linear index below the cell count |
| `Vec3.PosOfIndex` | src/vec3d.rs:83-89 | `get_pos_from_index` inverts the index formula of `get`/`set` |
| `Vec3.IndexOfPos` | src/vec3d.rs:83-89 | every index below the cell count maps to an in-range position whose index is that number |
| `Vec3.IndexInjective` | src/vec3d.rs:34-41 | distinct in-range positions have distinct linear indices, so `set` touches one cell |
| `Vec3.NeighbourOffsets` | src/vec3d.rs:34-41 | the six axis neighbours sit at offsets ±1, ±xs and ±xs*ys from a cell's index |
| `Vec3.AtUpdate` | src/vec3d.rs:38-41 | after a write at `p`, the cell at `p` holds the new value and every other cell is unchanged |
| `Vec3.PosIter3D.New` | src/vec3d.rs:53-56 | `PosIter3D::new` starts at 0 over the grid's own size, with borders |
| `Vec3.PosIter3D.NewNoBorder` | src/vec3d.rs:58-61 | `new_no_border` starts at 0 over the box two smaller on each axis |
| `Vec3.PosIter3D.Next` | src/vec3d.rs:66-81 | `next` yields the position at the counter (shifted by one without borders) and advances; `None` at the end, without advancing |
| `Vec3.AllPositionsOnce` | src/vec3d.rs:66-89 | `PosIter3D::new` yields every grid position exactly once, the `k`-th item at linear index `k` |
| `Vec3.InteriorPositionsOnce` | src/vec3d.rs:58-89 | `new_no_border` yields exactly the interior positions, each once |
| `Rules.PipeType` | src/wfc/rules.rs:75 | `i & TYPE_MASK`, computed on the bit pattern, equals the residue of `i` mod 4 |
| `Rules.IsPipe` | src/wfc/rules.rs:24-27 | `(a & TYPE_MASK) ^ TYPE_MASK != 0` holds iff the type `a mod 4` is not 3, so `EMPTY` and `BORDER` are not pipes |
| `Rules.OppositeDir` | src/wfc/rules.rs:39-50 | `UP` and `DOWN`, `LEFT` and `RIGHT`, `FRONT` and `BACK` are each other's opposites (both directions of each pairing); any other value maps to 0 |
| `Rules.OppositeIsInvolution` | src/wfc/rules.rs:39-50 | taking the opposite twice gives the direction back, and no direction is its own opposite |
| `Rules.PipeDirRules` | src/wfc/rules.rs:52-66 | `BORDER` is always allowed. With an opening towards `dir`: pipes of the same type open back towards the tile. Without one: pipes of any type closed towards it |
| `Rules.AnyTile` | src/wfc/rules.rs:68-71 | `get_any_tile` is the pipes below 255 plus `BORDER`; it excludes `EMPTY` and 255 |
| `Rules.PipeRules` | src/wfc/rules.rs:73-105 | a non-pipe, non-special id has all six slots empty; `EMPTY`/`BORDER` have `get_any_tile` in every slot; a pipe has `get_pipe_dir_rules` per slot in the order up, down, right, left, front, back |
| `Rules.PipesRules` | src/wfc/rules.rs:107-110 | the table has 255 entries, entry `i` being `get_pipe_rules(i)` |
| `Rules.OppositeSlot` | src/wfc/rules.rs:39-50 | every slot has an opposite slot whose flag is the opposite direction |
| `Rules.PipesRulesOk` | src/wfc/rules.rs:68-110 | every rule set of the table lies within `get_any_tile` |
| `Rules.PipesRulesSymmetric` | src/wfc/rules.rs:52-110 | `a` may sit on side `k` of `s` iff `s` may sit on the opposite side of `a` |
| `Rules.PipePairSymmetric` | src/wfc/rules.rs:73-105 | the symmetry above, for two pipes |
| `Rules.PipeDirSymmetric` | src/wfc/rules.rs:52-66 | the symmetry above, for one direction of `get_pipe_dir_rules` |
| `Bits256Sets.Bits256Set.Insert` | src/wfc/bits256_set.rs:67-76 | `insert(x)` adds `x` and nothing else |
| `Bits256Sets.Bits256Set.Remove` | src/wfc/bits256_set.rs:78-87 | `remove(x)` as written: the half holding `x` becomes `{x}` if `x` was absent and empty if it was present; the other half is kept |
| `Bits256Sets.Bits256Set.RemoveIntended` | src/wfc/bits256_set.rs:78-87 | the corrected `remove(x)` clears `x` and nothing else |
| `Bits256Sets.Bits256Set.Len` | src/wfc/bits256_set.rs:89-92 | `len` (the popcount of both words) is the number of members |
| `Bits256Sets.Bits256Set.Items` | src/wfc/bits256_set.rs:94-97 | `items` is strictly ascending and lists exactly the members below 255 |
| `Bits256Sets.Bits256Set.ItemsFrom` | src/wfc/bits256_set.rs:96 | the filter over `from..255` lists, in ascending order, exactly the members in that range |
| `Bits256Sets.NewAny` | src/wfc/bits256_set.rs:24-27 | `new_any` contains every id |
| `Bits256Sets.NewEmpty` | src/wfc/bits256_set.rs:29-32 | `new_empty` contains no id |
| `Bits256Sets.LenOfConstants` | src/wfc/bits256_set.rs:24-32 | `len` is 0 for `new_empty` and 256 for `new_any` |
| `Bits256Sets.LenIsCardinality` | src/wfc/bits256_set.rs:89-92 | the popcount of the two words equals the cardinality of the member set |
| `Bits256Sets.NewFromVec` | src/wfc/bits256_set.rs:15-22 | `new_from_vec` contains exactly the listed ids |
| `Bits256Sets.FromSet` | src/wfc/bits256_set.rs:34-42 | the set built from a hash set has exactly its members |
| `Bits256Sets.NewFromHashSet` | src/wfc/bits256_set.rs:34-42 | inserting in any iteration order yields exactly the members of the hash set, and always the same value |
| `Bits256Sets.SumFold` | src/wfc/bits256_set.rs:52 | OR-folding adds exactly the members of the folded sets to the accumulator |
| `Bits256Sets.IntersectionFold` | src/wfc/bits256_set.rs:46 | AND-folding keeps exactly the accumulator members held by every folded set |
| `Bits256Sets.NewSum` | src/wfc/bits256_set.rs:50-54 | `new_sum` holds an id iff some input holds it; with no inputs it is empty |
| `Bits256Sets.NewIntersection` | src/wfc/bits256_set.rs:44-48 | `new_intersection` holds an id iff every input holds it; with no inputs it is full |
| `Bits256Sets.EqualIffSameMembers` | src/wfc/bits256_set.rs:3 | the derived `PartialEq` holds iff the two sets have the same members |
| `Bits256Sets.EqualIffSameElems` | src/wfc/bits256_set.rs:3 | `==` holds iff the sets have equal member sets |
| `Bits256Sets.RemoveAfterInsert` | src/wfc/bits256_set.rs:67-87 | `insert(x)` then `remove(x)` as written leaves the half of `x` empty |
| `Bits256Sets.RemoveIntendedAfterInsert` | src/wfc/bits256_set.rs:67-87 | `insert(x)` then the corrected `remove(x)` gives back the original set when `x` was absent |
| `Bits256Sets.RemoveCounterexample` | src/wfc/bits256_set.rs:78-87 | inserting 2 and then 1 into an empty set and removing 1 as written loses 2; removing 5 from an empty set as written adds 5 |
| `Propagation.NeighboursInGrid` | src/wfc/queueprop.rs:58-87 | the six neighbours of an interior cell are in the grid and differ from it |
| `Propagation.NeighbourIffPushed` | src/wfc/queueprop.rs:34-39 | a cell is a neighbour of `p` iff it is one of the six positions pushed after rewriting `p` |
| `Propagation.LegalMembers` | src/wfc/queueprop.rs:55-111 | a tile is legal iff every one of the six sides allows it |
| `Propagation.LegalMonotone` | src/wfc/queueprop.rs:55-111 | fewer candidates next door never allow more legal tiles |
| `Propagation.LegalLocal` | src/wfc/queueprop.rs:55-111 | writing a cell that is not a neighbour of `p` leaves the legal tiles of `p` unchanged |
| `Propagation.LegalWithinAnyTile` | src/wfc/rules.rs:68-110 | with every rule set within `get_any_tile`, every legal set is too |
| `Propagation.NeighbourTile` | src/wfc/simple.rs:61-66 | the tile read next to an interior cell is an index the rule table has |
| `Propagation.UnionOfSingleton` | src/wfc/queueprop.rs:58-62 | a neighbour holding the single tile `s` contributes exactly `s`'s rule set for that direction |
| `Propagation.PendingEmpty` | src/wfc/queueprop.rs:26 | an empty worklist with every unstable cell pending means a fixed point |
| `Propagation.WriteKeepsSound` | src/wfc/queueprop.rs:30-32 | writing a subset of a cell's candidates that still holds its legal tiles keeps soundness everywhere |
| `Propagation.WriteKeepsSoundAt` | src/wfc/queueprop.rs:30-32 | the same, for one interior cell with several candidates |
| `Propagation.WriteKeepsMultiInterior` | src/wfc/queueprop.rs:32 | writing several candidates only to interior cells keeps only interior cells with several candidates |
| `Propagation.WriteKeepsTilesOk` | src/wfc/queueprop.rs:32 | writing table ids keeps every candidate a table id |
| `Propagation.WriteKept` | src/wfc/queueprop.rs:28-32 | writing an interior cell with several candidates leaves every border and settled cell as it was |
| `Propagation.WriteShrinks` | src/wfc/queueprop.rs:32 | writing a subset of a cell's candidates only removes candidates |
| `Propagation.RewriteShrinks` | src/wfc/queueprop.rs:28-32 | rewriting a multi-candidate cell with a different legal set strictly lowers the total number of candidates |
| `Propagation.WeightUpdate` | src/wfc/queueprop.rs:32 | writing one cell changes the total number of candidates by the difference of the two sizes |
| `Propagation.ShrunkWeight` | src/wfc/queueprop.rs:24-43 | removing candidates never raises the total number of candidates |
| `Propagation.SettledThenKept` | src/wfc/queueprop.rs:127-153 | cells settled since the start stay settled through a step that keeps border and settled cells |
| `Propagation.SkipKeepsPending` | src/wfc/queueprop.rs:27-28 | popping a stable cell and leaving it alone keeps every unstable cell pending |
| `Propagation.RewriteKeepsPending` | src/wfc/queueprop.rs:30-39 | popping a cell, rewriting it and pushing its six neighbours keeps every unstable cell pending |
| `Propagation.CollapseKeepsPending` | src/wfc/queueprop.rs:137-145 | collapsing a cell of a fixed point leaves only its six neighbours to revisit |
| `Propagation.RewriteStep` | src/wfc/queueprop.rs:28-39 | a rewrite keeps `Narrowed` relative to the grid before it and lowers the weight |
| `Propagation.CollapseStep` | src/wfc/queueprop.rs:137 | collapsing a cell to one of its candidates keeps soundness and lowers the weight |
| `Propagation.NarrowedTrans` | src/wfc/queueprop.rs:26-42 | narrowing composes over successive propagation steps |
| `Propagation.NarrowedRefl` | src/wfc/queueprop.rs:26-42 | a sound grid is narrowed from itself (nothing written) |
| `Propagation.Prepared` | src/wfc/queueprop.rs:12-19 | the prepared grid has `{t}` at every non-`EMPTY` cell and `get_any_tile` at every `EMPTY` one |
| `Propagation.PreparedOk` | src/wfc/queueprop.rs:9-22 | the prepared grid is sound and holds table ids; if no border cell is `EMPTY`, only interior cells have several candidates |
| `Propagation.TileLegalIsLegal` | src/wfc/simple.rs:58-73 | on a grid of tiles, the six-way rule intersection is `Legal` of the grid of singletons |
| `Propagation.MinFold` | src/wfc/baseline.rs:61-96 | the fold returns the first cell with the fewest candidates among those with more than one, or `None` iff there is no such cell |
| `Propagation.CandidatesFitU8` | src/wfc/queueprop_bitarrayset_fibheap.rs:34 | a set of table ids has at most 255 members, so `len() as u8` does not wrap |
| `Validate.Validate` | src/main.rs:18-51 | `validate` returns true iff every interior tile is in the intersection of its six neighbour rule sets |
| `Validate.CellFails` | src/main.rs:23-46 | the body fails at a cell iff its tile is not in that intersection; the `BORDER` clause adds no case |
| `Validate.FitsStep` | src/main.rs:22-47 | a cell that passes extends the prefix of checked cells by one |
| `Validate.RowDone` | src/main.rs:20-49 | finishing an axis moves the checked prefix to the next row, the next layer, or the whole interior |
| `Simple.LegalTiles` | src/wfc/simple.rs:58-73 | `legal_tiles` is the intersection of the six neighbour rule sets |
| `Simple.IsCollapsible` | src/wfc/simple.rs:74-76 | a cell is collapsible iff exactly one tile is legal |
| `Simple.CollapseCell` | src/wfc/simple.rs:15-26 | the sweep body fills a cell iff it is `EMPTY` with exactly one legal tile, and then writes that tile; the `EMPTY` count drops by one |
| `Simple.Sweep` | src/wfc/simple.rs:13-28 | a sweep keeps the given cells and reports a fill iff it made one; a sweep with no fill leaves no `EMPTY` interior cell with exactly one legal tile |
| `Simple.SweepCellStep` | src/wfc/simple.rs:15-26 | one sweep step keeps the sweep invariant |
| `Simple.FillKeeps` | src/wfc/simple.rs:45 | filling an `EMPTY` interior cell with a tile of `get_any_tile` keeps the given cells and lowers the `EMPTY` count |
| `Simple.CollapseKeeps` | src/wfc/simple.rs:22-24 | filling with a legal tile keeps the given cells and lowers the `EMPTY` count |
| `Simple.EmptyCountUpdate` | src/wfc/simple.rs:22-45 | replacing one `EMPTY` cell lowers the `EMPTY` count by one |
| `Simple.NoneCollapsibleRowDone` | src/wfc/simple.rs:13-28 | finishing an axis of the sweep moves the "nothing collapsible" prefix on |
| `Simple.NoneCollapsibleStep` | src/wfc/simple.rs:17-24 | a cell that is not an `EMPTY` cell with exactly one legal tile extends the "nothing collapsible" prefix |
| `Simple.ConsiderCell` | src/wfc/simple.rs:33-39 | the search body replaces the held minimum only on an `EMPTY` cell with strictly fewer, but some, legal tiles |
| `Simple.SearchRow` | src/wfc/simple.rs:31-41 | one row of the search extends the "first minimal so far" prefix |
| `Simple.FindMinimum` | src/wfc/simple.rs:29-42 | the search returns the first `EMPTY` interior cell (x, then y, then z) with the fewest non-zero legal tiles, or `usize::MAX` when there is none |
| `Simple.MinStep` | src/wfc/simple.rs:33-39 | one search step keeps the first-minimum invariant |
| `Simple.MinStepTaken` | src/wfc/simple.rs:35-38 | the branch that takes the cell keeps the invariant |
| `Simple.MinStepKept` | src/wfc/simple.rs:33-39 | the branch that keeps the old minimum keeps the invariant |
| `Simple.MinRowDone` | src/wfc/simple.rs:34-40 | finishing the `z` loop of the search moves the prefix to the next `y` |
| `Simple.MinPlaneDone` | src/wfc/simple.rs:33-41 | finishing the `y` loop of the search moves the prefix to the next `x` |
| `Simple.MinSearchDone` | src/wfc/simple.rs:29-42 | at the end of the loops the invariant is the first-minimum property |
| `Simple.NoOpenCell` | src/wfc/simple.rs:48-50 | when no `EMPTY` interior cell has a legal tile, every `EMPTY` interior cell has an empty legal set |
| `Simple.Solve` | src/wfc/simple.rs:9-53 | `solve` terminates; border cells and non-`EMPTY` cells come out unchanged, `EMPTY` interior cells become a `get_any_tile` tile or stay `EMPTY`, and an interior cell left `EMPTY` has no legal tile |
| `Baseline.Members` | src/wfc/baseline.rs:9-16 | a flag vector's set: the indices of its true entries |
| `Baseline.CountIsSize` | src/wfc/baseline.rs:48 | counting true flags gives the size of the flag vector's set |
| `Baseline.SameMembers` | src/wfc/baseline.rs:51 | two flag vectors of the same length are equal iff their sets are |
| `Baseline.VecBoolSetFromSet` | src/wfc/baseline.rs:9-12 | 255 flags; flag `i` is set iff `i` is in the set, so 255 is dropped |
| `Baseline.VecBoolSetFrom` | src/wfc/baseline.rs:13-16 | 255 flags; flag `i` is set iff `i` is listed |
| `Baseline.Or` | src/wfc/baseline.rs:106-109 | element-wise OR over the shorter length |
| `Baseline.And` | src/wfc/baseline.rs:156-159 | element-wise AND over the shorter length |
| `Baseline.PrepareRules` | src/wfc/baseline.rs:17-28 | flag `t` of slot `k` of entry `s` is set iff `t` is in that rule set; its members are exactly the rule set |
| `Baseline.OrFoldMembers` | src/wfc/baseline.rs:100-154 | flag `t` of a side's OR is set iff some set flag `s` of the neighbour allows `t` |
| `Baseline.AndFold` | src/wfc/baseline.rs:156-159 | flag `t` of the AND of the sides is set iff it is set in every side |
| `Baseline.SideFlagsMembers` | src/wfc/baseline.rs:100-154 | each side's flags represent the candidate-set union of that direction |
| `Baseline.AndFoldSix` | src/wfc/baseline.rs:156-159 | the AND of six flag vectors represents the intersection of their sets |
| `Baseline.LegalTilesIsLegal` | src/wfc/baseline.rs:98-161 | `legal_tiles` on flags represents `Legal` |
| `Baseline.DomAt` | src/wfc/baseline.rs:29-60 | reading a cell of the flag grid gives that cell of its candidate grid |
| `Baseline.DomWrite` | src/wfc/baseline.rs:52 | `set` on the flag grid is a write of the member set on the candidate grid |
| `Baseline.CellStep` | src/wfc/baseline.rs:48-55 | one cell of a pass either rewrites with a lower weight and keeps narrowing, or leaves the cell stable |
| `Baseline.VisitCell` | src/wfc/baseline.rs:48-55 | the pass body writes iff the cell has several flags and different legal tiles, and then writes the legal tiles |
| `Baseline.Pass` | src/wfc/baseline.rs:46-57 | one sweep of the interior keeps narrowing; a changed pass lowers the weight; an unchanged one proves a fixed point |
| `Baseline.PassStep` | src/wfc/baseline.rs:47-56 | one visited cell keeps the pass invariant |
| `Baseline.PassDone` | src/wfc/baseline.rs:45-58 | a pass that visited every interior cell and wrote nothing leaves a fixed point |
| `Baseline.VisitedStep` | src/wfc/baseline.rs:47-56 | a stable visited cell extends the prefix of stable cells by one |
| `Baseline.Propagate` | src/wfc/baseline.rs:42-60 | `propagate` terminates with a grid narrowed from the one given that is a fixed point |
| `Baseline.FindMinimal` | src/wfc/baseline.rs:61-97 | the first cell in iterator order with the fewest set flags among those with more than one; `None` iff no cell has more than one |
| `Baseline.Lowest` | src/wfc/baseline.rs:167-176 | the lowest set flag, or `EMPTY` when none is set |
| `Baseline.LowestFrom` | src/wfc/baseline.rs:167-176 | the first set flag at or after `i`, or `EMPTY` |
| `Baseline.FormatSolution` | src/wfc/baseline.rs:162-181 | every output cell is the lowest candidate of its cell, or `EMPTY` |
| `Baseline.PreparedCell` | src/wfc/baseline.rs:31-36 | a cell starts as `get_any_tile` when `EMPTY` and as its own tile otherwise |
| `Baseline.PrepareMap` | src/wfc/baseline.rs:29-41 | the prepared grid, propagated: narrowed from the prepared candidates and a fixed point |
| `Baseline.Collapse` | src/wfc/baseline.rs:196-207 | the chosen cell becomes one of its candidates, the invariant holds and the weight drops |
| `Baseline.SolveStep` | src/wfc/baseline.rs:196-207 | collapsing to one candidate keeps the solve invariant and lowers the weight |
| `Baseline.PropagateKeeps` | src/wfc/baseline.rs:192 | propagation keeps the solve invariant without raising the weight |
| `Baseline.PreparedInv` | src/wfc/baseline.rs:29-41 | a grid narrowed from the prepared grid meets the solve invariant |
| `Baseline.OutputTiles` | src/wfc/baseline.rs:162-181 | formatting a grid that meets the solve invariant gives a `SolvedFrom` output |
| `Baseline.Solve` | src/wfc/baseline.rs:185-215 | `solve` terminates and returns a `SolvedFrom` grid of the input's size |
| `StackProp.PopSettled` | src/wfc/stackprop.rs:46-47 | popping a cell with at most one flag keeps the stack invariant |
| `StackProp.PopStable` | src/wfc/stackprop.rs:46-50 | popping a cell whose legal tiles equal its flags keeps the stack invariant |
| `StackProp.PopRewrite` | src/wfc/stackprop.rs:46-59 | popping, rewriting and pushing the six neighbours keeps the invariant and lowers the weight |
| `StackProp.SeveralIsInterior` | src/wfc/stackprop.rs:47-49 | a cell with several flags is interior, so its legal tiles are defined |
| `StackProp.PoppedMembers` | src/wfc/stackprop.rs:46 | `pop` returns the last entry, and every stacked position is it or still stacked |
| `StackProp.Propagate` | src/wfc/stackprop.rs:43-63 | the LIFO propagation terminates narrowed; a fixed point if every unstable cell was stacked; nothing written if every stacked cell had at most one flag |
| `StackProp.SetGiven` | src/wfc/stackprop.rs:30-38 | the loop of `prepare_map` prepares every cell and stacks only non-`EMPTY` input cells |
| `StackProp.PreparedCells` | src/wfc/stackprop.rs:30-38 | the prepared flag grid represents `Prepared` of the input |
| `StackProp.PrepareMap` | src/wfc/stackprop.rs:28-42 | `prepare_map` returns exactly the prepared grid, since every stacked cell has one flag |
| `StackProp.CollapseKeepsMultiInterior` | src/wfc/stackprop.rs:195-206 | collapsing a cell to one flag keeps only interior cells with several flags |
| `StackProp.Solve` | src/wfc/stackprop.rs:186-222 | `solve` terminates and returns a `SolvedFrom` grid of the input's size |
| `QueueProp.HitsAll` | src/wfc/queueprop.rs:96-109 | a tile counted 6 times lies in all six deduplicated lists; counted 0 times, in none |
| `QueueProp.LegalTiles` | src/wfc/queueprop.rs:55-111 | counting the tiles that occur in all six deduplicated neighbour lists gives exactly `Legal` |
| `QueueProp.CountSide` | src/wfc/queueprop.rs:89-100 | counting one deduplicated list adds one to the count of each of its tiles |
| `QueueProp.PoppedFrontMembers` | src/wfc/queueprop.rs:27 | `pop_front` returns the first entry, and every queued position is it or still queued |
| `QueueProp.PopKept` | src/wfc/queueprop.rs:27-31 | popping a stable cell from the front keeps the queue invariant |
| `QueueProp.PopRewrite` | src/wfc/queueprop.rs:27-39 | popping from the front, rewriting and pushing to the back keeps the invariant and lowers the weight |
| `QueueProp.Propagate` | src/wfc/queueprop.rs:24-43 | the FIFO propagation terminates narrowed; a fixed point if every unstable cell was queued; nothing written if every queued cell had at most one candidate |
| `QueueProp.FindMinimal` | src/wfc/queueprop.rs:45-53 | `None` iff no cell has more than one candidate; otherwise a cell with several candidates and no fewer than any other such cell (the largest) |
| `QueueProp.LargestExists` | src/wfc/queueprop.rs:51-52 | a non-empty list sorted by size ends with an entry no other entry exceeds |
| `QueueProp.FormatSolution` | src/wfc/queueprop.rs:113-121 | every output cell is `EMPTY` for an empty set and a member of its set otherwise |
| `QueueProp.SetGiven` | src/wfc/queueprop.rs:12-19 | the loop of `prepare` builds `Prepared` of the input and queues only non-`EMPTY` input cells |
| `QueueProp.Prepare` | src/wfc/queueprop.rs:9-22 | `prepare` returns exactly the prepared grid, since every queued cell has one candidate |
| `QueueProp.CollapseKeeps` | src/wfc/queueprop.rs:137 | collapsing a cell to one of its candidates keeps the solve invariant and lowers the weight |
| `QueueProp.PropagateKeeps` | src/wfc/queueprop.rs:145 | propagation keeps the solve invariant without raising the weight |
| `QueueProp.OutputTiles` | src/wfc/queueprop.rs:147-150 | formatting a grid that meets the solve invariant gives a `SolvedFrom` output |
| `QueueProp.Solve` | src/wfc/queueprop.rs:127-153 | `solve` terminates and returns a `SolvedFrom` grid of the input's size |
| `QueuePropBitArraySet.PrepareRules` | src/wfc/queueprop_bitarrayset.rs:9-19 | slot `k` of bit entry `s` holds exactly the members of rule set `k` of entry `s` |
| `QueuePropBitArraySet.Dom` | src/wfc/queueprop_bitarrayset.rs:20-55 | the candidate grid of a bit-set grid: each cell's members |
| `QueuePropBitArraySet.DomAt` | src/wfc/queueprop_bitarrayset.rs:41 | reading a bit-set cell gives that cell of the candidate grid |
| `QueuePropBitArraySet.DomWrite` | src/wfc/queueprop_bitarrayset.rs:46 | `set` on the bit-set grid is a write of the members on the candidate grid |
| `QueuePropBitArraySet.SideSum` | src/wfc/queueprop_bitarrayset.rs:96-101 | `new_sum` over the items of a neighbour holds `t` iff some member below 255 allows `t` in that slot |
| `QueuePropBitArraySet.SideSumIsUnion` | src/wfc/queueprop_bitarrayset.rs:96-101 | one `new_sum` over the items of a neighbour is the candidate-set union of that direction |
| `QueuePropBitArraySet.SumsAreSides` | src/wfc/queueprop_bitarrayset.rs:95-102 | the six sums are the six sides, in the code's order |
| `QueuePropBitArraySet.IntersectionOfSix` | src/wfc/queueprop_bitarrayset.rs:103 | `new_intersection` of the six sums is the intersection of the six sides |
| `QueuePropBitArraySet.LegalTilesIsLegal` | src/wfc/queueprop_bitarrayset.rs:93-105 | the bit-set `legal_tiles` holds exactly `Legal` |
| `QueuePropBitArraySet.Visit` | src/wfc/queueprop_bitarrayset.rs:40-53 | the loop body writes iff the cell is interior with several candidates and different legal tiles, and then writes exactly them |
| `QueuePropBitArraySet.Propagate` | src/wfc/queueprop_bitarrayset.rs:35-55 | the FIFO propagation terminates narrowed; a fixed point if every unstable cell was queued; nothing written if every queued cell had at most one candidate |
| `QueuePropBitArraySet.FindMinimal` | src/wfc/queueprop_bitarrayset.rs:56-92 | the first cell with the fewest members among those with more than one; `None` iff no cell has more than one |
| `QueuePropBitArraySet.First` | src/wfc/queueprop_bitarrayset.rs:111 | the first item, or `EMPTY` when there is none |
| `QueuePropBitArraySet.FirstFormatted` | src/wfc/queueprop_bitarrayset.rs:111 | for a cell of table ids, the first item is `EMPTY` on an empty set and a member otherwise |
| `QueuePropBitArraySet.FormatSolution` | src/wfc/queueprop_bitarrayset.rs:106-116 | every output cell is the first item of its cell, or `EMPTY` |
| `QueuePropBitArraySet.OutputFormatted` | src/wfc/queueprop_bitarrayset.rs:106-116 | the formatted grid meets `format_solution`'s promise on the candidate grid |
| `QueuePropBitArraySet.SetGiven` | src/wfc/queueprop_bitarrayset.rs:22-30 | the loop of `prepare_map` builds the prepared grid and queues only non-`EMPTY` input cells |
| `QueuePropBitArraySet.PrepareMap` | src/wfc/queueprop_bitarrayset.rs:20-34 | `prepare_map` returns exactly the prepared grid |
| `QueuePropBitArraySet.Pick` | src/wfc/queueprop_bitarrayset.rs:131 | `get_random(items())` of a cell with several candidates is one of its members below 255 |
| `QueuePropBitArraySet.Solve` | src/wfc/queueprop_bitarrayset.rs:120-147 | `solve` terminates and returns a `SolvedFrom` grid of the input's size |
| `FibHeaps.FibHeap.constructor` | src/wfc/fib_heap.rs:58-65 | `FibHeap::new` is empty: no positions, no roots, no minimum |
| `FibHeaps.FibHeap.Insert` | src/wfc/fib_heap.rs:67-84 | a fresh position joins the front of the roots with its priority; it becomes `min` when the heap was empty or its priority is strictly lower |
| `FibHeaps.FibHeap.Cut` | src/wfc/fib_heap.rs:205-217 | the child leaves its parent's children, loses parent and mark, and goes to the front of the roots; order and priorities hold |
| `FibHeaps.FibHeap.CascadeCut` | src/wfc/fib_heap.rs:219-233 | a root is untouched; under an unmarked parent the node is marked; under a marked parent it becomes a root; priorities never change |
| `FibHeaps.FibHeap.DecreaseKey` | src/wfc/fib_heap.rs:180-203 | the key's priority becomes `value`; it is cut to the roots if its parent is now larger; otherwise the roots and every other node are unchanged; it becomes `min` if strictly below the old minimum |
| `FibHeaps.FibHeap.ClearParents` | src/wfc/fib_heap.rs:92-95 | every child of the minimum loses its parent |
| `FibHeaps.FibHeap.FirstMinimal` | src/wfc/fib_heap.rs:110-117 | the first root of least priority |
| `FibHeaps.FibHeap.DetachMin` | src/wfc/fib_heap.rs:92-102 | the minimum's children join the roots and the minimum leaves roots and map; the forest stays heap-ordered |
| `FibHeaps.FibHeap.PickMin` | src/wfc/fib_heap.rs:104-119 | `min` becomes a root of least priority, or `None` with no roots |
| `FibHeaps.FibHeap.PopMin` | src/wfc/fib_heap.rs:86-129 | `None` iff the heap is empty; otherwise the old `min`, of least priority, which leaves the heap; other entries keep their priorities and no two roots after `min` share a rank |
| `FibHeaps.FibHeap.Consolidate` | src/wfc/fib_heap.rs:163-178 | positions and priorities are unchanged, `min` heads the roots, and no two other roots share a rank |
| `FibHeaps.FibHeap.RankRoots` | src/wfc/fib_heap.rs:165-172 | every root other than `min` is merged into the ranked map; the forest stays heap-ordered |
| `FibHeaps.FibHeap.RankRoot` | src/wfc/fib_heap.rs:168-171 | one root merged into the ranked map keeps the forest and the ranking |
| `FibHeaps.FibHeap.InsertOrMerge` | src/wfc/fib_heap.rs:131-161 | the node is linked with the ranked root of its rank (larger priority below; on a tie the node goes below) until its rank is free; order and priorities hold |
| `FibHeaps.FibHeap.Adopt` | src/wfc/fib_heap.rs:139-143 | the parent adopts the child at the front of its children and is unmarked; the child points back |
| `FibHeaps.ValuesOf` | src/wfc/fib_heap.rs:173-174 | `ranked.values()` lists each value once |
| `FibHeaps.MinPriority` | src/wfc/fib_heap.rs:86-90 | in a valid heap, `min` has the least priority of all positions |
| `FibHeaps.MinOfRoots` | src/wfc/fib_heap.rs:104-119 | a root no other root undercuts is a valid `min` of a heap-ordered forest |
| `FibHeaps.InsertKeepsForest` | src/wfc/fib_heap.rs:67-84 | adding a fresh root keeps an acyclic, heap-ordered forest |
| `FibHeaps.InsertKeepsMin` | src/wfc/fib_heap.rs:67-84 | `insert` keeps `min` valid: the new position when the heap was empty or it is strictly smaller |
| `FibHeaps.CutPriorities` | src/wfc/fib_heap.rs:205-217 | a cut changes no position and no priority |
| `FibHeaps.AdoptPriorities` | src/wfc/fib_heap.rs:139-153 | linking changes no position and no priority |
| `FibHeaps.MarkKeepsForest` | src/wfc/fib_heap.rs:230 | marking a node keeps the forest, the order and the priorities |
| `FibHeaps.LowerKeepsMin` | src/wfc/fib_heap.rs:180-203 | after lowering a key, `min` is the key when it went strictly below the old minimum and the old `min` otherwise |
| `FibHeaps.PopRoots` | src/wfc/fib_heap.rs:98-101 | appending the minimum's children and removing the minimum leaves the other roots and the children, each once |
| `FibHeaps.RankedAdd` | src/wfc/fib_heap.rs:159 | entering a root under a free rank adds exactly it to the ranked roots |
| `FibHeaps.RankedAfterAdopt` | src/wfc/fib_heap.rs:136-155 | linking two roots outside the ranked map keeps the ranks of the ranked roots |
| `FibHeaps.ConsolidateStep` | src/wfc/fib_heap.rs:166-172 | one turn of the loop of `consolidate` accounts for the `i`-th root, merged or skipped as `min` |
| `FibHeaps.CutKeepsForest` | src/wfc/fib_heap.rs:205-217 | a cut keeps an acyclic forest over the same positions |
| `FibHeaps.AdoptKeepsForest` | src/wfc/fib_heap.rs:139-153 | linking two roots keeps an acyclic forest |
| `FibHeaps.PopKeepsForest` | src/wfc/fib_heap.rs:92-102 | removing the minimum root and promoting its children keeps a forest |
| `FibHeaps.LowerKeepsForest` | src/wfc/fib_heap.rs:184 | lowering a priority keeps the forest and breaks order at most below the parent |
| `FibHeaps.RanksDistinct` | src/wfc/fib_heap.rs:173-177 | the roots built from the ranked map have distinct ranks |
| `FibHeaps.RankedRemove` | src/wfc/fib_heap.rs:135 | taking a rank out of the ranked map removes exactly that root |
| `QueuePropBitArraySetFibHeap.Bytes` | src/wfc/queueprop_bitarrayset_fibheap.rs:34 | the ids below `n` are `n` many |
| `QueuePropBitArraySetFibHeap.AsU8` | src/wfc/queueprop_bitarrayset_fibheap.rs:34 | `as u8` keeps values below 256 and maps 256 to 0 |
| `QueuePropBitArraySetFibHeap.TileCount` | src/wfc/queueprop_bitarrayset_fibheap.rs:34 | a cell of table ids has at most 255 members, so `len() as u8` is exact |
| `QueuePropBitArraySetFibHeap.TrackRewrite` | src/wfc/queueprop_bitarrayset_fibheap.rs:54-55 | after a rewrite, `decrease_key` with the new size is a decrease, and the heap tracks the new grid |
| `QueuePropBitArraySetFibHeap.TrackCollapse` | src/wfc/queueprop_bitarrayset_fibheap.rs:108-113 | after a cell is popped and collapsed, the heap without it tracks the new grid |
| `QueuePropBitArraySetFibHeap.CollapseTracked` | src/wfc/queueprop_bitarrayset_fibheap.rs:108-113 | collapsing a popped cell keeps the solve invariant and the tracking |
| `QueuePropBitArraySetFibHeap.Propagate` | src/wfc/queueprop_bitarrayset_fibheap.rs:46-66 | the bit-set FIFO propagation's guarantees hold, and the heap keeps its positions and tracks the grid |
| `QueuePropBitArraySetFibHeap.VisitTracked` | src/wfc/queueprop_bitarrayset_fibheap.rs:49-63 | the loop body: as the bit-set body, plus a `decrease_key` keeping the heap in step |
| `QueuePropBitArraySetFibHeap.Retrack` | src/wfc/queueprop_bitarrayset_fibheap.rs:55 | `decrease_key` with the new size makes the heap track the rewritten grid |
| `QueuePropBitArraySetFibHeap.PrepareHeap` | src/wfc/queueprop_bitarrayset_fibheap.rs:41-44 | `prepare_heap` is a fresh empty heap |
| `QueuePropBitArraySetFibHeap.InsertCell` | src/wfc/queueprop_bitarrayset_fibheap.rs:34 | inserting a cell keys it by its number of candidates |
| `QueuePropBitArraySetFibHeap.InsertNext` | src/wfc/queueprop_bitarrayset_fibheap.rs:31-36 | one step of the second loop inserts the cell iff it is interior |
| `QueuePropBitArraySetFibHeap.InsertedNext` | src/wfc/queueprop_bitarrayset_fibheap.rs:31-36 | one step keeps "exactly the interior cells before `i`, keyed by size" |
| `QueuePropBitArraySetFibHeap.InsertedAll` | src/wfc/queueprop_bitarrayset_fibheap.rs:31-36 | after the loop, the heap holds exactly the interior cells and tracks the grid |
| `QueuePropBitArraySetFibHeap.InsertInterior` | src/wfc/queueprop_bitarrayset_fibheap.rs:31-36 | the second loop of `prepare_map` inserts exactly the interior cells, keyed by their sizes |
| `QueuePropBitArraySetFibHeap.PropagateGiven` | src/wfc/queueprop_bitarrayset_fibheap.rs:37 | propagating from the given cells writes nothing and keeps the heap |
| `QueuePropBitArraySetFibHeap.PrepareMap` | src/wfc/queueprop_bitarrayset_fibheap.rs:20-39 | `prepare_map` returns the prepared grid and a heap of exactly the interior cells tracking it |
| `QueuePropBitArraySetFibHeap.FindMinimal` | src/wfc/queueprop_bitarrayset_fibheap.rs:68-71 | `None` iff the heap is empty; otherwise a position of least key, which leaves the heap |
| `QueuePropBitArraySetFibHeap.CollapseAt` | src/wfc/queueprop_bitarrayset_fibheap.rs:110-121 | the collapse fails iff the popped cell has no candidate (the `get_random` panic); otherwise the invariant and tracking hold again |
| `QueuePropBitArraySetFibHeap.Round` | src/wfc/queueprop_bitarrayset_fibheap.rs:106-127 | one loop turn: nothing changes on an empty heap; a popped cell with no candidate stops; otherwise the invariants hold over a smaller heap |
| `QueuePropBitArraySetFibHeap.FewerKeys` | src/wfc/queueprop_bitarrayset_fibheap.rs:108 | popping a position lowers the heap's size |
| `QueuePropBitArraySetFibHeap.Output` | src/wfc/queueprop_bitarrayset_fibheap.rs:86-94 | formatting a grid meeting the solve invariant gives a `SolvedFrom` output |
| `QueuePropBitArraySetFibHeap.SolveLoop` | src/wfc/queueprop_bitarrayset_fibheap.rs:106-128 | the loop ends with a `SolvedFrom` grid, or with an interior cell left without candidates |
| `QueuePropBitArraySetFibHeap.Solve` | src/wfc/queueprop_bitarrayset_fibheap.rs:100-129 | `solve` terminates with a `SolvedFrom` grid, or with `None` and an interior cell left without candidates, where `get_random` panics |

## Left out

- Randomness: `get_random` (src/wfc/utils.rs) picks an unspecified member (`:|`). The contracts
  hold whichever member it returns.
- I/O: the `println!` diagnostics of `validate`, the example binaries, benchmarks and tests.
- The `WFC` trait (src/wfc/traits.rs): each `solve` is a plain method of its module.
- `HashSet`, `HashMap`, `VecDeque` and `LinkedList` become Dafny `set`, `map` and `seq`. Their
  iteration order is unspecified, and nothing proved depends on it.
- Complexity: no contract bounds the running time, the number of heap roots or any amortised cost.
- FibHeaps.FibHeap: nodes are values in a `map<Pos, Node>` keyed by position, not shared
  `Rc<RefCell>` cells. So the model has no aliasing, and two nodes with the same key are the same
  node (the derived `PartialEq` of the source compares keys). A ghost `level` map makes parent
  chains finite.
- FibHeaps.FibHeap.Insert: requires a position not yet in the heap. The source would leave a stale
  node linked; its only caller inserts each interior position once.
- FibHeaps.FibHeap.DecreaseKey: requires the key to be in the heap (the source `unwrap`s) and the
  new priority to be no larger than the old one, as the name promises.
- Vec3.Vec3D.WithBorders: modelled for cubes only. The source reuses `i` and `j` across axes, so on
  a non-cube it writes out of range or misses border cells.
- Vec3.Vec3D.Get and Vec3.Vec3D.Set: require the linear index to be in range, where the source
  panics.
- Vec3.PosIter3D.NewNoBorder: requires sides of at least 2, where `x_size - 2` underflows in the
  source. So does Baseline.Solve, whose `propagate` builds that iterator.
- Validate.Validate: requires every neighbour tile of an interior cell to index the rule table.
  The source panics on `rules[tile as usize]` for a larger tile, and it would also return `false`
  without panicking when an earlier cell already fails. Neither the panic nor that early exit on
  such a grid is modelled. Grids whose tiles are all below 255, as every solver returns, meet it.
- Validate.Validate and Simple.Solve: require sizes of at least 1, where `x_size - 1` underflows in
  the source.
- StackProp.Solve, QueueProp.Solve, QueuePropBitArraySet.Solve and QueuePropBitArraySetFibHeap.Solve:
  require no `EMPTY` border cell. Otherwise a border cell with several candidates would be
  propagated, and `legal_tiles` would read outside the grid. Grids built with
  `Vec3D::with_borders(.., EMPTY, BORDER)` meet this.
- StackProp.PrepareMap, QueueProp.Prepare, QueuePropBitArraySet.PrepareMap and
  QueuePropBitArraySetFibHeap.PrepareMap: require no `EMPTY` border cell as well, although the
  source's preparation alone would handle one (only single-candidate cells are queued, and the
  setup `propagate` skips them). The model's `propagate` assumes every multi-candidate cell is
  interior, so it does not capture preparing a grid whose border is still open.
- Every solver requires a rule table with an entry for every id below 255 and every rule set
  within `get_any_tile`, and input tiles below 255. `Rules.PipesRulesOk` proves that
  `get_pipes_rules` meets this.
- QueuePropBitArraySetFibHeap.Solve: `solve` returns a grid in the source. The model returns
  `None` at the point where `get_random` would panic on a popped cell with no candidate left.
- `len() as u8` keys: modelled as the low eight bits (`AsU8`). `TileCount` proves there is no
  wrap on table ids.
- `StackProp` and `QueuePropBitArraySetFibHeap` reuse the `prepare_rules`, `legal_tiles`,
  `find_minimal` and `format_solution` of `Baseline` and `QueuePropBitArraySet`. The source has
  identical copies.
- `Vec3D::clone` of the cell values: the cells are Dafny values, so no deep copy is needed.

## Findings

| source | as written | input that shows it | evidently intended | confidence | as-written member | corrected member |
|---|---|---|---|---|---|---|
| src/wfc/bits256_set.rs:78-87 | `remove(x)` sets the word holding `x` to `2^x & !word`, which keeps at most the bit of `x`, and only when it was clear | `new_empty()` with 2 and 1 inserted, then `remove(1)`, no longer contains 2; `new_empty().remove(5)` contains 5 | `word = !2^x & word`, which clears only `x` | not executed | `Bits256Sets.Bits256Set.Remove`, `Bits256Sets.RemoveCounterexample` | `Bits256Sets.Bits256Set.RemoveIntended`, `Bits256Sets.RemoveIntendedAfterInsert` |
