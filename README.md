# RectMesh — a verified model of the EasyGmsh rectangular mesh builder

`RectMesh` turns two coordinate lists `x` (length `nx + 1`) and `y` (length `ny + 1`)
into a structured gmsh geometry. It does this in four steps:

- **Points.** It adds one point per grid node, in the table `nodes[nx + 1, ny + 1]`.
- **Lines.** It adds one line per grid edge: the lines along x go in `linex[nx, ny + 1]`
  and the lines along y go in `liney[nx + 1, ny]`.
- **Cells.** It adds one signed four-line curve loop per cell, in `curves[nx, ny]`. Each
  loop bounds one plane surface, in `surfaces[nx, ny]`.
- **Material groups.** It sorts every cell's surface into the physical group of its
  material. The material comes from the integer matrix `materials`, whose rows are listed
  top row first, and whose ids are 1-based.

Around the builder sit:

- a small selection algebra on per-axis cell-index lists (`greater`, `less`, `equal`,
  `join`, `resolve`);
- the assembly-material table that `export_assembly_materials` writes: one
  `"<surface:<5d> <group + 1>\n"` line per surface, in ascending surface order.

The project is organised in these modules:

- `Py` (`py.dfy`): the Python semantics the code relies on. This covers subscripts that
  count negative indices from the end, `str(int)` and its inverse, and `str.ljust`.
- `Gmsh` (`gmsh.dfy`): the gmsh session, as a class `Geo`.
  - Each `add*` call appends a record and returns the next tag. Tags are 1-based and
    equal the record count, as gmsh hands out `max + 1`.
  - A curve loop refers to its lines by tag; a negative tag means the line is
    traversed backwards.
- `Grid` (`grid.dfy`): the `for iy: for ix:` visit order of the cells and its arithmetic.
- `Topology` (`topology.dfy`), on the values of the tag tables:
  - which points each line joins;
  - that tags are distinct;
  - what each cell's signed loop is, and that it closes.
- `Materials` (`materials.dfy`):
  - the material lookup of one cell;
  - the assigner, both as a reference fold (`Classify`) and step by step (`Assigned`);
  - that the groups partition the surfaces;
  - the group registrations.
- `Selection` (`selection.dfy`): filtering, sorted unique union, numpy broadcasting of
  two index arrays, and fancy indexing.
- `Export` (`export.dfy`): flattening the groups into (surface, group) pairs, a stable
  sort by surface, line formatting, and a parser showing that each line reads back.
- `Mesh` (`rect_mesh.dfy`): the class `RectMesh`.
  - Its tables are `array2<int>` fields, filled in place by nested loop methods.
  - The methods are proved against the `Topology` and `Materials` definitions.
  - `Placed`, `Celled` and `Grouped` say where the points sit, which loops and surfaces
    the cells get, and what the material groups and registrations are after `generate`.
  - Its `greater`/`less`/`equal` overwrite `selected[dim]` in the caller's array.

Behaviour of the code that the model keeps:

- **Material id 0 does not raise.** `material_id` is then `-1`, and
  `physical_groups[-1]` is the last group (`Materials.ZeroIdPicksLastGroup`). An id
  above the number of groups raises IndexError, as does a matrix too small for the
  grid. In either case the groups stay as the assignment left them at that cell, and
  nothing is registered.
- **Default names count matrix rows.** When no names are given, there is one name
  `str(i)` per row of the material matrix (`len(materials)`), not one per material id.
- **`<5d` left-justifies.** The id is padded with spaces on its right to width 5.
  One more space follows, then the 1-based group number.
- **A bad axis raises.** `greater`/`less`/`equal` with a `dim` that does not
  subscript the selection raise IndexError. A negative `dim` counts from the end.
- **`join` truncates.** It pairs the axes with `zip`, so it stops at the shorter list.
- **`resolve` broadcasts.** It is numpy fancy indexing: the two index lists are paired
  position by position after a length-1 list is repeated. It is not a cartesian
  product (`Selection.ResolveIsNotAProduct`). Negative indices count from the end;
  any other out-of-range index, or lengths that do not broadcast, raise IndexError.

## Model

| member | source | states |
|---|---|---|
| Mesh.RectMesh.constructor | EasyGmsh/RectMesh.py:11-22 | keeps the coordinate lists and the optional material matrix and names; `nx`, `ny` are the list lengths minus one |
| Mesh.RectMesh.Generate | EasyGmsh/RectMesh.py:25-32 | records the mesh size. It adds `(nx+1)(ny+1)` points after the earlier ones, each node naming a new point at `(x[ix], y[iy], 0)` with that size (`Placed`). It adds exactly `nx(ny+1) + (nx+1)ny` lines after the earlier ones, the tables `linex`/`liney` naming only those new lines (`FreshLines`) and joining the right points with no tag used twice (`Wired`). The new loops are the cells' signed loops in visit order, each closed; surface `k` is bounded by loop `k` alone; `curves` and `surfaces` hold those tags (`Celled`). Without materials: RuntimeError and no group state changed. Otherwise `n_matrial` and the default names are set, and the outcome is `Grouped`: Pass exactly when every cell's material resolves, with the groups equal to the reference classification, holding `nx*ny` surfaces, none in two groups, and registered in order; otherwise IndexError, the groups as the cells before the failing one left them, nothing registered |
| Mesh.RectMesh.BuildMesh | EasyGmsh/RectMesh.py:29-31 | the geometry half of `generate`: new points `Placed` after the earlier ones, exactly `nx(ny+1) + (nx+1)ny` new lines after the earlier ones, named by the line tables (`FreshLines`), `Wired`, the cells `Celled` with every new loop closed, and surface tags that are distinct over the visited cells |
| Mesh.RectMesh.BuildEdges | EasyGmsh/RectMesh.py:29-30 | after `generate_nodes` and `generate_lines` each node names a new point at its coordinates (`Placed`), exactly `nx(ny+1) + (nx+1)ny` new lines follow the earlier ones and the line tables name only them (`FreshLines`), and the tables are `Wired`: each line joins its grid neighbours; node tags are distinct, and line tags are distinct across both directions |
| Mesh.RectMesh.BuildNodes | EasyGmsh/RectMesh.py:29 | `generate_nodes`: `(nx+1)(ny+1)` points after the earlier ones, each node naming a new point at its coordinates, under distinct tags |
| Mesh.RectMesh.BuildLines | EasyGmsh/RectMesh.py:30 | `generate_lines`: exactly `nx(ny+1) + (nx+1)ny` lines after the earlier ones, the tables naming only those new lines (`FreshLines`), each joining its grid neighbours (`XEdges`, `YEdges`), with no tag in both tables or twice in one |
| Mesh.PlacedOfTable | EasyGmsh/RectMesh.py:42-47 | the point facts on the numpy table carry over to its values (`Placed`) |
| Mesh.RectMesh.BuildCells | EasyGmsh/RectMesh.py:31 | `generate_surfaces` on wired tables: the new loops are the cells' signed loops in visit order and each new surface is bounded by its own loop, with the tag tables numbering both (`Celled`); every new loop is closed, and the cells' surface tags are distinct |
| Mesh.RectMesh.GroupCells | EasyGmsh/RectMesh.py:32 | `generate_physical_groups` on the built surfaces: RuntimeError with no group state changed without materials; otherwise `n_matrial` and the names set as the source does and the outcome `Grouped` (classification and registrations on Pass, IndexError with the partial groups and nothing registered otherwise); on Pass the groups split the `nx*ny` surfaces |
| Mesh.RectMesh.GenerateNodes | EasyGmsh/RectMesh.py:35-51 | fresh `nodes[nx+1, ny+1]`. Node `(ix, iy)` gets the next point tag in row-major order from the bottom, and that point sits at `(x[ix], y[iy], 0)` with the mesh size. The earlier points are unchanged |
| Mesh.RectMesh.AddNodeRow | EasyGmsh/RectMesh.py:44-47 | the inner loop: row `iy` gets `nx+1` consecutive tags at the right coordinates; other rows are untouched |
| Mesh.NodeTagsOfTable | EasyGmsh/RectMesh.py:42-47 | the node tags handed out row by row are pairwise distinct |
| Mesh.RectMesh.GenerateLines | EasyGmsh/RectMesh.py:54-75 | `linex[ix, iy]` joins `nodes[ix, iy]` to `nodes[ix+1, iy]`, and `liney[ix, iy]` joins `nodes[ix, iy]` to `nodes[ix, iy+1]`. There are `nx(ny+1) + (nx+1)ny` new lines with consecutive tags: row-wise for x, then column-wise for y |
| Mesh.RectMesh.AddLinesX | EasyGmsh/RectMesh.py:56-61 | the first double loop: `linex` filled row by row with the lines along x |
| Mesh.RectMesh.AddLinesY | EasyGmsh/RectMesh.py:66-71 | the second double loop: `liney` filled column by column with the lines along y |
| Mesh.RectMesh.AddLineRow | EasyGmsh/RectMesh.py:58-61 | the inner loop over `ix`: row `iy` of `linex`, the rest untouched |
| Mesh.RectMesh.AddLineColumn | EasyGmsh/RectMesh.py:68-71 | the inner loop over `iy`: column `ix` of `liney`, the rest untouched |
| Mesh.EdgesOfTables | EasyGmsh/RectMesh.py:56-71 | the line facts on the numpy tables carry over to their values (`XEdges`, `YEdges`), and so does the bound that every tag names a line added after the first `before` ones (`FreshLines`) |
| Mesh.LineTagsOfTables | EasyGmsh/RectMesh.py:56-71 | line tags are distinct within `linex`, within `liney`, and between the two |
| Topology.RowWiseTagsDistinct | EasyGmsh/RectMesh.py:43-47 | tags handed out consecutively in `for iy: for ix:` order are pairwise distinct |
| Topology.ColumnWiseTagsDistinct | EasyGmsh/RectMesh.py:67-71 | tags handed out consecutively in `for ix: for iy:` order are pairwise distinct |
| Mesh.RectMesh.GenerateSurfaces | EasyGmsh/RectMesh.py:78-93 | the loops added are exactly the cells' signed loops in visit order. Each plane surface is bounded by the one loop made for it. `curves[ix, iy]` and `surfaces[ix, iy]` hold the tags of the cell's loop and surface |
| Mesh.RectMesh.AddCells | EasyGmsh/RectMesh.py:82-91 | the double loop: loops and surfaces for all cells row by row; tags at step `RowStart(nx, iy) + ix` |
| Mesh.RectMesh.AddNextRow | EasyGmsh/RectMesh.py:82-91 | one pass of the outer loop extends the loops and surfaces from `iy` rows to `iy + 1` rows |
| Mesh.RectMesh.AddCellRow | EasyGmsh/RectMesh.py:83-91 | the inner loop: row `iy`'s cells, each with its signed loop and its own surface |
| Mesh.RectMesh.AddCell | EasyGmsh/RectMesh.py:84-91 | one cell: its signed loop is appended as the next curve loop, a surface bounded by that loop alone as the next plane surface, and both tags go into the cell's slot of `curves` and `surfaces`; other slots untouched |
| Mesh.RectMesh.LoopOf | EasyGmsh/RectMesh.py:84-89 | the value-level `CellLoop` of the tables, read off the arrays as `[+liney[ix+1, iy], -linex[ix, iy+1], -liney[ix, iy], +linex[ix, iy]]` |
| Topology.CellLoop | EasyGmsh/RectMesh.py:84-89 | a cell's loop lists four signed line references (that they close is `Topology.CellLoopClosed`) |
| Topology.CellLoopClosed | EasyGmsh/RectMesh.py:84-89 | `[+liney[ix+1,iy], -linex[ix,iy+1], -liney[ix,iy], +linex[ix,iy]]` is closed, each edge ending where the next starts. Its corners are bottom-right, top-right, top-left, bottom-left, so the loop runs counter-clockwise |
| Topology.FourSidedLoop | EasyGmsh/RectMesh.py:84-89 | four signed lines, each ending where the next begins and the last where the first begins, form a closed loop through their start points |
| Topology.CellLoopsClosed | EasyGmsh/RectMesh.py:82-91 | every loop in the cell sequence is closed |
| Materials.ConsecutiveTagsDistinct | EasyGmsh/RectMesh.py:90-91 | the surface tags of the cells are distinct, so no two cells share a surface |
| Grid.CellOrderEnumerates | EasyGmsh/RectMesh.py:113-114 | the `for iy: for ix:` order visits every cell of the grid exactly once |
| Grid.CellOrderRows | EasyGmsh/RectMesh.py:113-114 | cell `(ix, iy)` is visited at step `RowStart(nx, iy) + ix`, and each row's steps lie within the visit |
| Grid.CellOrder | EasyGmsh/RectMesh.py:82-83 | the `for iy: for ix:` visit has `nx*ny` steps, each a cell of the grid |
| Mesh.RectMesh.GeneratePhysicalGroups | EasyGmsh/RectMesh.py:96-124 | RuntimeError ("Materials not found.") and nothing changed without materials. Otherwise `n_matrial` becomes the number of matrix rows, and the names default to `str(i)` per row. The outcome is `Grouped`: it passes exactly when every cell resolves, and then the groups are the reference classification and are registered in order; otherwise it fails with IndexError, registers nothing, and the groups are those of the cells before the first unresolvable one |
| Mesh.RectMesh.AssignAndRegister | EasyGmsh/RectMesh.py:105-124 | from the empty named groups: the outcome is `Grouped`, with the same pass/fail outcome, groups and registrations |
| Mesh.RectMesh.AssignAll | EasyGmsh/RectMesh.py:113-119 | the double loop: when it completes, the groups are the assigner's state after every cell; otherwise `stop` names the cell whose lookup raises, with the groups as they were before it |
| Mesh.RectMesh.AssignRow | EasyGmsh/RectMesh.py:114-119 | the inner loop over one row, with the same completion or stop statement |
| Mesh.RectMesh.AssignCell | EasyGmsh/RectMesh.py:115-119 | one cell: its surface is appended to the group its material selects, or the groups are unchanged and that step raises |
| Materials.MatrixRow | EasyGmsh/RectMesh.py:115 | the matrix row of cell row `iy` is the vertical flip `ny - 1 - iy`; `Materials.CellGroup` states which group that row's entry selects, and when it raises |
| Materials.CellGroup | EasyGmsh/RectMesh.py:115 | the group index is defined exactly when the matrix entry exists and `id - 1` subscripts the groups, counting negatives from the end; it is then below the group count |
| Materials.ZeroIdPicksLastGroup | EasyGmsh/RectMesh.py:115 | material id 0 selects the last group instead of raising |
| Materials.DefaultNamesReadBack | EasyGmsh/RectMesh.py:102-103 | the `i`-th default name is `str(i)`: it reads back as `i`, and the names are pairwise distinct |
| Materials.DefaultNames | EasyGmsh/RectMesh.py:103 | one default name per matrix row |
| Materials.EmptyGroups | EasyGmsh/RectMesh.py:105-111 | one group per name, in order, with that name and no entities |
| Materials.Classify | EasyGmsh/RectMesh.py:113-119 | the reference assignment keeps the number of groups and their names |
| Materials.AssignedClassifies | EasyGmsh/RectMesh.py:113-119 | the first `k` steps of the assigner succeed exactly when those cells all resolve, and then they leave the reference classification of those cells |
| Materials.AssignedStop | EasyGmsh/RectMesh.py:113-119 | when step `k` is the first to raise, the groups are those of the first `k` cells and the matrix does not resolve |
| Materials.Assigned | EasyGmsh/RectMesh.py:113-119 | the step-by-step assigner, when it has not raised, keeps the number of groups |
| Materials.ClassifyIsFilter | EasyGmsh/RectMesh.py:113-119 | group `g` receives, in visit order, exactly the surfaces of the cells whose material selects `g` |
| Materials.MembersIff | EasyGmsh/RectMesh.py:113-119 | a surface is among group `g`'s members if and only if some visited cell with that surface selects `g` |
| Materials.ClassifyTotal | EasyGmsh/RectMesh.py:113-119 | classifying adds one entity per visited cell |
| Materials.TotalAfterAppend | EasyGmsh/RectMesh.py:119 | one `append` adds exactly one entity in total |
| Materials.Append | EasyGmsh/RectMesh.py:119 | `append` keeps the number of groups |
| Materials.AppendTouchesOneGroup | EasyGmsh/RectMesh.py:119 | `append` changes group `g` alone: its name stays and `e` goes at the end of its entities; every other group is unchanged |
| Materials.Partition | EasyGmsh/RectMesh.py:113-119 | from the empty named groups: every visited cell's surface is in the group of its material; every entity comes from such a cell; no surface is in two groups; `nx*ny` entities in all |
| Materials.PartitionCovers | EasyGmsh/RectMesh.py:113-119 | every visited cell's surface is in the group its material selects |
| Materials.PartitionSound | EasyGmsh/RectMesh.py:113-119 | every entity of a group is the surface of a visited cell selecting that group |
| Materials.PartitionDisjoint | EasyGmsh/RectMesh.py:113-119 | with distinct surface tags, no surface is in two groups |
| Materials.PartitionTotal | EasyGmsh/RectMesh.py:113-119 | the groups hold one entity per visited cell |
| Materials.PassedGroups | EasyGmsh/RectMesh.py:113-119 | the groups of a passing run hold `|cells|` entities, none in two groups |
| Materials.Registrations | EasyGmsh/RectMesh.py:121-124 | group `g` is registered as a 2-D physical group with tag `g + 1`, its entities and its name |
| Mesh.RectMesh.Register | EasyGmsh/RectMesh.py:121-124 | appends the registrations of all groups to the session, in order |
| Gmsh.Geo.AddPoint | EasyGmsh/RectMesh.py:47 | appends the point and returns its 1-based tag |
| Gmsh.Geo.AddLine | EasyGmsh/RectMesh.py:61 | appends the line and returns its 1-based tag |
| Gmsh.Geo.AddCurveLoop | EasyGmsh/RectMesh.py:90 | appends the signed loop and returns its 1-based tag |
| Gmsh.Geo.AddPlaneSurface | EasyGmsh/RectMesh.py:91 | appends the surface and returns its 1-based tag |
| Gmsh.Geo.AddPhysicalGroup | EasyGmsh/RectMesh.py:124 | appends the physical group record |
| Gmsh.Traversed | EasyGmsh/RectMesh.py:84-89 | a positive reference is the line itself; a negative one is the line with its ends swapped. `Topology.CellLoopClosed` uses it to show that every cell loop closes |
| Py.Index | EasyGmsh/RectMesh.py:119 | a Python subscript of a length-`n` list: defined exactly for `-n <= i < n`, with negative indices counted from the end |
| Selection.Interval | EasyGmsh/RectMesh.py:185-188 | `range(lo, hi)`: the consecutive integers from `lo`, as many as `hi - lo`; `Selection.KeepRangeAtLeast`, `KeepRangeAtMost` and `KeepRangeEqualTo` show that it is what the filters leave of the full axis |
| Selection.Range | EasyGmsh/RectMesh.py:185-188 | `range(n)` holds `0, 1, ..., n-1` in order: `max(n, 0)` entries, entry `k` equal to `k`, and `v` present exactly when `0 <= v < n` |
| Selection.Everything | EasyGmsh/RectMesh.py:185-188 | the default selection has two axes, each strictly increasing; axis x holds exactly `0 .. nx-1` and axis y exactly `0 .. ny-1` |
| Selection.Keep | EasyGmsh/RectMesh.py:191 | the filtered list holds exactly the elements of the axis that pass the comparison, and is no longer; `Selection.KeepAppend` with `Selection.KeepOne` fixes their order as the axis order |
| Selection.KeepAppend | EasyGmsh/RectMesh.py:191 | filtering `a + b` keeps the passing elements of `a`, then those of `b`, so the filter keeps every passing element in input order, sorted axis or not |
| Selection.KeepCons | EasyGmsh/RectMesh.py:191 | the filter's first step: the head of the axis comes first in the result exactly when it passes |
| Selection.KeepOne | EasyGmsh/RectMesh.py:191 | a one-element axis keeps its element exactly when it passes |
| Selection.KeepUnsorted | EasyGmsh/RectMesh.py:191 | on the unsorted axis `[3, 1, 2]`, `>= 2` keeps `[3, 2]` in that order |
| Selection.KeepCounts | EasyGmsh/RectMesh.py:191 | filtering keeps every passing element's multiplicity and drops the rest |
| Selection.KeepSorted | EasyGmsh/RectMesh.py:191 | filtering a strictly increasing list leaves it strictly increasing |
| Selection.KeepIs | EasyGmsh/RectMesh.py:191 | on a strictly increasing list the filter is the ascending list of the passing elements |
| Selection.KeepRangeAtLeast | EasyGmsh/RectMesh.py:184-191 | `greater` on the full axis keeps `max(bound, 0) .. n-1`; a bound past the end gives the empty list |
| Selection.KeepRangeAtMost | EasyGmsh/RectMesh.py:210-217 | `less` on the full axis keeps `0 .. min(bound, n-1)`; a negative bound gives the empty list |
| Selection.KeepRangeEqualTo | EasyGmsh/RectMesh.py:236-243 | `equal` on the full axis keeps `[bound]` when it is a valid index, the empty list otherwise |
| Selection.Narrowed | EasyGmsh/RectMesh.py:191 | IndexError exactly when `dim` does not subscript the selection; otherwise only axis `dim` is replaced by its filter, and the others are unchanged |
| Mesh.RectMesh.Narrow | EasyGmsh/RectMesh.py:183-192 | starts from the full ranges when no selection is given. Otherwise it narrows the caller's array in place and returns it, and leaves it unchanged on IndexError |
| Mesh.RectMesh.Greater | EasyGmsh/RectMesh.py:169-192 | `Narrow` with `>= bound` |
| Mesh.RectMesh.Less | EasyGmsh/RectMesh.py:195-218 | `Narrow` with `<= bound` |
| Mesh.RectMesh.Equal | EasyGmsh/RectMesh.py:221-244 | `Narrow` with `== bound` |
| Selection.AddSorted | EasyGmsh/RectMesh.py:251 | inserting into a strictly increasing list keeps it strictly increasing and adds exactly the new element |
| Selection.Unique | EasyGmsh/RectMesh.py:251 | `np.sort(np.unique(s))` is strictly increasing with the elements of `s` |
| Selection.Union | EasyGmsh/RectMesh.py:251 | strictly increasing, holding exactly the elements of either list |
| Selection.SortedSetUnique | EasyGmsh/RectMesh.py:251 | two strictly increasing lists with the same elements are equal, so the union is determined by its elements |
| Selection.UnionLaws | EasyGmsh/RectMesh.py:251 | the union is commutative, and a sorted duplicate-free list is its own union with itself and with the empty list |
| Selection.JoinAxes | EasyGmsh/RectMesh.py:248-253 | as many axes as the shorter list, each strictly increasing and holding exactly the elements of both |
| Selection.JoinPartition | EasyGmsh/RectMesh.py:248-253 | `join(greater(d, b), less(d, b - 1))` on a full axis gives back the full axis |
| Mesh.RectMesh.Join | EasyGmsh/RectMesh.py:247-253 | the loop builds a fresh array equal to `JoinAxes` of its arguments |
| Selection.Stretch | EasyGmsh/RectMesh.py:264 | a length-1 index array is repeated to length `n`; a length-`n` array is kept. What broadcasting means for `resolve` is stated by `Selection.Pairs` and `Selection.Resolved` |
| Selection.Pairs | EasyGmsh/RectMesh.py:264 | broadcasting succeeds exactly when the lengths agree or one is 1. The pairs then take position `k` of each list, a length-1 list giving its only element |
| Selection.Resolved | EasyGmsh/RectMesh.py:264 | the lookup succeeds exactly when the lists broadcast and every pair addresses the table; it then yields the pairs' entries in order, and otherwise IndexError |
| Selection.ResolveColumn | EasyGmsh/RectMesh.py:264 | pinning x to a column and listing rows walks that column |
| Selection.ResolveRow | EasyGmsh/RectMesh.py:264 | pinning y to a row and listing columns walks that row |
| Selection.ResolveIsNotAProduct | EasyGmsh/RectMesh.py:264 | `[[0, 1], [0, 1]]` selects the diagonal `t[0][0], t[1][1]`, not four entries |
| Mesh.RectMesh.Resolve | EasyGmsh/RectMesh.py:256-264 | `surfaces[coord[0], coord[1]]`: entry `k` is the surface at the `k`-th broadcast pair; IndexError when the selection has fewer than two axes, when the lists do not broadcast, or when a pair is out of range |
| Export.GroupEntries | EasyGmsh/RectMesh.py:139-140 | the `[entity, group_id]` pairs of one group, in order; over all groups, `Export.FlattenMembers` states that a pair is written exactly when its entity is in its group |
| Export.Flatten | EasyGmsh/RectMesh.py:137-140 | one pair per entity over all groups |
| Export.FlattenMembers | EasyGmsh/RectMesh.py:137-140 | a pair is flattened exactly when its entity belongs to its group |
| Export.Insert | EasyGmsh/RectMesh.py:142 | one insertion step adds exactly the element to the multiset |
| Export.InsertSorted | EasyGmsh/RectMesh.py:142 | inserting into a list sorted by surface keeps it sorted |
| Export.SortByEntity | EasyGmsh/RectMesh.py:142 | `sorted(key=x[0])` is a permutation, sorted by surface |
| Export.InsertStable | EasyGmsh/RectMesh.py:142 | insertion does not reorder the pairs that share a surface |
| Export.SortStable | EasyGmsh/RectMesh.py:142 | the sort is stable: the pairs with a given surface keep their relative order |
| Export.SortByEntityIsStable | EasyGmsh/RectMesh.py:142 | the modelled `sorted` is a stable sort of its input (`StableSortOf`) |
| Py.LJust | EasyGmsh/RectMesh.py:146 | `ljust(width)`: the string, then spaces up to the width |
| Export.FormatLine | EasyGmsh/RectMesh.py:146 | `f"{entity:<5d} {group + 1:d}\n"`: the tag in a column of five (or its own width when wider), padded with spaces and followed by one more, then the 1-based group number and a newline |
| Export.FormatLineShape | EasyGmsh/RectMesh.py:146 | a written line is the tag, at least one space, the group number and a newline |
| Py.StrRoundTrip | EasyGmsh/RectMesh.py:146 | `str(i)` reads back as `i`, for every integer |
| Py.Str | EasyGmsh/RectMesh.py:146 | `str(i)` is non-empty and contains no space |
| Export.ParseFormatLine | EasyGmsh/RectMesh.py:146 | each written line reads back as the surface and `group + 1` |
| Export.AssemblyLines | EasyGmsh/RectMesh.py:137-146 | the lines are `FormatLine` of a stable sort by surface of the flattened `(entity, group)` pairs (`StableSortOf`: a permutation, ascending, pairs of one surface kept in group order), so each pair is written once per occurrence. One line per entity; each line reads back and is exactly the `<5d` layout of what it reads as; ascending surface order; a line reads `(e, g + 1)` exactly when surface `e` is in group `g` |
| Export.AssemblyLinesRead | EasyGmsh/RectMesh.py:137-146 | the formatted lines of any sorted permutation of the flattened pairs: one per entity, line `i` reads back as pair `i`, has the `<5d` layout, in ascending order, and a line reads `(e, g + 1)` exactly when `e` is in group `g` |
| Export.LinesLayout | EasyGmsh/RectMesh.py:146 | a formatted line is the `<5d` layout of the pair it reads back as |

## Left out

- The gmsh kernel is not part of this model. `addPoint`, `addLine`, `addCurveLoop`,
  `addPlaneSurface` and `addPhysicalGroup` are modelled as a record-keeping tag
  allocator (`Gmsh.Geo`) that hands out `count + 1`. Meshing, synchronisation and
  geometry checks are not modelled.
- Coordinates and `mesh_size` are floats. They are carried into the point records as
  `real` values, with no numeric reasoning about them.
- `export_assembly_materials`: the default path, `os.getcwd()`/`pathlib` resolution and
  the file writing are I/O. Only the list of lines it writes is modelled.
- The debug `print` calls in `generate_physical_groups` (lines 117-118) are output only.
- The `isinstance` list-to-array conversion (lines 37-39) and the numpy coercion in the
  `materials`/`material_names` setters (lines 149-166) are representation details. The
  matrix is a `seq<seq<int>>`, and the names are a `seq<string>`.
- The `__main__` script (lines 271-356) is a usage example, not part of the builder.
- Mesh.RectMesh.constructor: requires both coordinate lists to be non-empty. An empty
  list gives `nx = -1`, and numpy then rejects the negative table shape.
- Mesh.RectMesh.Generate: its steps are assumed to run in their order through `generate`,
  each generator requiring the tables the one before it builds. Called out of order,
  `generate_nodes`, `generate_lines` and `generate_surfaces` raise AttributeError in Python.
- Mesh.RectMesh.GeneratePhysicalGroups: requires the `surfaces` table, so calls before
  `generate_surfaces` are not modelled. Python would not always raise AttributeError on
  them: without materials it raises RuntimeError first, a matrix too small for the grid
  raises IndexError before `surfaces` is read, and a grid with no cells raises nothing.
- Mesh.RectMesh.Narrow: `selected` is modelled as an `array?<seq<int>>`, so the element
  types other than integer index arrays that Python would accept are not modelled.
- Mesh.RectMesh.Resolve: only numpy fancy indexing with two 1-D index arrays is modelled.
  Scalar, slice and higher-dimensional index arrays are not. It requires the `surfaces`
  table that `generate_surfaces` makes; called earlier, Python raises AttributeError.
- Materials.CellGroup: the material matrix may be ragged. numpy would reject a ragged
  matrix when it is built, which this model does not.
