/** The material assigner: each cell's surface goes to the physical group
    named by the material matrix, whose rows are written top row first while
    cell rows are counted bottom row first. */
module Materials {
  import opened Py
  import opened Grid
  import opened Gmsh

  /** One entry of `physical_groups`: a material name and the surface tags assigned to it. */
  datatype Group = Group(materialName: string, entities: seq<int>)

  /** The matrix row that describes cell row `iy`: the vertical flip `ny - 1 - iy`. */
  function MatrixRow(ny: nat, iy: nat): (row: nat)
    requires iy < ny
    ensures row < ny
    ensures row + iy == ny - 1
  {
    ny - 1 - iy
  }

  /** Group index of cell `c`: the 1-based material id `m[ny - 1 - iy][ix]`, made
      0-based and used as a Python list subscript into `groupCount` groups.
      None when numpy or the list subscript raises IndexError. */
  function CellGroup(m: seq<seq<int>>, groupCount: nat, ny: nat, c: Cell): (r: Option<nat>)
    requires c.iy < ny
    ensures r.Some? ==> r.value < groupCount
    ensures r.Some? <==>
      var row := MatrixRow(ny, c.iy);
      row < |m| && c.ix < |m[row]| && -(groupCount as int) <= m[row][c.ix] - 1 < groupCount
    ensures
      var row := MatrixRow(ny, c.iy);
      row < |m| && c.ix < |m[row]| && 1 <= m[row][c.ix] <= groupCount ==> r == Some(m[row][c.ix] - 1)
  {
    var row := MatrixRow(ny, c.iy);
    if row < |m| && c.ix < |m[row]| then Index(m[row][c.ix] - 1, groupCount) else None
  }

  /** Material id 0 does not raise: as a Python subscript, -1 picks the last group. */
  lemma ZeroIdPicksLastGroup(m: seq<seq<int>>, groupCount: nat, ny: nat, c: Cell)
    requires c.iy < ny && groupCount > 0
    requires MatrixRow(ny, c.iy) < |m| && c.ix < |m[MatrixRow(ny, c.iy)]|
    requires m[MatrixRow(ny, c.iy)][c.ix] == 0
    ensures CellGroup(m, groupCount, ny, c) == Some(groupCount - 1)
  {
  }

  /** Every visited cell lies in the table of surface tags `s`, indexed `s[ix][iy]`. */
  predicate InTable(s: seq<seq<int>>, cells: seq<Cell>)
  {
    forall c :: c in cells ==> c.ix < |s| && c.iy < |s[c.ix]|
  }

  /** No visited cell makes the assigner raise IndexError. */
  predicate Resolvable(m: seq<seq<int>>, groupCount: nat, ny: nat, cells: seq<Cell>)
  {
    forall c :: c in cells ==> c.iy < ny && CellGroup(m, groupCount, ny, c).Some?
  }

  function SurfaceAt(s: seq<seq<int>>, c: Cell): int
    requires c.ix < |s| && c.iy < |s[c.ix]|
  {
    s[c.ix][c.iy]
  }

  /** `[str(i) for i in range(n)]`: the names used when none are given. */
  function DefaultNames(n: nat): (r: seq<string>)
    ensures |r| == n
  {
    seq(n, i => Str(i))
  }

  /** Default name `i` reads back as `i`, so the default names are pairwise distinct. */
  lemma DefaultNamesReadBack(n: nat)
    ensures forall i :: 0 <= i < n ==> ParseInt(DefaultNames(n)[i]) == Some(i)
    ensures forall i, j :: 0 <= i < j < n ==> DefaultNames(n)[i] != DefaultNames(n)[j]
  {
    forall i | 0 <= i < n
      ensures ParseInt(DefaultNames(n)[i]) == Some(i)
    {
      StrRoundTrip(i);
    }
  }

  /** One group per name, in order, each with no entities yet. */
  function EmptyGroups(names: seq<string>): (r: seq<Group>)
    ensures |r| == |names|
    ensures forall g :: 0 <= g < |r| ==> r[g].materialName == names[g] && r[g].entities == []
  {
    seq(|names|, g requires 0 <= g < |names| => Group(names[g], []))
  }

  /** `groups[g]["entities"].append(e)`. */
  function Append(groups: seq<Group>, g: nat, e: int): (r: seq<Group>)
    requires g < |groups|
    ensures |r| == |groups|
  {
    groups[g := Group(groups[g].materialName, groups[g].entities + [e])]
  }

  /** Appending touches group `g` alone: its name stays, `e` goes at the end of its
      entities, and every other group is as it was. */
  lemma AppendTouchesOneGroup(groups: seq<Group>, g: nat, e: int)
    requires g < |groups|
    ensures Append(groups, g, e)[g].materialName == groups[g].materialName
    ensures Append(groups, g, e)[g].entities == groups[g].entities + [e]
    ensures forall h :: 0 <= h < |groups| && h != g ==> Append(groups, g, e)[h] == groups[h]
  {
  }

  /** The groups after the assigner has visited `cells` in order, starting from `groups`. */
  function Classify(groups: seq<Group>, cells: seq<Cell>, s: seq<seq<int>>, m: seq<seq<int>>, ny: nat): (r: seq<Group>)
    requires Resolvable(m, |groups|, ny, cells) && InTable(s, cells)
    ensures |r| == |groups|
    ensures forall g :: 0 <= g < |r| ==> r[g].materialName == groups[g].materialName
    decreases |cells|
  {
    if cells == [] then groups
    else
      var c := cells[|cells| - 1];
      var prev := Classify(groups, cells[..|cells| - 1], s, m, ny);
      Append(prev, CellGroup(m, |groups|, ny, c).value, SurfaceAt(s, c))
  }

  /** Visiting one more cell whose material resolves appends its surface to its group. */
  lemma ClassifyStep(groups: seq<Group>, cells: seq<Cell>, k: nat, s: seq<seq<int>>, m: seq<seq<int>>, ny: nat)
    requires k < |cells| && InTable(s, cells)
    requires Resolvable(m, |groups|, ny, cells[..k])
    requires cells[k].iy < ny && CellGroup(m, |groups|, ny, cells[k]).Some?
    ensures Resolvable(m, |groups|, ny, cells[..k + 1]) && InTable(s, cells[..k + 1]) && InTable(s, cells[..k])
    ensures Classify(groups, cells[..k + 1], s, m, ny)
      == Append(Classify(groups, cells[..k], s, m, ny), CellGroup(m, |groups|, ny, cells[k]).value, SurfaceAt(s, cells[k]))
  {
    assert cells[..k + 1] == cells[..k] + [cells[k]];
    assert cells[..k + 1][..k] == cells[..k];
  }

  lemma InTablePrefix(s: seq<seq<int>>, cells: seq<Cell>, k: nat)
    requires InTable(s, cells) && k <= |cells|
    ensures InTable(s, cells[..k])
  {
    assert forall c :: c in cells[..k] ==> c in cells;
  }

  /** The assigner stopped at visited cell `k`: every cell before it resolved, and
      `groups` holds their classification, while cell `k`'s material does not. */
  predicate StoppedAt(groups0: seq<Group>, cells: seq<Cell>, s: seq<seq<int>>, m: seq<seq<int>>, ny: nat, k: int, groups: seq<Group>)
  {
    && 0 <= k < |cells| && InTable(s, cells[..k])
    && Resolvable(m, |groups0|, ny, cells[..k])
    && !(cells[k].iy < ny && CellGroup(m, |groups0|, ny, cells[k]).Some?)
    && groups == Classify(groups0, cells[..k], s, m, ny)
  }

  /** The assigner's first `k` steps over `cells`, one cell at a time: the groups they
      leave, or None when one of them raises IndexError. */
  function Assigned(groups0: seq<Group>, cells: seq<Cell>, k: nat, s: seq<seq<int>>, m: seq<seq<int>>, ny: nat): (r: Option<seq<Group>>)
    requires k <= |cells| && InTable(s, cells)
    ensures r.Some? ==> |r.value| == |groups0|
  {
    if k == 0 then Some(groups0)
    else
      var c := cells[k - 1];
      assert c in cells;
      match Assigned(groups0, cells, k - 1, s, m, ny)
      case None => None
      case Some(groups) =>
        if c.iy < ny && CellGroup(m, |groups0|, ny, c).Some? then
          Some(Append(groups, CellGroup(m, |groups0|, ny, c).value, SurfaceAt(s, c)))
        else None
  }

  /** One more step of the assigner: cell `k` joins its group, or the step raises. */
  lemma AssignedNext(groups0: seq<Group>, cells: seq<Cell>, k: nat, s: seq<seq<int>>, m: seq<seq<int>>, ny: nat)
    requires k < |cells| && InTable(s, cells)
    requires Assigned(groups0, cells, k, s, m, ny).Some?
    ensures cells[k] in cells
    ensures Assigned(groups0, cells, k + 1, s, m, ny) ==
      if cells[k].iy < ny && CellGroup(m, |groups0|, ny, cells[k]).Some? then
        Some(Append(Assigned(groups0, cells, k, s, m, ny).value, CellGroup(m, |groups0|, ny, cells[k]).value, SurfaceAt(s, cells[k])))
      else None
  {
  }

  /** The step-by-step assigner agrees with the reference: its first `k` steps succeed
      exactly when those cells all resolve, and then they leave the classification of
      those cells. */
  lemma {:induction false} AssignedClassifies(groups0: seq<Group>, cells: seq<Cell>, k: nat, s: seq<seq<int>>, m: seq<seq<int>>, ny: nat)
    requires k <= |cells| && InTable(s, cells)
    ensures InTable(s, cells[..k])
    ensures Assigned(groups0, cells, k, s, m, ny).Some? <==> Resolvable(m, |groups0|, ny, cells[..k])
    ensures Assigned(groups0, cells, k, s, m, ny).Some? ==>
      Assigned(groups0, cells, k, s, m, ny).value == Classify(groups0, cells[..k], s, m, ny)
  {
    InTablePrefix(s, cells, k);
    if k > 0 {
      AssignedClassifies(groups0, cells, k - 1, s, m, ny);
      ResolvableStep(m, |groups0|, ny, cells, k - 1);
      if Resolvable(m, |groups0|, ny, cells[..k]) {
        ClassifyStep(groups0, cells, k - 1, s, m, ny);
      }
    }
  }

  /** The first `k + 1` cells resolve exactly when the first `k` do and cell `k` does. */
  lemma ResolvableStep(m: seq<seq<int>>, groupCount: nat, ny: nat, cells: seq<Cell>, k: nat)
    requires k < |cells|
    ensures Resolvable(m, groupCount, ny, cells[..k + 1]) <==>
      Resolvable(m, groupCount, ny, cells[..k]) && cells[k].iy < ny && CellGroup(m, groupCount, ny, cells[k]).Some?
  {
    assert cells[..k + 1] == cells[..k] + [cells[k]];
  }

  /** Where the step-by-step assigner raises, it has stopped in the sense above, and
      not every cell resolves. */
  lemma AssignedStop(groups0: seq<Group>, cells: seq<Cell>, k: nat, s: seq<seq<int>>, m: seq<seq<int>>, ny: nat)
    requires k < |cells| && InTable(s, cells)
    requires Assigned(groups0, cells, k, s, m, ny).Some? && Assigned(groups0, cells, k + 1, s, m, ny).None?
    ensures StoppedAt(groups0, cells, s, m, ny, k, Assigned(groups0, cells, k, s, m, ny).value)
    ensures !Resolvable(m, |groups0|, ny, cells)
  {
    AssignedClassifies(groups0, cells, k, s, m, ny);
    assert cells[k] in cells;
    StoppedAtBlocks(groups0, cells, s, m, ny, k, Assigned(groups0, cells, k, s, m, ny).value);
  }

  /** A stop means not every visited cell resolves. */
  lemma StoppedAtBlocks(groups0: seq<Group>, cells: seq<Cell>, s: seq<seq<int>>, m: seq<seq<int>>, ny: nat, k: int, groups: seq<Group>)
    requires StoppedAt(groups0, cells, s, m, ny, k, groups)
    ensures !Resolvable(m, |groups0|, ny, cells)
  {
    assert cells[k] in cells;
  }

  /** Reference definition: the surfaces of the visited cells whose material is group `g`, in visiting order. */
  function Members(cells: seq<Cell>, s: seq<seq<int>>, m: seq<seq<int>>, groupCount: nat, ny: nat, g: nat): seq<int>
    requires Resolvable(m, groupCount, ny, cells) && InTable(s, cells)
    decreases |cells|
  {
    if cells == [] then []
    else
      var c := cells[|cells| - 1];
      Members(cells[..|cells| - 1], s, m, groupCount, ny, g)
        + (if CellGroup(m, groupCount, ny, c) == Some(g) then [SurfaceAt(s, c)] else [])
  }

  /** Classification appends to each group exactly the surfaces of its cells, in visiting order. */
  lemma {:induction false} ClassifyIsFilter(groups: seq<Group>, cells: seq<Cell>, s: seq<seq<int>>, m: seq<seq<int>>, ny: nat)
    requires Resolvable(m, |groups|, ny, cells) && InTable(s, cells)
    ensures forall g :: 0 <= g < |groups| ==>
      Classify(groups, cells, s, m, ny)[g].entities == groups[g].entities + Members(cells, s, m, |groups|, ny, g)
  {
    if cells != [] {
      ClassifyIsFilter(groups, cells[..|cells| - 1], s, m, ny);
    }
  }

  /** Every visited cell of material `g` contributes its surface to `Members(..., g)`. */
  lemma {:induction false} MembersComplete(cells: seq<Cell>, s: seq<seq<int>>, m: seq<seq<int>>, groupCount: nat, ny: nat, g: nat, k: nat)
    requires Resolvable(m, groupCount, ny, cells) && InTable(s, cells)
    requires k < |cells| && CellGroup(m, groupCount, ny, cells[k]) == Some(g)
    ensures SurfaceAt(s, cells[k]) in Members(cells, s, m, groupCount, ny, g)
    decreases |cells|
  {
    var init := cells[..|cells| - 1];
    if k < |init| {
      assert cells[k] == init[k];
      MembersComplete(init, s, m, groupCount, ny, g, k);
    }
  }

  /** Every member of group `g` is the surface of some visited cell of material `g`. */
  lemma {:induction false} MembersSound(cells: seq<Cell>, s: seq<seq<int>>, m: seq<seq<int>>, groupCount: nat, ny: nat, g: nat, e: int)
    requires Resolvable(m, groupCount, ny, cells) && InTable(s, cells)
    requires e in Members(cells, s, m, groupCount, ny, g)
    ensures exists k :: 0 <= k < |cells| && SurfaceAt(s, cells[k]) == e && CellGroup(m, groupCount, ny, cells[k]) == Some(g)
    decreases |cells|
  {
    var init := cells[..|cells| - 1];
    if e in Members(init, s, m, groupCount, ny, g) {
      MembersSound(init, s, m, groupCount, ny, g, e);
      var k :| 0 <= k < |init| && SurfaceAt(s, init[k]) == e && CellGroup(m, groupCount, ny, init[k]) == Some(g);
      assert cells[k] == init[k];
    } else {
      var n := |cells| - 1;
      assert SurfaceAt(s, cells[n]) == e && CellGroup(m, groupCount, ny, cells[n]) == Some(g);
    }
  }

  /** A surface is a member of group `g` exactly when some visited cell with that surface has material `g`. */
  lemma MembersIff(cells: seq<Cell>, s: seq<seq<int>>, m: seq<seq<int>>, groupCount: nat, ny: nat, g: nat, e: int)
    requires Resolvable(m, groupCount, ny, cells) && InTable(s, cells)
    ensures e in Members(cells, s, m, groupCount, ny, g) <==>
      exists k :: 0 <= k < |cells| && SurfaceAt(s, cells[k]) == e && CellGroup(m, groupCount, ny, cells[k]) == Some(g)
  {
    if e in Members(cells, s, m, groupCount, ny, g) {
      MembersSound(cells, s, m, groupCount, ny, g, e);
    }
    if exists k :: 0 <= k < |cells| && SurfaceAt(s, cells[k]) == e && CellGroup(m, groupCount, ny, cells[k]) == Some(g) {
      var k :| 0 <= k < |cells| && SurfaceAt(s, cells[k]) == e && CellGroup(m, groupCount, ny, cells[k]) == Some(g);
      MembersComplete(cells, s, m, groupCount, ny, g, k);
    }
  }

  /** Total number of entities over all groups. */
  function TotalEntities(groups: seq<Group>): nat
  {
    if groups == [] then 0 else TotalEntities(groups[..|groups| - 1]) + |groups[|groups| - 1].entities|
  }

  /** Appending one entity to one group adds one to the total. */
  lemma {:induction false} TotalAfterAppend(groups: seq<Group>, g: nat, e: int)
    requires g < |groups|
    ensures TotalEntities(Append(groups, g, e)) == TotalEntities(groups) + 1
  {
    var r := Append(groups, g, e);
    if g < |groups| - 1 {
      assert r[..|r| - 1] == Append(groups[..|groups| - 1], g, e);
      TotalAfterAppend(groups[..|groups| - 1], g, e);
    } else {
      assert r[..|r| - 1] == groups[..|groups| - 1];
    }
  }

  /** Every visited cell is assigned exactly once: the totals grow by the number of cells. */
  lemma {:induction false} ClassifyTotal(groups: seq<Group>, cells: seq<Cell>, s: seq<seq<int>>, m: seq<seq<int>>, ny: nat)
    requires Resolvable(m, |groups|, ny, cells) && InTable(s, cells)
    ensures TotalEntities(Classify(groups, cells, s, m, ny)) == TotalEntities(groups) + |cells|
  {
    if cells != [] {
      var c := cells[|cells| - 1];
      ClassifyTotal(groups, cells[..|cells| - 1], s, m, ny);
      TotalAfterAppend(Classify(groups, cells[..|cells| - 1], s, m, ny), CellGroup(m, |groups|, ny, c).value, SurfaceAt(s, c));
    }
  }

  /** Distinct visited cells carry distinct surface tags. */
  predicate DistinctSurfaces(s: seq<seq<int>>, cells: seq<Cell>)
    requires InTable(s, cells)
  {
    forall i, j :: 0 <= i < |cells| && 0 <= j < |cells| && SurfaceAt(s, cells[i]) == SurfaceAt(s, cells[j]) ==> cells[i] == cells[j]
  }

  /** Surfaces tagged consecutively in visiting order, as the builder tags them,
      are distinct. */
  lemma ConsecutiveTagsDistinct(s: seq<seq<int>>, nx: nat, ny: nat, base: int)
    requires |s| == nx && forall ix :: 0 <= ix < nx ==> |s[ix]| == ny
    requires forall ix, iy :: 0 <= ix < nx && 0 <= iy < ny ==> s[ix][iy] == base + RowStart(nx, iy) + ix + 1
    ensures InTable(s, CellOrder(nx, ny)) && DistinctSurfaces(s, CellOrder(nx, ny))
  {
    var cells := CellOrder(nx, ny);
    forall i, j | 0 <= i < |cells| && 0 <= j < |cells| && SurfaceAt(s, cells[i]) == SurfaceAt(s, cells[j])
      ensures cells[i] == cells[j]
    {
      assert cells[i] in cells && cells[j] in cells;
      RowStartIs(nx, cells[i].iy);
      RowStartIs(nx, cells[j].iy);
      RowMajorInjective(nx, cells[i].ix, cells[i].iy, cells[j].ix, cells[j].iy);
    }
  }

  /** Starting from empty groups, group `g` ends up holding exactly `Members(..., g)`. */
  lemma ClassifyEmpty(names: seq<string>, cells: seq<Cell>, s: seq<seq<int>>, m: seq<seq<int>>, ny: nat)
    requires Resolvable(m, |names|, ny, cells) && InTable(s, cells)
    ensures var r := Classify(EmptyGroups(names), cells, s, m, ny);
      forall g :: 0 <= g < |r| ==> r[g].entities == Members(cells, s, m, |names|, ny, g)
  {
    ClassifyIsFilter(EmptyGroups(names), cells, s, m, ny);
  }

  /** Starting from empty groups, every visited cell's surface lands in the group of its
      material, no surface lands in two groups, and the groups hold one entity per cell. */
  lemma Partition(names: seq<string>, cells: seq<Cell>, s: seq<seq<int>>, m: seq<seq<int>>, ny: nat)
    requires Resolvable(m, |names|, ny, cells) && InTable(s, cells)
    requires DistinctSurfaces(s, cells)
    ensures var r := Classify(EmptyGroups(names), cells, s, m, ny);
      && (forall k :: 0 <= k < |cells| ==>
            SurfaceAt(s, cells[k]) in r[CellGroup(m, |names|, ny, cells[k]).value].entities)
      && (forall g, e :: 0 <= g < |r| && e in r[g].entities ==>
            exists k :: 0 <= k < |cells| && SurfaceAt(s, cells[k]) == e && CellGroup(m, |names|, ny, cells[k]) == Some(g))
      && (forall g1, g2, e :: 0 <= g1 < |r| && 0 <= g2 < |r| && e in r[g1].entities && e in r[g2].entities ==> g1 == g2)
      && TotalEntities(r) == |cells|
  {
    PartitionCovers(names, cells, s, m, ny);
    PartitionSound(names, cells, s, m, ny);
    PartitionDisjoint(names, cells, s, m, ny);
    PartitionTotal(names, cells, s, m, ny);
  }

  lemma PartitionCovers(names: seq<string>, cells: seq<Cell>, s: seq<seq<int>>, m: seq<seq<int>>, ny: nat)
    requires Resolvable(m, |names|, ny, cells) && InTable(s, cells)
    ensures var r := Classify(EmptyGroups(names), cells, s, m, ny);
      forall k :: 0 <= k < |cells| ==> SurfaceAt(s, cells[k]) in r[CellGroup(m, |names|, ny, cells[k]).value].entities
  {
    ClassifyEmpty(names, cells, s, m, ny);
    forall k | 0 <= k < |cells|
      ensures SurfaceAt(s, cells[k]) in Members(cells, s, m, |names|, ny, CellGroup(m, |names|, ny, cells[k]).value)
    {
      assert cells[k] in cells;
      MembersComplete(cells, s, m, |names|, ny, CellGroup(m, |names|, ny, cells[k]).value, k);
    }
  }

  lemma PartitionSound(names: seq<string>, cells: seq<Cell>, s: seq<seq<int>>, m: seq<seq<int>>, ny: nat)
    requires Resolvable(m, |names|, ny, cells) && InTable(s, cells)
    ensures var r := Classify(EmptyGroups(names), cells, s, m, ny);
      forall g, e :: 0 <= g < |r| && e in r[g].entities ==>
        exists k :: 0 <= k < |cells| && SurfaceAt(s, cells[k]) == e && CellGroup(m, |names|, ny, cells[k]) == Some(g)
  {
    ClassifyEmpty(names, cells, s, m, ny);
    forall g, e | 0 <= g < |names| && e in Members(cells, s, m, |names|, ny, g)
      ensures exists k :: 0 <= k < |cells| && SurfaceAt(s, cells[k]) == e && CellGroup(m, |names|, ny, cells[k]) == Some(g)
    {
      MembersSound(cells, s, m, |names|, ny, g, e);
    }
  }

  lemma PartitionDisjoint(names: seq<string>, cells: seq<Cell>, s: seq<seq<int>>, m: seq<seq<int>>, ny: nat)
    requires Resolvable(m, |names|, ny, cells) && InTable(s, cells)
    requires DistinctSurfaces(s, cells)
    ensures var r := Classify(EmptyGroups(names), cells, s, m, ny);
      forall g1, g2, e :: 0 <= g1 < |r| && 0 <= g2 < |r| && e in r[g1].entities && e in r[g2].entities ==> g1 == g2
  {
    ClassifyEmpty(names, cells, s, m, ny);
    forall g1, g2, e | 0 <= g1 < |names| && 0 <= g2 < |names|
      && e in Members(cells, s, m, |names|, ny, g1) && e in Members(cells, s, m, |names|, ny, g2)
      ensures g1 == g2
    {
      MembersSound(cells, s, m, |names|, ny, g1, e);
      MembersSound(cells, s, m, |names|, ny, g2, e);
      var k1 :| 0 <= k1 < |cells| && SurfaceAt(s, cells[k1]) == e && CellGroup(m, |names|, ny, cells[k1]) == Some(g1);
      var k2 :| 0 <= k2 < |cells| && SurfaceAt(s, cells[k2]) == e && CellGroup(m, |names|, ny, cells[k2]) == Some(g2);
      assert cells[k1] == cells[k2];
    }
  }

  lemma PartitionTotal(names: seq<string>, cells: seq<Cell>, s: seq<seq<int>>, m: seq<seq<int>>, ny: nat)
    requires Resolvable(m, |names|, ny, cells) && InTable(s, cells)
    ensures TotalEntities(Classify(EmptyGroups(names), cells, s, m, ny)) == |cells|
  {
    ClassifyTotal(EmptyGroups(names), cells, s, m, ny);
    EmptyTotal(EmptyGroups(names));
  }

  /** What a successful assignment leaves: one entity per visited cell, and no
      surface in two groups. */
  lemma PassedGroups(names: seq<string>, cells: seq<Cell>, s: seq<seq<int>>, m: seq<seq<int>>, ny: nat, groups: seq<Group>)
    requires Resolvable(m, |names|, ny, cells) && InTable(s, cells)
    requires DistinctSurfaces(s, cells)
    requires groups == Classify(EmptyGroups(names), cells, s, m, ny)
    ensures TotalEntities(groups) == |cells|
    ensures forall g1, g2, e :: 0 <= g1 < |groups| && 0 <= g2 < |groups| && e in groups[g1].entities && e in groups[g2].entities ==> g1 == g2
  {
    PartitionDisjoint(names, cells, s, m, ny);
    PartitionTotal(names, cells, s, m, ny);
  }

  lemma {:induction false} EmptyTotal(groups: seq<Group>)
    requires forall g :: 0 <= g < |groups| ==> groups[g].entities == []
    ensures TotalEntities(groups) == 0
  {
    if groups != [] {
      EmptyTotal(groups[..|groups| - 1]);
    }
  }

  /** The `addPhysicalGroup(2, entities, group_id + 1, name=material_name)` calls, one per
      group in order: group `g` is registered as a surface group under tag `g + 1`. */
  function Registrations(groups: seq<Group>): (r: seq<PhysicalGroup>)
    ensures |r| == |groups|
    ensures forall g :: 0 <= g < |r| ==>
      r[g].dim == 2 && r[g].tag == g + 1 && r[g].tags == groups[g].entities && r[g].name == groups[g].materialName
  {
    seq(|groups|, g requires 0 <= g < |groups| => PhysicalGroup(2, groups[g].entities, g + 1, groups[g].materialName))
  }
}
