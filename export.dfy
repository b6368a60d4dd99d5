/** The assembly-material table: every (surface, group) pair of the physical
    groups, sorted by surface tag, one line `f"{surface:<5d} {group + 1:d}\n"`
    each. Only the lines are modelled; where they are written is not. */
module Export {
  import opened Py
  import opened Grid
  import opened Materials

  /** One `[entity, group_id]` pair, `group_id` being 0-based. */
  datatype Entry = Entry(entity: int, group: nat)

  function GroupEntries(entities: seq<int>, g: nat): (r: seq<Entry>)
    ensures |r| == |entities|
    ensures forall k :: 0 <= k < |r| ==> r[k] == Entry(entities[k], g)
  {
    seq(|entities|, k requires 0 <= k < |entities| => Entry(entities[k], g))
  }

  /** `for group_id, group in enumerate(groups): for entity in group["entities"]: append([entity, group_id])`. */
  function Flatten(groups: seq<Group>): (r: seq<Entry>)
    ensures |r| == TotalEntities(groups)
  {
    if groups == [] then []
    else Flatten(groups[..|groups| - 1]) + GroupEntries(groups[|groups| - 1].entities, |groups| - 1)
  }

  /** A pair is flattened exactly when its entity belongs to its group. */
  lemma {:induction false} FlattenMembers(groups: seq<Group>)
    ensures forall e, g: nat :: Entry(e, g) in Flatten(groups) <==> g < |groups| && e in groups[g].entities
  {
    if groups != [] {
      var init, g0 := groups[..|groups| - 1], |groups| - 1;
      FlattenMembers(init);
      var tail := GroupEntries(groups[g0].entities, g0);
      forall e, g: nat
        ensures Entry(e, g) in Flatten(groups) <==> g < |groups| && e in groups[g].entities
      {
        if Entry(e, g) in tail {
          var k :| 0 <= k < |tail| && tail[k] == Entry(e, g);
          assert groups[g0].entities[k] == e;
        }
        if g == g0 && e in groups[g].entities {
          var k :| 0 <= k < |groups[g0].entities| && groups[g0].entities[k] == e;
          assert tail[k] == Entry(e, g);
        }
        if g < g0 {
          assert groups[g] == init[g];
        }
      }
    }
  }

  predicate SortedByEntity(s: seq<Entry>)
  {
    forall i, j :: 0 <= i < j < |s| ==> s[i].entity <= s[j].entity
  }

  /** Insert `x` before the first entry whose entity is not smaller. */
  function Insert(x: Entry, s: seq<Entry>): (r: seq<Entry>)
    ensures multiset(r) == multiset(s) + multiset{x}
  {
    if s == [] || x.entity <= s[0].entity then [x] + s
    else
      assert s == [s[0]] + s[1..];
      [s[0]] + Insert(x, s[1..])
  }

  lemma {:induction false} InsertSorted(x: Entry, s: seq<Entry>)
    requires SortedByEntity(s)
    ensures SortedByEntity(Insert(x, s))
  {
    if s != [] && x.entity > s[0].entity {
      InsertSorted(x, s[1..]);
      var rest := Insert(x, s[1..]);
      forall i, j | 0 <= i < j < |[s[0]] + rest|
        ensures ([s[0]] + rest)[i].entity <= ([s[0]] + rest)[j].entity
      {
        if i == 0 {
          var y := rest[j - 1];
          assert y in multiset(rest);
          if y != x {
            assert y in multiset(s[1..]);
            var k :| 0 <= k < |s[1..]| && s[1..][k] == y;
            assert s[k + 1] == y;
          }
        }
      }
    }
  }

  /** `sorted(pairs, key=lambda p: p[0])`: a stable sort on the entity. */
  function SortByEntity(s: seq<Entry>): (r: seq<Entry>)
    ensures multiset(r) == multiset(s)
    ensures SortedByEntity(r)
  {
    if s == [] then []
    else
      assert s == [s[0]] + s[1..];
      InsertSorted(s[0], SortByEntity(s[1..]));
      Insert(s[0], SortByEntity(s[1..]))
  }

  /** The entries for one entity, in their order. */
  function WithEntity(s: seq<Entry>, e: int): seq<Entry>
  {
    if s == [] then []
    else (if s[0].entity == e then [s[0]] else []) + WithEntity(s[1..], e)
  }

  lemma WithEntityCons(y: Entry, t: seq<Entry>, e: int)
    ensures WithEntity([y] + t, e) == (if y.entity == e then [y] else []) + WithEntity(t, e)
  {
    assert ([y] + t)[1..] == t;
  }

  lemma {:induction false} InsertStable(x: Entry, s: seq<Entry>, e: int)
    ensures WithEntity(Insert(x, s), e) == (if x.entity == e then [x] else []) + WithEntity(s, e)
  {
    if s == [] || x.entity <= s[0].entity {
      WithEntityCons(x, s, e);
    } else {
      var rest := Insert(x, s[1..]);
      InsertStable(x, s[1..], e);
      WithEntityCons(s[0], rest, e);
      WithEntityCons(s[0], s[1..], e);
      assert [s[0]] + s[1..] == s;
    }
  }

  /** The sort is stable: entries with the same entity keep their relative order. */
  lemma {:induction false} SortStable(s: seq<Entry>, e: int)
    ensures WithEntity(SortByEntity(s), e) == WithEntity(s, e)
  {
    if s != [] {
      SortStable(s[1..], e);
      InsertStable(s[0], SortByEntity(s[1..]), e);
    }
  }

  /** `sorted` is `s` stably sorted by entity: a permutation of `s`, ascending by entity,
      and the entries of each entity in the order `s` has them. */
  ghost predicate StableSortOf(sorted: seq<Entry>, s: seq<Entry>)
  {
    && multiset(sorted) == multiset(s) && SortedByEntity(sorted)
    && forall e :: WithEntity(sorted, e) == WithEntity(s, e)
  }

  /** `sorted(key=x[0])` as modelled is a stable sort. */
  lemma SortByEntityIsStable(s: seq<Entry>)
    ensures StableSortOf(SortByEntity(s), s)
  {
    forall e
      ensures WithEntity(SortByEntity(s), e) == WithEntity(s, e)
    {
      SortStable(s, e);
    }
  }

  /** `f"{entity:<5d} {group + 1:d}\n"`: the surface tag left-justified in a column of
      five (wider when the tag is), a space, the 1-based group number, a newline. */
  function FormatLine(x: Entry): (line: string)
    ensures var id, mat := Str(x.entity), Str(x.group + 1);
      var c := if |id| < 5 then 5 else |id|;
      && |line| == c + 1 + |mat| + 1
      && line[..|id|] == id
      && (forall k :: |id| <= k <= c ==> line[k] == ' ')
      && line[c + 1..] == mat + "\n"
  {
    LJust(Str(x.entity), 5) + " " + Str(x.group + 1) + "\n"
  }

  /** Position of the first space, or the length when there is none. */
  function FirstSpace(s: string): (i: nat)
    ensures i <= |s|
    ensures forall k :: 0 <= k < i ==> s[k] != ' '
    ensures i < |s| ==> s[i] == ' '
  {
    if s == [] || s[0] == ' ' then 0 else 1 + FirstSpace(s[1..])
  }

  function SkipSpaces(s: string): string
  {
    if s != [] && s[0] == ' ' then SkipSpaces(s[1..]) else s
  }

  /** Reads a table line back: the first field up to a space, then after the
      spaces the second field up to the newline. */
  function ParseLine(line: string): Option<(int, int)>
  {
    if |line| == 0 || line[|line| - 1] != '\n' then None
    else
      var body := line[..|line| - 1];
      var i := FirstSpace(body);
      match (ParseInt(body[..i]), ParseInt(SkipSpaces(body[i..])))
      case (Some(a), Some(b)) => Some((a, b))
      case _ => None
  }

  lemma {:induction false} SkipLeadingSpaces(n: nat, t: string)
    requires t != [] && t[0] != ' '
    ensures SkipSpaces(seq(n, _ => ' ') + t) == t
  {
    if n > 0 {
      assert (seq(n, _ => ' ') + t)[1..] == seq(n - 1, _ => ' ') + t;
      SkipLeadingSpaces(n - 1, t);
    }
  }

  /** Two space-free fields separated by at least one space and ended by a newline
      read back as the two fields. */
  lemma ParseSpaced(a: string, n: nat, b: string)
    requires n >= 1 && forall k :: 0 <= k < |a| ==> a[k] != ' '
    requires b != [] && b[0] != ' '
    ensures ParseLine(a + seq(n, _ => ' ') + b + "\n") ==
      match (ParseInt(a), ParseInt(b))
      case (Some(x), Some(y)) => Some((x, y))
      case _ => None
  {
    var line := a + seq(n, _ => ' ') + b + "\n";
    var body := line[..|line| - 1];
    assert body == a + (seq(n, _ => ' ') + b);
    assert body[|a|] == ' ';
    assert FirstSpace(body) == |a|;
    assert body[..|a|] == a;
    assert body[|a|..] == seq(n, _ => ' ') + b;
    SkipLeadingSpaces(n, b);
  }

  /** A table line is the tag, at least one space, the material id and a newline. */
  lemma FormatLineShape(x: Entry, id: string, mat: string) returns (n: nat)
    requires id == Str(x.entity) && mat == Str(x.group + 1)
    ensures n >= 1 && FormatLine(x) == id + seq(n, _ => ' ') + mat + "\n"
  {
    var c := if |id| < 5 then 5 else |id|;
    var line := FormatLine(x);
    n := c + 1 - |id|;
    assert line[|id|..c + 1] == seq(n, _ => ' ');
    assert line == line[..|id|] + line[|id|..c + 1] + line[c + 1..];
  }

  /** A table line reads back as the surface tag and the 1-based material id. */
  lemma ParseFormatLine(x: Entry)
    ensures ParseLine(FormatLine(x)) == Some((x.entity, x.group + 1))
  {
    var id, mat := Str(x.entity), Str(x.group + 1);
    var n := FormatLineShape(x, id, mat);
    StrRoundTrip(x.entity);
    StrRoundTrip(x.group + 1);
    ParseSpaced(id, n, mat);
  }

  /** `lines` are the table lines of the pairs `sorted`, one each, in order. */
  predicate FormattedLines(sorted: seq<Entry>, lines: seq<string>)
  {
    |lines| == |sorted| && forall i :: 0 <= i < |sorted| ==> lines[i] == FormatLine(sorted[i])
  }

  /** The lines `export_assembly_materials` writes for the given groups: one per
      (surface, group) pair, ascending by surface tag, each reading back as the
      surface and its 1-based group number. */
  function AssemblyLines(groups: seq<Group>): (lines: seq<string>)
    ensures |lines| == TotalEntities(groups)
    ensures exists sorted :: StableSortOf(sorted, Flatten(groups)) && FormattedLines(sorted, lines)
    ensures forall i :: 0 <= i < |lines| ==> ParseLine(lines[i]).Some?
    ensures forall i :: 0 <= i < |lines| ==>
      var p := ParseLine(lines[i]).value;
      lines[i] == LJust(Str(p.0), 5) + " " + Str(p.1) + "\n"
    ensures forall i, j :: 0 <= i < j < |lines| ==> ParseLine(lines[i]).value.0 <= ParseLine(lines[j]).value.0
    ensures forall e, g: nat :: g < |groups| && e in groups[g].entities <==>
      exists i :: 0 <= i < |lines| && ParseLine(lines[i]) == Some((e, g + 1))
  {
    var sorted := SortByEntity(Flatten(groups));
    var lines := seq(|sorted|, i requires 0 <= i < |sorted| => FormatLine(sorted[i]));
    assert FormattedLines(sorted, lines);
    SortByEntityIsStable(Flatten(groups));
    AssemblyLinesRead(groups, sorted, lines);
    lines
  }

  /** The formatted lines of a sorted permutation of the flattened pairs: one per pair,
      each reading back as its pair, in ascending surface order. */
  lemma AssemblyLinesRead(groups: seq<Group>, sorted: seq<Entry>, lines: seq<string>)
    requires multiset(sorted) == multiset(Flatten(groups)) && SortedByEntity(sorted)
    requires FormattedLines(sorted, lines)
    ensures |lines| == TotalEntities(groups)
    ensures forall i :: 0 <= i < |lines| ==> ParseLine(lines[i]) == Some((sorted[i].entity, sorted[i].group + 1))
    ensures forall i :: 0 <= i < |lines| ==>
      var p := ParseLine(lines[i]).value;
      lines[i] == LJust(Str(p.0), 5) + " " + Str(p.1) + "\n"
    ensures forall i, j :: 0 <= i < j < |lines| ==> ParseLine(lines[i]).value.0 <= ParseLine(lines[j]).value.0
    ensures forall e, g: nat :: g < |groups| && e in groups[g].entities <==>
      exists i :: 0 <= i < |lines| && ParseLine(lines[i]) == Some((e, g + 1))
  {
    assert |multiset(sorted)| == |multiset(Flatten(groups))|;
    LinesReadBack(sorted, lines);
    LinesLayout(sorted, lines);
    LinesOrdered(sorted, lines);
    SortedHolds(groups, sorted);
    LinesCoverGroups(groups, sorted, lines);
  }

  lemma LinesLayout(sorted: seq<Entry>, lines: seq<string>)
    requires |lines| == |sorted| && forall i :: 0 <= i < |sorted| ==> lines[i] == FormatLine(sorted[i])
    requires forall i :: 0 <= i < |lines| ==> ParseLine(lines[i]) == Some((sorted[i].entity, sorted[i].group + 1))
    ensures forall i :: 0 <= i < |lines| ==>
      var p := ParseLine(lines[i]).value;
      lines[i] == LJust(Str(p.0), 5) + " " + Str(p.1) + "\n"
  {
    forall i | 0 <= i < |lines|
      ensures var p := ParseLine(lines[i]).value; lines[i] == LJust(Str(p.0), 5) + " " + Str(p.1) + "\n"
    {
      assert lines[i] == FormatLine(sorted[i]);
    }
  }

  lemma LinesOrdered(sorted: seq<Entry>, lines: seq<string>)
    requires SortedByEntity(sorted) && |lines| == |sorted|
    requires forall i :: 0 <= i < |lines| ==> ParseLine(lines[i]) == Some((sorted[i].entity, sorted[i].group + 1))
    ensures forall i, j :: 0 <= i < j < |lines| ==> ParseLine(lines[i]).value.0 <= ParseLine(lines[j]).value.0
  {
  }

  lemma LinesCoverGroups(groups: seq<Group>, sorted: seq<Entry>, lines: seq<string>)
    requires forall x :: x in sorted <==> x.group < |groups| && x.entity in groups[x.group].entities
    requires |lines| == |sorted|
    requires forall i :: 0 <= i < |lines| ==> ParseLine(lines[i]) == Some((sorted[i].entity, sorted[i].group + 1))
    ensures forall e, g: nat :: g < |groups| && e in groups[g].entities <==>
      exists i :: 0 <= i < |lines| && ParseLine(lines[i]) == Some((e, g + 1))
  {
    forall e, g: nat
      ensures g < |groups| && e in groups[g].entities <==>
        exists i :: 0 <= i < |lines| && ParseLine(lines[i]) == Some((e, g + 1))
    {
      LineForEntry(groups, sorted, lines, e, g);
    }
  }

  lemma SortedHolds(groups: seq<Group>, sorted: seq<Entry>)
    requires multiset(sorted) == multiset(Flatten(groups))
    ensures forall x :: x in sorted <==> x.group < |groups| && x.entity in groups[x.group].entities
  {
    forall x
      ensures x in sorted <==> x.group < |groups| && x.entity in groups[x.group].entities
    {
      FlattenHas(groups, sorted, x);
    }
  }

  lemma LineForEntry(groups: seq<Group>, sorted: seq<Entry>, lines: seq<string>, e: int, g: nat)
    requires Entry(e, g) in sorted <==> g < |groups| && e in groups[g].entities
    requires |lines| == |sorted|
    requires forall i :: 0 <= i < |lines| ==> ParseLine(lines[i]) == Some((sorted[i].entity, sorted[i].group + 1))
    ensures g < |groups| && e in groups[g].entities <==>
      exists i :: 0 <= i < |lines| && ParseLine(lines[i]) == Some((e, g + 1))
  {
    if Entry(e, g) in sorted {
      var i :| 0 <= i < |sorted| && sorted[i] == Entry(e, g);
      assert ParseLine(lines[i]) == Some((e, g + 1));
    }
    if exists i :: 0 <= i < |lines| && ParseLine(lines[i]) == Some((e, g + 1)) {
      var i :| 0 <= i < |lines| && ParseLine(lines[i]) == Some((e, g + 1));
      assert sorted[i] == Entry(e, g);
    }
  }

  lemma LinesReadBack(sorted: seq<Entry>, lines: seq<string>)
    requires |lines| == |sorted| && forall i :: 0 <= i < |sorted| ==> lines[i] == FormatLine(sorted[i])
    ensures forall i :: 0 <= i < |lines| ==> ParseLine(lines[i]) == Some((sorted[i].entity, sorted[i].group + 1))
  {
    forall i | 0 <= i < |lines|
      ensures ParseLine(lines[i]) == Some((sorted[i].entity, sorted[i].group + 1))
    {
      ParseFormatLine(sorted[i]);
    }
  }

  lemma FlattenHas(groups: seq<Group>, sorted: seq<Entry>, x: Entry)
    requires multiset(sorted) == multiset(Flatten(groups))
    ensures x.group < |groups| && x.entity in groups[x.group].entities <==> x in sorted
  {
    FlattenMembers(groups);
    assert x in multiset(sorted) <==> x in multiset(Flatten(groups));
  }
}
