/** The selection algebra on axis index lists: a selection is a list of
    per-axis index arrays `[selected_x, selected_y]`; the filters narrow one
    axis, `join` merges two selections axis by axis, and `resolve` turns a
    selection into surface tags by numpy fancy indexing (positional pairing
    with broadcasting, not a cartesian product). */
module Selection {
  import opened Py

  predicate StrictlyIncreasing(s: seq<int>)
  {
    forall i, j :: 0 <= i < j < |s| ==> s[i] < s[j]
  }

  /** `np.array(range(lo, hi))`. */
  function Interval(lo: int, hi: int): (r: seq<int>)
    ensures |r| == if lo <= hi then hi - lo else 0
    ensures forall k :: 0 <= k < |r| ==> r[k] == lo + k
  {
    if lo < hi then seq(hi - lo, k => lo + k) else []
  }

  /** `np.array(range(n))`: the indices of all cells along an axis of `n` cells. */
  function Range(n: int): (r: seq<int>)
    ensures |r| == if n < 0 then 0 else n
    ensures forall k :: 0 <= k < |r| ==> r[k] == k
    ensures forall v :: v in r <==> 0 <= v < n
  {
    var s := Interval(0, n);
    assert forall v :: 0 <= v < n ==> v in s by {
      forall v | 0 <= v < n
        ensures v in s
      {
        assert s[v] == v;
      }
    }
    s
  }

  /** The comparisons of `greater` (`>=`), `less` (`<=`) and `equal` (`==`). */
  datatype Comparison = AtLeast | AtMost | EqualTo

  predicate Holds(c: Comparison, v: int, bound: int)
  {
    match c
    case AtLeast => v >= bound
    case AtMost => v <= bound
    case EqualTo => v == bound
  }

  /** `a[np.where(a <cmp> bound)]`: the elements that pass, with their multiplicities and in their order. */
  function Keep(s: seq<int>, c: Comparison, bound: int): (r: seq<int>)
    ensures forall v :: v in r <==> v in s && Holds(c, v, bound)
    ensures |r| <= |s|
  {
    if s == [] then []
    else
      assert forall v :: v in s <==> v == s[0] || v in s[1..];
      (if Holds(c, s[0], bound) then [s[0]] else []) + Keep(s[1..], c, bound)
  }

  /** Filtering keeps the multiplicity of every element that passes and drops the others. */
  lemma {:induction false} KeepCounts(s: seq<int>, c: Comparison, bound: int)
    ensures forall v :: multiset(Keep(s, c, bound))[v] == if Holds(c, v, bound) then multiset(s)[v] else 0
  {
    if s != [] {
      KeepCounts(s[1..], c, bound);
      assert s == [s[0]] + s[1..];
    }
  }

  /** Filtering distributes over concatenation: the passing elements of `a + b` are those
      of `a` followed by those of `b`. With `KeepOne`, this pins `Keep` down as the filter
      that keeps each passing element where it stands, on any axis, sorted or not. */
  lemma {:induction false} KeepAppend(a: seq<int>, b: seq<int>, c: Comparison, bound: int)
    ensures Keep(a + b, c, bound) == Keep(a, c, bound) + Keep(b, c, bound)
  {
    if a == [] {
      assert a + b == b;
    } else {
      var t := a[1..];
      var head := if Holds(c, a[0], bound) then [a[0]] else [];
      calc {
        Keep(a + b, c, bound);
        { assert a + b == [a[0]] + (t + b); KeepCons(a[0], t + b, c, bound); }
        head + Keep(t + b, c, bound);
        { KeepAppend(t, b, c, bound); }
        head + (Keep(t, c, bound) + Keep(b, c, bound));
        { AppendAssoc(head, Keep(t, c, bound), Keep(b, c, bound)); }
        (head + Keep(t, c, bound)) + Keep(b, c, bound);
        { assert a == [a[0]] + t; KeepCons(a[0], t, c, bound); }
        Keep(a, c, bound) + Keep(b, c, bound);
      }
    }
  }

  /** The first step of the filter: the head is kept exactly when it passes. */
  lemma KeepCons(v: int, t: seq<int>, c: Comparison, bound: int)
    ensures Keep([v] + t, c, bound) == (if Holds(c, v, bound) then [v] else []) + Keep(t, c, bound)
  {
    assert ([v] + t)[1..] == t;
  }

  /** A single element is kept exactly when it passes. */
  lemma KeepOne(v: int, c: Comparison, bound: int)
    ensures Keep([v], c, bound) == if Holds(c, v, bound) then [v] else []
  {
  }

  /** An unsorted axis keeps its order: `a = [3, 1, 2]` gives `a[a >= 2] == [3, 2]`. */
  lemma KeepUnsorted()
    ensures Keep([3, 1, 2], AtLeast, 2) == [3, 2]
  {
    KeepAppend([3], [1, 2], AtLeast, 2);
    KeepAppend([1], [2], AtLeast, 2);
  }

  /** Filtering a strictly increasing axis leaves it strictly increasing. */
  lemma {:induction false} KeepSorted(s: seq<int>, c: Comparison, bound: int)
    requires StrictlyIncreasing(s)
    ensures StrictlyIncreasing(Keep(s, c, bound))
  {
    if s != [] {
      KeepSorted(s[1..], c, bound);
      var rest := Keep(s[1..], c, bound);
      var r := Keep(s, c, bound);
      if Holds(c, s[0], bound) {
        assert r == [s[0]] + rest;
        forall i, j | 0 <= i < j < |r|
          ensures r[i] < r[j]
        {
          assert r[j] == rest[j - 1] && rest[j - 1] in rest;
          var k :| 0 <= k < |s[1..]| && s[1..][k] == rest[j - 1];
          assert s[k + 1] == r[j];
          if i > 0 {
            assert r[i] == rest[i - 1];
          }
        }
      } else {
        assert r == rest;
      }
    }
  }

  lemma HeadIsMember(s: seq<int>)
    ensures s != [] ==> s[0] in s
  {
  }

  /** Two strictly increasing lists with the same elements are equal. */
  lemma {:induction false} SortedSetUnique(a: seq<int>, b: seq<int>)
    requires StrictlyIncreasing(a) && StrictlyIncreasing(b)
    requires forall v :: v in a <==> v in b
    ensures a == b
  {
    HeadIsMember(a);
    HeadIsMember(b);
    if a != [] && b != [] {
      assert a[0] == b[0] by {
        assert a[0] in a && b[0] in b;
      }
      forall v
        ensures v in a[1..] <==> v in b[1..]
      {
        if v in a[1..] {
          assert v in b && v != b[0];
        }
        if v in b[1..] {
          assert v in a && v != a[0];
        }
      }
      SortedSetUnique(a[1..], b[1..]);
      assert a == [a[0]] + a[1..];
      assert b == [b[0]] + b[1..];
    }
  }

  lemma RangeIncreasing(lo: int, hi: int)
    ensures StrictlyIncreasing(Interval(lo, hi))
  {
  }

  /** On a list without duplicates in ascending order, filtering gives the ascending list of the elements that pass. */
  lemma KeepIs(s: seq<int>, c: Comparison, bound: int, e: seq<int>)
    requires StrictlyIncreasing(s) && StrictlyIncreasing(e)
    requires forall v :: v in e <==> v in s && Holds(c, v, bound)
    ensures Keep(s, c, bound) == e
  {
    KeepSorted(s, c, bound);
    SortedSetUnique(Keep(s, c, bound), e);
  }

  /** `greater(d, bound)` from the full range of `n` indices keeps `max(bound, 0) .. n-1`;
      a bound at or past `n` leaves it empty, not an error. */
  lemma KeepRangeAtLeast(n: int, bound: int)
    ensures Keep(Range(n), AtLeast, bound) == Interval(if bound < 0 then 0 else bound, n)
  {
    var lo := if bound < 0 then 0 else bound;
    forall v
      ensures v in Interval(lo, n) <==> v in Range(n) && Holds(AtLeast, v, bound)
    {
      if lo <= v < n {
        assert Range(n)[v] == v;
        assert Interval(lo, n)[v - lo] == v;
      }
    }
    KeepIs(Range(n), AtLeast, bound, Interval(lo, n));
  }

  /** `less(d, bound)` from the full range of `n` indices keeps `0 .. min(bound, n-1)`;
      a negative bound leaves it empty, not an error. */
  lemma KeepRangeAtMost(n: int, bound: int)
    ensures Keep(Range(n), AtMost, bound) == Interval(0, if bound + 1 < n then bound + 1 else n)
  {
    var hi := if bound + 1 < n then bound + 1 else n;
    forall v
      ensures v in Interval(0, hi) <==> v in Range(n) && Holds(AtMost, v, bound)
    {
      if 0 <= v < hi {
        assert Range(n)[v] == v;
        assert Interval(0, hi)[v] == v;
      }
    }
    KeepIs(Range(n), AtMost, bound, Interval(0, hi));
  }

  /** `equal(d, bound)` from the full range of `n` indices keeps just `bound`, or nothing
      when `bound` is not an index of the axis. */
  lemma KeepRangeEqualTo(n: int, bound: int)
    ensures Keep(Range(n), EqualTo, bound) == if 0 <= bound < n then [bound] else []
  {
    var e := if 0 <= bound < n then [bound] else [];
    forall v
      ensures v in e <==> v in Range(n) && Holds(EqualTo, v, bound)
    {
      if 0 <= v < n {
        assert Range(n)[v] == v;
      }
    }
    KeepIs(Range(n), EqualTo, bound, e);
  }

  lemma PrependSorted(x: int, s: seq<int>)
    requires StrictlyIncreasing(s)
    requires forall w :: w in s ==> x < w
    ensures StrictlyIncreasing([x] + s)
  {
    var r := [x] + s;
    forall i, j | 0 <= i < j < |r|
      ensures r[i] < r[j]
    {
      assert r[j] == s[j - 1] && s[j - 1] in s;
      if i > 0 {
        assert r[i] == s[i - 1];
      }
    }
  }

  /** Insert `v` into a strictly increasing list unless it is there already. */
  function AddSorted(v: int, t: seq<int>): (r: seq<int>)
    requires StrictlyIncreasing(t)
    ensures StrictlyIncreasing(r)
    ensures forall w :: w in r <==> w == v || w in t
  {
    if t == [] then [v]
    else if v < t[0] then [v] + t
    else if v == t[0] then t
    else
      assert forall w :: w in t <==> w == t[0] || w in t[1..];
      PrependSorted(t[0], AddSorted(v, t[1..]));
      [t[0]] + AddSorted(v, t[1..])
  }

  /** `np.sort(np.unique(s))`: the distinct elements of `s`, ascending. */
  function Unique(s: seq<int>): (r: seq<int>)
    ensures StrictlyIncreasing(r)
    ensures forall v :: v in r <==> v in s
  {
    if s == [] then []
    else
      assert forall v :: v in s <==> v == s[0] || v in s[1..];
      AddSorted(s[0], Unique(s[1..]))
  }

  /** `np.sort(np.unique(np.concatenate([a, b])))`: the union of two axis lists. */
  function Union(a: seq<int>, b: seq<int>): (r: seq<int>)
    ensures StrictlyIncreasing(r)
    ensures forall v :: v in r <==> v in a || v in b
  {
    Unique(a + b)
  }

  /** The union does not depend on the order of its arguments, and a list already sorted without duplicates is its own union with itself. */
  lemma UnionLaws(a: seq<int>, b: seq<int>)
    ensures Union(a, b) == Union(b, a)
    ensures StrictlyIncreasing(a) ==> Union(a, a) == a && Union(a, []) == a
  {
    SortedSetUnique(Union(a, b), Union(b, a));
    if StrictlyIncreasing(a) {
      SortedSetUnique(Union(a, a), a);
      SortedSetUnique(Union(a, []), a);
    }
  }

  /** `join(greater(d, b), less(d, b - 1))` gives back every index of the axis. */
  lemma JoinPartition(n: int, bound: int)
    ensures Union(Keep(Range(n), AtLeast, bound), Keep(Range(n), AtMost, bound - 1)) == Range(n)
  {
    RangeIncreasing(0, n);
    SortedSetUnique(Union(Keep(Range(n), AtLeast, bound), Keep(Range(n), AtMost, bound - 1)), Range(n));
  }

  /** `join(a, b)`: `zip` stops at the shorter list; each axis becomes the union. */
  function JoinAxes(a: seq<seq<int>>, b: seq<seq<int>>): (c: seq<seq<int>>)
    ensures |c| == if |a| < |b| then |a| else |b|
    ensures forall i :: 0 <= i < |c| ==> StrictlyIncreasing(c[i])
    ensures forall i, v :: 0 <= i < |c| ==> (v in c[i] <==> v in a[i] || v in b[i])
  {
    seq(if |a| < |b| then |a| else |b|, i requires 0 <= i < |a| && i < |b| => Union(a[i], b[i]))
  }

  /** The starting selection when none is given: every cell index of both axes. */
  function Everything(nx: int, ny: int): (r: seq<seq<int>>)
    ensures |r| == 2 && StrictlyIncreasing(r[0]) && StrictlyIncreasing(r[1])
    ensures forall v :: (v in r[0] <==> 0 <= v < nx) && (v in r[1] <==> 0 <= v < ny)
  {
    [Range(nx), Range(ny)]
  }

  /** `selected[dim] = selected[dim][np.where(selected[dim] <cmp> bound)]` on the list value:
      only axis `dim` changes; a `dim` that is not a valid subscript raises IndexError. */
  function Narrowed(axes: seq<seq<int>>, c: Comparison, dim: int, bound: int): (r: Result<seq<seq<int>>>)
    ensures r.Ok? <==> Index(dim, |axes|).Some?
    ensures r.Err? ==> r.error == IndexError
    ensures r.Ok? ==>
      var d := Index(dim, |axes|).value;
      && |r.value| == |axes|
      && r.value[d] == Keep(axes[d], c, bound)
      && (forall i :: 0 <= i < |axes| && i != d ==> r.value[i] == axes[i])
  {
    match Index(dim, |axes|)
    case None => Err(IndexError)
    case Some(d) => Ok(axes[d := Keep(axes[d], c, bound)])
  }

  /** An index array stretched to length `n`, as numpy broadcasting does: a length-1 array is repeated. */
  function Stretch(xs: seq<int>, n: nat): (r: seq<int>)
    requires |xs| == 1 || |xs| == n
    ensures |r| == n
    ensures forall k :: 0 <= k < n ==> r[k] == if |xs| == 1 then xs[0] else xs[k]
  {
    if |xs| == 1 then seq(n, _ => xs[0]) else xs
  }

  /** numpy broadcasting of two 1-D index arrays: a length-1 array is repeated to the
      other's length, otherwise the lengths must agree and the arrays are zipped
      position by position; any other pair of lengths does not broadcast. */
  function Pairs(xs: seq<int>, ys: seq<int>): (r: Option<seq<(int, int)>>)
    ensures r.Some? <==> |xs| == |ys| || |xs| == 1 || |ys| == 1
    ensures r.Some? ==> |r.value| == if |xs| == 1 then |ys| else |xs|
    ensures r.Some? ==> forall k :: 0 <= k < |r.value| ==>
      r.value[k] == (if |xs| == 1 then xs[0] else xs[k], if |ys| == 1 then ys[0] else ys[k])
  {
    if |xs| == |ys| || |xs| == 1 || |ys| == 1 then
      var n := if |xs| == 1 then |ys| else |xs|;
      var sx, sy := Stretch(xs, n), Stretch(ys, n);
      Some(seq(n, k requires 0 <= k < n => (sx[k], sy[k])))
    else None
  }

  /** A table of surface tags with `|t|` rows of `cols` entries each (numpy shape `(|t|, cols)`). */
  predicate Shaped(t: seq<seq<int>>, cols: nat)
  {
    forall i :: 0 <= i < |t| ==> |t[i]| == cols
  }

  /** The index pair addresses an entry of the table, counting negative indices from the end. */
  predicate Addressable(t: seq<seq<int>>, cols: nat, p: (int, int))
  {
    Index(p.0, |t|).Some? && Index(p.1, cols).Some?
  }

  function Lookup(t: seq<seq<int>>, cols: nat, p: (int, int)): int
    requires Shaped(t, cols) && Addressable(t, cols, p)
  {
    t[Index(p.0, |t|).value][Index(p.1, cols).value]
  }

  /** `t[coord[0], coord[1]]`: the broadcast index pairs looked up one by one, in order;
      a missing axis, lengths that do not broadcast or an index out of range raise IndexError. */
  function Resolved(t: seq<seq<int>>, cols: nat, coord: seq<seq<int>>): (r: Result<seq<int>>)
    requires Shaped(t, cols)
    ensures r.Err? ==> r.error == IndexError
    ensures r.Ok? <==>
      && |coord| >= 2
      && Pairs(coord[0], coord[1]).Some?
      && (forall k :: 0 <= k < |Pairs(coord[0], coord[1]).value| ==> Addressable(t, cols, Pairs(coord[0], coord[1]).value[k]))
    ensures r.Ok? ==>
      var ps := Pairs(coord[0], coord[1]).value;
      && |r.value| == |ps|
      && (forall k :: 0 <= k < |ps| ==> r.value[k] == Lookup(t, cols, ps[k]))
  {
    if |coord| < 2 then Err(IndexError)
    else match Pairs(coord[0], coord[1])
      case None => Err(IndexError)
      case Some(ps) =>
        if forall k :: 0 <= k < |ps| ==> Addressable(t, cols, ps[k]) then
          Ok(seq(|ps|, k requires 0 <= k < |ps| => Lookup(t, cols, ps[k])))
        else Err(IndexError)
  }

  /** Pinning x to column `c` and selecting the rows `ys` walks that column: the result is
      the surfaces `(c, ys[k])` in the order of `ys`. */
  lemma ResolveColumn(t: seq<seq<int>>, cols: nat, c: nat, ys: seq<int>)
    requires Shaped(t, cols) && c < |t|
    requires forall k :: 0 <= k < |ys| ==> 0 <= ys[k] < cols
    ensures Resolved(t, cols, [[c], ys]) == Ok(seq(|ys|, k requires 0 <= k < |ys| => t[c][ys[k]]))
  {
    var coord := [[c], ys];
    assert coord[0] == [c] && coord[1] == ys;
    var ps := Pairs([c], ys).value;
    assert forall k :: 0 <= k < |ps| ==> ps[k] == (c, ys[k]) && Addressable(t, cols, ps[k]);
    var res := Resolved(t, cols, coord);
    assert res.Ok?;
    var expected := seq(|ys|, k requires 0 <= k < |ys| => t[c][ys[k]]);
    assert forall k :: 0 <= k < |ys| ==> res.value[k] == expected[k];
    assert res.value == expected;
  }

  /** The same for a row: pinning y to `row` and selecting the columns `xs`. */
  lemma ResolveRow(t: seq<seq<int>>, cols: nat, row: nat, xs: seq<int>)
    requires Shaped(t, cols) && row < cols
    requires forall k :: 0 <= k < |xs| ==> 0 <= xs[k] < |t|
    ensures Resolved(t, cols, [xs, [row]]) == Ok(seq(|xs|, k requires 0 <= k < |xs| => t[xs[k]][row]))
  {
    var coord := [xs, [row]];
    assert coord[0] == xs && coord[1] == [row];
    var ps := Pairs(xs, [row]).value;
    assert forall k :: 0 <= k < |ps| ==> ps[k] == (xs[k], row) && Addressable(t, cols, ps[k]);
    var res := Resolved(t, cols, coord);
    assert res.Ok?;
    var expected := seq(|xs|, k requires 0 <= k < |xs| => t[xs[k]][row]);
    assert forall k :: 0 <= k < |xs| ==> res.value[k] == expected[k];
    assert res.value == expected;
  }

  /** Two index lists of the same length are zipped, not multiplied out: on a 2 by 2 table
      the selection `[[0, 1], [0, 1]]` gives the diagonal, two surfaces, not four. */
  lemma ResolveIsNotAProduct(t: seq<seq<int>>)
    requires Shaped(t, 2) && |t| == 2
    ensures Resolved(t, 2, [[0, 1], [0, 1]]) == Ok([t[0][0], t[1][1]])
  {
    var coord := [[0, 1], [0, 1]];
    assert coord[0] == [0, 1] && coord[1] == [0, 1];
    var ps := Pairs([0, 1], [0, 1]).value;
    assert ps[0] == (0, 0) && ps[1] == (1, 1);
    assert Addressable(t, 2, ps[0]) && Addressable(t, 2, ps[1]);
    var res := Resolved(t, 2, coord);
    assert res.Ok?;
    assert res.value[0] == t[0][0] && res.value[1] == t[1][1];
    assert res.value == [t[0][0], t[1][1]];
  }
}
