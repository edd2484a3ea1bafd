/** String helpers used by the state keys: joining with a separator, the
    ordinal lexicographic order on strings, and sorting by it. */
module Text {

  /** `parts` joined with `sep` between consecutive elements. */
  function Join(sep: string, parts: seq<string>): string
  {
    if |parts| == 0 then ""
    else if |parts| == 1 then parts[0]
    else parts[0] + sep + Join(sep, parts[1..])
  }

  /** A join starts with its first part and ends with its last. */
  lemma {:induction false} JoinEnds(sep: string, parts: seq<string>)
    requires |parts| > 0
    ensures parts[0] <= Join(sep, parts)
    ensures var last, r := parts[|parts| - 1], Join(sep, parts);
            |last| <= |r| && r[|r| - |last|..] == last
  {
    if |parts| > 1 {
      JoinEnds(sep, parts[1..]);
      assert parts[1..][|parts[1..]| - 1] == parts[|parts| - 1];
    }
  }

  /** A join contains `d` only where a part or the separator does. */
  lemma {:induction false} JoinAvoids(sep: string, parts: seq<string>, d: char)
    requires d !in sep
    requires forall k :: 0 <= k < |parts| ==> d !in parts[k]
    ensures d !in Join(sep, parts)
  {
    if |parts| > 1 {
      JoinAvoids(sep, parts[1..], d);
      assert d !in parts[0];
    }
  }

  /** The position of the first `d` in `r`, or -1 when `r` has none. */
  function FirstIndex(d: char, r: string): (i: int)
    ensures -1 <= i < |r|
    ensures i < 0 ==> d !in r
    ensures 0 <= i ==> r[i] == d && d !in r[..i]
  {
    if |r| == 0 then -1
    else if r[0] == d then 0
    else
      var j := FirstIndex(d, r[1..]);
      assert r == [r[0]] + r[1..];
      if j < 0 then -1
      else
        assert r[..j + 1] == [r[0]] + r[1..][..j];
        j + 1
  }

  /** Cuts `r` at each occurrence of `sep` found by looking for its
      character `sep[j]`: the inverse of `Join` when that character occurs
      neither in the parts nor earlier in the separator. */
  function Split(sep: string, j: nat, r: string): seq<string>
    requires j < |sep|
    decreases |r|
  {
    var i := FirstIndex(sep[j], r);
    if i < j || i - j + |sep| > |r| || r[i - j..i - j + |sep|] != sep then [r]
    else [r[..i - j]] + Split(sep, j, r[i - j + |sep|..])
  }

  /** Splitting a join gives back the parts. */
  lemma {:induction false} SplitJoin(sep: string, j: nat, parts: seq<string>)
    requires j < |sep| && sep[j] !in sep[..j]
    requires |parts| > 0
    requires forall k :: 0 <= k < |parts| ==> sep[j] !in parts[k]
    ensures Split(sep, j, Join(sep, parts)) == parts
  {
    var p := parts[0];
    assert sep[j] !in p;
    if |parts| == 1 {
      assert FirstIndex(sep[j], p) < 0;
    } else {
      JoinFirstCut(sep, j, parts);
      SplitJoin(sep, j, parts[1..]);
      assert parts == [p] + parts[1..];
    }
  }

  /** In a join of two or more parts, the first `sep[j]` is the one in the
      first separator, which sits between the first part and the rest. */
  lemma JoinFirstCut(sep: string, j: nat, parts: seq<string>)
    requires j < |sep| && sep[j] !in sep[..j]
    requires |parts| > 1 && sep[j] !in parts[0]
    ensures var r, p := Join(sep, parts), parts[0];
            && FirstIndex(sep[j], r) == |p| + j
            && |p| + |sep| <= |r|
            && r[..|p|] == p && r[|p|..|p| + |sep|] == sep
            && r[|p| + |sep|..] == Join(sep, parts[1..])
  {
    var p, rest := parts[0], Join(sep, parts[1..]);
    assert Join(sep, parts) == (p + sep[..j]) + (sep[j..] + rest);
    FirstIndexAt(sep[j], p + sep[..j], sep[j..] + rest);
  }

  /** The first `d` in `x + y` is the head of `y` when `x` has none. */
  lemma {:induction false} FirstIndexAt(d: char, x: string, y: string)
    requires d !in x && |y| > 0 && y[0] == d
    ensures FirstIndex(d, x + y) == |x|
  {
    if |x| > 0 {
      assert x[0] in x;
      assert (x + y)[1..] == x[1..] + y;
      FirstIndexAt(d, x[1..], y);
    }
  }

  /** Ordinal lexicographic order: `a` is at most `b`. */
  predicate Le(a: string, b: string)
  {
    if |a| == 0 then true
    else if |b| == 0 then false
    else if a[0] != b[0] then a[0] < b[0]
    else Le(a[1..], b[1..])
  }

  lemma {:induction false} LeTotal(a: string, b: string)
    ensures Le(a, b) || Le(b, a)
  {
    if |a| > 0 && |b| > 0 && a[0] == b[0] {
      LeTotal(a[1..], b[1..]);
    }
  }

  lemma {:induction false} LeAntisymmetric(a: string, b: string)
    requires Le(a, b) && Le(b, a)
    ensures a == b
  {
    if |a| > 0 && |b| > 0 {
      LeAntisymmetric(a[1..], b[1..]);
      assert a == [a[0]] + a[1..] && b == [b[0]] + b[1..];
    }
  }

  lemma {:induction false} LeTransitive(a: string, b: string, c: string)
    requires Le(a, b) && Le(b, c)
    ensures Le(a, c)
  {
    if |a| > 0 && |b| > 0 && |c| > 0 && a[0] == b[0] && b[0] == c[0] {
      LeTransitive(a[1..], b[1..], c[1..]);
    }
  }

  ghost predicate Sorted(s: seq<string>)
  {
    forall i, j :: 0 <= i < j < |s| ==> Le(s[i], s[j])
  }

  /** `x` placed before the first element of `s` it is at most. */
  function Insert(x: string, s: seq<string>): seq<string>
  {
    if |s| == 0 then [x]
    else if Le(x, s[0]) then [x] + s
    else [s[0]] + Insert(x, s[1..])
  }

  /** Inserting into a sorted sequence keeps it sorted and adds `x` once. */
  lemma {:induction false} InsertSorted(x: string, s: seq<string>)
    requires Sorted(s)
    ensures Sorted(Insert(x, s))
    ensures multiset(Insert(x, s)) == multiset(s) + multiset{x}
  {
    if |s| > 0 {
      assert s == [s[0]] + s[1..];
      if Le(x, s[0]) {
        InsertFront(x, s);
      } else {
        LeTotal(x, s[0]);
        assert Sorted(s[1..]) by {
          forall i, j | 0 <= i < j < |s[1..]| ensures Le(s[1..][i], s[1..][j]) {
            assert s[1..][i] == s[i + 1] && s[1..][j] == s[j + 1];
          }
        }
        InsertSorted(x, s[1..]);
        InsertBehind(x, s, Insert(x, s[1..]));
      }
    }
  }

  lemma InsertFront(x: string, s: seq<string>)
    requires Sorted(s) && |s| > 0 && Le(x, s[0])
    ensures Sorted([x] + s)
  {
    forall j | 0 < j < |s| ensures Le(x, s[j]) {
      LeTransitive(x, s[0], s[j]);
    }
  }

  lemma InsertBehind(x: string, s: seq<string>, t: seq<string>)
    requires Sorted(s) && |s| > 0 && Le(s[0], x) && Sorted(t)
    requires multiset(t) == multiset(s[1..]) + multiset{x}
    ensures Sorted([s[0]] + t)
  {
    forall k | 0 <= k < |t| ensures Le(s[0], t[k]) {
      assert t[k] in multiset(t);
      if t[k] != x {
        assert t[k] in multiset(s[1..]);
        var j :| 0 <= j < |s[1..]| && s[1..][j] == t[k];
        assert s[j + 1] == t[k];
      }
    }
  }

  /** Insertion sort by `Le`. */
  function Sort(s: seq<string>): seq<string>
  {
    if |s| == 0 then [] else Insert(s[0], Sort(s[1..]))
  }

  /** Sorting yields a sorted permutation of its input. */
  lemma {:induction false} SortSorted(s: seq<string>)
    ensures Sorted(Sort(s))
    ensures multiset(Sort(s)) == multiset(s)
  {
    if |s| > 0 {
      SortSorted(s[1..]);
      InsertSorted(s[0], Sort(s[1..]));
      assert s == [s[0]] + s[1..];
    }
  }

  /** Two sorted sequences with the same elements are equal: the sorted
      order of a multiset of strings is unique. */
  lemma {:induction false} SortedUnique(a: seq<string>, b: seq<string>)
    requires Sorted(a) && Sorted(b)
    requires multiset(a) == multiset(b)
    ensures a == b
  {
    if |a| == 0 {
      assert |multiset(b)| == 0;
    } else {
      assert |b| == |multiset(b)| == |multiset(a)| == |a|;
      SameHead(a, b);
      TailMultiset(a, b);
      SortedUnique(a[1..], b[1..]);
      assert a == [a[0]] + a[1..] && b == [b[0]] + b[1..];
    }
  }

  lemma SameHead(a: seq<string>, b: seq<string>)
    requires Sorted(a) && Sorted(b) && |a| > 0 && |b| > 0
    requires multiset(a) == multiset(b)
    ensures a[0] == b[0]
  {
    assert a[0] in multiset(b) && b[0] in multiset(a);
    var k :| 0 <= k < |b| && b[k] == a[0];
    var m :| 0 <= m < |a| && a[m] == b[0];
    LeTotal(a[0], a[0]);
    assert Le(a[0], b[0]) by { if m > 0 { assert Le(a[0], a[m]); } }
    assert Le(b[0], a[0]) by { if k > 0 { assert Le(b[0], b[k]); } }
    LeAntisymmetric(a[0], b[0]);
  }

  lemma TailMultiset(a: seq<string>, b: seq<string>)
    requires |a| > 0 && |b| > 0 && a[0] == b[0]
    requires multiset(a) == multiset(b)
    ensures multiset(a[1..]) == multiset(b[1..])
  {
    assert a == [a[0]] + a[1..] && b == [b[0]] + b[1..];
    assert multiset(a) == multiset{a[0]} + multiset(a[1..]);
    assert multiset(b) == multiset{b[0]} + multiset(b[1..]);
    forall y ensures multiset(a[1..])[y] == multiset(b[1..])[y] {
      assert multiset(a)[y] == multiset{a[0]}[y] + multiset(a[1..])[y];
      assert multiset(b)[y] == multiset{b[0]}[y] + multiset(b[1..])[y];
    }
  }

  /** Sorting forgets the order of its input. */
  lemma SortPermutationInvariant(a: seq<string>, b: seq<string>)
    requires multiset(a) == multiset(b)
    ensures Sort(a) == Sort(b)
  {
    SortSorted(a);
    SortSorted(b);
    SortedUnique(Sort(a), Sort(b));
  }
}
