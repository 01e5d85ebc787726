/** Ordering used by SQL `ORDER BY`: a stable insertion sort under a total
    preorder, and the binary (code point) order SQLite uses on text. */
module Sorting {

  /** `le` is total and transitive: a valid `ORDER BY` comparison. */
  ghost predicate TotalPreorder<T(!new)>(le: (T, T) -> bool) {
    && (forall a, b :: le(a, b) || le(b, a))
    && (forall a, b, c :: le(a, b) && le(b, c) ==> le(a, c))
  }

  predicate SortedBy<T>(s: seq<T>, le: (T, T) -> bool) {
    forall i, j :: 0 <= i < j < |s| ==> le(s[i], s[j])
  }

  /** Inserts `x` in front of the first element it does not exceed, so it
      lands after every element it ties with only when those came first. */
  function Insert<T(!new)>(x: T, s: seq<T>, le: (T, T) -> bool): (r: seq<T>)
    requires TotalPreorder(le)
    requires SortedBy(s, le)
    ensures SortedBy(r, le)
    ensures multiset(r) == multiset(s) + multiset{x}
    ensures |r| == |s| + 1
  {
    if |s| == 0 then [x]
    else if le(x, s[0]) then [x] + s
    else
      var rest := Insert(x, s[1..], le);
      assert s == [s[0]] + s[1..];
      HeadBelowRest(x, s, rest, le);
      [s[0]] + rest
  }

  /** When `x` goes after the head of `s`, the head stays at or below
      everything the insertion into the tail produces. */
  lemma HeadBelowRest<T(!new)>(x: T, s: seq<T>, rest: seq<T>, le: (T, T) -> bool)
    requires TotalPreorder(le)
    requires SortedBy(s, le) && |s| > 0 && le(s[0], x)
    requires multiset(rest) == multiset(s[1..]) + multiset{x}
    ensures forall j :: 0 <= j < |rest| ==> le(s[0], rest[j])
  {
    forall j | 0 <= j < |rest|
      ensures le(s[0], rest[j])
    {
      var e := rest[j];
      assert e in multiset(rest);
      if e != x {
        assert e in multiset(s[1..]);
        var k :| 0 <= k < |s[1..]| && s[1..][k] == e;
        assert s[k + 1] == e;
      }
    }
  }

  /** Stable insertion sort: the result is ordered by `le` and holds exactly
      the elements of `s`. */
  function Sort<T(!new)>(s: seq<T>, le: (T, T) -> bool): (r: seq<T>)
    requires TotalPreorder(le)
    ensures SortedBy(r, le)
    ensures multiset(r) == multiset(s)
    ensures |r| == |s|
  {
    if |s| == 0 then []
    else
      assert s == [s[0]] + s[1..];
      Insert(s[0], Sort(s[1..], le), le)
  }

  /** The head of a sorted sequence is at or below every element. */
  lemma HeadIsLeast<T(!new)>(a: seq<T>, le: (T, T) -> bool, x: T)
    requires TotalPreorder(le)
    requires SortedBy(a, le) && x in multiset(a)
    ensures |a| > 0 && le(a[0], x)
  {
    var i :| 0 <= i < |a| && a[i] == x;
    if i == 0 {
      assert le(x, x) || le(x, x);
    }
  }

  lemma SameHead<T(!new)>(a: seq<T>, b: seq<T>, le: (T, T) -> bool)
    requires TotalPreorder(le)
    requires forall x, y :: x in multiset(a) && y in multiset(a) && le(x, y) && le(y, x) ==> x == y
    requires SortedBy(a, le) && SortedBy(b, le)
    requires multiset(a) == multiset(b) && |a| > 0
    ensures |b| > 0 && a[0] == b[0]
  {
    assert a[0] in multiset(a);
    HeadIsLeast(b, le, a[0]);
    assert b[0] in multiset(a);
    HeadIsLeast(a, le, b[0]);
  }

  lemma TailSorted<T>(a: seq<T>, le: (T, T) -> bool)
    requires SortedBy(a, le) && |a| > 0
    ensures SortedBy(a[1..], le)
  {
    forall i, j | 0 <= i < j < |a| - 1
      ensures le(a[1..][i], a[1..][j])
    {
      assert a[1..][i] == a[i + 1] && a[1..][j] == a[j + 1];
    }
  }

  lemma TailMultiset<T>(a: seq<T>, b: seq<T>)
    requires multiset(a) == multiset(b) && |a| > 0 && |b| > 0 && a[0] == b[0]
    ensures multiset(a[1..]) == multiset(b[1..])
    ensures multiset(a[1..]) <= multiset(a)
  {
    assert a == [a[0]] + a[1..] && b == [b[0]] + b[1..];
    assert multiset(a) == multiset{a[0]} + multiset(a[1..]);
    assert multiset(b) == multiset{a[0]} + multiset(b[1..]);
    forall z
      ensures multiset(a[1..])[z] == multiset(b[1..])[z]
    {
      assert multiset(a)[z] == multiset{a[0]}[z] + multiset(a[1..])[z];
      assert multiset(b)[z] == multiset{a[0]}[z] + multiset(b[1..])[z];
    }
  }

  lemma TailsAgree<T(!new)>(a: seq<T>, b: seq<T>, le: (T, T) -> bool)
    requires forall x, y :: x in multiset(a) && y in multiset(a) && le(x, y) && le(y, x) ==> x == y
    requires SortedBy(a, le) && SortedBy(b, le)
    requires multiset(a) == multiset(b) && |a| > 0 && |b| > 0 && a[0] == b[0]
    ensures forall x, y :: x in multiset(a[1..]) && y in multiset(a[1..]) && le(x, y) && le(y, x) ==> x == y
    ensures SortedBy(a[1..], le) && SortedBy(b[1..], le)
    ensures multiset(a[1..]) == multiset(b[1..])
  {
    TailSorted(a, le);
    TailSorted(b, le);
    TailMultiset(a, b);
  }

  lemma ConsEqual<T>(a: seq<T>, b: seq<T>)
    requires |a| > 0 && |b| > 0 && a[0] == b[0] && a[1..] == b[1..]
    ensures a == b
  {
    assert a == [a[0]] + a[1..] && b == [b[0]] + b[1..];
  }

  /** Taking one element out of a sequence takes it out of its multiset. */
  lemma RemoveAt<T>(s: seq<T>, j: int)
    requires 0 <= j < |s|
    ensures multiset(s) == multiset{s[j]} + multiset(s[..j] + s[j + 1..])
  {
    assert s == s[..j] + [s[j]] + s[j + 1..];
  }

  lemma Cancel<T>(x: T, m: multiset<T>, n: multiset<T>)
    requires multiset{x} + m == multiset{x} + n
    ensures m == n
  {
    forall z
      ensures m[z] == n[z]
    {
      assert (multiset{x} + m)[z] == (multiset{x} + n)[z];
    }
  }

  /** A position where an element of the multiset sits. */
  lemma IndexOf<T>(s: seq<T>, x: T) returns (j: int)
    requires x in multiset(s)
    ensures 0 <= j < |s| && s[j] == x
  {
    assert x in s;
    j :| 0 <= j < |s| && s[j] == x;
  }

  /** Taking the same element out of two permutations leaves permutations. */
  lemma RemoveBoth<T>(a: seq<T>, b: seq<T>, j: int)
    requires multiset(a) == multiset(b)
    requires |a| > 0 && 0 <= j < |b| && b[j] == a[0]
    ensures multiset(a[1..]) == multiset(b[..j] + b[j + 1..])
  {
    RemoveAt(a, 0);
    RemoveAt(b, j);
    assert a[..0] + a[1..] == a[1..];
    Cancel(a[0], multiset(a[1..]), multiset(b[..j] + b[j + 1..]));
  }

  /** Two sorted arrangements of the same elements are equal when no two
      different elements tie: such an order leaves nothing to chance. */
  lemma {:induction false} SortedUnique<T(!new)>(a: seq<T>, b: seq<T>, le: (T, T) -> bool)
    requires TotalPreorder(le)
    requires forall x, y :: x in multiset(a) && y in multiset(a) && le(x, y) && le(y, x) ==> x == y
    requires SortedBy(a, le) && SortedBy(b, le)
    requires multiset(a) == multiset(b)
    ensures a == b
    decreases |a|
  {
    if |a| == 0 {
      assert |multiset(b)| == 0;
    } else {
      SameHead(a, b, le);
      TailsAgree(a, b, le);
      SortedUnique(a[1..], b[1..], le);
      ConsEqual(a, b);
    }
  }

  /** SQLite's BINARY collation on text: lexicographic by code point, a
      proper prefix sorting first. */
  predicate TextLe(a: string, b: string)
  {
    if |a| == 0 then true
    else if |b| == 0 then false
    else if a[0] != b[0] then a[0] < b[0]
    else TextLe(a[1..], b[1..])
  }

  lemma {:induction false} TextLeTotal(a: string, b: string)
    ensures TextLe(a, b) || TextLe(b, a)
    decreases |a|
  {
    if |a| > 0 && |b| > 0 && a[0] == b[0] {
      TextLeTotal(a[1..], b[1..]);
    }
  }

  lemma {:induction false} TextLeTransitive(a: string, b: string, c: string)
    requires TextLe(a, b) && TextLe(b, c)
    ensures TextLe(a, c)
    decreases |a|
  {
    if |a| > 0 && |b| > 0 && |c| > 0 && a[0] == b[0] && b[0] == c[0] {
      TextLeTransitive(a[1..], b[1..], c[1..]);
    }
  }

  lemma {:induction false} TextLeAntisymmetric(a: string, b: string)
    requires TextLe(a, b) && TextLe(b, a)
    ensures a == b
    decreases |a|
  {
    if |a| > 0 && |b| > 0 {
      TextLeAntisymmetric(a[1..], b[1..]);
      assert a == [a[0]] + a[1..] && b == [b[0]] + b[1..];
    }
  }
}
