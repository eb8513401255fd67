/** Python's `sorted` on a list of `str`: strings compare lexicographically by
    code point, a proper prefix coming first. */
module StrOrder {

  /** Python `a <= b` on strings. */
  predicate Below(a: string, b: string)
    decreases |a|
  {
    if |a| == 0 then true
    else if |b| == 0 then false
    else if a[0] == b[0] then Below(a[1..], b[1..])
    else a[0] < b[0]
  }

  lemma {:induction false} BelowTotal(a: string, b: string)
    ensures Below(a, b) || Below(b, a)
    decreases |a|
  {
    if |a| > 0 && |b| > 0 && a[0] == b[0] {
      BelowTotal(a[1..], b[1..]);
    }
  }

  lemma {:induction false} BelowAntisymmetric(a: string, b: string)
    requires Below(a, b) && Below(b, a)
    ensures a == b
    decreases |a|
  {
    if |a| > 0 {
      BelowAntisymmetric(a[1..], b[1..]);
      assert a == [a[0]] + a[1..] && b == [b[0]] + b[1..];
    }
  }

  lemma {:induction false} BelowTransitive(a: string, b: string, c: string)
    requires Below(a, b) && Below(b, c)
    ensures Below(a, c)
    decreases |a|
  {
    if |a| > 0 && a[0] == b[0] && b[0] == c[0] {
      BelowTransitive(a[1..], b[1..], c[1..]);
    }
  }

  /** Every pair of entries is in order. */
  predicate Sorted(s: seq<string>) {
    forall i, j :: 0 <= i < j < |s| ==> Below(s[i], s[j])
  }

  /** Removing one entry keeps a sorted list sorted. */
  lemma SortedRemoveAt(s: seq<string>, i: nat)
    requires Sorted(s) && i < |s|
    ensures Sorted(s[..i] + s[i + 1..])
  {
    var e := s[..i] + s[i + 1..];
    forall a, b | 0 <= a < b < |e|
      ensures Below(e[a], e[b])
    {
      var a' := if a < i then a else a + 1;
      var b' := if b < i then b else b + 1;
      assert e[a] == s[a'] by { RemovedIndex(s, i, a); }
      assert e[b] == s[b'] by { RemovedIndex(s, i, b); }
    }
  }

  lemma RemovedIndex(s: seq<string>, i: nat, j: nat)
    requires i < |s| && j < |s| - 1
    ensures (s[..i] + s[i + 1..])[j] == if j < i then s[j] else s[j + 1]
  {
  }

  /** Inserts `x` into a sorted list after the entries below it. */
  function Insert(x: string, s: seq<string>): (r: seq<string>)
    requires Sorted(s)
    ensures Sorted(r)
    ensures multiset(r) == multiset(s) + multiset{x}
  {
    if |s| == 0 then [x]
    else if Below(x, s[0]) then
      SortedCons(x, s);
      [x] + s
    else
      var t := Insert(x, s[1..]);
      assert s == [s[0]] + s[1..];
      SortedConsAfter(x, s, t);
      [s[0]] + t
  }

  /** An entry below the head of a sorted list can go in front of it. */
  lemma SortedCons(x: string, s: seq<string>)
    requires Sorted(s) && |s| > 0 && Below(x, s[0])
    ensures Sorted([x] + s)
  {
    forall j | 0 < j < |s| + 1
      ensures Below(([x] + s)[0], ([x] + s)[j])
    {
      if j > 1 { BelowTransitive(x, s[0], s[j - 1]); }
    }
  }

  /** The head of a sorted list stays in front when an entry above it is
      inserted into its tail. */
  lemma SortedConsAfter(x: string, s: seq<string>, t: seq<string>)
    requires Sorted(s) && |s| > 0 && !Below(x, s[0])
    requires Sorted(t) && multiset(t) == multiset(s[1..]) + multiset{x}
    ensures Sorted([s[0]] + t)
  {
    BelowTotal(x, s[0]);
    forall y | y in t
      ensures Below(s[0], y)
    {
      assert y in multiset(t);
      if y != x {
        assert y in s[1..];
      }
    }
    forall j | 0 < j < |t| + 1
      ensures Below(([s[0]] + t)[0], ([s[0]] + t)[j])
    {
      assert t[j - 1] in t;
    }
  }

  /** Python `sorted(xs)`: a sorted permutation of `xs`. */
  function Sort(xs: seq<string>): (r: seq<string>)
    ensures Sorted(r)
    ensures multiset(r) == multiset(xs)
  {
    if |xs| == 0 then []
    else
      assert xs == [xs[0]] + xs[1..];
      Insert(xs[0], Sort(xs[1..]))
  }

  /** A multiset of strings has only one sorted arrangement, so any sorted
      permutation of `xs` is exactly `Sort(xs)`. */
  lemma {:induction false} SortedPermutationUnique(a: seq<string>, b: seq<string>)
    requires Sorted(a) && Sorted(b)
    requires multiset(a) == multiset(b)
    ensures a == b
    decreases |a|
  {
    if |a| > 0 {
      assert |b| > 0 by { assert a[0] in multiset(b); }
      assert a[0] in multiset(b) && b[0] in multiset(a);
      HeadIsLeast(b, a[0]);
      HeadIsLeast(a, b[0]);
      BelowAntisymmetric(a[0], b[0]);
      TailMultiset(a);
      TailMultiset(b);
      SortedTail(a);
      SortedTail(b);
      SortedPermutationUnique(a[1..], b[1..]);
    }
  }

  lemma TailMultiset(s: seq<string>)
    requires |s| > 0
    ensures multiset(s[1..]) == multiset(s) - multiset{s[0]}
  {
    assert s == [s[0]] + s[1..];
    assert multiset(s) == multiset([s[0]]) + multiset(s[1..]);
  }

  lemma SortedTail(s: seq<string>)
    requires Sorted(s) && |s| > 0
    ensures Sorted(s[1..])
  {
    forall i, j | 0 <= i < j < |s| - 1
      ensures Below(s[1..][i], s[1..][j])
    {
      assert s[1..][i] == s[i + 1] && s[1..][j] == s[j + 1];
    }
  }

  /** The first entry of a sorted list is below every entry. */
  lemma HeadIsLeast(s: seq<string>, x: string)
    requires Sorted(s) && x in s
    ensures Below(s[0], x)
  {
    var i :| 0 <= i < |s| && s[i] == x;
    if i == 0 {
      BelowTotal(x, x);
    }
  }
}
