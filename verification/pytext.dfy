/** The Python string built-ins the program relies on: `str.strip()`,
    `str.lstrip(c)`, `str.startswith`, `str.split(sep)`, `sep.join`,
    `str.replace`, the `in` substring test and `f"{n}"` for a natural number. */
module PyText {

  /** Python's `str.isspace()` on one character: exactly what `str.strip()`
      with no argument removes. */
  predicate IsSpace(c: char) {
    || c == ' '
    || ('\t' <= c <= '\r')
    || ('\U{1c}' <= c <= '\U{1f}')
    || c == '\U{85}' || c == '\U{a0}' || c == '\U{1680}'
    || ('\U{2000}' <= c <= '\U{200a}')
    || c == '\U{2028}' || c == '\U{2029}' || c == '\U{202f}' || c == '\U{205f}' || c == '\U{3000}'
  }

  /** A string with no whitespace at either end. */
  predicate IsStripped(s: string) {
    |s| == 0 || (!IsSpace(s[0]) && !IsSpace(s[|s| - 1]))
  }

  /** True when no character of `s` is in `seps`. */
  predicate SepFree(s: string, seps: set<char>) {
    forall k :: 0 <= k < |s| ==> s[k] !in seps
  }

  /** Removes the maximal run of leading whitespace. */
  function LStrip(s: string): (r: string)
    ensures |r| <= |s| && r == s[|s| - |r|..]
    ensures r == [] || !IsSpace(r[0])
    ensures forall k :: 0 <= k < |s| - |r| ==> IsSpace(s[k])
  {
    if |s| > 0 && IsSpace(s[0]) then LStrip(s[1..]) else s
  }

  /** Removes the maximal run of trailing whitespace. */
  function RStrip(s: string): (r: string)
    ensures |r| <= |s| && r == s[..|r|]
    ensures r == [] || !IsSpace(r[|r| - 1])
    ensures forall k :: |r| <= k < |s| ==> IsSpace(s[k])
  {
    if |s| > 0 && IsSpace(s[|s| - 1]) then RStrip(s[..|s| - 1]) else s
  }

  /** Where the text of `s` starts: the length of its leading whitespace run. */
  function StripStart(s: string): (a: nat)
    ensures a <= |s|
    ensures forall k :: 0 <= k < a ==> IsSpace(s[k])
    ensures a == |s| || !IsSpace(s[a])
  {
    |s| - |LStrip(s)|
  }

  /** Python `s.strip()`: the result is stripped, keeps only characters of
      `s`, and is empty exactly when `s` is blank; `StripIsSlice` shows it is
      the slice of `s` between its leading and trailing whitespace runs. */
  function Strip(s: string): (r: string)
    ensures IsStripped(r)
    ensures |r| <= |s|
    ensures forall c :: c in r ==> c in s
    ensures r == [] <==> forall k :: 0 <= k < |s| ==> IsSpace(s[k])
  {
    StripKeepsCharacters(s);
    StripEmptiesBlank(s);
    RStrip(LStrip(s))
  }

  /** `r` occurs in `s` starting at index `a`. */
  predicate IsSliceAt(r: string, s: string, a: nat) {
    a + |r| <= |s| && r == s[a..a + |r|]
  }

  /** Every character of `s` from index `b` on is whitespace. */
  predicate AllSpaceFrom(s: string, b: nat) {
    forall k :: b <= k < |s| ==> IsSpace(s[k])
  }

  /** Strip cuts the leading whitespace run off the front and the trailing
      run off the back: the result is the slice of `s` starting where its
      text starts, and everything after it is whitespace. */
  lemma StripIsSlice(s: string)
    ensures IsSliceAt(Strip(s), s, StripStart(s))
    ensures AllSpaceFrom(s, StripStart(s) + |Strip(s)|)
  {
    var l := LStrip(s);
    assert Strip(s) == RStrip(l) && StripStart(s) == |s| - |l|;
    TrimmedSlice(s, l, RStrip(l));
  }

  /** A suffix `l` of `s`, cut back to a prefix `r` followed only by
      whitespace, is a slice of `s` followed only by whitespace. */
  lemma TrimmedSlice(s: string, l: string, r: string)
    requires |l| <= |s| && l == s[|s| - |l|..]
    requires |r| <= |l| && r == l[..|r|]
    requires forall k :: |r| <= k < |l| ==> IsSpace(l[k])
    ensures IsSliceAt(r, s, |s| - |l|)
    ensures AllSpaceFrom(s, |s| - |l| + |r|)
  {
    var a := |s| - |l|;
    forall k | a + |r| <= k < |s|
      ensures IsSpace(s[k])
    {
      assert s[k] == l[k - a];
    }
  }

  /** LStrip then RStrip keeps a slice of the string: no new character. */
  lemma StripKeepsCharacters(s: string)
    ensures forall c :: c in RStrip(LStrip(s)) ==> c in s
  {
    var l := LStrip(s);
    var a := |s| - |l|;
    var r := RStrip(l);
    assert r == s[a..a + |r|] by {
      assert l == s[a..];
      assert r == l[..|r|];
    }
    SliceMembers(s, a, a + |r|);
  }

  lemma SliceMembers(s: string, a: nat, b: nat)
    requires a <= b <= |s|
    ensures forall c :: c in s[a..b] ==> c in s
  {
    forall c | c in s[a..b]
      ensures c in s
    {
      var i :| a <= i < b && s[i] == c;
    }
  }

  /** LStrip then RStrip empties exactly the blank strings. */
  lemma StripEmptiesBlank(s: string)
    ensures RStrip(LStrip(s)) == [] <==> forall k :: 0 <= k < |s| ==> IsSpace(s[k])
  {
    var l := LStrip(s);
    var r := RStrip(l);
    if r == [] {
      assert l == [];
    } else {
      assert r[0] == l[0] == s[|s| - |l|];
    }
  }

  /** A stripped string is exactly a fixed point of Strip. */
  lemma StripFixesStripped(s: string)
    ensures Strip(s) == s <==> IsStripped(s)
  {
    if IsStripped(s) {
      assert LStrip(s) == s;
      assert RStrip(s) == s;
    }
  }

  /** Leading whitespace never survives Strip. */
  lemma StripSkipsLeadingSpace(c: char, u: string)
    requires IsSpace(c)
    ensures Strip([c] + u) == Strip(u)
  {
    assert ([c] + u)[1..] == u;
  }

  /** Trailing whitespace never survives Strip. */
  lemma StripSkipsTrailingSpace(x: string, c: char)
    requires IsSpace(c)
    ensures Strip(x + [c]) == Strip(x)
  {
    LStripAppend(x, c);
    var l := LStrip(x);
    if l != [] {
      RStripDropsSpace(l, c);
    }
  }

  lemma RStripDropsSpace(l: string, c: char)
    requires IsSpace(c)
    ensures RStrip(l + [c]) == RStrip(l)
  {
    assert (l + [c])[..|l|] == l;
  }

  lemma {:induction false} LStripAppend(x: string, c: char)
    requires IsSpace(c)
    ensures LStrip(x) == [] ==> LStrip(x + [c]) == []
    ensures LStrip(x) != [] ==> LStrip(x + [c]) == LStrip(x) + [c]
  {
    if |x| == 0 {
      assert [] + [c] == [c];
      assert [c][1..] == [];
    } else {
      assert (x + [c])[0] == x[0];
      assert (x + [c])[1..] == x[1..] + [c];
      if IsSpace(x[0]) {
        LStripAppend(x[1..], c);
      }
    }
  }

  /** Python `s.startswith(p)`. */
  predicate StartsWith(s: string, p: string) {
    |p| <= |s| && s[..|p|] == p
  }

  /** Python `s.lstrip(c)` with a single-character argument. */
  function LStripChar(s: string, c: char): (r: string)
    ensures |r| <= |s| && r == s[|s| - |r|..]
    ensures r == [] || r[0] != c
    ensures forall k :: 0 <= k < |s| - |r| ==> s[k] == c
  {
    if |s| > 0 && s[0] == c then LStripChar(s[1..], c) else s
  }

  /** Python `s.split(sep)`, generalised to split at every character of
      `seps` (Python itself is only ever asked for one separator at a time). */
  function Split(s: string, seps: set<char>): (r: seq<string>)
    ensures |r| >= 1
    ensures forall i :: 0 <= i < |r| ==> SepFree(r[i], seps)
  {
    if |s| == 0 then [""]
    else
      var rest := Split(s[1..], seps);
      if s[0] in seps then [""] + rest
      else
        assert SepFree([s[0]] + rest[0], seps) by {
          assert forall k :: 1 <= k < |rest[0]| + 1 ==> ([s[0]] + rest[0])[k] == rest[0][k - 1];
        }
        [[s[0]] + rest[0]] + rest[1..]
  }

  /** Python `sep.join(xs)`. */
  function JoinWith(xs: seq<string>, sep: string): string {
    if |xs| == 0 then ""
    else if |xs| == 1 then xs[0]
    else xs[0] + sep + JoinWith(xs[1..], sep)
  }

  /** A join starts with the first piece and ends with the last. */
  lemma {:induction false} JoinWithEnds(xs: seq<string>, sep: string)
    ensures xs != [] ==> var r := JoinWith(xs, sep);
      |xs[0]| <= |r| && r[..|xs[0]|] == xs[0]
      && |xs[|xs| - 1]| <= |r| && r[|r| - |xs[|xs| - 1]|..] == xs[|xs| - 1]
  {
    if |xs| > 1 {
      var t := JoinWith(xs[1..], sep);
      JoinWithEnds(xs[1..], sep);
      assert JoinWith(xs, sep) == xs[0] + sep + t;
      assert xs[1..][|xs[1..]| - 1] == xs[|xs| - 1];
    }
  }

  /** Splitting on a separator that occurs in neither part of a
      concatenation splits the parts independently. */
  lemma {:induction false} SplitAtSeparator(a: string, c: char, b: string, seps: set<char>)
    requires c in seps
    ensures Split(a + [c] + b, seps) == Split(a, seps) + Split(b, seps)
  {
    if |a| == 0 {
      assert a + [c] + b == [c] + b;
      assert ([c] + b)[1..] == b;
    } else {
      assert (a + [c] + b)[1..] == a[1..] + [c] + b;
      SplitAtSeparator(a[1..], c, b, seps);
    }
  }

  /** A non-separator appended to a string extends its last piece. */
  lemma {:induction false} SplitAppendChar(s: string, c: char, seps: set<char>)
    requires c !in seps
    ensures var p := Split(s, seps);
      Split(s + [c], seps) == p[..|p| - 1] + [p[|p| - 1] + [c]]
  {
    if |s| == 0 {
      assert s + [c] == [c];
      SplitSingle(c, seps);
      var p := Split(s, seps);
      assert p == [""];
      assert p[..|p| - 1] + [p[|p| - 1] + [c]] == [[c]];
    } else {
      var t := s[1..];
      SplitAppendChar(t, c, seps);
      assert Split(s + [c], seps) == Split([s[0]] + (t + [c]), seps) by {
        assert s + [c] == [s[0]] + (t + [c]);
      }
      assert Split(s, seps) == Split([s[0]] + t, seps) by {
        assert s == [s[0]] + t;
      }
      SplitConsAppend(s[0], t, c, seps);
    }
  }

  lemma SplitSingle(c: char, seps: set<char>)
    requires c !in seps
    ensures Split([c], seps) == [[c]]
  {
    assert [c][1..] == [];
    assert Split([], seps) == [""];
    assert [c] + "" == [c];
  }

  /** The inductive step of SplitAppendChar: one more character in front. */
  lemma SplitConsAppend(a: char, t: string, c: char, seps: set<char>)
    requires c !in seps
    requires var q := Split(t, seps);
      Split(t + [c], seps) == q[..|q| - 1] + [q[|q| - 1] + [c]]
    ensures var p := Split([a] + t, seps);
      Split([a] + (t + [c]), seps) == p[..|p| - 1] + [p[|p| - 1] + [c]]
  {
    var q := Split(t, seps);
    var q' := Split(t + [c], seps);
    assert Split([a] + (t + [c]), seps) == if a in seps then [""] + q' else [[a] + q'[0]] + q'[1..] by {
      assert ([a] + (t + [c]))[1..] == t + [c];
    }
    assert Split([a] + t, seps) == if a in seps then [""] + q else [[a] + q[0]] + q[1..] by {
      assert ([a] + t)[1..] == t;
    }
    if a !in seps {
      GlueFirstPiece(a, q, q', c);
    }
  }

  /** Gluing a character onto the first piece commutes with extending the last one. */
  lemma GlueFirstPiece(a: char, q: seq<string>, q': seq<string>, c: char)
    requires |q| > 0 && q' == q[..|q| - 1] + [q[|q| - 1] + [c]]
    ensures var p := [[a] + q[0]] + q[1..];
      [[a] + q'[0]] + q'[1..] == p[..|p| - 1] + [p[|p| - 1] + [c]]
  {
    var m := |q| - 1;
    if m == 0 {
      assert q'[0] == q[0] + [c];
      assert [a] + (q[0] + [c]) == ([a] + q[0]) + [c];
    } else {
      assert q'[0] == q[0];
      assert q'[1..] == q[1..m] + [q[m] + [c]];
    }
  }



  /** A string with no separator in it splits into itself alone. */
  lemma {:induction false} SplitSepFree(s: string, seps: set<char>)
    requires SepFree(s, seps)
    ensures Split(s, seps) == [s]
  {
    if |s| > 0 {
      SplitSepFree(s[1..], seps);
      assert [s[0]] + s[1..] == s;
    }
  }

  /** `sep.join(s.split(sep)) == s` for a one-character separator. */
  lemma {:induction false} JoinSplit(s: string, c: char)
    ensures JoinWith(Split(s, {c}), [c]) == s
  {
    if |s| > 0 {
      var rest := Split(s[1..], {c});
      JoinSplit(s[1..], c);
      if s[0] == c {
        assert Split(s, {c}) == [""] + rest;
        assert ([""] + rest)[1..] == rest;
        assert [s[0]] + s[1..] == s;
      } else {
        assert Split(s, {c}) == [[s[0]] + rest[0]] + rest[1..];
        if |rest| == 1 {
          assert [s[0]] + s[1..] == s;
        } else {
          assert JoinWith(rest, [c]) == rest[0] + [c] + JoinWith(rest[1..], [c]);
          assert ([[s[0]] + rest[0]] + rest[1..])[1..] == rest[1..];
          assert [s[0]] + s[1..] == s;
        }
      }
    }
  }

  /** Python `s.replace(a, b)` for single characters. */
  function ReplaceChar(s: string, a: char, b: char): (r: string)
    ensures |r| == |s|
    ensures forall k :: 0 <= k < |s| ==> r[k] == (if s[k] == a then b else s[k])
  {
    if |s| == 0 then "" else [if s[0] == a then b else s[0]] + ReplaceChar(s[1..], a, b)
  }

  /** Python `needle in hay` on strings. */
  predicate Contains(hay: string, needle: string)
    decreases |hay|
  {
    StartsWith(hay, needle) || (|hay| > 0 && Contains(hay[1..], needle))
  }

  predicate IsDigit(c: char) {
    '0' <= c <= '9'
  }

  function DigitChar(d: nat): (c: char)
    requires d < 10
    ensures IsDigit(c)
  {
    ('0' as int + d) as char
  }

  /** Python `f"{n}"` (or `str(n)`) for a natural number: its decimal digits. */
  function Decimal(n: nat): (r: string)
    ensures |r| >= 1
    ensures forall k :: 0 <= k < |r| ==> IsDigit(r[k])
  {
    if n < 10 then [DigitChar(n)] else Decimal(n / 10) + [DigitChar(n % 10)]
  }

  /** The number a string of decimal digits denotes. */
  function DigitsValue(s: string): nat
    requires forall k :: 0 <= k < |s| ==> IsDigit(s[k])
  {
    if |s| == 0 then 0
    else
      assert IsDigit(s[|s| - 1]);
      10 * DigitsValue(s[..|s| - 1]) + (s[|s| - 1] as int - '0' as int)
  }

  /** Reading the printed digits back gives the number. */
  lemma {:induction false} DecimalRoundTrip(n: nat)
    ensures DigitsValue(Decimal(n)) == n
  {
    if n >= 10 {
      var d := Decimal(n / 10);
      assert (d + [DigitChar(n % 10)])[..|d|] == d;
      DecimalRoundTrip(n / 10);
    }
  }

  /** Distinct numbers print differently. */
  lemma DecimalInjective(m: nat, n: nat)
    ensures Decimal(m) == Decimal(n) ==> m == n
  {
    DecimalRoundTrip(m);
    DecimalRoundTrip(n);
  }
}
