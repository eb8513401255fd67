/** The value-string codec for lists kept in the settings file: favourite
    transactions and HU presets are stored as one comma-joined string, and
    the HU identifiers typed by the user are split on commas and newlines. */
module ListCodec {
  import opened PyText

  const Comma: set<char> := {','}
  const Newline: set<char> := {'\n'}
  /** The joiner `", "` the program writes between entries. */
  const ListSeparator := ", "

  /** One list entry as it can come out of parsing: non-empty, no whitespace
      at either end, and no separator inside. */
  predicate IsEntry(t: string, seps: set<char>) {
    t != [] && IsStripped(t) && SepFree(t, seps)
  }

  /** Strips every piece and drops the ones that become empty, keeping order. */
  function Clean(pieces: seq<string>): (r: seq<string>)
    ensures |r| <= |pieces|
  {
    if |pieces| == 0 then [] else CleanHead(pieces[0]) + Clean(pieces[1..])
  }

  /** Splits at every separator, strips each piece and drops blank ones. */
  function ParseBy(s: string, seps: set<char>): (r: seq<string>)
    ensures forall i :: 0 <= i < |r| ==> IsEntry(r[i], seps)
  {
    CleanKeepsEntries(Split(s, seps), seps);
    Clean(Split(s, seps))
  }

  lemma {:induction false} CleanKeepsEntries(pieces: seq<string>, seps: set<char>)
    requires forall i :: 0 <= i < |pieces| ==> SepFree(pieces[i], seps)
    ensures forall i :: 0 <= i < |Clean(pieces)| ==> IsEntry(Clean(pieces)[i], seps)
  {
    if |pieces| > 0 {
      assert SepFree(pieces[0], seps);
      assert forall i :: 0 <= i < |pieces[1..]| ==> SepFree(pieces[1..][i], seps) by {
        forall i | 0 <= i < |pieces[1..]|
          ensures SepFree(pieces[1..][i], seps)
        {
          assert pieces[1..][i] == pieces[i + 1];
        }
      }
      CleanHeadEntry(pieces[0], seps);
      CleanKeepsEntries(pieces[1..], seps);
      CleanUnfold(pieces);
      EntriesConcat(CleanHead(pieces[0]), Clean(pieces[1..]), seps);
    }
  }

  /** Two lists of proper entries concatenate to a list of proper entries. */
  lemma EntriesConcat(h: seq<string>, rest: seq<string>, seps: set<char>)
    requires forall i :: 0 <= i < |h| ==> IsEntry(h[i], seps)
    requires forall i :: 0 <= i < |rest| ==> IsEntry(rest[i], seps)
    ensures forall i :: 0 <= i < |h + rest| ==> IsEntry((h + rest)[i], seps)
  {
    forall i | 0 <= i < |h + rest|
      ensures IsEntry((h + rest)[i], seps)
    {
      if i < |h| {
        assert (h + rest)[i] == h[i];
      } else {
        assert (h + rest)[i] == rest[i - |h|];
      }
    }
  }

  /** What cleaning keeps of a separator-free piece is a proper entry. */
  lemma CleanHeadEntry(x: string, seps: set<char>)
    requires SepFree(x, seps)
    ensures forall i :: 0 <= i < |CleanHead(x)| ==> IsEntry(CleanHead(x)[i], seps)
  {
    var t := Strip(x);
    assert SepFree(t, seps) by {
      forall k | 0 <= k < |t|
        ensures t[k] !in seps
      {
        assert t[k] in t;
      }
    }
  }

  lemma {:induction false} CleanAppend(p: seq<string>, q: seq<string>)
    ensures Clean(p + q) == Clean(p) + Clean(q)
  {
    if |p| > 0 {
      var tail := p[1..];
      assert (p + q)[0] == p[0] && (p + q)[1..] == tail + q;
      CleanUnfold(p + q);
      CleanUnfold(p);
      CleanAppend(tail, q);
      ConcatAssoc(CleanHead(p[0]), Clean(tail), Clean(q));
    } else {
      assert p + q == q;
    }
  }

  /** One step of cleaning: the first piece, then the rest. */
  lemma CleanUnfold(pieces: seq<string>)
    requires |pieces| > 0
    ensures Clean(pieces) == CleanHead(pieces[0]) + Clean(pieces[1..])
  {
  }

  /** Concatenation of entry lists is associative. */
  lemma ConcatAssoc(a: seq<string>, b: seq<string>, c: seq<string>)
    ensures a + (b + c) == (a + b) + c
  {
  }

  /** What cleaning keeps of one piece: its stripped form, unless blank. */
  function CleanHead(x: string): (r: seq<string>)
    ensures |r| <= 1
  {
    var t := Strip(x);
    if t == [] then [] else [t]
  }

  /** Parsing respects the order of the source string: the entries before a
      separator come first, then those after it. */
  lemma ParseBySeparator(a: string, c: char, b: string, seps: set<char>)
    requires c in seps
    ensures ParseBy(a + [c] + b, seps) == ParseBy(a, seps) + ParseBy(b, seps)
  {
    SplitAtSeparator(a, c, b, seps);
    CleanAppend(Split(a, seps), Split(b, seps));
  }

  /** The empty string holds no entry. */
  lemma ParseByEmpty(seps: set<char>)
    ensures ParseBy([], seps) == []
  {
    assert Split([], seps) == [""];
    assert Clean([""]) == Clean([]);
  }

  /** A separator in front of the text adds no entry. */
  lemma ParseByLeadingSeparator(c: char, s: string, seps: set<char>)
    requires c in seps
    ensures ParseBy([c] + s, seps) == ParseBy(s, seps)
  {
    SplitLeadingSeparator(c, s, seps);
    CleanBlankFirst(Split(s, seps));
  }

  /** A leading separator splits off one empty piece. */
  lemma SplitLeadingSeparator(c: char, s: string, seps: set<char>)
    requires c in seps
    ensures Split([c] + s, seps) == [""] + Split(s, seps)
  {
    assert ([c] + s)[1..] == s;
  }

  /** A separator after the text adds no entry. */
  lemma ParseByTrailingSeparator(s: string, c: char, seps: set<char>)
    requires c in seps
    ensures ParseBy(s + [c], seps) == ParseBy(s, seps)
  {
    var e: string := [];
    var front := Split(s, seps);
    assert Split(s + [c], seps) == front + [""] by {
      assert s + [c] + e == s + [c];
      SplitAtSeparator(s, c, e, seps);
    }
    CleanAppend(front, [""]);
    CleanBlankFirst([]);
    assert [""] + [] == [""];
  }

  lemma CleanBlankFirst(rest: seq<string>)
    ensures Clean([""] + rest) == Clean(rest)
  {
    assert ([""] + rest)[1..] == rest;
    StripFixesStripped("");
  }

  /** A string without separators parses to its stripped self, or to
      nothing when it is blank. */
  lemma ParseBySepFree(s: string, seps: set<char>)
    requires SepFree(s, seps)
    ensures ParseBy(s, seps) == (if Strip(s) == [] then [] else [Strip(s)])
  {
    SplitSepFree(s, seps);
  }

  /** Whitespace before the first separator is dropped with the piece's strip. */
  lemma {:induction false} ParseByLeadingSpace(c: char, s: string, seps: set<char>)
    requires IsSpace(c) && c !in seps
    ensures ParseBy([c] + s, seps) == ParseBy(s, seps)
  {
    var rest := Split(s, seps);
    assert ([c] + s)[1..] == s;
    assert Split([c] + s, seps) == [[c] + rest[0]] + rest[1..];
    StripSkipsLeadingSpace(c, rest[0]);
    var pieces := [[c] + rest[0]] + rest[1..];
    assert pieces[0] == [c] + rest[0] && pieces[1..] == rest[1..];
    var t := Strip(rest[0]);
    assert Clean(pieces) == (if t == [] then [] else [t]) + Clean(rest[1..]);
    assert Clean(rest) == (if t == [] then [] else [t]) + Clean(rest[1..]);
  }

  /** Trailing whitespace after the last separator is dropped with the piece's strip. */
  lemma ParseByTrailingSpace(s: string, c: char, seps: set<char>)
    requires IsSpace(c) && c !in seps
    ensures ParseBy(s + [c], seps) == ParseBy(s, seps)
  {
    SplitAppendChar(s, c, seps);
    CleanLastPiece(Split(s, seps), c);
  }

  /** Whitespace appended to the last piece does not change the cleaned list. */
  lemma CleanLastPiece(p: seq<string>, c: char)
    requires |p| > 0 && IsSpace(c)
    ensures Clean(p[..|p| - 1] + [p[|p| - 1] + [c]]) == Clean(p)
  {
    var n := |p| - 1;
    var x := p[n];
    var y := x + [c];
    var front := p[..n];
    FrontAndLast(p);
    CleanAppend(front, [y]);
    CleanAppend(front, [x]);
    StripSkipsTrailingSpace(x, c);
    CleanSingleton(x);
    CleanSingleton(y);
    assert Clean([y]) == Clean([x]);
    calc {
      Clean(front + [y]);
      Clean(front) + Clean([y]);
      Clean(front) + Clean([x]);
      Clean(front + [x]);
    }
  }

  lemma FrontAndLast(p: seq<string>)
    requires |p| > 0
    ensures p == p[..|p| - 1] + [p[|p| - 1]]
  {
  }

  lemma CleanSingleton(x: string)
    ensures Clean([x]) == if Strip(x) == [] then [] else [Strip(x)]
  {
    assert [x][1..] == [];
  }

  /** The favourites and preset parser: split at commas, strip, drop blanks. */
  function ParseList(s: string): (r: seq<string>)
    ensures forall i :: 0 <= i < |r| ==> IsEntry(r[i], Comma)
  {
    ParseBy(s, Comma)
  }

  /** The serialiser: the entries joined by ", ". */
  function JoinList(xs: seq<string>): string {
    JoinWith(xs, ListSeparator)
  }

  /** The serialised text starts with the first entry and ends with the
      last one; no entry gives the empty text. */
  lemma JoinListEnds(xs: seq<string>)
    ensures xs == [] ==> JoinList(xs) == []
    ensures xs != [] ==> var r := JoinList(xs);
      |xs[0]| <= |r| && r[..|xs[0]|] == xs[0]
      && |xs[|xs| - 1]| <= |r| && r[|r| - |xs[|xs| - 1]|..] == xs[|xs| - 1]
  {
    JoinWithEnds(xs, ListSeparator);
  }

  /** The entries of `xs` that are not the empty string, in order. */
  function NonEmpty(xs: seq<string>): (r: seq<string>)
    ensures |r| <= |xs|
  {
    if |xs| == 0 then []
    else (if xs[0] == [] then [] else [xs[0]]) + NonEmpty(xs[1..])
  }

  /** Joining stripped, comma-free strings and parsing the result gives the
      strings back, except the empty ones, which vanish. */
  lemma {:induction false} ParseJoin(xs: seq<string>)
    requires forall i :: 0 <= i < |xs| ==> IsStripped(xs[i]) && SepFree(xs[i], Comma)
    ensures ParseList(JoinList(xs)) == NonEmpty(xs)
  {
    if |xs| == 0 {
      ParseByEmpty(Comma);
    } else if |xs| == 1 {
      ParseJoinSingle(xs);
    } else {
      var x := xs[0];
      var rest := xs[1..];
      assert forall i :: 0 <= i < |rest| ==> IsStripped(rest[i]) && SepFree(rest[i], Comma) by {
        assert forall i :: 0 <= i < |rest| ==> rest[i] == xs[i + 1];
      }
      ParseJoin(rest);
      ParseHead(x);
      ParseJoinStep(x, JoinList(rest), xs);
      assert NonEmpty(xs) == (if x == [] then [] else [x]) + NonEmpty(rest);
    }
  }

  /** A stripped, comma-free string parses to itself, or to nothing when empty. */
  lemma ParseHead(x: string)
    requires IsStripped(x) && SepFree(x, Comma)
    ensures ParseBy(x, Comma) == if x == [] then [] else [x]
  {
    ParseBySepFree(x, Comma);
    StripFixesStripped(x);
  }

  lemma ParseJoinSingle(xs: seq<string>)
    requires |xs| == 1 && IsStripped(xs[0]) && SepFree(xs[0], Comma)
    ensures ParseList(JoinList(xs)) == NonEmpty(xs)
  {
    assert JoinList(xs) == xs[0];
    ParseHead(xs[0]);
    NonEmptySingle(xs);
  }

  lemma NonEmptySingle(xs: seq<string>)
    requires |xs| == 1
    ensures NonEmpty(xs) == if xs[0] == [] then [] else [xs[0]]
  {
    assert xs[1..] == [];
  }

  /** One step of the round trip: the text joined after `x` is parsed on
      its own. */
  lemma ParseJoinStep(x: string, tail: string, xs: seq<string>)
    requires |xs| > 1 && xs[0] == x && tail == JoinList(xs[1..])
    ensures ParseList(JoinList(xs)) == ParseBy(x, Comma) + ParseBy(tail, Comma)
  {
    JoinListCons(x, tail, xs);
    ParseAfterListSeparator(x, tail);
  }

  /** The text after a `", "` joiner is parsed on its own. */
  lemma ParseAfterListSeparator(x: string, tail: string)
    ensures ParseBy(x + [','] + ([' '] + tail), Comma) == ParseBy(x, Comma) + ParseBy(tail, Comma)
  {
    assert ',' in Comma && ' ' !in Comma && IsSpace(' ');
    ParseBySeparator(x, ',', [' '] + tail, Comma);
    ParseByLeadingSpace(' ', tail, Comma);
  }

  /** The serialised text of two or more entries: the first entry, a comma,
      a space, then the rest serialised. */
  lemma JoinListCons(x: string, tail: string, xs: seq<string>)
    requires |xs| > 1 && xs[0] == x && tail == JoinList(xs[1..])
    ensures JoinList(xs) == x + [','] + ([' '] + tail)
  {
    assert JoinList(xs) == x + ListSeparator + tail;
    assert ListSeparator == [','] + [' '];
  }

  /** Round trip: a list of proper entries survives `", ".join` then parsing. */
  lemma ListRoundTrip(xs: seq<string>)
    requires forall i :: 0 <= i < |xs| ==> IsEntry(xs[i], Comma)
    ensures ParseList(JoinList(xs)) == xs
  {
    ParseJoin(xs);
    NonEmptyOfEntries(xs);
  }

  lemma {:induction false} NonEmptyOfEntries(xs: seq<string>)
    requires forall i :: 0 <= i < |xs| ==> xs[i] != []
    ensures NonEmpty(xs) == xs
  {
    if |xs| > 0 {
      NonEmptyOfEntries(xs[1..]);
      assert xs == [xs[0]] + xs[1..];
    }
  }

  /** Re-saving a parsed list and parsing it again changes nothing. */
  lemma ParseJoinParse(s: string)
    ensures ParseList(JoinList(ParseList(s))) == ParseList(s)
  {
    ListRoundTrip(ParseList(s));
  }

  /** The HU identifier parser of the creation dialog: commas are turned
      into newlines, the text is split at newlines, pieces are stripped and
      blank ones dropped. */
  function ParseHuText(raw: string): (r: seq<string>)
    ensures forall i :: 0 <= i < |r| ==> IsEntry(r[i], Comma + Newline)
  {
    ParseHuTextSeparators(raw);
    ParseBy(ReplaceChar(raw, ',', '\n'), Newline)
  }

  /** Replacing commas by newlines and splitting on newlines splits at both
      characters alike. */
  lemma {:induction false} SplitReplaced(s: string)
    ensures Split(ReplaceChar(s, ',', '\n'), Newline) == Split(s, Comma + Newline)
  {
    if |s| > 0 {
      var t := ReplaceChar(s, ',', '\n');
      assert t[1..] == ReplaceChar(s[1..], ',', '\n');
      SplitReplaced(s[1..]);
    }
  }

  /** HU identifiers are split at commas and newlines alike. */
  lemma ParseHuTextSeparators(raw: string)
    ensures ParseBy(ReplaceChar(raw, ',', '\n'), Newline) == ParseBy(raw, Comma + Newline)
  {
    SplitReplaced(raw);
  }
}
