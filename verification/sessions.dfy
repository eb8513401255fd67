/** Session acquisition and dispatch: the connection lookup, the session
    list a refresh builds (labels mapped to zero-based session indices), and
    the launch step that picks a session and types the transaction code.
    The vendor's object tree is reduced to what these decisions read: the
    connections' names and descriptions, the number of live sessions and
    each session's window title. */
module Sessions {
  import opened Outcomes
  import opened PyText
  import opened TransactionCode

  /** The entry that asks for a new session instead of an existing one. */
  const NewSessionLabel := "Nouvelle session"
  /** The title shown when a session's main window cannot be read. */
  const UntitledTitle := "(Sans titre)"
  const LabelPrefix := "Session "
  const LabelInfix := " - "

  // ---------------------------------------------------------------------
  // Connection lookup
  // ---------------------------------------------------------------------

  /** What the lookup reads of a connection; a missing attribute reads as "". */
  datatype ConnectionInfo = ConnectionInfo(name: string, description: string)

  /** The environment name occurs in the connection's name or description. */
  predicate MatchesEnvironment(c: ConnectionInfo, environment: string) {
    Contains(c.name, environment) || Contains(c.description, environment)
  }

  /** The first open connection whose name or description contains the
      environment name, in enumeration order; None means a new connection
      has to be opened by that name. */
  method FindConnection(connections: seq<ConnectionInfo>, environment: string) returns (found: Option<nat>)
    ensures found.Some? ==>
      && found.value < |connections|
      && MatchesEnvironment(connections[found.value], environment)
      && forall j :: 0 <= j < found.value ==> !MatchesEnvironment(connections[j], environment)
    ensures found.None? ==> forall j :: 0 <= j < |connections| ==> !MatchesEnvironment(connections[j], environment)
  {
    var i := 0;
    while i < |connections|
      invariant 0 <= i <= |connections|
      invariant forall j :: 0 <= j < i ==> !MatchesEnvironment(connections[j], environment)
    {
      if MatchesEnvironment(connections[i], environment) {
        return Some(i);
      }
      i := i + 1;
    }
    return None;
  }

  // ---------------------------------------------------------------------
  // Refresh: labels and the label -> index map
  // ---------------------------------------------------------------------

  /** The display label of session `i`: "Session ", its index in decimal,
      " - " and the window title. */
  function SessionLabel(i: nat, title: string): string {
    LabelPrefix + Decimal(i) + LabelInfix + title
  }

  /** A label reads as "Session ", then the index in decimal (at least one
      digit), then " - " and the title. */
  lemma SessionLabelParts(i: nat, title: string)
    ensures var r := SessionLabel(i, title);
      && StartsWith(r, LabelPrefix)
      && |r| > |LabelPrefix| + |LabelInfix| + |title|
      && r[|r| - |LabelInfix + title|..] == LabelInfix + title
      && r[|LabelPrefix|..|r| - |LabelInfix + title|] == Decimal(i)
  {
    var r := SessionLabel(i, title);
    var d := Decimal(i);
    assert r == LabelPrefix + (d + (LabelInfix + title));
    assert r[..|LabelPrefix|] == LabelPrefix;
    assert r[|LabelPrefix|..] == d + (LabelInfix + title);
    assert r[|LabelPrefix|..|r| - |LabelInfix + title|] == d;
  }

  /** The title of a session's main window as listed: the title read, or
      "(Sans titre)" when reading it failed (None). */
  function WindowTitle(title: Option<string>): (r: string)
    ensures title.Some? ==> r == title.value
    ensures title.None? ==> r == UntitledTitle
  {
    title.GetOr(UntitledTitle)
  }

  /** In a digit string followed by a space, that space is the first one. */
  lemma FirstSpaceAfterDigits(d: string, r: string)
    requires forall k :: 0 <= k < |d| ==> IsDigit(d[k])
    ensures (d + [' '] + r)[|d|] == ' '
    ensures forall k :: 0 <= k < |d| ==> (d + [' '] + r)[k] != ' '
  {
    assert forall k :: 0 <= k < |d| ==> (d + [' '] + r)[k] == d[k];
  }

  /** Two digit strings each followed by a space cannot overlap unless equal. */
  lemma DigitsBeforeSpace(d1: string, r1: string, d2: string, r2: string)
    requires forall k :: 0 <= k < |d1| ==> IsDigit(d1[k])
    requires forall k :: 0 <= k < |d2| ==> IsDigit(d2[k])
    requires d1 + [' '] + r1 == d2 + [' '] + r2
    ensures d1 == d2
  {
    var s := d1 + [' '] + r1;
    FirstSpaceAfterDigits(d1, r1);
    FirstSpaceAfterDigits(d2, r2);
    assert |d1| == |d2|;
    assert d1 == s[..|d1|] == d2;
  }

  /** A label determines its session index, whatever the titles. */
  lemma LabelDeterminesIndex(i: nat, t: string, j: nat, u: string)
    requires SessionLabel(i, t) == SessionLabel(j, u)
    ensures i == j
  {
    var a := Decimal(i);
    var b := Decimal(j);
    assert SessionLabel(i, t) == LabelPrefix + (a + [' '] + ("- " + t));
    assert SessionLabel(j, u) == LabelPrefix + (b + [' '] + ("- " + u));
    var n := |LabelPrefix|;
    assert a + [' '] + ("- " + t) == SessionLabel(i, t)[n..];
    assert b + [' '] + ("- " + u) == SessionLabel(j, u)[n..];
    DigitsBeforeSpace(a, "- " + t, b, "- " + u);
    DecimalInjective(i, j);
  }

  /** The labels of the live sessions, in session order, followed by the
      new-session entry. */
  function SessionDisplay(titles: seq<Option<string>>): (r: seq<string>)
    ensures |r| == |titles| + 1
    ensures r[|titles|] == NewSessionLabel
    ensures forall i :: 0 <= i < |titles| ==> r[i] == SessionLabel(i, WindowTitle(titles[i]))
  {
    seq(|titles|, i requires 0 <= i < |titles| => SessionLabel(i, WindowTitle(titles[i]))) + [NewSessionLabel]
  }

  /** The label -> index map the refresh loop builds by recording each
      session's label against its index, in index order: one entry per live
      session, each label mapped to its own session. */
  function SessionMap(titles: seq<Option<string>>): (r: map<string, int>)
    ensures IndexesLabels(r, titles)
  {
    if |titles| == 0 then map[]
    else
      var n := |titles| - 1;
      var prev := SessionMap(titles[..n]);
      SessionMapStep(titles, prev);
      prev[SessionLabel(n, WindowTitle(titles[n])) := n]
  }

  /** `r` maps the label of every live session to that session's index
      and holds nothing else. */
  predicate IndexesLabels(r: map<string, int>, titles: seq<Option<string>>) {
    && |r| == |titles|
    && (forall i :: 0 <= i < |titles| ==>
         SessionLabel(i, WindowTitle(titles[i])) in r && r[SessionLabel(i, WindowTitle(titles[i]))] == i)
    && (forall l :: l in r ==> 0 <= r[l] < |titles| && l == SessionLabel(r[l], WindowTitle(titles[r[l]])))
  }

  /** One iteration of the refresh loop: adding the newest session's label
      to the map of the older ones gives the map of all of them. */
  lemma SessionMapStep(titles: seq<Option<string>>, prev: map<string, int>)
    requires |titles| > 0 && IndexesLabels(prev, titles[..|titles| - 1])
    ensures IndexesLabels(prev[SessionLabel(|titles| - 1, WindowTitle(titles[|titles| - 1])) := |titles| - 1], titles)
  {
    var n := |titles| - 1;
    var prefix := titles[..n];
    var newest := SessionLabel(n, WindowTitle(titles[n]));
    NewestLabelIsNew(titles, prev);
    var r := prev[newest := n];
    assert |r| == |titles|;
    forall i | 0 <= i < |titles|
      ensures SessionLabel(i, WindowTitle(titles[i])) in r && r[SessionLabel(i, WindowTitle(titles[i]))] == i
    {
      if i < n {
        assert prefix[i] == titles[i];
      }
    }
    forall l | l in r
      ensures 0 <= r[l] < |titles| && l == SessionLabel(r[l], WindowTitle(titles[r[l]]))
    {
      if l != newest {
        assert prefix[prev[l]] == titles[prev[l]];
      }
    }
  }

  /** The newest session's label is not yet among the older sessions' labels. */
  lemma NewestLabelIsNew(titles: seq<Option<string>>, prev: map<string, int>)
    requires |titles| > 0 && IndexesLabels(prev, titles[..|titles| - 1])
    ensures SessionLabel(|titles| - 1, WindowTitle(titles[|titles| - 1])) !in prev
  {
    var n := |titles| - 1;
    var newest := SessionLabel(n, WindowTitle(titles[n]));
    if newest in prev {
      var j := prev[newest];
      assert newest == SessionLabel(j, WindowTitle(titles[..n][j]));
      LabelDeterminesIndex(n, WindowTitle(titles[n]), j, WindowTitle(titles[..n][j]));
    }
  }

  /** The new-session entry is never a key of the map, so choosing it always
      takes the new-session path. */
  lemma NewSessionLabelUnmapped(titles: seq<Option<string>>)
    ensures NewSessionLabel !in SessionMap(titles)
  {
    assert !StartsWith(NewSessionLabel, LabelPrefix) by {
      assert NewSessionLabel[0] != LabelPrefix[0];
    }
  }

  /** The combobox after a refresh: its entries, the label -> index map and
      the entry initially selected. */
  datatype SessionList = SessionList(display: seq<string>, sessions: map<string, int>, selected: string)

  /** `refresh_sessions`: with the connection's window titles it rebuilds
      list and map and selects the first entry; when the connection cannot
      be reached (None) it offers only the new-session entry and leaves the
      previous map in place. */
  function Refresh(live: Option<seq<Option<string>>>, previous: map<string, int>): (r: SessionList)
    ensures |r.display| >= 1 && r.display[|r.display| - 1] == NewSessionLabel
    ensures r.selected == r.display[0]
    ensures live.None? ==> r.display == [NewSessionLabel] && r.sessions == previous
    ensures live.Some? ==>
      && |r.display| == |live.value| + 1
      && |r.sessions| == |live.value|
      && (forall i :: 0 <= i < |live.value| ==> r.display[i] in r.sessions && r.sessions[r.display[i]] == i)
      && (forall l :: l in r.sessions ==> 0 <= r.sessions[l] < |live.value|)
      && (forall i :: 0 <= i < |live.value| ==> r.display[i] == SessionLabel(i, WindowTitle(live.value[i])))
  {
    match live
    case None => SessionList([NewSessionLabel], previous, NewSessionLabel)
    case Some(titles) =>
      var display := SessionDisplay(titles);
      SessionList(display, SessionMap(titles), display[0])
  }

  // ---------------------------------------------------------------------
  // Launch
  // ---------------------------------------------------------------------

  /** What the dispatcher does to the client: type a command into a
      session's command field and press Enter, or maximise a session's window. */
  datatype Action = Submit(session: int, code: string) | Maximize(session: int)

  datatype LaunchError =
    | MissingTransaction
    | NoSessionToOpenFrom
    | NewSessionNotCreated
    | UnknownSession(choice: string)
    | SessionIndexOutOfRange(index: int, count: nat)

  /** The actions performed, in order, and the error raised afterwards if any:
      a failure can follow actions already done. */
  datatype Launch = Launch(actions: seq<Action>, failure: Option<LaunchError>)

  /** `launch_sap_transaction`. `count` is the number of live sessions when
      the launch starts; `countAfter` the number observed after the
      open-in-new-session command had time to act (used only on that path). */
  function LaunchTransaction(code: string, choice: string, sessions: map<string, int>, count: nat, countAfter: nat): (r: Launch)
    ensures count == 0 ==> r.actions == [] && r.failure.Some?
    ensures choice == NewSessionLabel ==>
      && (r.failure.None? <==> 0 < count < countAfter)
      && (forall i :: 0 <= i < |r.actions| && r.actions[i].Submit? ==>
            r.actions[i].session == 0 && r.actions[i].code == OpenInNewSession(code))
      && (forall i :: 0 <= i < |r.actions| && r.actions[i].Maximize? ==> count < countAfter && r.actions[i].session == countAfter - 1)
    ensures choice != NewSessionLabel ==>
      && (r.failure.None? <==> choice in sessions && 0 <= sessions[choice] < count)
      && (r.actions != [] ==> r.failure.None?)
      && (forall i :: 0 <= i < |r.actions| ==>
            choice in sessions && r.actions[i].session == sessions[choice])
      && (forall i :: 0 <= i < |r.actions| && r.actions[i].Submit? ==> r.actions[i].code == ExecuteHere(code))
    ensures r.failure.None? ==> |r.actions| == 2 && r.actions[0].Submit? != r.actions[1].Submit?
    ensures choice == NewSessionLabel && count > 0 ==>
      |r.actions| >= 1 && r.actions[0] == Submit(0, OpenInNewSession(code))
    ensures choice != NewSessionLabel && r.failure.None? ==>
      r.actions == [Maximize(sessions[choice]), Submit(sessions[choice], ExecuteHere(code))]
    ensures choice == NewSessionLabel && count == 0 ==> r == Launch([], Some(NoSessionToOpenFrom))
    ensures choice == NewSessionLabel && 0 < count && countAfter <= count ==>
      r == Launch([Submit(0, OpenInNewSession(code))], Some(NewSessionNotCreated))
    ensures choice != NewSessionLabel && choice !in sessions ==> r == Launch([], Some(UnknownSession(choice)))
    ensures choice != NewSessionLabel && choice in sessions && !(0 <= sessions[choice] < count) ==>
      r == Launch([], Some(SessionIndexOutOfRange(sessions[choice], count)))
  {
    if choice == NewSessionLabel then
      if count == 0 then Launch([], Some(NoSessionToOpenFrom))
      else
        var submit := Submit(0, OpenInNewSession(code));
        if countAfter <= count then Launch([submit], Some(NewSessionNotCreated))
        else Launch([submit, Maximize(countAfter - 1)], None)
    else if choice !in sessions then Launch([], Some(UnknownSession(choice)))
    else
      var idx := sessions[choice];
      if idx < 0 || idx >= count then Launch([], Some(SessionIndexOutOfRange(idx, count)))
      else Launch([Maximize(idx), Submit(idx, ExecuteHere(code))], None)
  }

  /** A label that is not in the map fails with UnknownSession and touches
      no session: there is no fallback to session 0. */
  lemma NoSilentFallback(code: string, choice: string, sessions: map<string, int>, count: nat, countAfter: nat)
    requires choice != NewSessionLabel && choice !in sessions
    ensures LaunchTransaction(code, choice, sessions, count, countAfter) == Launch([], Some(UnknownSession(choice)))
  {
  }

  /** The label shown for session i is not the new-session entry and maps
      to i. */
  lemma ShownLabel(titles: seq<Option<string>>, i: nat)
    requires i < |titles|
    ensures var r := Refresh(Some(titles), map[]);
      r.display[i] != NewSessionLabel && r.display[i] in r.sessions && r.sessions[r.display[i]] == i
  {
    var r := Refresh(Some(titles), map[]);
    assert r.display[i] == SessionLabel(i, WindowTitle(titles[i]));
    assert r.display[i][0] == 'S' && NewSessionLabel[0] == 'N';
  }

  /** With the session count unchanged since the refresh, choosing the label
      of session i maximises session i and runs the code there. */
  lemma RefreshedLabelTargetsItsSession(code: string, titles: seq<Option<string>>, i: nat, countAfter: nat)
    requires i < |titles|
    ensures var r := Refresh(Some(titles), map[]);
      LaunchTransaction(code, r.display[i], r.sessions, |titles|, countAfter)
        == Launch([Maximize(i), Submit(i, ExecuteHere(code))], None)
  {
    ShownLabel(titles, i);
  }

  /** When sessions were closed after the refresh, the labels of the vanished
      sessions fail with an index error instead of reaching another session. */
  lemma StaleLabelFails(code: string, titles: seq<Option<string>>, i: nat, count: nat, countAfter: nat)
    requires count <= i < |titles|
    ensures var r := Refresh(Some(titles), map[]);
      LaunchTransaction(code, r.display[i], r.sessions, count, countAfter)
        == Launch([], Some(SessionIndexOutOfRange(i, count)))
  {
    ShownLabel(titles, i);
  }

  /** `on_launch_click` as written: strips both the code and the chosen label. */
  function OnLaunchAsWritten(codeInput: string, choiceInput: string, sessions: map<string, int>, count: nat, countAfter: nat): (r: Launch)
    ensures Strip(codeInput) == [] <==> r == Launch([], Some(MissingTransaction))
    ensures Strip(codeInput) != [] ==>
      r == LaunchTransaction(Strip(codeInput), Strip(choiceInput), sessions, count, countAfter)
  {
    var code := Strip(codeInput);
    if code == [] then Launch([], Some(MissingTransaction))
    else LaunchTransaction(code, Strip(choiceInput), sessions, count, countAfter)
  }

  /** Stripping the chosen label loses every session whose window title is
      empty: session i is listed as "Session i - ", the stripped choice
      "Session i -" is no key of the map, and the launch fails with
      UnknownSession although the session exists. */
  lemma StrippedChoiceMissesLabel(codeInput: string, titles: seq<Option<string>>, i: nat, countAfter: nat)
    requires i < |titles| && titles[i] == Some("") && Strip(codeInput) != []
    ensures var r := Refresh(Some(titles), map[]);
      && r.display[i] in r.sessions
      && OnLaunchAsWritten(codeInput, r.display[i], r.sessions, |titles|, countAfter)
           == Launch([], Some(UnknownSession(TruncatedLabel(i))))
  {
    var r := Refresh(Some(titles), map[]);
    ShownLabel(titles, i);
    var choice := Strip(r.display[i]);
    assert choice == TruncatedLabel(i) by {
      assert r.display[i] == SessionLabel(i, "");
      BlankTitleLabelStrip(i);
    }
    assert choice != NewSessionLabel by {
      assert choice[0] == 'S' && NewSessionLabel[0] == 'N';
    }
    assert choice !in r.sessions by {
      TruncatedLabelUnmapped(titles, i);
    }
    NoSilentFallback(Strip(codeInput), choice, r.sessions, |titles|, countAfter);
  }

  /** "Session i -": the label of a session with an empty title, stripped. */
  function TruncatedLabel(i: nat): string {
    LabelPrefix + Decimal(i) + " -"
  }

  /** Stripping the label of a session with an empty title drops its last space. */
  lemma BlankTitleLabelStrip(i: nat)
    ensures Strip(SessionLabel(i, "")) == TruncatedLabel(i)
  {
    var cut := TruncatedLabel(i);
    BlankTitleLabel(i);
    StripSkipsTrailingSpace(cut, ' ');
    TruncatedLabelStripped(i);
  }

  lemma BlankTitleLabel(i: nat)
    ensures SessionLabel(i, "") == TruncatedLabel(i) + [' ']
  {
  }

  lemma TruncatedLabelStripped(i: nat)
    ensures Strip(TruncatedLabel(i)) == TruncatedLabel(i)
  {
    var cut := TruncatedLabel(i);
    assert cut[0] == 'S' && cut[|cut| - 1] == '-';
    StripFixesStripped(cut);
  }

  /** No session label, whatever its index and title, is a truncated label. */
  lemma TruncatedLabelIsNoLabel(i: nat, j: nat, t: string)
    ensures SessionLabel(j, t) != TruncatedLabel(i)
  {
    var a := Decimal(i);
    var b := Decimal(j);
    var n := |LabelPrefix|;
    var shown := SessionLabel(j, t);
    var cut := TruncatedLabel(i);
    if shown == cut {
      assert shown[n..] == b + [' '] + ("- " + t);
      assert cut[n..] == a + [' '] + "-";
      DigitsBeforeSpace(a, "-", b, "- " + t);
    }
  }

  /** The truncated label of a listed session is not in the refreshed map. */
  lemma TruncatedLabelUnmapped(titles: seq<Option<string>>, i: nat)
    ensures TruncatedLabel(i) !in SessionMap(titles)
  {
    var m := SessionMap(titles);
    if TruncatedLabel(i) in m {
      var l := TruncatedLabel(i);
      TruncatedLabelIsNoLabel(i, m[l], WindowTitle(titles[m[l]]));
    }
  }

  /** `on_launch_click` with the chosen label taken as displayed: a blank
      code is refused, otherwise the stripped code is dispatched. */
  function OnLaunch(codeInput: string, choice: string, sessions: map<string, int>, count: nat, countAfter: nat): (r: Launch)
    ensures Strip(codeInput) == [] <==> r == Launch([], Some(MissingTransaction))
    ensures Strip(codeInput) != [] ==> r == LaunchTransaction(Strip(codeInput), choice, sessions, count, countAfter)
  {
    var code := Strip(codeInput);
    if code == [] then Launch([], Some(MissingTransaction))
    else LaunchTransaction(code, choice, sessions, count, countAfter)
  }

  /** Every listed session can be launched into: picking the label shown for
      session i runs the (non-blank) code in session i, whatever its title. */
  lemma DisplayedLabelReachesItsSession(codeInput: string, titles: seq<Option<string>>, i: nat, countAfter: nat)
    requires Strip(codeInput) != [] && i < |titles|
    ensures var r := Refresh(Some(titles), map[]);
      OnLaunch(codeInput, r.display[i], r.sessions, |titles|, countAfter)
        == Launch([Maximize(i), Submit(i, ExecuteHere(Strip(codeInput)))], None)
  {
    RefreshedLabelTargetsItsSession(Strip(codeInput), titles, i, countAfter);
  }
}
