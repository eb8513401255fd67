/** The handling-unit dialog's own decisions: the preset lists it offers
    (work centres, storage bins, HU types), deleting one preset, merging the
    values used into the stored presets, choosing the session, and turning
    the chosen HU type plus the typed text into the list of HU identifiers
    to create. Filling the vendor screen fields is not modelled. */
module HuCreation {
  import opened Outcomes
  import opened PyText
  import opened ListCodec
  import opened StrOrder
  import opened Config
  import Sessions

  const HuSection := "HU"
  const DefaultWorkCenters := "GPAK"
  const DefaultStorageBins := "COOL-PACK, GR-ZONE"
  const DefaultHuTypes := "PAC0002, PAC0005, PAC0008, PAC0011, PAC0012"
  /** What `update_hu_config` assumes when a key is missing; note these
      differ from the defaults the dialog writes. */
  const FallbackWorkCenters := "GPAK"
  const FallbackStorageBins := "GR-ZONE, COOL"
  /** The HU type whose identifiers the backend numbers itself. */
  const AutoNumberedType := "PAC0012"

  const DefaultHuSection: Section := map[
    "work_center" := DefaultWorkCenters,
    "storage_bin" := DefaultStorageBins,
    "hu_type" := DefaultHuTypes]

  datatype HuError =
    | MissingPresetKey(key: string)
    | NoSessionAvailable
    | UnknownSession(choice: string)
    | SessionIndexOutOfRange(index: int, count: nat)
    | NoHuEntered

  // ---------------------------------------------------------------------
  // Preset lists
  // ---------------------------------------------------------------------

  /** A stored preset string as the dialog lists it: its entries, sorted. */
  function SortedPresets(value: string): (r: seq<string>)
    ensures Sorted(r)
    ensures multiset(r) == multiset(ParseList(value))
    ensures forall i :: 0 <= i < |r| ==> IsEntry(r[i], Comma)
  {
    var xs := ParseList(value);
    var r := Sort(xs);
    assert forall i :: 0 <= i < |r| ==> r[i] in multiset(xs);
    r
  }

  datatype Presets = Presets(workCenters: seq<string>, storageBins: seq<string>, huTypes: seq<string>)

  /** The dialog after opening: the file (with the HU section added if it
      was missing) and the three sorted preset lists. */
  datatype HuDialog = HuDialog(file: IniFile, presets: Presets)

  /** A preset list as the dialog offers it: the stored entries, sorted. */
  predicate Offers(list: seq<string>, stored: string) {
    Sorted(list) && multiset(list) == multiset(ParseList(stored))
  }

  /** Opening the dialog: a missing HU section is created with the defaults
      and written; a missing key inside an existing section is an error;
      each list offered is the sorted entries of its stored value. */
  function OpenHuDialog(file: IniFile): (r: Result<HuDialog, HuError>)
    ensures HuSection !in file ==> r.Ok? && r.value.file == file[HuSection := DefaultHuSection]
    ensures HuSection in file ==> r.Ok? ==> r.value.file == file
    ensures r.Ok? <==> (HuSection !in file
      || ("work_center" in file[HuSection] && "storage_bin" in file[HuSection] && "hu_type" in file[HuSection]))
    ensures r.Ok? ==>
      var section := r.value.file[HuSection];
      && "work_center" in section && "storage_bin" in section && "hu_type" in section
      && Offers(r.value.presets.workCenters, section["work_center"])
      && Offers(r.value.presets.storageBins, section["storage_bin"])
      && Offers(r.value.presets.huTypes, section["hu_type"])
  {
    var f := if HuSection in file then file else file[HuSection := DefaultHuSection];
    var section := f[HuSection];
    if "work_center" !in section then Err(MissingPresetKey("work_center"))
    else if "storage_bin" !in section then Err(MissingPresetKey("storage_bin"))
    else if "hu_type" !in section then Err(MissingPresetKey("hu_type"))
    else
      Ok(HuDialog(f, Presets(
        SortedPresets(section["work_center"]),
        SortedPresets(section["storage_bin"]),
        SortedPresets(section["hu_type"]))))
  }

  /** After the settings are saved by the main window as written, the HU
      section is gone and the dialog falls back to the default presets,
      whatever the user had stored before. */
  lemma PresetsLostAfterSettingsSave(previous: IniFile, s: Settings)
    requires HuSection in previous
    ensures var r := OpenHuDialog(SaveConfigAsWritten(s));
      r.Ok? && r.value.file[HuSection] == DefaultHuSection
  {
    SaveAsWrittenDropsHuSection(previous, s);
  }

  /** With the corrected save, the HU presets stored before are offered again. */
  lemma PresetsKeptAfterSettingsSave(previous: IniFile, s: Settings)
    requires HuSection in previous
    ensures var after := OpenHuDialog(SaveConfig(previous, s));
      var before := OpenHuDialog(previous);
      after.Ok? == before.Ok? && (after.Ok? ==> after.value.presets == before.value.presets)
  {
    var f := SaveConfig(previous, s);
    assert HuSection !in ManagedSections;
    assert f[HuSection] == previous[HuSection];
  }

  // ---------------------------------------------------------------------
  // Deleting a preset
  // ---------------------------------------------------------------------

  /** Python `list.remove(v)` guarded by `v in list`: drops the first
      occurrence, if any. */
  function RemoveFirst(xs: seq<string>, v: string): (r: seq<string>)
    ensures multiset(r) == multiset(xs) - multiset{v}
    ensures v in xs ==> |r| == |xs| - 1
    ensures v !in xs ==> r == xs
  {
    if |xs| == 0 then []
    else if xs[0] == v then
      assert xs == [v] + xs[1..];
      xs[1..]
    else
      assert xs == [xs[0]] + xs[1..];
      [xs[0]] + RemoveFirst(xs[1..], v)
  }

  datatype DeleteOutcome = Unchanged | Updated(values: seq<string>, stored: string)

  /** `delete_wc_value` / `delete_sb_value`: with a non-blank current value
      that is listed and the user's confirmation, one occurrence is removed,
      the rest is sorted and the sorted list is what gets stored. In every
      other case nothing changes (the confirmation message of the source is
      shown even when the value was not listed). */
  function DeletePreset(values: seq<string>, currentInput: string, confirmed: bool): (r: DeleteOutcome)
    ensures r == Unchanged <==> Strip(currentInput) == [] || !confirmed || Strip(currentInput) !in values
    ensures r.Updated? ==>
      && Sorted(r.values)
      && multiset(r.values) == multiset(values) - multiset{Strip(currentInput)}
      && |r.values| == |values| - 1
      && r.stored == JoinList(r.values)
  {
    var current := Strip(currentInput);
    if current == [] || !confirmed || current !in values then Unchanged
    else
      var rest := Sort(RemoveFirst(values, current));
      Updated(rest, JoinList(rest))
  }

  /** What a deletion stores is read back as the list the dialog shows, as
      long as the presets were proper entries. */
  lemma DeletedPresetsReload(values: seq<string>, currentInput: string, confirmed: bool)
    requires forall i :: 0 <= i < |values| ==> IsEntry(values[i], Comma)
    ensures var r := DeletePreset(values, currentInput, confirmed);
      r.Updated? ==> ParseList(r.stored) == r.values
  {
    var r := DeletePreset(values, currentInput, confirmed);
    if r.Updated? {
      forall i | 0 <= i < |r.values|
        ensures IsEntry(r.values[i], Comma)
      {
        assert r.values[i] in multiset(r.values);
        assert r.values[i] in multiset(values);
      }
      ListRoundTrip(r.values);
    }
  }

  /** Deleting from a sorted list gives exactly the list without that entry. */
  lemma DeleteFromSorted(values: seq<string>, i: nat, confirmed: bool)
    requires Sorted(values) && i < |values| && confirmed
    requires IsEntry(values[i], Comma)
    ensures DeletePreset(values, values[i], confirmed) == Updated(values[..i] + values[i + 1..], JoinList(values[..i] + values[i + 1..]))
  {
    var v := values[i];
    assert Strip(v) == v by {
      StripFixesStripped(v);
    }
    var expected := values[..i] + values[i + 1..];
    assert multiset(expected) == multiset(values) - multiset{v} by {
      assert values == values[..i] + [v] + values[i + 1..];
      assert multiset(values) == multiset(values[..i]) + multiset([v]) + multiset(values[i + 1..]);
    }
    SortedRemoveAt(values, i);
    var rest := Sort(RemoveFirst(values, v));
    assert rest == expected by {
      SortedPermutationUnique(rest, expected);
    }
  }

  // ---------------------------------------------------------------------
  // Merging the used values into the presets
  // ---------------------------------------------------------------------

  /** The entries of a stored preset string, as a set. */
  function PresetSet(value: string): (r: set<string>)
    ensures forall x :: x in r ==> IsEntry(x, Comma)
  {
    set x | x in ParseList(value)
  }

  datatype PresetSets = PresetSets(workCenters: set<string>, storageBins: set<string>)

  /** `update_hu_config`: the stored work centres and storage bins (or their
      fallbacks) gain the values just used. `UpdatedPresetsReload` shows
      what the file then holds. */
  function UpdatePresetSets(file: IniFile, workCenter: string, storageBin: string): (r: PresetSets)
    ensures workCenter in r.workCenters && storageBin in r.storageBins
    ensures forall x :: x in r.workCenters && x != workCenter ==> IsEntry(x, Comma)
    ensures forall x :: x in r.storageBins && x != storageBin ==> IsEntry(x, Comma)
  {
    var section := if HuSection in file then file[HuSection] else map[];
    var workCenters := PresetSet(Lookup(section, "work_center", FallbackWorkCenters));
    var storageBins := PresetSet(Lookup(section, "storage_bin", FallbackStorageBins));
    AddedToEntries(workCenters, workCenter);
    AddedToEntries(storageBins, storageBin);
    PresetSets(workCenters + {workCenter}, storageBins + {storageBin})
  }

  /** Adding one value to a set of proper entries leaves every other member proper. */
  lemma AddedToEntries(entries: set<string>, added: string)
    requires forall x :: x in entries ==> IsEntry(x, Comma)
    ensures forall x :: x in entries + {added} && x != added ==> IsEntry(x, Comma)
  {
  }

  /** `order` lists the members of `s`: the arbitrary iteration order of a
      Python set when it is joined. */
  ghost predicate Enumerates(order: seq<string>, s: set<string>) {
    forall x :: x in order <==> x in s
  }

  /** The file `update_hu_config` writes, given the iteration order of each
      set: the two keys are set to the joined listings, every other key of
      the HU section and every other section is kept. */
  function StoredPresets(file: IniFile, sets: PresetSets, wcOrder: seq<string>, sbOrder: seq<string>): (r: IniFile)
    requires Enumerates(wcOrder, sets.workCenters) && Enumerates(sbOrder, sets.storageBins)
    ensures HuSection in r && "work_center" in r[HuSection] && "storage_bin" in r[HuSection]
    ensures r[HuSection]["work_center"] == JoinList(wcOrder) && r[HuSection]["storage_bin"] == JoinList(sbOrder)
    ensures var before := if HuSection in file then file[HuSection] else map[];
      && r[HuSection].Keys == before.Keys + {"work_center", "storage_bin"}
      && forall key :: key in before && key != "work_center" && key != "storage_bin" ==> r[HuSection][key] == before[key]
    ensures forall name :: name in file && name != HuSection ==> name in r && r[name] == file[name]
  {
    var section := if HuSection in file then file[HuSection] else map[];
    file[HuSection := section["work_center" := JoinList(wcOrder)]["storage_bin" := JoinList(sbOrder)]]
  }

  lemma {:induction false} NonEmptyMembers(xs: seq<string>)
    ensures forall x :: x in NonEmpty(xs) <==> x in xs && x != []
  {
    if |xs| > 0 {
      NonEmptyMembers(xs[1..]);
      assert xs == [xs[0]] + xs[1..];
    }
  }

  /** The merged presets survive the round trip through the file, whatever
      order the set is written in: reading back gives the old entries plus
      the used value, a blank used value vanishing. The used value is
      stripped by the caller and must hold no comma to stay one entry. */
  lemma MergedPresetsReload(existing: string, used: string, order: seq<string>)
    requires IsStripped(used) && SepFree(used, Comma)
    requires Enumerates(order, PresetSet(existing) + {used})
    ensures PresetSet(JoinList(order)) == PresetSet(existing) + {used} - {""}
  {
    var merged := PresetSet(existing) + {used};
    forall x | x in merged
      ensures IsStripped(x) && SepFree(x, Comma)
    {
      if x != used {
        assert IsEntry(x, Comma);
      }
    }
    EnumeratedSetReload(order, merged);
  }

  /** `update_hu_config` end to end: reading back the section it writes gives
      the stored entries (or the fallbacks when a key is missing) plus the
      values just used, a blank used value vanishing, in any set order. */
  lemma UpdatedPresetsReload(file: IniFile, workCenter: string, storageBin: string, wcOrder: seq<string>, sbOrder: seq<string>)
    requires IsStripped(workCenter) && SepFree(workCenter, Comma)
    requires IsStripped(storageBin) && SepFree(storageBin, Comma)
    requires var sets := UpdatePresetSets(file, workCenter, storageBin);
      Enumerates(wcOrder, sets.workCenters) && Enumerates(sbOrder, sets.storageBins)
    ensures var before := if HuSection in file then file[HuSection] else map[];
      var after := StoredPresets(file, UpdatePresetSets(file, workCenter, storageBin), wcOrder, sbOrder)[HuSection];
      && PresetSet(after["work_center"]) == PresetSet(Lookup(before, "work_center", FallbackWorkCenters)) + {workCenter} - {""}
      && PresetSet(after["storage_bin"]) == PresetSet(Lookup(before, "storage_bin", FallbackStorageBins)) + {storageBin} - {""}
  {
    var before := if HuSection in file then file[HuSection] else map[];
    MergedPresetsReload(Lookup(before, "work_center", FallbackWorkCenters), workCenter, wcOrder);
    MergedPresetsReload(Lookup(before, "storage_bin", FallbackStorageBins), storageBin, sbOrder);
  }

  /** Any listing of a set of stripped, comma-free strings is read back as
      the set without its blank member. */
  lemma EnumeratedSetReload(order: seq<string>, merged: set<string>)
    requires forall x :: x in merged ==> IsStripped(x) && SepFree(x, Comma)
    requires Enumerates(order, merged)
    ensures PresetSet(JoinList(order)) == merged - {""}
  {
    assert forall i :: 0 <= i < |order| ==> IsStripped(order[i]) && SepFree(order[i], Comma) by {
      forall i | 0 <= i < |order|
        ensures IsStripped(order[i]) && SepFree(order[i], Comma)
      {
        assert order[i] in merged;
      }
    }
    JoinedPresetSet(order);
  }

  /** Writing a list of proper entries and reading it back gives its
      non-blank members. */
  lemma JoinedPresetSet(order: seq<string>)
    requires forall i :: 0 <= i < |order| ==> IsStripped(order[i]) && SepFree(order[i], Comma)
    ensures forall x :: x in PresetSet(JoinList(order)) <==> x in order && x != ""
  {
    ParseJoin(order);
    NonEmptyMembers(order);
  }

  // ---------------------------------------------------------------------
  // Session choice
  // ---------------------------------------------------------------------

  /** The session the dialog works in: "Nouvelle session" means the first
      existing session (no new session is opened); otherwise the label must
      map to a live session. */
  function SelectHuSession(choice: string, sessions: map<string, int>, count: nat): (r: Result<nat, HuError>)
    ensures r.Ok? ==> r.value < count
    ensures choice == Sessions.NewSessionLabel ==> (r.Ok? <==> count > 0) && (r.Ok? ==> r.value == 0)
    ensures choice != Sessions.NewSessionLabel ==>
      && (r.Ok? <==> choice in sessions && 0 <= sessions[choice] < count)
      && (r.Ok? ==> r.value == sessions[choice])
      && (choice !in sessions ==> r == Err(UnknownSession(choice)))
  {
    if choice == Sessions.NewSessionLabel then
      if count == 0 then Err(NoSessionAvailable) else Ok(0)
    else if choice !in sessions then Err(UnknownSession(choice))
    else
      var idx := sessions[choice];
      if idx < 0 || idx >= count then Err(SessionIndexOutOfRange(idx, count))
      else Ok(idx)
  }

  /** The dialog as written strips the chosen label before looking it up:
      only a label whose stripped form is a key selects a session. */
  function SelectHuSessionAsWritten(choiceInput: string, sessions: map<string, int>, count: nat): (r: Result<nat, HuError>)
    ensures r.Ok? ==> r.value < count
    ensures Strip(choiceInput) == Sessions.NewSessionLabel ==> (r.Ok? <==> count > 0) && (r.Ok? ==> r.value == 0)
    ensures Strip(choiceInput) != Sessions.NewSessionLabel ==>
      && (r.Ok? <==> Strip(choiceInput) in sessions && 0 <= sessions[Strip(choiceInput)] < count)
      && (r.Ok? ==> r.value == sessions[Strip(choiceInput)])
  {
    SelectHuSession(Strip(choiceInput), sessions, count)
  }

  /** As in the main window, a session with an empty title cannot be chosen. */
  lemma HuStrippedChoiceMissesLabel(titles: seq<Option<string>>, i: nat)
    requires i < |titles| && titles[i] == Some("")
    ensures var r := Sessions.Refresh(Some(titles), map[]);
      && r.display[i] in r.sessions
      && SelectHuSessionAsWritten(r.display[i], r.sessions, |titles|) == Err(UnknownSession(Sessions.TruncatedLabel(i)))
  {
    var r := Sessions.Refresh(Some(titles), map[]);
    Sessions.ShownLabel(titles, i);
    var choice := Strip(r.display[i]);
    assert choice == Sessions.TruncatedLabel(i) by {
      assert r.display[i] == Sessions.SessionLabel(i, "");
      Sessions.BlankTitleLabelStrip(i);
    }
    assert choice != Sessions.NewSessionLabel by {
      assert choice[0] == 'S' && Sessions.NewSessionLabel[0] == 'N';
    }
    assert choice !in r.sessions by {
      Sessions.TruncatedLabelUnmapped(titles, i);
    }
  }

  /** Taking the label as shown, every listed session can be chosen. */
  lemma HuDisplayedLabelSelectsItsSession(titles: seq<Option<string>>, i: nat)
    requires i < |titles|
    ensures var r := Sessions.Refresh(Some(titles), map[]);
      SelectHuSession(r.display[i], r.sessions, |titles|) == Ok(i)
  {
    Sessions.ShownLabel(titles, i);
  }

  // ---------------------------------------------------------------------
  // HU identifiers
  // ---------------------------------------------------------------------

  /** `count` empty identifiers, one per HU to be numbered by the backend
      (none when `count` is not positive). */
  function BlankIds(count: int): (r: seq<string>)
    ensures |r| == if count > 0 then count else 0
    ensures forall i :: 0 <= i < |r| ==> r[i] == ""
  {
    if count <= 0 then [] else BlankIds(count - 1) + [""]
  }

  /** The identifiers as written: for PAC0012 `count` blanks, otherwise the
      typed text split at commas and newlines. Only blank text is refused,
      so a text that is not blank may still give no identifier. */
  function HuIdsAsWritten(huType: string, count: int, rawText: string): (r: Result<seq<string>, HuError>)
    ensures huType == AutoNumberedType ==>
      r.Ok? && |r.value| == (if count > 0 then count else 0) && forall i :: 0 <= i < |r.value| ==> r.value[i] == ""
    ensures huType != AutoNumberedType ==>
      && (r.Ok? <==> Strip(rawText) != [])
      && (r.Ok? ==> r.value == ParseBy(rawText, Comma + Newline))
  {
    if huType == AutoNumberedType then Ok(BlankIds(count))
    else
      var raw := Strip(rawText);
      StripKeepsIds(rawText);
      if raw == [] then Err(NoHuEntered)
      else
        ParseHuTextSeparators(raw);
        Ok(ParseHuText(raw))
  }

  /** Text holding only separators passes the blank-text guard and yields no
      identifier at all, so nothing is created and nothing is reported. (The
      type and text are parameters so that the verifier does not evaluate the
      literals eagerly.) */
  lemma SeparatorsOnlyYieldNoIds(huType: string, rawText: string)
    requires huType == "PAC0011" && rawText == ","
    ensures HuIdsAsWritten(huType, 0, rawText) == Ok([])
  {
    var seps := Comma + Newline;
    assert !IsSpace(rawText[0]);
    assert [] + [','] + [] == rawText;
    ParseBySeparator([], ',', [], seps);
    ParseByEmpty(seps);
  }

  /** The identifiers, refusing text that holds no identifier: for PAC0012
      exactly `count` blanks; otherwise at least one non-blank identifier,
      each free of separators and surrounding whitespace, in typed order. */
  function HuIds(huType: string, count: int, rawText: string): (r: Result<seq<string>, HuError>)
    ensures huType == AutoNumberedType ==>
      r.Ok? && |r.value| == (if count > 0 then count else 0) && forall i :: 0 <= i < |r.value| ==> r.value[i] == ""
    ensures huType != AutoNumberedType ==>
      && (r.Ok? <==> ParseBy(rawText, Comma + Newline) != [])
      && (r.Ok? ==> r.value == ParseBy(rawText, Comma + Newline))
      && (r.Ok? ==> forall i :: 0 <= i < |r.value| ==> IsEntry(r.value[i], Comma + Newline))
  {
    if huType == AutoNumberedType then Ok(BlankIds(count))
    else
      var raw := Strip(rawText);
      StripKeepsIds(rawText);
      if raw == [] then Err(NoHuEntered)
      else
        var ids := ParseHuText(raw);
        ParseHuTextSeparators(raw);
        if ids == [] then Err(NoHuEntered) else Ok(ids)
  }

  /** Stripping the text first changes no identifier; blank text has none. */
  lemma StripKeepsIds(rawText: string)
    ensures ParseBy(Strip(rawText), Comma + Newline) == ParseBy(rawText, Comma + Newline)
    ensures Strip(rawText) == [] ==> ParseBy(rawText, Comma + Newline) == []
  {
    var seps := Comma + Newline;
    var l := LStrip(rawText);
    var k := |rawText| - |l|;
    assert rawText[k..] == l;
    LeadingSpacesKeepIds(rawText, k, seps);
    var r := RStrip(l);
    assert l[..|r|] == r && Strip(rawText) == r;
    TrailingSpacesKeepIds(l, |r|, seps);
    if r == [] {
      ParseByEmpty(seps);
    }
  }

  /** Dropping leading whitespace (newlines included) changes no identifier. */
  lemma {:induction false} LeadingSpacesKeepIds(s: string, k: nat, seps: set<char>)
    requires k <= |s| && forall j :: 0 <= j < k ==> IsSpace(s[j])
    ensures ParseBy(s[k..], seps) == ParseBy(s, seps)
  {
    if k > 0 {
      var c := s[0];
      var t := s[1..];
      assert s == [c] + t;
      assert t[k - 1..] == s[k..];
      assert IsSpace(c);
      LeadingSpacesKeepIds(t, k - 1, seps);
      DropLeadingChar(c, t, seps);
    }
  }

  lemma DropLeadingChar(c: char, t: string, seps: set<char>)
    requires IsSpace(c)
    ensures ParseBy([c] + t, seps) == ParseBy(t, seps)
  {
    if c in seps {
      ParseByLeadingSeparator(c, t, seps);
    } else {
      ParseByLeadingSpace(c, t, seps);
    }
  }

  /** Dropping trailing whitespace (newlines included) changes no identifier. */
  lemma {:induction false} TrailingSpacesKeepIds(s: string, n: nat, seps: set<char>)
    requires n <= |s| && forall j :: n <= j < |s| ==> IsSpace(s[j])
    ensures ParseBy(s[..n], seps) == ParseBy(s, seps)
  {
    if n < |s| {
      var m := |s| - 1;
      var c := s[m];
      var t := s[..m];
      assert s == t + [c];
      assert t[..n] == s[..n];
      assert IsSpace(c);
      TrailingSpacesKeepIds(t, n, seps);
      DropTrailingChar(t, c, seps);
    } else {
      assert s[..n] == s;
    }
  }

  lemma DropTrailingChar(t: string, c: char, seps: set<char>)
    requires IsSpace(c)
    ensures ParseBy(t + [c], seps) == ParseBy(t, seps)
  {
    if c in seps {
      ParseByTrailingSeparator(t, c, seps);
    } else {
      ParseByTrailingSpace(t, c, seps);
    }
  }
}
