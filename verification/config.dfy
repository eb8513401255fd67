/** The settings file and the favourites list: `load_config`, `save_config`
    and `MainApp.add_transaction_to_list`. The file is a map from section
    name to a map from key to value string; only the value strings are
    decoded here. */
module Config {
  import opened Outcomes
  import opened PyText
  import opened ListCodec

  type Section = map<string, string>
  type IniFile = map<string, Section>

  const DefaultSaplogonPath := "C:\\Program Files\\SAP\\FrontEnd\\SAPGUI\\saplogon.exe"
  const DefaultEnvironment := "1075 PW1 - EWM Production with SSO"
  /** The three transactions the default files mention: the warehouse
      monitor, packaging specifications and warehouse product master. */
  const MonitorCode := "/n/scwm/mon"
  const PackSpecCode := "/n/scwm/packspec"
  const ProductCode := "/n/scwm/mat1"
  /** The favourites written into a freshly created file:
      "/n/scwm/mon, /n/scwm/packspec, /n/scwm/mat1". */
  const DefaultFavourites := MonitorCode + ", " + PackSpecCode + ", " + ProductCode
  /** The favourites assumed when the key is missing from an existing file:
      "/n/scwm/mon,/n/scwm/packspec". */
  const FallbackFavourites := MonitorCode + "," + PackSpecCode
  const DefaultVersion := "1.0.0"

  /** The sections the main window reads and writes. */
  const ManagedSections: set<string> := {"SAP", "Transactions", "App"}

  /** The file created when none exists. */
  const DefaultFile: IniFile := map[
    "SAP" := map["saplogon_path" := DefaultSaplogonPath, "sap_environment" := DefaultEnvironment],
    "Transactions" := map["favorites" := DefaultFavourites],
    "App" := map["version" := DefaultVersion]]

  datatype Settings = Settings(saplogonPath: string, sapEnvironment: string, favourites: seq<string>, version: string)

  /** Reading a section the file lacks raises KeyError. */
  datatype ConfigError = MissingSection(name: string)

  /** `section.get(key, fallback)`. */
  function Lookup(section: Section, key: string, fallback: string): string {
    if key in section then section[key] else fallback
  }

  /** The file as `load_config` reads it: a missing file is created first. */
  function FileOnDisk(file: Option<IniFile>): IniFile {
    file.GetOr(DefaultFile)
  }

  /** `load_config`: every setting falls back to its default when its key is
      missing; a missing section is an error. */
  function LoadConfig(file: Option<IniFile>): (r: Result<Settings, ConfigError>)
    ensures r.Ok? <==> "SAP" in FileOnDisk(file) && "Transactions" in FileOnDisk(file) && "App" in FileOnDisk(file)
    ensures r.Ok? ==> forall i :: 0 <= i < |r.value.favourites| ==> IsEntry(r.value.favourites[i], Comma)
    ensures r.Ok? ==> var f := FileOnDisk(file);
      && ("saplogon_path" in f["SAP"] ==> r.value.saplogonPath == f["SAP"]["saplogon_path"])
      && ("saplogon_path" !in f["SAP"] ==> r.value.saplogonPath == DefaultSaplogonPath)
      && ("sap_environment" in f["SAP"] ==> r.value.sapEnvironment == f["SAP"]["sap_environment"])
      && ("sap_environment" !in f["SAP"] ==> r.value.sapEnvironment == DefaultEnvironment)
      && ("favorites" in f["Transactions"] ==> r.value.favourites == ParseList(f["Transactions"]["favorites"]))
      && ("favorites" !in f["Transactions"] ==> r.value.favourites == [MonitorCode, PackSpecCode])
      && ("version" in f["App"] ==> r.value.version == f["App"]["version"])
      && ("version" !in f["App"] ==> r.value.version == DefaultVersion)
  {
    var f := FileOnDisk(file);
    FallbackFavouritesExample();
    if "SAP" !in f then Err(MissingSection("SAP"))
    else if "Transactions" !in f then Err(MissingSection("Transactions"))
    else if "App" !in f then Err(MissingSection("App"))
    else
      Ok(Settings(
        Lookup(f["SAP"], "saplogon_path", DefaultSaplogonPath),
        Lookup(f["SAP"], "sap_environment", DefaultEnvironment),
        ParseList(Lookup(f["Transactions"], "favorites", FallbackFavourites)),
        Lookup(f["App"], "version", DefaultVersion)))
  }

  /** The three sections `save_config` writes for `s`. */
  function SettingsSections(s: Settings): map<string, Section> {
    map[
      "SAP" := map["saplogon_path" := s.saplogonPath, "sap_environment" := s.sapEnvironment],
      "Transactions" := map["favorites" := JoinList(s.favourites)],
      "App" := map["version" := s.version]]
  }

  /** `save_config` as written: a fresh parser holding only the three
      managed sections replaces the whole file. */
  function SaveConfigAsWritten(s: Settings): (r: IniFile)
    ensures r.Keys == ManagedSections
  {
    SettingsSections(s)
  }

  /** The save the program runs also round-trips: loading what it wrote
      gives back the settings, for proper favourites. */
  lemma SaveAsWrittenLoadRoundTrip(s: Settings)
    requires forall i :: 0 <= i < |s.favourites| ==> IsEntry(s.favourites[i], Comma)
    ensures LoadConfig(Some(SaveConfigAsWritten(s))) == Ok(s)
  {
    assert SaveConfigAsWritten(s) == SaveConfig(map[], s);
    SaveLoadRoundTrip(map[], s);
  }

  /** `save_config` writing into the file it found: the managed sections
      are replaced and every other section (the HU presets) is kept. */
  function SaveConfig(previous: IniFile, s: Settings): (r: IniFile)
    ensures r.Keys == previous.Keys + ManagedSections
    ensures forall name :: name in previous && name !in ManagedSections ==> r[name] == previous[name]
  {
    previous + SettingsSections(s)
  }

  /** Saving then loading gives back the settings, provided every favourite
      is a proper list entry (non-empty, stripped, comma-free). */
  lemma SaveLoadRoundTrip(previous: IniFile, s: Settings)
    requires forall i :: 0 <= i < |s.favourites| ==> IsEntry(s.favourites[i], Comma)
    ensures LoadConfig(Some(SaveConfig(previous, s))) == Ok(s)
  {
    var f := SaveConfig(previous, s);
    var sections := SettingsSections(s);
    assert f["SAP"] == sections["SAP"] && f["Transactions"] == sections["Transactions"] && f["App"] == sections["App"];
    assert Lookup(f["SAP"], "saplogon_path", DefaultSaplogonPath) == s.saplogonPath;
    assert Lookup(f["SAP"], "sap_environment", DefaultEnvironment) == s.sapEnvironment;
    assert Lookup(f["Transactions"], "favorites", FallbackFavourites) == JoinList(s.favourites);
    assert Lookup(f["App"], "version", DefaultVersion) == s.version;
    ListRoundTrip(s.favourites);
  }

  /** Load, save, load: the second load sees what the first one saw. */
  lemma LoadSaveLoad(file: IniFile)
    requires LoadConfig(Some(file)).Ok?
    ensures LoadConfig(Some(SaveConfig(file, LoadConfig(Some(file)).value))) == LoadConfig(Some(file))
  {
    SaveLoadRoundTrip(file, LoadConfig(Some(file)).value);
  }

  /** The same for the save the program runs: loading, saving as written and
      loading again gives the same settings. */
  lemma LoadSaveAsWrittenLoad(file: IniFile)
    requires LoadConfig(Some(file)).Ok?
    ensures LoadConfig(Some(SaveConfigAsWritten(LoadConfig(Some(file)).value))) == LoadConfig(Some(file))
  {
    SaveAsWrittenLoadRoundTrip(LoadConfig(Some(file)).value);
  }

  /** The as-written save forgets every section it does not manage, so HU
      presets stored in the file are gone after any favourites or connection save. */
  lemma SaveAsWrittenDropsHuSection(previous: IniFile, s: Settings)
    requires "HU" in previous
    ensures "HU" !in SaveConfigAsWritten(s)
    ensures "HU" in SaveConfig(previous, s) && SaveConfig(previous, s)["HU"] == previous["HU"]
  {
  }

  /** The settings a fresh installation starts with. */
  const DefaultSettings := Settings(DefaultSaplogonPath, DefaultEnvironment,
    [MonitorCode, PackSpecCode, ProductCode], DefaultVersion)

  /** The file created on first run is the one saving the default settings writes. */
  lemma DefaultFileIsSaved()
    ensures DefaultFile == SaveConfig(map[], DefaultSettings)
  {
    JoinThree(MonitorCode, PackSpecCode, ProductCode);
  }

  /** First run: with no file, the defaults are written and loaded back,
      giving the three default favourite transactions. */
  lemma FirstRunDefaults()
    ensures LoadConfig(None) == Ok(DefaultSettings)
  {
    EntryExamples(MonitorCode, PackSpecCode, ProductCode);
    DefaultFileIsSaved();
    SaveLoadRoundTrip(map[], DefaultSettings);
  }

  lemma JoinThree(a: string, b: string, c: string)
    ensures JoinList([a, b, c]) == a + ListSeparator + b + ListSeparator + c
  {
    assert [a, b, c][1..] == [b, c];
    assert [b, c][1..] == [c];
    assert JoinWith([c], ListSeparator) == c;
    assert JoinWith([b, c], ListSeparator) == b + ListSeparator + c;
  }

  lemma JoinTwo(a: string, b: string)
    ensures JoinList([a, b]) == a + ListSeparator + b
  {
    assert [a, b][1..] == [b];
    assert JoinWith([b], ListSeparator) == b;
  }

  /** The default transactions are proper list entries. (The strings are
      parameters so that the verifier does not evaluate them eagerly.) */
  lemma EntryExamples(a: string, b: string, c: string)
    requires a == MonitorCode && b == PackSpecCode && c == ProductCode
    ensures IsEntry(a, Comma) && IsEntry(b, Comma) && IsEntry(c, Comma)
  {
  }

  /** The worked example: the stored string `/n/scwm/mon, /n/scwm/packspec`
      loads as two favourites, and adding `/n/scwm/mat1` saves the three
      joined by ", ", which is the default favourites string. */
  lemma FavouritesExample()
    ensures ParseList(MonitorCode + ", " + PackSpecCode) == [MonitorCode, PackSpecCode]
    ensures JoinList(AddFavourite([MonitorCode, PackSpecCode], ProductCode)) == DefaultFavourites
  {
    var xs := [MonitorCode, PackSpecCode];
    EntryExamples(MonitorCode, PackSpecCode, ProductCode);
    JoinTwo(MonitorCode, PackSpecCode);
    ListRoundTrip(xs);
    assert ProductCode !in xs by {
      assert |ProductCode| != |MonitorCode| && |ProductCode| != |PackSpecCode|;
    }
    AppendNewFavourite(xs, ProductCode);
    assert xs + [ProductCode] == [MonitorCode, PackSpecCode, ProductCode];
    JoinThree(MonitorCode, PackSpecCode, ProductCode);
  }

  /** A proper entry that is not listed yet is appended as it is. */
  lemma AppendNewFavourite(xs: seq<string>, added: string)
    requires IsEntry(added, Comma) && added !in xs
    ensures AddFavourite(xs, added) == xs + [added]
  {
    StripFixesStripped(added);
  }

  /** A file whose Transactions section lacks the favourites key loads the
      two fallback transactions, and reads every other setting as usual. */
  lemma LoadFallbackFavourites(file: IniFile)
    requires "SAP" in file && "Transactions" in file && "App" in file
    requires "favorites" !in file["Transactions"]
    ensures LoadConfig(Some(file)).Ok?
    ensures LoadConfig(Some(file)).value.favourites == [MonitorCode, PackSpecCode]
  {
    FallbackFavouritesExample();
  }

  /** The fallback favourites string parses to two transactions. */
  lemma FallbackFavouritesExample()
    ensures ParseList(FallbackFavourites) == [MonitorCode, PackSpecCode]
  {
    EntryExamples(MonitorCode, PackSpecCode, ProductCode);
    ParsePair(MonitorCode, PackSpecCode);
    assert FallbackFavourites == MonitorCode + [','] + PackSpecCode;
  }

  /** Entries joined by a bare comma parse back as well. */
  lemma ParsePair(first: string, second: string)
    requires IsEntry(first, Comma) && IsEntry(second, Comma)
    ensures ParseList(first + [','] + second) == [first, second]
  {
    ParseBySeparator(first, ',', second, Comma);
    ParseBySepFree(first, Comma);
    ParseBySepFree(second, Comma);
    StripFixesStripped(first);
    StripFixesStripped(second);
  }

  /** No value occurs twice. */
  predicate Distinct(xs: seq<string>) {
    forall i, j :: 0 <= i < j < |xs| ==> xs[i] != xs[j]
  }

  /** The list update of `add_transaction_to_list`: the stripped input is
      appended when it is non-blank and not yet listed; otherwise the list
      is left alone. Earlier entries never move. */
  function AddFavourite(favourites: seq<string>, input: string): (r: seq<string>)
    ensures |r| == |favourites| || |r| == |favourites| + 1
    ensures r[..|favourites|] == favourites
    ensures |r| == |favourites| + 1 <==> Strip(input) != [] && Strip(input) !in favourites
    ensures |r| == |favourites| + 1 ==> r[|favourites|] == Strip(input)
  {
    var code := Strip(input);
    if code != [] && code !in favourites then favourites + [code] else favourites
  }

  /** Adding a favourite keeps a duplicate-free list duplicate-free. */
  lemma AddFavouriteKeepsDistinct(favourites: seq<string>, input: string)
    requires Distinct(favourites)
    ensures Distinct(AddFavourite(favourites, input))
  {
    var r := AddFavourite(favourites, input);
    if |r| > |favourites| {
      forall i, j | 0 <= i < j < |r|
        ensures r[i] != r[j]
      {
        if j == |favourites| {
          assert r[i] == favourites[i];
          assert favourites[i] in favourites;
        } else {
          assert r[i] == favourites[i] && r[j] == favourites[j];
        }
      }
    }
  }

  /** `add_transaction_to_list` as written: when the list grew, the file is
      replaced by the as-written save, which keeps only the managed sections;
      otherwise nothing is written. */
  function AddTransaction(s: Settings, input: string, file: IniFile): (r: (Settings, IniFile))
    ensures r.0 == s.(favourites := AddFavourite(s.favourites, input))
    ensures r.0 == s ==> r.1 == file
    ensures r.0 != s ==>
      && r.1.Keys == ManagedSections
      && "favorites" in r.1["Transactions"]
      && r.1["Transactions"]["favorites"] == JoinList(r.0.favourites)
  {
    var favourites := AddFavourite(s.favourites, input);
    if favourites == s.favourites then (s, file)
    else
      var s' := s.(favourites := favourites);
      (s', SaveConfigAsWritten(s'))
  }

  /** The same handler with the corrected save: every section other than
      the managed ones survives an addition. */
  function AddTransactionKeepingSections(s: Settings, input: string, file: IniFile): (r: (Settings, IniFile))
    ensures r.0 == s.(favourites := AddFavourite(s.favourites, input))
    ensures r.0 == s ==> r.1 == file
    ensures r.0 != s ==>
      && "Transactions" in r.1 && "favorites" in r.1["Transactions"]
      && r.1["Transactions"]["favorites"] == JoinList(r.0.favourites)
    ensures forall name :: name in file && name !in ManagedSections ==> name in r.1 && r.1[name] == file[name]
  {
    var favourites := AddFavourite(s.favourites, input);
    if favourites == s.favourites then (s, file)
    else
      var s' := s.(favourites := favourites);
      (s', SaveConfig(file, s'))
  }

  /** Adding a new favourite as written deletes the HU presets from the
      file; the corrected handler keeps them. */
  lemma AddingFavouriteDropsHuSection(s: Settings, input: string, file: IniFile)
    requires "HU" in file
    requires Strip(input) != [] && Strip(input) !in s.favourites
    ensures "HU" !in AddTransaction(s, input, file).1
    ensures var kept := AddTransactionKeepingSections(s, input, file).1;
      "HU" in kept && kept["HU"] == file["HU"]
  {
    var r := AddTransaction(s, input, file);
    assert |r.0.favourites| == |s.favourites| + 1;
  }

  /** An added favourite persists: after the save, loading the file gives the
      extended list, provided the new code contains no comma. */
  lemma AddedFavouritePersists(s: Settings, input: string, file: IniFile)
    requires forall i :: 0 <= i < |s.favourites| ==> IsEntry(s.favourites[i], Comma)
    requires SepFree(Strip(input), Comma)
    ensures var r := AddTransaction(s, input, file);
      r.0 != s ==> LoadConfig(Some(r.1)) == Ok(r.0)
  {
    var r := AddTransaction(s, input, file);
    var xs := r.0.favourites;
    if r.0 != s {
      forall i | 0 <= i < |xs|
        ensures IsEntry(xs[i], Comma)
      {
        if i < |s.favourites| {
          assert xs[i] == s.favourites[i];
        }
      }
      SaveAsWrittenLoadRoundTrip(r.0);
    }
  }

  /** The connection dialog's save button: the path and environment typed
      are kept in the settings and written with the as-written save. */
  function SaveConnection(s: Settings, path: string, environment: string): (r: (Settings, IniFile))
    ensures r.0.saplogonPath == path && r.0.sapEnvironment == environment
    ensures r.0.favourites == s.favourites && r.0.version == s.version
    ensures r.1.Keys == ManagedSections
  {
    var s' := s.(saplogonPath := path, sapEnvironment := environment);
    (s', SaveConfigAsWritten(s'))
  }

  /** The next load reads back the connection settings just saved, with the
      favourites unchanged, provided they are proper entries. */
  lemma SavedConnectionReloads(s: Settings, path: string, environment: string)
    requires forall i :: 0 <= i < |s.favourites| ==> IsEntry(s.favourites[i], Comma)
    ensures var r := SaveConnection(s, path, environment);
      LoadConfig(Some(r.1)) == Ok(s.(saplogonPath := path, sapEnvironment := environment))
  {
    SaveAsWrittenLoadRoundTrip(SaveConnection(s, path, environment).0);
  }
}
