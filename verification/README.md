# sap_auto decision logic in Dafny

`sap_auto` is a desktop launcher for an SAP EWM GUI client. It keeps
favourite transactions and connection settings in `config.ini`. It lists
the client's open sessions as "Session i - title" and types transaction
codes into them. It also drives a handling-unit (HU) creation screen.
The client's scripting API is out of reach of a proof. This project
models the decisions the launcher makes around those calls:

- **TransactionCode**: how a transaction code is rewritten. A code sent
  to a new session gets the `/o` form; a code sent to an existing session
  gets the `/n` form.
- **ListCodec**: the comma-list codec behind the favourites and the HU
  presets. Parsing splits at commas, strips the pieces and drops blank
  ones. Serialising joins with `", "`. The HU-identifier variant also
  splits at newlines.
- **Config**: loading and saving `config.ini`, and adding a favourite.
  The file is a map from section to a map from key to value.
- **Sessions**: rebuilding the session list, looking up the connection,
  and dispatching a launch. The launch is modelled as the trace of
  actions it performs on sessions plus the error it raises, if any.
- **HuCreation**: the HU dialog. This covers the sorted preset lists,
  deleting a preset, merging used values into the stored presets,
  choosing the session, and the list of HU identifiers to create.
- **PyText**, **StrOrder**, **Outcomes**: the Python string built-ins,
  Python's ordering of strings and `sorted`, and Option/Result.

A window whose title cannot be read is passed in as `None`. A connection
that cannot be reached is passed in as `None` too. Session counts
observed before and after a command are plain parameters. Python's set
iteration order is an arbitrary listing of the set.

Only adding a favourite checks for duplicates; loading keeps whatever
the file lists. So `Config.LoadConfig` does not deduplicate, and
`Config.AddFavouriteKeepsDistinct` proves that adding keeps a
duplicate-free list duplicate-free.

## Model

| member | source | states |
|---|---|---|
| `TransactionCode.OpenInNewSession` | main_app.py:130-133 | The code sent for a new session always begins with `/o`. |
| `TransactionCode.OpenInNewSessionCases` | main_app.py:130-133 | `/n…` becomes `/o…`. `/o…` is kept. A code with no leading slash is prefixed with `/o`. |
| `TransactionCode.OpenInNewSessionSlashLed` | main_app.py:132-133 | Any other slash-led code loses its whole run of leading slashes before `/o` is put in front. |
| `TransactionCode.OpenInNewSessionIdempotent` | main_app.py:130-133 | Rewriting an already rewritten code changes nothing. |
| `TransactionCode.ExecuteHere` | main_app.py:149-150 | The code sent to an existing session starts with `/`. It is unchanged exactly when it already started with `/`; a bare code gets `/n` in front. |
| `TransactionCode.ExecuteHereIdempotent` | main_app.py:149-150 | Applying the existing-session rewrite twice equals applying it once. |
| `TransactionCode.RewritesAgree` | main_app.py:130-150 | Going through the `/n` form first gives the same new-session command, so both paths name the same transaction. |
| `TransactionCode.BareCodeExample` | main_app.py:130-150 | `scwm/mon` becomes `/oscwm/mon` for a new session and `/nscwm/mon` for an existing one. |
| `PyText.Strip` | main_app.py:37 | Python `strip()`: the result has no whitespace at either end, keeps only characters of the input, and is empty exactly when the input is blank. |
| `PyText.StripStart` | main_app.py:37 | The start of the text is the end of the leading whitespace run: everything before it is whitespace, and the character at it is not. |
| `PyText.StripIsSlice` | main_app.py:37 | The stripped text is the slice of the input from the start of the text, and everything after that slice is whitespace. |
| `PyText.StripFixesStripped` | main_app.py:37 | Strip leaves a string unchanged exactly when the string has no whitespace at either end. |
| `PyText.StripSkipsTrailingSpace` | main_app.py:319 | Trailing whitespace never survives a strip. |
| `PyText.Split` | main_app.py:36 | Python `split`: at least one piece, and no piece contains a separator. |
| `PyText.JoinSplit` | main_app.py:36 | Joining the pieces of a one-character split with that character gives back the string. |
| `PyText.LStripChar` | main_app.py:133 | `lstrip("/")` removes exactly the maximal run of leading slashes. |
| `PyText.ReplaceChar` | main_app.py:554 | Each comma becomes a newline; every other character stays in place. |
| `PyText.DecimalRoundTrip` | main_app.py:289 | The printed session index reads back as the index. |
| `PyText.DecimalInjective` | main_app.py:289 | Different session indexes print differently. |
| `StrOrder.BelowTotal` | main_app.py:366 | Python's string order relates any two strings. |
| `StrOrder.BelowAntisymmetric` | main_app.py:366 | Two strings that are each below the other are equal. |
| `StrOrder.BelowTransitive` | main_app.py:366 | Python's string order is transitive. |
| `StrOrder.Sort` | main_app.py:366-368 | Python `sorted`: the result is ordered and is a permutation of the input. |
| `StrOrder.SortedPermutationUnique` | main_app.py:425 | Two sorted permutations of the same entries are equal, so `sorted` has only one possible result. |
| `StrOrder.SortedRemoveAt` | main_app.py:423-425 | Removing one entry from a sorted list leaves it sorted. |
| `ListCodec.ParseBy` | main_app.py:36-37 | Every parsed entry is non-empty, has no surrounding whitespace and holds no separator. |
| `ListCodec.ParseList` | main_app.py:36-37 | The comma parser yields only proper entries. |
| `ListCodec.ParseBySeparator` | main_app.py:36-37 | Parsing text around a comma gives the entries before it followed by the entries after it. |
| `ListCodec.ParseByLeadingSeparator` | main_app.py:36-37 | A comma in front of the text adds no entry. |
| `ListCodec.ParseByTrailingSeparator` | main_app.py:36-37 | A comma at the end of the text adds no entry. |
| `ListCodec.ParseBySepFree` | main_app.py:36-37 | Text without a comma parses to its stripped self, or to nothing when blank. |
| `ListCodec.ParseByLeadingSpace` | main_app.py:37 | Leading whitespace adds or changes no entry. |
| `ListCodec.ParseByTrailingSpace` | main_app.py:37 | Trailing whitespace adds or changes no entry. |
| `ListCodec.JoinListEnds` | main_app.py:51 | The joined text starts with the first entry and ends with the last one; no entry gives the empty text. |
| `ListCodec.ParseJoin` | main_app.py:51 | Joining stripped, comma-free strings with `", "` and parsing the result (lines 36-37) gives back the non-empty ones, in order. |
| `ListCodec.ListRoundTrip` | main_app.py:51 | A list of proper entries survives the join and the parse of lines 36-37 unchanged. |
| `ListCodec.ParseJoinParse` | main_app.py:36-37 | Parsing, joining and parsing again gives the first parse. |
| `ListCodec.ParseHuText` | main_app.py:554 | Every HU identifier is non-empty, stripped and free of commas and newlines. |
| `ListCodec.ParseHuTextSeparators` | main_app.py:554 | Turning commas into newlines and splitting at newlines is the same as splitting at both. |
| `Config.LoadConfig` | main_app.py:13-41 | Loading succeeds exactly when the SAP, Transactions and App sections exist. Each setting is the file's value when its key is present and its default otherwise; the favourites are the parsed entries of the stored string, or `/n/scwm/mon` and `/n/scwm/packspec` when the key is missing. They are always proper entries. |
| `Config.SaveConfigAsWritten` | main_app.py:43-57 | The file written holds exactly the SAP, Transactions and App sections. |
| `Config.SaveAsWrittenLoadRoundTrip` | main_app.py:43-57 | Loading the file the program's save writes gives back the saved settings, provided the favourites are proper entries. |
| `Config.SaveConfig` | main_app.py:43-57 | Corrected save: the three managed sections are written and every other section is kept as it was. |
| `Config.SaveAsWrittenDropsHuSection` | main_app.py:43-57 | An existing HU section is gone after the save as written and kept by the corrected save. |
| `Config.SaveLoadRoundTrip` | main_app.py:43-57 | Loading a saved file gives back the saved settings, provided the favourites are proper entries. |
| `Config.LoadSaveLoad` | main_app.py:13-57 | With the corrected save, saving what was loaded and loading again gives the same settings. |
| `Config.LoadSaveAsWrittenLoad` | main_app.py:13-57 | With the save the program runs, saving what was loaded and loading again gives the same settings. |
| `Config.DefaultFileIsSaved` | main_app.py:16-29 | The file created on first run is the file a save of the default settings writes. |
| `Config.FirstRunDefaults` | main_app.py:16-41 | With no file, loading yields the default path, environment, version and three favourite transactions. |
| `Config.LoadFallbackFavourites` | main_app.py:36 | A file whose Transactions section lacks the favourites key loads, with the favourites `/n/scwm/mon` and `/n/scwm/packspec`. |
| `Config.ParsePair` | main_app.py:36-37 | Two proper entries joined by a bare comma parse back as those two entries. |
| `Config.AddFavourite` | main_app.py:308-310 | Earlier favourites never move. The list grows by one exactly when the stripped input is non-blank and not yet listed, and then the new last entry is the stripped input. |
| `Config.AppendNewFavourite` | main_app.py:308-310 | A proper entry not yet listed is appended unchanged. |
| `Config.AddFavouriteKeepsDistinct` | main_app.py:309-310 | Adding a favourite keeps a duplicate-free list duplicate-free. |
| `Config.AddTransaction` | main_app.py:306-315 | Only the favourites change. The file is rewritten only when the list grew; then it holds just the three managed sections, with the joined list as favourites. |
| `Config.AddTransactionKeepingSections` | main_app.py:306-315 | Corrected handler: the same settings, and a rewritten file that keeps every section other than the managed ones. |
| `Config.AddingFavouriteDropsHuSection` | main_app.py:306-312 | Adding a new favourite deletes the HU section from the file; the corrected handler keeps it unchanged. |
| `Config.AddedFavouritePersists` | main_app.py:306-312 | After an addition, loading the file gives the extended list, provided the new code has no comma. |
| `Config.SaveConnection` | main_app.py:219-222 | The typed path and environment replace the old ones, the favourites and version are kept, and the file holds just the managed sections. |
| `Config.SavedConnectionReloads` | main_app.py:219-222 | When the favourites are proper entries, the next load reads back the new path and environment, with the favourites and version unchanged. |
| `Config.FavouritesExample` | main_app.py:306-312 | `/n/scwm/mon, /n/scwm/packspec` loads as two favourites; adding `/n/scwm/mat1` stores the default favourites string. |
| `Sessions.FindConnection` | main_app.py:100-107 | Returns the first connection whose name or description contains the environment name, or None when no connection does. |
| `Sessions.SessionLabelParts` | main_app.py:289 | A label reads "Session ", then the index in decimal (at least one digit), then " - " and the window title. |
| `Sessions.WindowTitle` | main_app.py:285-288 | A readable title is listed as it is; an unreadable one as "(Sans titre)". |
| `Sessions.LabelDeterminesIndex` | main_app.py:289 | Two session labels that are equal have the same index, whatever the titles. |
| `Sessions.SessionDisplay` | main_app.py:283-293 | One label per live session, in order, followed by "Nouvelle session". |
| `Sessions.SessionMap` | main_app.py:280-291 | The map has one key per live session. Each session's label maps to its index, and every key is the label of its index. |
| `Sessions.NewSessionLabelUnmapped` | main_app.py:291-293 | "Nouvelle session" is never a key of the map. |
| `Sessions.Refresh` | main_app.py:274-304 | After a refresh, the i-th listed label is session i's label built from its window title, each listed label maps to its own session, and the first entry is selected. When the connection fails, only "Nouvelle session" is offered. |
| `Sessions.LaunchTransaction` | main_app.py:117-153 | A new-session launch succeeds exactly when some session exists and the count grew. It first submits the `/o` form of the code to session 0; when no new session then appears, that single submission is all that is done and NewSessionNotCreated is raised, and on success it maximises the last session. With no session at all, nothing is done and NoSessionToOpenFrom is raised. Any other choice succeeds exactly when it maps to a live index; it then maximises that session and submits the `/n` form there, and does nothing else. A label missing from the map raises UnknownSession, and an index outside the live sessions raises SessionIndexOutOfRange, both with no action. |
| `Sessions.NoSilentFallback` | main_app.py:143-144 | An unknown label fails with UnknownSession and touches no session. |
| `Sessions.RefreshedLabelTargetsItsSession` | main_app.py:143-153 | Choosing the label of session i right after a refresh maximises session i and submits the `/n` form there. |
| `Sessions.StaleLabelFails` | main_app.py:145-147 | If a session closed after the refresh, its label fails with an index error and reaches no other session. |
| `Sessions.OnLaunchAsWritten` | main_app.py:317-332 | The launch is refused as a missing transaction exactly when the code is blank; otherwise the stripped code and the stripped choice are launched. |
| `Sessions.StrippedChoiceMissesLabel` | main_app.py:319 | With the choice stripped, a listed session whose title is empty cannot be launched into: the launch fails with UnknownSession. |
| `Sessions.TruncatedLabelIsNoLabel` | main_app.py:289 | "Session i -" is never the label of any session. |
| `Sessions.OnLaunch` | main_app.py:317-332 | Corrected click handler: the launch is refused as a missing transaction exactly when the code is blank; otherwise the stripped code is launched with the choice as displayed. |
| `Sessions.DisplayedLabelReachesItsSession` | main_app.py:317-332 | With the choice taken as displayed, every listed session can be launched into, whatever its title. |
| `HuCreation.SortedPresets` | main_app.py:366-368 | Each offered preset list is sorted, is a permutation of the parsed entries, and holds only proper entries. |
| `HuCreation.OpenHuDialog` | main_app.py:355-368 | A missing HU section is created with the three defaults. A present section is read as it is, and the dialog opens exactly when that section has all three keys. Each list offered is the sorted entries of its stored value. |
| `HuCreation.PresetsLostAfterSettingsSave` | main_app.py:355-361 | After a save as written, the dialog offers the default presets whatever was stored before. |
| `HuCreation.PresetsKeptAfterSettingsSave` | main_app.py:355-368 | After the corrected save, the dialog offers the same presets as before it. |
| `HuCreation.RemoveFirst` | main_app.py:422-423 | `list.remove` under its membership guard drops exactly one occurrence of a listed value and leaves the list alone otherwise. |
| `HuCreation.DeletePreset` | main_app.py:416-431 | Nothing changes exactly when the value is blank, not confirmed, or not listed. Otherwise the stored list is sorted, one entry shorter, and has the value removed once. |
| `HuCreation.DeletedPresetsReload` | main_app.py:425-427 | What a deletion stores reads back as the list the dialog shows. |
| `HuCreation.DeleteFromSorted` | main_app.py:421-427 | Deleting an entry from a sorted list gives exactly the list without that position. |
| `HuCreation.PresetSet` | main_app.py:576-577 | The set built from a stored value holds only proper entries. |
| `HuCreation.UpdatePresetSets` | main_app.py:570-579 | The values just used are in the merged sets, and every other member is a proper entry. |
| `HuCreation.StoredPresets` | main_app.py:580-583 | The two preset keys hold the joined listings; every other key of the HU section and every other section is kept. |
| `HuCreation.UpdatedPresetsReload` | main_app.py:570-583 | Reading back what the update writes gives the stored entries (or the fallbacks when a key is missing) plus the values just used, a blank used value vanishing, in any set order. |
| `HuCreation.MergedPresetsReload` | main_app.py:576-581 | In any set order, the stored presets read back as the old entries plus the used value; a blank used value vanishes. |
| `HuCreation.EnumeratedSetReload` | main_app.py:580-581 | Any listing of a set of proper strings reads back as that set without its blank member. |
| `HuCreation.SelectHuSession` | main_app.py:508-523 | "Nouvelle session" selects session 0 when one exists. Any other label succeeds exactly when it maps to a live index. An unknown label is reported as unknown. |
| `HuCreation.SelectHuSessionAsWritten` | main_app.py:508-523 | With the choice stripped, a label selects a session exactly when its stripped form maps to a live index; "Nouvelle session" selects session 0 whenever some session exists. |
| `HuCreation.HuStrippedChoiceMissesLabel` | main_app.py:508-517 | In the dialog too, with the choice stripped, a listed session whose title is empty cannot be chosen. |
| `HuCreation.HuDisplayedLabelSelectsItsSession` | main_app.py:508-523 | With the choice taken as displayed, each listed session selects itself. |
| `HuCreation.BlankIds` | main_app.py:548 | For the auto-numbered HU type, exactly `nb` empty identifiers (none when `nb` is not positive). |
| `HuCreation.HuIdsAsWritten` | main_app.py:546-554 | PAC0012 gives `nb` blanks. Other types are refused exactly when the text is blank, and otherwise give the identifiers parsed from it, which may be none. |
| `HuCreation.SeparatorsOnlyYieldNoIds` | main_app.py:550-554 | A text holding only a comma passes the blank-text guard and yields no identifier. |
| `HuCreation.HuIds` | main_app.py:546-554 | Corrected identifier list: PAC0012 gives `nb` blanks. Other types succeed exactly when the text holds an identifier, and give the parsed identifiers in typed order. |
| `HuCreation.StripKeepsIds` | main_app.py:550-554 | Stripping the text first changes no identifier, and a blank text holds none. |
| `HuCreation.LeadingSpacesKeepIds` | main_app.py:550 | Dropping leading whitespace, newlines included, changes no identifier. |
| `HuCreation.TrailingSpacesKeepIds` | main_app.py:550 | Dropping trailing whitespace, newlines included, changes no identifier. |

## Left out

- Driving the client: the COM calls, the scripting engine and the subprocess launch of saplogon are out of reach of a proof (main_app.py:59-98). So are the polling loop with its 30-second timeout, the sleeps and the key presses. The observable outcomes are parameters of the model: window titles, session counts before and after, and whether the connection is reachable.
- Opening a new connection when none matches (main_app.py:109-113) is a call into the client. `Sessions.FindConnection` returns None to say that path is taken.
- configparser's own formatting is not modelled: value stripping on read, interpolation, key case folding and the file syntax. A file is a map from section to a map from key to value.
- A missing section raises KeyError in `load_config`, and a missing key in an existing HU section raises NoOptionError. Both are modelled as error results rather than exceptions.
- The tkinter windows, widgets, message boxes, help and about boxes and the HU log text are left out. So are the messages that only inform the user, such as the delete message shown even when the value was not listed.
- The connection dialog (main_app.py:202-228) is modelled only through its save button, `Config.SaveConnection`.
- The HU field-filling loop and its "was constructed" status check (main_app.py:525-565) only type into vendor screen fields.
- An `int()` failure on the HU count spinbox is left out. The count is an integer parameter.
- After a failed refresh the source keeps the previous session map (main_app.py:301-304). `Sessions.Refresh` keeps it as well. A failure part-way through the loop, after the map was cleared, is not modelled.
- The HU dialog saves the used presets before it selects a session (main_app.py:503). Each step is modelled on its own; their order is not modelled.
- `Config.AddedFavouritePersists`: requires the new code to contain no comma. A code with a comma is split into several favourites on the next load, and that case is not stated.
- `HuCreation.MergedPresetsReload`: requires the used value to be stripped and comma-free, as the dialog's stripped inputs normally are. A used value holding a comma is split on the next read, and that case is not stated.
- `HuCreation.UpdatedPresetsReload`: requires the used values to be stripped and comma-free, for the same reason.

## Findings

| source | as written | input that shows it | evidently intended | confidence | as-written member | corrected member |
|---|---|---|---|---|---|---|
| main_app.py:43-57 | `save_config` writes a fresh parser holding only SAP, Transactions and App, replacing the whole file | any file with an HU section, then adding a favourite or saving the connection settings | the HU presets stay in the file | high, not executed | `Config.SaveConfigAsWritten`, used by `Config.AddTransaction` and `Config.SaveConnection` (shown by `Config.AddingFavouriteDropsHuSection` and `HuCreation.PresetsLostAfterSettingsSave`) | `Config.SaveConfig`, used by `Config.AddTransactionKeepingSections` (with `HuCreation.PresetsKeptAfterSettingsSave`) |
| main_app.py:319 | the session choice is stripped before it is looked up, but the map keys are the unstripped labels | a session whose window title is empty: it is listed as "Session 0 - " and chosen as "Session 0 -" | every listed session can be chosen | medium, not executed | `Sessions.OnLaunchAsWritten` and `HuCreation.SelectHuSessionAsWritten` (shown by `Sessions.StrippedChoiceMissesLabel` and `HuCreation.HuStrippedChoiceMissesLabel`, main_app.py:508) | `Sessions.DisplayedLabelReachesItsSession` (also `HuCreation.HuDisplayedLabelSelectsItsSession`) |
| main_app.py:550-554 | the blank-text guard looks at the raw text, not at the identifiers parsed from it | HU type PAC0011 with the text `,` | the "enter at least one HU number" message, since nothing would be created | medium, not executed | `HuCreation.HuIdsAsWritten` (shown by `HuCreation.SeparatorsOnlyYieldNoIds`) | `HuCreation.HuIds` |
