# i3configger core, modelled in Dafny

i3configger builds an i3 window-manager configuration from fragment files
called *partials*. A partial named `key.value.conf` is *conditional*: it
belongs to the build when the selector map asks for `value` under `key`.
As written, a default partial (value `default`, or text carrying the
default marker) is built whenever defaults are on and its key is not
excluded, whatever the selector map names (see "Findings"). A partial
without a dot in its stem is always built. A persisted state document records what
is selected. Messages such as `select-next scheme` or `set font 10` change
that document. Build definitions (`builddef:NAME` sections of the ini file)
say which directories hold the partials and the themes, and how the target
text is assembled. A watcher rebuilds on file changes and gives up after a
budget of errors.

The model covers these modules:

- `Partials` (`partials.dfy`): the partial value, its cleaned views and the
  selection engine. `select` consumes the caller's selector in place, so it
  is modelled as a method on a `Selector` object, proved against the
  specification function `SelectScan`.
- `Config` (`config.dfy`): the state document and the message protocol.
  The persisted state file is a `StateStore` object whose methods fetch,
  seed and update it. The module also resolves the bar defaults.
- `Lib` (`lib.dfy`): `prep`, the build definitions, `needs_build`, the
  collection of the config parts and the theme, the assembly of the build
  text, and the watcher's error budget (a `Watcher` object).
- `Utils` (`utils.dfy`): `get_selector_map`, the parser of
  `--select-<key>=<value>` arguments.
- Support modules: `Wrappers` (Option and Result), `Seqs` (filter and map
  over sequences), `Text` (Python's string operations used by the source)
  and `Ordering` (Python's ordering of strings and paths, and `sorted`).

The loops that build up a result or change state step by step (`select`,
`prep`, the build-definition scan, the directory collection, the assembly
of the build text, the watcher, `get_selector_map`, the initial state and
the bar defaults) are methods with loop invariants. Most methods'
postconditions tie the result, or the new state, to a specification
function. `WithDefaults`, `PopulateBarDefaults` and `Watcher.WatchGuarded`
state their properties directly: which keys the merged bars hold, and when
the watcher gives up. The search loops of `filtered`, `payload`, `find` and `get_spec`
return a value without changing anything, and are modelled as the
recursive functions `FilteredLines`, `PayloadLines`, `Find` and `Lookup`.
The properties the source promises are proved as lemmas about these
functions.

Two behaviours of the source are worth stating plainly:

- The initial state seeds each conditional key with the value of the last
  partial of that key, because a later dict assignment wins.
- `select` lets a default partial take a key that the selector names (see
  "Findings").

## Model

| member | source | states |
|---|---|---|
| Partials.Partial.IsDefault | i3configger/partials.py:36-42 | A partial is a default exactly when its text carries the default marker or it is conditional with the value `default`. An unconditional partial is a default exactly when its text carries the marker. |
| Partials.SelectorsFromStem | i3configger/partials.py:20-26 | A partial is conditional exactly when its stem has a dot. Its key is the text before the first dot. Its value is the next dot-free segment, and any later segments are ignored. |
| Partials.FilteredLines | i3configger/partials.py:50-60 | `filtered` keeps exactly the lines that are non-blank and whose stripped form starts neither with the set mark nor with `#`. Each kept line is unchanged, kept as often as it occurs, and in its original order. No kept line is blank. |
| Partials.DisplayEmptyIffNothingKept | i3configger/partials.py:44-48 | `display` is empty exactly when `filtered` keeps no line. Otherwise it is the `### name ###` banner, the filtered text and two newlines. |
| Partials.PayloadIsCutFilter | i3configger/partials.py:62-74 | The payload lines are the non-blank, non-comment lines in order, each cut at its last ` # `. |
| Partials.Find | i3configger/partials.py:99-102 | Nothing exactly when no partial has the key and value. Otherwise the result is the first partial that has them. |
| Partials.Pick | i3configger/partials.py:110-113 | `_select` appends the partial and removes its key from the caller's selector when the key is there. |
| Partials.SelectLoop | i3configger/partials.py:115-127 | The partials picked and the selector left over are those of the specification scan over the input. |
| Partials.Select | i3configger/partials.py:105-130 | The caller's selector is left as the scan leaves it. The call fails with the left-over selector when one is left. A single pick is returned bare, any other number as a list. |
| Partials.SelectKeepsOrder | i3configger/partials.py:115-127 | The selection is a subsequence of the input: partials keep their order. |
| Partials.SelectSubset | i3configger/partials.py:115-127 | Only partials of the input are selected. |
| Partials.SelectConsumesKeys | i3configger/partials.py:110-113 | The left-over selector is the caller's selector without the keys of the selected partials. Values are unchanged. |
| Partials.SelectOnlyWanted | i3configger/partials.py:117-127 | An unconditional partial is selected only with `conditionals` set. A selected conditional partial has a key that is not excluded. It is either a default (with `defaults` set) or has the value the caller asks for its key. |
| Partials.SelectUnconditional | i3configger/partials.py:126-127 | An unconditional partial is selected exactly when `conditionals` is set. |
| Partials.SelectTakesDefault | i3configger/partials.py:124-125 | With `defaults` set, every default partial whose key is not excluded is selected. |
| Partials.SelectHonoursFirstRequest | i3configger/partials.py:121-123 | The requested partial is selected when it is the first of its key that could claim the key. |
| Partials.GetContent | i3configger/partials.py:88-96 | Selects with conditionals and defaults on. Fails on a left-over selector or an empty selection. Otherwise returns the displays of the selected partials, concatenated. |
| Partials.Create | i3configger/partials.py:133-138 | Fails exactly when no partial was found. Otherwise returns a permutation of the partials, sorted by name. |
| Partials.DefaultShadowsRequest | i3configger/partials.py:121-125 | As written, with `bar.default` listed before `bar.zzz` and `{bar: zzz}` asked for, only the default is selected and no error is raised. |
| Partials.DefaultJoinsRequest | i3configger/partials.py:121-125 | As written, with `bar.dark` listed before `bar.default` and `{bar: dark}` asked for, both are selected. |
| Partials.IntendedConsumesKeys | i3configger/partials.py:110-113 | The corrected scan also leaves the caller's selector without the keys of the selected partials. |
| Partials.IntendedOnlyWanted | i3configger/partials.py:117-127 | The corrected scan selects a conditional partial of a requested key only with the requested value. It selects a conditional partial of any other key only as a default. |
| Partials.IntendedTakesDefault | i3configger/partials.py:124-125 | The corrected scan selects every default whose key is neither excluded nor requested. |
| Partials.IntendedHonoursRequest | i3configger/partials.py:121-123 | The corrected scan selects the first partial with the requested value, whatever defaults precede it. |
| Config.Lookup | i3configger/config.py:129-131 | Nothing exactly when no command has the name. Otherwise the result is the first command that has it. |
| Config.GetSpec | i3configger/config.py:128-133 | Succeeds exactly for the name of a known command, with its number of arguments. Otherwise the error names the message and lists the known names. |
| Config.KnownNames | i3configger/config.py:59 | The known names in `_ALL` order: `select-next`, `select-previous`, `select`, `set`. |
| Config.GetSpecArities | i3configger/config.py:55-58 | `select-next` and `select-previous` take 1 argument. `select` and `set` take 2. |
| Config.GetSpecUnknown | i3configger/config.py:132-133 | Every other name is an unknown message, and the error lists the four names. |
| Config.IndexOf | i3configger/config.py:114 | `list.index`: the position of the first occurrence. |
| Config.Next | i3configger/config.py:112-116 | Fails exactly when the current value is not an item. Otherwise the result is an item; `CycleSteps` gives its position. |
| Config.Previous | i3configger/config.py:119-123 | Fails exactly when the current value is not an item. Otherwise the result is an item; `CycleSteps` gives its position. |
| Config.CycleSteps | i3configger/config.py:112-123 | For any list, repeats allowed: from the first occurrence of an item, `_next` gives the item one position forward, wrapping from the last to the first, and `_previous` the item one position back, wrapping from the first to the last. |
| Config.NextFromFirstOccurrence | i3configger/config.py:112-123 | With a repeated value, `_next` of `dark` in `[dark, dark, light]` is `dark` again, and `_previous` of `light` is `dark`. |
| Config.NextPreviousInverse | i3configger/config.py:112-123 | On distinct items, `_previous` undoes `_next` and `_next` undoes `_previous`. |
| Config.Candidates | i3configger/config.py:77-80 | A value is a candidate of a key exactly when some partial has that key and value. |
| Config.CandidatesInOrder | i3configger/config.py:77-82 | The candidates are the values of the partials with the key, in the order of the partials, once per partial: the order in which `select-next` and `select-previous` cycle. |
| Config.CandidatesAreFound | i3configger/config.py:77-87 | A value is a candidate exactly when `find` returns a partial for the key and that value. |
| Config.InitialSelectsChoosesLast | i3configger/config.py:103-106 | The seeded keys are exactly the keys of the conditional, non-status-bar partials. Each holds the value of the last such partial with that key. |
| Config.InitialSelectsSkipsStatusBar | i3configger/config.py:105 | The `i3status` key is never seeded. |
| Config.RouteSet | i3configger/config.py:67-74 | A `set` message with a value takes the `set` branch. |
| Config.RouteSetWithoutValue | i3configger/config.py:67-71 | A `set` message without a value takes the `set` branch with no value. |
| Config.RouteSelect | i3configger/config.py:84-91 | A `select` message takes the `select` branch. |
| Config.RouteNext | i3configger/config.py:76-83 | A `select-next` message cycles forward. |
| Config.RoutePrevious | i3configger/config.py:76-83 | A `select-previous` message cycles backward. |
| Config.SetSettingEffect | i3configger/config.py:70-74 | `set` stores the value. `del`, in any case, deletes the setting, and fails when there is none. A missing value fails. Nothing else changes. |
| Config.SelectValueEffect | i3configger/config.py:84-91 | `select` succeeds exactly when some partial has the key and value. It then selects that value and changes nothing else. |
| Config.CycleEffect | i3configger/config.py:76-83 | Cycling fails when no partial has the key. On success it selects a value some partial of the key has, and changes nothing else. |
| Config.CycleFromSelected | i3configger/config.py:81-83 | Cycling from a selected candidate selects its neighbour. |
| Config.CycleBackUndoesForward | i3configger/config.py:76-83 | With distinct non-empty candidates and a selected one, cycling back after cycling forward restores the document. |
| Config.CycleForwardUndoesBack | i3configger/config.py:76-83 | With distinct non-empty candidates and a selected one, cycling forward after cycling back restores the document. |
| Config.PreviousUndoesNext | i3configger/config.py:63-92 | `select-previous` after `select-next` restores the state document. |
| Config.NextUndoesPrevious | i3configger/config.py:63-92 | `select-next` after `select-previous` restores the state document. |
| Config.ApplyUnknownKeepsState | i3configger/config.py:75-92 | A message with an unknown command leaves the document as it was. |
| Config.StateStore.PopulateInitialState | i3configger/config.py:101-109 | Seeds `select` from the partials with an empty `set`, freezes the document and returns it. |
| Config.StateStore.FetchState | i3configger/config.py:95-98 | Returns the stored document. The store is seeded first when it holds none. |
| Config.StateStore.Process | i3configger/config.py:63-92 | An empty message returns the fetched state. Any other message applies its command to the fetched state and freezes the result. A failing message leaves the fetched state stored. |
| Config.WithDefaults | i3configger/config.py:40-44 | A bar copy holds the bar's own settings and every default it lacks. |
| Config.PopulateBarDefaults | i3configger/config.py:33-45 | Every bar except the `defaults` entry, with its own settings and each default it lacks. |
| Lib.Prep | i3configger/lib.py:271-283 | `prep` with `asPaths=False` returns the prep items of its input. An empty string or list gives none. |
| Lib.PrepHasNoNewlines | i3configger/lib.py:277-281 | No item `prep` returns holds a newline. |
| Lib.PrepKeepsPlainItems | i3configger/lib.py:280-281 | Items without a newline pass through unchanged. |
| Lib.PrepItemKeepsText | i3configger/lib.py:278-281 | One item contributes its characters except the newlines, in order. |
| Lib.PrepItemPieces | i3configger/lib.py:278-279 | An item with a newline contributes only non-empty pieces, none of which holds a newline. |
| Lib.PrepItemRejoins | i3configger/lib.py:278-281 | An item without empty lines is its pieces joined by newlines: the item is cut exactly at its newlines. |
| Lib.PrepKeepsText | i3configger/lib.py:277-281 | Concatenated, the result holds every character of the items except the newlines, in order. |
| Lib.BuildDefName | i3configger/lib.py:95 | `builddef:NAME` defines the build `NAME`. |
| Lib.BuildDefNameHasNoMark | i3configger/lib.py:95 | A build name never contains the mark. |
| Lib.MakeBuildDefs | i3configger/lib.py:242-248 | One build definition per section whose title starts with the mark, in section order. |
| Lib.CheckSanity | i3configger/lib.py:192-195 | `check_sanity` fails, with the files-and-excludes error, exactly when both a files list and an excludes list are given. |
| Lib.SaneDefinitionUsesOneList | i3configger/lib.py:177-195 | For a sane definition, a given files list alone decides which files are parts. Otherwise the excludes decide. |
| Lib.NeedsBuild | i3configger/lib.py:123-134 | A change needs a build only when it matches. |
| Lib.NeedsBuildMonotone | i3configger/lib.py:126-134 | A change that needs a build still needs one later. |
| Lib.NeedsBuildDebounce | i3configger/lib.py:128-134 | A repeated change to the last built file needs a build exactly when the delay has passed. |
| Lib.NeedsBuildOtherFile | i3configger/lib.py:128-130 | A matching change to a file other than the one last built needs a build at once, whatever the clock says. |
| Lib.NeedsBuildNeverBuilt | i3configger/lib.py:126-127 | A definition with no previous build (none, or time 0) needs a build for every matching change. |
| Lib.NeedsBuildAsMade | i3configger/lib.py:114-115 | A definition as made needs a build exactly when the change matches. |
| Lib.CollectListing | i3configger/lib.py:178-189 | One listing adds its accepted entries, in listing order. |
| Lib.Collect | i3configger/lib.py:177-189 | The accepted entries of the directories in order. The first missing directory fails. |
| Lib.GetConfigParts | i3configger/lib.py:174-190 | `get_config_parts` returns the collected parts sorted by path. |
| Lib.ConfigPartsExactly | i3configger/lib.py:174-190 | The parts are the listed regular files with the build suffix that are not excluded and, when a files list is given, are on it. Each appears as often as it is listed, sorted by path. |
| Lib.GetTheme | i3configger/lib.py:160-172 | `get_theme` returns the theme content. |
| Lib.ThemeFailsIffNoFile | i3configger/lib.py:160-169 | The theme fails exactly when no listed regular file is named like the theme. |
| Lib.HeaderLines | i3configger/lib.py:145-148 | The header is three lines: the message between two `#` lines exactly as long. |
| Lib.BuildFront | i3configger/lib.py:144-150 | The header when asked for, then the theme when one is set. |
| Lib.AppendParts | i3configger/lib.py:151-156 | One piece per part, appended in order, with the path banner when `addinfo` is set. |
| Lib.Build | i3configger/lib.py:143-157 | `build` returns the newline join of the build pieces. |
| Lib.BuildLayout | i3configger/lib.py:143-157 | The pieces: the header first when asked for, then the theme when set, then one piece per part in sorted order. |
| Lib.Watcher.WatchGuarded | i3configger/lib.py:44-53 | Gives up exactly at a failure that brings the counter to the budget. Otherwise it counts every failure. |
| Lib.OverBudgetNeverGivesUp | i3configger/lib.py:50-53 | A counter already at or past the budget never gives up. |
| Lib.GivesUpWithinBudget | i3configger/lib.py:50-53 | Below the budget, enough failures make the watcher give up. |
| Utils.GetSelectorMap | i3configger/utils.py:30-44 | `get_selector_map` returns the parsed map, the unpack error or the parser error of the specification function. |
| Utils.SelectionUnpacks | i3configger/utils.py:36-39 | A well-formed argument is kept and unpacks to its key and value. |
| Utils.UnpackedSelection | i3configger/utils.py:36-38 | A kept argument that unpacks is the marker, the key, one `=` and the value. |
| Utils.WellFormedIffSelection | i3configger/utils.py:36-38 | An argument is kept and unpacks exactly when it is well formed. |
| Utils.ParseArgsOkIff | i3configger/utils.py:35-39 | The loop fails exactly when some argument does not unpack. |
| Utils.ParseArgsLeftovers | i3configger/utils.py:35-37 | Nothing is left over exactly when every argument is kept. |
| Utils.SelectorMapOkIff | i3configger/utils.py:35-44 | A map is returned exactly when every argument is well formed. Any other argument makes the call fail. |
| Utils.NoArgumentsNoSelectors | i3configger/utils.py:31-44 | No arguments give the empty map. |
| Utils.SelectorArgsMap | i3configger/utils.py:35-39 | Well-formed arguments give `dict` of their keys and values. |
| Utils.AssignedKeys | i3configger/utils.py:39 | The keys of the map are the keys of the arguments. |
| Utils.AssignedLastWins | i3configger/utils.py:39 | A key holds the value of the last argument naming it. |
| Utils.LaterSelectorWins | i3configger/utils.py:39 | A later argument for a key overrides an earlier one. |
| Ordering.PathLtIsStrictTotalOrder | i3configger/lib.py:190 | Python's path ordering is a strict total order. |
| Ordering.SortBy | i3configger/lib.py:190 | `sorted` returns a permutation of its input in ascending key order. |
| Text.StemAndSuffix | i3configger/lib.py:183 | A file name is its stem followed by its suffix. The suffix is empty, or a dot and at least one character without a dot. |

## Left out

- Reading files, listing directories, writing the target and the state file, and JSON (de)serialisation are not modelled. File texts, directory listings (`Listings`) and the state store are inputs or object state.
- The set mark `base.SET_MARK` is a parameter (`setMark`): `i3configger/base.py` is not part of this model.
- Joining line continuations with a regular expression (`_joined`) is not modelled. Each partial carries its joined text.
- `Text.Lines` splits at every Python line boundary. It differs from `splitlines` only in the blank pieces, which every caller drops.
- Partials.Select: the selector is always a dictionary. The `None` selector is not modelled.
- Config.StateStore.Process: the source compares the command string with `(name, arity)` tuples and calls `find` with too few arguments. The model dispatches on the command names and takes the candidate values of the key.
- Config.Cycle: the model cycles over candidate VALUES and compares the stored selection with them. In the source the candidates are `Partial` objects (`new.value` at `i3configger/config.py:83` needs them), so a stored selection, a string, never equals one. `items.index(current)` then raises a ValueError that `_next` and `_previous` do not catch (they catch only IndexError). As written, cycling from any stored selection fails, and one exists for every seeded key after `populate_initial_state`. `Config.CycleFromSelected`, `Config.CycleBackUndoesForward`, `Config.CycleForwardUndoesBack`, `Config.PreviousUndoesNext` and `Config.NextUndoesPrevious` describe the value comparison of the model, not that failure.
- Config.StateStore.Process: the source's `del` branch of `select` compares the method `value.lower` with a string, so it never runs. The model has no such branch.
- Config.InitialSelects: the source reads an attribute `needsSelection` that partials do not have. The model seeds the conditional partials.
- Config.IsDel: `str.lower` is modelled for the ASCII letters only.
- Config.PopulateBarDefaults: bars are map values, so the aliasing of the copied dicts is not modelled.
- Lib.NeedsBuild: `matches` is an input. As written it takes one argument where `needs_build` passes two, and it returns nothing. The clock is an integer count of milliseconds.
- Lib.Prep: the `asPaths=True` expansion of environment variables and `~` is not modelled. Neither is `prep(...)[0]` on an empty list for `target`.
- Lib.NewBuildDef: the ini reads of `BuildDef.__init__`, `IniConfig.get_config` and `populate_settings` are not modelled. Sections arrive as values.
- Lib.Watcher.WatchGuarded: events arrive as a sequence telling whether processing each one failed. `get_events`, inotify, `process_event` and `I3Configger.build` are not modelled. `lastBuild` and `lastFilename` are never updated by the source, and the model keeps them fixed.
- `IpcControl` (i3 and notify-send calls), logging and the command-line interface are not modelled.

## Findings

| source | as written | input that shows it | evidently intended | confidence | as-written member | corrected member |
|---|---|---|---|---|---|---|
| i3configger/partials.py:121-125 | A non-excluded default partial is always selected, whatever the selector names. A default listed before the requested partial consumes the key, so the requested partial is dropped and no error is raised. | `bar.default` before `bar.zzz` with `{bar: zzz}` selects only `bar.default`. | A default is taken only for keys the caller's selector does not name, so the requested value is always selected. | high, not executed | Partials.DefaultShadowsRequest | Partials.IntendedHonoursRequest |
| i3configger/partials.py:121-125 | A default listed after the requested partial is selected as well, because the requested partial has already consumed the key. | `bar.dark` before `bar.default` with `{bar: dark}` selects both. | A requested key gets only its requested value. | high, not executed | Partials.DefaultJoinsRequest | Partials.IntendedOnlyWanted |

`Partials.Select` and `Partials.GetContent` model `select` and `get_content`
as written. The corrected loop is `Partials.SelectScanIntended`, which differs
in one guard: the default branch also requires that the caller's selector
does not name the key.
