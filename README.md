# QuickA-Cleanup, modelled in Dafny

QuickA-Cleanup is a Windows console tool that tidies the File Explorer
navigation pane. It enumerates the subkeys of
`HKCU\Software\Microsoft\Windows\CurrentVersion\Explorer\Desktop\NameSpace`.
It passes over the essential system folders, which are on a blacklist of
GUIDs compared ignoring case. It also passes over the user's own folders,
recognised by name tokens in the key's default value. Every other entry is
numbered from 1 and shown in a table. The operator types "Q" to quit, "A"
to remove everything, or a comma-separated list of numbers. After a "Y"
confirmation, each selected subkey tree is deleted and Explorer is
restarted. An exception that escapes the workflow makes the process exit
with code 1.

The model has six modules:

- `Wrappers`: an `Option` type.
- `Text`: the .NET string primitives the program relies on, written out:
  - ordinal ignore-case comparison and substring search;
  - `Trim` over a fixed set of white-space characters;
  - `Split(',', RemoveEmptyEntries)`;
  - `int.TryParse`, whose digit loop `Magnitude` is proved against the
    reference value `DigitsValue`;
  - the decimal rendering of the numbers the table shows.
- `ItemFilter`: the static filter, as pure functions.
- `Models`: the `QuickAccessItem` record (Models/QuickAccessItem.cs:6-37), as
  a datatype. It has no operations of its own. What the scan puts in each
  field is stated by `RegistryScanner.ScanItemsAreOffered`.
- `RegistryScanner`: the part of the registry the tool touches.
  - It is a class `RegistryStore` whose `nameSpace` field holds the
    NameSpace key's children in enumeration order, or `None` when the key
    does not exist.
  - `ScanForItems` is a method with the enumeration loop, proved against
    the function `ScanResult`.
  - `RemoveItem` is a method that changes the store.
- `Cleanup`: the program's workflow.
  - `GetUserSelection` and `RemoveItems` are methods with their loops, each
    proved against a specification function.
  - `ConfirmRemoval` is a function.
  - `RunCleanup` is a method that runs the whole sequence against the
    store, specified by the function `Workflow`.
  - `ExitCode` is the process exit code that `Main` produces.

What the environment decides becomes a parameter:

- the two lines the operator types (`None` for end of input);
- the enumeration entry at which the scan throws, if it does;
- the `RemoveItem` calls whose deletion throws;
- the console step at which an unexpected exception escapes, if one does.

## Model

| member | source | states |
|---|---|---|
| Text.ContainsIgnoreCase | Services/ItemFilter.cs:67-68 | true exactly when the token occurs at some position of the value, letters compared ignoring case |
| Text.UpperEqualIff | Services/ItemFilter.cs:20 | two strings have the same upper-cased form exactly when they are equal under ordinal ignore-case comparison, so an upper-case-keyed set behaves as the ignore-case hash set |
| Text.EqualsIgnoreCaseLetter | Program.cs:157 | a line equals a one-letter command ignoring case exactly when it is that letter in upper or lower case |
| Text.EqualsIgnoreCase | Program.cs:157 | ordinal ignore-case equality holds between equal strings, and only between strings of the same length |
| Text.TrimEnds | Program.cs:154 | a trimmed line neither starts nor ends with white space, and it is empty exactly when the line was blank |
| Text.TrimBounds | Program.cs:154 | the trimmed line is the part of the line between a blank prefix and a blank suffix |
| Text.Trim | Program.cs:154 | trimming never lengthens a string |
| Text.BlankAppend | Services/ItemFilter.cs:64 | a concatenation is blank exactly when both parts are |
| Text.IsNullOrWhiteSpace | Services/ItemFilter.cs:64 | a value is null or white space exactly when it is missing or trims to the empty string |
| Text.TrimUnchanged | Program.cs:177 | a token with no white space at either end is left as it is by Trim |
| Text.TrimIdempotent | Program.cs:177 | trimming a trimmed string again changes nothing |
| Text.SplitOnPieces | Program.cs:173 | no piece of a split contains the separator |
| Text.SplitOn | Program.cs:173 | a split always yields at least one piece, the empty line included |
| Text.SplitJoin | Program.cs:173 | splitting loses no character: joining the pieces with the separator gives back the line |
| Text.SplitOnWithoutSeparator | Program.cs:173 | a line without the separator splits into itself alone |
| Text.SplitOnField | Program.cs:173 | a leading field followed by the separator is the first piece, and the rest splits on its own |
| Text.RemoveEmptyKeeps | Program.cs:173 | RemoveEmptyEntries keeps exactly the non-empty pieces |
| Text.RemoveEmpty | Program.cs:173 | RemoveEmptyEntries keeps at most the pieces it was given, and every piece it keeps is non-empty |
| Text.SplitNonEmpty | Program.cs:173 | every token is non-empty and contains no comma |
| Text.SplitNonEmptySingle | Program.cs:173 | a line without a comma is one token, or none when it is empty |
| Text.SplitNonEmptyField | Program.cs:173 | a non-empty leading field is the first token, followed by the tokens of the rest |
| Text.SplitNonEmptyTokens | Program.cs:173 | the tokens are exactly the non-empty pieces, and none contains a comma |
| Text.ParseInt32 | Program.cs:177 | a successful parse lies in the 32-bit range and the text ends in a digit |
| Text.Decimal | Program.cs:135 | a displayed number is a non-empty string of digits |
| Text.DecimalValue | Program.cs:135 | the digits shown for a number have that number as their value |
| Text.ParseDecimal | Program.cs:177 | every number up to Int32.MaxValue, as displayed, parses back to itself |
| Text.MagnitudeValue | Program.cs:177 | the digit loop succeeds exactly on strings of decimal digits, and then gives their value |
| Text.ParseInt32Sound | Program.cs:177 | whatever parses is a non-empty run of digits, alone or after one `+` or `-`, and the digits give the magnitude of the result |
| Text.ParseInt32Complete | Program.cs:177 | conversely, a run of digits parses to its value when that is at most Int32.MaxValue, the same with a `+` in front, and with a `-` in front to its negation down to Int32.MinValue; outside the range it fails |
| Text.ParsePlus | Program.cs:177 | a `+` in front of digits keeps their value, within Int32.MaxValue |
| Text.ParseMinus | Program.cs:177 | a `-` in front of digits negates their value, down to Int32.MinValue |
| Text.ParseNegativeDecimal | Program.cs:177 | a displayed number with a minus sign in front parses to its negation, for every magnitude up to 2^31 |
| Text.ParseInt32RejectsLetter | Program.cs:177 | a token whose first character is neither a sign nor a digit does not parse |
| ItemFilter.IsBlacklisted | Services/ItemFilter.cs:52-55 | true exactly when the GUID equals one of the seven listed GUIDs under ordinal ignore-case comparison |
| ItemFilter.BlacklistIgnoresCase | Services/ItemFilter.cs:20-29 | two spellings that differ only in letter case are both protected or both unprotected |
| ItemFilter.UpperCaseKeepsBlacklisted | Services/ItemFilter.cs:52-55 | upper-casing a GUID does not change whether it is protected |
| ItemFilter.ListedGuidsProtected | Services/ItemFilter.cs:20-29 | every listed GUID is protected, both as listed and upper-cased |
| ItemFilter.BlacklistEntriesDistinct | Services/ItemFilter.cs:20-29 | the seven listed GUIDs are pairwise different even ignoring case, so the set holds seven entries |
| ItemFilter.AnyOccurs | Services/ItemFilter.cs:67-68 | true exactly when some token of the list occurs in the value ignoring case |
| ItemFilter.IsCustomFolder | Services/ItemFilter.cs:62-69 | false for a missing, empty or blank value; otherwise true exactly when one of the nine folder tokens occurs in it ignoring case |
| ItemFilter.CustomFolderExamples | Services/ItemFilter.cs:34-45 | "My apps" and "Metadata" count as custom folders, since matching is by substring |
| ItemFilter.CustomFolderTokensProtected | Services/ItemFilter.cs:34-45 | a default value equal to one of the nine listed folder names, ignoring case, is a custom folder |
| ItemFilter.GetDisplayName | Services/ItemFilter.cs:77-89 | a known GUID gets its table name whatever the default value; otherwise a non-blank default value is shown unchanged; otherwise "Unknown Item"; the name is never blank |
| ItemFilter.KnownItemsAreCaseSensitive | Services/ItemFilter.cs:11-15 | the name table is looked up case-sensitively: the lower-cased OneDrive GUID falls through to "Unknown Item", the listed spelling gives "OneDrive" over any default value |
| ItemFilter.KnownItemsNotProtected | Services/ItemFilter.cs:11-15 | neither GUID of the name table is blacklisted, so both OneDrive entries can be offered |
| RegistryScanner.RegistryStore.constructor | Services/RegistryScanner.cs:11 | a store holds the NameSpace children, or none when the key is absent, and whether the key opens for writing |
| RegistryScanner.Kept | Services/RegistryScanner.cs:31-44 | the filter offers at most as many keys as are enumerated |
| RegistryScanner.KeptMembers | Services/RegistryScanner.cs:31-44 | a key is offered exactly when it is enumerated and is neither blacklisted nor a custom folder |
| RegistryScanner.KeptAppend | Services/RegistryScanner.cs:31 | the filter keeps enumeration order |
| RegistryScanner.ScanSnoc | Services/RegistryScanner.cs:31-56 | one more enumerated key adds nothing when it is skipped, and otherwise one item numbered one past the items so far |
| RegistryScanner.Scan | Services/RegistryScanner.cs:31-56 | one item per offered key |
| RegistryScanner.ScanNumbers | Services/RegistryScanner.cs:46-55 | item i is built from the i-th offered key and numbered i + 1 |
| RegistryScanner.ScanItemsAreOffered | Services/RegistryScanner.cs:46-55 | item i has number i + 1 and comes from an enumerated key that is neither blacklisted nor a custom folder; its GUID is the key name, its name is GetDisplayName of the key, its path is the NameSpace path plus the key name, and it is not protected |
| RegistryScanner.ScanNeverOffersBlacklisted | Services/RegistryScanner.cs:36-37 | no scanned item carries a blacklisted GUID |
| RegistryScanner.ScanCount | Services/RegistryScanner.cs:31-56 | N keys, K of them blacklisted and M custom folders among the rest, give N - K - M items |
| RegistryScanner.Reached | Services/RegistryScanner.cs:58-61 | a fault stops the enumeration at or before its end; without one every key is reached |
| RegistryScanner.ScanResult | Services/RegistryScanner.cs:22-63 | no NameSpace key gives no items; without a fault the full scan; with one a prefix of the full scan, since items added before the exception are returned |
| Cleanup.ScanResultNumbered | Services/RegistryScanner.cs:20-63 | whatever the store and the fault, the items returned are numbered 1, 2, 3, ... in order |
| RegistryScanner.ScanPrefix | Services/RegistryScanner.cs:58-63 | scanning a prefix of the keys gives a prefix of the full scan |
| RegistryScanner.ScanForItems | Services/RegistryScanner.cs:17-64 | the enumeration loop returns exactly ScanResult of the store's NameSpace contents and the fault |
| RegistryScanner.Without | Services/RegistryScanner.cs:79 | deletion never adds keys |
| RegistryScanner.RemoveItem | Services/RegistryScanner.cs:71-87 | true exactly when NameSpace exists, opens for writing and the deletion does not throw; then the key named by the GUID is gone with its subtree; otherwise the store is unchanged |
| RegistryScanner.WithoutKeeps | Services/RegistryScanner.cs:79 | exactly the keys with another name remain |
| RegistryScanner.WithoutKeepsDistinct | Services/RegistryScanner.cs:79 | deletion keeps key names distinct |
| RegistryScanner.WithoutAbsent | Services/RegistryScanner.cs:79 | deleting a missing key changes nothing and does not fail |
| RegistryScanner.WithoutIdempotent | Services/RegistryScanner.cs:79 | deleting the same key twice is deleting it once |
| RegistryScanner.WithoutAppend | Services/RegistryScanner.cs:79 | deletion keeps the remaining keys in their order |
| Cleanup.FindByNumber | Program.cs:179 | a found item is one of the listed items and carries the number looked up |
| Cleanup.FindByNumberFirst | Program.cs:179 | the lookup finds nothing exactly when no item has the number; otherwise it finds the first item that has it |
| Cleanup.PickOneSpec | Program.cs:177-183 | a token selects at most one item, a listed item whose number the trimmed token parses to |
| Cleanup.PickOne | Program.cs:177-183 | a token selects at most one item, and only a listed item |
| Cleanup.Picked | Program.cs:175-185 | a list of tokens selects at most one item per token |
| Cleanup.PickedFromItems | Program.cs:175-185 | every selected item is a listed item named by some token |
| Cleanup.PickedAllFromItems | Program.cs:175-185 | every selected item is one of the listed items |
| Cleanup.PickedPrefix | Program.cs:175-185 | one more token of the line appends what that token selects, which is the loop invariant of GetUserSelection |
| Cleanup.PickedSnoc | Program.cs:175-185 | one more token appends what that token selects |
| Cleanup.PickedAppend | Program.cs:175-185 | the selection follows token order: the tokens of two lines concatenated select the two selections concatenated |
| Cleanup.UserSelection | Program.cs:154-187 | whenever the line does not quit, only listed items are selected |
| Cleanup.GetUserSelection | Program.cs:142-188 | the prompt's loop returns exactly UserSelection of the items and the line |
| Cleanup.QuitChoice | Program.cs:154-163 | the program quits exactly when the trimmed line is "Q" or "q" |
| Cleanup.AllChoice | Program.cs:166-169 | "A" or "a" selects every item, in order |
| Cleanup.SelectionFromItems | Program.cs:142-188 | whatever is typed, only listed items are selected |
| Cleanup.EmptyLineSelectsNothing | Program.cs:154-187 | an empty or missing line selects nothing and does not quit |
| Cleanup.PickNumber | Program.cs:177-183 | with the scan's numbering, a token that parses to i + 1 selects exactly item i |
| Cleanup.PickMissing | Program.cs:177-180 | with the scan's numbering, a token that does not parse, or parses outside 1..n, selects nothing |
| Cleanup.TokenParses | Program.cs:177 | a displayed number typed back as a token parses to that number |
| Cleanup.NumbersLineEnds | Program.cs:173-177 | a typed list of numbers starts and ends with a digit |
| Cleanup.NumbersLinePicks | Program.cs:173-185 | the comma-separated numbers shown for some items select exactly those items, in the typed order, repeats kept |
| Cleanup.TypedNumbersSelectItems | Program.cs:154-187 | typing back numbers from the table selects exactly those items in that order, repeats kept |
| Cleanup.RepeatedNumberSelectedTwice | Program.cs:175-185 | "2,2" selects the second item twice |
| Cleanup.ConfirmRemoval | Program.cs:207-209 | the removal is confirmed exactly when the trimmed reply is "Y" or "y"; a missing reply declines |
| Cleanup.DeletedGuidsAre | Program.cs:222-236 | the GUIDs deleted are exactly those of the selected items whose removal did not throw |
| Cleanup.WithoutAllKeeps | Program.cs:222-236 | after the deletions, exactly the keys whose names were not deleted remain |
| Cleanup.RemovalStep | Program.cs:222-224 | removing one more item deletes one more GUID from what remains |
| Cleanup.Reports | Program.cs:222-236 | one success report per selected item |
| Cleanup.ReportsAt | Program.cs:224-235 | report i says removed exactly when NameSpace exists and is writable and the i-th deletion does not throw |
| Cleanup.RemoveItems | Program.cs:215-237 | each item is passed to RemoveItem once, in order, with one report each; the store loses exactly the keys of the items whose removal succeeded, or is unchanged when NameSpace cannot be opened for writing |
| Cleanup.Workflow | Program.cs:34-105 | items are removed only when the line selects exactly them and the reply confirms, and Explorer is restarted only after items were removed |
| Cleanup.ExitCode | Program.cs:11-28 | the exit code is 0 or 1, and 1 only for a crashed run; RunExitCode ties it to where an exception is thrown |
| Cleanup.RunExitCode | Program.cs:15-28 | the process exits with 1 exactly when an exception is thrown at a console step the run actually reaches, and with 0 otherwise |
| Cleanup.NoCrashNoError | Program.cs:34-105 | a run in which nothing throws never ends as crashed |
| Cleanup.CrashLeavesBehind | Program.cs:34-105 | a throw at a reached step ends the run as crashed; the selection has been removed only when the throw comes after the removals, and Explorer restarted only when it comes after the restart |
| Cleanup.CrashBeforeRemoval | Program.cs:36-79 | a throw before the reply is read removes nothing and restarts nothing |
| Cleanup.CrashAfterRemoval | Program.cs:87-104 | a throw after the removals leaves the whole selection removed, with Explorer restarted only when the throw follows the restart |
| Cleanup.UnreachedCrashIsHarmless | Program.cs:34-105 | a throw at a step the run never reaches changes nothing about the run |
| Cleanup.RunCleanup | Program.cs:34-105 | the run follows Workflow on the scan of the store; report i says removed exactly when NameSpace exists and is writable and the i-th deletion does not throw; the store loses the deleted keys when a confirmed selection reached the removal step, and is unchanged otherwise |
| Cleanup.EarlyExitsChangeNothing | Program.cs:53-85 | without a throw, an empty scan, a quit, an empty selection or a declined confirmation removes nothing, restarts nothing and exits with 0, and the run ends as NothingFound, QuitChosen, NothingSelected or Cancelled respectively |
| Cleanup.ConfirmedRunRemovesSelection | Program.cs:87-105 | a confirmed non-empty selection removes every selected item in order, then restarts Explorer, and exits with 0 |
| Cleanup.RemovalRequiresConfirmation | Program.cs:66-87 | an item reaches RemoveItem only if it was found by the scan and the reply was "Y" |
| Cleanup.NeverRemovesProtected | Program.cs:51-87 | whatever the operator types and wherever the run fails, every item passed to RemoveItem names a key of the store that is neither blacklisted nor a custom folder |
| Cleanup.ExamplePicturesSkipped | Services/RegistryScanner.cs:36-37 | the Pictures key is skipped as blacklisted |
| Cleanup.ExampleAppsSkipped | Services/RegistryScanner.cs:40-44 | a key whose default value is "Apps Folder" is skipped as a custom folder |
| Cleanup.ExampleOneDriveOffered | Services/RegistryScanner.cs:46-55 | the OneDrive key is offered, under the name "OneDrive" from the name table |
| Cleanup.ExampleSkippedPair | Services/RegistryScanner.cs:31-56 | scanning only the two protected keys yields no items |
| Cleanup.ExampleScan | Services/RegistryScanner.cs:31-56 | scanning Pictures, the Apps folder and OneDrive yields one item, OneDrive, numbered 1 |
| Cleanup.ExampleAnswers | Program.cs:34-105 | with items found, answering "A" and then "Y" removes every item and completes with a restart |
| Cleanup.ExampleDeletion | Program.cs:215-237 | deleting the OneDrive item leaves Pictures and the Apps folder, in order |
| Cleanup.ExampleRun | Program.cs:34-105 | the whole run on those three keys: the scan offers only OneDrive, "A" and "Y" remove it, and the two protected keys remain |

## Left out

- Console output, colours, the window title, the table layout and the "Press Enter" pauses are not modelled. Only the two answers that decide the run (the selection line and the confirmation) are parameters. Each is an `Option<string>`, where `None` is end of input.
- Explorer is not modelled: `RestartExplorer` kills and restarts a process and catches its own failures. The model records only that the restart happened, in the `restarted` field of `Outcome`.
- `Thread.Sleep` in `RunCleanup` and in `RestartExplorer` is left out, because timing has no observable effect here.
- The Windows registry API is replaced by `RegistryStore`:
  - The tool's view of NameSpace is an ordered list of child keys, each with a name, an optional default value and children.
  - The store also records whether the key opens for writing.
  - Distinct key names are stated as `NamesDistinct` and preserved by deletion, but not imposed as a class invariant.
  - Registry key names are compared exactly, while Windows compares them ignoring case.
- A subkey that cannot be opened, or a default value that is not a string, is modelled as the key's default value. A `null` from `OpenSubKey` is `None`. The `ToString` of a non-string value is whatever string the store holds.
- The scan's exception is modelled as the index of the enumeration entry at which it is thrown. `Reached` cuts the enumeration there.
- `RemoveItem`: when `DeleteSubKeyTree` throws, the model assumes nothing was deleted. Windows may have deleted part of the tree.
- `Text.ParseInt32`: its own contract states only the range and the final digit. What it accepts and what it returns is stated by `ParseInt32Sound` and `ParseInt32Complete`.
- `Cleanup.Picked`: its own contract bounds only the length. Which items are selected is stated by `PickedFromItems`, `PickedAllFromItems`, `PickedSnoc` and `PickedAppend`, so that proofs which unfold the function do not carry a quantifier.
- `Cleanup.Workflow`: its own contract states only when items are removed and when Explorer restarts. The endings of a run without a throw are stated by `EarlyExitsChangeNothing` and `ConfirmedRunRemovesSelection`. The `Crashed` ending, and what a throw at each step leaves removed or restarted, are stated by `CrashLeavesBehind`, `UnreachedCrashIsHarmless` and `RunExitCode`.
- `ParseInt32` accepts an optional sign followed by ASCII digits. It does not model `int.TryParse`'s culture-specific signs, or the leading and trailing white space that `TryParse` would also accept, because every token is trimmed first.
- `Text.ParseInt32`: `int.TryParse` also accepts trailing NUL characters, so in the program the token "5\0" selects item 5; the model rejects it. A console line typed by the operator does not contain NUL characters.
- `Text.ToUpper`: case-insensitive comparison folds ASCII letters only. The GUIDs, tokens and commands involved are all ASCII.
- `Text.IsWhiteSpace` covers a fixed set of characters: space, tab, line feed, vertical tab, form feed, carriage return, U+0085 and U+00A0. It does not cover every Unicode separator that .NET's `Trim` removes.
- `RegistryScanner.ScanForItems`: `itemNumber` is an unbounded integer. The 32-bit wrap-around after 2^31 - 1 entries is not modelled.
- `QuickAccessItem.ProtectionReason` is left out, because no code reads or writes it.
- Quitting with "Q" calls `Environment.Exit(0)` inside `GetUserSelection`. It is modelled as the `Quit` selection and the `QuitChosen` ending, with exit code 0.
- An exception that escapes `RunCleanup` is modelled as a `Phase`, the console step at which it is thrown, and ends the run as `Crashed` with exit code 1. The phases are: before the scan, before the selection is read, before the reply is read, after the removals, and after the restart. Other console failures are not modelled: one on an early-exit message path, or one in the middle of `RemoveItems`' reporting. They would only change the exit code, or stop removal part-way.
