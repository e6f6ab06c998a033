# TVRename episode finder, modelled in Dafny

This project models `FinderHelper`, the part of TVRename that works out which season and
episode a file or folder name refers to, and whether a file on disk is still needed in
the library. It has five parts:

- **SimplifyFilename** normalises a filename before the rules see it. Every `.` becomes a
  space. The show name is stripped when it is a prefix. For an all-digit show name the
  first |name| characters go. Otherwise the show name is scanned for numbers of three or
  more digits. The scan takes each digit run up to its end, but it may start inside a
  run: in "Mr1983" the `[^a-z]` alternative consumes the "1" and the number taken is "983".
  A run is always found at the start of the name or after a character that is neither a
  digit nor a lower-case letter. A run right after a lower-case letter can be missed:
  "abc123" yields nothing, because `\b` does not hold between "c" and "1" and `[^a-z]`
  would have to consume the first digit.
  Each number is then deleted from the filename, together with the non-word character
  before it, wherever it stands at the start of the name or after a non-word character
  and is followed by a word boundary. An occurrence glued to other word characters stays.
- **The rule scan** (`FindSeasEp(directory, filename, ...)`) runs the user's
  filename rules in order over the simplified name, or over its full path. It skips
  disabled rules and rules whose pattern is malformed. The first rule whose match gives a
  season or an episode wins.
- **The date check** (`FindSeasEpDateCheck`) renders every known air date in
  six formats. It looks for each rendering in the filename with `/ . , space` turned into
  dashes.
- **The dispatching overloads of `FindSeasEp`** handle files, directories and bare item
  names.
- **The reconciliation** is `FindEpOnDisk`, `EpisodeNeeded` and both `FileNeeded`. It
  lists the files on disk that hold an episode. A file is unneeded when another file
  already holds its episode.

The pure logic is written as functions. The loops of `FinderHelper` are methods with invariants:
- the rule loop;
- the number-deletion loop of SimplifyFilename;
- the three nested loops of the date check;
- the two nested loops of FindEpOnDisk;
- the early-return loop of EpisodeNeeded.

Each method is proved equal to a specification function, and the properties are lemmas
about those functions.

Modules, one per file:
- `Text` (`text.dfy`): the .NET string calls used — `Replace`, ordinal `StartsWith` and
  `Contains`, `ToLower`, `\w`, and `Int32.TryParse`: white space on both sides, a sign,
  a trailing run of NUL characters, and the 32-bit range.
- `Entities` (`entities.dfy`): the data model.
- `Simplify` (`simplify.dfy`).
- `RuleMatch` (`rules.dfy`).
- `DateMatch` (`dates.dfy`).
- `Identify` (`identify.dfy`).
- `Reconcile` (`reconcile.dfy`).

Conventions: -1 stands for "unknown", as in the source. The `rex` out-parameter is the
rule's position in the rule list. Exceptions that nothing in `FinderHelper` catches are
values: `Fallible = Ok(value) | Thrown(fault)`. There are two such faults:
- `String.Remove` past the end, when the show name is all digits and longer than the filename;
- the null `Parent` of a root directory.

Three behaviours of the code are easy to miss, and the model follows the code in each:
- **The date check returns the last matching episode.** The name `closestDate` suggests
  that the episode whose date is nearest to today is picked. But `closestDate` is reset to `TimeSpan.MaxValue`
  for every episode (FinderHelper.cs:79). So the last episode, in iteration order, with
  any matching rendering wins (`DateMatch.LastAiredEpisodeWins`, `LaterEpisodeBeatsEarlier`).
- **FindEpOnDisk can use the date check.** It identifies files through the settings
  overload of `FindSeasEp` (FinderHelper.cs:190 → 129 → 12). That overload runs the date
  check whenever date matching is switched on.
- **Identification can throw.** An all-digit show name longer than the filename makes
  `String.Remove` throw (FinderHelper.cs:252). The exception escapes the identification,
  `FindEpOnDisk`, `EpisodeNeeded` and `FileNeeded`, because only
  `EpisodeNotFoundException` is caught.

## Model

| member | source | states |
|---|---|---|
| Simplify.SimplifyFilename | TVRename/Finders/FinderHelper.cs:227-268 | the method returns exactly `Simplified`, including the `String.Remove` exception; the loop keeps "name = the dot-replaced filename with the first i show-name numbers deleted" |
| Simplify.SimplifiedShape | TVRename/Finders/FinderHelper.cs:235-267 | in every branch a successful result has no `.` and is no longer than the input; an empty hint gives the input with every `.` replaced by a space |
| Simplify.PrefixRemoval | TVRename/Finders/FinderHelper.cs:240-254 | a show name that is a prefix, or is all digits, removes the first \|hint\| characters of the dot-replaced name, whether or not it is a prefix; a name shorter than an all-digit hint throws |
| Simplify.ThrowsIff | TVRename/Finders/FinderHelper.cs:244-254 | simplification throws if and only if the hint is non-empty, all digits and longer than the filename |
| Simplify.NumericShowName | TVRename/Finders/FinderHelper.cs:244-247 | for the show "24", "24.S01E02" becomes " S01E02" |
| Simplify.NumbersFrom | TVRename/Finders/FinderHelper.cs:256-261 | every number the show-name scan finds is a run of at least three ASCII digits |
| Simplify.NumbersOccur | TVRename/Finders/FinderHelper.cs:256-261 | every number the scan finds stands in the show name at or after the scan's start, and the run of digits it belongs to ends with it |
| Simplify.FoundFrom | TVRename/Finders/FinderHelper.cs:256-261 | conversely, a run of three or more digits at the start of the show name, or after a character that is neither a digit nor a lower-case letter, is found whole |
| Simplify.GluedRunMissed | TVRename/Finders/FinderHelper.cs:256-261 | a run right after a lower-case letter can be missed: "abc123" yields no number |
| Simplify.DeleteFrom | TVRename/Finders/FinderHelper.cs:262-263 | deleting a number never lengthens the name and never introduces a character |
| Simplify.DeleteNumberLeavesNone | TVRename/Finders/FinderHelper.cs:262-263 | after the replacement no match of `(^\|\W)num\b` is left: the name neither starts with the number at a word boundary nor holds it after a non-word character at a word boundary |
| Simplify.KeptFront | TVRename/Finders/FinderHelper.cs:262-263 | digits at the front of what the deletion leaves, followed by a non-word character or the end, stood so in the input: a deletion never glues digits into a number |
| Simplify.NoStandaloneFrom | TVRename/Finders/FinderHelper.cs:262-263 | no non-word character followed by the number at a word boundary survives the deletion |
| Simplify.NothingToDelete | TVRename/Finders/FinderHelper.cs:262-263 | a name without any match of the pattern is left unchanged |
| Simplify.DeleteAllShrinks | TVRename/Finders/FinderHelper.cs:256-265 | deleting all the show-name numbers never lengthens the name and keeps only characters that were there |
| Simplify.NumbersOfShowName | TVRename/Finders/FinderHelper.cs:256-261 | the year in "Mr 1983" is the one number found |
| Simplify.DeletedYear | TVRename/Finders/FinderHelper.cs:262-263 | that number is deleted with the separator before it: "x 1983 e2" becomes "x e2" |
| Simplify.YearInShowName | TVRename/Finders/FinderHelper.cs:235-265 | end to end: the show "Mr 1983" turns "x.1983.e2" into "x e2" |
| RuleMatch.FindSeasEpInName | TVRename/Finders/FinderHelper.cs:270-321 | the string overload simplifies with the show name (empty without a show), builds the lower-cased name and full path each followed by a space, and returns the scan's result, or the simplification's exception |
| RuleMatch.RunRules | TVRename/Finders/FinderHelper.cs:287-320 | the loop over the rules returns `ScanRules`: the first settling match, else unknown values with what the last matching rule left |
| RuleMatch.FirstHit | TVRename/Finders/FinderHelper.cs:309 | the position found is the first match that gives a season or an episode, and no earlier match does |
| RuleMatch.LastAssigned | TVRename/Finders/FinderHelper.cs:297-308 | the position found is the last rule that matched at all, and no later rule matched |
| RuleMatch.ScanResult | TVRename/Finders/FinderHelper.cs:274-320 | true if and only if seas or ep is known, if and only if some enabled rule's match gives one; on false seas and ep are -1, while maxEp and rex still hold the values of the last enabled rule that matched, or -1 and none when no rule matched |
| RuleMatch.FirstSettlingRuleWins | TVRename/Finders/FinderHelper.cs:287-309 | the returned seas, ep, maxEp and rule are those of the first enabled rule, in list order, whose match gives a season or an episode |
| RuleMatch.FirstHitIs | TVRename/Finders/FinderHelper.cs:309 | a settling match preceded by no settling match is the first one |
| RuleMatch.OrderDecides | TVRename/Finders/FinderHelper.cs:287-309 | of two rules that both settle, the one listed first decides, in either order |
| RuleMatch.DisabledRuleIgnored | TVRename/Finders/FinderHelper.cs:289-290 | replacing a disabled rule by any other disabled rule does not change the outcome |
| RuleMatch.MalformedRuleSkipped | TVRename/Finders/FinderHelper.cs:292-317 | a rule whose pattern throws `ArgumentException` or `FormatException` has the same effect as disabling it |
| RuleMatch.LeadingZeroGroups | TVRename/Finders/FinderHelper.cs:299-309 | groups "03" and "08" with no f group give season 3, episode 8, maxEp -1 and that rule |
| RuleMatch.ZeroPaddedGroups | TVRename/Finders/FinderHelper.cs:299-306 | `Int32.TryParse` reads "03" as 3, "08" as 8, and fails on "" |
| Text.ParseInt32 | TVRename/Finders/FinderHelper.cs:299-306 | a group that parses gives a value in the 32-bit range |
| Text.ParseZeroPaddedDecimal | TVRename/Finders/FinderHelper.cs:299-303 | any 32-bit value written in decimal with any number of leading zeros parses back to itself |
| Text.ParseDigits | TVRename/Finders/FinderHelper.cs:299-303 | a non-empty run of digits within the 32-bit range parses to its decimal value |
| Text.EmptyGroupIsUnknown | TVRename/Finders/FinderHelper.cs:305-306 | an f group that took no part in the match leaves maxEp at -1 |
| Text.NonNumericGroupIsUnknown | TVRename/Finders/FinderHelper.cs:299-306 | a group holding a character that is not a digit, not white space, not a sign and not NUL fails `TryParse` and gives -1 |
| Text.NulsAfterNumber | TVRename/Finders/FinderHelper.cs:299-306 | a run of NUL characters after a number does not stop `TryParse`: "8" followed by NULs reads as 8 |
| Text.OverflowGroupIsUnknown | TVRename/Finders/FinderHelper.cs:299-306 | a run of digits whose value exceeds `Int32.MaxValue` fails `TryParse` and gives -1 |
| Text.SignedRejects | TVRename/Finders/FinderHelper.cs:299-306 | trimmed text holding a character other than a digit or a sign does not parse |
| Text.Lower | TVRename/Finders/FinderHelper.cs:284-285 | lower-casing keeps the length and maps each character on its own |
| Text.ReplaceChar | TVRename/Finders/FinderHelper.cs:58-61 | character replacement keeps the length and replaces exactly the given character |
| DateMatch.FindSeasEpDateCheck | TVRename/Finders/FinderHelper.cs:41-100 | the nested loops return `DateCheck`: no file or show gives no match; else the numbering of the last eligible episode with a rendering of its air date in the dashed name, with success meaning both numbers are known |
| DateMatch.MatchAirDate | TVRename/Finders/FinderHelper.cs:75-95 | the loop over the date formats for one episode takes the episode's show-order season and episode exactly when some rendering of its air date is in the dashed name; an episode without an air date, or with no rendering found, leaves the numbers as they were |
| DateMatch.LastAired | TVRename/Finders/FinderHelper.cs:73-95 | the episode found has its air date in the name and no later visited one does; none found means no visited episode does |
| DateMatch.LastAiredEpisodeWins | TVRename/Finders/FinderHelper.cs:66-99 | the result is the show-order numbering of the last visited episode whose air date is in the name, whatever its distance from today; it has an air date and comes from a season that is not ignored; maxEp is -1 and no rule is reported |
| DateMatch.LaterEpisodeBeatsEarlier | TVRename/Finders/FinderHelper.cs:73-95 | of two episodes with dates in the name, the later one in iteration order wins |
| DateMatch.NoAiredEpisodeFails | TVRename/Finders/FinderHelper.cs:63-99 | without an eligible episode whose date is in the name, the check fails with every value -1 |
| DateMatch.IgnoredSeasonSkipped | TVRename/Finders/FinderHelper.cs:68-71 | every visited episode belongs to a season other than an ignored one |
| DateMatch.EligibleFrom | TVRename/Finders/FinderHelper.cs:66-73 | every visited episode comes from a season of the active order that is not ignored |
| DateMatch.LastAiredIs | TVRename/Finders/FinderHelper.cs:73-95 | an episode with its date in the name and none after it is the one found |
| DateMatch.AirDateInFilename | TVRename/Finders/FinderHelper.cs:55-84 | an episode aired 2020-03-15 is recognised in any name containing "2020.03.15" |
| DateMatch.FoundAmongMonotone | TVRename/Finders/FinderHelper.cs:81-84 | a rendering found among the first formats is found among more of them |
| DateMatch.DashedExample | TVRename/Finders/FinderHelper.cs:58-61 | "2020.03.15" inside a name becomes "2020-03-15" |
| DateMatch.RenderExample | TVRename/Finders/FinderHelper.cs:55-83 | 2020-03-15 renders as "2020-03-15" in the yyyy-MM-dd format |
| Identify.FindSeasEpFile | TVRename/Finders/FinderHelper.cs:19-39 | returns `FileScan`: no file gives no match; a successful date check, when asked for, decides; otherwise the rules run over the name without its extension, in the file's directory |
| Identify.FindSeasEpWithSettings | TVRename/Finders/FinderHelper.cs:12-17 | the settings overload takes the rule list and the date flag from the settings |
| Identify.FindSeasEpDir | TVRename/Finders/FinderHelper.cs:102-116 | no directory gives no match; a root directory throws; otherwise the rules run over its name in its parent, with no maxEp reported |
| Identify.FindSeasEpItem | TVRename/Finders/FinderHelper.cs:124-127 | an item name is scanned with an empty directory and the settings' rules |
| Identify.NullFileNoMatch | TVRename/Finders/FinderHelper.cs:22-29 | no file gives false, every value -1 and no rule |
| Identify.DateCheckFirst | TVRename/Finders/FinderHelper.cs:31-32 | with the date check on and successful, its numbers are returned with maxEp -1 and no rule |
| Identify.RulesOtherwise | TVRename/Finders/FinderHelper.cs:31-38 | without the date check, or when it fails, the result is the rule scan of the file's stem in its directory |
| Identify.ExtensionIgnoredByRules | TVRename/Finders/FinderHelper.cs:34-38 | the extension plays no part in the rule scan of a file |
| Identify.NoShowNoDate | TVRename/Finders/FinderHelper.cs:41-49 | without a show the date check never succeeds, and the rules see the name with an empty hint |
| Identify.FileFoundHasNumber | TVRename/Finders/FinderHelper.cs:19-39 | a file identification returns true if and only if it has a season or an episode |
| Identify.DirectoryNeverDated | TVRename/Finders/FinderHelper.cs:102-116 | a directory is never date-checked: its result is the rule scan of its name in its parent, with maxEp dropped |
| Identify.DirectoryEdges | TVRename/Finders/FinderHelper.cs:108-115 | a root directory throws; no directory gives no match |
| Identify.ItemFullPath | TVRename/Finders/FinderHelper.cs:124-127 | a full-path rule sees an item name as the separator followed by the simplified name |
| Reconcile.FindEpOnDisk | TVRename/Finders/FinderHelper.cs:161-201 | the nested loops return `OnDisk`: the kept files of the wanted season's folders in folder and file order, or the first exception |
| Reconcile.ScanFolder | TVRename/Finders/FinderHelper.cs:185-197 | the loop over one folder's files returns the files kept, in order, or the first exception |
| Reconcile.FindProcessedEpOnDisk | TVRename/Finders/FinderHelper.cs:155-159 | a processed episode is looked for with its own show |
| Reconcile.EpisodeNeeded | TVRename/Finders/FinderHelper.cs:203-226 | the loop returns `EpisodeStillNeeded`: an episode missing from the catalog is needed; otherwise it is needed when every file found on disk is the tested item |
| Reconcile.FileNeeded | TVRename/Finders/FinderHelper.cs:134-143 | the method returns `FileStillNeeded`: an identified file is needed when its episode is; an unidentified file, or no file at all, is needed; an identification exception escapes |
| Reconcile.DirectoryNeeded | TVRename/Finders/FinderHelper.cs:145-154 | the same for a directory, identified through the directory overload; no directory at all is needed |
| Reconcile.KeepMeans | TVRename/Finders/FinderHelper.cs:187-196 | a file is kept if and only if its extension is useful and it is identified with the wanted episode and the wanted or an unknown season; a useless extension never throws |
| Reconcile.KeptMembers | TVRename/Finders/FinderHelper.cs:185-197 | the loop succeeds if and only if no identification throws, and then a file is in the result if and only if it was visited and kept |
| Reconcile.FirstFaultWins | TVRename/Finders/FinderHelper.cs:185-197 | the first file, in visiting order, whose identification throws decides the exception |
| Reconcile.KeptAppend | TVRename/Finders/FinderHelper.cs:179-198 | the loop over two runs of files is the loop over the first, then the second |
| Reconcile.VisitedAppend | TVRename/Finders/FinderHelper.cs:179-183 | the files visited for two runs of folders are those of the first run, then those of the second |
| Reconcile.FolderOrderKept | TVRename/Finders/FinderHelper.cs:179-198 | the files of earlier folders come before those of later ones |
| Reconcile.NoFolderNoFiles | TVRename/Finders/FinderHelper.cs:176-177 | a wanted season with no folder entry gives an empty list |
| Reconcile.NullListingSkipped | TVRename/Finders/FinderHelper.cs:181-183 | a folder with a null listing contributes nothing, wherever it stands |
| Reconcile.OnDiskMembers | TVRename/Finders/FinderHelper.cs:169-200 | the files found are exactly the kept files among those listed in the wanted season's folders |
| Reconcile.FolderFault | TVRename/Finders/FinderHelper.cs:179-198 | an exception in one folder ends the whole search with it |
| Reconcile.ThrownStays | TVRename/Finders/FinderHelper.cs:185-197 | once an exception is raised, later files change nothing |
| Reconcile.EpisodeNeededFalseIff | TVRename/Finders/FinderHelper.cs:205-225 | EpisodeNeeded is false if and only if the episode is in the catalog and the search on disk returns a file whose full name differs from the tested item; a missing episode is needed |
| Reconcile.OtherCopyMakesUnneeded | TVRename/Finders/FinderHelper.cs:211-217 | a listed, useful, correctly identified file with another full name makes the episode unneeded |
| Reconcile.OnlyCopyNeeded | TVRename/Finders/FinderHelper.cs:211-225 | when every file found is the tested item, the episode is needed |
| Reconcile.UnidentifiedFileNeeded | TVRename/Finders/FinderHelper.cs:134-143 | a file whose identification fails is needed |
| Reconcile.UnidentifiedDirNeeded | TVRename/Finders/FinderHelper.cs:145-154 | a directory whose identification fails is needed |
| Reconcile.NullEntryNeeded | TVRename/Finders/FinderHelper.cs:134-154 | a null file or a null directory is not identified, so both `FileNeeded` overloads answer true (lines 142 and 153, after lines 22-29 and 108-113) |
| Reconcile.IdentifiedFileDefers | TVRename/Finders/FinderHelper.cs:136-139 | an identified file is needed exactly when `EpisodeNeeded` says its episode is, tested under the file's own full name |
| Reconcile.UnneededFileHasCopy | TVRename/Finders/FinderHelper.cs:134-143 | a file is unneeded only when it is identified, its episode is in the catalog, and another file holds that episode on disk |

## Left out

- The regex engine for the user's rules is a parameter `rx` (input, pattern → groups s/e/f, no match, or malformed). The case-insensitive .NET regex semantics of arbitrary patterns are not modelled.
- The two fixed regexes inside SimplifyFilename are written out as functions that follow the .NET scan: `^[0-9]+$` (including its match before a final newline), and the number search and deletion patterns. The word-character class `\w` and `\b` are ASCII only. `ToLower` changes only ASCII letters.
- Text.ParseInt32: white space and signs are those of the invariant culture; the current culture's sign symbols are not modelled.
- Text.Lower: lower-cases ASCII letters only, not the whole of Unicode as `string.ToLower` does.
- `DateTime.Now`, the `TimeSpan` comparison and en-GB `TryParseExact` (FinderHelper.cs:84-93) are left out. Every rendering found is taken to parse back. Because `closestDate` is reset for every episode, the comparison never changes which episode wins.
- Dates are (year, month, day) triples. `DateTime.ToString` is zero-padded fields joined by dashes, with "yy" as the year modulo 100.
- TheTVDB (FinderHelper.cs:54, 207) is replaced by inputs:
  - the series' seasons in dictionary iteration order (`Series`);
  - `GetEpisode` as a map from (season, episode) in the show's order to the episode, where a missing key stands for `EpisodeNotFoundException`.

  A null series from TheTVDB (a `NullReferenceException`) is not modelled.
- `DirFilesCache.Get` is a map from folder to its files; a missing folder is a null listing. A null cache is replaced by a fresh one over the same disk (FinderHelper.cs:164-165), so it does not appear in the model.
- `AllFolderLocationsEpCheck` is a map from season to folders. Its `checkDirectoryExist` flag is folded into that map.
- `UsefulExtension` is a predicate in the settings. The `TVSettings.Instance` rule list and date flag are parameters.
- `FileInfo.FullName`, `Directory.FullName` and `DirectoryInfo.Parent.FullName` are given as strings in the entries. `Path.DirectorySeparatorChar` is the Windows `\`.
- A null show passed to `FileNeeded`, `EpisodeNeeded` or `FindEpOnDisk` (a `NullReferenceException` there) is not modelled: those operations take a show. The identification overloads do model a missing show.
- Identify.FindSeasEpDir: the directory overload has no maxEp output, so the model reports -1 in its place.
- The overloads at FinderHelper.cs:118-122 and 129-132 only drop the `rex` output of the overloads they call. They are covered by `RuleMatch.FindSeasEpInName` and `Identify.FindSeasEpWithSettings`, which return everything.
- `TVRename/Forms/Supporting/CopyMoveProgress.cs` (a progress dialog, timers, drive space, floating point) and `TVRename/Finders/qBitTorrentFinder.cs` (an HTTP client of the download program) are not part of this model. Neither is the download reconciliation that consumes `EpisodeNeeded`.
