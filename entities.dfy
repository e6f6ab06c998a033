/** The values the finder works on: the show and its episode catalog, file system
    entries, the user's filename rules, the regex engine's report, and the
    season/episode result. */
module Entities {
  import opened Text

  /** An exception that escapes the finder: nothing in it catches these. */
  datatype Fault =
    | RemoveOutOfRange  // String.Remove(0, n) on a string shorter than n
    | NullParent        // DirectoryInfo.Parent of a root directory is null

  datatype Fallible<+T> = Ok(value: T) | Thrown(fault: Fault)

  /** A calendar date (the `DateTime` of an air date). */
  datatype Date = Date(year: nat, month: nat, day: nat)

  /** One catalog episode, with its numbering in both orders and an optional air date. */
  datatype Episode = Episode(
    airedSeason: int, airedEp: int,
    dvdSeason: int, dvdEp: int,
    airDate: Option<Date>)

  /** A season of the catalog; `episodes` is in dictionary iteration order. */
  datatype Season = Season(number: int, episodes: seq<Episode>)

  /** The catalog entry of a series: its seasons in each order, in dictionary iteration order. */
  datatype Series = Series(airedSeasons: seq<Season>, dvdSeasons: seq<Season>)

  /** The user's show: its name, the active episode order and the seasons to ignore. */
  datatype Show = Show(name: string, dvdOrder: bool, ignoreSeasons: set<int>)

  /** A file: `directory` is the full name of its folder, its name is `stem + extension`. */
  datatype FileEntry = FileEntry(directory: string, stem: string, extension: string, fullName: string) {
    function Name(): string { stem + extension }
  }

  /** A directory: `parent` is the full name of its parent, absent for a root. */
  datatype DirEntry = DirEntry(name: string, parent: Option<string>, fullName: string)

  /** One filename rule: an enabled flag, a full-path flag and a pattern with groups s, e, f. */
  datatype Rule = Rule(enabled: bool, useFullPath: bool, pattern: string)

  /** What the regex engine reports for a pattern against an input: the text of groups
      s, e and f (empty when a group took no part), no match, or the ArgumentException
      or FormatException of a malformed pattern. */
  datatype MatchOutcome = Matched(s: string, e: string, f: string) | NoMatch | Malformed

  /** The regex engine, case-insensitive: (input, pattern) to outcome. */
  type Regex = (string, string) -> MatchOutcome

  /** The return value and out-parameters of a FindSeasEp call; -1 is "unknown" and
      `rex` is the position in the rule list of the rule that last matched. */
  datatype SeasEp = SeasEp(found: bool, seas: int, ep: int, maxEp: int, rex: Option<nat>)

  const NoMatchResult := SeasEp(false, -1, -1, -1, None)

  /** The settings the finder reads: the rule list, the date-in-filename flag and the
      useful-extension test. */
  datatype Settings = Settings(rules: seq<Rule>, lookForDate: bool, usefulExtension: string -> bool)

  /** The season and episode number of an episode in the show's active order. */
  function Numbering(e: Episode, dvdOrder: bool): (int, int) {
    if dvdOrder then (e.dvdSeason, e.dvdEp) else (e.airedSeason, e.airedEp)
  }
}
