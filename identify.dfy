/** The FindSeasEp overloads for files, directories and bare item names: each one
    dispatches to the date check and to the rule scan over a name. */
module Identify {
  import opened Text
  import opened Entities
  import opened RuleMatch
  import opened DateMatch
  import Simplify

  /** What FindSeasEp(FileInfo, ..., rexps, doDateCheck, ...) returns: no file gives no
      match; a successful date check, when asked for, decides; otherwise the rules run
      over the file's name without its extension, in the file's directory. */
  function FileScan(fi: Option<FileEntry>, show: Option<Show>, series: Series, rules: seq<Rule>,
                    doDateCheck: bool, rx: Regex): Fallible<SeasEp>
  {
    if fi.None? then Ok(NoMatchResult)
    else if doDateCheck && DateCheck(fi, show, series).found then Ok(DateCheck(fi, show, series))
    else NameScan(fi.value.directory, fi.value.stem, show, rules, rx)
  }

  /** What FindSeasEp(DirectoryInfo, ...) returns. The overload has no maxEp output, so
      the result carries -1 there. */
  function DirScan(di: Option<DirEntry>, show: Option<Show>, rules: seq<Rule>, rx: Regex): Fallible<SeasEp> {
    if di.None? then Ok(NoMatchResult)
    else if di.value.parent.None? then Thrown(NullParent)
    else match NameScan(di.value.parent.value, di.value.name, show, rules, rx)
      case Thrown(e) => Thrown(e)
      case Ok(r) => Ok(r.(maxEp := -1))
  }

  method FindSeasEpFile(fi: Option<FileEntry>, show: Option<Show>, series: Series, rules: seq<Rule>,
                        doDateCheck: bool, rx: Regex) returns (r: Fallible<SeasEp>)
    ensures r == FileScan(fi, show, series, rules, doDateCheck, rx)
  {
    if fi.None? {
      return Ok(NoMatchResult);
    }
    if doDateCheck {
      var dated := FindSeasEpDateCheck(fi, show, series);
      if dated.found {
        return Ok(dated);
      }
    }
    var f := fi.value;
    var filename := f.Name();
    var l := |filename|;
    var le := |f.extension|;
    assert filename[..l - le] == f.stem;
    filename := filename[..l - le];
    r := FindSeasEpInName(f.directory, filename, show, rules, rx);
  }

  method FindSeasEpWithSettings(fi: Option<FileEntry>, show: Option<Show>, series: Series,
                                settings: Settings, rx: Regex) returns (r: Fallible<SeasEp>)
    ensures r == FileScan(fi, show, series, settings.rules, settings.lookForDate, rx)
  {
    r := FindSeasEpFile(fi, show, series, settings.rules, settings.lookForDate, rx);
  }

  method FindSeasEpDir(di: Option<DirEntry>, show: Option<Show>, settings: Settings, rx: Regex)
    returns (r: Fallible<SeasEp>)
    ensures r == DirScan(di, show, settings.rules, rx)
  {
    if di.None? {
      return Ok(NoMatchResult);
    }
    var d := di.value;
    if d.parent.None? {
      return Thrown(NullParent);
    }
    var found := FindSeasEpInName(d.parent.value, d.name, show, settings.rules, rx);
    if found.Thrown? {
      return found;
    }
    return Ok(found.value.(maxEp := -1));
  }

  /** FindSeasEp(itemName, ...): an item name without a directory. */
  method FindSeasEpItem(itemName: string, show: Option<Show>, settings: Settings, rx: Regex)
    returns (r: Fallible<SeasEp>)
    ensures r == NameScan("", itemName, show, settings.rules, rx)
  {
    r := FindSeasEpInName("", itemName, show, settings.rules, rx);
  }

  // ---------------------------------------------------------------------------
  // Properties

  /** No file: false, every value -1, no rule. */
  lemma NullFileNoMatch(show: Option<Show>, series: Series, rules: seq<Rule>, doDateCheck: bool, rx: Regex)
    ensures FileScan(None, show, series, rules, doDateCheck, rx) == Ok(SeasEp(false, -1, -1, -1, None))
  {
  }

  /** With the date check on and successful, its numbers are returned, with maxEp -1 and
      no rule, whatever the rules would say. */
  lemma DateCheckFirst(fi: FileEntry, show: Show, series: Series, rules: seq<Rule>, rx: Regex)
    requires DateCheck(Some(fi), Some(show), series).found
    ensures var r := FileScan(Some(fi), Some(show), series, rules, true, rx);
      var d := DateCheck(Some(fi), Some(show), series);
      && r.Ok? && r.value.found && r.value.seas == d.seas && r.value.ep == d.ep
      && r.value.seas != -1 && r.value.ep != -1
      && r.value.maxEp == -1 && r.value.rex == None
  {
  }

  /** Otherwise the rules decide, over the name with its extension stripped and the file's
      directory: what the date check wrote is discarded. */
  lemma RulesOtherwise(fi: FileEntry, show: Option<Show>, series: Series, rules: seq<Rule>,
                       doDateCheck: bool, rx: Regex)
    requires !doDateCheck || !DateCheck(Some(fi), show, series).found
    ensures FileScan(Some(fi), show, series, rules, doDateCheck, rx)
      == NameScan(fi.directory, fi.stem, show, rules, rx)
  {
  }

  /** Only the stem is scanned: two files that differ only in their extension are
      identified alike by the rules. */
  lemma ExtensionIgnoredByRules(fi: FileEntry, ext: string, show: Option<Show>, series: Series,
                                rules: seq<Rule>, rx: Regex)
    ensures FileScan(Some(fi), show, series, rules, false, rx)
      == FileScan(Some(fi.(extension := ext)), show, series, rules, false, rx)
  {
  }

  /** Without a show, the date check never succeeds: a file is then identified by the
      rules alone, with an empty show-name hint. */
  lemma NoShowNoDate(fi: FileEntry, series: Series, rules: seq<Rule>, rx: Regex)
    ensures FileScan(Some(fi), None, series, rules, true, rx)
      == Ok(ScanRules(rules, rx, MakeSubject(fi.directory, Simplify.DotsToSpaces(fi.stem))))
  {
  }

  /** A successful identification of a file always has a season or an episode. */
  lemma FileFoundHasNumber(fi: Option<FileEntry>, show: Option<Show>, series: Series, rules: seq<Rule>,
                           doDateCheck: bool, rx: Regex)
    ensures var r := FileScan(fi, show, series, rules, doDateCheck, rx);
      r.Ok? ==> (r.value.found <==> r.value.seas != -1 || r.value.ep != -1)
  {
    if fi.Some? && !(doDateCheck && DateCheck(fi, show, series).found) {
      match Simplify.Simplified(fi.value.stem, ShowNameHint(show))
      case Thrown(_) =>
      case Ok(f) => ScanResult(rules, rx, MakeSubject(fi.value.directory, f));
    }
  }

  /** A directory never goes through the date check: even with date matching switched on
      in the settings, only the rules over its name, in its parent, count. */
  lemma DirectoryNeverDated(di: DirEntry, show: Option<Show>, settings: Settings, rx: Regex)
    requires di.parent.Some?
    ensures var r := DirScan(Some(di), show, settings.rules, rx);
      var n := NameScan(di.parent.value, di.name, show, settings.rules, rx);
      && r.Thrown? == n.Thrown?
      && (r.Ok? ==> r.value == n.value.(maxEp := -1))
  {
  }

  /** A root directory (no parent) makes the overload throw; no directory gives no match. */
  lemma DirectoryEdges(name: string, full: string, show: Option<Show>, rules: seq<Rule>, rx: Regex)
    ensures DirScan(Some(DirEntry(name, None, full)), show, rules, rx) == Thrown(NullParent)
    ensures DirScan(None, show, rules, rx) == Ok(SeasEp(false, -1, -1, -1, None))
  {
  }

  /** The item-name overload scans the name as if it stood in a folder with an empty name:
      a full-path rule sees the separator followed by the simplified name. */
  lemma ItemFullPath(itemName: string, show: Option<Show>, rules: seq<Rule>, rx: Regex)
    requires Simplify.Simplified(itemName, ShowNameHint(show)).Ok?
    ensures var f := Simplify.Simplified(itemName, ShowNameHint(show)).value;
      NameScan("", itemName, show, rules, rx)
        == Ok(ScanRules(rules, rx, Subject(Lower(f) + " ", Lower([DirectorySeparator] + f) + " ")))
  {
    var f := Simplify.Simplified(itemName, ShowNameHint(show)).value;
    assert "" + [DirectorySeparator] + f == [DirectorySeparator] + f;
  }
}
