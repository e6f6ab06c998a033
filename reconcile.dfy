/** FindEpOnDisk, EpisodeNeeded and FileNeeded: which files on disk hold an episode, and
    whether a file or folder adds an episode the library does not already have. */
module Reconcile {
  import opened Text
  import opened Entities
  import opened Identify

  /** Everything the reconciliation reads besides the show and the episode:
      - `listings`: `DirFilesCache.Get`, a folder's files; a folder without an entry has a null listing;
      - `folders`: `ShowItem.AllFolderLocationsEpCheck`, the folders of each season;
      - `catalog`: `SeriesInfo.GetEpisode` in the show's active order; a missing key is
        `EpisodeNotFoundException`;
      - `series`: the show's catalog entry, as the date check reads it;
      - `settings` and `rx`: the settings and the regex engine the identification uses. */
  datatype Library = Library(
    listings: map<string, seq<FileEntry>>,
    folders: map<int, seq<string>>,
    catalog: map<(int, int), Episode>,
    series: Series,
    settings: Settings,
    rx: Regex)

  /** An episode together with its show. */
  datatype ProcessedEpisode = ProcessedEpisode(episode: Episode, show: Show)

  /** The files the loops visit: the listings of the folders, in order, skipping null ones. */
  function Visited(listings: map<string, seq<FileEntry>>, folders: seq<string>): seq<FileEntry> {
    if folders == [] then []
    else
      var last := folders[|folders| - 1];
      Visited(listings, folders[..|folders| - 1]) + (if last in listings then listings[last] else [])
  }

  /** How a file is identified inside FindEpOnDisk: through the settings overload, so the
      date check runs when the settings ask for it. */
  function Identified(lib: Library, show: Show, f: FileEntry): Fallible<SeasEp> {
    FileScan(Some(f), Some(show), lib.series, lib.settings.rules, lib.settings.lookForDate, lib.rx)
  }

  /** Whether the loop adds a file wanted as (season, episode) `w`: an unknown season counts
      as the wanted one; identifying the file may throw. */
  function Keep(lib: Library, show: Show, f: FileEntry, w: (int, int)): Fallible<bool> {
    if !lib.settings.usefulExtension(f.extension) then Ok(false)
    else match Identified(lib, show, f)
      case Thrown(e) => Thrown(e)
      case Ok(r) => Ok(r.found && (if r.seas == -1 then w.0 else r.seas) == w.0 && r.ep == w.1)
  }

  /** Run one part of the loop after another: the first exception stops everything. */
  function Then(a: Fallible<seq<FileEntry>>, b: Fallible<seq<FileEntry>>): Fallible<seq<FileEntry>> {
    match a
    case Thrown(e) => Thrown(e)
    case Ok(x) =>
      match b
      case Thrown(e) => Thrown(e)
      case Ok(y) => Ok(x + y)
  }

  function KeptOne(lib: Library, show: Show, f: FileEntry, w: (int, int)): Fallible<seq<FileEntry>> {
    match Keep(lib, show, f, w)
    case Thrown(e) => Thrown(e)
    case Ok(b) => Ok(if b then [f] else [])
  }

  /** The files of `files` the loop adds, in order, or the first exception raised. */
  function Kept(lib: Library, show: Show, files: seq<FileEntry>, w: (int, int)): Fallible<seq<FileEntry>> {
    if files == [] then Ok([])
    else Then(Kept(lib, show, files[..|files| - 1], w), KeptOne(lib, show, files[|files| - 1], w))
  }

  /** The (season, episode) an episode is looked for under, in the show's order. */
  function WantedOf(show: Show, epi: Episode): (int, int) { Numbering(epi, show.dvdOrder) }

  /** What FindEpOnDisk returns, or the exception it raises. */
  function OnDisk(lib: Library, show: Show, epi: Episode): Fallible<seq<FileEntry>> {
    var w := WantedOf(show, epi);
    if w.0 !in lib.folders then Ok([])
    else Kept(lib, show, Visited(lib.listings, lib.folders[w.0]), w)
  }

  /** No listed file other than the tested item itself. */
  predicate NoOtherCopy(files: seq<FileEntry>, tested: string) {
    forall k :: 0 <= k < |files| ==> files[k].fullName == tested
  }

  /** What EpisodeNeeded returns, or the exception it lets through. */
  function EpisodeStillNeeded(lib: Library, show: Show, seasF: int, epF: int, tested: string): Fallible<bool> {
    if (seasF, epF) !in lib.catalog then Ok(true)
    else match OnDisk(lib, show, lib.catalog[(seasF, epF)])
      case Thrown(e) => Thrown(e)
      case Ok(files) => Ok(NoOtherCopy(files, tested))
  }

  /** FileNeeded(FileInfo, ...): an identified file is needed when its episode is; an
      unidentified one, or no file at all, is kept. */
  function FileStillNeeded(lib: Library, show: Show, fi: Option<FileEntry>): Fallible<bool> {
    match FileScan(fi, Some(show), lib.series, lib.settings.rules, lib.settings.lookForDate, lib.rx)
    case Thrown(e) => Thrown(e)
    case Ok(r) =>
      if r.found && fi.Some? then EpisodeStillNeeded(lib, show, r.seas, r.ep, fi.value.fullName) else Ok(true)
  }

  /** FileNeeded(DirectoryInfo, ...), through the directory overload. */
  function DirStillNeeded(lib: Library, show: Show, di: Option<DirEntry>): Fallible<bool> {
    match DirScan(di, Some(show), lib.settings.rules, lib.rx)
    case Thrown(e) => Thrown(e)
    case Ok(r) =>
      if r.found && di.Some? then EpisodeStillNeeded(lib, show, r.seas, r.ep, di.value.fullName) else Ok(true)
  }

  // ---------------------------------------------------------------------------
  // The operations

  method FindEpOnDisk(lib: Library, show: Show, epi: Episode) returns (r: Fallible<seq<FileEntry>>)
    ensures r == OnDisk(lib, show, epi)
  {
    var ret: seq<FileEntry> := [];
    var seasWanted := if show.dvdOrder then epi.dvdSeason else epi.airedSeason;
    var epWanted := if show.dvdOrder then epi.dvdEp else epi.airedEp;
    if seasWanted !in lib.folders {
      return Ok(ret);
    }
    var dirs := lib.folders[seasWanted];
    for i := 0 to |dirs|
      invariant Kept(lib, show, Visited(lib.listings, dirs[..i]), (seasWanted, epWanted)) == Ok(ret)
    {
      assert dirs[..i + 1][..i] == dirs[..i];
      var folder := dirs[i];
      if folder !in lib.listings {
        assert Visited(lib.listings, dirs[..i + 1]) == Visited(lib.listings, dirs[..i]) + [];
        assert Visited(lib.listings, dirs[..i]) + [] == Visited(lib.listings, dirs[..i]);
        continue;
      }
      var files := lib.listings[folder];
      assert Visited(lib.listings, dirs[..i + 1]) == Visited(lib.listings, dirs[..i]) + files;
      var got := ScanFolder(lib, show, files, seasWanted, epWanted);
      KeptAppend(lib, show, Visited(lib.listings, dirs[..i]), files, (seasWanted, epWanted));
      if got.Thrown? {
        FolderFault(lib, show, dirs, i, (seasWanted, epWanted));
        return Thrown(got.fault);
      }
      ret := ret + got.value;
      assert Kept(lib, show, Visited(lib.listings, dirs[..i + 1]), (seasWanted, epWanted)) == Ok(ret);
    }
    assert dirs[..|dirs|] == dirs;
    return Ok(ret);
  }

  /** The inner loop of FindEpOnDisk, over the files of one folder. */
  method ScanFolder(lib: Library, show: Show, files: seq<FileEntry>, seasWanted: int, epWanted: int)
    returns (r: Fallible<seq<FileEntry>>)
    ensures r == Kept(lib, show, files, (seasWanted, epWanted))
  {
    ghost var w := (seasWanted, epWanted);
    var ret: seq<FileEntry> := [];
    for j := 0 to |files|
      invariant Kept(lib, show, files[..j], w) == Ok(ret)
    {
      var fiTemp := files[j];
      assert files[..j + 1] == files[..j] + [fiTemp];
      KeptStep(lib, show, files[..j], fiTemp, w);
      if !lib.settings.usefulExtension(fiTemp.extension) {
        assert ret + [] == ret;
        continue;
      }
      var found := FindSeasEpWithSettings(Some(fiTemp), Some(show), lib.series, lib.settings, lib.rx);
      if found.Thrown? {
        assert files == files[..j + 1] + files[j + 1..];
        ThrownStays(lib, show, files[..j + 1], files[j + 1..], w);
        return Thrown(found.fault);
      }
      var seasFound := found.value.seas;
      var epFound := found.value.ep;
      if !found.value.found {
        assert ret + [] == ret;
        continue;
      }
      if seasFound == -1 {
        seasFound := seasWanted;
      }
      if seasFound == seasWanted && epFound == epWanted {
        ret := ret + [fiTemp];
      } else {
        assert ret + [] == ret;
      }
    }
    assert files[..|files|] == files;
    return Ok(ret);
  }

  /** The FindEpOnDisk overload for a processed episode: its own show is used. */
  method FindProcessedEpOnDisk(lib: Library, pe: ProcessedEpisode) returns (r: Fallible<seq<FileEntry>>)
    ensures r == OnDisk(lib, pe.show, pe.episode)
  {
    r := FindEpOnDisk(lib, pe.show, pe.episode);
  }

  method EpisodeNeeded(lib: Library, show: Show, seasF: int, epF: int, tested: string) returns (r: Fallible<bool>)
    ensures r == EpisodeStillNeeded(lib, show, seasF, epF, tested)
  {
    if (seasF, epF) !in lib.catalog {
      return Ok(true);
    }
    var ep := lib.catalog[(seasF, epF)];
    var pep := ProcessedEpisode(ep, show);
    var onDisk := FindEpOnDisk(lib, show, pep.episode);
    if onDisk.Thrown? {
      return Thrown(onDisk.fault);
    }
    var files := onDisk.value;
    for i := 0 to |files|
      invariant forall k :: 0 <= k < i ==> files[k].fullName == tested
    {
      if tested == files[i].fullName {
        continue;
      }
      return Ok(false);
    }
    return Ok(true);
  }

  method FileNeeded(lib: Library, show: Show, fi: Option<FileEntry>) returns (r: Fallible<bool>)
    ensures r == FileStillNeeded(lib, show, fi)
  {
    var found := FindSeasEpWithSettings(fi, Some(show), lib.series, lib.settings, lib.rx);
    if found.Thrown? {
      return Thrown(found.fault);
    }
    if found.value.found {
      r := EpisodeNeeded(lib, show, found.value.seas, found.value.ep, fi.value.fullName);
      return;
    }
    return Ok(true);
  }

  method DirectoryNeeded(lib: Library, show: Show, di: Option<DirEntry>) returns (r: Fallible<bool>)
    ensures r == DirStillNeeded(lib, show, di)
  {
    var found := FindSeasEpDir(di, Some(show), lib.settings, lib.rx);
    if found.Thrown? {
      return Thrown(found.fault);
    }
    if found.value.found {
      r := EpisodeNeeded(lib, show, found.value.seas, found.value.ep, di.value.fullName);
      return;
    }
    return Ok(true);
  }

  // ---------------------------------------------------------------------------
  // Properties of the loop structure

  lemma ThenAssociative(a: Fallible<seq<FileEntry>>, b: Fallible<seq<FileEntry>>, c: Fallible<seq<FileEntry>>)
    ensures Then(Then(a, b), c) == Then(a, Then(b, c))
  {
    if a.Ok? && b.Ok? && c.Ok? {
      assert (a.value + b.value) + c.value == a.value + (b.value + c.value);
    }
  }

  /** The loop over a concatenation is the loop over each part, one after the other. */
  lemma {:induction false} KeptAppend(lib: Library, show: Show, xs: seq<FileEntry>, ys: seq<FileEntry>, w: (int, int))
    ensures Kept(lib, show, xs + ys, w) == Then(Kept(lib, show, xs, w), Kept(lib, show, ys, w))
    decreases |ys|
  {
    if ys == [] {
      assert xs + ys == xs;
      var k := Kept(lib, show, xs, w);
      if k.Ok? {
        assert k.value + [] == k.value;
      }
    } else {
      var init := ys[..|ys| - 1];
      var last := ys[|ys| - 1];
      assert (xs + ys)[..|xs + ys| - 1] == xs + init;
      assert (xs + ys)[|xs + ys| - 1] == last;
      KeptAppend(lib, show, xs, init, w);
      ThenAssociative(Kept(lib, show, xs, w), Kept(lib, show, init, w), KeptOne(lib, show, last, w));
    }
  }

  lemma {:induction false} VisitedAppend(listings: map<string, seq<FileEntry>>, a: seq<string>, b: seq<string>)
    ensures Visited(listings, a + b) == Visited(listings, a) + Visited(listings, b)
    decreases |b|
  {
    if b == [] {
      assert a + b == a;
    } else {
      var init := b[..|b| - 1];
      assert (a + b)[..|a + b| - 1] == a + init;
      assert (a + b)[|a + b| - 1] == b[|b| - 1];
      VisitedAppend(listings, a, init);
    }
  }

  lemma KeptStep(lib: Library, show: Show, xs: seq<FileEntry>, f: FileEntry, w: (int, int))
    ensures Kept(lib, show, xs + [f], w) == Then(Kept(lib, show, xs, w), KeptOne(lib, show, f, w))
  {
    assert (xs + [f])[..|xs|] == xs;
  }

  /** Once an exception is raised, the files after it change nothing. */
  lemma ThrownStays(lib: Library, show: Show, xs: seq<FileEntry>, ys: seq<FileEntry>, w: (int, int))
    requires Kept(lib, show, xs, w).Thrown?
    ensures Kept(lib, show, xs + ys, w) == Kept(lib, show, xs, w)
  {
    KeptAppend(lib, show, xs, ys, w);
  }

  /** An exception raised in the files of folder i ends the whole search with it. */
  lemma FolderFault(lib: Library, show: Show, dirs: seq<string>, i: nat, w: (int, int))
    requires i < |dirs| && Kept(lib, show, Visited(lib.listings, dirs[..i + 1]), w).Thrown?
    ensures Kept(lib, show, Visited(lib.listings, dirs), w) == Kept(lib, show, Visited(lib.listings, dirs[..i + 1]), w)
  {
    assert dirs == dirs[..i + 1] + dirs[i + 1..];
    VisitedAppend(lib.listings, dirs[..i + 1], dirs[i + 1..]);
    ThrownStays(lib, show, Visited(lib.listings, dirs[..i + 1]), Visited(lib.listings, dirs[i + 1..]), w);
  }

  lemma FaultAt(lib: Library, show: Show, xs: seq<FileEntry>, f: FileEntry, w: (int, int))
    requires Kept(lib, show, xs, w).Ok? && Keep(lib, show, f, w).Thrown?
    ensures Kept(lib, show, xs + [f], w) == Thrown(Keep(lib, show, f, w).fault)
  {
    KeptStep(lib, show, xs, f, w);
  }

  lemma Regroup(files: seq<FileEntry>, j: nat)
    requires j < |files|
    ensures files == (files[..j] + [files[j]]) + files[j + 1..]
  {
  }

  // ---------------------------------------------------------------------------
  // Properties of FindEpOnDisk

  /** A file is kept exactly when it has a useful extension and is identified with the
      wanted episode number and either the wanted season or an unknown one; a useless
      extension never gets as far as the identification, so it cannot throw. */
  lemma KeepMeans(lib: Library, show: Show, f: FileEntry, w: (int, int))
    ensures Keep(lib, show, f, w) == Ok(true) <==>
      && lib.settings.usefulExtension(f.extension)
      && Identified(lib, show, f).Ok?
      && var r := Identified(lib, show, f).value;
         r.found && (r.seas == w.0 || r.seas == -1) && r.ep == w.1
    ensures Keep(lib, show, f, w).Thrown? <==>
      lib.settings.usefulExtension(f.extension) && Identified(lib, show, f).Thrown?
  {
  }

  /** When no file throws, the kept files are exactly the files of `files` that are kept one
      by one; any thrown exception makes the result an exception. */
  lemma {:induction false} KeptMembers(lib: Library, show: Show, files: seq<FileEntry>, w: (int, int))
    ensures Kept(lib, show, files, w).Ok? <==> forall k :: 0 <= k < |files| ==> Keep(lib, show, files[k], w).Ok?
    ensures Kept(lib, show, files, w).Ok? ==>
      forall f :: f in Kept(lib, show, files, w).value <==> f in files && Keep(lib, show, f, w) == Ok(true)
  {
    if files != [] {
      var init := files[..|files| - 1];
      var last := files[|files| - 1];
      KeptMembers(lib, show, init, w);
      assert files == init + [last];
      assert Kept(lib, show, files, w) == Then(Kept(lib, show, init, w), KeptOne(lib, show, last, w));
      forall k | 0 <= k < |init| ensures init[k] == files[k] { }
      assert forall f :: f in files <==> f in init || f == last;
    }
  }

  /** The first file, in visiting order, whose identification throws decides the exception. */
  lemma FirstFaultWins(lib: Library, show: Show, files: seq<FileEntry>, w: (int, int), j: nat)
    requires j < |files| && Keep(lib, show, files[j], w).Thrown?
    requires forall k :: 0 <= k < j ==> Keep(lib, show, files[k], w).Ok?
    ensures Kept(lib, show, files, w) == Thrown(Keep(lib, show, files[j], w).fault)
  {
    KeptMembers(lib, show, files[..j], w);
    FaultAt(lib, show, files[..j], files[j], w);
    Regroup(files, j);
    ThrownStays(lib, show, files[..j] + [files[j]], files[j + 1..], w);
  }

  /** A season without folders has no files on disk. */
  lemma NoFolderNoFiles(lib: Library, show: Show, epi: Episode)
    requires WantedOf(show, epi).0 !in lib.folders
    ensures OnDisk(lib, show, epi) == Ok([])
  {
  }

  /** A folder with a null listing contributes nothing, wherever it stands. */
  lemma NullListingSkipped(listings: map<string, seq<FileEntry>>, a: seq<string>, folder: string, b: seq<string>)
    requires folder !in listings
    ensures Visited(listings, a + [folder] + b) == Visited(listings, a + b)
  {
    VisitedAppend(listings, a + [folder], b);
    VisitedAppend(listings, a, b);
    assert (a + [folder])[..|a|] == a;
  }

  /** The files found are exactly the kept files of the wanted season's folders. */
  lemma OnDiskMembers(lib: Library, show: Show, epi: Episode)
    ensures var w := WantedOf(show, epi);
      var r := OnDisk(lib, show, epi);
      r.Ok? && w.0 in lib.folders ==>
        forall f :: f in r.value <==>
          f in Visited(lib.listings, lib.folders[w.0]) && Keep(lib, show, f, w) == Ok(true)
  {
    var w := WantedOf(show, epi);
    if w.0 in lib.folders {
      KeptMembers(lib, show, Visited(lib.listings, lib.folders[w.0]), w);
    }
  }

  /** Folder order is kept: the files of the earlier folders come first. */
  lemma FolderOrderKept(lib: Library, show: Show, a: seq<string>, b: seq<string>, w: (int, int))
    ensures Kept(lib, show, Visited(lib.listings, a + b), w)
      == Then(Kept(lib, show, Visited(lib.listings, a), w), Kept(lib, show, Visited(lib.listings, b), w))
  {
    VisitedAppend(lib.listings, a, b);
    KeptAppend(lib, show, Visited(lib.listings, a), Visited(lib.listings, b), w);
  }

  // ---------------------------------------------------------------------------
  // Properties of EpisodeNeeded and FileNeeded

  /** EpisodeNeeded is false exactly when the episode is in the catalog and the search on
      disk returns a file other than the tested item; an episode missing from the catalog
      is needed. */
  lemma EpisodeNeededFalseIff(lib: Library, show: Show, seasF: int, epF: int, tested: string)
    ensures (seasF, epF) !in lib.catalog ==> EpisodeStillNeeded(lib, show, seasF, epF, tested) == Ok(true)
    ensures EpisodeStillNeeded(lib, show, seasF, epF, tested) == Ok(false) <==>
      && (seasF, epF) in lib.catalog
      && OnDisk(lib, show, lib.catalog[(seasF, epF)]).Ok?
      && exists f :: f in OnDisk(lib, show, lib.catalog[(seasF, epF)]).value && f.fullName != tested
  {
    if (seasF, epF) in lib.catalog && OnDisk(lib, show, lib.catalog[(seasF, epF)]).Ok? {
      var files := OnDisk(lib, show, lib.catalog[(seasF, epF)]).value;
      if !NoOtherCopy(files, tested) {
        var k :| 0 <= k < |files| && files[k].fullName != tested;
        assert files[k] in files;
      }
    }
  }

  /** Another copy of the episode on disk: a file with a different full name, with a useful
      extension, listed in one of the season's folders and identified as the episode (an
      unknown season counting as the wanted one), makes the episode unneeded, provided no
      identification on the way throws. */
  lemma OtherCopyMakesUnneeded(lib: Library, show: Show, seasF: int, epF: int, tested: string, f: FileEntry)
    requires (seasF, epF) in lib.catalog
    requires var w := WantedOf(show, lib.catalog[(seasF, epF)]);
      && w.0 in lib.folders
      && f in Visited(lib.listings, lib.folders[w.0])
      && Keep(lib, show, f, w) == Ok(true)
      && OnDisk(lib, show, lib.catalog[(seasF, epF)]).Ok?
    requires f.fullName != tested
    ensures EpisodeStillNeeded(lib, show, seasF, epF, tested) == Ok(false)
  {
    OnDiskMembers(lib, show, lib.catalog[(seasF, epF)]);
    EpisodeNeededFalseIff(lib, show, seasF, epF, tested);
  }

  /** An unidentified file is kept: FileNeeded fails open. */
  lemma UnidentifiedFileNeeded(lib: Library, show: Show, fi: FileEntry)
    requires Identified(lib, show, fi).Ok? && !Identified(lib, show, fi).value.found
    ensures FileStillNeeded(lib, show, Some(fi)) == Ok(true)
  {
  }

  lemma UnidentifiedDirNeeded(lib: Library, show: Show, di: DirEntry)
    requires DirScan(Some(di), Some(show), lib.settings.rules, lib.rx).Ok?
    requires !DirScan(Some(di), Some(show), lib.settings.rules, lib.rx).value.found
    ensures DirStillNeeded(lib, show, Some(di)) == Ok(true)
  {
  }

  /** No file or no directory at all: the identification finds nothing, so it is needed. */
  lemma NullEntryNeeded(lib: Library, show: Show)
    ensures FileStillNeeded(lib, show, None) == Ok(true)
    ensures DirStillNeeded(lib, show, None) == Ok(true)
  {
  }

  /** An identified file is needed exactly when its episode is, tested under its own full name. */
  lemma IdentifiedFileDefers(lib: Library, show: Show, fi: FileEntry)
    requires Identified(lib, show, fi).Ok? && Identified(lib, show, fi).value.found
    ensures var r := Identified(lib, show, fi).value;
      FileStillNeeded(lib, show, Some(fi)) == EpisodeStillNeeded(lib, show, r.seas, r.ep, fi.fullName)
  {
  }

  /** A file is unneeded only when it is identified and another file holds its episode. */
  lemma UnneededFileHasCopy(lib: Library, show: Show, fi: FileEntry)
    requires FileStillNeeded(lib, show, Some(fi)) == Ok(false)
    ensures var r := Identified(lib, show, fi);
      && r.Ok? && r.value.found
      && (r.value.seas, r.value.ep) in lib.catalog
      && var d := OnDisk(lib, show, lib.catalog[(r.value.seas, r.value.ep)]);
         d.Ok? && exists g :: g in d.value && g.fullName != fi.fullName
  {
    var r := Identified(lib, show, fi);
    EpisodeNeededFalseIff(lib, show, r.value.seas, r.value.ep, fi.fullName);
  }

  /** A file that is the only copy of its episode on disk is needed. */
  lemma OnlyCopyNeeded(lib: Library, show: Show, seasF: int, epF: int, tested: string)
    requires (seasF, epF) in lib.catalog
    requires var d := OnDisk(lib, show, lib.catalog[(seasF, epF)]);
      d.Ok? && forall g :: g in d.value ==> g.fullName == tested
    ensures EpisodeStillNeeded(lib, show, seasF, epF, tested) == Ok(true)
  {
    EpisodeNeededFalseIff(lib, show, seasF, epF, tested);
  }
}
