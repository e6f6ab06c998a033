/** FindSeasEpDateCheck: identify an episode by an air date written in the filename. */
module DateMatch {
  import opened Text
  import opened Entities

  /** The six renderings tried, in order: yyyy-MM-dd, dd-MM-yyyy, MM-dd-yyyy, yy-MM-dd,
      dd-MM-yy, MM-dd-yy. */
  datatype DateFormat =
    | YearMonthDay | DayMonthYear | MonthDayYear
    | ShortYearMonthDay | DayMonthShortYear | MonthDayShortYear

  const Formats: seq<DateFormat> :=
    [YearMonthDay, DayMonthYear, MonthDayYear, ShortYearMonthDay, DayMonthShortYear, MonthDayShortYear]

  /** `DateTime.ToString(format)`: zero-padded fields joined by dashes. */
  function Render(d: Date, f: DateFormat): string {
    var yyyy := Padded(d.year, 4);
    var yy := Padded(d.year % 100, 2);
    var mm := Padded(d.month, 2);
    var dd := Padded(d.day, 2);
    match f
    case YearMonthDay => yyyy + "-" + mm + "-" + dd
    case DayMonthYear => dd + "-" + mm + "-" + yyyy
    case MonthDayYear => mm + "-" + dd + "-" + yyyy
    case ShortYearMonthDay => yy + "-" + mm + "-" + dd
    case DayMonthShortYear => dd + "-" + mm + "-" + yy
    case MonthDayShortYear => mm + "-" + dd + "-" + yy
  }

  /** The filename with each `/`, `.`, `,` and space turned into a dash. */
  function Dashed(name: string): string {
    ReplaceChar(ReplaceChar(ReplaceChar(ReplaceChar(name, '/', '-'), '.', '-'), ',', '-'), ' ', '-')
  }

  predicate FormatFound(dashed: string, d: Date, k: nat)
    requires k < |Formats|
  {
    Contains(dashed, Render(d, Formats[k]))
  }

  /** One of the first k renderings of d occurs in the dashed name. */
  predicate FoundAmong(dashed: string, d: Date, k: nat)
    requires k <= |Formats|
  {
    k > 0 && (FoundAmong(dashed, d, k - 1) || FormatFound(dashed, d, k - 1))
  }

  /** The episode has an air date and one of its six renderings occurs in the dashed name. */
  predicate AiredInName(e: Episode, dashed: string) {
    e.airDate.Some? && FoundAmong(dashed, e.airDate.value, |Formats|)
  }

  /** The episodes the check visits, in iteration order: every episode of every season
      not in the ignore set. */
  function Eligible(seasons: seq<Season>, ignore: set<int>): seq<Episode> {
    if seasons == [] then []
    else
      var last := seasons[|seasons| - 1];
      Eligible(seasons[..|seasons| - 1], ignore) + (if last.number in ignore then [] else last.episodes)
  }

  /** The position of the last visited episode whose air date is in the name. */
  function LastAired(eps: seq<Episode>, dashed: string): (r: Option<nat>)
    ensures r.Some? ==> r.value < |eps| && AiredInName(eps[r.value], dashed)
    ensures r.Some? ==> forall y :: r.value < y < |eps| ==> !AiredInName(eps[y], dashed)
    ensures r.None? ==> forall y :: 0 <= y < |eps| ==> !AiredInName(eps[y], dashed)
  {
    if eps == [] then None
    else if AiredInName(eps[|eps| - 1], dashed) then Some(|eps| - 1)
    else LastAired(eps[..|eps| - 1], dashed)
  }

  /** The (seas, ep) the loops leave after visiting `eps`. */
  function Picked(eps: seq<Episode>, dashed: string, dvdOrder: bool): (int, int) {
    match LastAired(eps, dashed)
    case None => (-1, -1)
    case Some(x) => Numbering(eps[x], dvdOrder)
  }

  function SeasonsToUse(show: Show, series: Series): seq<Season> {
    if show.dvdOrder then series.dvdSeasons else series.airedSeasons
  }

  /** What FindSeasEpDateCheck returns: success needs both numbers known. */
  function DateCheck(fi: Option<FileEntry>, show: Option<Show>, series: Series): SeasEp {
    if fi.None? || show.None? then NoMatchResult
    else
      var si := show.value;
      var p := Picked(Eligible(SeasonsToUse(si, series), si.ignoreSeasons), Dashed(fi.value.Name()), si.dvdOrder);
      SeasEp(p.1 != -1 && p.0 != -1, p.0, p.1, -1, None)
  }

  lemma PickedStep(eps: seq<Episode>, e: Episode, dashed: string, dvdOrder: bool)
    ensures Picked(eps + [e], dashed, dvdOrder)
      == if AiredInName(e, dashed) then Numbering(e, dvdOrder) else Picked(eps, dashed, dvdOrder)
  {
    assert (eps + [e])[..|eps|] == eps;
  }

  method FindSeasEpDateCheck(fi: Option<FileEntry>, show: Option<Show>, series: Series) returns (r: SeasEp)
    ensures r == DateCheck(fi, show, series)
  {
    if fi.None? || show.None? {
      return NoMatchResult;
    }
    var si := show.value;
    var filename := fi.value.Name();
    filename := ReplaceChar(filename, '/', '-');
    filename := ReplaceChar(filename, '.', '-');
    filename := ReplaceChar(filename, ',', '-');
    filename := ReplaceChar(filename, ' ', '-');
    var ep, seas, maxEp := -1, -1, -1;
    var seasonsToUse := if si.dvdOrder then series.dvdSeasons else series.airedSeasons;
    ghost var ignore := si.ignoreSeasons;
    for i := 0 to |seasonsToUse|
      invariant (seas, ep) == Picked(Eligible(seasonsToUse[..i], ignore), filename, si.dvdOrder)
    {
      ghost var before := Eligible(seasonsToUse[..i], ignore);
      assert seasonsToUse[..i + 1][..i] == seasonsToUse[..i];
      var season := seasonsToUse[i];
      if season.number in si.ignoreSeasons {
        assert Eligible(seasonsToUse[..i + 1], ignore) == before + [] == before;
        continue;
      }
      assert Eligible(seasonsToUse[..i + 1], ignore) == before + season.episodes;
      assert before + season.episodes[..0] == before;
      for j := 0 to |season.episodes|
        invariant (seas, ep) == Picked(before + season.episodes[..j], filename, si.dvdOrder)
      {
        var epi := season.episodes[j];
        assert before + season.episodes[..j + 1] == (before + season.episodes[..j]) + [epi];
        PickedStep(before + season.episodes[..j], epi, filename, si.dvdOrder);
        seas, ep := MatchAirDate(filename, epi, si.dvdOrder, seas, ep);
      }
      assert season.episodes[..|season.episodes|] == season.episodes;
      assert (seas, ep) == Picked(Eligible(seasonsToUse[..i + 1], ignore), filename, si.dvdOrder);
    }
    assert seasonsToUse[..|seasonsToUse|] == seasonsToUse;
    return SeasEp((ep != -1) && (seas != -1), seas, ep, maxEp, None);
  }

  /** The body of the episode loop: try the six renderings of the episode's air date and,
      on any match, take the episode's numbers. */
  method MatchAirDate(filename: string, epi: Episode, dvdOrder: bool, seas0: int, ep0: int)
    returns (seas: int, ep: int)
    ensures (seas, ep) == if AiredInName(epi, filename) then Numbering(epi, dvdOrder) else (seas0, ep0)
  {
    seas, ep := seas0, ep0;
    if epi.airDate.None? {
      return;
    }
    var dt := epi.airDate.value;
    for k := 0 to |Formats|
      invariant (seas, ep) == if FoundAmong(filename, dt, k) then Numbering(epi, dvdOrder) else (seas0, ep0)
    {
      var datestr := Render(dt, Formats[k]);
      if Contains(filename, datestr) {
        seas := if dvdOrder then epi.dvdSeason else epi.airedSeason;
        ep := if dvdOrder then epi.dvdEp else epi.airedEp;
      }
    }
  }

  // ---------------------------------------------------------------------------
  // Properties

  /** Every visited episode belongs to a season that is not ignored. */
  lemma {:induction false} EligibleFrom(seasons: seq<Season>, ignore: set<int>, x: nat)
    requires x < |Eligible(seasons, ignore)|
    ensures exists i :: (0 <= i < |seasons| && seasons[i].number !in ignore &&
                         Eligible(seasons, ignore)[x] in seasons[i].episodes)
  {
    var init := seasons[..|seasons| - 1];
    var last := seasons[|seasons| - 1];
    var front := Eligible(init, ignore);
    if x < |front| {
      EligibleFrom(init, ignore, x);
      var i :| 0 <= i < |init| && init[i].number !in ignore && front[x] in init[i].episodes;
      assert seasons[i] == init[i];
    } else {
      assert last.number !in ignore;
      assert Eligible(seasons, ignore)[x] == last.episodes[x - |front|];
    }
  }

  lemma LastAiredIs(eps: seq<Episode>, dashed: string, x: nat)
    requires x < |eps| && AiredInName(eps[x], dashed)
    requires forall y :: x < y < |eps| ==> !AiredInName(eps[y], dashed)
    ensures LastAired(eps, dashed) == Some(x)
  {
    var r := LastAired(eps, dashed);
    assert r.Some?;
    assert !(r.value < x);
  }

  /** The episode found is the LAST visited one with a rendering of its air date in the
      dashed name, whatever its distance from today; it comes from a season that is not
      ignored and has an air date; success means both of its numbers are known. */
  lemma LastAiredEpisodeWins(fi: FileEntry, show: Show, series: Series, x: nat)
    requires var eps := Eligible(SeasonsToUse(show, series), show.ignoreSeasons);
      && x < |eps| && AiredInName(eps[x], Dashed(fi.Name()))
      && forall y :: x < y < |eps| ==> !AiredInName(eps[y], Dashed(fi.Name()))
    ensures var eps := Eligible(SeasonsToUse(show, series), show.ignoreSeasons);
      var r := DateCheck(Some(fi), Some(show), series);
      && (r.seas, r.ep) == Numbering(eps[x], show.dvdOrder)
      && r.found == (r.seas != -1 && r.ep != -1)
      && r.maxEp == -1 && r.rex == None
      && eps[x].airDate.Some?
      && exists i :: 0 <= i < |SeasonsToUse(show, series)|
           && SeasonsToUse(show, series)[i].number !in show.ignoreSeasons
           && eps[x] in SeasonsToUse(show, series)[i].episodes
  {
    var eps := Eligible(SeasonsToUse(show, series), show.ignoreSeasons);
    LastAiredIs(eps, Dashed(fi.Name()), x);
    EligibleFrom(SeasonsToUse(show, series), show.ignoreSeasons, x);
  }

  /** Without an eligible episode whose air date is in the name, the check fails with
      every value unknown. */
  lemma NoAiredEpisodeFails(fi: FileEntry, show: Show, series: Series)
    requires forall e :: e in Eligible(SeasonsToUse(show, series), show.ignoreSeasons) ==>
      !AiredInName(e, Dashed(fi.Name()))
    ensures DateCheck(Some(fi), Some(show), series) == NoMatchResult
  {
    LastAiredNone(Eligible(SeasonsToUse(show, series), show.ignoreSeasons), Dashed(fi.Name()));
  }

  lemma LastAiredNone(eps: seq<Episode>, dashed: string)
    requires forall e :: e in eps ==> !AiredInName(e, dashed)
    ensures LastAired(eps, dashed) == None
  {
  }

  /** An episode of an ignored season is never picked, even when its air date is in the name. */
  lemma IgnoredSeasonSkipped(seasons: seq<Season>, ignore: set<int>, i: nat)
    requires i < |seasons| && seasons[i].number in ignore
    ensures forall e :: e in Eligible(seasons, ignore) ==> exists j :: 0 <= j < |seasons| && j != i && e in seasons[j].episodes
  {
    forall e | e in Eligible(seasons, ignore)
      ensures exists j :: 0 <= j < |seasons| && j != i && e in seasons[j].episodes
    {
      var x :| 0 <= x < |Eligible(seasons, ignore)| && Eligible(seasons, ignore)[x] == e;
      EligibleFrom(seasons, ignore, x);
    }
  }

  /** Two episodes of one season with their air dates both in the name: the second in
      iteration order is returned. */
  lemma LaterEpisodeBeatsEarlier(fi: FileEntry, show: Show, series: Series, first: Episode, second: Episode)
    requires SeasonsToUse(show, series) == [Season(1, [first, second])] && 1 !in show.ignoreSeasons
    requires AiredInName(first, Dashed(fi.Name())) && AiredInName(second, Dashed(fi.Name()))
    ensures var r := DateCheck(Some(fi), Some(show), series);
      (r.seas, r.ep) == Numbering(second, show.dvdOrder)
  {
    var seasons := SeasonsToUse(show, series);
    assert seasons[..0] == [];
    assert Eligible(seasons, show.ignoreSeasons) == [first, second];
    LastAiredEpisodeWins(fi, show, series, 1);
  }

  /** An episode aired 2020-03-15 is recognised in any name holding "2020.03.15",
      such as "Show.2020.03.15.x264.mkv". */
  lemma AirDateInFilename(e: Episode, pre: string, post: string)
    requires e.airDate == Some(Date(2020, 3, 15))
    ensures AiredInName(e, Dashed(pre + "2020.03.15" + post))
  {
    var dashed := Dashed(pre + "2020.03.15" + post);
    DashedExample(pre, post);
    RenderExample();
    OccursAt(dashed, "2020-03-15", |pre|, 0);
    assert FormatFound(dashed, Date(2020, 3, 15), 0);
    assert FoundAmong(dashed, Date(2020, 3, 15), 1);
    FoundAmongMonotone(dashed, Date(2020, 3, 15), 1, |Formats|);
  }

  lemma {:induction false} FoundAmongMonotone(dashed: string, d: Date, k: nat, m: nat)
    requires k <= m <= |Formats| && FoundAmong(dashed, d, k)
    ensures FoundAmong(dashed, d, m)
    decreases m - k
  {
    if k < m {
      FoundAmongMonotone(dashed, d, k + 1, m);
    }
  }

  function DashChar(c: char): char {
    if c == '/' || c == '.' || c == ',' || c == ' ' then '-' else c
  }

  lemma DashedAt(s: string, i: nat)
    requires i < |s|
    ensures |Dashed(s)| == |s| && Dashed(s)[i] == DashChar(s[i])
  {
  }

  lemma DashedExample(pre: string, post: string)
    ensures |Dashed(pre + "2020.03.15" + post)| == |pre| + 10 + |post|
    ensures Dashed(pre + "2020.03.15" + post)[|pre|..|pre| + 10] == "2020-03-15"
  {
    var s := pre + "2020.03.15" + post;
    var d := Dashed(s);
    var p := |pre|;
    DashedAt(s, p); DashedAt(s, p + 1); DashedAt(s, p + 2); DashedAt(s, p + 3); DashedAt(s, p + 4);
    DashedAt(s, p + 5); DashedAt(s, p + 6); DashedAt(s, p + 7); DashedAt(s, p + 8); DashedAt(s, p + 9);
    assert s[p..p + 10] == "2020.03.15";
    assert d[p..p + 10] == [d[p], d[p + 1], d[p + 2], d[p + 3], d[p + 4], d[p + 5], d[p + 6], d[p + 7], d[p + 8], d[p + 9]];
  }

  lemma RenderExample()
    ensures Render(Date(2020, 3, 15), YearMonthDay) == "2020-03-15"
  {
    assert Decimal(2020) == "2020" by {
      assert Decimal(202) == "202" by {
        assert Decimal(20) == "20";
      }
    }
    assert Padded(3, 2) == "03";
    assert Padded(15, 2) == "15" by {
      assert Decimal(15) == "15";
    }
  }
}
