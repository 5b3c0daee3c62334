/** The data behind the observation reports (`main_visualizer.py`): the
    report's own file-name sanitiser, the observation records built from the
    copies, the observation period, the species groups with their order and
    counts, and which report formats are written. */
module Visualizer {
  import opened Common
  import opened Sanitize
  import opened OrderedDict
  import opened Sorting
  import opened Records
  import opened Thumbnailing

  // ---------------------------------------------------------------------
  // The report module's `sanitize_filename`
  // ---------------------------------------------------------------------

  /** `sanitize_filename(name)` of the report module: forbidden characters
      go first and the result is stripped afterwards, so whitespace left at
      either end by a deleted character never turns into `_`. */
  function ReportSanitizeFilename(name: Option<string>): (r: string)
    ensures name.None? ==> r == ""
    ensures NoSpace(r) && NoForbidden(r)
  {
    match name
    case None => ""
    case Some(s) =>
      var u := DeleteForbidden(DeleteChar(s, '*'));
      StripNoForbidden(u);
      UnderscoreIsSafe();
      ReplaceSpaceRuns(Strip(u), Underscore)
  }

  const Underscore := "_"

  lemma UnderscoreIsSafe()
    ensures NoSpace(Underscore) && NoForbidden(Underscore)
  {
    var u: string := Underscore;
    assert u == ['_'];
  }

  /** Stripping keeps a text free of forbidden characters. */
  lemma StripNoForbidden(s: string)
    requires NoForbidden(s)
    ensures NoForbidden(Strip(s))
  {
    var l := TrimLeft(s);
    forall i | 0 <= i < |l| ensures !IsForbidden(l[i]) {
      assert l[i] == s[|s| - |l| + i];
    }
    var r := TrimRight(l);
    forall i | 0 <= i < |r| ensures !IsForbidden(r[i]) {
      assert r[i] == l[i];
    }
  }

  /** The first and last characters of the result are those of the
      stripped text, never an underscore made from whitespace. */
  lemma ReportSanitizeEnds(s: string)
    ensures var t := Strip(DeleteForbidden(DeleteChar(s, '*')));
            var r := ReportSanitizeFilename(Some(s));
            && (r == [] <==> t == [])
            && (r != [] ==> r[0] == t[0] && !IsSpace(t[0]) && r[|r| - 1] == t[|t| - 1] && !IsSpace(t[|t| - 1]))
  {
    var t := Strip(DeleteForbidden(DeleteChar(s, '*')));
    if t != [] {
      RunsLast(t, Underscore, false);
    }
  }

  lemma {:induction false} RunsLast(s: string, rep: string, inRun: bool)
    requires s != [] && !IsSpace(s[|s| - 1])
    ensures var r := Runs(s, rep, inRun);
            r != [] && r[|r| - 1] == s[|s| - 1]
            && (!IsSpace(s[0]) ==> r[0] == s[0])
  {
    if |s| > 1 {
      RunsLast(s[1..], rep, IsSpace(s[0]));
    }
  }

  /** "a :" once `*` and the forbidden characters are deleted. */
  lemma ExampleDeleted(s: string)
    requires s == "a :"
    ensures DeleteForbidden(DeleteChar(s, '*')) == "a "
  {
    DeleteCharAbsent(s, '*');
    var t := s[1..];
    assert t[1..] == ":" && DeleteForbidden(t[1..]) == [];
    assert DeleteForbidden(t) == " ";
  }

  /** A text with no whitespace at either end is its own strip. */
  lemma StripFixed(s: string)
    requires s != [] && !IsSpace(s[0]) && !IsSpace(s[|s| - 1])
    ensures Strip(s) == s
  {
  }

  /** The two sanitisers differ: on "a :" the renaming one leaves a
      trailing underscore, the report one does not. */
  lemma SanitizersDiffer(s: string)
    requires s == "a :"
    ensures SanitizeFilename(Some(s)) == "a_"
    ensures ReportSanitizeFilename(Some(s)) == "a"
  {
    var a: string := "a";
    var w: string := " ";
    assert !IsSpace(a[0]) && IsSpace(w[0]) && AllSpace(w);
    assert NoSpace(a);
    StripFixed(s);
    ExampleDeleted(s);
    assert a + w + [] == "a ";
    SpaceRunReplacedOnce(a, w, [], "_");
    assert Strip(a + w) == a by {
      var aw := a + w;
      assert !IsSpace(aw[0]) && IsSpace(aw[1]);
      assert TrimLeft(aw) == aw;
      assert aw[..1] == a;
      assert TrimRight(a) == a;
    }
  }

  // ---------------------------------------------------------------------
  // Observation records (`prepare_observation_data`)
  // ---------------------------------------------------------------------

  /** One observation of the report; the file paths are left out. */
  datatype Observation = Observation(dateTime: Option<DateTime>, newFilename: string, koreanName: string,
                                     commonName: string, scientificName: string, order: string, family: string,
                                     thumbnail: Option<string>, source: string)

  const UserEdited := "사용자 편집"

  /** `bird_info_map.get(bird, default)`: a bird without an entry is named
      after itself, has "N/A" everywhere and the source "사용자 편집". */
  function InfoFor(infos: map<string, BirdInfo>, bird: string): BirdInfo
  {
    if bird in infos then infos[bird]
    else BirdInfo(bird, Taxa(NotAvailable, NotAvailable, NotAvailable, NotAvailable), UserEdited)
  }

  /** The observation made from one copy record. */
  function ObservationOf(r: ThumbRecord, infos: map<string, BirdInfo>): Observation
  {
    var info := InfoFor(infos, r.copy.birdName);
    Observation(r.copy.dateTime, r.copy.newFilename, info.koreanName, info.taxa.commonName,
                info.taxa.scientificName, info.taxa.order, info.taxa.family, r.thumbnail, info.source)
  }

  /** A copy of a bird without information gets the defaults. */
  lemma ObservationOfUnknownBird(r: ThumbRecord, infos: map<string, BirdInfo>)
    requires r.copy.birdName !in infos
    ensures var o := ObservationOf(r, infos);
            && o.koreanName == r.copy.birdName && o.source == UserEdited
            && o.commonName == o.scientificName == o.order == o.family == NotAvailable
            && o.dateTime == r.copy.dateTime && o.newFilename == r.copy.newFilename && o.thumbnail == r.thumbnail
  {
  }

  /** A copy of a known bird carries that bird's information. */
  lemma ObservationOfKnownBird(r: ThumbRecord, infos: map<string, BirdInfo>)
    requires r.copy.birdName in infos
    ensures var o := ObservationOf(r, infos);
            var info := infos[r.copy.birdName];
            && o.koreanName == info.koreanName && o.source == info.source
            && Taxa(o.commonName, o.scientificName, o.order, o.family) == info.taxa
            && o.dateTime == r.copy.dateTime && o.newFilename == r.copy.newFilename && o.thumbnail == r.thumbnail
  {
  }

  /** `prepare_observation_data(copied_files, bird_info_map)`: one
      observation per copy, in the copies' order. */
  method PrepareObservationData(copied: seq<ThumbRecord>, infos: map<string, BirdInfo>)
    returns (observations: seq<Observation>)
    ensures |observations| == |copied|
    ensures forall i :: 0 <= i < |copied| ==> observations[i] == ObservationOf(copied[i], infos)
  {
    observations := [];
    for n := 0 to |copied|
      invariant |observations| == n
      invariant forall i :: 0 <= i < n ==> observations[i] == ObservationOf(copied[i], infos)
    {
      var fileInfo := copied[n];
      var birdInfo := InfoFor(infos, fileInfo.copy.birdName);
      var obs := Observation(fileInfo.copy.dateTime, fileInfo.copy.newFilename, birdInfo.koreanName,
                             birdInfo.taxa.commonName, birdInfo.taxa.scientificName,
                             birdInfo.taxa.order, birdInfo.taxa.family, fileInfo.thumbnail, birdInfo.source);
      observations := observations + [obs];
    }
  }

  /** The observations as a value, for the statements below. */
  function Observations(copied: seq<ThumbRecord>, infos: map<string, BirdInfo>): (obs: seq<Observation>)
    ensures |obs| == |copied|
    ensures forall i :: 0 <= i < |copied| ==> obs[i] == ObservationOf(copied[i], infos)
  {
    seq(|copied|, i requires 0 <= i < |copied| => ObservationOf(copied[i], infos))
  }

  // ---------------------------------------------------------------------
  // The observation period (`get_observation_time_info`)
  // ---------------------------------------------------------------------

  lemma DateTimeLeTotal(a: DateTime, b: DateTime)
    ensures DateTimeLe(a, b) || DateTimeLe(b, a)
  {
  }

  lemma DateTimeLeTransitive(a: DateTime, b: DateTime, c: DateTime)
    requires DateTimeLe(a, b) && DateTimeLe(b, c)
    ensures DateTimeLe(a, c)
  {
  }

  lemma DateTimeLeAntisymmetric(a: DateTime, b: DateTime)
    requires DateTimeLe(a, b) && DateTimeLe(b, a)
    ensures a == b
  {
  }

  /** A time between two times of one calendar day falls on that day. */
  lemma SameDayBetween(a: DateTime, d: DateTime, b: DateTime)
    requires DateTimeLe(a, d) && DateTimeLe(d, b) && a.Date() == b.Date()
    ensures d.Date() == a.Date()
  {
  }

  /** The times the observations carry, in order. */
  function TimesOf(obs: seq<Observation>): (ds: seq<DateTime>)
    ensures |ds| <= |obs|
  {
    if obs == [] then []
    else (if obs[0].dateTime.Some? then [obs[0].dateTime.value] else []) + TimesOf(obs[1..])
  }

  lemma {:induction false} TimesOfMembers(obs: seq<Observation>)
    ensures forall d :: d in TimesOf(obs) <==> exists i :: 0 <= i < |obs| && obs[i].dateTime == Some(d)
  {
    if obs != [] {
      TimesOfMembers(obs[1..]);
      forall d | (exists i :: 0 <= i < |obs| && obs[i].dateTime == Some(d))
        ensures d in TimesOf(obs)
      {
        var i :| 0 <= i < |obs| && obs[i].dateTime == Some(d);
        if i > 0 {
          assert obs[1..][i - 1] == obs[i];
        }
      }
      forall d | d in TimesOf(obs[1..])
        ensures exists i :: 0 <= i < |obs| && obs[i].dateTime == Some(d)
      {
        var i :| 0 <= i < |obs[1..]| && obs[1..][i].dateTime == Some(d);
        assert obs[i + 1] == obs[1..][i];
      }
    }
  }

  /** `min(ds)` */
  function Earliest(ds: seq<DateTime>): (m: DateTime)
    requires ds != []
    ensures m in ds
    ensures forall d :: d in ds ==> DateTimeLe(m, d)
  {
    if |ds| == 1 then
      ds[0]
    else
      var rest := Earliest(ds[1..]);
      if DateTimeLe(rest, ds[0]) && rest != ds[0] then
        rest
      else
        assert forall d :: d in ds[1..] ==> DateTimeLe(ds[0], d) by {
          forall d | d in ds[1..] ensures DateTimeLe(ds[0], d) {
            DateTimeLeTotal(rest, ds[0]);
            if DateTimeLe(rest, ds[0]) { DateTimeLeAntisymmetric(rest, ds[0]); }
            DateTimeLeTransitive(ds[0], rest, d);
          }
        }
        ds[0]
  }

  /** `max(ds)` */
  function Latest(ds: seq<DateTime>): (m: DateTime)
    requires ds != []
    ensures m in ds
    ensures forall d :: d in ds ==> DateTimeLe(d, m)
  {
    if |ds| == 1 then
      ds[0]
    else
      var rest := Latest(ds[1..]);
      if DateTimeLe(ds[0], rest) && rest != ds[0] then
        rest
      else
        assert forall d :: d in ds[1..] ==> DateTimeLe(d, ds[0]) by {
          forall d | d in ds[1..] ensures DateTimeLe(d, ds[0]) {
            DateTimeLeTotal(rest, ds[0]);
            if DateTimeLe(ds[0], rest) { DateTimeLeAntisymmetric(rest, ds[0]); }
            DateTimeLeTransitive(d, rest, ds[0]);
          }
        }
        ds[0]
  }

  /** Which of the three answers `get_observation_time_info` gives, with
      the earliest and latest time; the strings it formats from them are
      left to `strftime`. */
  datatype TimeInfo = NoTimeInfo | SameDay(start: DateTime, end: DateTime) | MultiDay(start: DateTime, end: DateTime)

  function ObservationTimeInfo(obs: seq<Observation>): (r: TimeInfo)
    ensures r.NoTimeInfo? <==> TimesOf(obs) == []
    ensures !r.NoTimeInfo? ==> && r.start in TimesOf(obs) && r.end in TimesOf(obs)
                               && forall d :: d in TimesOf(obs) ==> DateTimeLe(r.start, d) && DateTimeLe(d, r.end)
    ensures r.SameDay? ==> r.start.Date() == r.end.Date()
    ensures r.MultiDay? ==> r.start.Date() != r.end.Date()
  {
    var ds := TimesOf(obs);
    if ds == [] then NoTimeInfo
    else
      var s, e := Earliest(ds), Latest(ds);
      if s.Date() == e.Date() then SameDay(s, e) else MultiDay(s, e)
  }

  /** The single-day answer is given exactly when every time lies on one
      calendar day. */
  lemma SameDayExactly(obs: seq<Observation>)
    requires TimesOf(obs) != []
    ensures ObservationTimeInfo(obs).SameDay?
            <==> forall a, b :: a in TimesOf(obs) && b in TimesOf(obs) ==> a.Date() == b.Date()
  {
    var ds := TimesOf(obs);
    var s, e := Earliest(ds), Latest(ds);
    if s.Date() == e.Date() {
      forall a | a in ds ensures a.Date() == s.Date() {
        SameDayBetween(s, a, e);
      }
    }
  }

  /** How one photo's time is printed within its species: no time, the
      clock time, or the clock time with its date when the species' photos
      span more than one day. */
  datatype TimeLabel = NoTime | ClockOnly(at: DateTime) | DateAndClock(at: DateTime)

  function TimeLabelOf(o: Observation, group: seq<Observation>): TimeLabel
  {
    if o.dateTime.None? then NoTime
    else
      var ds := TimesOf(group);
      if ds != [] && Earliest(ds).Date() != Latest(ds).Date() then DateAndClock(o.dateTime.value)
      else ClockOnly(o.dateTime.value)
  }

  /** The date is printed exactly when two photos of the species were taken
      on different days. */
  lemma TimeLabelShowsDate(o: Observation, group: seq<Observation>)
    requires o.dateTime.Some?
    ensures TimeLabelOf(o, group).DateAndClock?
            <==> exists a, b :: a in TimesOf(group) && b in TimesOf(group) && a.Date() != b.Date()
  {
    var ds := TimesOf(group);
    if ds != [] {
      SameDayExactly(group);
      var s, e := Earliest(ds), Latest(ds);
      if s.Date() != e.Date() {
        assert s in ds && e in ds;
      }
    }
  }

  // ---------------------------------------------------------------------
  // Species groups, their order and the summary counts
  // ---------------------------------------------------------------------

  /** The species an observation is grouped under: its scientific name, or
      its Korean name when the scientific name is "N/A". */
  function SpeciesKey(o: Observation): string
  {
    if o.scientificName != NotAvailable then o.scientificName else o.koreanName
  }

  /** The grouping loop of the reports, as a value. */
  function SpeciesGroups(obs: seq<Observation>): (d: Dict<string, seq<Observation>>)
    ensures d.Valid()
  {
    GroupBy(obs, SpeciesKey)
  }

  /** `species_groups = {}; for o in observations: ...append(o)` */
  method GroupBySpecies(observations: seq<Observation>) returns (groups: Dict<string, seq<Observation>>)
    ensures groups == SpeciesGroups(observations)
  {
    groups := Empty();
    for n := 0 to |observations|
      invariant groups == GroupBy(observations[..n], SpeciesKey)
    {
      var o := observations[n];
      var key := SpeciesKey(o);
      if key !in groups.items {
        groups := Put(groups, key, []);
      }
      groups := Put(groups, key, groups.items[key] + [o]);
      assert observations[..n + 1][..n] == observations[..n];
    }
    assert observations[..|observations|] == observations;
  }

  /** The species groups partition the observations: one group per key,
      holding that species' observations in input order, none empty, and
      together as many observations as there are. */
  lemma SpeciesGroupsPartition(obs: seq<Observation>)
    ensures SpeciesGroups(obs).items.Keys == KeySet(obs, SpeciesKey)
    ensures forall k :: k in SpeciesGroups(obs).items
                        ==> SpeciesGroups(obs).items[k] == Having(obs, SpeciesKey, k) != []
    ensures TotalLength(SpeciesGroups(obs)) == |obs|
  {
    GroupByPartition(obs, SpeciesKey);
    GroupByTotal(obs, SpeciesKey);
  }

  /** "관찰 종수": the HTML report counts the groups, the Word report the
      distinct keys; both are the same number. */
  lemma SpeciesCountsAgree(obs: seq<Observation>)
    ensures |SpeciesGroups(obs).keys| == |KeySet(obs, SpeciesKey)| <= |obs|
  {
    GroupByCount(obs, SpeciesKey);
  }


  function FamilyOf(o: Observation): string { o.family }

  function OrderOf(o: Observation): string { o.order }

  /** The four numbers of the report summary. */
  datatype Summary = Summary(records: nat, species: nat, families: nat, orders: nat)

  function ReportSummary(obs: seq<Observation>): (s: Summary)
    ensures s.species <= s.records && s.families <= s.records && s.orders <= s.records
    ensures s.records == |obs| && s.species == |KeySet(obs, SpeciesKey)|
  {
    SpeciesCountsAgree(obs);
    GroupByCount(obs, FamilyOf);
    GroupByCount(obs, OrderOf);
    Summary(|obs|, |SpeciesGroups(obs).keys|, |KeySet(obs, FamilyOf)|, |KeySet(obs, OrderOf)|)
  }

  /** The sort key of a species group: the (order, family) of its first
      observation (groups are never empty, see SpeciesGroupsPartition). */
  function GroupOrderKey(g: (string, seq<Observation>)): Key
  {
    if g.1 == [] then ("", "") else (g.1[0].order, g.1[0].family)
  }

  /** `sorted(species_groups.items(), key=...)` */
  function SortedSpecies(obs: seq<Observation>): seq<(string, seq<Observation>)>
  {
    SortBy(Items(SpeciesGroups(obs)), GroupOrderKey)
  }

  /** The groups come out ordered by (order, family), all of them and each
      once, and groups with equal keys keep their first-seen order. */
  lemma SortedSpeciesCorrect(obs: seq<Observation>)
    ensures SortedBy(SortedSpecies(obs), GroupOrderKey)
    ensures multiset(SortedSpecies(obs)) == multiset(Items(SpeciesGroups(obs)))
    ensures forall k :: WithKey(SortedSpecies(obs), GroupOrderKey, k) == WithKey(Items(SpeciesGroups(obs)), GroupOrderKey, k)
  {
    SortByCorrect(Items(SpeciesGroups(obs)), GroupOrderKey);
  }

  // ---------------------------------------------------------------------
  // Which reports are written (`create_visual_reports`)
  // ---------------------------------------------------------------------

  /** `report_options.get('format', 'html')` */
  function ReportFormat(options: map<string, string>): string
  {
    if "format" in options then options["format"] else "html"
  }

  predicate AsksHtml(format: string)
  {
    format == "html" || format == "both"
  }

  predicate AsksWord(format: string)
  {
    format == "docx" || format == "both"
  }

  /** Which of the two report files are written. */
  datatype Reports = Reports(html: bool, word: bool)

  /** `create_visual_reports`: each report is asked for by the format and
      written only when there is something to report; the Word report also
      needs the `docx` library (`docxAvailable`). */
  function CreateVisualReports(copied: seq<ThumbRecord>, infos: map<string, BirdInfo>,
                               options: map<string, string>, docxAvailable: bool): Reports
  {
    var format := ReportFormat(options);
    var observations := Observations(copied, infos);
    Reports(AsksHtml(format) && observations != [], AsksWord(format) && docxAvailable && observations != [])
  }

  /** Both reports only for "both"; without a format, HTML only; any other
      format, or no copy at all, writes nothing. */
  lemma ReportDispatch(copied: seq<ThumbRecord>, infos: map<string, BirdInfo>,
                       options: map<string, string>, docxAvailable: bool)
    ensures var r := CreateVisualReports(copied, infos, options, docxAvailable);
            && (r.html && r.word ==> ReportFormat(options) == "both")
            && ("format" !in options ==> !r.word && (r.html <==> copied != []))
            && (copied == [] ==> !r.html && !r.word)
            && (ReportFormat(options) !in {"html", "docx", "both"} ==> !r.html && !r.word)
            && (ReportFormat(options) == "both" && docxAvailable && copied != [] ==> r.html && r.word)
  {
    var obs := Observations(copied, infos);
    assert obs == [] <==> copied == [];
  }
}
