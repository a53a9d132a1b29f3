/**
 * The in-memory part of the live map controller: reports are grouped by
 * station slug, each station's reports are ordered newest first, scored
 * low = 1, medium = 2, high = 3, averaged with 80/20 weight on the last ten
 * minutes, classified, and a newest "high" report may lift the level.
 *
 * Times are milliseconds since the epoch; `now` is a parameter. The report
 * collection is a sequence in its natural order, and each database query
 * is the filter and sort it asks for.
 */
module LiveMap {
  import opened Wrappers

  /**
   * The fields of a report the controller reads. `crowdLevel` is `None`
   * when the stored document has no such field.
   */
  datatype Report = Report(station: string, crowdLevel: Option<string>, createdAt: int)

  const MinuteMs: int := 60 * 1000

  // ---------------------------------------------------------------------
  // Time windows
  // ---------------------------------------------------------------------

  /** The reports created at or after `t`, in their order. */
  function Since(rs: seq<Report>, t: int): seq<Report>
    decreases |rs|
  {
    if rs == [] then []
    else (if rs[0].createdAt >= t then [rs[0]] else []) + Since(rs[1..], t)
  }

  /** The reports created before `t`, in their order. */
  function Before(rs: seq<Report>, t: int): seq<Report>
    decreases |rs|
  {
    if rs == [] then []
    else (if rs[0].createdAt < t then [rs[0]] else []) + Before(rs[1..], t)
  }

  /** Exactly the reports of `rs` at or after `t` make up `Since`, and exactly those before `t` make up `Before`. */
  lemma {:induction false} WindowMembers(rs: seq<Report>, t: int)
    ensures forall r :: r in Since(rs, t) <==> r in rs && r.createdAt >= t
    ensures forall r :: r in Before(rs, t) <==> r in rs && r.createdAt < t
    decreases |rs|
  {
    if rs != [] {
      WindowMembers(rs[1..], t);
      assert rs == [rs[0]] + rs[1..];
    }
  }

  // ---------------------------------------------------------------------
  // Newest first
  // ---------------------------------------------------------------------

  predicate NewestFirstSorted(rs: seq<Report>) {
    forall i, j :: 0 <= i < j < |rs| ==> rs[j].createdAt <= rs[i].createdAt
  }

  /** `x` goes before the first report that is not newer than it. */
  function Insert(x: Report, t: seq<Report>): seq<Report>
    decreases |t|
  {
    if t == [] then [x]
    else if t[0].createdAt <= x.createdAt then [x] + t
    else [t[0]] + Insert(x, t[1..])
  }

  /**
   * `sort((a, b) => b.createdAt - a.createdAt)`: a stable sort, newest
   * first, reports with the same time keeping their order.
   */
  function NewestFirst(rs: seq<Report>): seq<Report>
    decreases |rs|
  {
    if rs == [] then [] else Insert(rs[0], NewestFirst(rs[1..]))
  }

  /** A report no older than the head of a newest-first list may go in front of it. */
  lemma ConsSorted(a: Report, v: seq<Report>)
    requires NewestFirstSorted(v) && (v != [] ==> v[0].createdAt <= a.createdAt)
    ensures NewestFirstSorted([a] + v)
  {
    var w := [a] + v;
    forall i, j | 0 <= i < j < |w| ensures w[j].createdAt <= w[i].createdAt {
      assert w[j] == v[j - 1];
      if i > 0 {
        assert w[i] == v[i - 1];
      } else {
        assert v[j - 1].createdAt <= v[0].createdAt;
      }
    }
  }

  lemma TailSorted(t: seq<Report>)
    requires NewestFirstSorted(t) && t != []
    ensures NewestFirstSorted(t[1..])
  {
    var u := t[1..];
    forall i, j | 0 <= i < j < |u| ensures u[j].createdAt <= u[i].createdAt {
      assert u[i] == t[i + 1] && u[j] == t[j + 1];
    }
  }

  lemma {:induction false} InsertSorted(x: Report, t: seq<Report>)
    requires NewestFirstSorted(t)
    ensures NewestFirstSorted(Insert(x, t))
    ensures Insert(x, t)[0] == x || Insert(x, t)[0] == t[0]
    decreases |t|
  {
    if t == [] {
    } else if t[0].createdAt <= x.createdAt {
      ConsSorted(x, t);
    } else {
      var u := t[1..];
      TailSorted(t);
      InsertSorted(x, u);
      if u != [] {
        assert u[0].createdAt <= t[0].createdAt;
      }
      ConsSorted(t[0], Insert(x, u));
    }
  }

  lemma {:induction false} InsertPerm(x: Report, t: seq<Report>)
    ensures multiset(Insert(x, t)) == multiset([x] + t)
    decreases |t|
  {
    if t != [] && t[0].createdAt > x.createdAt {
      InsertPerm(x, t[1..]);
      assert t == [t[0]] + t[1..];
    }
  }

  /** The stable sort orders newest first and keeps every report exactly as often. */
  lemma {:induction false} NewestFirstSorts(rs: seq<Report>)
    ensures NewestFirstSorted(NewestFirst(rs))
    ensures multiset(NewestFirst(rs)) == multiset(rs)
    decreases |rs|
  {
    if rs != [] {
      NewestFirstSorts(rs[1..]);
      InsertSorted(rs[0], NewestFirst(rs[1..]));
      InsertPerm(rs[0], NewestFirst(rs[1..]));
      assert rs == [rs[0]] + rs[1..];
    }
  }

  /** Reports already newest first are left in place. */
  lemma {:induction false} SortedUnchanged(rs: seq<Report>)
    requires NewestFirstSorted(rs)
    ensures NewestFirst(rs) == rs
    decreases |rs|
  {
    if rs != [] {
      var u := rs[1..];
      TailSorted(rs);
      SortedUnchanged(u);
      assert rs == [rs[0]] + u;
    }
  }

  /** The reports created at exactly `c`, in their order. */
  function At(rs: seq<Report>, c: int): seq<Report>
    decreases |rs|
  {
    if rs == [] then [] else (if rs[0].createdAt == c then [rs[0]] else []) + At(rs[1..], c)
  }

  lemma {:induction false} InsertAt(x: Report, t: seq<Report>, c: int)
    ensures At(Insert(x, t), c) == At([x] + t, c)
    decreases |t|
  {
    if t != [] && t[0].createdAt > x.createdAt {
      InsertAt(x, t[1..], c);
      assert ([t[0]] + Insert(x, t[1..]))[1..] == Insert(x, t[1..]);
      assert ([x] + t[1..])[1..] == t[1..];
      assert ([x] + t)[1..] == t;
      assert t == [t[0]] + t[1..];
    }
  }

  /** Stability: among reports with the same time, the sort keeps their order. */
  lemma {:induction false} NewestFirstStable(rs: seq<Report>, c: int)
    ensures At(NewestFirst(rs), c) == At(rs, c)
    decreases |rs|
  {
    if rs != [] {
      NewestFirstStable(rs[1..], c);
      InsertAt(rs[0], NewestFirst(rs[1..]), c);
      assert ([rs[0]] + NewestFirst(rs[1..]))[1..] == NewestFirst(rs[1..]);
      assert rs == [rs[0]] + rs[1..];
    }
  }

  // ---------------------------------------------------------------------
  // Grouping by station
  // ---------------------------------------------------------------------

  /** The reports for station slug `id`, in their order. */
  function ReportsOf(rs: seq<Report>, id: string): seq<Report>
    decreases |rs|
  {
    if rs == [] then []
    else
      var t := ReportsOf(rs[..|rs| - 1], id);
      if rs[|rs| - 1].station == id then t + [rs[|rs| - 1]] else t
  }

  /** `stationReportsMap[id] || []`. */
  function Lookup(groups: map<string, seq<Report>>, id: string): seq<Report> {
    if id in groups then groups[id] else []
  }

  /**
   * The `forEach` that builds `stationReportsMap`: a list is created the
   * first time a slug is seen and every report is pushed onto its slug's list.
   */
  method GroupByStation(reports: seq<Report>) returns (groups: map<string, seq<Report>>)
    ensures forall id :: Lookup(groups, id) == ReportsOf(reports, id)
    ensures forall id :: id in groups <==> ReportsOf(reports, id) != []
  {
    groups := map[];
    for k := 0 to |reports|
      invariant forall id :: Lookup(groups, id) == ReportsOf(reports[..k], id)
      invariant forall id :: id in groups <==> ReportsOf(reports[..k], id) != []
    {
      var report := reports[k];
      var stationId := report.station;
      assert reports[..k + 1][..k] == reports[..k];
      if stationId !in groups {
        groups := groups[stationId := []];
      }
      groups := groups[stationId := groups[stationId] + [report]];
    }
    assert reports[..|reports|] == reports;
  }

  /** A station's list holds exactly the reports with its slug. */
  lemma {:induction false} ReportsOfMembers(rs: seq<Report>, id: string)
    ensures forall r :: r in ReportsOf(rs, id) <==> r in rs && r.station == id
    decreases |rs|
  {
    if rs != [] {
      var u := rs[..|rs| - 1];
      ReportsOfMembers(u, id);
      assert rs == u + [rs[|rs| - 1]];
    }
  }

  /** A list taken from newest-first reports is itself newest first. */
  lemma {:induction false} ReportsOfSorted(rs: seq<Report>, id: string)
    requires NewestFirstSorted(rs)
    ensures NewestFirstSorted(ReportsOf(rs, id))
    decreases |rs|
  {
    if rs != [] {
      var u, last := rs[..|rs| - 1], rs[|rs| - 1];
      assert NewestFirstSorted(u) by {
        forall i, j | 0 <= i < j < |u| ensures u[j].createdAt <= u[i].createdAt {
          assert u[i] == rs[i] && u[j] == rs[j];
        }
      }
      ReportsOfSorted(u, id);
      if last.station == id {
        ReportsOfMembers(u, id);
        SnocSorted(ReportsOf(u, id), last, u, rs);
      }
    }
  }

  /** A report no newer than any of `rs` but itself may go after a list drawn from them. */
  lemma SnocSorted(g: seq<Report>, a: Report, u: seq<Report>, rs: seq<Report>)
    requires NewestFirstSorted(g) && NewestFirstSorted(rs) && rs == u + [a]
    requires forall r :: r in g ==> r in u
    ensures NewestFirstSorted(g + [a])
  {
    forall k | 0 <= k < |g| ensures a.createdAt <= g[k].createdAt {
      assert g[k] in u;
      var m :| 0 <= m < |u| && u[m] == g[k];
      assert rs[m] == g[k] && rs[|rs| - 1] == a;
    }
    var w := g + [a];
    forall i, j | 0 <= i < j < |w| ensures w[j].createdAt <= w[i].createdAt {
      assert w[i] == g[i];
      if j < |g| {
        assert w[j] == g[j];
      }
    }
  }

  // ---------------------------------------------------------------------
  // Scores and averages
  // ---------------------------------------------------------------------

  /** `crowdValues[level]`: the object `{ low: 1, medium: 2, high: 3 }`. */
  function CrowdValue(level: Option<string>): Option<real> {
    if level == Some("low") then Some(1.0)
    else if level == Some("medium") then Some(2.0)
    else if level == Some("high") then Some(3.0)
    else None
  }

  /** `crowdValues[level] || 1`. */
  function Score(level: Option<string>): real {
    match CrowdValue(level)
    case Some(v) => v
    case None => 1.0
  }

  /** Medium scores 2, high scores 3, and every other level, missing or unknown, scores 1. */
  lemma ScoreValues(level: Option<string>)
    ensures Score(level) == 2.0 <==> level == Some("medium")
    ensures Score(level) == 3.0 <==> level == Some("high")
    ensures level != Some("medium") && level != Some("high") ==> Score(level) == 1.0
    ensures 1.0 <= Score(level) <= 3.0
  {
  }

  /** The `reduce` over the scores. */
  function Sum(rs: seq<Report>): real
    decreases |rs|
  {
    if rs == [] then 0.0 else Score(rs[0].crowdLevel) + Sum(rs[1..])
  }

  function Mean(rs: seq<Report>): real
    requires rs != []
  {
    Sum(rs) / (|rs| as real)
  }

  lemma {:induction false} SumBounds(rs: seq<Report>)
    ensures |rs| as real <= Sum(rs) <= 3.0 * (|rs| as real)
    decreases |rs|
  {
    if rs != [] {
      SumBounds(rs[1..]);
      ScoreValues(rs[0].crowdLevel);
    }
  }

  lemma RatioBounds(x: real, n: real, lo: real, hi: real)
    requires n > 0.0 && lo * n <= x <= hi * n
    ensures lo <= x / n <= hi
  {
    var q := x / n;
    assert q * n == x;
    assert (q - lo) * n >= 0.0;
    assert (hi - q) * n >= 0.0;
  }

  /** Every average lies in [1, 3]. */
  lemma MeanBounds(rs: seq<Report>)
    requires rs != []
    ensures 1.0 <= Mean(rs) <= 3.0
  {
    SumBounds(rs);
    RatioBounds(Sum(rs), |rs| as real, 1.0, 3.0);
  }

  /**
   * The window rule: with reports in the last ten minutes, 80% their mean
   * and 20% the mean of the older ones (when there are any); without, the
   * mean of `plain`.
   */
  function Weighted(rs: seq<Report>, cutoff: int, plain: seq<Report>): real
    requires plain != []
  {
    var recent, older := Since(rs, cutoff), Before(rs, cutoff);
    if recent != [] then
      if older != [] then Mean(recent) * 0.8 + Mean(older) * 0.2 else Mean(recent)
    else Mean(plain)
  }

  lemma {:induction false} AllSince(rs: seq<Report>, t: int)
    requires Before(rs, t) == []
    ensures Since(rs, t) == rs
    decreases |rs|
  {
    if rs != [] {
      AllSince(rs[1..], t);
      assert rs == [rs[0]] + rs[1..];
    }
  }

  /**
   * Which reports fall in the window decides the average: with both kinds
   * it is the 80/20 mix and lies between the two partial means; with only
   * recent ones it is the mean of all of `rs`; with none it is the mean of
   * `plain`. It always lies in [1, 3].
   */
  lemma WindowMix(rs: seq<Report>, cutoff: int, plain: seq<Report>)
    requires plain != []
    ensures var recent, older := Since(rs, cutoff), Before(rs, cutoff);
      (recent != [] && older != [] ==>
        Weighted(rs, cutoff, plain) == 0.8 * Mean(recent) + 0.2 * Mean(older) &&
        (Mean(recent) <= Weighted(rs, cutoff, plain) <= Mean(older) ||
         Mean(older) <= Weighted(rs, cutoff, plain) <= Mean(recent)))
    ensures Since(rs, cutoff) != [] && Before(rs, cutoff) == [] ==> rs != [] && Weighted(rs, cutoff, plain) == Mean(rs)
    ensures Since(rs, cutoff) == [] ==> Weighted(rs, cutoff, plain) == Mean(plain)
    ensures 1.0 <= Weighted(rs, cutoff, plain) <= 3.0
  {
    var recent, older := Since(rs, cutoff), Before(rs, cutoff);
    MeanBounds(plain);
    if recent != [] {
      MeanBounds(recent);
      if older != [] {
        MeanBounds(older);
      } else {
        AllSince(rs, cutoff);
      }
    }
  }

  // ---------------------------------------------------------------------
  // Classification and the override
  // ---------------------------------------------------------------------

  /** At most 1.4 is low, at most 2.3 medium, anything above high. */
  function Classify(avg: real): string {
    if avg <= 1.4 then "low" else if avg <= 2.3 then "medium" else "high"
  }

  function Rank(level: string): nat {
    if level == "high" then 2 else if level == "medium" then 1 else 0
  }

  /** The thresholds, and a larger average never gives a lower level. */
  lemma ClassifyMonotone(a: real, b: real)
    requires a <= b
    ensures Rank(Classify(a)) <= Rank(Classify(b))
    ensures Classify(a) == "high" ==> Classify(b) == "high"
    ensures Classify(b) == "low" ==> Classify(a) == "low"
  {
  }

  lemma ClassifyThresholds(avg: real)
    ensures Classify(avg) == "low" <==> avg <= 1.4
    ensures Classify(avg) == "medium" <==> 1.4 < avg <= 2.3
    ensures Classify(avg) == "high" <==> 2.3 < avg
  {
  }

  /** A newest report of "high" lifts the level to high when the average is at least 2. */
  function Override(level: string, newest: Report, avg: real): string {
    if newest.crowdLevel == Some("high") && avg >= 2.0 then "high" else level
  }

  /**
   * The override never lowers the level, changes it only from medium to
   * high, and gives high exactly when the average already does or the
   * newest report is high with an average of at least 2.
   */
  lemma OverrideRaises(avg: real, newest: Report)
    ensures Rank(Override(Classify(avg), newest, avg)) >= Rank(Classify(avg))
    ensures Override(Classify(avg), newest, avg) != Classify(avg) ==>
      Classify(avg) == "medium" && Override(Classify(avg), newest, avg) == "high"
    ensures Override(Classify(avg), newest, avg) == "high" <==>
      Classify(avg) == "high" || (newest.crowdLevel == Some("high") && avg >= 2.0)
  {
  }

  /** The level of a station's newest-first reports in the live map, ten minutes before `now` being the window. */
  function LiveLevel(sorted: seq<Report>, now: int): string {
    if sorted == [] then "low"
    else
      var avg := Weighted(sorted, now - 10 * MinuteMs, sorted);
      Override(Classify(avg), sorted[0], avg)
  }

  predicate Level3(level: string) {
    level == "low" || level == "medium" || level == "high"
  }

  /** Reports that all score 1, as reports without a `crowdLevel` field do. */
  predicate AllScoreOne(rs: seq<Report>) {
    forall j :: 0 <= j < |rs| ==> Score(rs[j].crowdLevel) == 1.0
  }

  lemma {:induction false} SumOnes(rs: seq<Report>)
    requires AllScoreOne(rs)
    ensures Sum(rs) == |rs| as real
    decreases |rs|
  {
    if rs != [] {
      assert AllScoreOne(rs[1..]) by {
        forall j | 0 <= j < |rs[1..]| ensures Score(rs[1..][j].crowdLevel) == 1.0 {
          assert rs[1..][j] == rs[j + 1];
        }
      }
      SumOnes(rs[1..]);
    }
  }

  lemma OnesMean(rs: seq<Report>, sub: seq<Report>)
    requires AllScoreOne(rs) && sub != []
    requires forall r :: r in sub ==> r in rs
    ensures Mean(sub) == 1.0
  {
    assert AllScoreOne(sub) by {
      forall j | 0 <= j < |sub| ensures Score(sub[j].crowdLevel) == 1.0 {
        assert sub[j] in rs;
      }
    }
    SumOnes(sub);
  }

  /** Reports that all score 1 average to 1, so the level is low whatever their times. */
  lemma OnesAreLow(rs: seq<Report>, cutoff: int, plain: seq<Report>)
    requires AllScoreOne(rs) && plain != [] && forall r :: r in plain ==> r in rs
    ensures Weighted(rs, cutoff, plain) == 1.0
  {
    WindowMembers(rs, cutoff);
    OnesMean(rs, plain);
    if Since(rs, cutoff) != [] {
      OnesMean(rs, Since(rs, cutoff));
      if Before(rs, cutoff) != [] {
        OnesMean(rs, Before(rs, cutoff));
      }
    }
  }

  // ---------------------------------------------------------------------
  // Stations
  // ---------------------------------------------------------------------

  /** The fields of a station document the controller reads; `lines` is `None` when absent. */
  datatype Station = Station(id: string, stationId: string, name: string, coordinates: seq<real>, lines: Option<seq<string>>)

  /** `station.lines || []`. */
  function LinesOf(lines: Option<seq<string>>): seq<string> {
    if lines.Some? then lines.value else []
  }

  /** `station.lines && station.lines.length > 1`: `undefined` (`None`) when there are no lines. */
  function IsInterchange(lines: Option<seq<string>>): Option<bool> {
    if lines.None? then None else Some(|lines.value| > 1)
  }

  lemma InterchangeExactly(lines: Option<seq<string>>)
    ensures IsInterchange(lines) == Some(true) <==> lines.Some? && |lines.value| > 1
    ensures IsInterchange(lines).None? <==> lines.None?
    ensures |LinesOf(lines)| > 1 <==> IsInterchange(lines) == Some(true)
  {
  }

  // ---------------------------------------------------------------------
  // getLiveMapData
  // ---------------------------------------------------------------------

  datatype LiveStation = LiveStation(
    id: string, stationId: string, name: string, coordinates: seq<real>,
    lines: seq<string>, isInterchange: Option<bool>,
    crowdLevel: string, reportCount: nat, lastUpdated: Option<int>)

  /** The entry for one station, from the reports with its slug. */
  function LiveStationOf(st: Station, stationReports: seq<Report>, now: int): LiveStation {
    var sorted := NewestFirst(stationReports);
    LiveStation(st.id, st.stationId, st.name, st.coordinates, LinesOf(st.lines), IsInterchange(st.lines),
                LiveLevel(sorted, now), |stationReports|,
                if |stationReports| > 0 then Some(sorted[0].createdAt) else None)
  }

  /** The reports of the last two hours, newest first. */
  function LiveQuery(db: seq<Report>, now: int): seq<Report> {
    NewestFirst(Since(db, now - 120 * MinuteMs))
  }

  function LiveMapOf(stations: seq<Station>, recent: seq<Report>, now: int): seq<LiveStation> {
    seq(|stations|, i requires 0 <= i < |stations| => LiveStationOf(stations[i], ReportsOf(recent, stations[i].stationId), now))
  }

  /** `getLiveMapData`: group the recent reports, then one entry per station. */
  method GetLiveMapData(stations: seq<Station>, db: seq<Report>, now: int) returns (data: seq<LiveStation>)
    ensures data == LiveMapOf(stations, LiveQuery(db, now), now)
  {
    var recentReports := LiveQuery(db, now);
    var stationReportsMap := GroupByStation(recentReports);
    data := seq(|stations|, i requires 0 <= i < |stations| => LiveStationOf(stations[i], Lookup(stationReportsMap, stations[i].stationId), now));
  }

  /**
   * A station without reports is low with count 0 and no time; otherwise
   * the count is its number of reports, the time is that of its newest
   * report, and the level is one of the three.
   */
  lemma LiveStationFacts(st: Station, rs: seq<Report>, now: int)
    ensures rs == [] ==> (LiveStationOf(st, rs, now).crowdLevel == "low" &&
      LiveStationOf(st, rs, now).reportCount == 0 && LiveStationOf(st, rs, now).lastUpdated.None?)
    ensures LiveStationOf(st, rs, now).reportCount == |rs|
    ensures rs != [] ==> (LiveStationOf(st, rs, now).lastUpdated.Some? &&
      (exists j :: 0 <= j < |rs| && rs[j].createdAt == LiveStationOf(st, rs, now).lastUpdated.value) &&
      (forall j :: 0 <= j < |rs| ==> rs[j].createdAt <= LiveStationOf(st, rs, now).lastUpdated.value))
    ensures Level3(LiveStationOf(st, rs, now).crowdLevel)
  {
    if rs != [] {
      var sorted := NewestFirst(rs);
      NewestFirstSorts(rs);
      assert sorted[0] in multiset(rs);
      var m :| 0 <= m < |rs| && rs[m] == sorted[0];
      forall j | 0 <= j < |rs| ensures rs[j].createdAt <= sorted[0].createdAt {
        assert rs[j] in multiset(sorted);
        var k :| 0 <= k < |sorted| && sorted[k] == rs[j];
      }
    }
  }

  /** The lists grouped from the newest-first query are newest first already, so the sort leaves them as they are. */
  lemma LiveSortIsIdentity(db: seq<Report>, now: int, id: string)
    ensures NewestFirst(ReportsOf(LiveQuery(db, now), id)) == ReportsOf(LiveQuery(db, now), id)
  {
    NewestFirstSorts(Since(db, now - 120 * MinuteMs));
    ReportsOfSorted(LiveQuery(db, now), id);
    SortedUnchanged(ReportsOf(LiveQuery(db, now), id));
  }

  /** Reports that all score 1 — reports without a `crowdLevel` field among them — leave every station low. */
  lemma UnscoredLiveLow(st: Station, rs: seq<Report>, now: int)
    requires AllScoreOne(rs) && forall j :: 0 <= j < |rs| ==> rs[j].crowdLevel != Some("high")
    ensures LiveStationOf(st, rs, now).crowdLevel == "low"
  {
    var sorted := NewestFirst(rs);
    if sorted != [] {
      NewestFirstSorts(rs);
      assert AllScoreOne(sorted) by {
        forall j | 0 <= j < |sorted| ensures Score(sorted[j].crowdLevel) == 1.0 {
          assert sorted[j] in multiset(rs);
        }
      }
      OnesAreLow(sorted, now - 10 * MinuteMs, sorted);
    }
  }

  // ---------------------------------------------------------------------
  // getStationDetails
  // ---------------------------------------------------------------------

  predicate IsHexDigit(c: char) {
    '0' <= c <= '9' || 'a' <= c <= 'f' || 'A' <= c <= 'F'
  }

  /** `/^[0-9a-fA-F]{24}$/`. */
  predicate IsObjectIdText(s: string) {
    |s| == 24 && forall i :: 0 <= i < |s| ==> IsHexDigit(s[i])
  }

  function LowerHex(c: char): char {
    if 'A' <= c <= 'F' then (c as int + 32) as char else c
  }

  /** The id an ObjectId text denotes, written in lower-case hex as stored ids are. */
  function ObjectIdOf(s: string): string {
    seq(|s|, i requires 0 <= i < |s| => LowerHex(s[i]))
  }

  /** The field a lookup compares: the id for `findById`, the slug for `findOne`. */
  function KeyOf(st: Station, byId: bool): string {
    if byId then st.id else st.stationId
  }

  /** The first station whose id (`byId`) or slug equals `key`. */
  function Find(stations: seq<Station>, byId: bool, key: string): Option<Station>
    decreases |stations|
  {
    if stations == [] then None
    else if KeyOf(stations[0], byId) == key then Some(stations[0])
    else Find(stations[1..], byId, key)
  }

  /** `findById` for a 24-digit hex text, `findOne({ stationId })` otherwise. */
  function FindStation(stations: seq<Station>, param: string): Option<Station> {
    if IsObjectIdText(param) then Find(stations, true, ObjectIdOf(param))
    else Find(stations, false, param)
  }

  /** `Find` gives the first match, and nothing exactly when no station matches. */
  lemma {:induction false} FindFirst(stations: seq<Station>, byId: bool, key: string)
    ensures Find(stations, byId, key).None? <==> forall i :: 0 <= i < |stations| ==> KeyOf(stations[i], byId) != key
    ensures Find(stations, byId, key).Some? ==>
      exists i :: (0 <= i < |stations| && stations[i] == Find(stations, byId, key).value &&
                   KeyOf(stations[i], byId) == key && forall j :: 0 <= j < i ==> KeyOf(stations[j], byId) != key)
    decreases |stations|
  {
    if stations != [] {
      var rest := stations[1..];
      FindFirst(rest, byId, key);
      if KeyOf(stations[0], byId) != key {
        if Find(rest, byId, key).Some? {
          var i :| 0 <= i < |rest| && rest[i] == Find(rest, byId, key).value && KeyOf(rest[i], byId) == key &&
            forall j :: 0 <= j < i ==> KeyOf(rest[j], byId) != key;
          assert stations[i + 1] == rest[i];
          forall j | 0 <= j < i + 1 ensures KeyOf(stations[j], byId) != key {
            if j > 0 {
              assert stations[j] == rest[j - 1];
            }
          }
        } else {
          forall i | 1 <= i < |stations| ensures KeyOf(stations[i], byId) != key {
            assert stations[i] == rest[i - 1];
          }
        }
      }
    }
  }

  /** The first `n` of `rs`, or all of them when there are fewer. */
  function Take(rs: seq<Report>, n: nat): seq<Report> {
    if |rs| <= n then rs else rs[..n]
  }

  /** The station's reports of the last hour, newest first, at most ten. */
  function DetailsQuery(db: seq<Report>, slug: string, now: int): seq<Report> {
    Take(NewestFirst(Since(ReportsOf(db, slug), now - 60 * MinuteMs)), 10)
  }

  /** The current level: without reports in the window, the mean of the newest five. */
  function DetailsLevel(recent: seq<Report>, now: int): string {
    if recent == [] then "low"
    else
      var avg := Weighted(recent, now - 10 * MinuteMs, Take(recent, 5));
      Override(Classify(avg), recent[0], avg)
  }

  datatype StationView = StationView(
    id: string, stationId: string, name: string, coordinates: seq<real>,
    lines: seq<string>, isInterchange: Option<bool>)

  /** The 404 when no station matches, else the details. */
  datatype Details =
    | NotFound
    | Found(station: StationView, currentCrowdLevel: string, recentReports: seq<Report>, totalReportsLastHour: nat)

  /** `getStationDetails`. */
  function StationDetails(stations: seq<Station>, param: string, db: seq<Report>, now: int): Details {
    match FindStation(stations, param)
    case None => NotFound
    case Some(st) =>
      var recent := DetailsQuery(db, st.stationId, now);
      Found(StationView(st.id, st.stationId, st.name, st.coordinates, LinesOf(st.lines), IsInterchange(st.lines)),
            DetailsLevel(recent, now), Take(recent, 5), |recent|)
  }

  /**
   * Without a report in the last ten minutes, the details average only the
   * first min(5, n) reports.
   */
  lemma DetailsPlainPrefix(recent: seq<Report>, now: int)
    requires recent != [] && Since(recent, now - 10 * MinuteMs) == []
    ensures var m := if |recent| < 5 then |recent| else 5;
      m > 0 && Weighted(recent, now - 10 * MinuteMs, Take(recent, 5)) == Sum(recent[..m]) / (m as real)
  {
    assert Take(recent, 5) == recent[..if |recent| < 5 then |recent| else 5];
  }

  /** At most ten reports come back, all for that station and from the last hour, newest first. */
  lemma DetailsQueryFacts(db: seq<Report>, slug: string, now: int)
    ensures |DetailsQuery(db, slug, now)| <= 10
    ensures NewestFirstSorted(DetailsQuery(db, slug, now))
    ensures forall r :: r in DetailsQuery(db, slug, now) ==> r.station == slug && r.createdAt >= now - 60 * MinuteMs
  {
    var mine := ReportsOf(db, slug);
    var window := Since(mine, now - 60 * MinuteMs);
    ReportsOfMembers(db, slug);
    WindowMembers(mine, now - 60 * MinuteMs);
    NewestFirstSorts(window);
    var sorted := NewestFirst(window);
    forall r | r in DetailsQuery(db, slug, now) ensures r.station == slug && r.createdAt >= now - 60 * MinuteMs {
      assert r in sorted;
      assert r in multiset(window);
    }
  }

  /** The details are missing exactly when no station matches. */
  lemma DetailsNotFound(stations: seq<Station>, param: string, db: seq<Report>, now: int)
    ensures StationDetails(stations, param, db, now).NotFound? <==>
      forall i :: 0 <= i < |stations| ==> KeyOf(stations[i], IsObjectIdText(param)) != (if IsObjectIdText(param) then ObjectIdOf(param) else param)
  {
    FindFirst(stations, IsObjectIdText(param), if IsObjectIdText(param) then ObjectIdOf(param) else param);
  }

  /**
   * When a station matches, the details are found: they count at most ten
   * reports and return at most five, the newest ones, all for the station
   * found, and the level is one of the three.
   */
  lemma DetailsFound(stations: seq<Station>, param: string, db: seq<Report>, now: int)
    requires FindStation(stations, param).Some?
    ensures var d := StationDetails(stations, param, db, now);
      (d.Found? && d.totalReportsLastHour <= 10 && |d.recentReports| <= 5 && |d.recentReports| <= d.totalReportsLastHour &&
       Level3(d.currentCrowdLevel) &&
       forall r :: r in d.recentReports ==> r.station == d.station.stationId && r.createdAt >= now - 60 * MinuteMs)
  {
    var st := FindStation(stations, param).value;
    DetailsQueryFacts(db, st.stationId, now);
  }

  // ---------------------------------------------------------------------
  // getNearbyStations
  // ---------------------------------------------------------------------

  datatype NearbyStation = NearbyStation(
    id: string, stationId: string, name: string, coordinates: seq<real>,
    lines: seq<string>, isInterchange: Option<bool>,
    crowdLevel: string, reportCount: nat)

  /** The plain mean with the same thresholds and no override. */
  function NearbyLevel(rs: seq<Report>): string {
    if rs == [] then "low" else Classify(Mean(rs))
  }

  function NearbyStationOf(st: Station, rs: seq<Report>): NearbyStation {
    NearbyStation(st.id, st.stationId, st.name, st.coordinates, LinesOf(st.lines), IsInterchange(st.lines),
                  NearbyLevel(rs), |rs|)
  }

  function Slugs(stations: seq<Station>): set<string> {
    set i | 0 <= i < |stations| :: stations[i].stationId
  }

  /** The reports of the last two hours for the given slugs, in their natural order. */
  function NearbyQuery(db: seq<Report>, slugs: set<string>, now: int): seq<Report>
    decreases |db|
  {
    if db == [] then []
    else (if db[0].station in slugs && db[0].createdAt >= now - 120 * MinuteMs then [db[0]] else []) + NearbyQuery(db[1..], slugs, now)
  }

  function NearbyOf(nearby: seq<Station>, recent: seq<Report>): seq<NearbyStation> {
    seq(|nearby|, i requires 0 <= i < |nearby| => NearbyStationOf(nearby[i], ReportsOf(recent, nearby[i].stationId)))
  }

  /** The in-memory part of `getNearbyStations`, for the stations the geographic query found. */
  method GetNearbyStations(nearby: seq<Station>, db: seq<Report>, now: int) returns (data: seq<NearbyStation>)
    ensures data == NearbyOf(nearby, NearbyQuery(db, Slugs(nearby), now))
  {
    var recentReports := NearbyQuery(db, Slugs(nearby), now);
    var stationReportsMap := GroupByStation(recentReports);
    data := seq(|nearby|, i requires 0 <= i < |nearby| => NearbyStationOf(nearby[i], Lookup(stationReportsMap, nearby[i].stationId)));
  }

  lemma {:induction false} InsertSum(x: Report, t: seq<Report>)
    ensures Sum(Insert(x, t)) == Score(x.crowdLevel) + Sum(t)
    decreases |t|
  {
    if t != [] && t[0].createdAt > x.createdAt {
      InsertSum(x, t[1..]);
      assert ([t[0]] + Insert(x, t[1..]))[1..] == Insert(x, t[1..]);
    } else if t != [] {
      assert ([x] + t)[1..] == t;
    }
  }

  lemma {:induction false} SortSum(rs: seq<Report>)
    ensures Sum(NewestFirst(rs)) == Sum(rs)
    decreases |rs|
  {
    if rs != [] {
      SortSum(rs[1..]);
      InsertSum(rs[0], NewestFirst(rs[1..]));
    }
  }

  /**
   * The nearby level is high only above 2.3 — no newest report lifts it —
   * and it does not depend on the order of the reports.
   */
  lemma NearbyNoOverride(rs: seq<Report>)
    ensures NearbyLevel(rs) == "high" <==> rs != [] && Mean(rs) > 2.3
    ensures NearbyLevel(NewestFirst(rs)) == NearbyLevel(rs)
  {
    NewestFirstSorts(rs);
    if rs != [] {
      SortSum(rs);
      assert |NewestFirst(rs)| == |multiset(NewestFirst(rs))| == |rs|;
    } else {
      assert NewestFirst(rs) == [];
    }
  }
}
