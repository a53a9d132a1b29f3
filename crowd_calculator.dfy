/**
 * The in-memory part of the crowd-level calculator: weighted per-level
 * scores over the recent reports of a station, their normalisation, the
 * winning level with a confidence figure, and the 24-hour histogram of
 * report levels. The database query, the clock and `Math.exp`/`Math.log`
 * stay outside: reports arrive newest first, each with the two weight
 * factors already computed and, for the histogram, its hour of day.
 */
module CrowdCalculator {
  import opened Wrappers
  import opened JsObjects

  // ---------------------------------------------------------------------
  // Reports and weights
  // ---------------------------------------------------------------------

  /**
   * A fetched report: its `level` string, `createdAt` in milliseconds, the
   * time factor `Math.exp(-ageMinutes / 60)` and the credibility factor
   * `1 + Math.log(likes + 1) * 0.3`.
   */
  datatype Report = Report(level: string, createdAt: int, timeFactor: real, credibility: real)

  /** Factors in the ranges an age of at least 0 and a like count of at least 0 give. */
  predicate Plausible(r: Report) {
    0.0 < r.timeFactor <= 1.0 && 1.0 <= r.credibility
  }

  predicate AllPlausible(rs: seq<Report>) {
    forall i :: 0 <= i < |rs| ==> Plausible(rs[i])
  }

  /** The combined weight of a report. */
  function Weight(r: Report): real {
    r.timeFactor * r.credibility
  }

  /** A plausible report weighs more than nothing and at most its credibility. */
  lemma WeightPositive(r: Report)
    requires Plausible(r)
    ensures 0.0 < Weight(r) <= r.credibility
  {
    assert r.timeFactor * r.credibility >= r.timeFactor * 1.0;
    assert r.timeFactor * r.credibility <= 1.0 * r.credibility;
  }

  /** `totalWeight` after the loop. */
  function TotalWeight(rs: seq<Report>): real
    decreases |rs|
  {
    if rs == [] then 0.0 else TotalWeight(rs[..|rs| - 1]) + Weight(rs[|rs| - 1])
  }

  /** Reports with plausible factors weigh more than nothing in total, when there is one. */
  lemma {:induction false} TotalPositive(rs: seq<Report>)
    requires AllPlausible(rs)
    ensures rs == [] ==> TotalWeight(rs) == 0.0
    ensures rs != [] ==> TotalWeight(rs) > 0.0
    decreases |rs|
  {
    if rs != [] {
      var t := rs[..|rs| - 1];
      assert AllPlausible(t) by {
        forall i | 0 <= i < |t| ensures Plausible(t[i]) {
          assert t[i] == rs[i];
        }
      }
      TotalPositive(t);
      WeightPositive(rs[|rs| - 1]);
    }
  }

  // ---------------------------------------------------------------------
  // The `scores` object
  // ---------------------------------------------------------------------

  /** A score: a number, or `NaN`, which `undefined + weight` gives for a level that has no bucket. */
  datatype Num = Num(v: real) | NaN

  /** The `scores` object: its keys in insertion order and their values. */
  datatype Scores = Scores(keys: seq<string>, vals: map<string, Num>)

  /** The three buckets `scores` starts with, in key order. */
  const Canonical: seq<string> := ["low", "moderate", "high"]

  predicate IsCanonical(level: string) {
    level == "low" || level == "moderate" || level == "high"
  }

  predicate AllCanonical(rs: seq<Report>) {
    forall i :: 0 <= i < |rs| ==> IsCanonical(rs[i].level)
  }

  /** `{ low: 0, moderate: 0, high: 0 }`. */
  function Initial(): Scores {
    Scores(Canonical, map["low" := Num(0.0), "moderate" := Num(0.0), "high" := Num(0.0)])
  }

  /** `scores[k]`, `undefined` reading as `NaN`. */
  function Get(s: Scores, k: string): Num {
    if k in s.vals then s.vals[k] else NaN
  }

  /** `a + w`. */
  function Add(a: Num, w: real): Num {
    if a.NaN? then NaN else Num(a.v + w)
  }

  /** `scores[level] += w`: an unknown level becomes a new, last key holding `NaN`. */
  function Bump(s: Scores, level: string, w: real): Scores {
    if level in s.vals then Scores(s.keys, s.vals[level := Add(s.vals[level], w)])
    else Scores(s.keys + [level], s.vals[level := NaN])
  }

  /** `scores` after the loop over `rs`. */
  function Tally(rs: seq<Report>): (s: Scores)
    ensures |s.keys| >= 3 && s.keys[..3] == Canonical
    decreases |rs|
  {
    if rs == [] then Initial()
    else
      var r := rs[|rs| - 1];
      Bump(Tally(rs[..|rs| - 1]), r.level, Weight(r))
  }

  /** The keys are distinct and are exactly the keys that hold a value. */
  ghost predicate WellKeyed(s: Scores) {
    Distinct(s.keys) && forall k :: k in s.vals <==> k in s.keys
  }

  /** The numeric value of a canonical bucket, 0 when it is `NaN` or missing. */
  function Val(s: Scores, k: string): real {
    if k in s.vals && s.vals[k].Num? then s.vals[k].v else 0.0
  }

  function Sum3(s: Scores): real {
    Val(s, "low") + Val(s, "moderate") + Val(s, "high")
  }

  /**
   * The shape `scores` keeps: the keys are distinct, the three buckets come
   * first and hold numbers, and every further key holds `NaN`.
   */
  ghost predicate Shaped(s: Scores) {
    WellKeyed(s) && |s.keys| >= 3 && s.keys[..3] == Canonical &&
    (forall k :: k in Canonical ==> s.vals[k].Num?) &&
    (forall i :: 3 <= i < |s.keys| ==> s.vals[s.keys[i]].NaN?)
  }

  /** One `+=` keeps the shape, keeps every key and leaves `level` among them. */
  lemma BumpShaped(s: Scores, level: string, w: real)
    requires Shaped(s)
    ensures Shaped(Bump(s, level, w))
    ensures s.keys <= Bump(s, level, w).keys && level in Bump(s, level, w).keys
    ensures forall i :: |s.keys| <= i < |Bump(s, level, w).keys| ==> Bump(s, level, w).keys[i] == level
  {
    var s' := Bump(s, level, w);
    if level !in s.vals {
      assert s'.keys[..3] == s.keys[..3];
      assert level !in Canonical;
      forall i | 3 <= i < |s'.keys| ensures s'.vals[s'.keys[i]].NaN? {
        if i < |s.keys| {
          assert s'.keys[i] == s.keys[i] != level;
        }
      }
    } else {
      forall i | 3 <= i < |s'.keys| ensures s'.vals[s'.keys[i]].NaN? {
        assert s.keys[i] in s.vals;
        if s.keys[i] == level {
          assert s.vals[level].NaN?;
        }
      }
    }
  }

  /** The shape of `scores` after the loop. */
  lemma {:induction false} TallyShape(rs: seq<Report>)
    ensures Shaped(Tally(rs))
    decreases |rs|
  {
    if rs != [] {
      var r := rs[|rs| - 1];
      TallyShape(rs[..|rs| - 1]);
      BumpShaped(Tally(rs[..|rs| - 1]), r.level, Weight(r));
    }
  }

  /** Every report's level is a key of `scores`. */
  lemma {:induction false} TallyCovers(rs: seq<Report>)
    ensures forall j :: 0 <= j < |rs| ==> rs[j].level in Tally(rs).keys
    decreases |rs|
  {
    if rs != [] {
      var t, r := rs[..|rs| - 1], rs[|rs| - 1];
      TallyShape(t);
      TallyCovers(t);
      BumpShaped(Tally(t), r.level, Weight(r));
      forall j | 0 <= j < |rs| ensures rs[j].level in Tally(rs).keys {
        if j < |t| {
          assert rs[j] == t[j];
        }
      }
    }
  }

  /** Every key beyond the three buckets is the level of some report. */
  lemma {:induction false} TallyOrigins(rs: seq<Report>)
    ensures forall i :: 3 <= i < |Tally(rs).keys| ==> exists j :: 0 <= j < |rs| && rs[j].level == Tally(rs).keys[i]
    decreases |rs|
  {
    if rs == [] {
      assert Tally(rs).keys == Canonical;
    } else {
      var t, r := rs[..|rs| - 1], rs[|rs| - 1];
      TallyShape(t);
      TallyOrigins(t);
      BumpShaped(Tally(t), r.level, Weight(r));
      var s, s' := Tally(t), Tally(rs);
      assert s' == Bump(s, r.level, Weight(r));
      forall i | 3 <= i < |s'.keys| ensures exists j :: 0 <= j < |rs| && rs[j].level == s'.keys[i] {
        if i < |s.keys| {
          var j :| 0 <= j < |t| && t[j].level == s.keys[i];
          assert rs[j] == t[j];
        } else {
          assert rs[|rs| - 1].level == s'.keys[i];
        }
      }
    }
  }

  /** Exactly the three buckets, each holding a number. */
  ghost predicate Buckets(s: Scores) {
    && s.keys == Canonical
    && (forall k :: k in s.vals <==> k in Canonical)
    && forall k :: k in Canonical ==> s.vals[k].Num?
  }

  /** Adding a weight to a bucket keeps the buckets and adds the weight to that bucket alone. */
  lemma BumpCanonical(s: Scores, level: string, w: real)
    requires Buckets(s) && IsCanonical(level)
    ensures Buckets(Bump(s, level, w))
    ensures forall k :: k in Canonical ==> Val(Bump(s, level, w), k) == Val(s, k) + (if k == level then w else 0.0)
    ensures Sum3(Bump(s, level, w)) == Sum3(s) + w
  {
    assert "low" != "moderate" && "low" != "high" && "moderate" != "high";
  }

  /**
   * With canonical levels only, the keys stay the three buckets and, before
   * normalisation, the buckets add up to `totalWeight`; with plausible
   * factors no bucket is negative.
   */
  lemma {:induction false} TallyCanonical(rs: seq<Report>)
    requires AllCanonical(rs)
    ensures Buckets(Tally(rs))
    ensures Sum3(Tally(rs)) == TotalWeight(rs)
    ensures AllPlausible(rs) ==> forall k :: k in Canonical ==> Val(Tally(rs), k) >= 0.0
    decreases |rs|
  {
    if rs == [] {
      assert "low" != "moderate" && "low" != "high" && "moderate" != "high";
    } else {
      var t := rs[..|rs| - 1];
      var r := rs[|rs| - 1];
      assert AllCanonical(t) by {
        forall i | 0 <= i < |t| ensures IsCanonical(t[i].level) {
          assert t[i] == rs[i];
        }
      }
      TallyCanonical(t);
      assert IsCanonical(r.level);
      BumpCanonical(Tally(t), r.level, Weight(r));
      if AllPlausible(rs) {
        assert AllPlausible(t) by {
          forall i | 0 <= i < |t| ensures Plausible(t[i]) {
            assert t[i] == rs[i];
          }
        }
        WeightPositive(r);
      }
    }
  }

  // ---------------------------------------------------------------------
  // Normalisation
  // ---------------------------------------------------------------------

  /** `totalWeight > 0 ? scores[level] / totalWeight : 0`. */
  function Scale(a: Num, total: real): Num {
    if total > 0.0 then (if a.NaN? then NaN else Num(a.v / total)) else Num(0.0)
  }

  /** `scores` after the normalising pass. */
  function Normalised(s: Scores, total: real): Scores {
    Scores(s.keys, map k | k in s.vals :: Scale(s.vals[k], total))
  }

  /**
   * `Object.keys(scores).forEach(level => scores[level] = ...)`: rescales
   * each key's value in place.
   */
  method Normalise(s: Scores, total: real) returns (r: Scores)
    requires WellKeyed(s)
    ensures r == Normalised(s, total)
  {
    var vals := s.vals;
    for i := 0 to |s.keys|
      invariant vals.Keys == s.vals.Keys
      invariant forall k :: k in vals ==> vals[k] == if k in s.keys[..i] then Scale(s.vals[k], total) else s.vals[k]
    {
      var k := s.keys[i];
      assert k !in s.keys[..i];
      vals := vals[k := Scale(vals[k], total)];
      assert s.keys[..i + 1] == s.keys[..i] + [k];
    }
    assert s.keys[..|s.keys|] == s.keys;
    r := Scores(s.keys, vals);
  }

  /**
   * With canonical levels and plausible factors, the normalised buckets
   * are shares in [0, 1] that add up to 1.
   */
  lemma NormalisedShares(rs: seq<Report>)
    requires rs != [] && AllCanonical(rs) && AllPlausible(rs)
    ensures Buckets(Normalised(Tally(rs), TotalWeight(rs)))
    ensures forall k :: k in Canonical ==> 0.0 <= Val(Normalised(Tally(rs), TotalWeight(rs)), k) <= 1.0
    ensures Sum3(Normalised(Tally(rs), TotalWeight(rs))) == 1.0
  {
    TallyCanonical(rs);
    TotalPositive(rs);
    SharesOf(Tally(rs), TotalWeight(rs));
  }

  /** Normalising non-negative buckets by their positive sum gives shares in [0, 1] that add up to 1. */
  lemma SharesOf(s: Scores, total: real)
    requires Buckets(s) && total > 0.0 && Sum3(s) == total
    requires forall k :: k in Canonical ==> Val(s, k) >= 0.0
    ensures Buckets(Normalised(s, total))
    ensures forall k :: k in Canonical ==> 0.0 <= Val(Normalised(s, total), k) <= 1.0
    ensures Sum3(Normalised(s, total)) == 1.0
  {
    NormalisedBuckets(s, total);
    var l, m, h := Val(s, "low"), Val(s, "moderate"), Val(s, "high");
    assert "low" in Canonical && "moderate" in Canonical && "high" in Canonical;
    ShareSum(l, m, h, total);
    ShareAtMostOne(l, m + h, total);
    ShareAtMostOne(m, l + h, total);
    ShareAtMostOne(h, l + m, total);
  }

  /** Normalising divides each bucket by the total. */
  lemma NormalisedBuckets(s: Scores, total: real)
    requires Buckets(s) && total > 0.0
    ensures Buckets(Normalised(s, total))
    ensures forall k :: k in Canonical ==> Val(Normalised(s, total), k) == Val(s, k) / total
  {
  }

  lemma ShareSum(l: real, m: real, h: real, total: real)
    requires total > 0.0 && l + m + h == total
    ensures l / total + m / total + h / total == 1.0
  {
    assert l / total + m / total + h / total == (l + m + h) / total;
  }

  /** A non-negative part of a positive whole is a share in [0, 1]. */
  lemma ShareAtMostOne(a: real, rest: real, total: real)
    requires 0.0 <= a && 0.0 <= rest && total > 0.0 && a + rest == total
    ensures 0.0 <= a / total <= 1.0
  {
    assert a / total * total == a;
  }

  // ---------------------------------------------------------------------
  // The final level and the confidence
  // ---------------------------------------------------------------------

  /** `a > b`, false when either is `NaN`. */
  predicate Gt(a: Num, b: Num) {
    a.Num? && b.Num? && a.v > b.v
  }

  /** `keys.reduce((a, b) => scores[a] > scores[b] ? a : b)` from accumulator `acc` over `rest`. */
  function Reduce(acc: string, rest: seq<string>, s: Scores): string
    decreases |rest|
  {
    if rest == [] then acc
    else Reduce(if Gt(Get(s, acc), Get(s, rest[0])) then acc else rest[0], rest[1..], s)
  }

  /** The highest-scoring key; `reduce` keeps the later key on a tie. */
  function FinalLevel(s: Scores): string
    requires s.keys != []
  {
    Reduce(s.keys[0], s.keys[1..], s)
  }

  /**
   * On the three buckets alone, the final level has the top score, and the
   * tie rule is: high unless another is strictly above it, then moderate
   * unless low is strictly above it, else low.
   */
  lemma FinalLevelRule(s: Scores)
    requires Buckets(s)
    ensures FinalLevel(s) in Canonical
    ensures forall k :: k in Canonical ==> Val(s, k) <= Val(s, FinalLevel(s))
    ensures FinalLevel(s) == "high" <==> Val(s, "high") >= Val(s, "low") && Val(s, "high") >= Val(s, "moderate")
    ensures FinalLevel(s) == "moderate" <==> Val(s, "moderate") >= Val(s, "low") && Val(s, "moderate") > Val(s, "high")
    ensures FinalLevel(s) == "low" <==> Val(s, "low") > Val(s, "moderate") && Val(s, "low") > Val(s, "high")
  {
    assert "low" != "moderate" && "low" != "high" && "moderate" != "high";
    assert "low" in Canonical && "moderate" in Canonical && "high" in Canonical;
    assert s.keys[1..] == ["moderate", "high"];
    var a1 := if Gt(Get(s, "low"), Get(s, "moderate")) then "low" else "moderate";
    assert Reduce("low", ["moderate", "high"], s) == Reduce(a1, ["high"], s);
    var a2 := if Gt(Get(s, a1), Get(s, "high")) then a1 else "high";
    assert ["high"][1..] == [];
    assert Reduce(a1, ["high"], s) == a2;
  }

  /** A last key holding `NaN` wins the `reduce`: every comparison with it is false. */
  lemma {:induction false} ReduceLastNaN(acc: string, rest: seq<string>, s: Scores)
    requires rest != [] && Get(s, rest[|rest| - 1]).NaN?
    ensures Reduce(acc, rest, s) == rest[|rest| - 1]
    decreases |rest|
  {
    if |rest| > 1 {
      ReduceLastNaN(if Gt(Get(s, acc), Get(s, rest[0])) then acc else rest[0], rest[1..], s);
    }
  }

  /** `Math.round`: halves round up. */
  function Round(x: real): int {
    (x + 0.5).Floor
  }

  function MinInt(a: int, b: int): int {
    if a <= b then a else b
  }

  function MinReal(a: real, b: real): real {
    if a <= b then a else b
  }

  /** `Math.min(100, Math.round(maxScore * 100 * Math.min(1, n / 5)))`; `None` is `NaN`. */
  function Confidence(maxScore: Num, n: nat): Option<int> {
    if maxScore.NaN? then None
    else Some(MinInt(100, Round(maxScore.v * 100.0 * MinReal(1.0, n as real / 5.0))))
  }

  /** Rounding keeps order. */
  lemma RoundMono(x: real, y: real)
    requires x <= y
    ensures Round(x) <= Round(y)
  {
  }

  /**
   * A share in [0, 1] gives a confidence in [0, 100]; with fewer than 5
   * reports it is at most 20 per report, and from 5 reports on the count no
   * longer matters.
   */
  lemma ConfidenceBounds(m: real, n: nat)
    requires 0.0 <= m <= 1.0
    ensures Confidence(Num(m), n).Some?
    ensures 0 <= Confidence(Num(m), n).value <= 100
    ensures n < 5 ==> Confidence(Num(m), n).value <= 20 * n
    ensures n >= 5 ==> Confidence(Num(m), n).value == MinInt(100, Round(m * 100.0))
  {
    var f := MinReal(1.0, n as real / 5.0);
    assert 0.0 <= f <= 1.0;
    assert 0.0 <= m * 100.0 * f by {
      assert 0.0 <= m * 100.0;
    }
    RoundMono(0.0, m * 100.0 * f);
    if n < 5 {
      assert f == n as real / 5.0;
      assert m * 100.0 * f <= 100.0 * f by {
        assert m * (100.0 * f) <= 1.0 * (100.0 * f);
      }
      RoundMono(m * 100.0 * f, (20 * n) as real);
      assert Round((20 * n) as real) == 20 * n;
    }
  }

  // ---------------------------------------------------------------------
  // The reading
  // ---------------------------------------------------------------------

  /** `distribution`: each bucket's share in percent; `None` is `NaN`. */
  datatype Distribution = Distribution(low: Option<int>, moderate: Option<int>, high: Option<int>)

  /** What `calculateCrowdLevel` returns; `None` stands for `null` or, for the confidence, `NaN`. */
  datatype CrowdReading = CrowdReading(level: string, confidence: Option<int>, reportCount: nat,
                                       lastUpdated: Option<int>, distribution: Option<Distribution>)

  /** `Math.round(scores[k] * 100)`. */
  function Percent(a: Num): Option<int> {
    if a.NaN? then None else Some(Round(a.v * 100.0))
  }

  /** The normalised `scores` for `rs`. */
  function Shares(rs: seq<Report>): Scores {
    Normalised(Tally(rs), TotalWeight(rs))
  }

  /** The reading `calculateCrowdLevel` returns for `rs`, newest first. */
  function ReadingOf(rs: seq<Report>): CrowdReading {
    if rs == [] then CrowdReading("moderate", Some(0), 0, None, None)
    else
      var n := Shares(rs);
      var level := FinalLevel(n);
      CrowdReading(level, Confidence(Get(n, level), |rs|), |rs|, Some(rs[0].createdAt),
                   Some(Distribution(Percent(Get(n, "low")), Percent(Get(n, "moderate")), Percent(Get(n, "high")))))
  }

  /**
   * `calculateCrowdLevel` on the reports of the last two hours, newest
   * first: the weighted tally, the normalisation in place, the final level
   * and the confidence.
   */
  method CalculateCrowdLevel(reports: seq<Report>) returns (r: CrowdReading)
    ensures r == ReadingOf(reports)
  {
    if |reports| == 0 {
      return CrowdReading("moderate", Some(0), 0, None, None);
    }
    var scores := Initial();
    var totalWeight := 0.0;
    for i := 0 to |reports|
      invariant scores == Tally(reports[..i])
      invariant totalWeight == TotalWeight(reports[..i])
    {
      var report := reports[i];
      var weight := Weight(report);
      assert reports[..i + 1][..i] == reports[..i];
      scores := Bump(scores, report.level, weight);
      totalWeight := totalWeight + weight;
    }
    assert reports[..|reports|] == reports;
    TallyShape(reports);
    scores := Normalise(scores, totalWeight);
    var finalLevel := FinalLevel(scores);
    var confidence := Confidence(Get(scores, finalLevel), |reports|);
    r := CrowdReading(finalLevel, confidence, |reports|, Some(reports[0].createdAt),
                      Some(Distribution(Percent(Get(scores, "low")), Percent(Get(scores, "moderate")), Percent(Get(scores, "high")))));
  }

  /**
   * With no report in the window: level moderate, confidence 0, no reports
   * and no update time.
   */
  lemma EmptyReading()
    ensures ReadingOf([]) == CrowdReading("moderate", Some(0), 0, None, None)
  {
  }

  /**
   * With canonical levels and plausible factors: the level is one of the
   * three buckets with the top share and the tie rule of `FinalLevelRule`,
   * the confidence lies in [0, 100] (at most 20 per report below 5
   * reports), the count is the number of reports, the update time is the
   * newest report's, and the percentages are those of the shares.
   */
  lemma CanonicalReading(rs: seq<Report>)
    requires rs != [] && AllCanonical(rs) && AllPlausible(rs)
    ensures ReadingOf(rs).level in Canonical && ReadingOf(rs).level == FinalLevel(Shares(rs))
    ensures forall k :: k in Canonical ==> Val(Shares(rs), k) <= Val(Shares(rs), ReadingOf(rs).level)
    ensures ReadingOf(rs).confidence == Confidence(Num(Val(Shares(rs), ReadingOf(rs).level)), |rs|)
    ensures ReadingOf(rs).confidence.Some? && 0 <= ReadingOf(rs).confidence.value <= 100
    ensures |rs| < 5 ==> ReadingOf(rs).confidence.value <= 20 * |rs|
    ensures ReadingOf(rs).reportCount == |rs| && ReadingOf(rs).lastUpdated == Some(rs[0].createdAt)
    ensures ReadingOf(rs).distribution == Some(Distribution(Some(Round(Val(Shares(rs), "low") * 100.0)),
                                                           Some(Round(Val(Shares(rs), "moderate") * 100.0)),
                                                           Some(Round(Val(Shares(rs), "high") * 100.0))))
  {
    NormalisedShares(rs);
    var n := Shares(rs);
    FinalLevelRule(n);
    var level := FinalLevel(n);
    var m := Val(n, level);
    assert Get(n, level) == Num(m);
    assert "low" in Canonical && "moderate" in Canonical && "high" in Canonical;
    ConfidenceBounds(m, |rs|);
    assert ReadingOf(rs) == CrowdReading(level, Confidence(Num(m), |rs|), |rs|, Some(rs[0].createdAt),
                                         Some(Distribution(Percent(Get(n, "low")), Percent(Get(n, "moderate")), Percent(Get(n, "high")))));
  }

  /**
   * A report whose level is none of the three buckets adds a key holding
   * `NaN`; the last such key wins the `reduce` and the confidence is `NaN`.
   */
  lemma StrayReading(rs: seq<Report>, j: nat)
    requires j < |rs| && !IsCanonical(rs[j].level) && AllPlausible(rs)
    ensures |Tally(rs).keys| > 3
    ensures ReadingOf(rs).level == Tally(rs).keys[|Tally(rs).keys| - 1]
    ensures !IsCanonical(ReadingOf(rs).level)
    ensures ReadingOf(rs).confidence.None?
  {
    StrayKey(rs, j);
    TotalPositive(rs);
    var s := Tally(rs);
    var n := Shares(rs);
    var last := s.keys[|s.keys| - 1];
    assert Get(n, last) == NaN;
    assert n.keys == s.keys;
    ReduceLastNaN(n.keys[0], n.keys[1..], n);
    assert n.keys[1..][|n.keys[1..]| - 1] == last;
    assert FinalLevel(n) == last;
  }

  /** A stray level leaves a last key beyond the buckets, itself no bucket, holding `NaN`. */
  lemma StrayKey(rs: seq<Report>, j: nat)
    requires j < |rs| && !IsCanonical(rs[j].level)
    ensures |Tally(rs).keys| > 3
    ensures var last := Tally(rs).keys[|Tally(rs).keys| - 1];
      last in Tally(rs).vals && Tally(rs).vals[last].NaN? && !IsCanonical(last)
  {
    TallyShape(rs);
    TallyCovers(rs);
    StrayBeyond(Tally(rs), rs[j].level);
  }

  /** In a shaped `scores`, a key that is no bucket sits past the buckets, and so does the last key. */
  lemma StrayBeyond(s: Scores, x: string)
    requires Shaped(s) && x in s.keys && !IsCanonical(x)
    ensures |s.keys| > 3
    ensures var last := s.keys[|s.keys| - 1];
      last in s.vals && s.vals[last].NaN? && !IsCanonical(last)
  {
    var ks := s.keys;
    assert ks[0] == "low" && ks[1] == "moderate" && ks[2] == "high" by {
      assert ks[..3][0] == ks[0] && ks[..3][1] == ks[1] && ks[..3][2] == ks[2];
    }
    var n := |ks| - 1;
    assert n >= 3;
    assert ks[0] != ks[n] && ks[1] != ks[n] && ks[2] != ks[n];
    assert s.vals[ks[n]].NaN?;
  }

  // ---------------------------------------------------------------------
  // Hourly trends
  // ---------------------------------------------------------------------

  /** An hour of the day, as `getHours()` yields. */
  type Hour = h: int | 0 <= h < 24

  /** A report of the last 24 hours: its level and the local hour of its `createdAt`. */
  datatype HourlyReport = HourlyReport(level: string, hour: Hour)

  /** One `hourlyData` slot. */
  datatype Slot = Slot(hour: int, low: nat, moderate: nat, high: nat, total: nat)

  /**
   * `hourlyData[hour][level]++`: the named field moves when it is one of the
   * five; any other level adds a field that is never read.
   */
  function CountLevel(b: Slot, level: string): Slot {
    if level == "low" then b.(low := b.low + 1)
    else if level == "moderate" then b.(moderate := b.moderate + 1)
    else if level == "high" then b.(high := b.high + 1)
    else if level == "total" then b.(total := b.total + 1)
    else if level == "hour" then b.(hour := b.hour + 1)
    else b
  }

  /** Both increments of one report: its level's field, then `total`. */
  function Record(b: Slot, level: string): Slot {
    var c := CountLevel(b, level);
    c.(total := c.total + 1)
  }

  /** Slot `i` after the loop over `rs`. */
  function SlotOf(rs: seq<HourlyReport>, i: Hour): Slot
    decreases |rs|
  {
    if rs == [] then Slot(i, 0, 0, 0, 0)
    else
      var r := rs[|rs| - 1];
      var b := SlotOf(rs[..|rs| - 1], i);
      if r.hour == i then Record(b, r.level) else b
  }

  /** An entry of the result: `{ hour, level: null }` for an empty hour, else the dominant level and the counts. */
  datatype Trend =
    | Quiet(hour: int)
    | Busy(hour: int, level: string, low: nat, moderate: nat, high: nat, total: nat)

  /** High only when strictly above both others, then moderate when strictly above low, else low. */
  function Dominant(b: Slot): string {
    if b.high > b.moderate && b.high > b.low then "high"
    else if b.moderate > b.low then "moderate"
    else "low"
  }

  function TrendOf(b: Slot): Trend {
    if b.total == 0 then Quiet(b.hour)
    else Busy(b.hour, Dominant(b), b.low, b.moderate, b.high, b.total)
  }

  /** The trends `getHourlyTrends` returns for `rs`. */
  function Trends(rs: seq<HourlyReport>): seq<Trend> {
    seq(24, i requires 0 <= i < 24 => TrendOf(SlotOf(rs, i)))
  }

  /**
   * `getHourlyTrends` on the reports of the last 24 hours: 24 zeroed slots,
   * one increment of a level field and of `total` per report, then each slot
   * mapped to its trend.
   */
  method GetHourlyTrends(reports: seq<HourlyReport>) returns (trends: seq<Trend>)
    ensures trends == Trends(reports)
  {
    var hourlyData := new Slot[24](i => Slot(i, 0, 0, 0, 0));
    for k := 0 to |reports|
      invariant forall i :: 0 <= i < 24 ==> hourlyData[i] == SlotOf(reports[..k], i)
    {
      var report := reports[k];
      assert reports[..k + 1][..k] == reports[..k];
      hourlyData[report.hour] := Record(hourlyData[report.hour], report.level);
    }
    assert reports[..|reports|] == reports;
    trends := seq(24, i requires 0 <= i < 24 reads hourlyData => TrendOf(hourlyData[i]));
  }

  /** The dominant level has the largest count; ties go to low before moderate before high. */
  lemma DominantIsMax(b: Slot)
    ensures Dominant(b) == "high" ==> b.high > b.moderate && b.high > b.low
    ensures Dominant(b) == "moderate" ==> b.moderate > b.low && b.moderate >= b.high
    ensures Dominant(b) == "low" ==> b.low >= b.moderate && b.low >= b.high
  {
  }

  /** How many of `rs` fall in hour `i`. */
  function InHour(rs: seq<HourlyReport>, i: Hour): nat
    decreases |rs|
  {
    if rs == [] then 0 else InHour(rs[..|rs| - 1], i) + (if rs[|rs| - 1].hour == i then 1 else 0)
  }

  predicate HourlyCanonical(rs: seq<HourlyReport>) {
    forall j :: 0 <= j < |rs| ==> IsCanonical(rs[j].level)
  }

  /**
   * A slot counts at least the reports of its hour in `total`, and with
   * canonical levels exactly those, split over the three level counters;
   * its `hour` stays put unless some report's level is `"hour"`.
   */
  lemma {:induction false} SlotCounts(rs: seq<HourlyReport>, i: Hour)
    ensures SlotOf(rs, i).total >= InHour(rs, i)
    ensures HourlyCanonical(rs) ==> SlotOf(rs, i).total == InHour(rs, i)
    ensures HourlyCanonical(rs) ==> SlotOf(rs, i).low + SlotOf(rs, i).moderate + SlotOf(rs, i).high == SlotOf(rs, i).total
    ensures (forall j :: 0 <= j < |rs| ==> rs[j].level != "hour") ==> SlotOf(rs, i).hour == i
    decreases |rs|
  {
    if rs != [] {
      var t := rs[..|rs| - 1];
      assert forall j :: 0 <= j < |t| ==> t[j] == rs[j];
      SlotCounts(t, i);
    }
  }

  /** An hour has no reports exactly when its total is 0. */
  lemma {:induction false} QuietExactly(rs: seq<HourlyReport>, i: Hour)
    ensures SlotOf(rs, i).total == 0 <==> forall j :: 0 <= j < |rs| ==> rs[j].hour != i
    decreases |rs|
  {
    if rs != [] {
      var t := rs[..|rs| - 1];
      assert forall j :: 0 <= j < |t| ==> t[j] == rs[j];
      QuietExactly(t, i);
    }
  }

  /**
   * Exactly 24 entries; entry `i` is quiet exactly when no report falls in
   * hour `i`, and, unless a report's level is `"hour"`, it carries hour `i`.
   */
  lemma TrendsShape(rs: seq<HourlyReport>, i: Hour)
    ensures |Trends(rs)| == 24
    ensures Trends(rs)[i].Quiet? <==> forall j :: 0 <= j < |rs| ==> rs[j].hour != i
    ensures (forall j :: 0 <= j < |rs| ==> rs[j].level != "hour") ==> Trends(rs)[i].hour == i
  {
    QuietExactly(rs, i);
    SlotCounts(rs, i);
  }

  /** The totals of hours `0` to `n - 1`. */
  function SumTotals(rs: seq<HourlyReport>, n: nat): nat
    requires n <= 24
  {
    if n == 0 then 0 else SumTotals(rs, n - 1) + SlotOf(rs, n - 1).total
  }

  /** The reports of hours `0` to `n - 1`. */
  function SumInHour(rs: seq<HourlyReport>, n: nat): nat
    requires n <= 24
  {
    if n == 0 then 0 else SumInHour(rs, n - 1) + InHour(rs, n - 1)
  }

  /** Every report falls in exactly one of the 24 hours. */
  lemma {:induction false} HoursPartition(rs: seq<HourlyReport>)
    ensures SumInHour(rs, 24) == |rs|
    decreases |rs|
  {
    if rs == [] {
      NoHours(24);
    } else {
      var t, r := rs[..|rs| - 1], rs[|rs| - 1];
      assert t + [r] == rs;
      HoursPartition(t);
      SumInHourSnoc(t, r, 24);
      assert SumInHour(rs, 24) == SumInHour(t, 24) + 1;
    }
  }

  lemma {:induction false} NoHours(n: nat)
    requires n <= 24
    ensures SumInHour([], n) == 0
  {
    if n > 0 {
      NoHours(n - 1);
    }
  }

  /** Adding one report adds one to the hour-range that contains its hour. */
  lemma {:induction false} SumInHourSnoc(t: seq<HourlyReport>, r: HourlyReport, n: nat)
    requires n <= 24
    ensures SumInHour(t + [r], n) == SumInHour(t, n) + (if r.hour < n then 1 else 0)
  {
    if n > 0 {
      SumInHourSnoc(t, r, n - 1);
      var rs := t + [r];
      assert rs[..|rs| - 1] == t;
    }
  }

  /** With canonical levels, the 24 totals add up to the number of reports. */
  lemma TotalsSum(rs: seq<HourlyReport>)
    requires HourlyCanonical(rs)
    ensures SumTotals(rs, 24) == |rs|
  {
    TotalsAreCounts(rs, 24);
    HoursPartition(rs);
  }

  lemma {:induction false} TotalsAreCounts(rs: seq<HourlyReport>, n: nat)
    requires n <= 24 && HourlyCanonical(rs)
    ensures SumTotals(rs, n) == SumInHour(rs, n)
  {
    if n > 0 {
      TotalsAreCounts(rs, n - 1);
      SlotCounts(rs, n - 1);
    }
  }
}
