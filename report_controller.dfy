/**
 * Two helpers of the report controller: the validation `submitReport` does
 * before it builds a report, and the "time ago" label of the crowd summary.
 */
module ReportController {
  import opened JsObjects

  // ---------------------------------------------------------------------
  // submitReport
  // ---------------------------------------------------------------------

  datatype Body = Body(station: Field, level: Field, remarks: Field, userId: Field)

  /** The fields the new report is built from. */
  datatype NewReport = NewReport(station: Field, level: Field, remarks: Field, userId: Field)

  datatype Submission =
    | BadRequest(status: nat, error: string)
    | Accepted(report: NewReport)

  /** The check on lines 11–15 and the report built on lines 17–22. */
  function SubmitReport(body: Body): Submission {
    if !Truthy(body.station) || !Truthy(body.level) || !Truthy(body.userId) then
      BadRequest(400, "Station, level, and userId are required")
    else
      Accepted(NewReport(body.station, body.level, if Truthy(body.remarks) then body.remarks else Text(""), body.userId))
  }

  /**
   * The request is refused with 400 exactly when station, level or userId
   * is missing or falsy; otherwise those three are kept as given, and a
   * falsy or missing remark becomes the empty string.
   */
  lemma SubmitRule(body: Body)
    ensures SubmitReport(body).BadRequest? <==>
      !Truthy(body.station) || !Truthy(body.level) || !Truthy(body.userId)
    ensures SubmitReport(body).BadRequest? ==> SubmitReport(body).status == 400
    ensures SubmitReport(body).Accepted? ==>
      var r := SubmitReport(body).report;
      (r.station == body.station && r.level == body.level && r.userId == body.userId &&
       (Truthy(body.remarks) ==> r.remarks == body.remarks) &&
       (!Truthy(body.remarks) ==> r.remarks == Text("")))
  {
  }

  /** With all four fields strings, an accepted report's required fields are non-empty strings. */
  lemma SubmitStrings(station: string, level: string, remarks: string, userId: string)
    ensures var res := SubmitReport(Body(Text(station), Text(level), Text(remarks), Text(userId)));
      (res.Accepted? <==> station != "" && level != "" && userId != "") &&
      (res.Accepted? ==> res.report == NewReport(Text(station), Text(level), Text(remarks), Text(userId)))
  {
  }

  // ---------------------------------------------------------------------
  // getTimeAgo
  // ---------------------------------------------------------------------

  const Minute: int := 60
  const Hour: int := 3600
  const Day: int := 86400
  /** Thirty days. */
  const Month: int := 2592000

  /**
   * `Math.floor((now - date) / 1000)` with both times in milliseconds.
   * The divisor is positive, so Dafny's division of integers rounds down
   * exactly as `Math.floor` does, negative differences included.
   */
  function Seconds(now: int, date: int): int {
    (now - date) / 1000
  }

  /** The unit and count a label shows. */
  datatype Ago = JustNow | Mins(n: int) | Hours(n: int) | Days(n: int) | Months(n: int)

  /** The cascade of lines 177–181. */
  function AgoOf(s: int): Ago {
    if s < Minute then JustNow
    else if s < Hour then Mins(s / Minute)
    else if s < Day then Hours(s / Hour)
    else if s < Month then Days(s / Day)
    else Months(s / Month)
  }

  /** The decimal digits of `n`, as a template literal prints a non-negative integer. */
  function Decimal(n: nat): string
    decreases n
  {
    if n < 10 then [Digit(n)] else Decimal(n / 10) + [Digit(n % 10)]
  }

  function Digit(d: nat): char
    requires d < 10
  {
    "0123456789"[d]
  }

  function Label(a: Ago): string {
    match a
    case JustNow => "just now"
    case Mins(n) => Count(n) + " mins ago"
    case Hours(n) => Count(n) + " hours ago"
    case Days(n) => Count(n) + " days ago"
    case Months(n) => Count(n) + " months ago"
  }

  /** The counts `AgoOf` yields are positive; a negative count prints its magnitude after a minus sign. */
  function Count(n: int): string {
    if n >= 0 then Decimal(n) else "-" + Decimal(-n)
  }

  function GetTimeAgo(now: int, date: int): string {
    Label(AgoOf(Seconds(now, date)))
  }

  /** Order of the units, from "just now" to months. */
  function UnitRank(a: Ago): nat {
    match a
    case JustNow => 0
    case Mins(_) => 1
    case Hours(_) => 2
    case Days(_) => 3
    case Months(_) => 4
  }

  /**
   * Each interval of seconds picks its unit, and the count it shows is the
   * whole number of that unit in the interval's range: 1–59 minutes,
   * 1–23 hours, 1–29 days, at least one month.
   */
  lemma AgoIntervals(s: int)
    ensures AgoOf(s) == JustNow <==> s < 60
    ensures AgoOf(s).Mins? <==> 60 <= s < 3600
    ensures AgoOf(s).Hours? <==> 3600 <= s < 86400
    ensures AgoOf(s).Days? <==> 86400 <= s < 2592000
    ensures AgoOf(s).Months? <==> 2592000 <= s
    ensures AgoOf(s).Mins? ==> AgoOf(s).n * 60 <= s < (AgoOf(s).n + 1) * 60 && 1 <= AgoOf(s).n <= 59
    ensures AgoOf(s).Hours? ==> AgoOf(s).n * 3600 <= s < (AgoOf(s).n + 1) * 3600 && 1 <= AgoOf(s).n <= 23
    ensures AgoOf(s).Days? ==> AgoOf(s).n * 86400 <= s < (AgoOf(s).n + 1) * 86400 && 1 <= AgoOf(s).n <= 29
    ensures AgoOf(s).Months? ==> AgoOf(s).n * 2592000 <= s < (AgoOf(s).n + 1) * 2592000 && 1 <= AgoOf(s).n
  {
    if 60 <= s < 3600 {
      DivRange(s, 60);
    } else if 3600 <= s < 86400 {
      DivRange(s, 3600);
    } else if 86400 <= s < 2592000 {
      DivRange(s, 86400);
    } else if 2592000 <= s {
      DivRange(s, 2592000);
    }
  }

  /** `s / d` is the whole number of `d`s in `s`. */
  lemma DivRange(s: int, d: int)
    requires d > 0
    ensures (s / d) * d <= s < (s / d + 1) * d
  {
    assert (s / d) * d + s % d == s;
  }

  /** More seconds never move the label to an earlier unit. */
  lemma AgoMonotone(s: int, t: int)
    requires s <= t
    ensures UnitRank(AgoOf(s)) <= UnitRank(AgoOf(t))
    ensures AgoOf(s).Months? && AgoOf(t).Months? ==> AgoOf(s).n <= AgoOf(t).n
  {
    if s >= Month {
      DivMonotone(s, t, Month);
    }
  }

  lemma DivMonotone(s: int, t: int, d: int)
    requires d > 0 && s <= t
    ensures s / d <= t / d
  {
    DivRange(s, d);
    DivRange(t, d);
  }

  /** The decimal text of a number reads back as that number. */
  function ParseDecimal(s: string): nat
    requires forall i :: 0 <= i < |s| ==> '0' <= s[i] <= '9'
    decreases |s|
  {
    if s == [] then 0
    else 10 * ParseDecimal(s[..|s| - 1]) + ((s[|s| - 1] as int) - ('0' as int))
  }

  /** A count prints as digits, with no leading zero unless it is zero. */
  lemma {:induction false} DecimalDigits(n: nat)
    ensures |Decimal(n)| > 0 && forall i :: 0 <= i < |Decimal(n)| ==> '0' <= Decimal(n)[i] <= '9'
    ensures Decimal(n)[0] == '0' ==> n == 0
    decreases n
  {
    if n >= 10 {
      DecimalDigits(n / 10);
      assert Decimal(n)[0] == Decimal(n / 10)[0];
    }
  }

  /** The digits of a count read back as the count. */
  lemma {:induction false} DecimalRoundTrip(n: nat)
    ensures DecimalDigitsOnly(n) && ParseDecimal(Decimal(n)) == n
    decreases n
  {
    DecimalDigits(n);
    if n >= 10 {
      DecimalRoundTrip(n / 10);
      var s := Decimal(n);
      assert s[..|s| - 1] == Decimal(n / 10);
      assert s[|s| - 1] == Digit(n % 10);
    }
  }

  predicate DecimalDigitsOnly(n: nat) {
    forall i :: 0 <= i < |Decimal(n)| ==> '0' <= Decimal(n)[i] <= '9'
  }

  /** Distinct counts print differently. */
  lemma DecimalInjective(m: nat, n: nat)
    requires Decimal(m) == Decimal(n)
    ensures m == n
  {
    DecimalRoundTrip(m);
    DecimalRoundTrip(n);
  }

  /**
   * The label is "just now" exactly when less than a minute has passed,
   * a future date included; otherwise it starts with the count's digits.
   */
  lemma JustNowExactly(now: int, date: int)
    ensures GetTimeAgo(now, date) == "just now" <==> Seconds(now, date) < 60
    ensures Seconds(now, date) >= 60 ==>
      GetTimeAgo(now, date)[..|Decimal(AgoOf(Seconds(now, date)).n)|] == Decimal(AgoOf(Seconds(now, date)).n)
  {
    var s := Seconds(now, date);
    AgoIntervals(s);
    if s >= 60 {
      var n := AgoOf(s).n;
      DecimalDigits(n);
      assert GetTimeAgo(now, date)[0] == Decimal(n)[0];
    }
  }
}
