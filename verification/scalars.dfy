/**
 * The scalar readers of `ActivityParser`: each turns one trimmed field text into its
 * typed value or into the single error that field reports.
 */
module Scalars {
  import opened Wrappers
  import opened Text
  import opened Numbers
  import opened Fields
  import Clock

  /** `parseDuration`: a clock time, else the duration's invalid-value error. */
  function ParseDuration(text: string): (r: Result<Clock.Time, Error>)
    ensures r.Success? ==> Clock.ValidTime(r.value) && Clock.ParseLocalTime(text) == Some(r.value)
    ensures r.Failure? <==> Clock.ParseLocalTime(text).None?
    ensures r.Failure? ==> r.error == Invalid(DurationField)
  {
    match Clock.ParseLocalTime(text)
    case Some(t) => Success(t)
    case None => Failure(Invalid(DurationField))
  }

  /** The shared date-time reader: a `yyyy-MM-dd HH:mm` moment, else the date-time error. */
  function ParseDateTime(text: string): (r: Result<Clock.DateTime, Error>)
    ensures r.Success? ==> Clock.ValidDateTime(r.value) && Clock.ParseDateTime(text) == Some(r.value)
    ensures r.Failure? <==> Clock.ParseDateTime(text).None?
    ensures r.Failure? ==> r.error == Invalid(DateTimeField)
  {
    match Clock.ParseDateTime(text)
    case Some(d) => Success(d)
    case None => Failure(Invalid(DateTimeField))
  }

  /**
   * `parseDistance`: a decimal `int` that is not negative. Non-numeric or overflowing text
   * reports the invalid-distance error; a negative value the negative-distance error.
   */
  function ParseDistance(text: string): (r: Result<int, Error>)
    ensures r.Success? ==> 0 <= r.value <= INT_MAX && ParseInt(text) == Some(r.value)
    ensures r == Failure(Invalid(DistanceField)) <==> ParseInt(text).None?
    ensures r == Failure(Negative(DistanceField)) <==> ParseInt(text).Some? && ParseInt(text).value < 0
    ensures !IsNumeral(text) ==> r == Failure(Invalid(DistanceField))
  {
    match ParseInt(text)
    case None => Failure(Invalid(DistanceField))
    case Some(n) => if n < 0 then Failure(Negative(DistanceField)) else Success(n)
  }

  /**
   * `parseTarget`: the same rules as the distance, with the target's own invalid and
   * negative errors.
   */
  function ParseTarget(text: string): (r: Result<int, Error>)
    ensures r.Success? ==> 0 <= r.value <= INT_MAX && ParseInt(text) == Some(r.value)
    ensures r == Failure(Invalid(TargetField)) <==> ParseInt(text).None?
    ensures r == Failure(Negative(TargetField)) <==> ParseInt(text).Some? && ParseInt(text).value < 0
    ensures !IsNumeral(text) ==> r == Failure(Invalid(TargetField))
  {
    match ParseInt(text)
    case None => Failure(Invalid(TargetField))
    case Some(n) => if n < 0 then Failure(Negative(TargetField)) else Success(n)
  }

  /** `parseElevation`: any decimal `int`, negative ones included. */
  function ParseElevation(text: string): (r: Result<int, Error>)
    ensures r.Success? ==> InIntRange(r.value) && ParseInt(text) == Some(r.value)
    ensures r.Failure? <==> ParseInt(text).None?
    ensures r.Failure? ==> r.error == Invalid(ElevationField)
  {
    match ParseInt(text)
    case None => Failure(Invalid(ElevationField))
    case Some(n) => Success(n)
  }

  /** Every rendered `int` is read back as a distance when not negative, and refused as negative otherwise. */
  lemma DistanceOfNumeral(n: int)
    requires InIntRange(n)
    ensures ParseDistance(IntToString(n)) == if n < 0 then Failure(Negative(DistanceField)) else Success(n)
  {
    ParseIntRoundTrip(n);
  }

  /** The target reader classifies every rendered `int` exactly as the distance reader does. */
  lemma TargetOfNumeral(n: int)
    requires InIntRange(n)
    ensures ParseTarget(IntToString(n)) == if n < 0 then Failure(Negative(TargetField)) else Success(n)
  {
    ParseIntRoundTrip(n);
  }

  /** Unlike distance and target, every rendered `int` is an elevation, negative ones included. */
  lemma ElevationOfNumeral(n: int)
    requires InIntRange(n)
    ensures ParseElevation(IntToString(n)) == Success(n)
  {
    ParseIntRoundTrip(n);
  }

  /** `parseSwimmingStyle`: `valueOf` on the upper-cased text. */
  function ParseSwimmingStyle(text: string): (r: Result<SwimmingStyle, Error>)
    ensures r.Success? ==> SwimmingStyleName(r.value) == ToUpper(text)
    ensures r.Failure? ==> r.error == Invalid(SwimmingStyleField)
    ensures r.Failure? ==> forall x :: SwimmingStyleName(x) != ToUpper(text)
  {
    var u := ToUpper(text);
    if u == "BUTTERFLY" then Success(Butterfly)
    else if u == "BACKSTROKE" then Success(Backstroke)
    else if u == "BREASTSTROKE" then Success(Breaststroke)
    else if u == "FREESTYLE" then Success(Freestyle)
    else Failure(Invalid(SwimmingStyleField))
  }

  /** `parseSport`: `valueOf` on the upper-cased text. */
  function ParseSport(text: string): (r: Result<Sport, Error>)
    ensures r.Success? ==> SportName(r.value) == ToUpper(text)
    ensures r.Failure? ==> r.error == Invalid(SportField)
    ensures r.Failure? ==> forall x :: SportName(x) != ToUpper(text)
  {
    var u := ToUpper(text);
    if u == "RUNNING" then Success(Running)
    else if u == "CYCLING" then Success(Cycling)
    else if u == "SWIMMING" then Success(Swimming)
    else if u == "GENERAL" then Success(General)
    else Failure(Invalid(SportField))
  }

  /** `parseGoalType`: `valueOf` on the upper-cased text. */
  function ParseGoalType(text: string): (r: Result<GoalType, Error>)
    ensures r.Success? ==> GoalTypeName(r.value) == ToUpper(text)
    ensures r.Failure? ==> r.error == Invalid(TypeField)
    ensures r.Failure? ==> forall x :: GoalTypeName(x) != ToUpper(text)
  {
    var u := ToUpper(text);
    if u == "DISTANCE" then Success(Distance)
    else if u == "DURATION" then Success(Duration)
    else Failure(Invalid(TypeField))
  }

  /** `parsePeriod`: `valueOf` on the upper-cased text. */
  function ParsePeriod(text: string): (r: Result<TimeSpan, Error>)
    ensures r.Success? ==> TimeSpanName(r.value) == ToUpper(text)
    ensures r.Failure? ==> r.error == Invalid(PeriodField)
    ensures r.Failure? ==> forall x :: TimeSpanName(x) != ToUpper(text)
  {
    var u := ToUpper(text);
    if u == "DAILY" then Success(Daily)
    else if u == "WEEKLY" then Success(Weekly)
    else if u == "MONTHLY" then Success(Monthly)
    else if u == "YEARLY" then Success(Yearly)
    else Failure(Invalid(PeriodField))
  }

  /** Names are upper-case ASCII, so upper-casing leaves them unchanged. */
  lemma UpperOfUpper(s: string)
    requires forall i :: 0 <= i < |s| ==> 'A' <= s[i] <= 'Z'
    ensures ToUpper(s) == s
  {
  }

  /**
   * Matching ignores case: a constant's name, and the same name lower-cased, both read as
   * that constant. One lemma per enumeration.
   */
  lemma SwimmingStyleIgnoresCase(style: SwimmingStyle)
    ensures ParseSwimmingStyle(SwimmingStyleName(style)) == Success(style)
    ensures ParseSwimmingStyle(ToLower(SwimmingStyleName(style))) == Success(style)
  {
    UpperIgnoresCase(SwimmingStyleName(style));
    UpperOfUpper(SwimmingStyleName(style));
  }

  lemma SportIgnoresCase(sport: Sport)
    ensures ParseSport(SportName(sport)) == Success(sport)
    ensures ParseSport(ToLower(SportName(sport))) == Success(sport)
  {
    UpperIgnoresCase(SportName(sport));
    UpperOfUpper(SportName(sport));
  }

  lemma GoalTypeIgnoresCase(goal: GoalType)
    ensures ParseGoalType(GoalTypeName(goal)) == Success(goal)
    ensures ParseGoalType(ToLower(GoalTypeName(goal))) == Success(goal)
  {
    UpperIgnoresCase(GoalTypeName(goal));
    UpperOfUpper(GoalTypeName(goal));
  }

  lemma PeriodIgnoresCase(span: TimeSpan)
    ensures ParsePeriod(TimeSpanName(span)) == Success(span)
    ensures ParsePeriod(ToLower(TimeSpanName(span))) == Success(span)
  {
    UpperIgnoresCase(TimeSpanName(span));
    UpperOfUpper(TimeSpanName(span));
  }
}
