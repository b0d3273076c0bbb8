/**
 * The full-record builders of `ActivityParser`: `parseActivity`, `parseRunCycle`,
 * `parseSwim` and `parseActivityGoal`. Each finds its required tags, reports the first
 * absent one, cuts the text between consecutive tags, checks for empty texts and only then
 * reads the scalars; a record exists only when every step succeeded.
 */
module Records {
  import opened Wrappers
  import opened Text
  import opened Fields
  import opened Scalars
  import opened Checks
  import Clock

  /** `Activity` and its subclasses `Run`, `Cycle` and `Swim`. */
  datatype Activity =
    | Activity(caption: string, duration: Clock.Time, distance: int, startDateTime: Clock.DateTime)
    | Run(caption: string, duration: Clock.Time, distance: int, startDateTime: Clock.DateTime,
          elevation: int)
    | Cycle(caption: string, duration: Clock.Time, distance: int, startDateTime: Clock.DateTime,
            elevation: int)
    | Swim(caption: string, duration: Clock.Time, distance: int, startDateTime: Clock.DateTime,
           swimmingStyle: SwimmingStyle)

  /** `ActivityGoal`. */
  datatype ActivityGoal = ActivityGoal(period: TimeSpan, goalType: GoalType, sport: Sport, target: int)

  /** The tags a full build requires, in the order they are checked and expected in the text. */
  const ACTIVITY_TAGS: seq<Field> := [DurationField, DistanceField, DateTimeField]
  const RUN_CYCLE_TAGS: seq<Field> := [DurationField, DistanceField, DateTimeField, ElevationField]
  const SWIM_TAGS: seq<Field> := [DurationField, DistanceField, DateTimeField, SwimmingStyleField]
  const GOAL_TAGS: seq<Field> := [SportField, TypeField, PeriodField, TargetField]

  /** The tag of field `j` ends no later than the tag of field `j + 1` begins. */
  predicate Precedes(fs: seq<Field>, idx: seq<int>, j: nat)
    requires |idx| == |fs| && j + 1 < |fs|
  {
    idx[j] + |Tag(fs[j])| <= idx[j + 1]
  }

  /** Every tag of `fs` ends no later than the next one begins. */
  predicate InOrder(fs: seq<Field>, idx: seq<int>)
    requires |idx| == |fs|
  {
    forall j :: 0 <= j < |fs| - 1 ==> Precedes(fs, idx, j)
  }

  /** Where the text of field `j` ends: at the next required tag, the last one at the end of `s`. */
  function FieldEnd(s: string, idx: seq<int>, j: nat): int
    requires j < |idx|
  {
    if j + 1 < |idx| then idx[j + 1] else |s|
  }

  /** All tags of `fs` occur somewhere. */
  ghost predicate AllTagsPresent(s: string, fs: seq<Field>) {
    forall i :: 0 <= i < |fs| ==> TagIndex(s, fs[i]) != -1
  }

  /**
   * Every tag of `fs` occurs, and each first occurrence ends before the next field's tag
   * begins: the only arrangement in which the builders' `substring` calls succeed.
   */
  ghost predicate TagsInOrder(s: string, fs: seq<Field>) {
    && AllTagsPresent(s, fs)
    && InOrder(fs, Indices(s, fs))
  }

  /** The trimmed text before the first tag of `fs`: a full build's caption. */
  ghost function CaptionText(s: string, fs: seq<Field>): string
    requires |fs| > 0 && TagsInOrder(s, fs)
  {
    Trim(s[..TagIndex(s, fs[0])])
  }

  /** The trimmed text between the tag of `fs[i]` and the next tag of `fs`, or the end of `s`. */
  ghost function FieldText(s: string, fs: seq<Field>, i: nat): string
    requires i < |fs| && TagsInOrder(s, fs)
  {
    var idx := Indices(s, fs);
    assert OccursAt(s, Tag(fs[i]), idx[i]);
    assert i + 1 < |fs| ==> Precedes(fs, idx, i) && OccursAt(s, Tag(fs[i + 1]), idx[i + 1]);
    Trim(s[idx[i] + |Tag(fs[i])|..FieldEnd(s, idx, i)])
  }

  /** The texts of all fields of `fs`, in order. */
  ghost function FieldTexts(s: string, fs: seq<Field>): (r: seq<string>)
    requires TagsInOrder(s, fs)
    ensures |r| == |fs| && forall i :: 0 <= i < |fs| ==> r[i] == FieldText(s, fs, i)
  {
    seq(|fs|, i requires 0 <= i < |fs| => FieldText(s, fs, i))
  }

  /** The tags are in order and no text a full build checks for emptiness is empty. */
  ghost predicate TextsPresent(s: string, fs: seq<Field>) {
    && |fs| > 0
    && TagsInOrder(s, fs)
    && CaptionText(s, fs) != []
    && forall i :: 0 <= i < |fs| ==> FieldText(s, fs, i) != []
  }

  /** The raw texts of a full build: the caption, then one text per required tag. */
  datatype Texts = Texts(caption: string, fields: seq<string>)

  /**
   * The `substring` calls of a full build: each field runs from just after its tag to the
   * offset of the next required tag, the last one to the end of `s`. The calls run in order,
   * but every failing one throws the same exception, so the result depends only on whether
   * some span would end before it begins.
   */
  function SliceFields(s: string, fs: seq<Field>, idx: seq<int>): (r: Result<seq<string>, Error>)
    requires |idx| == |fs|
    requires forall j :: 0 <= j < |fs| ==> 0 <= idx[j] && idx[j] + |Tag(fs[j])| <= |s|
    ensures r.Success? <==> InOrder(fs, idx)
    ensures r.Failure? ==> r.error == SliceOutOfBounds
    ensures r.Success? ==> |r.value| == |fs|
    ensures r.Success? ==> forall j :: 0 <= j < |fs| ==>
              && idx[j] + |Tag(fs[j])| <= FieldEnd(s, idx, j) <= |s|
              && r.value[j] == s[idx[j] + |Tag(fs[j])|..FieldEnd(s, idx, j)]
  {
    if InOrder(fs, idx) then
      SpansFit(s, fs, idx);
      Success(seq(|fs|, j requires 0 <= j < |fs| => s[idx[j] + |Tag(fs[j])|..FieldEnd(s, idx, j)]))
    else
      Failure(SliceOutOfBounds)
  }

  /** When consecutive tags are in order, every field's span lies inside `s` and is well formed. */
  lemma SpansFit(s: string, fs: seq<Field>, idx: seq<int>)
    requires |idx| == |fs|
    requires forall j :: 0 <= j < |fs| ==> 0 <= idx[j] && idx[j] + |Tag(fs[j])| <= |s|
    requires InOrder(fs, idx)
    ensures forall j :: 0 <= j < |fs| ==> idx[j] + |Tag(fs[j])| <= FieldEnd(s, idx, j) <= |s|
  {
    forall j | 0 <= j < |fs|
      ensures idx[j] + |Tag(fs[j])| <= FieldEnd(s, idx, j) <= |s|
    {
      if j + 1 < |fs| {
        assert Precedes(fs, idx, j);
        assert idx[j + 1] + |Tag(fs[j + 1])| <= |s|;
      }
    }
  }

  /** `trim()` applied to each text. */
  function TrimAll(raws: seq<string>): (r: seq<string>)
    ensures |r| == |raws| && forall j :: 0 <= j < |raws| ==> r[j] == Trim(raws[j])
  {
    seq(|raws|, j requires 0 <= j < |raws| => Trim(raws[j]))
  }

  /** The slicing and trimming of the texts of `fs`, once all their tags are known to occur. */
  function SliceAndTrim(s: string, fs: seq<Field>): (r: Result<seq<string>, Error>)
    requires AllTagsPresent(s, fs)
    ensures r.Failure? <==> !TagsInOrder(s, fs)
    ensures r.Failure? ==> r.error == SliceOutOfBounds
    ensures r.Success? ==> TagsInOrder(s, fs) && r.value == FieldTexts(s, fs)
  {
    var idx := Indices(s, fs);
    assert forall j :: 0 <= j < |fs| ==> OccursAt(s, Tag(fs[j]), idx[j]);
    var raws :- SliceFields(s, fs, idx);
    Success(TrimAll(raws))
  }

  /**
   * The steps a full build takes once all its tags are known to occur: the slicing, then the
   * emptiness check of the caption and of each field in order.
   */
  function ReadPresentFields(s: string, fs: seq<Field>): (r: Result<Texts, Error>)
    requires |fs| > 0 && AllTagsPresent(s, fs)
    ensures r == Failure(SliceOutOfBounds) <==> !TagsInOrder(s, fs)
    ensures r.Failure? && r.error.Empty? ==> TagsInOrder(s, fs)
    ensures r.Failure? ==> r.error.Empty? || r.error == SliceOutOfBounds
    ensures r.Success? <==> TextsPresent(s, fs)
    ensures r.Success? ==> r.value == Texts(CaptionText(s, fs), FieldTexts(s, fs))
  {
    var idx := Indices(s, fs);
    assert OccursAt(s, Tag(fs[0]), idx[0]);
    var caption := Trim(s[..idx[0]]);
    var texts :- SliceAndTrim(s, fs);
    assert caption == CaptionText(s, fs);
    NonEmptyTexts(s, fs, [caption] + texts);
    :- CheckEmptyTexts([CaptionField] + fs, [caption] + texts);
    Success(Texts(caption, texts))
  }

  /** The caption and field texts of a full build are all non-empty exactly when `TextsPresent` holds. */
  lemma NonEmptyTexts(s: string, fs: seq<Field>, all: seq<string>)
    requires |fs| > 0 && TagsInOrder(s, fs)
    requires all == [CaptionText(s, fs)] + FieldTexts(s, fs)
    ensures (forall i :: 0 <= i < |all| ==> all[i] != []) <==> TextsPresent(s, fs)
  {
    assert forall i :: 0 <= i < |fs| ==> all[i + 1] == FieldText(s, fs, i);
    if forall i :: 0 <= i < |all| ==> all[i] != [] {
      assert all[0] != [];
    }
  }

  /**
   * Once the tags are in order, the caption is checked for emptiness first and then each
   * field in order; the first empty text names the error, and an empty error always names
   * the first empty text.
   */
  lemma FirstEmptyReported(s: string, fs: seq<Field>)
    requires |fs| > 0 && TagsInOrder(s, fs)
    ensures forall i :: IsFirstEmpty([CaptionText(s, fs)] + FieldTexts(s, fs), i) ==>
              ReadPresentFields(s, fs) == Failure(Empty(([CaptionField] + fs)[i]))
    ensures ReadPresentFields(s, fs).Failure? ==>
              exists i :: IsFirstEmpty([CaptionText(s, fs)] + FieldTexts(s, fs), i)
                          && ReadPresentFields(s, fs).error == Empty(([CaptionField] + fs)[i])
  {
    var texts := [CaptionText(s, fs)] + FieldTexts(s, fs);
    assert CheckEmptyTexts([CaptionField] + fs, texts).Fail? ==> ReadPresentFields(s, fs).Failure?;
  }

  /**
   * The steps every full build takes before reading any scalar: the presence check in the
   * order of `fs`, then the slicing and emptiness checks.
   */
  function ReadFields(s: string, fs: seq<Field>): (r: Result<Texts, Error>)
    requires |fs| > 0
    ensures forall i :: IsFirstAbsent(Indices(s, fs), i) ==> r == Failure(Missing(fs[i]))
    ensures r.Failure? && r.error.Missing? ==>
              exists i :: IsFirstAbsent(Indices(s, fs), i) && r.error == Missing(fs[i])
    ensures r == Failure(SliceOutOfBounds) <==> AllTagsPresent(s, fs) && !TagsInOrder(s, fs)
    ensures r.Failure? && r.error.Empty? ==> TagsInOrder(s, fs)
    ensures r.Failure? ==> r.error.Missing? || r.error.Empty? || r.error == SliceOutOfBounds
    ensures r.Success? <==> TextsPresent(s, fs)
    ensures r.Success? ==> r.value == Texts(CaptionText(s, fs), FieldTexts(s, fs))
  {
    var idx := Indices(s, fs);
    :- CheckMissingTags(fs, idx);
    ReadPresentFields(s, fs)
  }

  /** `parseActivity`. */
  function ParseActivity(s: string): (r: Result<Activity, Error>)
    ensures forall i :: IsFirstAbsent(Indices(s, ACTIVITY_TAGS), i) ==>
              r == Failure(Missing(ACTIVITY_TAGS[i]))
    ensures r.Failure? && (r.error.Invalid? || r.error.Negative?) ==> TextsPresent(s, ACTIVITY_TAGS)
    ensures !TextsPresent(s, ACTIVITY_TAGS) ==> r == Failure(ReadFields(s, ACTIVITY_TAGS).error)
    ensures && TextsPresent(s, ACTIVITY_TAGS)
              && ParseDuration(FieldText(s, ACTIVITY_TAGS, 0)).Failure? ==>
              r == Failure(ParseDuration(FieldText(s, ACTIVITY_TAGS, 0)).error)
    ensures && TextsPresent(s, ACTIVITY_TAGS)
              && ParseDuration(FieldText(s, ACTIVITY_TAGS, 0)).Success?
              && ParseDistance(FieldText(s, ACTIVITY_TAGS, 1)).Failure? ==>
              r == Failure(ParseDistance(FieldText(s, ACTIVITY_TAGS, 1)).error)
    ensures && TextsPresent(s, ACTIVITY_TAGS)
              && ParseDuration(FieldText(s, ACTIVITY_TAGS, 0)).Success?
              && ParseDistance(FieldText(s, ACTIVITY_TAGS, 1)).Success?
              && ParseDateTime(FieldText(s, ACTIVITY_TAGS, 2)).Failure? ==>
              r == Failure(ParseDateTime(FieldText(s, ACTIVITY_TAGS, 2)).error)
    ensures r.Success? <==>
              && TextsPresent(s, ACTIVITY_TAGS)
              && ParseDuration(FieldText(s, ACTIVITY_TAGS, 0)).Success?
              && ParseDistance(FieldText(s, ACTIVITY_TAGS, 1)).Success?
              && ParseDateTime(FieldText(s, ACTIVITY_TAGS, 2)).Success?
    ensures r.Success? ==>
              && r.value.Activity?
              && r.value.caption == CaptionText(s, ACTIVITY_TAGS)
              && r.value.distance >= 0
              && ParseDuration(FieldText(s, ACTIVITY_TAGS, 0)) == Success(r.value.duration)
              && ParseDistance(FieldText(s, ACTIVITY_TAGS, 1)) == Success(r.value.distance)
              && ParseDateTime(FieldText(s, ACTIVITY_TAGS, 2)) == Success(r.value.startDateTime)
  {
    var texts :- ReadFields(s, ACTIVITY_TAGS);
    var durationParsed :- ParseDuration(texts.fields[0]);
    var distanceParsed :- ParseDistance(texts.fields[1]);
    var datetimeParsed :- ParseDateTime(texts.fields[2]);
    Success(Activity(texts.caption, durationParsed, distanceParsed, datetimeParsed))
  }

  /** `parseRunCycle`: a run when `isRun`, else a cycle. */
  function ParseRunCycle(s: string, isRun: bool): (r: Result<Activity, Error>)
    ensures forall i :: IsFirstAbsent(Indices(s, RUN_CYCLE_TAGS), i) ==>
              r == Failure(Missing(RUN_CYCLE_TAGS[i]))
    ensures r.Failure? && (r.error.Invalid? || r.error.Negative?) ==> TextsPresent(s, RUN_CYCLE_TAGS)
    ensures !TextsPresent(s, RUN_CYCLE_TAGS) ==> r == Failure(ReadFields(s, RUN_CYCLE_TAGS).error)
    ensures && TextsPresent(s, RUN_CYCLE_TAGS)
              && ParseDuration(FieldText(s, RUN_CYCLE_TAGS, 0)).Failure? ==>
              r == Failure(ParseDuration(FieldText(s, RUN_CYCLE_TAGS, 0)).error)
    ensures && TextsPresent(s, RUN_CYCLE_TAGS)
              && ParseDuration(FieldText(s, RUN_CYCLE_TAGS, 0)).Success?
              && ParseDistance(FieldText(s, RUN_CYCLE_TAGS, 1)).Failure? ==>
              r == Failure(ParseDistance(FieldText(s, RUN_CYCLE_TAGS, 1)).error)
    ensures && TextsPresent(s, RUN_CYCLE_TAGS)
              && ParseDuration(FieldText(s, RUN_CYCLE_TAGS, 0)).Success?
              && ParseDistance(FieldText(s, RUN_CYCLE_TAGS, 1)).Success?
              && ParseDateTime(FieldText(s, RUN_CYCLE_TAGS, 2)).Failure? ==>
              r == Failure(ParseDateTime(FieldText(s, RUN_CYCLE_TAGS, 2)).error)
    ensures && TextsPresent(s, RUN_CYCLE_TAGS)
              && ParseDuration(FieldText(s, RUN_CYCLE_TAGS, 0)).Success?
              && ParseDistance(FieldText(s, RUN_CYCLE_TAGS, 1)).Success?
              && ParseDateTime(FieldText(s, RUN_CYCLE_TAGS, 2)).Success?
              && ParseElevation(FieldText(s, RUN_CYCLE_TAGS, 3)).Failure? ==>
              r == Failure(ParseElevation(FieldText(s, RUN_CYCLE_TAGS, 3)).error)
    ensures r.Success? <==>
              && TextsPresent(s, RUN_CYCLE_TAGS)
              && ParseDuration(FieldText(s, RUN_CYCLE_TAGS, 0)).Success?
              && ParseDistance(FieldText(s, RUN_CYCLE_TAGS, 1)).Success?
              && ParseDateTime(FieldText(s, RUN_CYCLE_TAGS, 2)).Success?
              && ParseElevation(FieldText(s, RUN_CYCLE_TAGS, 3)).Success?
    ensures r.Success? ==>
              && (if isRun then r.value.Run? else r.value.Cycle?)
              && r.value.caption == CaptionText(s, RUN_CYCLE_TAGS)
              && r.value.distance >= 0
              && ParseDuration(FieldText(s, RUN_CYCLE_TAGS, 0)) == Success(r.value.duration)
              && ParseDistance(FieldText(s, RUN_CYCLE_TAGS, 1)) == Success(r.value.distance)
              && ParseDateTime(FieldText(s, RUN_CYCLE_TAGS, 2)) == Success(r.value.startDateTime)
              && ParseElevation(FieldText(s, RUN_CYCLE_TAGS, 3)) == Success(r.value.elevation)
  {
    var texts :- ReadFields(s, RUN_CYCLE_TAGS);
    var durationParsed :- ParseDuration(texts.fields[0]);
    var distanceParsed :- ParseDistance(texts.fields[1]);
    var datetimeParsed :- ParseDateTime(texts.fields[2]);
    var elevationParsed :- ParseElevation(texts.fields[3]);
    if isRun then Success(Run(texts.caption, durationParsed, distanceParsed, datetimeParsed, elevationParsed))
    else Success(Cycle(texts.caption, durationParsed, distanceParsed, datetimeParsed, elevationParsed))
  }

  /** `parseSwim`. */
  function ParseSwim(s: string): (r: Result<Activity, Error>)
    ensures forall i :: IsFirstAbsent(Indices(s, SWIM_TAGS), i) ==>
              r == Failure(Missing(SWIM_TAGS[i]))
    ensures r.Failure? && (r.error.Invalid? || r.error.Negative?) ==> TextsPresent(s, SWIM_TAGS)
    ensures !TextsPresent(s, SWIM_TAGS) ==> r == Failure(ReadFields(s, SWIM_TAGS).error)
    ensures && TextsPresent(s, SWIM_TAGS)
              && ParseDuration(FieldText(s, SWIM_TAGS, 0)).Failure? ==>
              r == Failure(ParseDuration(FieldText(s, SWIM_TAGS, 0)).error)
    ensures && TextsPresent(s, SWIM_TAGS)
              && ParseDuration(FieldText(s, SWIM_TAGS, 0)).Success?
              && ParseDistance(FieldText(s, SWIM_TAGS, 1)).Failure? ==>
              r == Failure(ParseDistance(FieldText(s, SWIM_TAGS, 1)).error)
    ensures && TextsPresent(s, SWIM_TAGS)
              && ParseDuration(FieldText(s, SWIM_TAGS, 0)).Success?
              && ParseDistance(FieldText(s, SWIM_TAGS, 1)).Success?
              && ParseDateTime(FieldText(s, SWIM_TAGS, 2)).Failure? ==>
              r == Failure(ParseDateTime(FieldText(s, SWIM_TAGS, 2)).error)
    ensures && TextsPresent(s, SWIM_TAGS)
              && ParseDuration(FieldText(s, SWIM_TAGS, 0)).Success?
              && ParseDistance(FieldText(s, SWIM_TAGS, 1)).Success?
              && ParseDateTime(FieldText(s, SWIM_TAGS, 2)).Success?
              && ParseSwimmingStyle(FieldText(s, SWIM_TAGS, 3)).Failure? ==>
              r == Failure(ParseSwimmingStyle(FieldText(s, SWIM_TAGS, 3)).error)
    ensures r.Success? <==>
              && TextsPresent(s, SWIM_TAGS)
              && ParseDuration(FieldText(s, SWIM_TAGS, 0)).Success?
              && ParseDistance(FieldText(s, SWIM_TAGS, 1)).Success?
              && ParseDateTime(FieldText(s, SWIM_TAGS, 2)).Success?
              && ParseSwimmingStyle(FieldText(s, SWIM_TAGS, 3)).Success?
    ensures r.Success? ==>
              && r.value.Swim?
              && r.value.caption == CaptionText(s, SWIM_TAGS)
              && r.value.distance >= 0
              && ParseDuration(FieldText(s, SWIM_TAGS, 0)) == Success(r.value.duration)
              && ParseDistance(FieldText(s, SWIM_TAGS, 1)) == Success(r.value.distance)
              && ParseDateTime(FieldText(s, SWIM_TAGS, 2)) == Success(r.value.startDateTime)
              && ParseSwimmingStyle(FieldText(s, SWIM_TAGS, 3)) == Success(r.value.swimmingStyle)
  {
    var texts :- ReadFields(s, SWIM_TAGS);
    var durationParsed :- ParseDuration(texts.fields[0]);
    var distanceParsed :- ParseDistance(texts.fields[1]);
    var datetimeParsed :- ParseDateTime(texts.fields[2]);
    var styleParsed :- ParseSwimmingStyle(texts.fields[3]);
    Success(Swim(texts.caption, durationParsed, distanceParsed, datetimeParsed, styleParsed))
  }

  /** The presence check and slicing of a goal's four texts. */
  function ReadGoalFields(rev: Revision, s: string): (r: Result<seq<string>, Error>)
    ensures r.Failure? && r.error.Missing? <==> !AllTagsPresent(s, GOAL_TAGS)
    ensures forall i :: IsFirstAbsent(Indices(s, GOAL_TAGS), i) ==>
              r == Failure(Missing(if rev == AsWritten && i == 1 then TargetField else GOAL_TAGS[i]))
    ensures r == Failure(SliceOutOfBounds) <==> AllTagsPresent(s, GOAL_TAGS) && !TagsInOrder(s, GOAL_TAGS)
    ensures r.Failure? ==> r.error.Missing? || r.error == SliceOutOfBounds
    ensures r.Success? <==> TagsInOrder(s, GOAL_TAGS)
    ensures r.Success? ==> r.value == FieldTexts(s, GOAL_TAGS)
  {
    var idx := Indices(s, GOAL_TAGS);
    assert idx == [idx[0], idx[1], idx[2], idx[3]];
    :- CheckMissingActivityGoalArguments(rev, idx[0], idx[1], idx[2], idx[3]);
    assert AllTagsPresent(s, GOAL_TAGS);
    SliceAndTrim(s, GOAL_TAGS)
  }

  /**
   * The four readers of a goal, applied to its sport, type, period and target texts in that
   * order: the first that fails decides the error.
   */
  function ReadGoal(texts: seq<string>): (r: Result<ActivityGoal, Error>)
    requires |texts| == 4
    ensures r.Failure? ==> r.error.Invalid? || r.error == Negative(TargetField)
    ensures ParseSport(texts[0]).Failure? ==> r == Failure(ParseSport(texts[0]).error)
    ensures ParseSport(texts[0]).Success? && ParseGoalType(texts[1]).Failure? ==>
              r == Failure(ParseGoalType(texts[1]).error)
    ensures && ParseSport(texts[0]).Success? && ParseGoalType(texts[1]).Success?
            && ParsePeriod(texts[2]).Failure? ==>
              r == Failure(ParsePeriod(texts[2]).error)
    ensures && ParseSport(texts[0]).Success? && ParseGoalType(texts[1]).Success?
            && ParsePeriod(texts[2]).Success? && ParseTarget(texts[3]).Failure? ==>
              r == Failure(ParseTarget(texts[3]).error)
    ensures r.Success? <==>
              && ParseSport(texts[0]).Success? && ParseGoalType(texts[1]).Success?
              && ParsePeriod(texts[2]).Success? && ParseTarget(texts[3]).Success?
    ensures r.Success? ==>
              && r.value.target >= 0
              && ParseSport(texts[0]) == Success(r.value.sport)
              && ParseGoalType(texts[1]) == Success(r.value.goalType)
              && ParsePeriod(texts[2]) == Success(r.value.period)
              && ParseTarget(texts[3]) == Success(r.value.target)
  {
    var sportParsed :- ParseSport(texts[0]);
    var typeParsed :- ParseGoalType(texts[1]);
    var periodParsed :- ParsePeriod(texts[2]);
    var targetParsed :- ParseTarget(texts[3]);
    Success(ActivityGoal(periodParsed, typeParsed, sportParsed, targetParsed))
  }

  /**
   * `parseActivityGoal` in either revision of its presence check. There is no caption and no
   * emptiness check: an empty text fails in the reader of its field.
   */
  function ParseActivityGoalAs(rev: Revision, s: string): (r: Result<ActivityGoal, Error>)
    ensures r.Failure? && r.error.Missing? <==> !AllTagsPresent(s, GOAL_TAGS)
    ensures forall i :: IsFirstAbsent(Indices(s, GOAL_TAGS), i) ==>
              r == Failure(Missing(if rev == AsWritten && i == 1 then TargetField else GOAL_TAGS[i]))
    ensures r == Failure(SliceOutOfBounds) <==> AllTagsPresent(s, GOAL_TAGS) && !TagsInOrder(s, GOAL_TAGS)
    ensures !TagsInOrder(s, GOAL_TAGS) ==> r == Failure(ReadGoalFields(rev, s).error)
    ensures TagsInOrder(s, GOAL_TAGS) ==> r == ReadGoal(FieldTexts(s, GOAL_TAGS))
    ensures r.Success? <==>
              && TagsInOrder(s, GOAL_TAGS)
              && ParseSport(FieldText(s, GOAL_TAGS, 0)).Success?
              && ParseGoalType(FieldText(s, GOAL_TAGS, 1)).Success?
              && ParsePeriod(FieldText(s, GOAL_TAGS, 2)).Success?
              && ParseTarget(FieldText(s, GOAL_TAGS, 3)).Success?
    ensures r.Success? ==>
              && r.value.target >= 0
              && ParseSport(FieldText(s, GOAL_TAGS, 0)) == Success(r.value.sport)
              && ParseGoalType(FieldText(s, GOAL_TAGS, 1)) == Success(r.value.goalType)
              && ParsePeriod(FieldText(s, GOAL_TAGS, 2)) == Success(r.value.period)
              && ParseTarget(FieldText(s, GOAL_TAGS, 3)) == Success(r.value.target)
  {
    match ReadGoalFields(rev, s)
    case Failure(e) => Failure(e)
    case Success(texts) =>
      ReadGoal(texts)
  }

  /**
   * Once a goal's tags are in order, its four readers run in declared order (sport, type,
   * period, target) and the first that fails decides the error.
   */
  lemma GoalReadersInOrder(rev: Revision, s: string)
    ensures && TagsInOrder(s, GOAL_TAGS)
              && ParseSport(FieldText(s, GOAL_TAGS, 0)).Failure? ==>
              ParseActivityGoalAs(rev, s) == Failure(ParseSport(FieldText(s, GOAL_TAGS, 0)).error)
    ensures && TagsInOrder(s, GOAL_TAGS)
              && ParseSport(FieldText(s, GOAL_TAGS, 0)).Success?
              && ParseGoalType(FieldText(s, GOAL_TAGS, 1)).Failure? ==>
              ParseActivityGoalAs(rev, s) == Failure(ParseGoalType(FieldText(s, GOAL_TAGS, 1)).error)
    ensures && TagsInOrder(s, GOAL_TAGS)
              && ParseSport(FieldText(s, GOAL_TAGS, 0)).Success?
              && ParseGoalType(FieldText(s, GOAL_TAGS, 1)).Success?
              && ParsePeriod(FieldText(s, GOAL_TAGS, 2)).Failure? ==>
              ParseActivityGoalAs(rev, s) == Failure(ParsePeriod(FieldText(s, GOAL_TAGS, 2)).error)
    ensures && TagsInOrder(s, GOAL_TAGS)
              && ParseSport(FieldText(s, GOAL_TAGS, 0)).Success?
              && ParseGoalType(FieldText(s, GOAL_TAGS, 1)).Success?
              && ParsePeriod(FieldText(s, GOAL_TAGS, 2)).Success?
              && ParseTarget(FieldText(s, GOAL_TAGS, 3)).Failure? ==>
              ParseActivityGoalAs(rev, s) == Failure(ParseTarget(FieldText(s, GOAL_TAGS, 3)).error)
  {
    if TagsInOrder(s, GOAL_TAGS) {
      var texts := FieldTexts(s, GOAL_TAGS);
      assert ParseActivityGoalAs(rev, s) == ReadGoal(texts);
    }
  }

  /** `parseActivityGoal` with the presence check naming the field that is actually absent. */
  function ParseActivityGoal(s: string): (r: Result<ActivityGoal, Error>)
    ensures forall i :: IsFirstAbsent(Indices(s, GOAL_TAGS), i) ==> r == Failure(Missing(GOAL_TAGS[i]))
    ensures r.Success? ==> r.value.target >= 0
  {
    ParseActivityGoalAs(Intended, s)
  }

  /**
   * As written, a goal whose sport tag occurs but whose type tag does not is refused as
   * missing its target, whether or not the target tag occurs.
   */
  lemma MissingTypeAsWritten(s: string)
    requires TagIndex(s, SportField) != -1 && TagIndex(s, TypeField) == -1
    ensures ParseActivityGoalAs(AsWritten, s) == Failure(Missing(TargetField))
  {
    assert IsFirstAbsent(Indices(s, GOAL_TAGS), 1);
  }

  /** With the intended presence check, the same goal is refused as missing its type. */
  lemma MissingTypeIntended(s: string)
    requires TagIndex(s, SportField) != -1 && TagIndex(s, TypeField) == -1
    ensures ParseActivityGoal(s) == Failure(Missing(TypeField))
  {
    assert IsFirstAbsent(Indices(s, GOAL_TAGS), 1);
  }
}
