/**
 * The vocabulary of the activity parser: the fields a command can carry, the
 * separator tag that introduces each one, the closed error taxonomy, and the
 * enumerations whose names users type.
 */
module Fields {
  import opened Wrappers
  import opened Text

  /** Every field the activity and activity-goal commands carry. */
  datatype Field =
    | CaptionField
    | DurationField
    | DistanceField
    | DateTimeField
    | ElevationField
    | SwimmingStyleField
    | SportField
    | TypeField
    | PeriodField
    | TargetField

  /*
   * Separator tags. They are case-sensitive literals searched verbatim in the input; no
   * tag is a substring of another.
   */
  const CAPTION_SEPARATOR: string := "caption/"
  const DURATION_SEPARATOR: string := "duration/"
  const DISTANCE_SEPARATOR: string := "distance/"
  const DATETIME_SEPARATOR: string := "datetime/"
  const ELEVATION_SEPARATOR: string := "elevation/"
  const SWIMMING_STYLE_SEPARATOR: string := "style/"
  const SPORT_SEPARATOR: string := "sport/"
  const TYPE_SEPARATOR: string := "type/"
  const PERIOD_SEPARATOR: string := "period/"
  const TARGET_SEPARATOR: string := "target/"

  /** The flag that asks the activity list for its detailed view. */
  const DETAIL_FLAG: string := "-detail"

  /** The tag that introduces a field. */
  function Tag(f: Field): (t: string)
    ensures |t| > 0
  {
    match f
    case CaptionField => CAPTION_SEPARATOR
    case DurationField => DURATION_SEPARATOR
    case DistanceField => DISTANCE_SEPARATOR
    case DateTimeField => DATETIME_SEPARATOR
    case ElevationField => ELEVATION_SEPARATOR
    case SwimmingStyleField => SWIMMING_STYLE_SEPARATOR
    case SportField => SPORT_SEPARATOR
    case TypeField => TYPE_SEPARATOR
    case PeriodField => PERIOD_SEPARATOR
    case TargetField => TARGET_SEPARATOR
  }

  /** Where the tag of `f` first occurs in `s`, or -1. */
  function TagIndex(s: string, f: Field): (r: int)
    ensures r == -1 <==> !Occurs(s, Tag(f))
    ensures r != -1 ==> OccursAt(s, Tag(f), r)
  {
    IndexOf(s, Tag(f))
  }

  /**
   * The field sets of the three activity shapes, in declared order: every activity has a
   * caption, duration, distance and start; runs and cycles add an elevation, swims a style.
   */
  datatype Layout = ActivityLayout | RunCycleLayout | SwimLayout

  function LayoutFields(k: Layout): (fs: seq<Field>)
    ensures 4 <= |fs| <= 5
    ensures fs[0] == CaptionField && fs[1] == DurationField
    ensures fs[2] == DistanceField && fs[3] == DateTimeField
    ensures k == ActivityLayout <==> |fs| == 4
    ensures k == RunCycleLayout <==> |fs| == 5 && fs[4] == ElevationField
    ensures k == SwimLayout <==> |fs| == 5 && fs[4] == SwimmingStyleField
  {
    [CaptionField, DurationField, DistanceField, DateTimeField]
      + match k
        case ActivityLayout => []
        case RunCycleLayout => [ElevationField]
        case SwimLayout => [SwimmingStyleField]
  }

  /** The fields of a layout, as a membership test. */
  lemma LayoutMember(k: Layout, f: Field)
    ensures f in LayoutFields(k) <==>
              || f == CaptionField || f == DurationField || f == DistanceField || f == DateTimeField
              || (k == RunCycleLayout && f == ElevationField)
              || (k == SwimLayout && f == SwimmingStyleField)
  {
    var fs := LayoutFields(k);
    if f in fs {
      var j :| 0 <= j < |fs| && fs[j] == f;
      if j == 0 {} else if j == 1 {} else if j == 2 {} else if j == 3 {} else {}
    } else {
      assert fs[0] in fs && fs[1] in fs && fs[2] in fs && fs[3] in fs;
      assert k != ActivityLayout ==> fs[4] in fs;
    }
  }

  /** The first-occurrence offset of each field's tag. */
  function Indices(s: string, fs: seq<Field>): (r: seq<int>)
    ensures |r| == |fs|
    ensures forall i :: 0 <= i < |fs| ==> r[i] == TagIndex(s, fs[i])
  {
    seq(|fs|, i requires 0 <= i < |fs| => TagIndex(s, fs[i]))
  }

  /**
   * The parser's failures, one per message it can report. `SliceOutOfBounds` stands for the
   * unchecked `StringIndexOutOfBoundsException` that `substring` throws on misordered tags.
   */
  datatype Error =
    | Missing(field: Field)
    | Empty(field: Field)
    | Invalid(field: Field)
    | Negative(field: Field)
    | IndexInvalid
    | EditInvalid
    | EditEmpty
    | SliceOutOfBounds


  /** `substring(begin, end).trim()`: misordered bounds abort the parse. */
  function TrimmedSlice(s: string, begin: int, end: int): (r: Result<string, Error>)
    ensures r.Success? <==> 0 <= begin <= end <= |s|
    ensures r.Success? ==> r.value == Trim(s[begin..end])
    ensures r.Failure? ==> r.error == SliceOutOfBounds
  {
    match Slice(s, begin, end)
    case Some(text) => Success(Trim(text))
    case None => Failure(SliceOutOfBounds)
  }

  /**
   * Where the parser's code and its evident intent part ways, definitions take a
   * `Revision`: `AsWritten` follows the code line by line, `Intended` the corrected rule.
   */
  datatype Revision = AsWritten | Intended

  /** `Swim.SwimmingStyle`. */
  datatype SwimmingStyle = Butterfly | Backstroke | Breaststroke | Freestyle

  /** `ActivityGoal.Sport`. */
  datatype Sport = Running | Cycling | Swimming | General

  /** `ActivityGoal.GoalType`. */
  datatype GoalType = Distance | Duration

  /** `Goal.TimeSpan`. */
  datatype TimeSpan = Daily | Weekly | Monthly | Yearly

  /** The constant names `valueOf` matches, as declared. */
  function SwimmingStyleName(x: SwimmingStyle): string {
    match x
    case Butterfly => "BUTTERFLY"
    case Backstroke => "BACKSTROKE"
    case Breaststroke => "BREASTSTROKE"
    case Freestyle => "FREESTYLE"
  }

  function SportName(x: Sport): string {
    match x
    case Running => "RUNNING"
    case Cycling => "CYCLING"
    case Swimming => "SWIMMING"
    case General => "GENERAL"
  }

  function GoalTypeName(x: GoalType): string {
    match x
    case Distance => "DISTANCE"
    case Duration => "DURATION"
  }

  function TimeSpanName(x: TimeSpan): string {
    match x
    case Daily => "DAILY"
    case Weekly => "WEEKLY"
    case Monthly => "MONTHLY"
    case Yearly => "YEARLY"
  }
}
