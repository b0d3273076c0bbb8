/**
 * The change builders of `ActivityParser`: `parseActivityChanges`, `parseRunCycleChanges`
 * and `parseSwimChanges`. Every tag is optional; each present tag contributes one slot of
 * the change set, handled in the declared field order, and the first failing field aborts
 * the whole edit.
 */
module Changes {
  import opened Wrappers
  import opened Text
  import opened Fields
  import opened Scalars
  import opened Checks
  import Clock

  /** `ActivityChanges`: the slots an edit may set; an absent slot is left unchanged. */
  datatype ActivityChanges = ActivityChanges(
    caption: Option<string>,
    duration: Option<Clock.Time>,
    distance: Option<int>,
    startDateTime: Option<Clock.DateTime>,
    elevation: Option<int>,
    swimmingStyle: Option<SwimmingStyle>)

  /** A freshly constructed change set: nothing is set. */
  const NO_CHANGES: ActivityChanges := ActivityChanges(None, None, None, None, None, None)

  /** A field an activity edit can carry. */
  predicate IsEditField(f: Field) {
    !(f.SportField? || f.TypeField? || f.PeriodField? || f.TargetField?)
  }

  /** One parsed slot value. */
  datatype Value =
    | CaptionValue(text: string)
    | DurationValue(time: Clock.Time)
    | DistanceValue(distance: int)
    | DateTimeValue(moment: Clock.DateTime)
    | ElevationValue(elevation: int)
    | StyleValue(style: SwimmingStyle)

  /** The field a value belongs to. */
  function ValueField(v: Value): (f: Field)
    ensures IsEditField(f)
  {
    match v
    case CaptionValue(_) => CaptionField
    case DurationValue(_) => DurationField
    case DistanceValue(_) => DistanceField
    case DateTimeValue(_) => DateTimeField
    case ElevationValue(_) => ElevationField
    case StyleValue(_) => SwimmingStyleField
  }

  /** The slot of `c` that holds field `f`. */
  function Slot(c: ActivityChanges, f: Field): Option<Value>
    requires IsEditField(f)
  {
    match f
    case CaptionField => if c.caption.Some? then Some(CaptionValue(c.caption.value)) else None
    case DurationField => if c.duration.Some? then Some(DurationValue(c.duration.value)) else None
    case DistanceField => if c.distance.Some? then Some(DistanceValue(c.distance.value)) else None
    case DateTimeField =>
      if c.startDateTime.Some? then Some(DateTimeValue(c.startDateTime.value)) else None
    case ElevationField => if c.elevation.Some? then Some(ElevationValue(c.elevation.value)) else None
    case SwimmingStyleField =>
      if c.swimmingStyle.Some? then Some(StyleValue(c.swimmingStyle.value)) else None
  }

  /** The `set...` call for a value: its own slot changes and no other. */
  function Set(c: ActivityChanges, v: Value): (r: ActivityChanges)
    ensures Slot(r, ValueField(v)) == Some(v)
    ensures forall f :: IsEditField(f) && f != ValueField(v) ==> Slot(r, f) == Slot(c, f)
  {
    match v
    case CaptionValue(x) => c.(caption := Some(x))
    case DurationValue(x) => c.(duration := Some(x))
    case DistanceValue(x) => c.(distance := Some(x))
    case DateTimeValue(x) => c.(startDateTime := Some(x))
    case ElevationValue(x) => c.(elevation := Some(x))
    case StyleValue(x) => c.(swimmingStyle := Some(x))
  }

  /**
   * The `checkEmpty...Argument` call and the field's reader for one present field: an empty
   * text reports the field's empty error, otherwise the reader decides.
   */
  function ReadValue(f: Field, text: string): (r: Result<Value, Error>)
    requires IsEditField(f)
    ensures r == Failure(Empty(f)) <==> text == []
    ensures r.Success? ==> ValueField(r.value) == f
    ensures r.Failure? ==> (r.error.Empty? || r.error.Invalid? || r.error.Negative?) && r.error.field == f
    ensures f == CaptionField && text != [] ==> r == Success(CaptionValue(text))
    ensures r.Success? && f == DistanceField ==> r.value.distance >= 0
  {
    match CheckEmpty(f, text)
    case Fail(e) => Failure(e)
    case Pass =>
      match f
      case CaptionField => Success(CaptionValue(text))
      case DurationField => var x :- ParseDuration(text); Success(DurationValue(x))
      case DistanceField => var x :- ParseDistance(text); Success(DistanceValue(x))
      case DateTimeField => var x :- ParseDateTime(text); Success(DateTimeValue(x))
      case ElevationField => var x :- ParseElevation(text); Success(ElevationValue(x))
      case SwimmingStyleField => var x :- ParseSwimmingStyle(text); Success(StyleValue(x))
  }

  /** `m` is the first field at or after `j` whose tag occurs. */
  ghost predicate IsFirstPresentFrom(idx: seq<int>, j: nat, m: int) {
    j <= m < |idx| && idx[m] != -1 && forall n :: j <= n < m ==> idx[n] == -1
  }

  /**
   * The chained `?:` that picks a field's `endIndex`: the offset of the first later field,
   * in declared order, whose tag occurs, or the length of the text when none does.
   */
  function EndIndex(idx: seq<int>, j: nat, len: int): (r: int)
    ensures (forall m :: j <= m < |idx| ==> idx[m] == -1) ==> r == len
    ensures forall m :: IsFirstPresentFrom(idx, j, m) ==> r == idx[m]
    decreases |idx| - j
  {
    if j >= |idx| then len
    else if idx[j] != -1 then
      assert IsFirstPresentFrom(idx, j, j);
      idx[j]
    else
      var r := EndIndex(idx, j + 1, len);
      assert forall m :: IsFirstPresentFrom(idx, j, m) <==> IsFirstPresentFrom(idx, j + 1, m);
      r
  }

  /** With every present tag after its predecessors, a text ends where the next present tag begins. */
  lemma EndIndexIsNearest(idx: seq<int>, j: nat, len: int, m: int)
    requires forall a, b :: j <= a < b < |idx| && idx[a] != -1 && idx[b] != -1 ==> idx[a] < idx[b]
    requires IsFirstPresentFrom(idx, j, m)
    ensures forall n :: j <= n < |idx| && idx[n] != -1 ==> EndIndex(idx, j, len) <= idx[n]
  {
    forall n | j <= n < |idx| && idx[n] != -1
      ensures EndIndex(idx, j, len) <= idx[n]
    {
      if n != m {
        assert m < n;
      }
    }
  }

  /**
   * A field list a change build can run over: edit fields only, each at most once, and the
   * duration and distance never last (their as-written spans end at the next field's tag).
   */
  predicate IsChangeLayout(fs: seq<Field>) {
    && (forall j :: 0 <= j < |fs| ==> IsEditField(fs[j]))
    && (forall j :: 0 <= j < |fs| && (fs[j] == DurationField || fs[j] == DistanceField) ==> j + 1 < |fs|)
    && (forall a, b :: 0 <= a < b < |fs| ==> fs[a] != fs[b])
  }

  lemma LayoutsAreChangeLayouts(k: Layout)
    ensures IsChangeLayout(LayoutFields(k))
  {
  }

  /**
   * Where the text of field `i` begins and ends. The intended rule starts just after the
   * field's own tag and ends at `EndIndex`. As written, the duration and distance texts end
   * at the raw offset of the very next tag, even when that tag is absent (-1), and the
   * swimming style starts after as many characters as the elevation tag has.
   */
  function SpanBegin(rev: Revision, fs: seq<Field>, idx: seq<int>, i: nat): int
    requires |idx| == |fs| && i < |fs|
  {
    if rev == AsWritten && fs[i] == SwimmingStyleField then idx[i] + |ELEVATION_SEPARATOR|
    else idx[i] + |Tag(fs[i])|
  }

  function SpanEnd(rev: Revision, fs: seq<Field>, idx: seq<int>, i: nat, len: int): int
    requires |idx| == |fs| && i < |fs| && IsChangeLayout(fs)
  {
    if rev == AsWritten && (fs[i] == DurationField || fs[i] == DistanceField) then idx[i + 1]
    else EndIndex(idx, i + 1, len)
  }

  /** The span of field `i` lies inside `s` and does not end before it begins. */
  predicate SpanFits(rev: Revision, fs: seq<Field>, s: string, idx: seq<int>, i: nat)
    requires |idx| == |fs| && i < |fs| && IsChangeLayout(fs)
  {
    0 <= SpanBegin(rev, fs, idx, i) <= SpanEnd(rev, fs, idx, i, |s|) <= |s|
  }

  /** The trimmed text of field `i`'s span. */
  function SpanText(rev: Revision, fs: seq<Field>, s: string, idx: seq<int>, i: nat): string
    requires |idx| == |fs| && i < |fs| && IsChangeLayout(fs) && SpanFits(rev, fs, s, idx, i)
  {
    Trim(s[SpanBegin(rev, fs, idx, i)..SpanEnd(rev, fs, idx, i, |s|)])
  }

  /**
   * The `if (xIndex != -1) { ... }` block of field `i`, given the offsets `idx` of the
   * fields' tags: an absent tag leaves the change set alone, a span outside the text aborts
   * the edit, an empty text reports the field's empty error, and otherwise the value is the
   * reading of the span's trimmed text.
   */
  function FieldStep(rev: Revision, fs: seq<Field>, s: string, idx: seq<int>, i: nat): (r: Result<Option<Value>, Error>)
    requires |idx| == |fs| && i < |fs| && IsChangeLayout(fs)
    ensures r == Success(None) <==> idx[i] == -1
    ensures r.Success? && r.value.Some? ==> ValueField(r.value.value) == fs[i]
    ensures r.Failure? ==> r.error == SliceOutOfBounds || r.error.Empty? || r.error.Invalid? || r.error.Negative?
    ensures r.Success? && r.value.Some? && fs[i] == CaptionField ==> r.value.value.text != []
    ensures r.Success? && r.value.Some? && fs[i] == DistanceField ==> r.value.value.distance >= 0
  {
    if idx[i] == -1 then Success(None)
    else
      var text :- TrimmedSlice(s, SpanBegin(rev, fs, idx, i), SpanEnd(rev, fs, idx, i, |s|));
      var v :- ReadValue(fs[i], text);
      Success(Some(v))
  }

  /**
   * What one field block does with a present tag: a span outside the text aborts the edit,
   * an empty text reports the field's empty error, and a value set is the reading of the
   * span's trimmed text.
   */
  lemma FieldStepReadsSpan(rev: Revision, fs: seq<Field>, s: string, idx: seq<int>, i: nat)
    requires |idx| == |fs| && i < |fs| && IsChangeLayout(fs) && idx[i] != -1
    ensures FieldStep(rev, fs, s, idx, i) == Failure(SliceOutOfBounds) <==> !SpanFits(rev, fs, s, idx, i)
    ensures SpanFits(rev, fs, s, idx, i) ==>
              (FieldStep(rev, fs, s, idx, i) == Failure(Empty(fs[i])) <==> SpanText(rev, fs, s, idx, i) == [])
    ensures SpanFits(rev, fs, s, idx, i) ==>
              (FieldStep(rev, fs, s, idx, i).Success? <==> ReadValue(fs[i], SpanText(rev, fs, s, idx, i)).Success?)
    ensures FieldStep(rev, fs, s, idx, i).Success? ==>
              && SpanFits(rev, fs, s, idx, i)
              && ReadValue(fs[i], SpanText(rev, fs, s, idx, i)) == Success(FieldStep(rev, fs, s, idx, i).value.value)
  {
  }

  /** The outcome of each field block, in declared order. */
  type Steps = seq<Result<Option<Value>, Error>>

  /** Step `j` sets the slot of field `f`. */
  predicate Sets(steps: Steps, j: nat, f: Field)
    requires j < |steps|
  {
    steps[j].Success? && steps[j].value.Some? && ValueField(steps[j].value.value) == f
  }

  /** No two steps set the same slot. */
  predicate DistinctSlots(steps: Steps) {
    forall a, b, f :: 0 <= a < b < |steps| && Sets(steps, a, f) ==> !Sets(steps, b, f)
  }

  /** Step `j` is the first failing step at or after `i`. */
  ghost predicate IsFirstFailingStep(steps: Steps, i: nat, j: int) {
    && i <= j < |steps|
    && steps[j].Failure?
    && forall n :: i <= n < j ==> steps[n].Success?
  }

  /**
   * The field blocks from `i` on, run in order over the change set built so far: the first
   * failing block aborts the edit, and otherwise each block fills exactly its own slot.
   */
  function Fill(steps: Steps, i: nat, acc: ActivityChanges): (r: Result<ActivityChanges, Error>)
    requires i <= |steps| && DistinctSlots(steps)
    ensures r.Success? <==> forall j :: i <= j < |steps| ==> steps[j].Success?
    ensures r.Failure? ==> exists j :: i <= j < |steps| && steps[j] == Failure(r.error)
    ensures r.Success? ==> forall j, f :: i <= j < |steps| && Sets(steps, j, f) ==>
              Slot(r.value, f) == steps[j].value
    ensures r.Success? ==> forall f :: IsEditField(f) && (forall j :: i <= j < |steps| ==> !Sets(steps, j, f)) ==>
              Slot(r.value, f) == Slot(acc, f)
    decreases |steps| - i
  {
    if i == |steps| then Success(acc)
    else if steps[i].Failure? then Failure(steps[i].error)
    else
      var next := if steps[i].value.Some? then Set(acc, steps[i].value.value) else acc;
      var r := Fill(steps, i + 1, next);
      assert r.Success? ==> forall f :: IsEditField(f) && !Sets(steps, i, f) ==> Slot(next, f) == Slot(acc, f);
      r
  }

  /** The first failing field block decides the error of the whole run. */
  lemma {:induction false} FirstFailingStepDecides(steps: Steps, i: nat, acc: ActivityChanges, j: int)
    requires i <= |steps| && DistinctSlots(steps)
    requires IsFirstFailingStep(steps, i, j)
    ensures Fill(steps, i, acc) == Failure(steps[j].error)
    decreases |steps| - i
  {
    if i < j {
      var next := if steps[i].value.Some? then Set(acc, steps[i].value.value) else acc;
      assert IsFirstFailingStep(steps, i + 1, j);
      FirstFailingStepDecides(steps, i + 1, next, j);
    }
  }

  /** The outcomes of all field blocks of `fs` over the text `s`. */
  function StepsOf(rev: Revision, fs: seq<Field>, s: string, idx: seq<int>): (r: Steps)
    requires |idx| == |fs| && IsChangeLayout(fs)
    ensures |r| == |fs|
    ensures forall j :: 0 <= j < |fs| ==> r[j] == FieldStep(rev, fs, s, idx, j)
    ensures DistinctSlots(r) && StepsFollow(fs, idx, r)
  {
    seq(|fs|, j requires 0 <= j < |fs| => FieldStep(rev, fs, s, idx, j))
  }

  /** No tag of `fs` occurs: every offset is the absent marker. */
  predicate NoneOccur(idx: seq<int>) {
    forall j :: 0 <= j < |idx| ==> idx[j] == -1
  }

  /**
   * A change builder over the field list `fs`: an edit without any tag is refused as empty;
   * otherwise the field blocks run in order and the first failing one aborts the edit.
   */
  function Build(rev: Revision, fs: seq<Field>, s: string): (r: Result<ActivityChanges, Error>)
    requires IsChangeLayout(fs)
    ensures r == Failure(EditEmpty) <==> NoneOccur(Indices(s, fs))
    ensures r.Success? <==>
              !NoneOccur(Indices(s, fs)) && forall j :: 0 <= j < |fs| ==> StepsOf(rev, fs, s, Indices(s, fs))[j].Success?
  {
    var idx := Indices(s, fs);
    if NoneOccur(idx) then Failure(EditEmpty)
    else Fill(StepsOf(rev, fs, s, idx), 0, NO_CHANGES)
  }

  /** The errors of a change builder are those of its field blocks, or the empty edit. */
  lemma BuildNeverEditInvalid(rev: Revision, fs: seq<Field>, s: string)
    requires IsChangeLayout(fs)
    ensures Build(rev, fs, s) != Failure(EditInvalid)
  {
    var steps := StepsOf(rev, fs, s, Indices(s, fs));
    assert forall j :: 0 <= j < |steps| ==> steps[j] != Failure(EditInvalid);
  }

  /** Step `j` sets a value exactly when the tag of `fs[j]` occurs, and always into that field's slot. */
  predicate StepsFollow(fs: seq<Field>, idx: seq<int>, steps: Steps)
    requires |fs| == |idx| == |steps|
  {
    forall j :: 0 <= j < |steps| ==>
      && (steps[j] == Success(None) <==> idx[j] == -1)
      && (steps[j].Success? && steps[j].value.Some? ==> ValueField(steps[j].value.value) == fs[j])
      && (steps[j].Success? && steps[j].value.Some? && fs[j] == CaptionField ==> steps[j].value.value.text != [])
      && (steps[j].Success? && steps[j].value.Some? && fs[j] == DistanceField ==> steps[j].value.value.distance >= 0)
  }

  /**
   * Filling a fresh change set sets exactly the slots of the fields whose tags occur, each to
   * the value its own step read.
   */
  lemma FillFromNothing(fs: seq<Field>, idx: seq<int>, steps: Steps)
    requires |fs| == |idx| == |steps| && (forall j :: 0 <= j < |fs| ==> IsEditField(fs[j])) && DistinctSlots(steps)
    requires StepsFollow(fs, idx, steps) && Fill(steps, 0, NO_CHANGES).Success?
    ensures forall j :: 0 <= j < |fs| && idx[j] != -1 ==> Slot(Fill(steps, 0, NO_CHANGES).value, fs[j]) == steps[j].value
    ensures forall f :: IsEditField(f) ==>
              (Slot(Fill(steps, 0, NO_CHANGES).value, f).Some? <==> exists j :: 0 <= j < |fs| && fs[j] == f && idx[j] != -1)
    ensures Fill(steps, 0, NO_CHANGES).value.caption.Some? ==> Fill(steps, 0, NO_CHANGES).value.caption.value != []
    ensures Fill(steps, 0, NO_CHANGES).value.distance.Some? ==> Fill(steps, 0, NO_CHANGES).value.distance.value >= 0
  {
    var c := Fill(steps, 0, NO_CHANGES).value;
    FillSetsPresent(fs, idx, steps);
    forall f | IsEditField(f)
      ensures Slot(c, f).Some? <==> exists j :: 0 <= j < |fs| && fs[j] == f && idx[j] != -1
    {
      FillSlotOf(fs, idx, steps, f);
    }
    assert Slot(c, CaptionField).Some? == c.caption.Some?;
    assert Slot(c, DistanceField).Some? == c.distance.Some?;
  }

  /** Filling a fresh change set sets the slot of `f` exactly when a present field is `f`. */
  lemma FillSlotOf(fs: seq<Field>, idx: seq<int>, steps: Steps, f: Field)
    requires |fs| == |idx| == |steps| && DistinctSlots(steps) && IsEditField(f)
    requires StepsFollow(fs, idx, steps) && Fill(steps, 0, NO_CHANGES).Success?
    requires forall j :: 0 <= j < |fs| && idx[j] != -1 ==> Slot(Fill(steps, 0, NO_CHANGES).value, fs[j]) == steps[j].value
    ensures Slot(Fill(steps, 0, NO_CHANGES).value, f).Some? <==> exists j :: 0 <= j < |fs| && fs[j] == f && idx[j] != -1
  {
    if !exists j :: 0 <= j < |fs| && fs[j] == f && idx[j] != -1 {
      assert forall j :: 0 <= j < |steps| ==> !Sets(steps, j, f);
    }
  }

  /** Filling a fresh change set puts each present field's value into that field's slot. */
  lemma FillSetsPresent(fs: seq<Field>, idx: seq<int>, steps: Steps)
    requires |fs| == |idx| == |steps| && DistinctSlots(steps)
    requires StepsFollow(fs, idx, steps) && Fill(steps, 0, NO_CHANGES).Success?
    ensures forall j :: 0 <= j < |fs| && idx[j] != -1 ==> Slot(Fill(steps, 0, NO_CHANGES).value, fs[j]) == steps[j].value
  {
    forall j | 0 <= j < |fs| && idx[j] != -1
      ensures Slot(Fill(steps, 0, NO_CHANGES).value, fs[j]) == steps[j].value
    {
      assert Sets(steps, j, fs[j]);
    }
  }

  /**
   * A successful build sets exactly the slots of the fields whose tags occur, each to the
   * value its own field block read.
   */
  lemma BuildFillsSlots(rev: Revision, fs: seq<Field>, s: string)
    requires IsChangeLayout(fs) && Build(rev, fs, s).Success?
    ensures forall j :: 0 <= j < |fs| && Indices(s, fs)[j] != -1 ==>
              Slot(Build(rev, fs, s).value, fs[j]) == StepsOf(rev, fs, s, Indices(s, fs))[j].value
    ensures forall f :: IsEditField(f) && (forall j :: 0 <= j < |fs| ==> fs[j] != f || Indices(s, fs)[j] == -1) ==>
              Slot(Build(rev, fs, s).value, f).None?
  {
    var idx := Indices(s, fs);
    FillFromNothing(fs, idx, StepsOf(rev, fs, s, idx));
  }

  /**
   * A successful build sets a slot exactly when the field is in the list and its tag occurs;
   * a caption it sets is not empty and a distance it sets is not negative.
   */
  lemma BuildSetsOccurringSlots(rev: Revision, fs: seq<Field>, s: string)
    requires IsChangeLayout(fs) && Build(rev, fs, s).Success?
    ensures forall f :: IsEditField(f) ==> (Slot(Build(rev, fs, s).value, f).Some? <==> f in fs && Occurs(s, Tag(f)))
    ensures Build(rev, fs, s).value.caption.Some? ==> Build(rev, fs, s).value.caption.value != []
    ensures Build(rev, fs, s).value.distance.Some? ==> Build(rev, fs, s).value.distance.value >= 0
  {
    var idx := Indices(s, fs);
    FillFromNothing(fs, idx, StepsOf(rev, fs, s, idx));
    assert forall f :: f in fs <==> exists j :: 0 <= j < |fs| && fs[j] == f;
  }

  /** The first failing field block decides the error of a build. */
  lemma BuildStopsAtFirstFailure(rev: Revision, fs: seq<Field>, s: string, j: int)
    requires IsChangeLayout(fs) && !NoneOccur(Indices(s, fs))
    requires IsFirstFailingStep(StepsOf(rev, fs, s, Indices(s, fs)), 0, j)
    ensures Build(rev, fs, s) == Failure(FieldStep(rev, fs, s, Indices(s, fs), j).error)
  {
    FirstFailingStepDecides(StepsOf(rev, fs, s, Indices(s, fs)), 0, NO_CHANGES, j);
  }

  /** No tag of the layout occurs in the text. */
  ghost predicate NoTags(k: Layout, s: string) {
    forall f {:trigger f in LayoutFields(k)} :: f in LayoutFields(k) ==> !Occurs(s, Tag(f))
  }

  /** `NoTags` in terms of the offsets of the layout's tags. */
  lemma NoTagsIsNoneOccur(k: Layout, s: string)
    ensures NoneOccur(Indices(s, LayoutFields(k))) <==> NoTags(k, s)
  {
    var fs := LayoutFields(k);
    var idx := Indices(s, fs);
    if NoneOccur(idx) {
      forall f | f in fs
        ensures !Occurs(s, Tag(f))
      {
        var j :| 0 <= j < |fs| && fs[j] == f;
        assert idx[j] == -1;
      }
    } else {
      var j :| 0 <= j < |idx| && idx[j] != -1;
      assert fs[j] in fs;
    }
  }

  /**
   * The change builder of layout `k`: an edit without any of the layout's tags is refused
   * as empty; a successful one sets exactly the slots whose tags occur, with a non-empty
   * caption and a distance that is not negative.
   */
  function ChangesAs(rev: Revision, k: Layout, s: string): (r: Result<ActivityChanges, Error>)
    ensures r == Failure(EditEmpty) <==> NoTags(k, s)
    ensures r.Success? ==> SetsOccurring(k, s, r.value)
    ensures r.Success? && r.value.caption.Some? ==> r.value.caption.value != []
    ensures r.Success? && r.value.distance.Some? ==> r.value.distance.value >= 0
  {
    var fs := LayoutFields(k);
    LayoutsAreChangeLayouts(k);
    var r := Build(rev, fs, s);
    NoTagsIsNoneOccur(k, s);
    if r.Success? then
      BuildSetsOccurringSlots(rev, fs, s);
      r
    else r
  }

  /** The slots of `c` are set exactly for the layout's fields whose tags occur in `s`. */
  ghost predicate SetsOccurring(k: Layout, s: string, c: ActivityChanges) {
    forall f {:trigger Slot(c, f)} :: IsEditField(f) ==> (Slot(c, f).Some? <==> f in LayoutFields(k) && Occurs(s, Tag(f)))
  }

  /** `SetsOccurring`, field by field. */
  lemma OccurringFields(k: Layout, s: string, c: ActivityChanges)
    requires SetsOccurring(k, s, c)
    ensures c.caption.Some? <==> Occurs(s, CAPTION_SEPARATOR)
    ensures c.duration.Some? <==> Occurs(s, DURATION_SEPARATOR)
    ensures c.distance.Some? <==> Occurs(s, DISTANCE_SEPARATOR)
    ensures c.startDateTime.Some? <==> Occurs(s, DATETIME_SEPARATOR)
    ensures c.elevation.Some? <==> k == RunCycleLayout && Occurs(s, ELEVATION_SEPARATOR)
    ensures c.swimmingStyle.Some? <==> k == SwimLayout && Occurs(s, SWIMMING_STYLE_SEPARATOR)
  {
    var fs := LayoutFields(k);
    assert CaptionField in fs && DurationField in fs && DistanceField in fs && DateTimeField in fs;
    assert ElevationField in fs <==> k == RunCycleLayout;
    assert SwimmingStyleField in fs <==> k == SwimLayout;
    assert Slot(c, CaptionField).Some? == c.caption.Some?;
    assert Slot(c, DurationField).Some? == c.duration.Some?;
    assert Slot(c, DistanceField).Some? == c.distance.Some?;
    assert Slot(c, DateTimeField).Some? == c.startDateTime.Some?;
    assert Slot(c, ElevationField).Some? == c.elevation.Some?;
    assert Slot(c, SwimmingStyleField).Some? == c.swimmingStyle.Some?;
  }

  /** `NoTags`, tag by tag. */
  lemma NoTagsOfLayout(k: Layout, s: string)
    ensures NoTags(k, s) <==>
              && !Occurs(s, CAPTION_SEPARATOR) && !Occurs(s, DURATION_SEPARATOR)
              && !Occurs(s, DISTANCE_SEPARATOR) && !Occurs(s, DATETIME_SEPARATOR)
              && (k == RunCycleLayout ==> !Occurs(s, ELEVATION_SEPARATOR))
              && (k == SwimLayout ==> !Occurs(s, SWIMMING_STYLE_SEPARATOR))
  {
    if NoTags(k, s) {
      NoTagsTagByTag(k, s);
    } else {
      SomeTagOccurs(k, s);
    }
  }

  /** With one of the layout's tags present, some of the named tags occurs. */
  lemma SomeTagOccurs(k: Layout, s: string)
    requires !NoTags(k, s)
    ensures || Occurs(s, CAPTION_SEPARATOR) || Occurs(s, DURATION_SEPARATOR)
            || Occurs(s, DISTANCE_SEPARATOR) || Occurs(s, DATETIME_SEPARATOR)
            || (k == RunCycleLayout && Occurs(s, ELEVATION_SEPARATOR))
            || (k == SwimLayout && Occurs(s, SWIMMING_STYLE_SEPARATOR))
  {
    var f :| f in LayoutFields(k) && Occurs(s, Tag(f));
    LayoutMember(k, f);
  }

  /** Without any of the layout's tags, each of them is absent. */
  lemma NoTagsTagByTag(k: Layout, s: string)
    requires NoTags(k, s)
    ensures !Occurs(s, CAPTION_SEPARATOR) && !Occurs(s, DURATION_SEPARATOR)
    ensures !Occurs(s, DISTANCE_SEPARATOR) && !Occurs(s, DATETIME_SEPARATOR)
    ensures k == RunCycleLayout ==> !Occurs(s, ELEVATION_SEPARATOR)
    ensures k == SwimLayout ==> !Occurs(s, SWIMMING_STYLE_SEPARATOR)
  {
    var fs := LayoutFields(k);
    assert fs[0] in fs && fs[1] in fs && fs[2] in fs && fs[3] in fs;
    if k != ActivityLayout {
      assert fs[4] in fs;
    }
  }

  /** `parseActivityChanges`: caption, duration, distance and start, each optional; no tag at all is refused as an empty edit. */
  function ParseActivityChanges(s: string): (r: Result<ActivityChanges, Error>)
    ensures r == Failure(EditEmpty) <==>
              !Occurs(s, CAPTION_SEPARATOR) && !Occurs(s, DURATION_SEPARATOR) &&
              !Occurs(s, DISTANCE_SEPARATOR) && !Occurs(s, DATETIME_SEPARATOR)
    ensures r.Success? ==>
              && (r.value.caption.Some? <==> Occurs(s, CAPTION_SEPARATOR))
              && (r.value.duration.Some? <==> Occurs(s, DURATION_SEPARATOR))
              && (r.value.distance.Some? <==> Occurs(s, DISTANCE_SEPARATOR))
              && (r.value.startDateTime.Some? <==> Occurs(s, DATETIME_SEPARATOR))
              && r.value.elevation.None? && r.value.swimmingStyle.None?
    ensures r.Success? && r.value.caption.Some? ==> r.value.caption.value != []
    ensures r.Success? && r.value.distance.Some? ==> r.value.distance.value >= 0
  {
    var r := ChangesAs(Intended, ActivityLayout, s);
    NoTagsOfLayout(ActivityLayout, s);
    if r.Success? then OccurringFields(ActivityLayout, s, r.value); r else r
  }

  /** `parseRunCycleChanges`: the activity's four fields and the elevation, each optional. */
  function ParseRunCycleChanges(s: string): (r: Result<ActivityChanges, Error>)
    ensures r == Failure(EditEmpty) <==>
              !Occurs(s, CAPTION_SEPARATOR) && !Occurs(s, DURATION_SEPARATOR) &&
              !Occurs(s, DISTANCE_SEPARATOR) && !Occurs(s, DATETIME_SEPARATOR) &&
              !Occurs(s, ELEVATION_SEPARATOR)
    ensures r.Success? ==>
              && (r.value.caption.Some? <==> Occurs(s, CAPTION_SEPARATOR))
              && (r.value.duration.Some? <==> Occurs(s, DURATION_SEPARATOR))
              && (r.value.distance.Some? <==> Occurs(s, DISTANCE_SEPARATOR))
              && (r.value.startDateTime.Some? <==> Occurs(s, DATETIME_SEPARATOR))
              && (r.value.elevation.Some? <==> Occurs(s, ELEVATION_SEPARATOR))
              && r.value.swimmingStyle.None?
    ensures r.Success? && r.value.caption.Some? ==> r.value.caption.value != []
    ensures r.Success? && r.value.distance.Some? ==> r.value.distance.value >= 0
  {
    var r := ChangesAs(Intended, RunCycleLayout, s);
    NoTagsOfLayout(RunCycleLayout, s);
    if r.Success? then OccurringFields(RunCycleLayout, s, r.value); r else r
  }

  /** `parseSwimChanges`: the activity's four fields and the swimming style, each optional. */
  function ParseSwimChanges(s: string): (r: Result<ActivityChanges, Error>)
    ensures r == Failure(EditEmpty) <==>
              !Occurs(s, CAPTION_SEPARATOR) && !Occurs(s, DURATION_SEPARATOR) &&
              !Occurs(s, DISTANCE_SEPARATOR) && !Occurs(s, DATETIME_SEPARATOR) &&
              !Occurs(s, SWIMMING_STYLE_SEPARATOR)
    ensures r.Success? ==>
              && (r.value.caption.Some? <==> Occurs(s, CAPTION_SEPARATOR))
              && (r.value.duration.Some? <==> Occurs(s, DURATION_SEPARATOR))
              && (r.value.distance.Some? <==> Occurs(s, DISTANCE_SEPARATOR))
              && (r.value.startDateTime.Some? <==> Occurs(s, DATETIME_SEPARATOR))
              && (r.value.swimmingStyle.Some? <==> Occurs(s, SWIMMING_STYLE_SEPARATOR))
              && r.value.elevation.None?
    ensures r.Success? && r.value.caption.Some? ==> r.value.caption.value != []
    ensures r.Success? && r.value.distance.Some? ==> r.value.distance.value >= 0
  {
    var r := ChangesAs(Intended, SwimLayout, s);
    NoTagsOfLayout(SwimLayout, s);
    if r.Success? then OccurringFields(SwimLayout, s, r.value); r else r
  }

  /**
   * As written, when the first tag present is the duration's (or the distance's) and the
   * tag right after it in declared order is absent, the text is cut at offset -1 and the
   * edit aborts, whatever follows.
   */
  lemma AsWrittenCutsAtAbsentTag(k: Layout, s: string, i: nat)
    requires i == 1 || i == 2
    requires forall j :: 0 <= j < i ==> !Occurs(s, Tag(LayoutFields(k)[j]))
    requires Occurs(s, Tag(LayoutFields(k)[i])) && !Occurs(s, Tag(LayoutFields(k)[i + 1]))
    ensures ChangesAs(AsWritten, k, s) == Failure(SliceOutOfBounds)
  {
    var fs := LayoutFields(k);
    var idx := Indices(s, fs);
    LayoutsAreChangeLayouts(k);
    var steps := StepsOf(AsWritten, fs, s, idx);
    assert steps[i] == Failure(SliceOutOfBounds);
    assert IsFirstFailingStep(steps, 0, i);
    BuildStopsAtFirstFailure(AsWritten, fs, s, i);
  }

  /**
   * Away from the two slips, the revisions agree: when every present duration or distance
   * tag is followed by the next tag in declared order and no swimming style tag occurs,
   * the code as written builds the intended change set.
   */
  lemma RevisionsAgree(k: Layout, s: string)
    requires Occurs(s, DURATION_SEPARATOR) ==> Occurs(s, DISTANCE_SEPARATOR)
    requires Occurs(s, DISTANCE_SEPARATOR) ==> Occurs(s, DATETIME_SEPARATOR)
    requires k == SwimLayout ==> !Occurs(s, SWIMMING_STYLE_SEPARATOR)
    ensures ChangesAs(AsWritten, k, s) == ChangesAs(Intended, k, s)
  {
    ChangesIsBuild(AsWritten, k, s);
    ChangesIsBuild(Intended, k, s);
    LayoutSlipFree(k, s);
    BuildsAgree(LayoutFields(k), s);
  }

  /** The premises of `RevisionsAgree`, field by field. */
  lemma LayoutSlipFree(k: Layout, s: string)
    requires Occurs(s, DURATION_SEPARATOR) ==> Occurs(s, DISTANCE_SEPARATOR)
    requires Occurs(s, DISTANCE_SEPARATOR) ==> Occurs(s, DATETIME_SEPARATOR)
    requires k == SwimLayout ==> !Occurs(s, SWIMMING_STYLE_SEPARATOR)
    ensures IsChangeLayout(LayoutFields(k))
    ensures forall j :: 0 <= j < |LayoutFields(k)| ==> SlipFree(LayoutFields(k), Indices(s, LayoutFields(k)), j)
  {
    var fs := LayoutFields(k);
    var idx := Indices(s, fs);
    LayoutsAreChangeLayouts(k);
    forall j | 0 <= j < |fs|
      ensures SlipFree(fs, idx, j)
    {
      if j == 0 {} else if j == 1 {} else if j == 2 {} else if j == 3 {} else {}
    }
  }

  /** Field `j` is clear of both slips: a present duration or distance tag has its successor, and no style tag occurs. */
  predicate SlipFree(fs: seq<Field>, idx: seq<int>, j: nat)
    requires |idx| == |fs| && j < |fs| && IsChangeLayout(fs)
  {
    && ((fs[j] == DurationField || fs[j] == DistanceField) && idx[j] != -1 ==> idx[j + 1] != -1)
    && (fs[j] == SwimmingStyleField ==> idx[j] == -1)
  }

  /** A field block clear of both slips reads the same span in both revisions. */
  lemma StepAgrees(fs: seq<Field>, s: string, idx: seq<int>, j: nat)
    requires |idx| == |fs| && j < |fs| && IsChangeLayout(fs) && SlipFree(fs, idx, j)
    ensures FieldStep(AsWritten, fs, s, idx, j) == FieldStep(Intended, fs, s, idx, j)
  {
    if idx[j] != -1 {
      assert SpanBegin(AsWritten, fs, idx, j) == SpanBegin(Intended, fs, idx, j);
      if fs[j] == DurationField || fs[j] == DistanceField {
        assert IsFirstPresentFrom(idx, j + 1, j + 1);
      }
      assert SpanEnd(AsWritten, fs, idx, j, |s|) == SpanEnd(Intended, fs, idx, j, |s|);
    }
  }

  /** A build whose every field block is clear of both slips gives the same result in both revisions. */
  lemma BuildsAgree(fs: seq<Field>, s: string)
    requires IsChangeLayout(fs) && forall j :: 0 <= j < |fs| ==> SlipFree(fs, Indices(s, fs), j)
    ensures Build(AsWritten, fs, s) == Build(Intended, fs, s)
  {
    var idx := Indices(s, fs);
    var written := StepsOf(AsWritten, fs, s, idx);
    var intended := StepsOf(Intended, fs, s, idx);
    forall j | 0 <= j < |fs|
      ensures written[j] == intended[j]
    {
      StepAgrees(fs, s, idx, j);
    }
    assert written == intended;
  }

  /** Steps that set nothing leave the run unchanged. */
  lemma {:induction false} FillSkipsNones(steps: Steps, from: nat, to: nat, acc: ActivityChanges)
    requires from <= to <= |steps| && DistinctSlots(steps)
    requires forall j :: from <= j < to ==> steps[j] == Success(None)
    ensures Fill(steps, from, acc) == Fill(steps, to, acc)
    decreases (to as int) - (from as int)
  {
    if from < to {
      FillSkipsNones(steps, from + 1, to, acc);
    }
  }

  /** The effect of a single field block on a fresh change set. */
  function StepEdit(step: Result<Option<Value>, Error>): Result<ActivityChanges, Error> {
    match step
    case Failure(e) => Failure(e)
    case Success(None) => Success(NO_CHANGES)
    case Success(Some(v)) => Success(Set(NO_CHANGES, v))
  }

  /** A run in which only step `i` can do anything has that step's effect on a fresh change set. */
  lemma FillLone(steps: Steps, i: nat)
    requires i < |steps| && DistinctSlots(steps)
    requires forall j :: 0 <= j < |steps| && j != i ==> steps[j] == Success(None)
    ensures Fill(steps, 0, NO_CHANGES) == StepEdit(steps[i])
  {
    FillSkipsNones(steps, 0, i, NO_CHANGES);
    if steps[i].Success? {
      var next := if steps[i].value.Some? then Set(NO_CHANGES, steps[i].value.value) else NO_CHANGES;
      FillSkipsNones(steps, i + 1, |steps|, next);
    }
  }

  /**
   * An edit in which a single field is read, from offset `b` to the end of `s`: a start past
   * the end aborts the edit, otherwise that field's slot is set or its error reported.
   */
  function LoneEdit(f: Field, s: string, b: int): Result<ActivityChanges, Error>
    requires IsEditField(f)
  {
    if b < 0 || b > |s| then Failure(SliceOutOfBounds)
    else match ReadValue(f, Trim(s[b..]))
      case Success(v) => Success(Set(NO_CHANGES, v))
      case Failure(e) => Failure(e)
  }

  /**
   * A build over a field list in which only the tag of field `i` occurs, when that field's
   * span runs to the end of the text: the field's text starts at `SpanBegin`.
   */
  lemma BuildLone(rev: Revision, fs: seq<Field>, s: string, i: nat)
    requires IsChangeLayout(fs) && i < |fs| && Indices(s, fs)[i] != -1
    requires forall j :: 0 <= j < |fs| && j != i ==> Indices(s, fs)[j] == -1
    requires rev == AsWritten ==> fs[i] != DurationField && fs[i] != DistanceField
    ensures Build(rev, fs, s) == LoneEdit(fs[i], s, SpanBegin(rev, fs, Indices(s, fs), i))
  {
    var idx := Indices(s, fs);
    var steps := StepsOf(rev, fs, s, idx);
    assert forall j :: 0 <= j < |fs| && j != i ==> steps[j] == Success(None);
    assert !NoneOccur(idx);
    FillLone(steps, i);
    LoneStepReads(rev, fs, s, i);
  }

  /** The field block of the only tag that occurs, when its span runs to the end of the text. */
  lemma LoneStepReads(rev: Revision, fs: seq<Field>, s: string, i: nat)
    requires IsChangeLayout(fs) && i < |fs| && Indices(s, fs)[i] != -1
    requires forall j :: 0 <= j < |fs| && j != i ==> Indices(s, fs)[j] == -1
    requires rev == AsWritten ==> fs[i] != DurationField && fs[i] != DistanceField
    ensures StepEdit(FieldStep(rev, fs, s, Indices(s, fs), i)) == LoneEdit(fs[i], s, SpanBegin(rev, fs, Indices(s, fs), i))
  {
    var idx := Indices(s, fs);
    var b := SpanBegin(rev, fs, idx, i);
    assert OccursAt(s, Tag(fs[i]), idx[i]);
    assert forall j :: i + 1 <= j < |idx| ==> idx[j] == -1;
    assert SpanEnd(rev, fs, idx, i, |s|) == |s|;
    assert b <= |s| ==> s[b..|s|] == s[b..];
  }

  /** Of the offsets `idx`, only the one of field `i` marks an occurring tag. */
  predicate LoneTag(idx: seq<int>, i: nat) {
    i < |idx| && idx[i] != -1 && forall j :: 0 <= j < |idx| && j != i ==> idx[j] == -1
  }

  /**
   * The intended span rule on an edit with a single tag: the field's text runs from just
   * after its tag to the end of the input, and the edit sets that one slot or reports that
   * field's error.
   */
  lemma IntendedReadsLoneField(k: Layout, s: string, i: nat)
    requires LoneTag(Indices(s, LayoutFields(k)), i)
    ensures var f := LayoutFields(k)[i];
            IsEditField(f) && ChangesAs(Intended, k, s) == LoneEdit(f, s, TagIndex(s, f) + |Tag(f)|)
  {
    LayoutsAreChangeLayouts(k);
    IntendedBuildLone(LayoutFields(k), s, i);
    ChangesIsBuild(Intended, k, s);
  }

  /** `IntendedReadsLoneField` over a field list. */
  lemma IntendedBuildLone(fs: seq<Field>, s: string, i: nat)
    requires IsChangeLayout(fs) && i < |fs| && TagIndex(s, fs[i]) != -1
    requires forall j :: 0 <= j < |fs| && j != i ==> TagIndex(s, fs[j]) == -1
    ensures IsEditField(fs[i]) && Build(Intended, fs, s) == LoneEdit(fs[i], s, TagIndex(s, fs[i]) + |Tag(fs[i])|)
  {
    assert SpanBegin(Intended, fs, Indices(s, fs), i) == TagIndex(s, fs[i]) + |Tag(fs[i])|;
    BuildLone(Intended, fs, s, i);
  }

  /** A layout's change builder is the build over the layout's fields. */
  lemma ChangesIsBuild(rev: Revision, k: Layout, s: string)
    ensures IsChangeLayout(LayoutFields(k)) && ChangesAs(rev, k, s) == Build(rev, LayoutFields(k), s)
  {
    LayoutsAreChangeLayouts(k);
  }

  /** Where each revision starts reading the swimming style's text, relative to its tag. */
  function StyleOffset(rev: Revision): nat {
    if rev == AsWritten then |ELEVATION_SEPARATOR| else |SWIMMING_STYLE_SEPARATOR|
  }

  /** `ReadsLoneStyle` over a field list whose last field is the swimming style. */
  lemma StyleLoneBuild(rev: Revision, fs: seq<Field>, s: string)
    requires IsChangeLayout(fs) && |fs| == 5 && fs[4] == SwimmingStyleField
    requires TagIndex(s, fs[4]) != -1
    requires TagIndex(s, fs[0]) == -1 && TagIndex(s, fs[1]) == -1
    requires TagIndex(s, fs[2]) == -1 && TagIndex(s, fs[3]) == -1
    ensures Build(rev, fs, s) == LoneEdit(SwimmingStyleField, s, TagIndex(s, fs[4]) + StyleOffset(rev))
  {
    OnlyLastOccurs(fs, s);
    assert SpanBegin(rev, fs, Indices(s, fs), 4) == TagIndex(s, fs[4]) + StyleOffset(rev);
    BuildLone(rev, fs, s, 4);
  }

  /** Of five fields, only the last one's tag occurs. */
  lemma OnlyLastOccurs(fs: seq<Field>, s: string)
    requires |fs| == 5
    requires TagIndex(s, fs[0]) == -1 && TagIndex(s, fs[1]) == -1
    requires TagIndex(s, fs[2]) == -1 && TagIndex(s, fs[3]) == -1
    ensures forall j :: 0 <= j < |fs| && j != 4 ==> Indices(s, fs)[j] == -1
  {
    var idx := Indices(s, fs);
    forall j | 0 <= j < |fs| && j != 4
      ensures idx[j] == -1
    {
      if j == 0 {} else if j == 1 {} else if j == 2 {} else {}
    }
  }

  /**
   * A swim edit whose only tag is the swimming style's: the intended rule reads the style's
   * text from just after its tag, while the code as written starts as many characters past
   * the tag's start as the elevation tag has.
   */
  lemma ReadsLoneStyle(rev: Revision, k: Layout, s: string)
    requires k == SwimLayout && TagIndex(s, SwimmingStyleField) != -1
    requires TagIndex(s, CaptionField) == -1 && TagIndex(s, DurationField) == -1
    requires TagIndex(s, DistanceField) == -1 && TagIndex(s, DateTimeField) == -1
    ensures ChangesAs(rev, k, s) == LoneEdit(SwimmingStyleField, s, TagIndex(s, SwimmingStyleField) + StyleOffset(rev))
  {
    ChangesIsBuild(rev, k, s);
    StyleLoneBuild(rev, LayoutFields(k), s);
  }

  /** The tags found in the swim edit `style/freestyle`: only the swimming style's, at offset 0. */
  lemma FreestyleTags(s: string)
    requires s == "style/freestyle"
    ensures TagIndex(s, CaptionField) == -1 && TagIndex(s, DurationField) == -1
    ensures TagIndex(s, DistanceField) == -1 && TagIndex(s, DateTimeField) == -1
    ensures TagIndex(s, SwimmingStyleField) == 0
  {
    AbsentCharRulesOut(s, CAPTION_SEPARATOR, 0);
    AbsentCharRulesOut(s, DURATION_SEPARATOR, 0);
    AbsentCharRulesOut(s, DISTANCE_SEPARATOR, 0);
    AbsentCharRulesOut(s, DATETIME_SEPARATOR, 0);
    assert OccursAt(s, SWIMMING_STYLE_SEPARATOR, 0);
  }

  /** The text the code as written reads from `style/freestyle`, and what the style reader makes of it. */
  lemma FreestyleTextAsWritten(s: string)
    requires s == "style/freestyle"
    ensures Trim(s[10..]) == "style" && ReadValue(SwimmingStyleField, "style") == Failure(Invalid(SwimmingStyleField))
  {
    assert s[10..] == "style";
    TrimOfUnpadded("style");
    assert ToUpper("style") == "STYLE";
  }

  /** The text the intended rule reads from `style/freestyle`, and what the style reader makes of it. */
  lemma FreestyleTextIntended(s: string)
    requires s == "style/freestyle"
    ensures Trim(s[6..]) == "freestyle" && ReadValue(SwimmingStyleField, "freestyle") == Success(StyleValue(Freestyle))
  {
    var t := s[6..];
    assert t == "freestyle";
    assert t[0] == 'f' && t[|t| - 1] == 'e';
    TrimOfUnpadded(t);
    assert ToUpper(t) == "FREESTYLE";
  }

  /**
   * As written, the swim edit `style/freestyle` skips as many characters as the elevation
   * tag has, reads `style` as the style's text, and is refused as an invalid style.
   */
  lemma SwimStyleAsWritten(s: string)
    requires s == "style/freestyle"
    ensures ChangesAs(AsWritten, SwimLayout, s) == Failure(Invalid(SwimmingStyleField))
  {
    FreestyleTags(s);
    ReadsLoneStyle(AsWritten, SwimLayout, s);
    assert TagIndex(s, SwimmingStyleField) + StyleOffset(AsWritten) == 10;
    FreestyleTextAsWritten(s);
  }

  /** With the intended span, the same edit sets the style to freestyle and nothing else. */
  lemma SwimStyleIntended(s: string)
    requires s == "style/freestyle"
    ensures ChangesAs(Intended, SwimLayout, s) == Success(Set(NO_CHANGES, StyleValue(Freestyle)))
  {
    FreestyleTags(s);
    ReadsLoneStyle(Intended, SwimLayout, s);
    assert TagIndex(s, SwimmingStyleField) + StyleOffset(Intended) == 6;
    FreestyleTextIntended(s);
  }
}
