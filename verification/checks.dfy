/**
 * The presence and emptiness checks of `ActivityParser` (`checkMissing*`, `checkEmpty*`).
 * Each runs its conditions in a fixed order and reports only the first that fails.
 */
module Checks {
  import opened Wrappers
  import opened Fields

  /** `i` is the first position at or after `from` whose condition fails. */
  ghost predicate IsFirstFailing(ok: seq<bool>, from: nat, i: int) {
    from <= i < |ok| && !ok[i] && forall j :: from <= j < i ==> ok[j]
  }

  /** Runs the conditions `ok[from..]` in order and reports the error of the first that fails. */
  function FirstFailing(ok: seq<bool>, errors: seq<Error>, from: nat): (r: Outcome<Error>)
    requires |ok| == |errors| && from <= |ok|
    ensures r.Pass? <==> forall i :: from <= i < |ok| ==> ok[i]
    ensures r.Fail? ==> exists i :: IsFirstFailing(ok, from, i) && r.error == errors[i]
    ensures forall i :: IsFirstFailing(ok, from, i) ==> r == Fail(errors[i])
    decreases |ok| - from
  {
    if from == |ok| then Pass
    else if !ok[from] then
      assert IsFirstFailing(ok, from, from);
      Fail(errors[from])
    else
      var r := FirstFailing(ok, errors, from + 1);
      assert forall i :: IsFirstFailing(ok, from, i) ==> IsFirstFailing(ok, from + 1, i);
      assert forall i :: IsFirstFailing(ok, from + 1, i) ==> IsFirstFailing(ok, from, i);
      r
  }

  /** `i` is the first position of `idx` holding the "absent" marker -1. */
  ghost predicate IsFirstAbsent(idx: seq<int>, i: int) {
    0 <= i < |idx| && idx[i] == -1 && forall j :: 0 <= j < i ==> idx[j] != -1
  }

  /**
   * `checkMissingActivityArguments`, `checkMissingRunCycleArguments` and
   * `checkMissingSwimArguments`: the tags' offsets `idx` are examined in the order of `fs`,
   * and the first absent tag names the missing field.
   */
  function CheckMissingTags(fs: seq<Field>, idx: seq<int>): (r: Outcome<Error>)
    requires |fs| == |idx|
    ensures r.Pass? <==> forall i :: 0 <= i < |idx| ==> idx[i] != -1
    ensures forall i :: IsFirstAbsent(idx, i) ==> r == Fail(Missing(fs[i]))
    ensures r.Fail? ==> exists i :: IsFirstAbsent(idx, i) && r.error == Missing(fs[i])
  {
    var ok := seq(|idx|, i requires 0 <= i < |idx| => idx[i] != -1);
    assert forall i :: 0 <= i < |idx| ==> ok[i] == (idx[i] != -1);
    assert forall i :: IsFirstAbsent(idx, i) <==> IsFirstFailing(ok, 0, i);
    FirstFailing(ok, seq(|fs|, i requires 0 <= i < |fs| => Missing(fs[i])), 0)
  }

  /**
   * `checkMissingActivityGoalArguments`. As written, its parameters are named
   * (sport, target, period, value) while its caller passes (sport, type, period, target), so
   * an absent type tag is reported as a missing target. The intended revision names the
   * type field.
   */
  function CheckMissingActivityGoalArguments(rev: Revision, sportIndex: int, typeIndex: int,
                                             periodIndex: int, targetIndex: int): (r: Outcome<Error>)
    ensures r == Pass <==> sportIndex != -1 && typeIndex != -1 && periodIndex != -1 && targetIndex != -1
    ensures r == Fail(Missing(SportField)) <==> sportIndex == -1
    ensures r == Fail(Missing(PeriodField)) <==> sportIndex != -1 && typeIndex != -1 && periodIndex == -1
    ensures rev == Intended ==>
              (r == Fail(Missing(TypeField)) <==> sportIndex != -1 && typeIndex == -1)
    ensures rev == Intended ==>
              (r == Fail(Missing(TargetField)) <==>
                 sportIndex != -1 && typeIndex != -1 && periodIndex != -1 && targetIndex == -1)
    ensures rev == AsWritten ==>
              (r == Fail(Missing(TargetField)) <==>
                 sportIndex != -1 && (typeIndex == -1 || (periodIndex != -1 && targetIndex == -1)))
    ensures rev == AsWritten ==> r != Fail(Missing(TypeField))
    ensures forall i :: IsFirstAbsent([sportIndex, typeIndex, periodIndex, targetIndex], i) ==>
              r == Fail(Missing(if rev == AsWritten && i == 1 then TargetField
                                else [SportField, TypeField, PeriodField, TargetField][i]))
  {
    var ok := [sportIndex != -1, typeIndex != -1, periodIndex != -1, targetIndex != -1];
    var typeError := if rev == AsWritten then Missing(TargetField) else Missing(TypeField);
    var idx := [sportIndex, typeIndex, periodIndex, targetIndex];
    assert forall i :: 0 <= i < 4 ==> ok[i] == (idx[i] != -1);
    assert forall i :: IsFirstAbsent(idx, i) ==> IsFirstFailing(ok, 0, i);
    assert sportIndex == -1 ==> IsFirstFailing(ok, 0, 0);
    assert sportIndex != -1 && typeIndex == -1 ==> IsFirstFailing(ok, 0, 1);
    assert sportIndex != -1 && typeIndex != -1 && periodIndex == -1 ==> IsFirstFailing(ok, 0, 2);
    assert sportIndex != -1 && typeIndex != -1 && periodIndex != -1 && targetIndex == -1
      ==> IsFirstFailing(ok, 0, 3);
    FirstFailing(ok, [Missing(SportField), typeError, Missing(PeriodField), Missing(TargetField)], 0)
  }

  /** `checkEmpty<Field>Argument`: a present field whose trimmed text is empty. */
  function CheckEmpty(f: Field, text: string): (r: Outcome<Error>)
    ensures r.Pass? <==> text != []
    ensures r.Fail? ==> r.error == Empty(f)
  {
    if text == [] then Fail(Empty(f)) else Pass
  }

  /** `i` is the first position of `texts` holding an empty text. */
  ghost predicate IsFirstEmpty(texts: seq<string>, i: int) {
    0 <= i < |texts| && texts[i] == [] && forall j :: 0 <= j < i ==> texts[j] != []
  }

  /**
   * `checkEmptyActivityArguments`, `checkEmptyRunCycleArguments` and `checkEmptySwimArguments`:
   * the texts of `fs` are examined in order and the first empty one is reported.
   */
  function CheckEmptyTexts(fs: seq<Field>, texts: seq<string>): (r: Outcome<Error>)
    requires |fs| == |texts|
    ensures r.Pass? <==> forall i :: 0 <= i < |texts| ==> texts[i] != []
    ensures forall i :: IsFirstEmpty(texts, i) ==> r == Fail(Empty(fs[i]))
    ensures r.Fail? ==> exists i :: IsFirstEmpty(texts, i) && r.error == Empty(fs[i])
  {
    var ok := seq(|texts|, i requires 0 <= i < |texts| => texts[i] != []);
    assert forall i :: 0 <= i < |texts| ==> ok[i] == (texts[i] != []);
    assert forall i :: IsFirstEmpty(texts, i) <==> IsFirstFailing(ok, 0, i);
    FirstFailing(ok, seq(|fs|, i requires 0 <= i < |fs| => Empty(fs[i])), 0)
  }
}
