/**
 * The argument handling around the change builders of `ActivityParser`: the index reader
 * `parseActivityIndex`, the `split(" ", 2)` that separates an edit command's index from its
 * changes (`parseActivityEditIndex`, `parseActivityEdit`, `parseRunCycleEdit`,
 * `parseSwimEdit`), and the detail flag of the activity list (`parseActivityListDetail`).
 */
module EditArgs {
  import opened Wrappers
  import opened Text
  import opened Numbers
  import opened Fields
  import opened Changes

  /** `parseActivityIndex`: the trimmed text read as an `int`; anything else is an invalid index. */
  function ParseActivityIndex(s: string): (r: Result<int, Error>)
    ensures r.Success? ==> InIntRange(r.value) && ParseInt(Trim(s)) == Some(r.value)
    ensures r.Failure? <==> ParseInt(Trim(s)).None?
    ensures r.Failure? ==> r.error == IndexInvalid
  {
    match ParseInt(Trim(s))
    case Some(n) => Success(n)
    case None => Failure(IndexInvalid)
  }

  /** Every rendered `int`, with any blanks around it, is read back as that index. */
  lemma IndexRoundTrip(pre: string, n: int, post: string)
    requires InIntRange(n) && AllBlank(pre) && AllBlank(post)
    ensures ParseActivityIndex(pre + IntToString(n) + post) == Success(n)
  {
    var digits := IntToString(n);
    TrimPadded(pre, digits, post);
    ParseIntRoundTrip(n);
  }

  /** A text holding no digit is never an index. */
  lemma NoDigitNoIndex(s: string)
    requires forall i :: 0 <= i < |s| ==> !IsDigit(s[i])
    ensures ParseActivityIndex(s) == Failure(IndexInvalid)
  {
    var t := Trim(s);
    assert t != [] ==> t[|t| - 1] == s[Lead(s) + |t| - 1];
  }

  /** The text " ", the separator `split` looks for. */
  const SPACE: string := " "

  /** `t` occurs in `s` exactly when `s` holds a space. */
  lemma SpaceOccurs(s: string)
    ensures Occurs(s, SPACE) <==> ' ' in s
  {
    if ' ' in s {
      var i :| 0 <= i < |s| && s[i] == ' ';
      assert OccursAt(s, SPACE, i);
    } else {
      AbsentCharRulesOut(s, SPACE, 0);
    }
  }

  /**
   * `split(" ", 2)`: the text before the first space and, when there is a space, the rest of
   * the text after it. There is always at least one part.
   */
  function SplitOnFirstSpace(s: string): (parts: seq<string>)
    ensures |parts| == 1 || |parts| == 2
    ensures |parts| == 2 <==> ' ' in s
    ensures ' ' !in parts[0]
    ensures |parts| == 1 ==> parts[0] == s
    ensures |parts| == 2 ==> s == parts[0] + SPACE + parts[1]
  {
    SpaceOccurs(s);
    var k := IndexOf(s, SPACE);
    if k == -1 then [s]
    else
      assert forall i :: 0 <= i < k ==> s[i] != ' ' by {
        forall i | 0 <= i < k
          ensures s[i] != ' '
        {
          assert !OccursAt(s, SPACE, i);
          assert s[i..i + 1] == [s[i]];
        }
      }
      assert s == s[..k] + SPACE + s[k + 1..] by {
        assert s[k..k + 1] == SPACE;
      }
      [s[..k], s[k + 1..]]
  }

  /** Splitting inverts joining at a space, as long as the first part holds no space. */
  lemma SplitJoin(head: string, tail: string)
    requires ' ' !in head
    ensures SplitOnFirstSpace(head + SPACE + tail) == [head, tail]
  {
    var s := head + SPACE + tail;
    var parts := SplitOnFirstSpace(s);
    var n := |parts[0]|;
    assert forall i :: 0 <= i < |head| ==> s[i] == head[i];
    assert forall i :: 0 <= i < n ==> s[i] == parts[0][i];
    FirstSpaceUnique(s, |head|, n);
    assert parts[0] == s[..n] == head;
    assert parts[1] == s[n + 1..] == tail;
  }

  /** A text has only one first space. */
  lemma FirstSpaceUnique(s: string, a: nat, b: nat)
    requires a < |s| && s[a] == ' ' && forall i :: 0 <= i < a ==> s[i] != ' '
    requires b < |s| && s[b] == ' ' && forall i :: 0 <= i < b ==> s[i] != ' '
    ensures a == b
  {
  }

  /**
   * `parseActivityEditIndex`: the index is read from the text before the first space. The
   * split always yields that part, so the edit-invalid error is never raised here.
   */
  function ParseActivityEditIndex(s: string): (r: Result<int, Error>)
    ensures r.Failure? ==> r.error == IndexInvalid
    ensures ' ' !in s ==> r == ParseActivityIndex(s)
  {
    ParseActivityIndex(SplitOnFirstSpace(s)[0])
  }

  /** A change builder never reports the edit-invalid error: that one belongs to the split. */
  lemma ChangesNeverEditInvalid(rev: Revision, k: Layout, s: string)
    ensures ChangesAs(rev, k, s) != Failure(EditInvalid)
  {
    ChangesIsBuild(rev, k, s);
    BuildNeverEditInvalid(rev, LayoutFields(k), s);
  }

  /** `parseActivityEdit`: the changes follow the first space; without a space the edit is invalid. */
  function ParseActivityEdit(s: string): (r: Result<ActivityChanges, Error>)
    ensures r == Failure(EditInvalid) <==> ' ' !in s
  {
    var parts := SplitOnFirstSpace(s);
    if |parts| < 2 then Failure(EditInvalid)
    else
      ChangesNeverEditInvalid(Intended, ActivityLayout, parts[1]);
      ParseActivityChanges(parts[1])
  }

  /** `parseRunCycleEdit`: the same split, handing the changes to the run and cycle builder. */
  function ParseRunCycleEdit(s: string): (r: Result<ActivityChanges, Error>)
    ensures r == Failure(EditInvalid) <==> ' ' !in s
  {
    var parts := SplitOnFirstSpace(s);
    if |parts| < 2 then Failure(EditInvalid)
    else
      ChangesNeverEditInvalid(Intended, RunCycleLayout, parts[1]);
      ParseRunCycleChanges(parts[1])
  }

  /** `parseSwimEdit`: the same split, handing the changes to the swim builder. */
  function ParseSwimEdit(s: string): (r: Result<ActivityChanges, Error>)
    ensures r == Failure(EditInvalid) <==> ' ' !in s
  {
    var parts := SplitOnFirstSpace(s);
    if |parts| < 2 then Failure(EditInvalid)
    else
      ChangesNeverEditInvalid(Intended, SwimLayout, parts[1]);
      ParseSwimChanges(parts[1])
  }

  /**
   * An edit command is an index, a space and the changes: the index is read from the part
   * before the first space, and every builder sees exactly the rest.
   */
  lemma EditSplitsAtFirstSpace(head: string, tail: string)
    requires ' ' !in head
    ensures ParseActivityEditIndex(head + SPACE + tail) == ParseActivityIndex(head)
    ensures ParseActivityEdit(head + SPACE + tail) == ParseActivityChanges(tail)
    ensures ParseRunCycleEdit(head + SPACE + tail) == ParseRunCycleChanges(tail)
    ensures ParseSwimEdit(head + SPACE + tail) == ParseSwimChanges(tail)
  {
    SplitJoin(head, tail);
  }

  /** The rendered index of an edit command is read back, whatever the changes say. */
  lemma EditIndexRoundTrip(n: int, tail: string)
    requires InIntRange(n)
    ensures ParseActivityEditIndex(IntToString(n) + SPACE + tail) == Success(n)
  {
    var digits := IntToString(n);
    NumeralHasNoSpace(digits);
    SplitJoin(digits, tail);
    IndexRoundTrip([], n, []);
    assert [] + digits + [] == digits;
  }

  /** A numeral is a sign and digits, never a space. */
  lemma NumeralHasNoSpace(s: string)
    requires IsNumeral(s)
    ensures ' ' !in s
  {
    forall i | 0 <= i < |s|
      ensures s[i] != ' '
    {
      if i > 0 { assert IsDigit(s[i]); }
    }
  }

  /** `parseActivityListDetail`: the lower-cased arguments contain the detail flag. */
  function ParseActivityListDetail(s: string): (r: bool)
    ensures r <==> Occurs(ToLower(s), DETAIL_FLAG)
  {
    IndexOf(ToLower(s), DETAIL_FLAG) != -1
  }

  /** The flag is found wherever it stands and however it is cased. */
  lemma DetailFlagFound(pre: string, flag: string, post: string)
    requires ToLower(flag) == DETAIL_FLAG
    ensures ParseActivityListDetail(pre + flag + post)
  {
    var s := pre + flag + post;
    assert ToLower(s)[|pre|..|pre| + |flag|] == ToLower(flag);
    assert OccursAt(ToLower(s), DETAIL_FLAG, |pre|);
  }

  /** Upper-casing the arguments does not change whether the detailed view is asked for. */
  lemma DetailIgnoresCase(s: string)
    ensures ParseActivityListDetail(ToUpper(s)) == ParseActivityListDetail(s)
  {
    assert ToLower(ToUpper(s)) == ToLower(s);
  }

  /** Arguments without a dash never ask for the detailed view. */
  lemma NoDashNoDetail(s: string)
    requires '-' !in s
    ensures !ParseActivityListDetail(s)
  {
    var t := ToLower(s);
    assert forall i :: 0 <= i < |t| ==> t[i] != DETAIL_FLAG[0];
    AbsentCharRulesOut(t, DETAIL_FLAG, 0);
  }
}
