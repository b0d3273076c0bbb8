/**
 * The few `java.lang.String` operations the activity parser is built from:
 * `indexOf`, `substring`, `trim`, `toUpperCase` and `toLowerCase`.
 * Characters are Unicode scalar values; case mapping is restricted to ASCII.
 */
module Text {
  import opened Wrappers

  /** `t` occurs in `s` starting at offset `k`. */
  predicate OccursAt(s: string, t: string, k: int) {
    0 <= k && k + |t| <= |s| && s[k..k + |t|] == t
  }

  /** `t` occurs somewhere in `s`. */
  ghost predicate Occurs(s: string, t: string) {
    exists k :: OccursAt(s, t, k)
  }

  /** First occurrence of `t` in `s` at or after `from`, or -1. */
  function IndexFrom(s: string, t: string, from: nat): (r: int)
    ensures r == -1 || (from <= r && OccursAt(s, t, r))
    ensures r == -1 ==> forall k :: from <= k ==> !OccursAt(s, t, k)
    ensures r != -1 ==> forall k :: from <= k < r ==> !OccursAt(s, t, k)
    decreases |s| - from
  {
    if from + |t| > |s| then -1
    else if s[from..from + |t|] == t then from
    else IndexFrom(s, t, from + 1)
  }

  /** A text lacking one of the characters of `t` cannot contain `t`. */
  lemma AbsentCharRulesOut(s: string, t: string, m: nat)
    requires m < |t| && forall i :: 0 <= i < |s| ==> s[i] != t[m]
    ensures !Occurs(s, t)
  {
    forall k: int
      ensures !OccursAt(s, t, k)
    {
      if 0 <= k && k + |t| <= |s| {
        assert s[k..k + |t|][m] == s[k + m] != t[m];
      }
    }
  }

  /** `String.indexOf(String)`: the offset of the first occurrence of `t`, or -1 when there is none. */
  function IndexOf(s: string, t: string): (r: int)
    ensures r == -1 <==> !Occurs(s, t)
    ensures r != -1 ==> OccursAt(s, t, r) && forall k :: 0 <= k < r ==> !OccursAt(s, t, k)
  {
    IndexFrom(s, t, 0)
  }

  /**
   * `String.substring(begin, end)`: `None` stands for the unchecked
   * `StringIndexOutOfBoundsException` thrown when the bounds are not ordered within the string.
   */
  function Slice(s: string, begin: int, end: int): (r: Option<string>)
    ensures r.Some? <==> 0 <= begin <= end <= |s|
    ensures r.Some? ==> |r.value| == end - begin
    ensures r.Some? ==> forall i :: 0 <= i < |r.value| ==> r.value[i] == s[begin + i]
  {
    if 0 <= begin <= end <= |s| then Some(s[begin..end]) else None
  }

  /** The characters `trim` removes: every code unit up to and including the space. */
  predicate IsBlank(c: char) {
    c <= ' '
  }

  predicate AllBlank(s: string) {
    forall i :: 0 <= i < |s| ==> IsBlank(s[i])
  }

  /** Number of blanks that open `s`. */
  function Lead(s: string): (r: nat)
    ensures r <= |s|
    ensures AllBlank(s[..r])
    ensures r < |s| ==> !IsBlank(s[r])
  {
    if |s| > 0 && IsBlank(s[0]) then
      var rest := Lead(s[1..]);
      assert forall i :: 1 <= i < 1 + rest ==> s[i] == s[1..][i - 1];
      1 + rest
    else 0
  }

  /** Length of `s` once its closing blanks are dropped. */
  function End(s: string): (r: nat)
    ensures r <= |s|
    ensures AllBlank(s[r..])
    ensures r > 0 ==> !IsBlank(s[r - 1])
  {
    if |s| > 0 && IsBlank(s[|s| - 1]) then
      var e := End(s[..|s| - 1]);
      assert forall i :: e <= i < |s| - 1 ==> s[i] == s[..|s| - 1][i];
      e
    else |s|
  }

  /** `String.trim()`: `s` without its opening and closing blanks. */
  function Trim(s: string): (r: string)
    ensures |r| <= |s|
    ensures r == [] <==> AllBlank(s)
    ensures r != [] ==> !IsBlank(r[0]) && !IsBlank(r[|r| - 1])
    ensures r != [] ==> Lead(s) < End(s) && r == s[Lead(s)..End(s)]
  {
    var a := Lead(s);
    if a == |s| then
      assert s[..a] == s;
      []
    else
      var b := End(s);
      assert !AllBlank(s) by { assert !IsBlank(s[a]); }
      s[a..b]
  }

  /** A text that neither opens nor closes with a blank is its own trim. */
  lemma TrimOfUnpadded(s: string)
    requires s == [] || (!IsBlank(s[0]) && !IsBlank(s[|s| - 1]))
    ensures Trim(s) == s
  {
    if s != [] {
      assert Lead(s) == 0;
      assert End(s) == |s|;
    }
  }

  /** Blanks added around an unpadded text are exactly what `trim` removes. */
  lemma {:induction false} TrimPadded(pre: string, s: string, post: string)
    requires AllBlank(pre) && AllBlank(post)
    requires s == [] || (!IsBlank(s[0]) && !IsBlank(s[|s| - 1]))
    ensures Trim(pre + s + post) == s
  {
    var w := pre + s + post;
    if s == [] {
      assert AllBlank(w) by {
        forall i | 0 <= i < |w| ensures IsBlank(w[i]) {
          if i < |pre| { assert w[i] == pre[i]; } else { assert w[i] == post[i - |pre|]; }
        }
      }
    } else {
      LeadOfPadded(pre, s + post);
      assert w == pre + (s + post);
      EndOfPadded(pre + s, post);
      assert w[|pre|..|pre| + |s|] == s;
    }
  }

  lemma {:induction false} LeadOfPadded(pre: string, rest: string)
    requires AllBlank(pre)
    requires rest != [] && !IsBlank(rest[0])
    ensures Lead(pre + rest) == |pre|
    decreases |pre|
  {
    var w := pre + rest;
    if pre == [] {
      assert w == rest;
    } else {
      assert w[1..] == pre[1..] + rest;
      LeadOfPadded(pre[1..], rest);
    }
  }

  lemma {:induction false} EndOfPadded(front: string, post: string)
    requires AllBlank(post)
    requires front != [] && !IsBlank(front[|front| - 1])
    ensures End(front + post) == |front|
    decreases |post|
  {
    var w := front + post;
    if post == [] {
      assert w == front;
    } else {
      assert w[..|w| - 1] == front + post[..|post| - 1];
      EndOfPadded(front, post[..|post| - 1]);
    }
  }

  /** ASCII `Character.toUpperCase`. */
  function UpperChar(c: char): char {
    if 'a' <= c <= 'z' then (c as int - 'a' as int + 'A' as int) as char else c
  }

  /** ASCII `Character.toLowerCase`. */
  function LowerChar(c: char): char {
    if 'A' <= c <= 'Z' then (c as int - 'A' as int + 'a' as int) as char else c
  }

  function ToUpper(s: string): (r: string)
    ensures |r| == |s|
    ensures forall i :: 0 <= i < |s| ==> r[i] == UpperChar(s[i])
  {
    seq(|s|, i requires 0 <= i < |s| => UpperChar(s[i]))
  }

  function ToLower(s: string): (r: string)
    ensures |r| == |s|
    ensures forall i :: 0 <= i < |s| ==> r[i] == LowerChar(s[i])
  {
    seq(|s|, i requires 0 <= i < |s| => LowerChar(s[i]))
  }

  /** Upper-casing ignores how a text was cased before: lower-cased or upper-cased input upper-cases alike. */
  lemma UpperIgnoresCase(s: string)
    ensures ToUpper(ToLower(s)) == ToUpper(s)
    ensures ToUpper(ToUpper(s)) == ToUpper(s)
  {
  }
}
