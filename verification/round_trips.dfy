/**
 * Round trips through the full-record builders: a command written as a caption followed by
 * each required tag with its rendered value, in declared order, builds exactly the record it
 * was written from. The layer below locates every tag of such a command: each tag is found
 * where it was written, because no tag ends with another of the same command and the rendered
 * values hold no slash.
 */
module RoundTrips {
  import opened Wrappers
  import opened Text
  import opened Numbers
  import opened Fields
  import opened Scalars
  import opened Records
  import Clock

  /** Neither empty nor opened or closed by a blank, so `trim` leaves it as it is. */
  predicate Unpadded(x: string) {
    x != [] && !IsBlank(x[0]) && !IsBlank(x[|x| - 1])
  }

  predicate Slashless(x: string) {
    forall i :: 0 <= i < |x| ==> x[i] != '/'
  }

  /** A value as a command carries it: unpadded and without a slash. */
  predicate Plain(x: string) {
    Unpadded(x) && Slashless(x)
  }

  /** The shape of every tag: it ends with its only slash and holds no space. */
  predicate TagLike(t: string) {
    && t != [] && t[|t| - 1] == '/'
    && (forall i :: 0 <= i < |t| - 1 ==> t[i] != '/')
    && ' ' !in t
  }

  /** `a` ends with `b`. */
  predicate EndsWith(a: string, b: string) {
    |b| <= |a| && a[|a| - |b|..] == b
  }

  /** No tag among `tags` ends with another one, so an occurrence of a tag belongs to one field. */
  predicate SuffixFree(tags: seq<string>) {
    forall a, b :: 0 <= a < |tags| && 0 <= b < |tags| && a != b ==> !EndsWith(tags[a], tags[b])
  }

  /** None of `tags` occurs in `x`. */
  ghost predicate Untagged(x: string, tags: seq<string>) {
    forall j :: 0 <= j < |tags| ==> !Occurs(x, tags[j])
  }

  /** The tags of `fs`, in order. */
  function TagsOf(fs: seq<Field>): (r: seq<string>)
    ensures |r| == |fs| && forall i :: 0 <= i < |fs| ==> r[i] == Tag(fs[i])
  {
    seq(|fs|, i requires 0 <= i < |fs| => Tag(fs[i]))
  }

  /** Each tag followed by its text, one space between consecutive fields. */
  function Joined(tags: seq<string>, texts: seq<string>): string
    requires |tags| == |texts| > 0
    decreases |tags|
  {
    tags[0] + texts[0] + (if |tags| == 1 then [] else " " + Joined(tags[1..], texts[1..]))
  }

  /** Where tag `j` begins in `Joined(tags, texts)`. */
  function StartOf(tags: seq<string>, texts: seq<string>, j: nat): nat
    requires |tags| == |texts| && j < |tags|
    decreases j
  {
    if j == 0 then 0 else |tags[0]| + |texts[0]| + 1 + StartOf(tags[1..], texts[1..], j - 1)
  }

  /** Every tag the parser searches for has the tag shape. */
  lemma TagShape(f: Field)
    ensures TagLike(Tag(f))
  {
  }

  /** A slice of the second part of a concatenation, located in the whole. */
  lemma SliceOfAppend(x: string, y: string, a: nat, b: nat)
    requires a <= b <= |y|
    ensures (x + y)[|x| + a..|x| + b] == y[a..b]
  {
  }

  /** The same, with the bounds in the whole named as `i` and `j`. */
  lemma SliceOfAppendAt(x: string, y: string, a: nat, b: nat, i: nat, j: nat)
    requires a <= b <= |y| && i == |x| + a && j == |x| + b
    ensures (x + y)[i..j] == y[a..b]
  {
    SliceOfAppend(x, y, a, b);
  }

  /** A command of several fields is its first field, a space, and the rest. */
  lemma JoinedUnfold(tags: seq<string>, texts: seq<string>)
    requires |tags| == |texts| > 1
    ensures Joined(tags, texts) == (tags[0] + texts[0] + " ") + Joined(tags[1..], texts[1..])
  {
  }

  /** Where the text of field `j` ends in `Joined(tags, texts)`. */
  function EndOf(tags: seq<string>, texts: seq<string>, j: nat): nat
    requires |tags| == |texts| && j < |tags|
  {
    StartOf(tags, texts, j) + |tags[j]| + |texts[j]|
  }

  /** Tag `j` of `Joined(tags, texts)` lies at `StartOf`. */
  lemma {:induction false} JoinedTag(tags: seq<string>, texts: seq<string>, j: nat)
    requires |tags| == |texts| > 0 && j < |tags|
    ensures EndOf(tags, texts, j) <= |Joined(tags, texts)|
    ensures Joined(tags, texts)[StartOf(tags, texts, j)..StartOf(tags, texts, j) + |tags[j]|]
              == tags[j]
    decreases j
  {
    var u := Joined(tags, texts);
    var head := tags[0] + texts[0];
    if |tags| == 1 {
      assert u == head;
    } else {
      var rest := Joined(tags[1..], texts[1..]);
      JoinedUnfold(tags, texts);
      if j == 0 {
        assert u[0..|tags[0]|] == tags[0];
      } else {
        assert tags[1..][j - 1] == tags[j] && texts[1..][j - 1] == texts[j];
        JoinedTag(tags[1..], texts[1..], j - 1);
        var p := StartOf(tags[1..], texts[1..], j - 1);
        SliceOfAppendAt(head + " ", rest, p, p + |tags[j]|,
                        StartOf(tags, texts, j), StartOf(tags, texts, j) + |tags[j]|);
      }
    }
  }

  /** The text of field `j` follows its tag and ends at `EndOf`. */
  lemma {:induction false} JoinedText(tags: seq<string>, texts: seq<string>, j: nat)
    requires |tags| == |texts| > 0 && j < |tags|
    ensures EndOf(tags, texts, j) <= |Joined(tags, texts)|
    ensures Joined(tags, texts)[StartOf(tags, texts, j) + |tags[j]|..EndOf(tags, texts, j)] == texts[j]
    decreases j
  {
    var u := Joined(tags, texts);
    var head := tags[0] + texts[0];
    if |tags| == 1 {
      assert u == head;
    } else {
      var rest := Joined(tags[1..], texts[1..]);
      JoinedUnfold(tags, texts);
      if j == 0 {
        assert u[|tags[0]|..|head|] == texts[0];
      } else {
        assert tags[1..][j - 1] == tags[j] && texts[1..][j - 1] == texts[j];
        JoinedText(tags[1..], texts[1..], j - 1);
        var p := StartOf(tags[1..], texts[1..], j - 1) + |tags[j]|;
        SliceOfAppendAt(head + " ", rest, p, p + |texts[j]|,
                        StartOf(tags, texts, j) + |tags[j]|, EndOf(tags, texts, j));
      }
    }
  }

  /** A single space separates each field from the next; the last one closes the command. */
  lemma {:induction false} JoinedGap(tags: seq<string>, texts: seq<string>, j: nat)
    requires |tags| == |texts| > 0 && j < |tags|
    ensures j + 1 < |tags| ==>
              && EndOf(tags, texts, j) < |Joined(tags, texts)|
              && Joined(tags, texts)[EndOf(tags, texts, j)] == ' '
              && StartOf(tags, texts, j + 1) == EndOf(tags, texts, j) + 1
    ensures j + 1 == |tags| ==> EndOf(tags, texts, j) == |Joined(tags, texts)|
    decreases j
  {
    var u := Joined(tags, texts);
    var head := tags[0] + texts[0];
    if |tags| == 1 {
      assert u == head;
    } else {
      var rest := Joined(tags[1..], texts[1..]);
      JoinedUnfold(tags, texts);
      if j == 0 {
        assert u[|head|] == ' ';
      } else {
        assert tags[1..][j - 1] == tags[j] && texts[1..][j - 1] == texts[j];
        JoinedGap(tags[1..], texts[1..], j - 1);
        var e := EndOf(tags[1..], texts[1..], j - 1);
        assert EndOf(tags, texts, j) == |head| + 1 + e;
        if j + 1 < |tags| {
          assert u[|head| + 1 + e] == rest[e];
        }
      }
    }
  }

  /**
   * Every occurrence in `Joined(tags, texts)` of a text that ends with a slash and holds no
   * space ends where some tag ends.
   */
  lemma {:induction false} JoinedUnique(tags: seq<string>, texts: seq<string>, t: string, k: nat)
      returns (j: nat)
    requires |tags| == |texts| > 0
    requires forall i :: 0 <= i < |tags| ==> TagLike(tags[i])
    requires forall i :: 0 <= i < |texts| ==> Plain(texts[i])
    requires TagLike(t)
    requires OccursAt(Joined(tags, texts), t, k)
    ensures j < |tags| && StartOf(tags, texts, j) <= k
    ensures k + |t| == StartOf(tags, texts, j) + |tags[j]|
    decreases |tags|
  {
    var u := Joined(tags, texts);
    var tag := tags[0];
    var head := tag + texts[0];
    assert TagLike(tag) && Plain(texts[0]);
    var e := k + |t| - 1;
    assert u[e] == '/' by {
      assert u[k..k + |t|][|t| - 1] == t[|t| - 1];
    }
    assert u[..|head|] == head;
    if e < |tag| {
      assert u[e] == tag[e];
      j := 0;
    } else if e >= |head| {
      var rest := Joined(tags[1..], texts[1..]);
      JoinedUnfold(tags, texts);
      assert u[|head|] == ' ';
      if k > |head| {
        var k' := k - |head| - 1;
        SliceOfAppendAt(head + " ", rest, k', k' + |t|, k, k + |t|);
        var j' := JoinedUnique(tags[1..], texts[1..], t, k');
        j := j' + 1;
      }
    }
  }

  /** A text that holds none of `tags` holds none once a space is appended. */
  lemma SpacedUntagged(c: string, tags: seq<string>)
    requires forall j :: 0 <= j < |tags| ==> TagLike(tags[j])
    requires Untagged(c, tags)
    ensures Untagged(c + " ", tags)
  {
    forall j, k | 0 <= j < |tags| && OccursAt(c + " ", tags[j], k) ensures false {
      var t := tags[j];
      assert TagLike(t);
      if k + |t| <= |c| {
        assert c[k..k + |t|] == (c + " ")[k..k + |t|];
        assert OccursAt(c, t, k);
      }
    }
  }

  /** An occurrence of a tag ending inside the prefix lies in the prefix. */
  lemma OccursInPrefix(p: string, u: string, t: string, r: nat)
    requires OccursAt(p + u, t, r) && r + |t| <= |p|
    ensures OccursAt(p, t, r)
  {
    assert p[r..r + |t|] == (p + u)[r..r + |t|];
  }

  /** An occurrence of a tag starting past the prefix is an occurrence in the rest. */
  lemma OccursInSuffix(p: string, u: string, t: string, r: nat)
    requires OccursAt(p + u, t, r) && |p| <= r
    ensures OccursAt(u, t, r - |p|)
  {
    assert (p + u)[r..r + |t|] == u[r - |p|..r - |p| + |t|];
  }

  /** No occurrence of a spaceless tag straddles the space that closes the prefix. */
  lemma NoStraddle(p: string, u: string, t: string, r: nat)
    requires p != [] && p[|p| - 1] == ' ' && TagLike(t)
    requires r < |p| < r + |t|
    ensures !OccursAt(p + u, t, r)
  {
    if r + |t| <= |p + u| {
      assert (p + u)[r..r + |t|][|p| - 1 - r] == p[|p| - 1];
    }
  }

  /**
   * An occurrence of tag `i` that starts in `Joined(tags, texts)` starts where tag `i` was
   * written, when no tag ends with another.
   */
  lemma OnlyWritten(tags: seq<string>, texts: seq<string>, i: nat, k: nat)
    requires |tags| == |texts| > 0 && i < |tags|
    requires forall j :: 0 <= j < |tags| ==> TagLike(tags[j])
    requires forall j :: 0 <= j < |texts| ==> Plain(texts[j])
    requires SuffixFree(tags)
    requires OccursAt(Joined(tags, texts), tags[i], k)
    ensures k == StartOf(tags, texts, i)
  {
    var u := Joined(tags, texts);
    var t := tags[i];
    var j := JoinedUnique(tags, texts, t, k);
    JoinedTag(tags, texts, j);
    var tj := tags[j];
    var sj := StartOf(tags, texts, j);
    assert tj[|tj| - |t|..] == u[k..k + |t|] by {
      assert u[sj..sj + |tj|][|tj| - |t|..] == u[sj + |tj| - |t|..sj + |tj|];
    }
    assert EndsWith(tj, t);
  }

  /** Before the place tag `i` was written, no occurrence of it starts. */
  lemma NoneEarlier(p: string, tags: seq<string>, texts: seq<string>, i: nat, r: nat)
    requires |tags| == |texts| > 0 && i < |tags|
    requires forall j :: 0 <= j < |tags| ==> TagLike(tags[j])
    requires forall j :: 0 <= j < |texts| ==> Plain(texts[j])
    requires SuffixFree(tags)
    requires p == [] || p[|p| - 1] == ' '
    requires !Occurs(p, tags[i])
    requires r < |p| + StartOf(tags, texts, i)
    ensures !OccursAt(p + Joined(tags, texts), tags[i], r)
  {
    var u := Joined(tags, texts);
    var t := tags[i];
    if OccursAt(p + u, t, r) {
      if r + |t| <= |p| {
        OccursInPrefix(p, u, t, r);
      } else if r < |p| {
        assert TagLike(t);
        NoStraddle(p, u, t, r);
      } else {
        OccursInSuffix(p, u, t, r);
        OnlyWritten(tags, texts, i, r - |p|);
      }
    }
  }

  /** Tag `i` occurs where it was written. */
  lemma WrittenOccurs(p: string, tags: seq<string>, texts: seq<string>, i: nat)
    requires |tags| == |texts| > 0 && i < |tags|
    ensures OccursAt(p + Joined(tags, texts), tags[i], |p| + StartOf(tags, texts, i))
  {
    var start := StartOf(tags, texts, i);
    JoinedTag(tags, texts, i);
    SliceOfAppendAt(p, Joined(tags, texts), start, start + |tags[i]|, |p| + start, |p| + start + |tags[i]|);
  }

  /**
   * After a prefix that holds no tag and ends with a space, the first occurrence of each tag of
   * a suffix-free command is the one written for it.
   */
  lemma FirstFound(p: string, tags: seq<string>, texts: seq<string>, i: nat)
    requires |tags| == |texts| > 0 && i < |tags|
    requires forall j :: 0 <= j < |tags| ==> TagLike(tags[j])
    requires forall j :: 0 <= j < |texts| ==> Plain(texts[j])
    requires SuffixFree(tags)
    requires p == [] || p[|p| - 1] == ' '
    requires Untagged(p, tags)
    ensures IndexOf(p + Joined(tags, texts), tags[i]) == |p| + StartOf(tags, texts, i)
  {
    var u := Joined(tags, texts);
    var t := tags[i];
    var start := StartOf(tags, texts, i);
    WrittenOccurs(p, tags, texts, i);
    var r := IndexOf(p + u, t);
    if r < |p| + start {
      NoneEarlier(p, tags, texts, i, r);
    }
  }

  /** The premises under which the builders read back a command `p + Joined(TagsOf(fs), texts)`. */
  ghost predicate Readable(p: string, fs: seq<Field>, texts: seq<string>) {
    && |fs| == |texts| > 0
    && (forall j :: 0 <= j < |texts| ==> Plain(texts[j]))
    && SuffixFree(TagsOf(fs))
    && (p == [] || p[|p| - 1] == ' ')
    && Untagged(p, TagsOf(fs))
  }

  /** Each tag of a readable command is first found where it was written. */
  lemma TagsPlaced(p: string, fs: seq<Field>, texts: seq<string>, i: nat)
    requires Readable(p, fs, texts) && i < |fs|
    ensures TagIndex(p + Joined(TagsOf(fs), texts), fs[i]) == |p| + StartOf(TagsOf(fs), texts, i)
  {
    var tags := TagsOf(fs);
    forall j | 0 <= j < |fs| ensures TagLike(tags[j]) {
      TagShape(fs[j]);
    }
    FirstFound(p, tags, texts, i);
  }

  /** The tags of a readable command are in order. */
  lemma PlacedInOrder(p: string, fs: seq<Field>, texts: seq<string>)
    requires Readable(p, fs, texts)
    ensures TagsInOrder(p + Joined(TagsOf(fs), texts), fs)
    ensures forall j :: 0 <= j < |fs| ==>
              Indices(p + Joined(TagsOf(fs), texts), fs)[j] == |p| + StartOf(TagsOf(fs), texts, j)
  {
    var tags := TagsOf(fs);
    var s := p + Joined(tags, texts);
    var idx := Indices(s, fs);
    forall i | 0 <= i < |fs| ensures idx[i] == |p| + StartOf(tags, texts, i) {
      TagsPlaced(p, fs, texts, i);
    }
    forall j | 0 <= j < |fs| - 1 ensures Precedes(fs, idx, j) {
      JoinedGap(tags, texts, j);
    }
  }

  /** Between a tag and the next lies the text written for the field, then one space. */
  lemma TextBefore(p: string, tags: seq<string>, texts: seq<string>, i: nat, s: string, a: nat, b: nat)
    requires |tags| == |texts| > 0 && i + 1 < |tags|
    requires s == p + Joined(tags, texts) && a == |p| + StartOf(tags, texts, i) + |tags[i]|
    requires b == |p| + StartOf(tags, texts, i + 1)
    ensures a <= b <= |s| && b == a + |texts[i]| + 1
    ensures s[a..b] == texts[i] + " "
  {
    var u := Joined(tags, texts);
    JoinedText(tags, texts, i);
    JoinedGap(tags, texts, i);
    var c := StartOf(tags, texts, i) + |tags[i]|;
    var d := EndOf(tags, texts, i) + 1;
    SliceOfAppendAt(p, u, c, d, a, b);
    assert u[c..d] == texts[i] + " " by {
      assert u[c..d - 1] == texts[i];
    }
  }

  /** After the last tag lies the text of the last field, up to the end of the command. */
  lemma TextLast(p: string, tags: seq<string>, texts: seq<string>, i: nat, s: string, a: nat, b: nat)
    requires |tags| == |texts| && i + 1 == |tags|
    requires s == p + Joined(tags, texts) && a == |p| + StartOf(tags, texts, i) + |tags[i]|
    requires b == |s|
    ensures a <= b && s[a..b] == texts[i]
  {
    var u := Joined(tags, texts);
    JoinedText(tags, texts, i);
    JoinedGap(tags, texts, i);
    var c := StartOf(tags, texts, i) + |tags[i]|;
    SliceOfAppendAt(p, u, c, EndOf(tags, texts, i), a, b);
  }

  /** A plain text followed by a space trims to itself. */
  lemma TrimSpaced(x: string)
    requires Unpadded(x)
    ensures Trim(x + " ") == x
  {
    assert x + " " == [] + x + " ";
    TrimPadded([], x, " ");
  }

  /** Within bounds, a field's text is the trimmed text between its tag and where it ends. */
  lemma FieldSlice(s: string, fs: seq<Field>, i: nat, a: nat, b: nat)
    requires i < |fs| && TagsInOrder(s, fs)
    requires a == Indices(s, fs)[i] + |Tag(fs[i])| && b == FieldEnd(s, Indices(s, fs), i)
    requires a <= b <= |s|
    ensures FieldText(s, fs, i) == Trim(s[a..b])
  {
  }

  /** A field that ends where the next tag starts reads as the trimmed text in between. */
  lemma MiddleRead(s: string, fs: seq<Field>, i: nat, x: string, a: nat, b: nat)
    requires i + 1 < |fs|
    requires TagsInOrder(s, fs)
    requires Indices(s, fs)[i] + |Tag(fs[i])| == a
    requires a <= b <= |s| && b == Indices(s, fs)[i + 1]
    requires Trim(s[a..b]) == x
    ensures FieldText(s, fs, i) == x
  {
    FieldSlice(s, fs, i, a, b);
  }

  /** The last field reads as the trimmed text up to the end of the command. */
  lemma LastRead(s: string, fs: seq<Field>, i: nat, x: string, a: nat, b: nat)
    requires i + 1 == |fs|
    requires TagsInOrder(s, fs)
    requires Indices(s, fs)[i] + |Tag(fs[i])| == a
    requires a <= b == |s|
    requires Trim(s[a..b]) == x
    ensures FieldText(s, fs, i) == x
  {
    FieldSlice(s, fs, i, a, b);
  }

  /** A field followed by a space and the next tag reads as the text written for it. */
  lemma MiddleWritten(s: string, fs: seq<Field>, i: nat, x: string, a: nat, b: nat)
    requires i + 1 < |fs| && TagsInOrder(s, fs)
    requires Indices(s, fs)[i] + |Tag(fs[i])| == a && b == Indices(s, fs)[i + 1]
    requires a <= b <= |s| && s[a..b] == x + " " && Unpadded(x)
    ensures FieldText(s, fs, i) == x
  {
    TrimSpaced(x);
    MiddleRead(s, fs, i, x, a, b);
  }

  /** The last field, written up to the end of the command, reads as the text written for it. */
  lemma LastWritten(s: string, fs: seq<Field>, i: nat, x: string, a: nat)
    requires i + 1 == |fs| && TagsInOrder(s, fs)
    requires Indices(s, fs)[i] + |Tag(fs[i])| == a
    requires a <= |s| && s[a..|s|] == x && Unpadded(x)
    ensures FieldText(s, fs, i) == x
  {
    TrimOfUnpadded(x);
    LastRead(s, fs, i, x, a, |s|);
  }

  /** Each field of a readable command reads as the text written for it. */
  lemma FieldWritten(p: string, fs: seq<Field>, texts: seq<string>, i: nat, s: string)
    requires |fs| == |texts| && i < |fs| && Unpadded(texts[i])
    requires s == p + Joined(TagsOf(fs), texts) && TagsInOrder(s, fs)
    requires Indices(s, fs)[i] == |p| + StartOf(TagsOf(fs), texts, i)
    requires i + 1 < |fs| ==> Indices(s, fs)[i + 1] == |p| + StartOf(TagsOf(fs), texts, i + 1)
    ensures FieldText(s, fs, i) == texts[i]
  {
    var tags := TagsOf(fs);
    var a := |p| + StartOf(tags, texts, i) + |tags[i]|;
    if i + 1 < |fs| {
      var b := |p| + StartOf(tags, texts, i + 1);
      TextBefore(p, tags, texts, i, s, a, b);
      MiddleWritten(s, fs, i, texts[i], a, b);
    } else {
      TextLast(p, tags, texts, i, s, a, |s|);
      LastWritten(s, fs, i, texts[i], a);
    }
  }

  /**
   * The builders' reading of a readable command: every tag in order, each field's text exactly
   * the one written, and the caption the trimmed prefix.
   */
  lemma ComposedTexts(p: string, fs: seq<Field>, texts: seq<string>)
    requires Readable(p, fs, texts)
    ensures TagsInOrder(p + Joined(TagsOf(fs), texts), fs)
    ensures FieldTexts(p + Joined(TagsOf(fs), texts), fs) == texts
    ensures CaptionText(p + Joined(TagsOf(fs), texts), fs) == Trim(p)
  {
    var s := p + Joined(TagsOf(fs), texts);
    PlacedInOrder(p, fs, texts);
    forall i | 0 <= i < |fs| ensures FieldText(s, fs, i) == texts[i] {
      FieldWritten(p, fs, texts, i, s);
    }
    assert s[..|p|] == p;
  }

  /** The rendered values a command carries are plain. */
  lemma PlainTime(t: Clock.Time)
    requires Clock.ValidTime(t)
    ensures Plain(Clock.FormatTime(t))
  {
  }

  lemma PlainDateTime(d: Clock.DateTime)
    requires Clock.FitsFormat(d)
    ensures Plain(Clock.FormatDateTime(d))
  {
  }

  lemma PlainNumeral(n: int)
    ensures Plain(IntToString(n))
  {
  }

  lemma PlainStyle(style: SwimmingStyle)
    ensures Plain(SwimmingStyleName(style))
  {
  }

  lemma PlainSport(sport: Sport)
    ensures Plain(SportName(sport))
  {
  }

  lemma PlainGoalType(goal: GoalType)
    ensures Plain(GoalTypeName(goal))
  {
  }

  lemma PlainSpan(span: TimeSpan)
    ensures Plain(TimeSpanName(span))
  {
  }

  /** Two strings that differ at the `d`-th character from the end; neither ends with the other. */
  lemma Apart(x: string, y: string, d: nat)
    requires d < |x| && d < |y| && x[|x| - 1 - d] != y[|y| - 1 - d]
    ensures !EndsWith(x, y) && !EndsWith(y, x)
  {
    if |y| <= |x| {
      assert x[|x| - |y|..][|y| - 1 - d] == x[|x| - 1 - d];
    }
    if |x| <= |y| {
      assert y[|y| - |x|..][|x| - 1 - d] == y[|y| - 1 - d];
    }
  }

  /** Three tags none of which ends with another. */
  lemma SuffixFree3(x: string, y: string, z: string)
    requires !EndsWith(x, y) && !EndsWith(y, x)
    requires !EndsWith(x, z) && !EndsWith(z, x)
    requires !EndsWith(y, z) && !EndsWith(z, y)
    ensures SuffixFree([x, y, z])
  {
  }

  /** Four tags none of which ends with another. */
  lemma SuffixFree4(w: string, x: string, y: string, z: string)
    requires SuffixFree([w, x, y])
    requires !EndsWith(w, z) && !EndsWith(z, w)
    requires !EndsWith(x, z) && !EndsWith(z, x)
    requires !EndsWith(y, z) && !EndsWith(z, y)
    ensures SuffixFree([w, x, y, z])
  {
    var t := [w, x, y, z];
    forall a, b | 0 <= a < 4 && 0 <= b < 4 && a != b ensures !EndsWith(t[a], t[b]) {
      if a < 3 && b < 3 {
        assert t[a] == [w, x, y][a] && t[b] == [w, x, y][b];
      }
    }
  }

  /** No tag of an activity command ends with another. */
  lemma ActivityTagsApart()
    ensures SuffixFree([DURATION_SEPARATOR, DISTANCE_SEPARATOR, DATETIME_SEPARATOR])
  {
    Apart(DURATION_SEPARATOR, DISTANCE_SEPARATOR, 1);
    Apart(DURATION_SEPARATOR, DATETIME_SEPARATOR, 1);
    Apart(DISTANCE_SEPARATOR, DATETIME_SEPARATOR, 2);
    SuffixFree3(DURATION_SEPARATOR, DISTANCE_SEPARATOR, DATETIME_SEPARATOR);
  }

  /** No tag of a run or cycle command ends with another. */
  lemma RunCycleTagsApart()
    ensures SuffixFree([DURATION_SEPARATOR, DISTANCE_SEPARATOR, DATETIME_SEPARATOR, ELEVATION_SEPARATOR])
  {
    ActivityTagsApart();
    Apart(DURATION_SEPARATOR, ELEVATION_SEPARATOR, 6);
    Apart(DISTANCE_SEPARATOR, ELEVATION_SEPARATOR, 1);
    Apart(DATETIME_SEPARATOR, ELEVATION_SEPARATOR, 1);
    SuffixFree4(DURATION_SEPARATOR, DISTANCE_SEPARATOR, DATETIME_SEPARATOR, ELEVATION_SEPARATOR);
  }

  /** No tag of a swim command ends with another. */
  lemma SwimTagsApart()
    ensures SuffixFree([DURATION_SEPARATOR, DISTANCE_SEPARATOR, DATETIME_SEPARATOR, SWIMMING_STYLE_SEPARATOR])
  {
    ActivityTagsApart();
    Apart(DURATION_SEPARATOR, SWIMMING_STYLE_SEPARATOR, 1);
    Apart(DISTANCE_SEPARATOR, SWIMMING_STYLE_SEPARATOR, 2);
    Apart(DATETIME_SEPARATOR, SWIMMING_STYLE_SEPARATOR, 2);
    SuffixFree4(DURATION_SEPARATOR, DISTANCE_SEPARATOR, DATETIME_SEPARATOR, SWIMMING_STYLE_SEPARATOR);
  }

  /** No tag of an activity-goal command ends with another. */
  lemma GoalTagsApart()
    ensures SuffixFree([SPORT_SEPARATOR, TYPE_SEPARATOR, PERIOD_SEPARATOR, TARGET_SEPARATOR])
  {
    Apart(SPORT_SEPARATOR, TYPE_SEPARATOR, 1);
    Apart(SPORT_SEPARATOR, PERIOD_SEPARATOR, 1);
    Apart(TYPE_SEPARATOR, PERIOD_SEPARATOR, 1);
    SuffixFree3(SPORT_SEPARATOR, TYPE_SEPARATOR, PERIOD_SEPARATOR);
    Apart(SPORT_SEPARATOR, TARGET_SEPARATOR, 2);
    Apart(TYPE_SEPARATOR, TARGET_SEPARATOR, 1);
    Apart(PERIOD_SEPARATOR, TARGET_SEPARATOR, 1);
    SuffixFree4(SPORT_SEPARATOR, TYPE_SEPARATOR, PERIOD_SEPARATOR, TARGET_SEPARATOR);
  }

  /** Three fields joined are their tags and texts, spaced. */
  lemma Joined3(tags: seq<string>, texts: seq<string>)
    requires |tags| == |texts| == 3
    ensures Joined(tags, texts)
              == tags[0] + texts[0] + " " + tags[1] + texts[1] + " " + tags[2] + texts[2]
  {
    JoinedUnfold(tags, texts);
    JoinedUnfold(tags[1..], texts[1..]);
    assert Joined(tags[2..], texts[2..]) == tags[2] + texts[2];
  }

  /** Four fields joined are their tags and texts, spaced. */
  lemma Joined4(tags: seq<string>, texts: seq<string>)
    requires |tags| == |texts| == 4
    ensures Joined(tags, texts)
              == tags[0] + texts[0] + " " + tags[1] + texts[1] + " " + tags[2] + texts[2]
                 + " " + tags[3] + texts[3]
  {
    var rest := tags[1] + texts[1] + " " + tags[2] + texts[2] + " " + tags[3] + texts[3];
    JoinedUnfold(tags, texts);
    Joined3(tags[1..], texts[1..]);
    assert Joined(tags[1..], texts[1..]) == rest by {
      assert tags[1..][0] == tags[1] && tags[1..][1] == tags[2] && tags[1..][2] == tags[3];
      assert texts[1..][0] == texts[1] && texts[1..][1] == texts[2] && texts[1..][2] == texts[3];
    }
    AppendAssoc(tags[0] + texts[0] + " ", tags[1] + texts[1] + " " + tags[2] + texts[2] + " " + tags[3], texts[3]);
  }

  /** Concatenation is associative. */
  lemma AppendAssoc(a: string, b: string, c: string)
    ensures a + (b + c) == a + b + c
  {
  }

  /**
   * A command written as a caption, a space and the required tags with their texts reads back
   * exactly: the tags are in order, every text is the one written and the caption is the one
   * written, when the caption holds none of the tags, no tag ends with another and the texts
   * are plain.
   */
  lemma WrittenCommand(c: string, fs: seq<Field>, texts: seq<string>)
    requires |fs| == |texts| > 0
    requires Unpadded(c) && Untagged(c, TagsOf(fs))
    requires SuffixFree(TagsOf(fs))
    requires forall j :: 0 <= j < |texts| ==> Plain(texts[j])
    ensures TextsPresent(c + " " + Joined(TagsOf(fs), texts), fs)
    ensures CaptionText(c + " " + Joined(TagsOf(fs), texts), fs) == c
    ensures FieldTexts(c + " " + Joined(TagsOf(fs), texts), fs) == texts
  {
    var tags := TagsOf(fs);
    forall j | 0 <= j < |tags| ensures TagLike(tags[j]) {
      TagShape(fs[j]);
    }
    SpacedUntagged(c, tags);
    ComposedTexts(c + " ", fs, texts);
    TrimSpaced(c);
    var s := c + " " + Joined(tags, texts);
    assert FieldTexts(s, fs) == texts;
    forall i | 0 <= i < |fs| ensures FieldText(s, fs, i) != [] {
      assert FieldText(s, fs, i) == FieldTexts(s, fs)[i];
    }
  }

  /** The same without a caption: the command starts with its first tag. */
  lemma WrittenFields(fs: seq<Field>, texts: seq<string>, s: string)
    requires |fs| == |texts| > 0 && s == Joined(TagsOf(fs), texts)
    requires SuffixFree(TagsOf(fs))
    requires forall j :: 0 <= j < |texts| ==> Plain(texts[j])
    ensures TagsInOrder(s, fs) && FieldTexts(s, fs) == texts
  {
    var tags := TagsOf(fs);
    assert Untagged([], tags) by {
      forall j | 0 <= j < |tags| ensures !Occurs([], tags[j]) {
        TagShape(fs[j]);
      }
    }
    assert Readable([], fs, texts);
    ComposedTexts([], fs, texts);
    assert [] + Joined(tags, texts) == s;
  }

  /** A caption that holds none of the tags of `fs`, as the layer below states it. */
  lemma CaptionUntagged(c: string, fs: seq<Field>)
    requires forall f :: f in fs ==> !Occurs(c, Tag(f))
    ensures Untagged(c, TagsOf(fs))
  {
    forall j | 0 <= j < |fs| ensures !Occurs(c, TagsOf(fs)[j]) {
      assert fs[j] in fs;
    }
  }

  /** A caption and three fields, spelled out, are the caption, a space and the fields joined. */
  lemma Spelled3(c: string, tags: seq<string>, texts: seq<string>, s: string)
    requires |tags| == |texts| == 3
    requires s == c + " " + tags[0] + texts[0] + " " + tags[1] + texts[1] + " " + tags[2] + texts[2]
    ensures s == c + " " + Joined(tags, texts)
  {
    Joined3(tags, texts);
  }

  /** The same for four fields. */
  lemma Spelled4(c: string, tags: seq<string>, texts: seq<string>, s: string)
    requires |tags| == |texts| == 4
    requires s == c + " " + tags[0] + texts[0] + " " + tags[1] + texts[1] + " " + tags[2] + texts[2]
                  + " " + tags[3] + texts[3]
    ensures s == c + " " + Joined(tags, texts)
  {
    Joined4(tags, texts);
  }

  /**
   * A command written as a caption and fields reads back its caption and each text, field by
   * field.
   */
  lemma WrittenCommand3(c: string, fs: seq<Field>, texts: seq<string>, s: string)
    requires |fs| == |texts| == 3 && s == c + " " + Joined(TagsOf(fs), texts)
    requires Unpadded(c) && Untagged(c, TagsOf(fs)) && SuffixFree(TagsOf(fs))
    requires forall j :: 0 <= j < |texts| ==> Plain(texts[j])
    ensures TextsPresent(s, fs) && CaptionText(s, fs) == c
    ensures FieldText(s, fs, 0) == texts[0] && FieldText(s, fs, 1) == texts[1]
    ensures FieldText(s, fs, 2) == texts[2]
  {
    WrittenCommand(c, fs, texts);
    FieldsOf3(s, fs, texts);
  }

  /** The same for four fields. */
  lemma WrittenCommand4(c: string, fs: seq<Field>, texts: seq<string>, s: string)
    requires |fs| == |texts| == 4 && s == c + " " + Joined(TagsOf(fs), texts)
    requires Unpadded(c) && Untagged(c, TagsOf(fs)) && SuffixFree(TagsOf(fs))
    requires forall j :: 0 <= j < |texts| ==> Plain(texts[j])
    ensures TextsPresent(s, fs) && CaptionText(s, fs) == c
    ensures FieldText(s, fs, 0) == texts[0] && FieldText(s, fs, 1) == texts[1]
    ensures FieldText(s, fs, 2) == texts[2] && FieldText(s, fs, 3) == texts[3]
  {
    WrittenCommand(c, fs, texts);
    FieldsOf4(s, fs, texts);
  }

  /** The tags of the activity layouts, spelled out. */
  lemma ActivityTagsSpelled()
    ensures TagsOf(ACTIVITY_TAGS) == [DURATION_SEPARATOR, DISTANCE_SEPARATOR, DATETIME_SEPARATOR]
    ensures TagsOf(RUN_CYCLE_TAGS)
              == [DURATION_SEPARATOR, DISTANCE_SEPARATOR, DATETIME_SEPARATOR, ELEVATION_SEPARATOR]
    ensures TagsOf(SWIM_TAGS)
              == [DURATION_SEPARATOR, DISTANCE_SEPARATOR, DATETIME_SEPARATOR, SWIMMING_STYLE_SEPARATOR]
    ensures TagsOf(GOAL_TAGS) == [SPORT_SEPARATOR, TYPE_SEPARATOR, PERIOD_SEPARATOR, TARGET_SEPARATOR]
  {
  }

  /**
   * `parseActivity` reads back the activity it is written from: a caption that is neither
   * empty nor padded and holds none of the tags, then each tag with its value as the user
   * would type it.
   */
  lemma ActivityRoundTrip(c: string, t: Clock.Time, n: int, d: Clock.DateTime)
    requires Unpadded(c) && forall f :: f in ACTIVITY_TAGS ==> !Occurs(c, Tag(f))
    requires Clock.ValidTime(t) && 0 <= n <= INT_MAX && Clock.ValidDateTime(d)
    ensures ParseActivity(c + " " + DURATION_SEPARATOR + Clock.FormatTime(t)
                          + " " + DISTANCE_SEPARATOR + IntToString(n)
                          + " " + DATETIME_SEPARATOR + Clock.FormatDateTime(d))
            == Success(Activity(c, t, n, d))
  {
    var texts := [Clock.FormatTime(t), IntToString(n), Clock.FormatDateTime(d)];
    var s := c + " " + DURATION_SEPARATOR + Clock.FormatTime(t)
             + " " + DISTANCE_SEPARATOR + IntToString(n)
             + " " + DATETIME_SEPARATOR + Clock.FormatDateTime(d);
    ActivityTagsSpelled();
    ActivityTagsApart();
    Spelled3(c, TagsOf(ACTIVITY_TAGS), texts, s);
    CaptionUntagged(c, ACTIVITY_TAGS);
    ActivityValues(t, n, d, texts);
    WrittenCommand3(c, ACTIVITY_TAGS, texts, s);
    ActivityRead(s, c, t, n, d);
  }

  /** Once the texts of an activity command read as given values, `parseActivity` builds it. */
  lemma ActivityRead(s: string, c: string, t: Clock.Time, n: int, d: Clock.DateTime)
    requires TextsPresent(s, ACTIVITY_TAGS) && CaptionText(s, ACTIVITY_TAGS) == c
    requires ParseDuration(FieldText(s, ACTIVITY_TAGS, 0)) == Success(t)
    requires ParseDistance(FieldText(s, ACTIVITY_TAGS, 1)) == Success(n)
    requires ParseDateTime(FieldText(s, ACTIVITY_TAGS, 2)) == Success(d)
    ensures ParseActivity(s) == Success(Activity(c, t, n, d))
  {
  }

  /** The values of an activity, rendered, are plain and read back as themselves. */
  lemma ActivityValues(t: Clock.Time, n: int, d: Clock.DateTime, texts: seq<string>)
    requires Clock.ValidTime(t) && 0 <= n <= INT_MAX && Clock.ValidDateTime(d)
    requires texts == [Clock.FormatTime(t), IntToString(n), Clock.FormatDateTime(d)]
    ensures forall j :: 0 <= j < |texts| ==> Plain(texts[j])
    ensures ParseDuration(texts[0]) == Success(t)
    ensures ParseDistance(texts[1]) == Success(n)
    ensures ParseDateTime(texts[2]) == Success(d)
  {
    PlainTime(t);
    PlainNumeral(n);
    PlainDateTime(d);
    Clock.TimeRoundTrip(t);
    ParseIntRoundTrip(n);
    Clock.DateTimeRoundTrip(d);
  }

  /** Field texts of three fields, one by one. */
  lemma FieldsOf3(s: string, fs: seq<Field>, texts: seq<string>)
    requires |fs| == 3 && TagsInOrder(s, fs) && FieldTexts(s, fs) == texts
    ensures FieldText(s, fs, 0) == texts[0] && FieldText(s, fs, 1) == texts[1]
    ensures FieldText(s, fs, 2) == texts[2]
  {
  }

  /** Field texts of four fields, one by one. */
  lemma FieldsOf4(s: string, fs: seq<Field>, texts: seq<string>)
    requires |fs| == 4 && TagsInOrder(s, fs) && FieldTexts(s, fs) == texts
    ensures FieldText(s, fs, 0) == texts[0] && FieldText(s, fs, 1) == texts[1]
    ensures FieldText(s, fs, 2) == texts[2] && FieldText(s, fs, 3) == texts[3]
  {
  }

  /**
   * `parseRunCycle` reads back the run or cycle it is written from, the elevation being any
   * `int`, negative ones included.
   */
  lemma RunCycleRoundTrip(c: string, t: Clock.Time, n: int, d: Clock.DateTime, e: int, isRun: bool)
    requires Unpadded(c) && forall f :: f in RUN_CYCLE_TAGS ==> !Occurs(c, Tag(f))
    requires Clock.ValidTime(t) && 0 <= n <= INT_MAX && Clock.ValidDateTime(d) && InIntRange(e)
    ensures ParseRunCycle(c + " " + DURATION_SEPARATOR + Clock.FormatTime(t)
                          + " " + DISTANCE_SEPARATOR + IntToString(n)
                          + " " + DATETIME_SEPARATOR + Clock.FormatDateTime(d)
                          + " " + ELEVATION_SEPARATOR + IntToString(e), isRun)
            == Success(if isRun then Run(c, t, n, d, e) else Cycle(c, t, n, d, e))
  {
    var texts := [Clock.FormatTime(t), IntToString(n), Clock.FormatDateTime(d), IntToString(e)];
    var s := c + " " + DURATION_SEPARATOR + Clock.FormatTime(t)
             + " " + DISTANCE_SEPARATOR + IntToString(n)
             + " " + DATETIME_SEPARATOR + Clock.FormatDateTime(d)
             + " " + ELEVATION_SEPARATOR + IntToString(e);
    ActivityTagsSpelled();
    RunCycleTagsApart();
    Spelled4(c, TagsOf(RUN_CYCLE_TAGS), texts, s);
    CaptionUntagged(c, RUN_CYCLE_TAGS);
    ActivityValues(t, n, d, texts[..3]);
    PlainNumeral(e);
    ParseIntRoundTrip(e);
    WrittenCommand4(c, RUN_CYCLE_TAGS, texts, s);
    RunCycleRead(s, isRun, c, t, n, d, e);
  }

  /** Once the texts of a run or cycle command read as given values, `parseRunCycle` builds it. */
  lemma RunCycleRead(s: string, isRun: bool, c: string, t: Clock.Time, n: int, d: Clock.DateTime, e: int)
    requires TextsPresent(s, RUN_CYCLE_TAGS) && CaptionText(s, RUN_CYCLE_TAGS) == c
    requires ParseDuration(FieldText(s, RUN_CYCLE_TAGS, 0)) == Success(t)
    requires ParseDistance(FieldText(s, RUN_CYCLE_TAGS, 1)) == Success(n)
    requires ParseDateTime(FieldText(s, RUN_CYCLE_TAGS, 2)) == Success(d)
    requires ParseElevation(FieldText(s, RUN_CYCLE_TAGS, 3)) == Success(e)
    ensures ParseRunCycle(s, isRun) == Success(if isRun then Run(c, t, n, d, e) else Cycle(c, t, n, d, e))
  {
  }

  /** `parseSwim` reads back the swim it is written from, its style given by name. */
  lemma SwimRoundTrip(c: string, t: Clock.Time, n: int, d: Clock.DateTime, style: SwimmingStyle)
    requires Unpadded(c) && forall f :: f in SWIM_TAGS ==> !Occurs(c, Tag(f))
    requires Clock.ValidTime(t) && 0 <= n <= INT_MAX && Clock.ValidDateTime(d)
    ensures ParseSwim(c + " " + DURATION_SEPARATOR + Clock.FormatTime(t)
                      + " " + DISTANCE_SEPARATOR + IntToString(n)
                      + " " + DATETIME_SEPARATOR + Clock.FormatDateTime(d)
                      + " " + SWIMMING_STYLE_SEPARATOR + SwimmingStyleName(style))
            == Success(Swim(c, t, n, d, style))
  {
    var texts := [Clock.FormatTime(t), IntToString(n), Clock.FormatDateTime(d), SwimmingStyleName(style)];
    var s := c + " " + DURATION_SEPARATOR + Clock.FormatTime(t)
             + " " + DISTANCE_SEPARATOR + IntToString(n)
             + " " + DATETIME_SEPARATOR + Clock.FormatDateTime(d)
             + " " + SWIMMING_STYLE_SEPARATOR + SwimmingStyleName(style);
    ActivityTagsSpelled();
    SwimTagsApart();
    Spelled4(c, TagsOf(SWIM_TAGS), texts, s);
    CaptionUntagged(c, SWIM_TAGS);
    ActivityValues(t, n, d, texts[..3]);
    PlainStyle(style);
    SwimmingStyleIgnoresCase(style);
    WrittenCommand4(c, SWIM_TAGS, texts, s);
    SwimRead(s, c, t, n, d, style);
  }

  /** Once the texts of a swim command read as given values, `parseSwim` builds their swim. */
  lemma SwimRead(s: string, c: string, t: Clock.Time, n: int, d: Clock.DateTime, style: SwimmingStyle)
    requires TextsPresent(s, SWIM_TAGS) && CaptionText(s, SWIM_TAGS) == c
    requires ParseDuration(FieldText(s, SWIM_TAGS, 0)) == Success(t)
    requires ParseDistance(FieldText(s, SWIM_TAGS, 1)) == Success(n)
    requires ParseDateTime(FieldText(s, SWIM_TAGS, 2)) == Success(d)
    requires ParseSwimmingStyle(FieldText(s, SWIM_TAGS, 3)) == Success(style)
    ensures ParseSwim(s) == Success(Swim(c, t, n, d, style))
  {
  }

  /** A command of four fields without a caption reads back each text, field by field. */
  lemma WrittenFields4(fs: seq<Field>, texts: seq<string>, s: string)
    requires |fs| == |texts| == 4 && s == Joined(TagsOf(fs), texts)
    requires SuffixFree(TagsOf(fs))
    requires forall j :: 0 <= j < |texts| ==> Plain(texts[j])
    ensures TagsInOrder(s, fs)
    ensures FieldText(s, fs, 0) == texts[0] && FieldText(s, fs, 1) == texts[1]
    ensures FieldText(s, fs, 2) == texts[2] && FieldText(s, fs, 3) == texts[3]
  {
    WrittenFields(fs, texts, s);
    FieldsOf4(s, fs, texts);
  }

  /** The values of a goal, rendered, are plain and read back as themselves. */
  lemma GoalValues(sport: Sport, goal: GoalType, span: TimeSpan, n: int, texts: seq<string>)
    requires 0 <= n <= INT_MAX
    requires texts == [SportName(sport), GoalTypeName(goal), TimeSpanName(span), IntToString(n)]
    ensures forall j :: 0 <= j < |texts| ==> Plain(texts[j])
    ensures ParseSport(texts[0]) == Success(sport)
    ensures ParseGoalType(texts[1]) == Success(goal)
    ensures ParsePeriod(texts[2]) == Success(span)
    ensures ParseTarget(texts[3]) == Success(n)
  {
    PlainSport(sport);
    PlainGoalType(goal);
    PlainSpan(span);
    PlainNumeral(n);
    SportIgnoresCase(sport);
    GoalTypeIgnoresCase(goal);
    PeriodIgnoresCase(span);
    ParseIntRoundTrip(n);
  }

  /**
   * `parseActivityGoal` reads back the goal it is written from, in either revision of its
   * presence check: the tags with the names of the sport, type and period and the target.
   */
  lemma GoalRoundTrip(rev: Revision, sport: Sport, goal: GoalType, span: TimeSpan, n: int)
    requires 0 <= n <= INT_MAX
    ensures ParseActivityGoalAs(rev, SPORT_SEPARATOR + SportName(sport)
                                     + " " + TYPE_SEPARATOR + GoalTypeName(goal)
                                     + " " + PERIOD_SEPARATOR + TimeSpanName(span)
                                     + " " + TARGET_SEPARATOR + IntToString(n))
            == Success(ActivityGoal(span, goal, sport, n))
  {
    var texts := [SportName(sport), GoalTypeName(goal), TimeSpanName(span), IntToString(n)];
    var s := SPORT_SEPARATOR + SportName(sport)
             + " " + TYPE_SEPARATOR + GoalTypeName(goal)
             + " " + PERIOD_SEPARATOR + TimeSpanName(span)
             + " " + TARGET_SEPARATOR + IntToString(n);
    ActivityTagsSpelled();
    GoalTagsApart();
    Joined4(TagsOf(GOAL_TAGS), texts);
    GoalValues(sport, goal, span, n, texts);
    WrittenFields4(GOAL_TAGS, texts, s);
    GoalRead(rev, s, sport, goal, span, n);
  }

  /** Once the texts of a goal command read as given values, `parseActivityGoal` builds it. */
  lemma GoalRead(rev: Revision, s: string, sport: Sport, goal: GoalType, span: TimeSpan, n: int)
    requires TagsInOrder(s, GOAL_TAGS)
    requires ParseSport(FieldText(s, GOAL_TAGS, 0)) == Success(sport)
    requires ParseGoalType(FieldText(s, GOAL_TAGS, 1)) == Success(goal)
    requires ParsePeriod(FieldText(s, GOAL_TAGS, 2)) == Success(span)
    requires ParseTarget(FieldText(s, GOAL_TAGS, 3)) == Success(n)
    ensures ParseActivityGoalAs(rev, s) == Success(ActivityGoal(span, goal, sport, n))
  {
  }
}
