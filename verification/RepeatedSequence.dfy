// The repeated-sequence test applied to runtime secrets: a value is rejected when it occurs
// strictly inside its own doubling. The test is proved equivalent to the value being a shorter
// block written two or more times.

module RepeatedSequence {

  /** The substring test: `needle` occurs in `haystack` as a contiguous block. */
  ghost predicate Occurs(needle: string, haystack: string) {
    exists p: nat :: OccursAt(needle, haystack, p)
  }

  predicate OccursAt(needle: string, haystack: string, p: nat) {
    p + |needle| <= |haystack| && haystack[p..p + |needle|] == needle
  }

  /** The test of the program: more than one character, and an occurrence in the doubled value
      with its first and last character removed. */
  ghost predicate IsRepeatedSequence(value: string) {
    |value| > 1 && Occurs(value, (value + value)[1..2 * |value| - 1])
  }

  /** `t` written `k` times. */
  function Repeat(t: string, k: nat): (r: string)
    ensures |r| == k * |t|
  {
    if k == 0 then [] else t + Repeat(t, k - 1)
  }

  /** The meaning: a block shorter than the value, written at least twice. */
  ghost predicate IsRepetition(value: string) {
    exists t: string, k: nat :: k >= 2 && |t| > 0 && Repeat(t, k) == value
  }

  lemma {:induction false} RepeatAdd(t: string, i: nat, j: nat)
    ensures Repeat(t, i) + Repeat(t, j) == Repeat(t, i + j)
  {
    if i == 0 {
      assert Repeat(t, 0) + Repeat(t, j) == Repeat(t, j);
    } else {
      RepeatAdd(t, i - 1, j);
      assert Repeat(t, i) + Repeat(t, j) == t + (Repeat(t, i - 1) + Repeat(t, j));
    }
  }

  lemma CommutingPrefix(u: string, v: string)
    requires u + v == v + u && |u| <= |v|
    ensures v == u + v[|u|..]
    ensures u + v[|u|..] == v[|u|..] + u
  {
    assert v[..|u|] == (v + u)[..|u|] == (u + v)[..|u|] == u;
    assert v == (u + v)[|u|..] == (v + u)[|u|..] == v[|u|..] + u;
  }

  /** Words that commute are powers of one common word. */
  lemma {:induction false} CommutingWordsShareARoot(u: string, v: string) returns (t: string, i: nat, j: nat)
    requires |u| > 0 && |v| > 0
    requires u + v == v + u
    ensures i >= 1 && j >= 1 && |t| > 0
    ensures u == Repeat(t, i) && v == Repeat(t, j)
    decreases |u| + |v|, |u|
  {
    if |v| < |u| {
      t, j, i := CommutingWordsShareARoot(v, u);
    } else {
      CommutingPrefix(u, v);
      var w := v[|u|..];
      if w == "" {
        assert u + Repeat(u, 0) == u;
        t, i, j := u, 1, 1;
      } else {
        t, i, j := CommutingWordsShareARoot(u, w);
        RepeatAdd(t, i, j);
        j := i + j;
      }
    }
  }

  /** An occurrence at offset `p` of the trimmed doubling is a rotation that fixes the value. */
  lemma OccurrenceIsRotation(value: string, p: nat)
    requires |value| > 1 && p + |value| <= 2 * |value| - 2
    ensures (value + value)[1..2 * |value| - 1][p..p + |value|] == value[p + 1..] + value[..p + 1]
  {
    var n := |value|;
    var doubled := value + value;
    assert doubled[1..2 * n - 1][p..p + n] == doubled[p + 1..p + 1 + n];
    assert doubled[p + 1..p + 1 + n] == value[p + 1..] + value[..p + 1];
  }

  lemma RepeatedIsRepetition(value: string)
    requires IsRepeatedSequence(value)
    ensures IsRepetition(value)
  {
    var inner := (value + value)[1..2 * |value| - 1];
    var p: nat :| OccursAt(value, inner, p);
    OccurrenceIsRotation(value, p);
    var u, v := value[..p + 1], value[p + 1..];
    assert u + v == value == v + u;
    var t, i, j := CommutingWordsShareARoot(u, v);
    RepeatAdd(t, i, j);
    assert Repeat(t, i + j) == value;
  }

  lemma RepetitionIsRepeated(value: string, t: string, k: nat)
    requires k >= 2 && |t| > 0 && Repeat(t, k) == value
    ensures IsRepeatedSequence(value)
  {
    var n := |value|;
    assert n == k * |t| >= 2 * |t|;
    RepeatAdd(t, k - 1, 1);
    assert Repeat(t, 1) == t + Repeat(t, 0) == t;
    assert value == t + Repeat(t, k - 1) == Repeat(t, k - 1) + t;
    var p := |t| - 1;
    OccurrenceIsRotation(value, p);
    assert value[..|t|] == t && value[|t|..] == Repeat(t, k - 1);
    var inner := (value + value)[1..2 * n - 1];
    assert OccursAt(value, inner, p);
  }

  /** Main result: the substring test recognises exactly the proper repetitions. */
  lemma TestIsExact(value: string)
    ensures IsRepeatedSequence(value) <==> IsRepetition(value)
  {
    if IsRepeatedSequence(value) {
      RepeatedIsRepetition(value);
    }
    if IsRepetition(value) {
      var t: string, k: nat :| k >= 2 && |t| > 0 && Repeat(t, k) == value;
      RepetitionIsRepeated(value, t, k);
    }
  }

  /** The block found is proper and its length divides the length of the value. */
  lemma RepetitionBlockDivides(value: string) returns (t: string, k: nat)
    requires IsRepeatedSequence(value)
    ensures k >= 2 && Repeat(t, k) == value
    ensures 0 < |t| < |value| && |value| == k * |t|
  {
    RepeatedIsRepetition(value);
    t, k :| k >= 2 && |t| > 0 && Repeat(t, k) == value;
    TwoBlocksAreLonger(k, |t|);
  }

  lemma TwoBlocksAreLonger(k: nat, n: nat)
    requires k >= 2 && n > 0
    ensures k * n > n
  {
    assert k * n == n + (k - 1) * n;
  }
}
