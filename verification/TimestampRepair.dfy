// Repair of the word timestamps of one recognised segment: overlapping or empty words are moved
// and widened just enough. The repair is proved to be the least one possible.

module TimestampRepair {
  import opened Common
  import opened Outcomes
  import opened Transcript

  /** A word as the recogniser reports it: the text is stripped, the times are finite. */
  datatype RawWord = RawWord(text: string, start: real, end: real, probability: Option<real>)

  datatype RecognizedSegment = RecognizedSegment(start: real, end: real, text: string, words: seq<Word>)

  datatype Error = SegmentInvalid

  const MINIMUM: real := 0.001

  function OptionalConfidence(p: Option<real>): Option<real> {
    if p.Some? && IsConfidence(p.value) then p else None
  }

  /** The words after repair, when none may start before `floor`. */
  function Repaired(words: seq<RawWord>, floor: real): (r: seq<Word>)
    ensures |r| == |words|
  {
    if words == [] then []
    else
      var w := words[0];
      var start := Max(w.start, floor);
      var end := Max(w.end, start + MINIMUM);
      [Word(w.text, start, end, OptionalConfidence(w.probability))] + Repaired(words[1..], end)
  }

  // ---- What a repair must do ----

  datatype Interval = Interval(start: real, end: real)

  function Times(words: seq<Word>): (r: seq<Interval>)
    ensures |r| == |words| && forall i :: 0 <= i < |words| ==> r[i] == Interval(words[i].start, words[i].end)
  {
    seq(|words|, i requires 0 <= i < |words| => Interval(words[i].start, words[i].end))
  }

  function RawTimes(words: seq<RawWord>): (r: seq<Interval>)
    ensures |r| == |words| && forall i :: 0 <= i < |words| ==> r[i] == Interval(words[i].start, words[i].end)
  {
    seq(|words|, i requires 0 <= i < |words| => Interval(words[i].start, words[i].end))
  }

  /** In order, without overlap, each at least a millisecond long, none before `floor`. */
  ghost predicate Separated(t: seq<Interval>, floor: real) {
    (forall i :: 0 <= i < |t| ==> t[i].start + MINIMUM <= t[i].end) &&
    (|t| > 0 ==> floor <= t[0].start) &&
    (forall i, j :: 0 <= i && j == i + 1 && j < |t| ==> t[i].end <= t[j].start)
  }

  /** Pointwise no earlier. */
  ghost predicate Dominates(t: seq<Interval>, u: seq<Interval>) {
    |t| == |u| && forall i :: 0 <= i < |t| ==> u[i].start <= t[i].start && u[i].end <= t[i].end
  }

  lemma SeparatedCons(t: seq<Interval>, floor: real)
    requires t != []
    ensures Separated(t, floor) <==>
              t[0].start + MINIMUM <= t[0].end && floor <= t[0].start &&
              Separated(t[1..], t[0].end)
  {
    var rest := t[1..];
    if Separated(t, floor) {
      assert forall i :: 0 <= i < |rest| ==> rest[i] == t[i + 1];
    }
    if t[0].start + MINIMUM <= t[0].end && floor <= t[0].start && Separated(rest, t[0].end) {
      forall i, j | 0 <= i && j == i + 1 && j < |t|
        ensures t[i].end <= t[j].start
      {
        assert t[j] == rest[j - 1];
        if i > 0 {
          assert t[i] == rest[i - 1];
        }
      }
      forall i | 0 <= i < |t|
        ensures t[i].start + MINIMUM <= t[i].end
      {
        if i > 0 {
          assert t[i] == rest[i - 1];
        }
      }
    }
  }

  lemma {:induction false} RepairIsSeparated(words: seq<RawWord>, floor: real)
    ensures Separated(Times(Repaired(words, floor)), floor)
    ensures Dominates(Times(Repaired(words, floor)), RawTimes(words))
  {
    if words == [] {
    } else {
      var t := Times(Repaired(words, floor));
      RepairIsSeparated(words[1..], t[0].end);
      assert t[1..] == Times(Repaired(words[1..], t[0].end));
      SeparatedCons(t, floor);
      forall i | 0 <= i < |t|
        ensures RawTimes(words)[i].start <= t[i].start && RawTimes(words)[i].end <= t[i].end
      {
        if i > 0 {
          assert t[i] == t[1..][i - 1] && RawTimes(words)[i] == RawTimes(words[1..])[i - 1];
        }
      }
    }
  }

  /** Main result: no other way of meeting the demands keeps any word earlier or shorter. */
  lemma {:induction false} RepairIsLeast(words: seq<RawWord>, floor: real, other: seq<Interval>)
    requires Separated(other, floor) && Dominates(other, RawTimes(words))
    ensures Dominates(other, Times(Repaired(words, floor)))
  {
    RepairIsLeastFrom(words, floor, floor, other);
  }

  lemma {:induction false} RepairIsLeastFrom(words: seq<RawWord>, floor: real, otherFloor: real, other: seq<Interval>)
    requires floor <= otherFloor
    requires Separated(other, otherFloor) && Dominates(other, RawTimes(words))
    ensures Dominates(other, Times(Repaired(words, floor)))
  {
    if words == [] {
    } else {
      var t := Times(Repaired(words, floor));
      SeparatedCons(other, otherFloor);
      assert RawTimes(words)[0].start <= other[0].start && RawTimes(words)[0].end <= other[0].end;
      assert t[0].start <= other[0].start && t[0].end <= other[0].end;
      assert Dominates(other[1..], RawTimes(words[1..])) by {
        forall i | 0 <= i < |other[1..]|
          ensures RawTimes(words[1..])[i].start <= other[1..][i].start &&
                  RawTimes(words[1..])[i].end <= other[1..][i].end
        {
          assert RawTimes(words)[i + 1] == RawTimes(words[1..])[i] && other[1..][i] == other[i + 1];
        }
      }
      RepairIsLeastFrom(words[1..], t[0].end, other[0].end, other[1..]);
      assert t[1..] == Times(Repaired(words[1..], t[0].end));
      forall i | 0 <= i < |t|
        ensures t[i].start <= other[i].start && t[i].end <= other[i].end
      {
        if i > 0 {
          assert t[i] == t[1..][i - 1] && other[i] == other[1..][i - 1];
        }
      }
    }
  }

  lemma DominatesBothWays(t: seq<Interval>, u: seq<Interval>)
    requires Dominates(t, u) && Dominates(u, t)
    ensures t == u
  {
    forall i | 0 <= i < |t|
      ensures t[i] == u[i]
    {
      assert t[i].start == u[i].start && t[i].end == u[i].end;
    }
  }

  /** Words that already meet the demands are left alone. */
  lemma ValidInputIsUnchanged(words: seq<RawWord>, floor: real)
    requires Separated(RawTimes(words), floor)
    ensures Times(Repaired(words, floor)) == RawTimes(words)
  {
    RepairIsSeparated(words, floor);
    RepairIsLeast(words, floor, RawTimes(words));
    DominatesBothWays(Times(Repaired(words, floor)), RawTimes(words));
  }

  function AsRaw(words: seq<Word>): (r: seq<RawWord>)
    ensures |r| == |words|
    ensures forall i :: 0 <= i < |words| ==>
              r[i] ==
              RawWord(words[i].text, words[i].start, words[i].end, words[i].confidence)
  {
    seq(|words|, i requires 0 <= i < |words| =>
      RawWord(words[i].text, words[i].start, words[i].end, words[i].confidence))
  }

  /** Repairing a second time changes nothing. */
  lemma RepairIsIdempotent(words: seq<RawWord>, floor: real)
    ensures Times(Repaired(AsRaw(Repaired(words, floor)), floor)) == Times(Repaired(words, floor))
  {
    RepairIsSeparated(words, floor);
    assert RawTimes(AsRaw(Repaired(words, floor))) == Times(Repaired(words, floor));
    ValidInputIsUnchanged(AsRaw(Repaired(words, floor)), floor);
  }

  lemma MonotoneCons(w: Word, rest: seq<Word>)
    requires w.start < w.end && Monotone(rest) && forall i :: 0 <= i < |rest| ==> w.end <= rest[i].start < rest[i].end
    ensures Monotone([w] + rest)
  {
  }

  lemma {:induction false} RepairedWords(words: seq<RawWord>, floor: real)
    requires floor >= 0.0
    ensures Monotone(Repaired(words, floor))
    ensures forall i :: 0 <= i < |words| ==>
              var w := Repaired(words, floor)[i];
              floor <= w.start < w.end && w.text == words[i].text && IsOptionalConfidence(w.confidence)
  {
    if words == [] {
    } else {
      var r := Repaired(words, floor);
      var rest := Repaired(words[1..], r[0].end);
      RepairedWords(words[1..], r[0].end);
      MonotoneCons(r[0], rest);
      assert r == [r[0]] + rest;
    }
  }

  /** The repair moves words and nothing else: the texts stay, and so does a probability that is one. */
  lemma {:induction false} RepairKeepsWords(words: seq<RawWord>, floor: real, i: nat)
    requires i < |words|
    ensures var w := Repaired(words, floor)[i];
            w.text == words[i].text &&
            (words[i].probability.Some? && 0.0 <= words[i].probability.value <= 1.0 ==>
               w.confidence == words[i].probability) &&
            (w.confidence.Some? ==> w.confidence == words[i].probability && 0.0 <= w.confidence.value <= 1.0)
  {
    if i == 0 {
    } else {
      RepairKeepsWords(words[1..], EndAbove(words[0], floor), i - 1);
    }
  }

  /** The first `i` words are repaired and the rest continues at `floor`. */
  ghost predicate RepairedSoFar(words: seq<RawWord>, recognized: seq<Word>, i: nat, floor: real) {
    i <= |words| && Repaired(words, 0.0) == recognized + Repaired(words[i..], floor)
  }

  function RepairedWord(w: RawWord, floor: real): Word {
    var start := Max(w.start, floor);
    Word(w.text, start, Max(w.end, start + MINIMUM), OptionalConfidence(w.probability))
  }

  lemma RepairedStep(words: seq<RawWord>, recognized: seq<Word>, i: nat, floor: real)
    requires i < |words| && RepairedSoFar(words, recognized, i, floor)
    ensures var repaired := RepairedWord(words[i], floor);
            RepairedSoFar(words, recognized + [repaired], i + 1, repaired.end)
  {
    assert words[i..][0] == words[i] && words[i..][1..] == words[i + 1..];
  }

  lemma RepairBegins(words: seq<RawWord>)
    ensures RepairedSoFar(words, [], 0, 0.0)
  {
    assert words[0..] == words;
  }

  lemma RepairEnds(words: seq<RawWord>, recognized: seq<Word>, floor: real)
    requires RepairedSoFar(words, recognized, |words|, floor)
    ensures recognized == Repaired(words, 0.0)
  {
  }

  /** The first `n` words have a usable text. */
  ghost predicate HaveText(words: seq<RawWord>, n: nat) {
    n <= |words| && forall k :: 0 <= k < n ==> IsId(words[k].text)
  }

  lemma HaveTextMeaning(words: seq<RawWord>)
    ensures HaveText(words, |words|) <==> forall w <- words :: IsId(w.text)
  {
    if HaveText(words, |words|) {
      forall w <- words
        ensures IsId(w.text)
      {
        var k :| 0 <= k < |words| && words[k] == w;
      }
    }
  }

  lemma HaveTextStep(words: seq<RawWord>, i: nat)
    requires i < |words| && HaveText(words, i) && IsId(words[i].text)
    ensures HaveText(words, i + 1)
  {
  }

  /** The loop over the words; a word without text is refused. */
  method RepairWords(words: seq<RawWord>) returns (r: Result<seq<Word>, Error>)
    ensures r == if HaveText(words, |words|) then Ok(Repaired(words, 0.0)) else Err(SegmentInvalid)
  {
    var recognized: seq<Word> := [];
    var previousEnd := 0.0;
    RepairBegins(words);
    for i := 0 to |words|
      invariant RepairedSoFar(words, recognized, i, previousEnd)
      invariant HaveText(words, i)
    {
      var w := words[i];
      var start := Max(w.start, previousEnd);
      var end := Max(w.end, start + MINIMUM);
      var repaired := Word(w.text, start, end, OptionalConfidence(w.probability));
      if !IsId(w.text) {
        return Err(SegmentInvalid);
      }
      RepairedStep(words, recognized, i, previousEnd);
      HaveTextStep(words, i);
      recognized := recognized + [repaired];
      previousEnd := end;
    }
    RepairEnds(words, recognized, previousEnd);
    r := Ok(recognized);
  }

  predicate AreWords(words: seq<Word>) {
    forall i :: 0 <= i < |words| ==> IsWord(words[i])
  }

  lemma RepairedAreWords(words: seq<RawWord>)
    requires forall w <- words :: IsId(w.text)
    ensures AreWords(Repaired(words, 0.0)) && Monotone(Repaired(words, 0.0))
  {
    RepairedWords(words, 0.0);
  }

  lemma WordsFitWhenWidened(r: seq<Word>, start: real, end: real)
    requires r != [] && AreWords(r) && Monotone(r) && 0.0 <= start
    ensures var lo, hi := Min(start, r[0].start), Max(end, r[|r| - 1].end);
            WordsFit(r, lo, hi) && 0.0 <= lo < hi
  {
    assert IsWord(r[0]) && IsWord(r[|r| - 1]);
    assert r[0].start <= r[|r| - 1].start;
    forall w <- r
      ensures IsWord(w) && Min(start, r[0].start) <= w.start && w.end <= Max(end, r[|r| - 1].end)
    {
      var i :| 0 <= i < |r| && r[i] == w;
      assert IsWord(r[i]);
      assert i > 0 ==> r[0].start <= r[i].start;
    }
  }

  /** The segment is widened until it contains every repaired word; this always succeeds unless
      the recogniser's segment starts before zero. */
  lemma WidenedSegmentFits(words: seq<RawWord>, start: real, end: real)
    requires words != [] && forall w <- words :: IsId(w.text)
    requires 0.0 <= start
    ensures var r := Repaired(words, 0.0);
            WordsFit(r, Min(start, r[0].start), Max(end, r[|r| - 1].end)) &&
            0.0 <= Min(start, r[0].start) < Max(end, r[|r| - 1].end)
  {
    RepairedAreWords(words);
    WordsFitWhenWidened(Repaired(words, 0.0), start, end);
  }

  /** The conversion of one segment. */
  method RepairSegment(start: real, end: real, text: string, words: seq<RawWord>)
      returns (r: Result<RecognizedSegment, Error>)
    ensures r.Ok? <==> words != [] && IsText(text) && 0.0 <= start && forall w <- words :: IsId(w.text)
    ensures r.Ok? ==>
              r.value.words == Repaired(words, 0.0) && r.value.text == text &&
              WordsFit(r.value.words, r.value.start, r.value.end) &&
              r.value.start == Min(start, r.value.words[0].start) &&
              r.value.end == Max(end, r.value.words[|words| - 1].end) &&
              0.0 <= r.value.start < r.value.end
  {
    if words == [] {
      return Err(SegmentInvalid);
    }
    var repaired := RepairWords(words);
    HaveTextMeaning(words);
    if repaired.Err? || !IsText(text) {
      return Err(SegmentInvalid);
    }
    var recognized := repaired.value;
    RepairedWords(words, 0.0);
    var widenedStart := Min(start, recognized[0].start);
    var widenedEnd := Max(end, recognized[|recognized| - 1].end);
    if widenedStart < 0.0 {
      return Err(SegmentInvalid);
    }
    WidenedSegmentFits(words, start, end);
    r := Ok(RecognizedSegment(widenedStart, widenedEnd, text, recognized));
  }

  // ---- When a repair is done by a given time ----

  /** How long `k` words last at least. */
  function Slots(k: nat): real { k as real * MINIMUM }

  lemma OneMoreSlot(k: nat)
    ensures Slots(k + 1) == Slots(k) + MINIMUM
  {
  }

  /** The end of a word that has nothing before it but `floor`. */
  function EndAbove(w: RawWord, floor: real): real { Max(w.end, Max(w.start, floor) + MINIMUM) }

  function Reach(w: RawWord): real { EndAbove(w, 0.0) }

  /** Each word, followed by its successors at their shortest, ends by `x`. */
  predicate EndsBy(words: seq<RawWord>, x: real) {
    forall j :: 0 <= j < |words| ==> Reach(words[j]) + Slots(|words| - 1 - j) <= x
  }

  /** The end of the last repaired word, or `floor` when there is none. */
  function LastEnd(words: seq<RawWord>, floor: real): real {
    if words == [] then floor else LastEnd(words[1..], EndAbove(words[0], floor))
  }

  /** A floor counts with as many slots as there are words, a word with those behind it. */
  predicate EndsByAbove(words: seq<RawWord>, floor: real, x: real) {
    floor + Slots(|words|) <= x &&
    forall j :: 0 <= j < |words| ==> Max(words[j].end, words[j].start + MINIMUM) + Slots(|words| - 1 - j) <= x
  }

  lemma EndsByAboveCons(words: seq<RawWord>, floor: real, x: real)
    requires words != []
    ensures EndsByAbove(words, floor, x) <==>
            floor + Slots(|words|) <= x && EndsByAbove(words[1..], EndAbove(words[0], floor), x)
  {
    var rest, n := words[1..], |words| - 1;
    OneMoreSlot(n);
    if EndsByAbove(words, floor, x) {
      assert forall j :: 0 <= j < |rest| ==> rest[j] == words[j + 1];
    }
    if floor + Slots(|words|) <= x && EndsByAbove(rest, EndAbove(words[0], floor), x) {
      forall j | 0 <= j < |words|
        ensures Max(words[j].end, words[j].start + MINIMUM) + Slots(n - j) <= x
      {
        if j > 0 {
          assert rest[j - 1] == words[j];
        }
      }
    }
  }

  lemma {:induction false} LastEndWithin(words: seq<RawWord>, floor: real, x: real)
    ensures LastEnd(words, floor) <= x <==> EndsByAbove(words, floor, x)
  {
    if words == [] {
    } else {
      LastEndWithin(words[1..], EndAbove(words[0], floor), x);
      EndsByAboveCons(words, floor, x);
      if LastEnd(words, floor) <= x {
        OneMoreSlot(|words| - 1);
      }
    }
  }

  /** Repaired from zero, the words are done by `x` exactly when each of them leaves room for its
      successors. */
  lemma RepairEndsBy(words: seq<RawWord>, x: real)
    requires words != []
    ensures LastEnd(words, 0.0) <= x <==> EndsBy(words, x)
  {
    LastEndWithin(words, 0.0, x);
    var n := |words| - 1;
    OneMoreSlot(n);
    if EndsByAbove(words, 0.0, x) {
      forall j | 0 <= j < |words|
        ensures Reach(words[j]) + Slots(n - j) <= x
      {
        assert Max(words[j].end, words[j].start + MINIMUM) + Slots(n - j) <= x;
        assert MINIMUM + Slots(n - j) <= Slots(n + 1);
      }
    }
    if EndsBy(words, x) {
      assert Reach(words[0]) + Slots(n) <= x;
      forall j | 0 <= j < |words|
        ensures Max(words[j].end, words[j].start + MINIMUM) + Slots(n - j) <= x
      {
        assert Reach(words[j]) + Slots(n - j) <= x;
      }
    }
  }

  /** The last repaired word follows the repair of the words before it. */
  lemma {:induction false} RepairedSnoc(words: seq<RawWord>, floor: real)
    requires words != []
    ensures var n := |words| - 1;
            Repaired(words, floor)[n] == RepairedWord(words[n], LastEnd(words[..n], floor)) &&
            LastEnd(words, floor) == Repaired(words, floor)[n].end
  {
    var n := |words| - 1;
    if n == 0 {
      assert words[1..] == [];
    } else {
      var rest := words[1..];
      RepairedSnoc(rest, EndAbove(words[0], floor));
      assert words[..n][1..] == rest[..n - 1] && rest[n - 1] == words[n];
    }
  }

  // ---- Across segments ----

  /** The junction of two segments: the later begins and ends no earlier than the earlier ends. */
  ghost predicate Joined(a: seq<Word>, b: seq<Word>) {
    a != [] && b != [] ==> a[|a| - 1].start <= b[0].start && a[|a| - 1].end <= b[0].end
  }

  /** Main result across segments. Every segment is repaired from zero again, so order across
      segments is not given by the repair: the repaired words are in order exactly when the times
      the recogniser reports leave room at every junction. */
  lemma OrderAcrossSegments(segments: seq<seq<RawWord>>)
    requires forall i :: 0 <= i < |segments| ==> segments[i] != []
    ensures Monotone(Concat(AllRepaired(segments))) <==>
            forall i :: 0 < i < |segments| ==> RawJunction(segments[i - 1], segments[i])
  {
    var repaired := AllRepaired(segments);
    forall i | 0 <= i < |repaired|
      ensures repaired[i] != [] && Monotone(repaired[i])
    {
      RepairedWords(segments[i], 0.0);
    }
    OrderAcrossJunctions(repaired);
    forall i | 0 < i < |segments|
      ensures JunctionAt(repaired, i) == RawJunction(segments[i - 1], segments[i])
    {
      RawJunctionMeaning(segments[i - 1], segments[i]);
    }
  }

  /** The junction of two segments in the recogniser's own times: the last word of the earlier one,
      and everything before it with the time it needs, has to start before the later one begins,
      and the whole earlier one has to end before the first word of the later one does. */
  predicate RawJunction(a: seq<RawWord>, b: seq<RawWord>) {
    a != [] && b != [] ==>
      var begin := Max(b[0].start, 0.0);
      a[|a| - 1].start <= begin && EndsBy(a[..|a| - 1], begin) && EndsBy(a, Reach(b[0]))
  }

  lemma RawJunctionMeaning(a: seq<RawWord>, b: seq<RawWord>)
    requires a != [] && b != []
    ensures Joined(Repaired(a, 0.0), Repaired(b, 0.0)) <==> RawJunction(a, b)
  {
    var n, begin := |a| - 1, Max(b[0].start, 0.0);
    RepairedSnoc(a, 0.0);
    assert Repaired(b, 0.0)[0] == RepairedWord(b[0], 0.0);
    RepairEndsBy(a, Reach(b[0]));
    if n > 0 {
      RepairEndsBy(a[..n], begin);
    }
  }

  ghost predicate JunctionAt(segments: seq<seq<Word>>, i: nat)
    requires 0 < i < |segments|
  {
    Joined(segments[i - 1], segments[i])
  }

  function AllRepaired(segments: seq<seq<RawWord>>): (r: seq<seq<Word>>)
    ensures |r| == |segments| && forall i :: 0 <= i < |segments| ==> r[i] == Repaired(segments[i], 0.0)
  {
    seq(|segments|, i requires 0 <= i < |segments| => Repaired(segments[i], 0.0))
  }

  /** The repaired words of one segment end by `x` exactly when its times leave room for that. */
  lemma SegmentEndsBy(words: seq<RawWord>, x: real)
    requires words != []
    ensures (forall w <- Repaired(words, 0.0) :: w.end <= x) <==> EndsBy(words, x)
  {
    var r := Repaired(words, 0.0);
    RepairedWords(words, 0.0);
    RepairedSnoc(words, 0.0);
    RepairEndsBy(words, x);
    assert r[|r| - 1] in r;
    forall w: Word | w in r ensures w.end <= r[|r| - 1].end {
      var i :| 0 <= i < |r| && r[i] == w;
    }
  }

  lemma {:induction false} InConcat(lists: seq<seq<Word>>, w: Word)
    ensures w in Concat(lists) <==> exists i :: 0 <= i < |lists| && w in lists[i]
  {
    if lists == [] {
    } else {
      var n := |lists| - 1;
      InConcat(lists[..n], w);
      if i :| 0 <= i < |lists| && w in lists[i] {
        assert i < n ==> lists[..n][i] == lists[i];
      }
    }
  }

  /** All repaired words end by `x` exactly when every segment leaves room for that. */
  lemma AllEndBy(segments: seq<seq<RawWord>>, x: real)
    requires forall i :: 0 <= i < |segments| ==> segments[i] != []
    ensures (forall w <- Concat(AllRepaired(segments)) :: w.end <= x) <==>
            forall i :: 0 <= i < |segments| ==> EndsBy(segments[i], x)
  {
    var repaired := AllRepaired(segments);
    var words := Concat(repaired);
    if forall w <- words :: w.end <= x {
      forall i | 0 <= i < |segments| ensures EndsBy(segments[i], x) {
        forall w: Word | w in repaired[i] ensures w.end <= x {
          InConcat(repaired, w);
        }
        SegmentEndsBy(segments[i], x);
      }
    }
    if forall i :: 0 <= i < |segments| ==> EndsBy(segments[i], x) {
      forall w: Word | w in words ensures w.end <= x {
        InConcat(repaired, w);
        var i :| 0 <= i < |repaired| && w in repaired[i];
        SegmentEndsBy(segments[i], x);
      }
    }
  }

  lemma AllAreWords(segments: seq<seq<RawWord>>)
    requires forall i :: 0 <= i < |segments| ==> HaveText(segments[i], |segments[i]|)
    ensures forall w <- Concat(AllRepaired(segments)) :: IsWord(w)
  {
    var repaired := AllRepaired(segments);
    forall w: Word | w in Concat(repaired) ensures IsWord(w) {
      InConcat(repaired, w);
      var i :| 0 <= i < |repaired| && w in repaired[i];
      HaveTextMeaning(segments[i]);
      RepairedAreWords(segments[i]);
    }
  }

  /** Segments may start in order and their repaired words still go back in time. */
  lemma RepairCanGoBack()
    ensures var long, short := [RawWord("x", 0.0, 5.0, None)], [RawWord("y", 1.0, 2.0, None)];
            Repaired(long, 0.0)[0].start <= Repaired(short, 0.0)[0].start &&
            !Monotone(Concat(AllRepaired([long, short])))
  {
    var long, short := [RawWord("x", 0.0, 5.0, None)], [RawWord("y", 1.0, 2.0, None)];
    OrderAcrossSegments([long, short]);
    assert Reach(long[0]) + Slots(0) > Reach(short[0]);
    assert !RawJunction([long, short][0], [long, short][1]);
  }

  ghost predicate AllJoined(segments: seq<seq<Word>>) {
    forall i :: 0 < i < |segments| ==> JunctionAt(segments, i)
  }

  lemma AllJoinedSnoc(segments: seq<seq<Word>>)
    requires segments != []
    ensures var n := |segments| - 1;
            AllJoined(segments) <==> AllJoined(segments[..n]) && (n == 0 || JunctionAt(segments, n))
  {
    var n := |segments| - 1;
    assert forall i :: 0 < i < n ==> JunctionAt(segments[..n], i) == JunctionAt(segments, i);
  }

  ghost predicate AllMonotone(segments: seq<seq<Word>>) {
    forall i :: 0 <= i < |segments| ==> segments[i] != [] && Monotone(segments[i])
  }

  lemma {:induction false} OrderAcrossJunctions(segments: seq<seq<Word>>)
    requires AllMonotone(segments)
    ensures Monotone(Concat(segments)) <==> AllJoined(segments)
  {
    if segments == [] {
    } else {
      var n := |segments| - 1;
      assert AllMonotone(segments[..n]);
      OrderAcrossJunctions(segments[..n]);
      MonotoneConcat(Concat(segments[..n]), segments[n]);
      LastJunction(segments);
      AllJoinedSnoc(segments);
    }
  }

  lemma LastJunction(segments: seq<seq<Word>>)
    requires segments != [] && forall i :: 0 <= i < |segments| ==> segments[i] != []
    ensures var n := |segments| - 1;
            Joined(Concat(segments[..n]), segments[n]) <==> n == 0 || JunctionAt(segments, n)
  {
    var n := |segments| - 1;
    if n > 0 {
      assert segments[..n][n - 1] == segments[n - 1];
      assert LastOf(Concat(segments[..n])) == LastOf(segments[n - 1]);
    }
  }

  function LastOf(words: seq<Word>): Word
    requires words != []
  {
    words[|words| - 1]
  }

  lemma MonotoneConcat(a: seq<Word>, b: seq<Word>)
    requires Monotone(b)
    ensures Monotone(a + b) <==> Monotone(a) && Joined(a, b)
  {
    var c := a + b;
    if Monotone(c) {
      assert forall i :: 0 <= i < |a| ==> a[i] == c[i];
      if a != [] && b != [] {
        assert c[|a| - 1] == a[|a| - 1] && c[|a|] == b[0];
      }
    }
    if Monotone(a) && Joined(a, b) {
      forall i, j | 0 <= i < j < |c|
        ensures c[i].start <= c[j].start && c[i].end <= c[j].end
      {
        if i < |a| <= j {
          assert a[i].start <= a[|a| - 1].start && a[i].end <= a[|a| - 1].end;
          assert b[0].start <= b[j - |a|].start && b[0].end <= b[j - |a|].end;
        }
      }
    }
  }
}
