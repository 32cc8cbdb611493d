// Attribution of recognised words to diarized speakers: every word goes to the turn it overlaps
// most, or to the nearest turn, and consecutive words of one speaker form a segment.

module SpeakerAttribution {
  import opened Common
  import opened Outcomes
  import opened Transcript
  import TextOrder

  datatype Turn = Turn(speaker: SpeakerId, start: real, end: real)

  datatype SpeakerWord = SpeakerWord(word: Word, speaker: Option<SpeakerId>, overlap: real)

  datatype AttributedSegment = AttributedSegment(
    start: real, end: real, text: string, words: seq<Word>, speaker: Option<SpeakerId>, confidence: Option<real>)

  datatype Error = NoWordTimestamps | SegmentTextTooLong

  function Overlap(w: Word, t: Turn): real {
    Max(0.0, Min(w.end, t.end) - Max(w.start, t.start))
  }

  function Gap(w: Word, t: Turn): real {
    Max(Max(t.start - w.end, w.start - t.end), 0.0)
  }

  // ---- Choosing a turn ----

  /** The sort key of a turn: a rounded measure first, then the fields of the turn. */
  datatype Key = Key(rank: real, start: real, end: real, speaker: SpeakerId)

  predicate KeyLeq(a: Key, b: Key) {
    a.rank < b.rank || (a.rank == b.rank && (a.start < b.start || (a.start == b.start && (a.end < b.end ||
    (a.end == b.end && TextOrder.Leq(a.speaker, b.speaker))))))
  }

  lemma KeyOrder(a: Key, b: Key, c: Key)
    ensures KeyLeq(a, b) || KeyLeq(b, a)
    ensures KeyLeq(a, b) && KeyLeq(b, a) ==> a == b
    ensures KeyLeq(a, b) && KeyLeq(b, c) ==> KeyLeq(a, c)
  {
    TextOrder.Total(a.speaker, b.speaker);
    if TextOrder.Leq(a.speaker, b.speaker) && TextOrder.Leq(b.speaker, a.speaker) {
      TextOrder.Antisymmetric(a.speaker, b.speaker);
    }
    if TextOrder.Leq(a.speaker, b.speaker) && TextOrder.Leq(b.speaker, c.speaker) {
      TextOrder.Transitive(a.speaker, b.speaker, c.speaker);
    }
  }

  type Rank = Turn -> real

  function KeyOf(rank: Rank, t: Turn): Key { Key(rank(t), t.start, t.end, t.speaker) }

  ghost predicate IsFirst(t: Turn, turns: seq<Turn>, rank: Rank) {
    t in turns && forall u :: u in turns ==> KeyLeq(KeyOf(rank, t), KeyOf(rank, u))
  }

  /** The first turn after sorting by key. */
  function First(turns: seq<Turn>, rank: Rank): (t: Turn)
    requires turns != []
    ensures IsFirst(t, turns, rank)
  {
    if |turns| == 1 then
      KeyOrder(KeyOf(rank, turns[0]), KeyOf(rank, turns[0]), KeyOf(rank, turns[0]));
      turns[0]
    else
      var later := First(turns[1..], rank);
      FirstOfTwo(turns, rank, later);
      if KeyLeq(KeyOf(rank, turns[0]), KeyOf(rank, later)) then turns[0] else later
  }

  lemma FirstOfTwo(turns: seq<Turn>, rank: Rank, later: Turn)
    requires |turns| > 1 && IsFirst(later, turns[1..], rank)
    ensures IsFirst(if KeyLeq(KeyOf(rank, turns[0]), KeyOf(rank, later)) then turns[0] else later, turns, rank)
  {
    var a, b := KeyOf(rank, turns[0]), KeyOf(rank, later);
    assert turns == [turns[0]] + turns[1..];
    KeyOrder(a, b, a);
    KeyOrder(a, a, a);
    forall u | u in turns[1..]
      ensures KeyLeq(a, b) ==> KeyLeq(a, KeyOf(rank, u))
    {
      KeyOrder(a, b, KeyOf(rank, u));
    }
  }

  /** The key names the turn, so the first turn depends on the set of turns only. */
  lemma FirstIsUnique(turns: seq<Turn>, other: seq<Turn>, rank: Rank)
    requires turns != [] && other != [] && forall t :: t in turns <==> t in other
    ensures First(turns, rank) == First(other, rank)
  {
    var t, u := First(turns, rank), First(other, rank);
    KeyOrder(KeyOf(rank, t), KeyOf(rank, u), KeyOf(rank, t));
  }

  /** The rounding of ranks: order preserving, and zero stays zero. */
  ghost predicate IsRounding(round: real -> real) {
    round(0.0) == 0.0 && forall x, y :: x <= y ==> round(x) <= round(y)
  }

  function OverlapRank(w: Word, round: real -> real): Rank { t => -round(Overlap(w, t)) }

  function GapRank(w: Word, round: real -> real): Rank { t => round(Gap(w, t)) }

  function BestSpeaker(w: Word, turns: seq<Turn>, round: real -> real): (Option<SpeakerId>, real) {
    if turns == [] then (None, 0.0)
    else
      var best := First(turns, OverlapRank(w, round));
      if Overlap(w, best) > 0.0 then (Some(best.speaker), Overlap(w, best))
      else (Some(First(turns, GapRank(w, round)).speaker), 0.0)
  }

  lemma SameEmptiness(turns: seq<Turn>, other: seq<Turn>)
    requires forall t :: t in turns <==> t in other
    ensures turns == [] <==> other == []
  {
    assert |turns| > 0 ==> turns[0] in other;
    assert |other| > 0 ==> other[0] in turns;
  }

  /** The order in which the diarizer lists its turns does not matter. */
  lemma BestSpeakerIgnoresOrder(w: Word, turns: seq<Turn>, other: seq<Turn>, round: real -> real)
    requires forall t :: t in turns <==> t in other
    ensures BestSpeaker(w, turns, round) == BestSpeaker(w, other, round)
  {
    SameEmptiness(turns, other);
    if turns != [] {
      FirstIsUnique(turns, other, OverlapRank(w, round));
      FirstIsUnique(turns, other, GapRank(w, round));
    }
  }

  /** A word is given to a turn of greatest overlap; only when no turn overlaps it by more than
      rounding shows is it given to a turn of least distance. */
  lemma BestSpeakerMeaning(w: Word, turns: seq<Turn>, round: real -> real) returns (t: Turn)
    requires turns != [] && w.start < w.end && IsRounding(round)
    ensures t in turns && BestSpeaker(w, turns, round).0 == Some(t.speaker)
    ensures 0.0 <= BestSpeaker(w, turns, round).1 <= w.end - w.start
    ensures var overlap := BestSpeaker(w, turns, round).1;
            if overlap > 0.0
            then overlap == Overlap(w, t) && forall u <- turns :: round(Overlap(w, u)) <= round(overlap)
            else
              (forall u <- turns :: round(Overlap(w, u)) == 0.0) &&
              forall u <- turns :: round(Gap(w, t)) <= round(Gap(w, u))
  {
    var best := First(turns, OverlapRank(w, round));
    t := if Overlap(w, best) > 0.0 then best else First(turns, GapRank(w, round));
    forall u <- turns
      ensures round(Overlap(w, u)) <= round(Overlap(w, best)) &&
              round(Gap(w, First(turns, GapRank(w, round)))) <= round(Gap(w, u))
      ensures 0.0 <= round(Overlap(w, u))
    {
      assert KeyLeq(KeyOf(OverlapRank(w, round), best), KeyOf(OverlapRank(w, round), u));
      assert KeyLeq(KeyOf(GapRank(w, round), First(turns, GapRank(w, round))), KeyOf(GapRank(w, round), u));
    }
  }

  /** Between two turns that are equally good the one that begins earlier comes first, then the one that
      ends earlier, then the one with the lesser label. */
  ghost predicate ComesFirst(t: Turn, u: Turn) {
    t.start < u.start ||
    (t.start == u.start && (t.end < u.end || (t.end == u.end && TextOrder.Leq(t.speaker, u.speaker))))
  }

  /** Ties of the measure are settled by that order. */
  lemma TiesAreSettled(w: Word, turns: seq<Turn>, round: real -> real) returns (t: Turn)
    requires turns != [] && w.start < w.end && IsRounding(round)
    ensures t in turns && BestSpeaker(w, turns, round).0 == Some(t.speaker)
    ensures var overlap := BestSpeaker(w, turns, round).1;
            forall u <- turns ::
              if overlap > 0.0
              then overlap == Overlap(w, t) && (round(Overlap(w, u)) == round(overlap) ==> ComesFirst(t, u))
              else round(Gap(w, u)) == round(Gap(w, t)) ==> ComesFirst(t, u)
  {
    var best := First(turns, OverlapRank(w, round));
    t := if Overlap(w, best) > 0.0 then best else First(turns, GapRank(w, round));
    forall u <- turns
      ensures KeyLeq(KeyOf(OverlapRank(w, round), best), KeyOf(OverlapRank(w, round), u))
      ensures KeyLeq(KeyOf(GapRank(w, round), First(turns, GapRank(w, round))), KeyOf(GapRank(w, round), u))
    {
    }
  }

  /** A word and a turn overlap or lie apart, not both, and what they cover from end to end is what each
      of them lasts, less the overlap, with the gap. */
  lemma OverlapOrGap(w: Word, t: Turn)
    requires w.start < w.end && t.start < t.end
    ensures 0.0 <= Overlap(w, t) && 0.0 <= Gap(w, t) && (Overlap(w, t) == 0.0 || Gap(w, t) == 0.0)
    ensures (if w.end >= t.end then w.end else t.end) - (if w.start <= t.start then w.start else t.start) ==
            (w.end - w.start) + (t.end - t.start) - Overlap(w, t) + Gap(w, t)
  {
  }

  // ---- Grouping ----

  function Attributed(words: seq<Word>, turns: seq<Turn>, round: real -> real): (r: seq<SpeakerWord>)
    ensures |r| == |words|
    ensures forall i :: 0 <= i < |words| ==>
              r[i] == SpeakerWord(words[i], BestSpeaker(words[i], turns, round).0,
                                  BestSpeaker(words[i], turns, round).1)
  {
    seq(|words|, i requires 0 <= i < |words| =>
      SpeakerWord(words[i], BestSpeaker(words[i], turns, round).0, BestSpeaker(words[i], turns, round).1))
  }

  type Group = seq<SpeakerWord>

  ghost predicate OneSpeaker(g: Group) {
    g != [] && forall i :: 0 <= i < |g| ==> g[i].speaker == g[0].speaker
  }

  /** Runs of one speaker, as long as they can be. */
  ghost predicate AreMaximalRuns(groups: seq<Group>, items: seq<SpeakerWord>) {
    Concat(groups) == items && Alternate(groups)
  }

  ghost predicate Alternate(groups: seq<Group>) {
    (forall i :: 0 <= i < |groups| ==> OneSpeaker(groups[i])) &&
    forall i :: 0 < i < |groups| ==> ChangesAt(groups, i)
  }

  predicate ChangesAt(groups: seq<Group>, i: nat)
    requires 0 < i < |groups|
  {
    Changes(groups[i - 1], groups[i])
  }

  predicate Changes(before: Group, after: Group) {
    before != [] && after != [] && before[0].speaker != after[0].speaker
  }

  function WordsOf(g: Group): (r: seq<Word>)
    ensures |r| == |g| && forall i :: 0 <= i < |g| ==> r[i] == g[i].word
  {
    seq(|g|, i requires 0 <= i < |g| => g[i].word)
  }

  function TotalLength(g: Group): real {
    if g == [] then 0.0 else TotalLength(g[..|g| - 1]) + (g[|g| - 1].word.end - g[|g| - 1].word.start)
  }

  function TotalOverlap(g: Group): real {
    if g == [] then 0.0 else TotalOverlap(g[..|g| - 1]) + g[|g| - 1].overlap
  }

  function Joined(g: Group): string {
    if g == [] then "" else if |g| == 1 then g[0].word.text
    else Joined(g[..|g| - 1]) + " " + g[|g| - 1].word.text
  }

  function SegmentOf(g: Group): AttributedSegment
    requires g != []
  {
    AttributedSegment(
      g[0].word.start, g[|g| - 1].word.end, Joined(g), WordsOf(g), g[0].speaker,
      if TotalLength(g) > 0.0 && g[0].speaker.Some? then Some(TotalOverlap(g) / TotalLength(g)) else None)
  }

  function SegmentsOf(groups: seq<Group>): (r: seq<AttributedSegment>)
    requires forall i :: 0 <= i < |groups| ==> groups[i] != []
    ensures |r| == |groups| && forall i :: 0 <= i < |groups| ==> r[i] == SegmentOf(groups[i])
  {
    seq(|groups|, i requires 0 <= i < |groups| => SegmentOf(groups[i]))
  }

  /** The grouping loop. */
  method GroupBySpeaker(items: seq<SpeakerWord>) returns (groups: seq<Group>)
    requires items != []
    ensures AreMaximalRuns(groups, items)
  {
    groups := [];
    var group: Group := [];
    for i := 0 to |items|
      invariant Concat(groups) + group == items[..i]
      invariant i > 0 ==> OneSpeaker(group)
      invariant i == 0 ==> group == [] && groups == []
      invariant Alternate(groups)
      invariant groups != [] && group != [] ==>
                  Changes(groups[|groups| - 1], group)
    {
      var item := items[i];
      assert items[..i + 1] == items[..i] + [item];
      if group != [] && item.speaker != group[|group| - 1].speaker {
        AppendRun(groups, group);
        ConcatAppend(groups, group);
        groups := groups + [group];
        group := [];
      }
      assert Concat(groups) + (group + [item]) == (Concat(groups) + group) + [item];
      group := group + [item];
    }
    assert items[..|items|] == items;
    AppendRun(groups, group);
    ConcatAppend(groups, group);
    groups := groups + [group];
  }

  lemma ConcatAppend(groups: seq<Group>, group: Group)
    ensures Concat(groups + [group]) == Concat(groups) + group
  {
    assert (groups + [group])[..|groups|] == groups;
  }

  lemma AppendRun(groups: seq<Group>, group: Group)
    requires Alternate(groups) && OneSpeaker(group)
    requires groups != [] ==> Changes(groups[|groups| - 1], group)
    ensures Alternate(groups + [group])
  {
    var all := groups + [group];
    forall i | 0 <= i < |all| ensures OneSpeaker(all[i]) {
      assert i < |groups| ==> all[i] == groups[i];
    }
    forall i | 0 < i < |all| ensures ChangesAt(all, i) {
      assert i < |groups| ==> ChangesAt(groups, i);
    }
  }

  // ---- Maximal runs are unique, so the contract fixes the result ----

  /** The speaker changes exactly at the joints between runs. */
  lemma {:induction false} MaximalRunsAreUnique(a: seq<Group>, b: seq<Group>, items: seq<SpeakerWord>)
    requires AreMaximalRuns(a, items) && AreMaximalRuns(b, items)
    ensures a == b
    decreases |a|
  {
    if a == [] || b == [] {
      EmptyRuns(a, items);
      EmptyRuns(b, items);
    } else {
      var m, n := |a| - 1, |b| - 1;
      LastRunsAgree(a, b, items);
      DropLastRun(a, items);
      DropLastRun(b, items);
      MaximalRunsAreUnique(a[..m], b[..n], items[..|items| - |a[m]|]);
      assert a == a[..m] + [a[m]] && b == b[..n] + [b[n]];
    }
  }

  lemma EmptyRuns(a: seq<Group>, items: seq<SpeakerWord>)
    requires AreMaximalRuns(a, items)
    ensures a == [] <==> items == []
  {
    if a != [] {
      assert a[|a| - 1] in a && OneSpeaker(a[|a| - 1]);
    }
  }

  lemma DropLastRun(a: seq<Group>, items: seq<SpeakerWord>)
    requires a != [] && AreMaximalRuns(a, items)
    ensures |a[|a| - 1]| <= |items| && AreMaximalRuns(a[..|a| - 1], items[..|items| - |a[|a| - 1]|])
    ensures items[|items| - |a[|a| - 1]|..] == a[|a| - 1]
  {
    var init, last := a[..|a| - 1], a[|a| - 1];
    assert items == Concat(init) + last;
    assert forall g <- init :: g in a;
    assert forall i :: 0 <= i < |init| ==> init[i] == a[i];
    assert forall i :: 0 < i < |init| ==> ChangesAt(a, i) == ChangesAt(init, i);
  }

  /** The last run reaches back exactly to the last change of speaker. */
  lemma LastRunBoundary(a: seq<Group>, items: seq<SpeakerWord>)
    requires a != [] && AreMaximalRuns(a, items)
    ensures var k := |items| - |a[|a| - 1]|;
            0 <= k < |items| && items[k..] == a[|a| - 1] &&
            (forall i :: k <= i < |items| ==> items[i].speaker == items[|items| - 1].speaker) &&
            (k > 0 ==> items[k - 1].speaker != items[|items| - 1].speaker)
  {
    var init, last := a[..|a| - 1], a[|a| - 1];
    var k := |items| - |last|;
    DropLastRun(a, items);
    assert last in a && OneSpeaker(last);
    assert forall i :: k <= i < |items| ==> items[i] == last[i - k];
    if k > 0 {
      EmptyRuns(init, items[..k]);
      var previous := init[|init| - 1];
      DropLastRun(init, items[..k]);
      assert previous in a && OneSpeaker(previous);
      assert items[k - 1] == previous[|previous| - 1];
      assert ChangesAt(a, |a| - 1);
    }
  }

  lemma LastRunsAgree(a: seq<Group>, b: seq<Group>, items: seq<SpeakerWord>)
    requires a != [] && b != [] && AreMaximalRuns(a, items) && AreMaximalRuns(b, items)
    ensures a[|a| - 1] == b[|b| - 1]
  {
    LastRunBoundary(a, items);
    LastRunBoundary(b, items);
    assert |a[|a| - 1]| == |b[|b| - 1]|;
  }

  /** The whole stage. A run whose text exceeds the text limit is refused by the segment type. */
  method Assign(words: seq<Word>, turns: seq<Turn>, round: real -> real)
    returns (r: Result<seq<AttributedSegment>, Error>, ghost groups: seq<Group>)
    ensures words == [] ==> r == Err(NoWordTimestamps)
    ensures words != [] ==>
              AreMaximalRuns(groups, Attributed(words, turns, round)) &&
              r == if forall g <- groups :: IsText(Joined(g)) then Ok(SegmentsOf(groups)) else Err(SegmentTextTooLong)
  {
    groups := [];
    if words == [] {
      return Err(NoWordTimestamps), groups;
    }
    var runs := GroupBySpeaker(Attributed(words, turns, round));
    groups := runs;
    forall k | 0 <= k < |runs|
      ensures runs[k] != []
    {
      assert OneSpeaker(runs[k]);
    }
    var result := [];
    for i := 0 to |runs|
      invariant |result| == i && forall k :: 0 <= k < i ==> runs[k] != [] && result[k] == SegmentOf(runs[k])
      invariant forall k :: 0 <= k < i ==> IsText(Joined(runs[k]))
    {
      if !IsText(Joined(runs[i])) {
        return Err(SegmentTextTooLong), groups;
      }
      result := result + [SegmentOf(runs[i])];
    }
    assert result == SegmentsOf(runs);
    r := Ok(result);
  }

  // ---- What the stage guarantees ----

  ghost predicate IsAttributedSegment(s: AttributedSegment) {
    IsText(s.text) && IsOptionalConfidence(s.confidence) && 0.0 <= s.start < s.end && s.words != [] &&
    WordsFit(s.words, s.start, s.end)
  }

  ghost predicate Sound(items: seq<SpeakerWord>) {
    Monotone(WordsOf(items)) &&
    forall x <- items :: IsWord(x.word) && 0.0 <= x.overlap <= x.word.end - x.word.start
  }

  /** The text of a run is the text of its words in order, with a blank between any two. */
  lemma {:induction false} TextsJoin(a: Group, b: Group)
    requires a != [] && b != []
    ensures Joined(a + b) == Joined(a) + " " + Joined(b)
    ensures forall x: SpeakerWord :: Joined([x]) == x.word.text
  {
    var n := |b| - 1;
    assert (a + b)[..|a + b| - 1] == a + b[..n];
    if n == 0 {
      assert a + b[..n] == a;
    } else {
      TextsJoin(a, b[..n]);
    }
  }

  lemma {:induction false} TotalsJoin(a: Group, b: Group)
    ensures TotalLength(a + b) == TotalLength(a) + TotalLength(b)
    ensures TotalOverlap(a + b) == TotalOverlap(a) + TotalOverlap(b)
    ensures forall x: SpeakerWord :: TotalLength([x]) == x.word.end - x.word.start && TotalOverlap([x]) == x.overlap
  {
    if b == [] {
      assert a + b == a;
    } else {
      var n := |b| - 1;
      assert (a + b)[..|a + b| - 1] == a + b[..n];
      TotalsJoin(a, b[..n]);
    }
  }

  /** A segment reaches from its first to its last word, and its confidence is the share of its words'
      time that the turns cover. */
  lemma SegmentMeaning(g: Group)
    requires g != []
    ensures var s := SegmentOf(g);
            s.start == g[0].word.start && s.end == g[|g| - 1].word.end && s.text == Joined(g) &&
            s.speaker == g[0].speaker && |s.words| == |g| && (forall i :: 0 <= i < |g| ==> s.words[i] == g[i].word) &&
            (s.confidence.Some? <==> s.speaker.Some? && TotalLength(g) > 0.0) &&
            (s.confidence.Some? ==> s.confidence.value * TotalLength(g) == TotalOverlap(g))
  {
  }

  lemma AttributedIsSound(words: seq<Word>, turns: seq<Turn>, round: real -> real)
    requires IsRounding(round) && Monotone(words) && forall w <- words :: IsWord(w)
    ensures Sound(Attributed(words, turns, round))
    ensures WordsOf(Attributed(words, turns, round)) == words
  {
    var items := Attributed(words, turns, round);
    assert WordsOf(items) == words;
    forall x <- items
      ensures IsWord(x.word) && 0.0 <= x.overlap <= x.word.end - x.word.start
    {
      var i :| 0 <= i < |items| && items[i] == x;
      assert words[i] in words;
      if turns != [] {
        var t := BestSpeakerMeaning(words[i], turns, round);
      }
    }
  }

  lemma {:induction false} OverlapWithinLength(g: Group)
    requires forall x <- g :: IsWord(x.word) && 0.0 <= x.overlap <= x.word.end - x.word.start
    ensures 0.0 <= TotalOverlap(g) <= TotalLength(g)
    ensures g != [] ==> TotalLength(g) > 0.0
  {
    if g == [] {
    } else {
      var last := g[|g| - 1];
      assert last in g;
      OverlapWithinLength(g[..|g| - 1]);
    }
  }

  lemma Share(x: real, y: real)
    requires 0.0 <= x <= y && 0.0 < y
    ensures 0.0 <= x / y <= 1.0
  {
  }

  lemma SegmentOfIsValid(g: Group)
    requires OneSpeaker(g) && Sound(g) && IsText(Joined(g))
    ensures IsAttributedSegment(SegmentOf(g))
  {
    OverlapWithinLength(g);
    Share(TotalOverlap(g), TotalLength(g));
    var words := WordsOf(g);
    forall w <- words
      ensures IsWord(w) && words[0].start <= w.start && w.end <= words[|g| - 1].end
    {
      var i :| 0 <= i < |words| && words[i] == w;
      assert g[i] in g;
      assert i > 0 ==> words[0].start <= words[i].start;
      assert i < |g| - 1 ==> words[i].end <= words[|g| - 1].end;
    }
    assert words[0] in words;
  }

  /** Every run is a contiguous part of the input, and later runs lie further to the right. */
  lemma {:induction false} RunsAreSlices(groups: seq<Group>, i: nat) returns (from: nat)
    requires i < |groups|
    ensures from + |groups[i]| <= |Concat(groups)| && Concat(groups)[from..from + |groups[i]|] == groups[i]
    ensures from == |Concat(groups[..i])|
  {
    var n := |groups| - 1;
    if i == n {
      from := |Concat(groups[..n])|;
    } else {
      from := RunsAreSlices(groups[..n], i);
      assert groups[..n][..i] == groups[..i];
    }
  }

  lemma {:induction false} ConcatGrows(groups: seq<Group>, i: nat, j: nat)
    requires i < j <= |groups|
    ensures |Concat(groups[..i])| + |groups[i]| <= |Concat(groups[..j])|
    decreases j
  {
    assert groups[..j][..j - 1] == groups[..j - 1];
    if i >= j - 1 {
    } else {
      ConcatGrows(groups, i, j - 1);
    }
  }

  lemma SliceIsSound(items: seq<SpeakerWord>, from: nat, to: nat)
    requires Sound(items) && from <= to <= |items|
    ensures Sound(items[from..to])
  {
    var g := items[from..to];
    assert WordsOf(g) == WordsOf(items)[from..to];
    assert forall x <- g :: x in items;
  }

  lemma RunIsSound(groups: seq<Group>, items: seq<SpeakerWord>, i: nat)
    requires Concat(groups) == items && Sound(items) && i < |groups|
    ensures Sound(groups[i])
  {
    var from := RunsAreSlices(groups, i);
    SliceIsSound(items, from, from + |groups[i]|);
  }

  /** Earlier runs start and end no later than later runs. */
  lemma RunsAreOrdered(groups: seq<Group>, items: seq<SpeakerWord>, i: nat, j: nat)
    requires Concat(groups) == items && Sound(items) && i < j < |groups|
    requires groups[i] != [] && groups[j] != []
    ensures SegmentOf(groups[i]).start <= SegmentOf(groups[j]).start &&
            SegmentOf(groups[i]).end <= SegmentOf(groups[j]).end
  {
    var a := RunsAreSlices(groups, i);
    var b := RunsAreSlices(groups, j);
    ConcatGrows(groups, i, j);
    var m, n := |groups[i]|, |groups[j]|;
    var words := WordsOf(items);
    assert groups[i][0] == items[a..a + m][0] && groups[i][m - 1] == items[a..a + m][m - 1];
    assert groups[j][0] == items[b..b + n][0] && groups[j][n - 1] == items[b..b + n][n - 1];
    assert words[a].start <= words[b].start && words[a + m - 1].end <= words[b + n - 1].end;
  }
}
