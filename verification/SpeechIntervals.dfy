// Timed speaker segments, the boundary sweep, and the integral computed by sampling midpoints.
// Sampling is proved exact: nothing changes inside an elementary interval, and the sampled time
// of a label is the length of the union of its segments.

module SpeechIntervals {
  import opened Common

  type Label = string

  /** The two public roles. */
  const OPERATOR: Label := "Оператор"
  const CLIENT: Label := "Клиент"

  datatype Segment = Segment(identifier: string, start: real, end: real, speaker: Label)

  predicate Covers(s: Segment, t: real) {
    s.start <= t < s.end
  }

  ghost predicate WellTimed(segments: seq<Segment>) {
    forall s <- segments :: s.start < s.end
  }

  function ActiveSpeakers(segments: seq<Segment>, t: real): set<Label> {
    set s | s in segments && Covers(s, t) :: s.speaker
  }

  function Speakers(segments: seq<Segment>): set<Label> {
    set s | s in segments :: s.speaker
  }

  // ---- Boundaries ----

  ghost predicate Increasing(b: seq<real>) {
    forall i, j :: 0 <= i < j < |b| ==> b[i] < b[j]
  }

  ghost predicate Endpoint(segments: seq<Segment>, t: real) {
    exists s :: s in segments && (t == s.start || t == s.end)
  }

  lemma InsertKeepsOrder(b: seq<real>, t: real, tail: seq<real>)
    requires b != [] && Increasing(b) && b[0] < t
    requires Increasing(tail) && forall x :: x in tail <==> x == t || x in b[1..]
    ensures Increasing([b[0]] + tail)
  {
    forall j | 0 <= j < |tail|
      ensures b[0] < tail[j]
    {
      assert tail[j] in tail;
    }
  }

  function Insert(t: real, b: seq<real>): (r: seq<real>)
    requires Increasing(b)
    ensures Increasing(r) && forall x :: x in r <==> x == t || x in b
  {
    if b == [] || t < b[0] then [t] + b
    else if t == b[0] then b
    else
      var tail := Insert(t, b[1..]);
      assert b == [b[0]] + b[1..];
      InsertKeepsOrder(b, t, tail);
      [b[0]] + tail
  }

  /** The distinct end points in increasing order. */
  function Boundaries(segments: seq<Segment>): (b: seq<real>)
    ensures Increasing(b) && forall x :: x in b <==> Endpoint(segments, x)
  {
    if segments == [] then []
    else
      var rest := Boundaries(segments[1..]);
      assert forall x :: Endpoint(segments, x) <==>
               x == segments[0].start || x == segments[0].end || Endpoint(segments[1..], x) by {
        assert segments == [segments[0]] + segments[1..];
      }
      Insert(segments[0].start, Insert(segments[0].end, rest))
  }

  /** An increasing sequence is determined by its elements. */
  lemma {:induction false} IncreasingIsDetermined(a: seq<real>, b: seq<real>)
    requires Increasing(a) && Increasing(b) && forall x :: x in a <==> x in b
    ensures a == b
  {
    if a == [] {
      if b != [] {
        var x := SomeElement(b);
        assert false;
      }
    } else {
      assert a[0] in a && a[0] in b;
      assert b[0] in b && b[0] in a;
      assert a == [a[0]] + a[1..] && b == [b[0]] + b[1..];
      assert forall x :: x in a[1..] <==> x in a && x != a[0];
      assert forall x :: x in b[1..] <==> x in b && x != b[0];
      IncreasingIsDetermined(a[1..], b[1..]);
    }
  }

  // ---- Midpoint sampling ----

  function Midpoint(left: real, right: real): real { (left + right) / 2.0 }

  /** The contribution of one elementary interval: the value at its midpoint times its length. */
  ghost function Slice(f: real -> real, left: real, right: real): real {
    f(Midpoint(left, right)) * (right - left)
  }

  lemma SliceMonotone(f: real -> real, g: real -> real, left: real, right: real)
    requires left < right && f(Midpoint(left, right)) <= g(Midpoint(left, right))
    ensures Slice(f, left, right) <= Slice(g, left, right)
    ensures Slice(f, left, right) == Slice(g, left, right) ==> f(Midpoint(left, right)) == g(Midpoint(left, right))
  {
    Scaling(f(Midpoint(left, right)), g(Midpoint(left, right)), right - left);
  }

  lemma Scaling(x: real, y: real, d: real)
    requires x <= y && 0.0 < d
    ensures x * d <= y * d && (x * d == y * d ==> x == y)
  {
    if x < y {
      assert (y - x) * d > 0.0;
    }
  }

  lemma SliceAdds(f: real -> real, g: real -> real, h: real -> real, left: real, right: real)
    requires h(Midpoint(left, right)) == f(Midpoint(left, right)) + g(Midpoint(left, right))
    ensures Slice(h, left, right) == Slice(f, left, right) + Slice(g, left, right)
  {
  }

  lemma SliceIs(f: real -> real, left: real, right: real, midpoint: real, v: real, duration: real)
    requires midpoint == Midpoint(left, right) && duration == right - left && f(midpoint) == v
    ensures Slice(f, left, right) == v * duration
  {
  }

  /** The sum over consecutive boundaries. */
  ghost function Integral(f: real -> real, b: seq<real>): real {
    if |b| < 2 then 0.0 else Integral(f, b[..|b| - 1]) + Slice(f, b[|b| - 2], b[|b| - 1])
  }

  /** The part of the integral a left-to-right sweep has reached before boundary `n`. */
  ghost function Sampled(f: real -> real, b: seq<real>, n: nat): real
    requires n <= |b|
  {
    Integral(f, b[..n])
  }

  /** One turn of a sweep adds the value at the midpoint times the duration. */
  lemma SampledStep(f: real -> real, b: seq<real>, i: nat, midpoint: real, v: real, duration: real)
    requires 1 <= i < |b| && midpoint == Midpoint(b[i - 1], b[i]) && duration == b[i] - b[i - 1]
    requires f(midpoint) == v
    ensures Sampled(f, b, i + 1) == Sampled(f, b, i) + v * duration
  {
    SliceIs(f, b[i - 1], b[i], midpoint, v, duration);
    assert b[..i + 1][..i] == b[..i];
  }

  /** A sweep over all boundaries has reached the whole integral. */
  lemma SweepEnds(f: real -> real, b: seq<real>)
    ensures Sampled(f, b, |b|) == Integral(f, b)
  {
    assert b[..|b|] == b;
  }

  ghost predicate Within(b: seq<real>, t: real) {
    |b| > 0 && b[0] <= t < b[|b| - 1]
  }

  /** The midpoint of an elementary interval and everything before it lies within. */
  lemma LastMidpointWithin(b: seq<real>)
    requires Increasing(b) && |b| >= 2
    ensures b[|b| - 2] < b[|b| - 1]
    ensures Within(b, Midpoint(b[|b| - 2], b[|b| - 1]))
    ensures b[|b| - 2] <= Midpoint(b[|b| - 2], b[|b| - 1]) < b[|b| - 1]
    ensures Increasing(b[..|b| - 1]) && forall t :: Within(b[..|b| - 1], t) ==> Within(b, t)
  {
    var init := b[..|b| - 1];
    assert init[|init| - 1] == b[|b| - 2] && init[0] == b[0];
    assert b[|b| - 2] < b[|b| - 1];
  }

  lemma {:induction false} IntegralMonotone(f: real -> real, g: real -> real, b: seq<real>)
    requires Increasing(b) && forall t :: Within(b, t) ==> f(t) <= g(t)
    ensures Integral(f, b) <= Integral(g, b)
  {
    if |b| < 2 {
    } else {
      LastMidpointWithin(b);
      IntegralMonotone(f, g, b[..|b| - 1]);
      SliceMonotone(f, g, b[|b| - 2], b[|b| - 1]);
    }
  }

  lemma IntegralEqual(f: real -> real, g: real -> real, b: seq<real>)
    requires Increasing(b) && forall t :: Within(b, t) ==> f(t) == g(t)
    ensures Integral(f, b) == Integral(g, b)
  {
    IntegralMonotone(f, g, b);
    IntegralMonotone(g, f, b);
  }

  lemma {:induction false} IntegralAdds(f: real -> real, g: real -> real, h: real -> real, b: seq<real>)
    requires Increasing(b) && forall t :: Within(b, t) ==> h(t) == f(t) + g(t)
    ensures Integral(h, b) == Integral(f, b) + Integral(g, b)
  {
    if |b| < 2 {
    } else {
      LastMidpointWithin(b);
      IntegralAdds(f, g, h, b[..|b| - 1]);
      SliceAdds(f, g, h, b[|b| - 2], b[|b| - 1]);
    }
  }

  lemma {:induction false} IntegralZero(f: real -> real, b: seq<real>)
    requires Increasing(b) && forall t :: Within(b, t) ==> f(t) == 0.0
    ensures Integral(f, b) == 0.0
  {
    if |b| < 2 {
    } else {
      LastMidpointWithin(b);
      IntegralZero(f, b[..|b| - 1]);
    }
  }

  /** Functions in order with equal integrals agree on every midpoint. */
  lemma {:induction false} EqualIntegralsAgree(f: real -> real, g: real -> real, b: seq<real>, i: nat)
    requires Increasing(b) && i + 1 < |b|
    requires forall t :: Within(b, t) ==> f(t) <= g(t)
    requires Integral(f, b) == Integral(g, b)
    ensures f(Midpoint(b[i], b[i + 1])) == g(Midpoint(b[i], b[i + 1]))
  {
    LastMidpointWithin(b);
    IntegralMonotone(f, g, b[..|b| - 1]);
    SliceMonotone(f, g, b[|b| - 2], b[|b| - 1]);
    if i + 2 >= |b| {
    } else {
      EqualIntegralsAgree(f, g, b[..|b| - 1], i);
    }
  }

  // ---- Exactness ----

  /** Nobody starts or stops inside an elementary interval. */
  lemma ActiveIsConstant(segments: seq<Segment>, b: seq<real>, i: nat, t: real)
    requires Increasing(b) && (forall x :: Endpoint(segments, x) ==> x in b)
    requires i + 1 < |b| && b[i] <= t < b[i + 1]
    ensures ActiveSpeakers(segments, t) == ActiveSpeakers(segments, Midpoint(b[i], b[i + 1]))
  {
    var m := Midpoint(b[i], b[i + 1]);
    assert b[i] <= m < b[i + 1];
    forall s | s in segments
      ensures Covers(s, t) <==> Covers(s, m)
    {
      assert Endpoint(segments, s.start) && Endpoint(segments, s.end);
      NotInside(b, i, s.start);
      NotInside(b, i, s.end);
    }
  }

  lemma NotInside(b: seq<real>, i: nat, x: real)
    requires Increasing(b) && i + 1 < |b| && x in b
    ensures x <= b[i] || b[i + 1] <= x
  {
    var j :| 0 <= j < |b| && b[j] == x;
    if j < i {
      assert b[j] < b[i];
    } else if j > i + 1 {
      assert b[i + 1] < b[j];
    }
  }

  /** Every instant at which somebody speaks lies in an elementary interval. */
  lemma {:induction false} ElementaryInterval(b: seq<real>, t: real) returns (i: nat)
    requires Within(b, t) && Increasing(b)
    ensures i + 1 < |b| && b[i] <= t < b[i + 1]
  {
    if t < b[|b| - 2] {
      i := ElementaryInterval(b[..|b| - 1], t);
    } else {
      i := |b| - 2;
    }
  }

  lemma ActiveIsWithin(segments: seq<Segment>, b: seq<real>, t: real)
    requires Increasing(b) && (forall x :: Endpoint(segments, x) ==> x in b)
    ensures ActiveSpeakers(segments, t) != {} ==> Within(b, t)
  {
    if ActiveSpeakers(segments, t) != {} {
      var who :| who in ActiveSpeakers(segments, t);
      var s :| s in segments && Covers(s, t) && s.speaker == who;
      assert Endpoint(segments, s.start) && Endpoint(segments, s.end);
      var i :| 0 <= i < |b| && b[i] == s.start;
      var j :| 0 <= j < |b| && b[j] == s.end;
      assert b[0] <= b[i] && b[j] <= b[|b| - 1];
    }
  }

  // ---- Length of a union, without any grid ----

  /** The length of the part of `[lo, hi)` that no segment covers: cut out one segment and go on
      with what is left of it on either side. */
  function Uncovered(lo: real, hi: real, segments: seq<Segment>): real
    decreases |segments|
  {
    if hi <= lo then 0.0
    else if segments == [] then hi - lo
    else
      Uncovered(lo, Min(hi, segments[0].start), segments[1..]) +
      Uncovered(Max(lo, segments[0].end), hi, segments[1..])
  }

  function UnionLength(segments: seq<Segment>): real {
    if segments == [] then 0.0
    else Uncovered(segments[0].start, segments[0].end, segments[1..]) + UnionLength(segments[1..])
  }

  ghost predicate Covered(segments: seq<Segment>, t: real) {
    exists s :: s in segments && Covers(s, t)
  }

  ghost function Free(lo: real, hi: real, segments: seq<Segment>): real -> real {
    t => if lo <= t < hi && !Covered(segments, t) then 1.0 else 0.0
  }

  ghost function Occupied(segments: seq<Segment>): real -> real {
    t => if Covered(segments, t) then 1.0 else 0.0
  }

  /** Where `lo` and `hi` lie relative to the last elementary interval. */
  lemma LastInterval(lo: real, hi: real, b: seq<real>)
    requires Increasing(b) && |b| >= 2 && lo in b && hi in b && lo < hi
    ensures lo in b[..|b| - 1] && b[|b| - 2] in b[..|b| - 1] && lo <= b[|b| - 2]
    ensures hi == b[|b| - 1] || (hi in b[..|b| - 1] && hi <= b[|b| - 2])
  {
    NotInside(b, |b| - 2, lo);
    NotInside(b, |b| - 2, hi);
    var i :| 0 <= i < |b| && b[i] == hi;
    assert b[i] <= b[|b| - 1];
    assert b[..|b| - 1][|b| - 2] == b[|b| - 2];
  }

  /** The last elementary interval is inside `[lo, hi)`, or it comes after. */
  lemma LastIntervalCounts(lo: real, hi: real, b: seq<real>)
    requires Increasing(b) && |b| >= 2 && lo <= b[|b| - 2] && (hi == b[|b| - 1] || hi <= b[|b| - 2])
    ensures var init, left, last := b[..|b| - 1], b[|b| - 2], b[|b| - 1];
            Integral(Free(lo, hi, []), b) ==
            if hi == last then Integral(Free(lo, left, []), init) + (last - left) else Integral(Free(lo, hi, []), init)
  {
    LastMidpointWithin(b);
    var init, left, last := b[..|b| - 1], b[|b| - 2], b[|b| - 1];
    if hi == last {
      IntegralEqual(Free(lo, left, []), Free(lo, hi, []), init);
    }
    SliceIs(Free(lo, hi, []), left, last, Midpoint(left, last), if hi == last then 1.0 else 0.0, last - left);
  }

  lemma {:induction false} IntervalLength(lo: real, hi: real, b: seq<real>)
    requires Increasing(b) && lo in b && hi in b && lo <= hi
    ensures Integral(Free(lo, hi, []), b) == hi - lo
    decreases |b|
  {
    if lo == hi {
      IntegralZero(Free(lo, hi, []), b);
    } else {
      var i :| 0 <= i < |b| && b[i] == lo;
      var j :| 0 <= j < |b| && b[j] == hi;
      LastInterval(lo, hi, b);
      LastIntervalCounts(lo, hi, b);
      IntervalLength(lo, if hi == b[|b| - 1] then b[|b| - 2] else hi, b[..|b| - 1]);
    }
  }

  lemma {:induction false} UncoveredIsSampled(lo: real, hi: real, segments: seq<Segment>, b: seq<real>)
    requires Increasing(b) && WellTimed(segments)
    requires lo < hi ==> lo in b && hi in b
    requires forall x :: Endpoint(segments, x) ==> x in b
    ensures Integral(Free(lo, hi, segments), b) == Uncovered(lo, hi, segments)
    decreases |segments|
  {
    if hi <= lo {
      IntegralZero(Free(lo, hi, segments), b);
    } else if segments == [] {
      IntervalLength(lo, hi, b);
    } else {
      var s, rest := segments[0], segments[1..];
      assert segments == [s] + rest;
      assert forall x :: Endpoint(rest, x) ==> Endpoint(segments, x);
      assert Endpoint(segments, s.start) && Endpoint(segments, s.end);
      UncoveredIsSampled(lo, Min(hi, s.start), rest, b);
      UncoveredIsSampled(Max(lo, s.end), hi, rest, b);
      forall t
        ensures Free(lo, hi, segments)(t) == Free(lo, Min(hi, s.start), rest)(t) + Free(Max(lo, s.end), hi, rest)(t)
      {
        CoveredCons(segments, t);
      }
      IntegralAdds(Free(lo, Min(hi, s.start), rest), Free(Max(lo, s.end), hi, rest), Free(lo, hi, segments), b);
    }
  }

  lemma CoveredCons(segments: seq<Segment>, t: real)
    requires segments != []
    ensures Covered(segments, t) <==> Covers(segments[0], t) || Covered(segments[1..], t)
  {
    assert segments == [segments[0]] + segments[1..];
  }

  /** Main result of the sweep: on any grid that has the end points, sampling measures the union. */
  lemma {:induction false} UnionIsSampled(segments: seq<Segment>, b: seq<real>)
    requires Increasing(b) && WellTimed(segments)
    requires forall x :: Endpoint(segments, x) ==> x in b
    ensures Integral(Occupied(segments), b) == UnionLength(segments)
  {
    if segments == [] {
      IntegralZero(Occupied(segments), b);
    } else {
      var s, rest := segments[0], segments[1..];
      assert segments == [s] + rest;
      assert forall x :: Endpoint(rest, x) ==> Endpoint(segments, x);
      assert Endpoint(segments, s.start) && Endpoint(segments, s.end);
      UncoveredIsSampled(s.start, s.end, rest, b);
      UnionIsSampled(rest, b);
      forall t
        ensures Occupied(segments)(t) == Free(s.start, s.end, rest)(t) + Occupied(rest)(t)
      {
        CoveredCons(segments, t);
      }
      IntegralAdds(Free(s.start, s.end, rest), Occupied(rest), Occupied(segments), b);
    }
  }
}
