// The exhaustive search for the best one-to-one mapping of hypothesis speakers to reference
// speakers. The chosen mapping is proved to reach the greatest correctly mapped time among all
// injective partial mappings, whatever labels they leave out.

module SpeakerMapping {
  import opened Common
  import opened Outcomes
  import opened SpeechIntervals

  datatype Error = TooManyLabels | NoSpeechInterval | NoReferenceSpeech | NotPublicRoles

  const MAX_LABELS: nat := 8

  // ---- What the search maximises ----

  /** The active hypothesis speakers that `m` maps to an active reference speaker. */
  function Matched(reference: seq<Segment>, hypothesis: seq<Segment>, m: map<Label, Label>, t: real): set<Label> {
    Hits(ActiveSpeakers(reference, t), ActiveSpeakers(hypothesis, t), m)
  }

  function Hits(rs: set<Label>, hs: set<Label>, m: map<Label, Label>): set<Label> {
    set h | h in hs && h in m && m[h] in rs
  }

  ghost function MatchedCount(reference: seq<Segment>, hypothesis: seq<Segment>, m: map<Label, Label>): real -> real {
    t => |Matched(reference, hypothesis, m, t)| as real
  }

  function Grid(reference: seq<Segment>, hypothesis: seq<Segment>): seq<real> {
    Boundaries(reference + hypothesis)
  }

  /** The correctly mapped time under `m`. */
  ghost function Agreement(reference: seq<Segment>, hypothesis: seq<Segment>, m: map<Label, Label>): real {
    Integral(MatchedCount(reference, hypothesis, m), Grid(reference, hypothesis))
  }

  ghost predicate Injective(m: map<Label, Label>) {
    forall g, h :: g in m && h in m && m[g] == m[h] ==> g == h
  }

  ghost predicate IsOptimal(reference: seq<Segment>, hypothesis: seq<Segment>, m: map<Label, Label>) {
    Injective(m) &&
    forall other: map<Label, Label> :: Injective(other) ==>
      Agreement(reference, hypothesis, other) <= Agreement(reference, hypothesis, m)
  }

  // ---- Overlap table ----

  ghost function Both(reference: seq<Segment>, hypothesis: seq<Segment>, r: Label, h: Label): real -> real {
    t => if r in ActiveSpeakers(reference, t) && h in ActiveSpeakers(hypothesis, t) then 1.0 else 0.0
  }

  ghost function Overlap(reference: seq<Segment>, hypothesis: seq<Segment>, r: Label, h: Label): real {
    Integral(Both(reference, hypothesis, r, h), Grid(reference, hypothesis))
  }

  lemma OverlapNonNegative(reference: seq<Segment>, hypothesis: seq<Segment>, r: Label, h: Label)
    ensures Overlap(reference, hypothesis, r, h) >= 0.0
  {
    IntegralZero(_ => 0.0, Grid(reference, hypothesis));
    IntegralMonotone(_ => 0.0, Both(reference, hypothesis, r, h), Grid(reference, hypothesis));
  }

  type Table = map<(Label, Label), real>

  ghost predicate Tabulates(table: Table, reference: seq<Segment>, hypothesis: seq<Segment>, b: seq<real>) {
    forall r, h :: r in Speakers(reference) && h in Speakers(hypothesis) ==>
      (r, h) in table && table[(r, h)] == Integral(Both(reference, hypothesis, r, h), b)
  }

  /** Adds `duration` to the entry of every pair of `rs` and `hs`. */
  method AddPairs(table: Table, rs: set<Label>, hs: set<Label>, duration: real) returns (result: Table)
    requires forall r, h :: r in rs && h in hs ==> (r, h) in table
    ensures result.Keys == table.Keys
    ensures forall r, h :: (r, h) in table ==>
              result[(r, h)] == table[(r, h)] + if r in rs && h in hs then duration else 0.0
  {
    result := table;
    var rows := rs;
    while rows != {}
      invariant rows <= rs && result.Keys == table.Keys
      invariant forall r, h :: (r, h) in table ==>
                  result[(r, h)] == table[(r, h)] + if r in rs - rows && h in hs then duration else 0.0
    {
      var r :| r in rows;
      var columns := hs;
      while columns != {}
        invariant columns <= hs && result.Keys == table.Keys
        invariant forall q, h :: (q, h) in table ==>
                    result[(q, h)] == table[(q, h)] +
                      if (q in rs - rows && h in hs) || (q == r && h in hs - columns) then duration else 0.0
      {
        var h :| h in columns;
        result := result[(r, h) := result[(r, h)] + duration];
        columns := columns - {h};
      }
      rows := rows - {r};
    }
  }

  method OverlapTable(reference: seq<Segment>, hypothesis: seq<Segment>, b: seq<real>) returns (table: Table)
    ensures table.Keys == set r, h | r in Speakers(reference) && h in Speakers(hypothesis) :: (r, h)
    ensures Tabulates(table, reference, hypothesis, b)
  {
    table := map r, h | r in Speakers(reference) && h in Speakers(hypothesis) :: (r, h) := 0.0;
    var i := 1;
    while i < |b|
      invariant 1 <= i && (|b| > 0 ==> i <= |b|)
      invariant table.Keys == set r, h | r in Speakers(reference) && h in Speakers(hypothesis) :: (r, h)
      invariant |b| > 0 ==> Tabulates(table, reference, hypothesis, b[..i])
      invariant |b| == 0 ==> Tabulates(table, reference, hypothesis, b)
    {
      var midpoint := Midpoint(b[i - 1], b[i]);
      assert b[..i + 1][..i] == b[..i];
      table := AddPairs(table, ActiveSpeakers(reference, midpoint), ActiveSpeakers(hypothesis, midpoint),
                        b[i] - b[i - 1]);
      i := i + 1;
    }
    assert |b| > 0 ==> b[..|b|] == b;
  }

  // ---- Assignments ----

  type Assignment = seq<Option<Label>>

  /** The dictionary of the program: every hypothesis label, mapped or explicitly not. */
  function Zip(labels: seq<Label>, a: Assignment): (m: map<Label, Option<Label>>)
    requires |labels| == |a|
    ensures forall h :: h in m <==> h in labels
  {
    if labels == [] then map[]
    else Zip(labels[..|labels| - 1], a[..|a| - 1])[labels[|labels| - 1] := a[|a| - 1]]
  }

  function Mapped(m: map<Label, Option<Label>>): map<Label, Label> {
    map h | h in m && m[h].Some? :: m[h].value
  }

  lemma {:induction false} ZipAt(labels: seq<Label>, a: Assignment, i: nat)
    requires |labels| == |a| && Distinct(labels) && i < |a|
    ensures Zip(labels, a)[labels[i]] == a[i]
  {
    var n := |a| - 1;
    if i >= n {
    } else {
      ZipAt(labels[..n], a[..n], i);
      assert labels[i] != labels[n] && labels[..n][i] == labels[i] && a[..n][i] == a[i];
    }
  }

  function Entry(table: Table, r: Option<Label>, h: Label): real {
    if r.Some? && (r.value, h) in table then table[(r.value, h)] else 0.0
  }

  function Score(table: Table, labels: seq<Label>, a: Assignment): real
    requires |labels| == |a|
  {
    if labels == [] then 0.0
    else Score(table, labels[..|labels| - 1], a[..|a| - 1]) + Entry(table, a[|a| - 1], labels[|labels| - 1])
  }

  ghost predicate UsesSpeakers(a: Assignment, reference: seq<Segment>) {
    forall i :: 0 <= i < |a| && a[i].Some? ==> a[i].value in Speakers(reference)
  }

  lemma HitsExtend(rs: set<Label>, hs: set<Label>, m: map<Label, Label>, h: Label, r: Label)
    requires h !in m
    ensures |Hits(rs, hs, m[h := r])| == |Hits(rs, hs, m)| + if r in rs && h in hs then 1 else 0
  {
    if r in rs && h in hs {
      assert Hits(rs, hs, m[h := r]) == Hits(rs, hs, m) + {h};
    } else {
      assert Hits(rs, hs, m[h := r]) == Hits(rs, hs, m);
    }
  }

  lemma MatchedExtends(reference: seq<Segment>, hypothesis: seq<Segment>, m: map<Label, Option<Label>>,
                       h: Label, r: Option<Label>, t: real)
    requires h !in m
    ensures MatchedCount(reference, hypothesis, Mapped(m[h := r]))(t) ==
            MatchedCount(reference, hypothesis, Mapped(m))(t) +
              if r.Some? then Both(reference, hypothesis, r.value, h)(t) else 0.0
  {
    if r.None? {
      assert Mapped(m[h := r]) == Mapped(m);
    } else {
      assert Mapped(m[h := r]) == Mapped(m)[h := r.value];
      HitsExtend(ActiveSpeakers(reference, t), ActiveSpeakers(hypothesis, t), Mapped(m), h, r.value);
    }
  }

  /** One more label adds the time it speaks together with the label it is mapped to. */
  lemma AgreementExtends(reference: seq<Segment>, hypothesis: seq<Segment>, m: map<Label, Option<Label>>, h: Label,
                         r: Option<Label>)
    requires h !in m
    ensures Agreement(reference, hypothesis, Mapped(m[h := r])) ==
            Agreement(reference, hypothesis, Mapped(m)) +
              if r.Some? then Integral(Both(reference, hypothesis, r.value, h), Grid(reference, hypothesis)) else 0.0
  {
    var b := Grid(reference, hypothesis);
    var last: real -> real := if r.Some? then Both(reference, hypothesis, r.value, h) else _ => 0.0;
    forall t
      ensures MatchedCount(reference, hypothesis, Mapped(m[h := r]))(t) ==
              MatchedCount(reference, hypothesis, Mapped(m))(t) + last(t)
    {
      MatchedExtends(reference, hypothesis, m, h, r, t);
    }
    IntegralAdds(MatchedCount(reference, hypothesis, Mapped(m)), last,
                 MatchedCount(reference, hypothesis, Mapped(m[h := r])), b);
    if r.None? {
      IntegralZero(last, b);
    }
  }

  /** The score of an assignment is the correctly mapped time of its mapping. */
  lemma {:induction false} ScoreIsAgreement(reference: seq<Segment>, hypothesis: seq<Segment>, table: Table,
                                            labels: seq<Label>, a: Assignment)
    requires |labels| == |a| && Distinct(labels) && (forall h :: h in labels ==> h in Speakers(hypothesis))
    requires UsesSpeakers(a, reference)
    requires Tabulates(table, reference, hypothesis, Grid(reference, hypothesis))
    ensures Score(table, labels, a) == Agreement(reference, hypothesis, Mapped(Zip(labels, a)))
  {
    if labels == [] {
      IntegralZero(MatchedCount(reference, hypothesis, Mapped(Zip(labels, a))), Grid(reference, hypothesis));
    } else {
      var n := |labels| - 1;
      ScoreIsAgreement(reference, hypothesis, table, labels[..n], a[..n]);
      assert labels[n] in labels && labels[n] !in labels[..n];
      AgreementExtends(reference, hypothesis, Zip(labels[..n], a[..n]), labels[n], a[n]);
    }
  }

  // ---- Permutations ----

  function RemoveAt<T>(s: seq<T>, i: nat): seq<T>
    requires i < |s|
  {
    s[..i] + s[i + 1..]
  }

  function Prefixed(x: Option<Label>, ps: seq<Assignment>): (r: seq<Assignment>)
    ensures |r| == |ps| && forall i :: 0 <= i < |ps| ==> r[i] == [x] + ps[i]
  {
    seq(|ps|, i requires 0 <= i < |ps| => [x] + ps[i])
  }

  /** All arrangements of `k` elements of the pool, by position, in the order of positions. */
  function Permutations(pool: Assignment, k: nat): seq<Assignment>
    decreases k, 0
  {
    if k == 0 then [[]] else StartingFrom(pool, k, 0)
  }

  function StartingFrom(pool: Assignment, k: nat, i: nat): seq<Assignment>
    requires k > 0
    decreases k - 1, 1, |pool| - i
  {
    if i >= |pool| then []
    else Prefixed(pool[i], Permutations(RemoveAt(pool, i), k - 1)) + StartingFrom(pool, k, i + 1)
  }

  lemma RemoveAtMultiset<T>(s: seq<T>, i: nat)
    requires i < |s|
    ensures multiset(RemoveAt(s, i)) == multiset(s) - multiset{s[i]}
  {
    assert s == s[..i] + [s[i]] + s[i + 1..];
  }

  /** Arrangements use every element of the pool at most as often as it occurs there. */
  lemma {:induction false} PermutationsAreSound(pool: Assignment, k: nat, a: Assignment)
    requires a in Permutations(pool, k)
    ensures |a| == k && multiset(a) <= multiset(pool)
    decreases k, 0
  {
    if k > 0 {
      StartingFromIsSound(pool, k, 0, a);
    }
  }

  lemma {:induction false} StartingFromIsSound(pool: Assignment, k: nat, i: nat, a: Assignment)
    requires k > 0 && a in StartingFrom(pool, k, i)
    ensures |a| == k && multiset(a) <= multiset(pool)
    decreases k - 1, 1, |pool| - i
  {
    var head := Prefixed(pool[i], Permutations(RemoveAt(pool, i), k - 1));
    if a in head {
      var j :| 0 <= j < |head| && head[j] == a;
      var rest := Permutations(RemoveAt(pool, i), k - 1)[j];
      PermutationsAreSound(RemoveAt(pool, i), k - 1, rest);
      RemoveAtMultiset(pool, i);
      assert pool[i] in multiset(pool);
    } else {
      StartingFromIsSound(pool, k, i + 1, a);
    }
  }

  /** And every such selection is among them. */
  lemma {:induction false} PermutationsAreComplete(pool: Assignment, k: nat, a: Assignment)
    requires |a| == k && multiset(a) <= multiset(pool)
    ensures a in Permutations(pool, k)
  {
    if k == 0 {
    } else {
      var x, rest := a[0], a[1..];
      assert a == [x] + rest;
      assert x in multiset(pool);
      var i :| 0 <= i < |pool| && pool[i] == x;
      RemoveAtMultiset(pool, i);
      PermutationsAreComplete(RemoveAt(pool, i), k - 1, rest);
      var ps := Permutations(RemoveAt(pool, i), k - 1);
      var j :| 0 <= j < |ps| && ps[j] == rest;
      assert Prefixed(x, ps)[j] == a;
      StartingFromContains(pool, k, 0, i, a);
    }
  }

  lemma {:induction false} StartingFromContains(pool: Assignment, k: nat, i: nat, j: nat, a: Assignment)
    requires k > 0 && i <= j < |pool|
    requires a in Prefixed(pool[j], Permutations(RemoveAt(pool, j), k - 1))
    ensures a in StartingFrom(pool, k, i)
    decreases j - i
  {
    if i >= j {
    } else {
      StartingFromContains(pool, k, i + 1, j, a);
    }
  }

  // ---- Partial mappings extend to arrangements ----

  function Somes(a: Assignment): multiset<Option<Label>> {
    if a == [] then multiset{}
    else (if a[0].Some? then multiset{a[0]} else multiset{}) + Somes(a[1..])
  }

  lemma {:induction false} SomesSize(a: Assignment)
    ensures |Somes(a)| <= |a|
  {
    if a == [] {
    } else {
      SomesSize(a[1..]);
    }
  }

  /** The label for the first place: its own, or one no later place needs. */
  lemma FirstLabel(a: Assignment, pool: multiset<Option<Label>>) returns (x: Option<Label>)
    requires a != [] && Somes(a) <= pool && |a| <= |pool|
    ensures x in pool && (a[0].Some? ==> x == a[0])
    ensures Somes(a[1..]) <= pool - multiset{x}
  {
    x := a[0];
    if x.None? {
      SomesSize(a[1..]);
      var spare := pool - Somes(a[1..]);
      assert pool == Somes(a[1..]) + spare;
      assert |spare| > 0;
      x :| x in spare;
    }
  }

  /** Unused labels fill the places a partial assignment leaves open. */
  lemma {:induction false} Extend(a: Assignment, pool: multiset<Option<Label>>) returns (e: Assignment)
    requires Somes(a) <= pool && |a| <= |pool|
    ensures |e| == |a| && multiset(e) <= pool
    ensures forall i :: 0 <= i < |a| && a[i].Some? ==> e[i] == a[i]
  {
    if a == [] {
      e := [];
    } else {
      var x := FirstLabel(a, pool);
      var rest := Extend(a[1..], pool - multiset{x});
      e := [x] + rest;
      PrependWithin(x, rest, pool);
    }
  }

  lemma PrependWithin(x: Option<Label>, rest: Assignment, pool: multiset<Option<Label>>)
    requires x in pool && multiset(rest) <= pool - multiset{x}
    ensures multiset([x] + rest) <= pool
  {
    assert multiset([x] + rest) == multiset{x} + multiset(rest);
  }

  lemma {:induction false} SomesCounts(a: Assignment, x: Option<Label>)
    requires forall i, j :: 0 <= i < j < |a| && a[i].Some? ==> a[i] != a[j]
    ensures Somes(a)[x] <= 1
    ensures x in Somes(a) ==> x.Some? && x in a
  {
    if a == [] {
    } else {
      SomesCounts(a[1..], x);
    }
  }

  lemma {:induction false} ScoreGrows(reference: seq<Segment>, hypothesis: seq<Segment>, table: Table,
                                      labels: seq<Label>, a: Assignment, e: Assignment)
    requires |labels| == |a| == |e|
    requires forall r, h :: (r, h) in table ==> table[(r, h)] >= 0.0
    requires forall i :: 0 <= i < |a| && a[i].Some? ==> e[i] == a[i]
    ensures Score(table, labels, a) <= Score(table, labels, e)
  {
    if labels == [] {
    } else {
      var n := |labels| - 1;
      ScoreGrows(reference, hypothesis, table, labels[..n], a[..n], e[..n]);
    }
  }

  /** The assignment a partial mapping makes to the hypothesis labels. */
  function Restrict(labels: seq<Label>, m: map<Label, Label>, speakers: set<Label>): (a: Assignment)
    ensures |a| == |labels|
    ensures forall i :: 0 <= i < |a| ==>
              a[i] == if labels[i] in m && m[labels[i]] in speakers then Some(m[labels[i]]) else None
  {
    seq(|labels|, i requires 0 <= i < |labels| =>
      if labels[i] in m && m[labels[i]] in speakers then Some(m[labels[i]]) else None)
  }

  lemma RestrictKeepsAgreement(reference: seq<Segment>, hypothesis: seq<Segment>, labels: seq<Label>,
                               m: map<Label, Label>)
    requires Distinct(labels) && forall h :: h in labels <==> h in Speakers(hypothesis)
    ensures Agreement(reference, hypothesis, m) ==
            Agreement(reference, hypothesis, Mapped(Zip(labels, Restrict(labels, m, Speakers(reference)))))
  {
    var a := Restrict(labels, m, Speakers(reference));
    var z := Zip(labels, a);
    forall h | h in labels
      ensures z[h] == if h in m && m[h] in Speakers(reference) then Some(m[h]) else None
    {
      var i :| 0 <= i < |labels| && labels[i] == h;
      ZipAt(labels, a, i);
    }
    forall t
      ensures MatchedCount(reference, hypothesis, m)(t) == MatchedCount(reference, hypothesis, Mapped(z))(t)
    {
      assert ActiveSpeakers(hypothesis, t) <= Speakers(hypothesis) &&
             ActiveSpeakers(reference, t) <= Speakers(reference);
      assert Matched(reference, hypothesis, m, t) == Matched(reference, hypothesis, Mapped(z), t);
    }
    IntegralEqual(MatchedCount(reference, hypothesis, m), MatchedCount(reference, hypothesis, Mapped(z)),
                  Grid(reference, hypothesis));
  }

  // ---- The pool: every reference label once, then enough blanks ----

  function Pool(labels: seq<Label>, blanks: nat): (p: Assignment)
    ensures |p| == |labels| + blanks
    ensures forall i :: 0 <= i < |p| ==> p[i] == if i < |labels| then Some(labels[i]) else None
  {
    seq(|labels| + blanks, i requires 0 <= i < |labels| + blanks => if i < |labels| then Some(labels[i]) else None)
  }

  lemma {:induction false} DistinctSeqCounts<T>(s: seq<T>, x: T)
    requires forall i, j :: 0 <= i < j < |s| && s[i] == x ==> s[j] != x
    ensures multiset(s)[x] <= 1
  {
    if s == [] {
    } else {
      assert s == [s[0]] + s[1..];
      DistinctSeqCounts(s[1..], x);
      if s[0] == x {
        assert x !in s[1..];
      }
    }
  }

  /** An arrangement of the pool is an injective mapping to reference speakers. */
  lemma ArrangementIsInjective(labels: seq<Label>, pool: Assignment, targets: seq<Label>, blanks: nat, a: Assignment)
    requires Distinct(labels) && Distinct(targets) && |a| == |labels|
    requires pool == Pool(targets, blanks) && multiset(a) <= multiset(pool)
    ensures Injective(Mapped(Zip(labels, a)))
    ensures forall i :: 0 <= i < |a| && a[i].Some? ==> a[i].value in targets
  {
    var m := Mapped(Zip(labels, a));
    forall i | 0 <= i < |a|
      ensures a[i] in pool
    {
      assert a[i] in multiset(a);
    }
    forall g, h | g in m && h in m && m[g] == m[h]
      ensures g == h
    {
      var i :| 0 <= i < |labels| && labels[i] == g;
      var j :| 0 <= j < |labels| && labels[j] == h;
      ZipAt(labels, a, i);
      ZipAt(labels, a, j);
      if i != j {
        TwiceInSequence(a, i, j);
        DistinctSeqCounts(pool, a[i]);
        assert false;
      }
    }
  }

  lemma TwiceInSequence<T>(s: seq<T>, i: nat, j: nat)
    requires i < |s| && j < |s| && i != j && s[i] == s[j]
    ensures multiset(s)[s[i]] >= 2
  {
    var lo, hi := if i < j then i else j, if i < j then j else i;
    assert s == s[..lo] + [s[lo]] + s[lo + 1..hi] + [s[hi]] + s[hi + 1..];
  }

  /** No injective mapping, however partial, beats the best arrangement. */
  lemma SomeArrangementIsAsGood(reference: seq<Segment>, hypothesis: seq<Segment>, table: Table,
                                labels: seq<Label>, targets: seq<Label>, blanks: nat, m: map<Label, Label>)
      returns (e: Assignment)
    requires Distinct(labels) && forall h :: h in labels <==> h in Speakers(hypothesis)
    requires Distinct(targets) && forall r :: r in targets <==> r in Speakers(reference)
    requires |labels| <= |targets| + blanks && Injective(m)
    requires Tabulates(table, reference, hypothesis, Grid(reference, hypothesis))
    requires forall r, h :: (r, h) in table ==> table[(r, h)] >= 0.0
    ensures e in Permutations(Pool(targets, blanks), |labels|) && |e| == |labels|
    ensures Agreement(reference, hypothesis, m) <= Score(table, labels, e)
  {
    var pool := Pool(targets, blanks);
    var a := Restrict(labels, m, Speakers(reference));
    assert UsesSpeakers(a, reference);
    RestrictKeepsAgreement(reference, hypothesis, labels, m);
    ScoreIsAgreement(reference, hypothesis, table, labels, a);
    forall x
      ensures Somes(a)[x] <= multiset(pool)[x]
    {
      SomesCounts(a, x);
      if x in Somes(a) {
        var i :| 0 <= i < |targets| && targets[i] == x.value;
        assert pool[i] == x && x in multiset(pool);
      }
    }
    e := Extend(a, multiset(pool));
    PermutationsAreComplete(pool, |labels|, e);
    ScoreGrows(reference, hypothesis, table, labels, a, e);
  }

  // ---- The search ----

  method Enumerate(labels: set<Label>) returns (q: seq<Label>)
    ensures Distinct(q) && |q| == |labels| && forall x :: x in q <==> x in labels
  {
    q := [];
    var rest := labels;
    while rest != {}
      invariant rest <= labels && |q| + |rest| == |labels|
      invariant Distinct(q) && forall x :: x in q <==> x in labels - rest
    {
      var x :| x in rest;
      assert x !in q;
      q := q + [x];
      rest := rest - {x};
    }
  }

  predicate WithinLabelLimit(reference: seq<Segment>, hypothesis: seq<Segment>) {
    |Speakers(reference)| <= MAX_LABELS && |Speakers(hypothesis)| <= MAX_LABELS
  }

  method OptimalSpeakerMapping(reference: seq<Segment>, hypothesis: seq<Segment>, boundaries: seq<real>)
    returns (r: Result<map<Label, Option<Label>>, Error>)
    requires boundaries == Grid(reference, hypothesis)
    ensures if WithinLabelLimit(reference, hypothesis)
            then r.Ok? && IsOptimal(reference, hypothesis, Mapped(r.value))
            else r == Err(TooManyLabels)
  {
    var targets := Enumerate(Speakers(reference));
    var labels := Enumerate(Speakers(hypothesis));
    if |targets| > MAX_LABELS || |labels| > MAX_LABELS {
      return Err(TooManyLabels);
    }
    var table := OverlapTable(reference, hypothesis, boundaries);
    forall q, h | (q, h) in table
      ensures table[(q, h)] >= 0.0
    {
      OverlapNonNegative(reference, hypothesis, q, h);
    }
    var blanks := if |labels| > |targets| then |labels| - |targets| else 0;
    var mapping := BestArrangement(table, labels, Pool(targets, blanks));
    ChosenIsOptimal(reference, hypothesis, table, labels, targets, blanks, mapping);
    r := Ok(mapping);
  }

  ghost predicate IsBestOf(table: Table, labels: seq<Label>, all: seq<Assignment>, chosen: map<Label, Option<Label>>) {
    (forall a :: a in all ==> |a| == |labels|) &&
    (all != [] ==> exists a :: a in all && chosen == Zip(labels, a) && NoneBetter(table, labels, all, a))
  }

  ghost predicate NoneBetter(table: Table, labels: seq<Label>, all: seq<Assignment>, a: Assignment)
    requires |a| == |labels| && forall other :: other in all ==> |other| == |labels|
  {
    forall other :: other in all ==> Score(table, labels, other) <= Score(table, labels, a)
  }

  method BestArrangement(table: Table, labels: seq<Label>, pool: Assignment)
      returns (bestMapping: map<Label, Option<Label>>)
    requires forall r, h :: (r, h) in table ==> table[(r, h)] >= 0.0
    ensures IsBestOf(table, labels, Permutations(pool, |labels|), bestMapping)
  {
    var all := Permutations(pool, |labels|);
    bestMapping := map[];
    var bestOverlap := -1.0;
    ghost var best: Assignment := [];
    for k := 0 to |all|
      invariant forall j :: 0 <= j < k ==> |all[j]| == |labels| && Score(table, labels, all[j]) <= bestOverlap
      invariant if k == 0 then bestOverlap == -1.0
                else
                  best in all && |best| == |labels| && bestMapping == Zip(labels, best) &&
                  bestOverlap == Score(table, labels, best)
    {
      PermutationsAreSound(pool, |labels|, all[k]);
      ScoreNonNegative(table, labels, all[k]);
      var score := Score(table, labels, all[k]);
      if score > bestOverlap {
        bestOverlap := score;
        bestMapping := Zip(labels, all[k]);
        best := all[k];
      }
    }
  }

  lemma {:induction false} ScoreNonNegative(table: Table, labels: seq<Label>, a: Assignment)
    requires |labels| == |a| && forall r, h :: (r, h) in table ==> table[(r, h)] >= 0.0
    ensures Score(table, labels, a) >= 0.0
  {
    if labels == [] {
    } else {
      ScoreNonNegative(table, labels[..|labels| - 1], a[..|a| - 1]);
    }
  }

  lemma ChosenIsOptimal(reference: seq<Segment>, hypothesis: seq<Segment>, table: Table, labels: seq<Label>,
                        targets: seq<Label>, blanks: nat, chosen: map<Label, Option<Label>>)
    requires Distinct(labels) && forall h :: h in labels <==> h in Speakers(hypothesis)
    requires Distinct(targets) && forall r :: r in targets <==> r in Speakers(reference)
    requires |labels| <= |targets| + blanks
    requires Tabulates(table, reference, hypothesis, Grid(reference, hypothesis))
    requires forall r, h :: (r, h) in table ==> table[(r, h)] >= 0.0
    requires IsBestOf(table, labels, Permutations(Pool(targets, blanks), |labels|), chosen)
    ensures IsOptimal(reference, hypothesis, Mapped(chosen))
  {
    var all := Permutations(Pool(targets, blanks), |labels|);
    var e := SomeArrangementIsAsGood(reference, hypothesis, table, labels, targets, blanks, map[]);
    var a :| a in all && chosen == Zip(labels, a) && NoneBetter(table, labels, all, a);
    PermutationsAreSound(Pool(targets, blanks), |labels|, a);
    ArrangementIsInjective(labels, Pool(targets, blanks), targets, blanks, a);
    ScoreIsAgreement(reference, hypothesis, table, labels, a);
    forall m: map<Label, Label> | Injective(m)
      ensures Agreement(reference, hypothesis, m) <= Agreement(reference, hypothesis, Mapped(chosen))
    {
      var other := SomeArrangementIsAsGood(reference, hypothesis, table, labels, targets, blanks, m);
    }
  }
}
