// The order in which the utterances of a transcript are read: by start, end and identifier. The text
// is proved independent of the listing, and it is said exactly when it is independent of the
// identifiers.

module TranscriptOrder {
  import opened Common
  import opened SpeechIntervals
  import TextOrder

  /** A segment with the tokens of its text. */
  datatype Utterance = Utterance(segment: Segment, tokens: seq<string>)

  // ---- Time order ----

  predicate Earlier(a: Segment, b: Segment) {
    a.start < b.start ||
    (a.start == b.start && (a.end < b.end ||
    (a.end == b.end && TextOrder.Leq(a.identifier, b.identifier))))
  }

  /** Behind everything that is not later. */
  function Insert(u: Utterance, s: seq<Utterance>): seq<Utterance> {
    if s == [] then [u]
    else
      var n := |s| - 1;
      if Earlier(s[n].segment, u.segment) then s + [u] else Insert(u, s[..n]) + [s[n]]
  }

  function TimeOrdered(s: seq<Utterance>): seq<Utterance> {
    if s == [] then [] else Insert(s[|s| - 1], TimeOrdered(s[..|s| - 1]))
  }

  function Tokens(s: seq<Utterance>): seq<string> {
    if s == [] then [] else Tokens(s[..|s| - 1]) + s[|s| - 1].tokens
  }

  predicate DistinctIdentifiers(s: seq<Utterance>) {
    forall i, j :: 0 <= i < j < |s| ==> s[i].segment.identifier != s[j].segment.identifier
  }

  lemma EarlierTotal(a: Segment, b: Segment)
    ensures Earlier(a, b) || Earlier(b, a)
  {
    TextOrder.Total(a.identifier, b.identifier);
  }

  lemma EarlierTransitive(a: Segment, b: Segment, c: Segment)
    requires Earlier(a, b) && Earlier(b, c)
    ensures Earlier(a, c)
  {
    if a.start == b.start == c.start && a.end == b.end == c.end {
      TextOrder.Transitive(a.identifier, b.identifier, c.identifier);
    }
  }

  lemma EarlierBothWays(a: Segment, b: Segment)
    requires Earlier(a, b) && Earlier(b, a)
    ensures a.identifier == b.identifier
  {
    TextOrder.Antisymmetric(a.identifier, b.identifier);
  }

  /** Everything in `s` comes before `u` and is another segment. */
  ghost predicate AllBefore(s: seq<Utterance>, u: Utterance) {
    forall x :: x in s ==> Earlier(x.segment, u.segment) && x.segment.identifier != u.segment.identifier
  }

  ghost predicate IsSorted(s: seq<Utterance>) {
    s != [] ==> AllBefore(s[..|s| - 1], s[|s| - 1]) && IsSorted(s[..|s| - 1])
  }

  lemma SortedSnoc(s: seq<Utterance>, u: Utterance)
    ensures IsSorted(s + [u]) <==> IsSorted(s) && AllBefore(s, u)
  {
    assert (s + [u])[..|s|] == s;
  }

  ghost predicate Unnamed(s: seq<Utterance>, u: Utterance) {
    forall x :: x in s ==> x.segment.identifier != u.segment.identifier
  }

  lemma {:induction false} InsertSorts(u: Utterance, s: seq<Utterance>)
    requires IsSorted(s) && Unnamed(s, u)
    ensures IsSorted(Insert(u, s)) && forall x :: x in Insert(u, s) <==> x == u || x in s
  {
    if s != [] {
      var n := |s| - 1;
      var init, last := s[..n], s[n];
      assert s == init + [last];
      if Earlier(last.segment, u.segment) {
        forall x | x in s ensures Earlier(x.segment, u.segment) {
          if x != last {
            assert x in init;
            EarlierTransitive(x.segment, last.segment, u.segment);
          }
        }
        SortedSnoc(s, u);
      } else {
        EarlierTotal(last.segment, u.segment);
        InsertSorts(u, init);
        SortedSnoc(Insert(u, init), last);
      }
    } else {
      SortedSnoc([], u);
      assert [] + [u] == [u];
    }
  }

  lemma {:induction false} TimeOrderedSorts(s: seq<Utterance>)
    requires DistinctIdentifiers(s)
    ensures IsSorted(TimeOrdered(s)) && forall x :: x in TimeOrdered(s) <==> x in s
  {
    if s == [] {
    } else {
      var n := |s| - 1;
      TimeOrderedSorts(s[..n]);
      assert s == s[..n] + [s[n]];
      InsertSorts(s[n], TimeOrdered(s[..n]));
    }
  }

  ghost predicate SameElements(a: seq<Utterance>, b: seq<Utterance>) {
    forall x :: x in a <==> x in b
  }

  lemma InPrefixOrLast(s: seq<Utterance>, x: Utterance)
    requires s != []
    ensures x in s <==> x in s[..|s| - 1] || x == s[|s| - 1]
  {
    assert s == s[..|s| - 1] + [s[|s| - 1]];
  }

  lemma LastsAgree(a: seq<Utterance>, b: seq<Utterance>)
    requires a != [] && b != [] && IsSorted(a) && IsSorted(b) && SameElements(a, b)
    ensures a[|a| - 1] == b[|b| - 1]
  {
    var x, y := a[|a| - 1], b[|b| - 1];
    assert x in a && y in b;
    InPrefixOrLast(b, x);
    InPrefixOrLast(a, y);
    if x != y {
      EarlierBothWays(x.segment, y.segment);
    }
  }

  /** What comes before the last segment of one list comes before the last of the other. */
  lemma PrefixIncluded(a: seq<Utterance>, b: seq<Utterance>, x: Utterance)
    requires a != [] && b != [] && SameElements(a, b) && a[|a| - 1] == b[|b| - 1]
    requires AllBefore(a[..|a| - 1], a[|a| - 1]) && x in a[..|a| - 1]
    ensures x in b[..|b| - 1]
  {
    InPrefixOrLast(a, x);
    InPrefixOrLast(b, x);
  }

  lemma SnocUnique(a: seq<Utterance>, b: seq<Utterance>)
    requires a != [] && b != [] && a[|a| - 1] == b[|b| - 1] && a[..|a| - 1] == b[..|b| - 1]
    ensures a == b
  {
    assert a == a[..|a| - 1] + [a[|a| - 1]];
  }

  lemma DropLasts(a: seq<Utterance>, b: seq<Utterance>)
    requires a != [] && b != [] && IsSorted(a) && IsSorted(b) && SameElements(a, b)
    ensures a[|a| - 1] == b[|b| - 1]
    ensures IsSorted(a[..|a| - 1]) && IsSorted(b[..|b| - 1]) && SameElements(a[..|a| - 1], b[..|b| - 1])
  {
    LastsAgree(a, b);
    var a', b' := a[..|a| - 1], b[..|b| - 1];
    forall x ensures x in a' <==> x in b' {
      if x in a' {
        PrefixIncluded(a, b, x);
      }
      if x in b' {
        PrefixIncluded(b, a, x);
      }
    }
  }

  /** Two sorted lists with the same elements are the same list. */
  lemma {:induction false} SortedIsDetermined(a: seq<Utterance>, b: seq<Utterance>)
    requires IsSorted(a) && IsSorted(b) && SameElements(a, b)
    ensures a == b
  {
    if a == [] || b == [] {
      BothEmpty(a, b);
    } else {
      DropLasts(a, b);
      SortedIsDetermined(a[..|a| - 1], b[..|b| - 1]);
      SnocUnique(a, b);
    }
  }

  lemma BothEmpty(a: seq<Utterance>, b: seq<Utterance>)
    requires SameElements(a, b) && (a == [] || b == [])
    ensures a == b
  {
    if a != [] {
      var x := SomeElement(a);
      assert false;
    }
    if b != [] {
      var x := SomeElement(b);
      assert false;
    }
  }

  /** The time-ordered text does not depend on the order the segments are listed in. */
  lemma TimeOrderIgnoresListing(a: seq<Utterance>, b: seq<Utterance>)
    requires DistinctIdentifiers(a) && DistinctIdentifiers(b) && SameElements(a, b)
    ensures TimeOrdered(a) == TimeOrdered(b)
  {
    TimeOrderedSorts(a);
    TimeOrderedSorts(b);
    SortedIsDetermined(TimeOrdered(a), TimeOrdered(b));
  }

  /** The time order: by start, then by end, then by identifier, and nothing is lost or added. */
  lemma TimeOrderMeaning(s: seq<Utterance>, i: nat, j: nat)
    requires DistinctIdentifiers(s)
    ensures multiset(TimeOrdered(s)) == multiset(s)
    ensures i < j < |TimeOrdered(s)| ==>
              var a, b := TimeOrdered(s)[i].segment, TimeOrdered(s)[j].segment;
              a.start < b.start ||
              (a.start == b.start &&
               (a.end < b.end ||
                (a.end == b.end && a.identifier != b.identifier && TextOrder.Leq(a.identifier, b.identifier))))
  {
    TimeOrderedSorts(s);
    TimeOrderedKeepsAll(s);
    if i < j < |TimeOrdered(s)| {
      SortedAt(TimeOrdered(s), i, j);
    }
  }

  lemma {:induction false} TimeOrderedKeepsAll(s: seq<Utterance>)
    ensures multiset(TimeOrdered(s)) == multiset(s)
  {
    if s == [] {
    } else {
      var n := |s| - 1;
      TimeOrderedKeepsAll(s[..n]);
      InsertKeepsAll(s[n], TimeOrdered(s[..n]));
      LastOfMany(s);
    }
  }

  lemma LastOfMany(s: seq<Utterance>)
    requires s != []
    ensures multiset(s) == multiset(s[..|s| - 1]) + multiset{s[|s| - 1]}
  {
    assert s == s[..|s| - 1] + [s[|s| - 1]];
  }

  lemma {:induction false} InsertKeepsAll(u: Utterance, s: seq<Utterance>)
    ensures multiset(Insert(u, s)) == multiset(s) + multiset{u}
  {
    if s == [] {
    } else {
      var n := |s| - 1;
      LastOfMany(s);
      InsertKeepsAll(u, s[..n]);
    }
  }

  function Relabel(s: seq<Utterance>, name: string -> string): (r: seq<Utterance>)
    ensures |r| == |s|
    ensures forall i :: 0 <= i < |s| ==> r[i] == Renamed(s[i], name)
  {
    seq(|s|, i requires 0 <= i < |s| => Renamed(s[i], name))
  }

  predicate Apart(u: Utterance, v: Utterance) {
    u.segment.start != v.segment.start || u.segment.end != v.segment.end
  }

  function Renamed(u: Utterance, name: string -> string): Utterance {
    Utterance(u.segment.(identifier := name(u.segment.identifier)), u.tokens)
  }

  lemma {:induction false} TokensOfRelabelled(s: seq<Utterance>, name: string -> string)
    ensures Tokens(Relabel(s, name)) == Tokens(s)
  {
    if s == [] {
    } else {
      assert Relabel(s, name)[..|s| - 1] == Relabel(s[..|s| - 1], name);
      TokensOfRelabelled(s[..|s| - 1], name);
    }
  }

  // ---- When identifiers matter ----

  /** The renaming keeps the identifiers of `s` apart. */
  ghost predicate KeepsApart(name: string -> string, s: seq<Utterance>) {
    forall u, v :: u in s && v in s && name(u.segment.identifier) == name(v.segment.identifier) ==>
      u.segment.identifier == v.segment.identifier
  }

  /** The compared text is the same under every renaming that keeps identifiers apart. */
  ghost predicate IdentifiersDoNotMatter(s: seq<Utterance>) {
    forall name: string -> string :: KeepsApart(name, s) ==>
      Tokens(TimeOrdered(Relabel(s, name))) == Tokens(TimeOrdered(s))
  }

  predicate Commute(u: Utterance, v: Utterance) {
    u.tokens + v.tokens == v.tokens + u.tokens
  }

  /** Segments that begin and end together could be read in either order. */
  ghost predicate TiesCommute(s: seq<Utterance>) {
    forall u, v :: u in s && v in s && !Apart(u, v) ==> Commute(u, v)
  }

  lemma {:induction false} TokensConcat(a: seq<Utterance>, b: seq<Utterance>)
    ensures Tokens(a + b) == Tokens(a) + Tokens(b)
  {
    if b == [] {
      assert a + b == a;
    } else {
      var n := |b| - 1;
      TokensConcat(a, b[..n]);
      assert (a + b)[..|a + b| - 1] == a + b[..n];
    }
  }

  predicate TimeLeq(u: Utterance, v: Utterance) {
    u.segment.start < v.segment.start || (u.segment.start == v.segment.start && u.segment.end <= v.segment.end)
  }

  ghost predicate InTimeOrder(s: seq<Utterance>) {
    forall i, j :: 0 <= i < j < |s| ==> TimeLeq(s[i], s[j])
  }

  lemma {:induction false} SortedAt(s: seq<Utterance>, i: nat, j: nat)
    requires IsSorted(s) && i < j < |s|
    ensures Earlier(s[i].segment, s[j].segment) && s[i].segment.identifier != s[j].segment.identifier
  {
    var n := |s| - 1;
    if j == n {
      assert s[..n][i] == s[i] && s[i] in s[..n];
    } else {
      SortedAt(s[..n], i, j);
    }
  }

  lemma SortedIsOrdered(s: seq<Utterance>)
    requires IsSorted(s)
    ensures InTimeOrder(s) && Distinct(s)
  {
    forall i, j | 0 <= i < j < |s| ensures TimeLeq(s[i], s[j]) && s[i] != s[j] {
      SortedAt(s, i, j);
    }
  }

  // ---- Sufficiency: simultaneous segments that commute ----

  /** An utterance that commutes with all of `rest` can be said before it or after it. */
  lemma {:induction false} MoveBehind(x: Utterance, rest: seq<Utterance>)
    requires forall y :: y in rest ==> Commute(x, y)
    ensures x.tokens + Tokens(rest) == Tokens(rest) + x.tokens
  {
    if rest == [] {
      assert x.tokens + [] == [] + x.tokens;
    } else {
      var n := |rest| - 1;
      var init, y := rest[..n], rest[n];
      assert y in rest && forall z :: z in init ==> z in rest;
      MoveBehind(x, init);
      calc {
        x.tokens + (Tokens(init) + y.tokens);
        (x.tokens + Tokens(init)) + y.tokens;
        (Tokens(init) + x.tokens) + y.tokens;
        Tokens(init) + (x.tokens + y.tokens);
        Tokens(init) + (y.tokens + x.tokens);
        (Tokens(init) + y.tokens) + x.tokens;
      }
    }
  }

  lemma WithoutOne(b: seq<Utterance>, p: nat)
    requires p < |b| && Distinct(b) && InTimeOrder(b)
    ensures var rest := b[..p] + b[p + 1..];
            Distinct(rest) && InTimeOrder(rest) && forall y :: y in rest <==> y in b && y != b[p]
  {
    var rest := b[..p] + b[p + 1..];
    assert forall k :: 0 <= k < |rest| ==> rest[k] == b[if k < p then k else k + 1];
    forall y | y in b && y != b[p] ensures y in rest {
      var k :| 0 <= k < |b| && b[k] == y;
      assert rest[if k < p then k else k - 1] == y;
    }
  }

  /** What stands behind the last element of one order is simultaneous with it. */
  lemma SimultaneousBehind(a: seq<Utterance>, b: seq<Utterance>, p: nat, y: Utterance)
    requires a != [] && InTimeOrder(a) && InTimeOrder(b) && SameElements(a, b)
    requires p < |b| && b[p] == a[|a| - 1] && y in b[p + 1..]
    ensures y in a && !Apart(a[|a| - 1], y)
  {
    var k :| 0 <= k < |b[p + 1..]| && b[p + 1..][k] == y;
    assert b[p + 1 + k] == y && y in b;
    assert TimeLeq(b[p], b[p + 1 + k]);
    var i :| 0 <= i < |a| && a[i] == y;
    assert i < |a| - 1 ==> TimeLeq(a[i], a[|a| - 1]);
  }

  /** Two orders of the same utterances by time give the same text, if simultaneous ones commute. */
  lemma {:induction false} TextIsSettled(a: seq<Utterance>, b: seq<Utterance>)
    requires InTimeOrder(a) && InTimeOrder(b) && Distinct(a) && Distinct(b) && SameElements(a, b) && TiesCommute(a)
    ensures Tokens(a) == Tokens(b)
  {
    if a == [] || b == [] {
      BothEmpty(a, b);
    } else {
      var n := |a| - 1;
      var x := a[n];
      assert x in a && x in b;
      var p :| 0 <= p < |b| && b[p] == x;
      var before, after := b[..p], b[p + 1..];
      forall y | y in after ensures Commute(x, y) {
        SimultaneousBehind(a, b, p, y);
      }
      MoveBehind(x, after);
      LastMoves(b, p);
      WithoutOne(b, p);
      WithoutOne(a, n);
      assert a[..n] + a[n + 1..] == a[..n];
      assert forall y :: y in a[..n] ==> y in a;
      TextIsSettled(a[..n], before + after);
    }
  }

  lemma AroundOne(s: seq<Utterance>, p: nat)
    requires p < |s|
    ensures s == s[..p] + [s[p]] + s[p + 1..]
  {
  }

  lemma LastMoves(b: seq<Utterance>, p: nat)
    requires p < |b| && b[p].tokens + Tokens(b[p + 1..]) == Tokens(b[p + 1..]) + b[p].tokens
    ensures Tokens(b) == Tokens(b[..p] + b[p + 1..]) + b[p].tokens
  {
    var before, x, after := b[..p], b[p], b[p + 1..];
    AroundOne(b, p);
    TokensConcat(before + [x], after);
    TokensConcat(before, after);
    assert (before + [x])[..p] == before;
    Regroup(Tokens(before), x.tokens, Tokens(after));
  }

  lemma Regroup(a: seq<string>, x: seq<string>, c: seq<string>)
    requires x + c == c + x
    ensures (a + x) + c == (a + c) + x
  {
    assert (a + x) + c == a + (x + c);
    assert (a + c) + x == a + (c + x);
  }

  /** The identifier a name was given to. */
  function Original(s: seq<Utterance>, name: string -> string, id: string): string {
    if s == [] then ""
    else
      var u := s[|s| - 1];
      if name(u.segment.identifier) == id then u.segment.identifier else Original(s[..|s| - 1], name, id)
  }

  lemma {:induction false} OriginalIsInverse(s: seq<Utterance>, name: string -> string, u: Utterance)
    requires u in s && KeepsApart(name, s)
    ensures Original(s, name, name(u.segment.identifier)) == u.segment.identifier
  {
    var n := |s| - 1;
    assert s == s[..n] + [s[n]] && s[n] in s;
    if name(s[n].segment.identifier) != name(u.segment.identifier) {
      assert u in s[..n];
      OriginalIsInverse(s[..n], name, u);
    }
  }

  lemma RelabelledIsDistinct(s: seq<Utterance>, name: string -> string)
    requires DistinctIdentifiers(s) && KeepsApart(name, s)
    ensures DistinctIdentifiers(Relabel(s, name))
  {
    forall i, j | 0 <= i < j < |s| ensures name(s[i].segment.identifier) != name(s[j].segment.identifier) {
      assert s[i] in s && s[j] in s;
    }
  }

  /** Putting the old name back gives the old utterance. */
  lemma BackAgain(s: seq<Utterance>, name: string -> string, u: Utterance)
    requires u in s && KeepsApart(name, s)
    ensures Renamed(Renamed(u, name), id => Original(s, name, id)) == u
  {
    OriginalIsInverse(s, name, u);
  }

  lemma FromRelabelled(s: seq<Utterance>, name: string -> string, x: Utterance) returns (u: Utterance)
    requires x in Relabel(s, name)
    ensures u in s && x == Renamed(u, name)
  {
    var i :| 0 <= i < |s| && Relabel(s, name)[i] == x;
    u := s[i];
  }

  lemma InRelabelled(s: seq<Utterance>, name: string -> string, u: Utterance)
    requires u in s
    ensures Renamed(u, name) in Relabel(s, name)
  {
    var i :| 0 <= i < |s| && s[i] == u;
    assert Relabel(s, name)[i] == Renamed(u, name);
  }

  lemma PutBackElements(s: seq<Utterance>, name: string -> string, ordered: seq<Utterance>)
    requires KeepsApart(name, s) && SameElements(ordered, Relabel(s, name))
    ensures SameElements(s, Relabel(ordered, id => Original(s, name, id)))
  {
    var back := id => Original(s, name, id);
    forall x ensures x in s <==> x in Relabel(ordered, back) {
      if x in s {
        InRelabelled(s, name, x);
        InRelabelled(ordered, back, Renamed(x, name));
        BackAgain(s, name, x);
      }
      if x in Relabel(ordered, back) {
        var y := FromRelabelled(ordered, back, x);
        var u := FromRelabelled(s, name, y);
        BackAgain(s, name, u);
      }
    }
  }

  lemma PutBackOrder(s: seq<Utterance>, name: string -> string, ordered: seq<Utterance>)
    requires KeepsApart(name, s) && SameElements(ordered, Relabel(s, name)) && InTimeOrder(ordered) && Distinct(ordered)
    ensures var b := Relabel(ordered, id => Original(s, name, id)); InTimeOrder(b) && Distinct(b)
  {
    var back := id => Original(s, name, id);
    var b := Relabel(ordered, back);
    forall i, j | 0 <= i < j < |b| ensures TimeLeq(b[i], b[j]) && b[i] != b[j] {
      assert TimeLeq(ordered[i], ordered[j]) && ordered[i] != ordered[j];
      assert ordered[i] in ordered && ordered[j] in ordered;
      var u := FromRelabelled(s, name, ordered[i]);
      var v := FromRelabelled(s, name, ordered[j]);
      BackAgain(s, name, u);
      BackAgain(s, name, v);
    }
  }

  /** The time order under new names, with the old names put back. */
  lemma PutBack(s: seq<Utterance>, name: string -> string) returns (b: seq<Utterance>)
    requires DistinctIdentifiers(s) && KeepsApart(name, s)
    ensures InTimeOrder(b) && Distinct(b) && SameElements(s, b) && Tokens(b) == Tokens(TimeOrdered(Relabel(s, name)))
  {
    var ordered := TimeOrdered(Relabel(s, name));
    RelabelledIsDistinct(s, name);
    TimeOrderedSorts(Relabel(s, name));
    SortedIsOrdered(ordered);
    PutBackElements(s, name, ordered);
    PutBackOrder(s, name, ordered);
    TokensOfRelabelled(ordered, id => Original(s, name, id));
    b := Relabel(ordered, id => Original(s, name, id));
  }

  lemma CommutingTiesSuffice(s: seq<Utterance>)
    requires DistinctIdentifiers(s) && TiesCommute(s)
    ensures IdentifiersDoNotMatter(s)
  {
    forall name: string -> string | KeepsApart(name, s)
      ensures Tokens(TimeOrdered(Relabel(s, name))) == Tokens(TimeOrdered(s))
    {
      var b := PutBack(s, name);
      TimeOrderedSorts(s);
      SortedIsOrdered(TimeOrdered(s));
      TextIsSettled(TimeOrdered(s), b);
    }
  }

  // ---- Necessity: two renamings that differ in the order of two neighbours ----

  /** A name for each rank. */
  function Marks(k: nat): string { seq(k, _ => 'a') }

  lemma {:induction false} MarksOrdered(j: nat, k: nat)
    ensures TextOrder.Leq(Marks(j), Marks(k)) <==> j <= k
    ensures Marks(j) == Marks(k) <==> j == k
  {
    assert |Marks(j)| == j && |Marks(k)| == k;
    if j == 0 || k == 0 {
    } else {
      MarksOrdered(j - 1, k - 1);
      assert Marks(j)[1..] == Marks(j - 1) && Marks(k)[1..] == Marks(k - 1);
    }
  }

  /** One more than the position of the segment with this identifier, or zero. */
  function Place(s: seq<Utterance>, id: string): nat {
    if s == [] then 0 else if s[|s| - 1].segment.identifier == id then |s| else Place(s[..|s| - 1], id)
  }

  lemma {:induction false} PlaceIsPosition(s: seq<Utterance>, k: nat)
    requires DistinctIdentifiers(s) && k < |s|
    ensures Place(s, s[k].segment.identifier) == k + 1
  {
    var n := |s| - 1;
    if k >= n {
    } else {
      assert s[..n][k] == s[k];
      PlaceIsPosition(s[..n], k);
    }
  }

  /** The ranks that put segments `i` and `j` in front of all others. */
  function Rank(i: nat, j: nat, k: nat): nat { if k == i then 0 else if k == j then 1 else 2 + k }

  function Ranked(s: seq<Utterance>, i: nat, j: nat): (r: seq<Utterance>)
    ensures |r| == |s| && forall k :: 0 <= k < |s| ==> r[k] == RankedOne(s[k], Rank(i, j, k))
  {
    seq(|s|, k requires 0 <= k < |s| => RankedOne(s[k], Rank(i, j, k)))
  }

  function RankedOne(u: Utterance, rank: nat): Utterance {
    Utterance(u.segment.(identifier := Marks(rank)), u.tokens)
  }

  /** Some renaming gives these ranks. */
  function Names(s: seq<Utterance>, i: nat, j: nat): string -> string {
    id => Marks(if Place(s, id) == 0 then 0 else Rank(i, j, Place(s, id) - 1))
  }

  lemma NamesRank(s: seq<Utterance>, i: nat, j: nat)
    requires DistinctIdentifiers(s)
    ensures Relabel(s, Names(s, i, j)) == Ranked(s, i, j)
  {
    forall k | 0 <= k < |s| ensures Renamed(s[k], Names(s, i, j)) == RankedOne(s[k], Rank(i, j, k)) {
      PlaceIsPosition(s, k);
    }
  }

  lemma NamesDiffer(s: seq<Utterance>, i: nat, j: nat, k: nat, l: nat)
    requires DistinctIdentifiers(s) && i != j && k < |s| && l < |s|
    requires Names(s, i, j)(s[k].segment.identifier) == Names(s, i, j)(s[l].segment.identifier)
    ensures k == l
  {
    PlaceIsPosition(s, k);
    PlaceIsPosition(s, l);
    MarksOrdered(Rank(i, j, k), Rank(i, j, l));
  }

  lemma NamesKeepApart(s: seq<Utterance>, i: nat, j: nat)
    requires DistinctIdentifiers(s) && i < |s| && j < |s| && i != j
    ensures KeepsApart(Names(s, i, j), s)
  {
    var name := Names(s, i, j);
    forall u, v | u in s && v in s && name(u.segment.identifier) == name(v.segment.identifier)
      ensures u.segment.identifier == v.segment.identifier
    {
      var k :| 0 <= k < |s| && s[k] == u;
      var l :| 0 <= l < |s| && s[l] == v;
      NamesDiffer(s, i, j, k, l);
    }
  }

  /** Nothing stands between the two. */
  lemma NothingBetween(s: seq<Utterance>, i: nat, j: nat, k: nat)
    requires i < |s| && j < |s| && k < |s| && i != j && k != i && k != j && !Apart(s[i], s[j])
    ensures !(Earlier(Ranked(s, i, j)[i].segment, Ranked(s, i, j)[k].segment) &&
              Earlier(Ranked(s, i, j)[k].segment, Ranked(s, i, j)[j].segment))
  {
    MarksOrdered(Rank(i, j, k), 1);
  }

  lemma FirstBeforeSecond(s: seq<Utterance>, i: nat, j: nat)
    requires i < |s| && j < |s| && i != j && !Apart(s[i], s[j])
    ensures !Earlier(Ranked(s, i, j)[j].segment, Ranked(s, i, j)[i].segment)
  {
    MarksOrdered(1, 0);
  }

  /** Under such names the two stand side by side in the time order. */
  lemma Neighbours(s: seq<Utterance>, i: nat, j: nat, ordered: seq<Utterance>) returns (p: nat)
    requires i < |s| && j < |s| && i != j && !Apart(s[i], s[j])
    requires IsSorted(ordered) && SameElements(ordered, Ranked(s, i, j))
    ensures p + 1 < |ordered| && ordered[p] == Ranked(s, i, j)[i] && ordered[p + 1] == Ranked(s, i, j)[j]
  {
    var ranked := Ranked(s, i, j);
    assert ranked[i] in ranked && ranked[j] in ranked;
    p :| 0 <= p < |ordered| && ordered[p] == ranked[i];
    var q :| 0 <= q < |ordered| && ordered[q] == ranked[j];
    FirstBeforeSecond(s, i, j);
    MarksOrdered(0, 1);
    assert p < q by {
      if q < p {
        SortedAt(ordered, q, p);
      }
    }
    assert q == p + 1 by {
      if p + 1 < q {
        SortedAt(ordered, p, p + 1);
        SortedAt(ordered, p + 1, q);
        assert ordered[p + 1] in ordered;
        var k :| 0 <= k < |s| && ranked[k] == ordered[p + 1];
        NothingBetween(s, i, j, k);
      }
    }
  }

  /** The order of segments is a matter of their times and identifiers alone. */
  predicate SameKey(u: Utterance, v: Utterance) {
    u.segment.start == v.segment.start && u.segment.end == v.segment.end && u.segment.identifier == v.segment.identifier
  }

  ghost predicate PairSorted(s: seq<Utterance>, k: nat, n: nat)
    requires k < n < |s|
  {
    Earlier(s[k].segment, s[n].segment) && s[k].segment.identifier != s[n].segment.identifier
  }

  lemma {:induction false} SortedFromPairs(s: seq<Utterance>)
    requires forall k: nat, n: nat :: k < n < |s| ==> PairSorted(s, k, n)
    ensures IsSorted(s)
  {
    if s == [] {
    } else {
      var n := |s| - 1;
      var init := s[..n];
      forall i: nat, j: nat | i < j < |init| ensures PairSorted(init, i, j) {
        assert PairSorted(s, i, j);
      }
      SortedFromPairs(init);
      forall x | x in init ensures Earlier(x.segment, s[n].segment) && x.segment.identifier != s[n].segment.identifier {
        var k: nat :| k < |init| && init[k] == x;
        assert PairSorted(s, k, n);
      }
    }
  }

  lemma SameKeysSorted(a: seq<Utterance>, b: seq<Utterance>)
    requires IsSorted(a) && |a| == |b| && forall k :: 0 <= k < |a| ==> SameKey(a[k], b[k])
    ensures IsSorted(b)
  {
    forall k: nat, n: nat | k < n < |b| ensures PairSorted(b, k, n) {
      SortedAt(a, k, n);
    }
    SortedFromPairs(b);
  }

  /** The same list with the two neighbours exchanged. */
  function Exchanged(s: seq<Utterance>, i: nat, j: nat, ordered: seq<Utterance>, p: nat): seq<Utterance>
    requires i < |s| && j < |s| && p + 1 < |ordered|
  {
    ordered[..p] + [Ranked(s, j, i)[j], Ranked(s, j, i)[i]] + ordered[p + 2..]
  }

  /** Exchanging the two ranks exchanges the two neighbours and nothing else. */
  lemma NeighboursExchanged(s: seq<Utterance>, i: nat, j: nat, ordered: seq<Utterance>, p: nat, other: seq<Utterance>)
    requires i < |s| && j < |s| && i != j && !Apart(s[i], s[j])
    requires IsSorted(ordered) && SameElements(ordered, Ranked(s, i, j))
    requires p + 1 < |ordered| && ordered[p] == Ranked(s, i, j)[i] && ordered[p + 1] == Ranked(s, i, j)[j]
    requires IsSorted(other) && SameElements(other, Ranked(s, j, i))
    ensures other == Exchanged(s, i, j, ordered, p)
  {
    var exchanged := Exchanged(s, i, j, ordered, p);
    SortedIsOrdered(ordered);
    SameKeysSorted(ordered, exchanged);
    ExchangedHasAll(s, i, j, ordered, p);
    ExchangedHasOnly(s, i, j, ordered, p);
    SortedIsDetermined(other, exchanged);
  }

  lemma OthersKeepTheirRank(s: seq<Utterance>, i: nat, j: nat, k: nat)
    requires i < |s| && j < |s| && k < |s| && i != j && k != i && k != j
    ensures Ranked(s, i, j)[k] == Ranked(s, j, i)[k]
    ensures Ranked(s, i, j)[k] != Ranked(s, i, j)[i] && Ranked(s, i, j)[k] != Ranked(s, i, j)[j]
  {
    MarksOrdered(Rank(i, j, k), 0);
    MarksOrdered(Rank(i, j, k), 1);
  }

  lemma ExchangedHasAll(s: seq<Utterance>, i: nat, j: nat, ordered: seq<Utterance>, p: nat)
    requires i < |s| && j < |s| && i != j && SameElements(ordered, Ranked(s, i, j))
    requires p + 1 < |ordered| && ordered[p] == Ranked(s, i, j)[i] && ordered[p + 1] == Ranked(s, i, j)[j]
    ensures forall x :: x in Ranked(s, j, i) ==> x in Exchanged(s, i, j, ordered, p)
  {
    var exchanged := Exchanged(s, i, j, ordered, p);
    forall x | x in Ranked(s, j, i) ensures x in exchanged {
      var k :| 0 <= k < |s| && Ranked(s, j, i)[k] == x;
      assert exchanged[p] == Ranked(s, j, i)[j] && exchanged[p + 1] == Ranked(s, j, i)[i];
      if k != i && k != j {
        OthersKeepTheirRank(s, i, j, k);
        assert Ranked(s, i, j)[k] in Ranked(s, i, j);
        var q :| 0 <= q < |ordered| && ordered[q] == x;
        assert exchanged[q] == x;
      }
    }
  }

  lemma ExchangedHasOnly(s: seq<Utterance>, i: nat, j: nat, ordered: seq<Utterance>, p: nat)
    requires i < |s| && j < |s| && i != j && Distinct(ordered) && SameElements(ordered, Ranked(s, i, j))
    requires p + 1 < |ordered| && ordered[p] == Ranked(s, i, j)[i] && ordered[p + 1] == Ranked(s, i, j)[j]
    ensures forall x :: x in Exchanged(s, i, j, ordered, p) ==> x in Ranked(s, j, i)
  {
    var exchanged := Exchanged(s, i, j, ordered, p);
    forall x | x in exchanged ensures x in Ranked(s, j, i) {
      var q :| 0 <= q < |exchanged| && exchanged[q] == x;
      if q == p {
        assert Ranked(s, j, i)[j] == x;
      } else if q == p + 1 {
        assert Ranked(s, j, i)[i] == x;
      } else {
        assert ordered[q] == x && x in ordered;
        var k :| 0 <= k < |s| && Ranked(s, i, j)[k] == x;
        OthersKeepTheirRank(s, i, j, k);
        assert Ranked(s, j, i)[k] == x;
      }
    }
  }

  lemma TokensOfFour(a: seq<Utterance>, u: Utterance, v: Utterance, b: seq<Utterance>)
    ensures Tokens(a + [u, v] + b) == Tokens(a) + (u.tokens + v.tokens) + Tokens(b)
  {
    TokensConcat(a + [u, v], b);
    TokensConcat(a, [u, v]);
    OfTwo(u, v);
  }

  lemma Cancel(a: seq<string>, x: seq<string>, y: seq<string>, b: seq<string>)
    requires |x| == |y| && a + x + b == a + y + b
    ensures x == y
  {
    assert (a + x + b)[|a|..|a| + |x|] == x;
    assert (a + y + b)[|a|..|a| + |y|] == y;
  }

  lemma RankedIsSorted(s: seq<Utterance>, i: nat, j: nat)
    requires DistinctIdentifiers(s) && i < |s| && j < |s| && i != j
    ensures IsSorted(TimeOrdered(Ranked(s, i, j))) && SameElements(TimeOrdered(Ranked(s, i, j)), Ranked(s, i, j))
  {
    NamesRank(s, i, j);
    NamesKeepApart(s, i, j);
    RelabelledIsDistinct(s, Names(s, i, j));
    TimeOrderedSorts(Ranked(s, i, j));
  }

  /** Under a renaming that yields these ranks the text is the old one. */
  lemma RankedTextIsTheSame(s: seq<Utterance>, i: nat, j: nat)
    requires DistinctIdentifiers(s) && IdentifiersDoNotMatter(s) && i < |s| && j < |s| && i != j
    ensures Tokens(TimeOrdered(Ranked(s, i, j))) == Tokens(TimeOrdered(s))
  {
    NamesRank(s, i, j);
    NamesKeepApart(s, i, j);
  }

  lemma TiesMustCommute(s: seq<Utterance>, i: nat, j: nat)
    requires DistinctIdentifiers(s) && IdentifiersDoNotMatter(s)
    requires i < |s| && j < |s| && i != j && !Apart(s[i], s[j])
    ensures Commute(s[i], s[j])
  {
    var ordered, other := TimeOrdered(Ranked(s, i, j)), TimeOrdered(Ranked(s, j, i));
    RankedIsSorted(s, i, j);
    RankedIsSorted(s, j, i);
    RankedTextIsTheSame(s, i, j);
    RankedTextIsTheSame(s, j, i);
    var p := Neighbours(s, i, j, ordered);
    NeighboursExchanged(s, i, j, ordered, p, other);
    TextsOfExchanged(s, i, j, ordered, p);
  }

  lemma AroundTwo(s: seq<Utterance>, p: nat)
    requires p + 1 < |s|
    ensures s == s[..p] + [s[p], s[p + 1]] + s[p + 2..]
  {
  }

  lemma TextsOfExchanged(s: seq<Utterance>, i: nat, j: nat, ordered: seq<Utterance>, p: nat)
    requires i < |s| && j < |s| && p + 1 < |ordered| && ordered[p] == Ranked(s, i, j)[i] &&
             ordered[p + 1] == Ranked(s, i, j)[j]
    requires Tokens(ordered) == Tokens(Exchanged(s, i, j, ordered, p))
    ensures Commute(s[i], s[j])
  {
    var a, b := ordered[..p], ordered[p + 2..];
    AroundTwo(ordered, p);
    TokensOfFour(a, ordered[p], ordered[p + 1], b);
    TokensOfFour(a, Ranked(s, j, i)[j], Ranked(s, j, i)[i], b);
    Cancel(Tokens(a), s[i].tokens + s[j].tokens, s[j].tokens + s[i].tokens, Tokens(b));
  }

  /** Main result: the compared text is independent of the segment identifiers exactly when the texts
      of any two segments that begin and end together commute. */
  lemma IdentifiersDoNotMatterIff(s: seq<Utterance>)
    requires DistinctIdentifiers(s)
    ensures IdentifiersDoNotMatter(s) <==> TiesCommute(s)
  {
    if TiesCommute(s) {
      CommutingTiesSuffice(s);
    }
    if IdentifiersDoNotMatter(s) {
      forall u, v | u in s && v in s && !Apart(u, v) ensures Commute(u, v) {
        var i :| 0 <= i < |s| && s[i] == u;
        var j :| 0 <= j < |s| && s[j] == v;
        if i < j || j < i {
          TiesMustCommute(s, i, j);
        }
      }
    }
  }

  /** It does happen that they matter: identifiers decide between simultaneous segments. */
  lemma IdentifiersDecideTies(name: string -> string)
    requires name("a") == "b" && name("b") == "a"
    ensures exists s :: DistinctIdentifiers(s) && Tokens(TimeOrdered(Relabel(s, name))) != Tokens(TimeOrdered(s))
  {
    var first := Utterance(Segment("a", 0.0, 1.0, "x"), ["left"]);
    var second := Utterance(Segment("b", 0.0, 1.0, "y"), ["right"]);
    assert TextOrder.Leq("a", "b") && !TextOrder.Leq("b", "a");
    LeftIsNotRight();
    TieIsSwapped(first, second, name);
    assert DistinctIdentifiers([first, second]);
  }

  lemma TieIsSwapped(u: Utterance, v: Utterance, name: string -> string)
    requires Earlier(u.segment, v.segment) && !Earlier(Renamed(u, name).segment, Renamed(v, name).segment)
    requires u.tokens + v.tokens != v.tokens + u.tokens
    ensures Tokens(TimeOrdered(Relabel([u, v], name))) != Tokens(TimeOrdered([u, v]))
  {
    OfTwo(u, v);
    OfTwo(Renamed(u, name), Renamed(v, name));
    assert Relabel([u, v], name) == [Renamed(u, name), Renamed(v, name)];
  }

  lemma LeftIsNotRight()
    ensures ["left"] + ["right"] != ["right"] + ["left"]
  {
    assert (["left"] + ["right"])[0] == "left" && (["right"] + ["left"])[0] == "right" && |"left"| != |"right"|;
  }

  lemma OfTwo(u: Utterance, v: Utterance)
    ensures TimeOrdered([u, v]) == if Earlier(u.segment, v.segment) then [u, v] else [v, u]
    ensures Tokens([u, v]) == u.tokens + v.tokens && Tokens([v, u]) == v.tokens + u.tokens
  {
    assert [u, v][..1] == [u] && [v, u][..1] == [v] && [u][..0] == [] && [v][..0] == [];
    assert TimeOrdered([u]) == [u];
    assert Insert(v, []) == [v];
    assert TimeOrdered([u, v]) == Insert(v, [u]);
    assert Tokens([u]) == u.tokens && Tokens([v]) == v.tokens;
  }
}
