// The two word error rates over whole transcripts: one over the time-ordered text, one per role.

module TranscriptErrors {
  import opened Common
  import opened EditDistance
  import opened Outcomes
  import opened SpeechIntervals
  import opened TranscriptOrder

  // ---- The corpus rate ----

  method CorpusWer(reference: seq<Utterance>, hypothesis: seq<Utterance>) returns (e: ErrorCounts)
    ensures var r, h := Tokens(TimeOrdered(reference)), Tokens(TimeOrdered(hypothesis));
            IsLeastTally(e.Tuple(), r, h) && e.Tuple() == Cell(r, h) && e.referenceWords == |r|
  {
    e := WordErrorCounts(Tokens(TimeOrdered(reference)), Tokens(TimeOrdered(hypothesis)));
  }

  // ---- The rate per role ----

  datatype Error = NotPublicRoles

  predicate SpokenBy(s: seq<Utterance>, roles: seq<Label>) {
    forall u :: u in s ==> u.segment.speaker in roles
  }

  /** What one role says, in the order listed. */
  function TokensOf(s: seq<Utterance>, role: Label): seq<string> {
    if s == [] then []
    else
      var u := s[|s| - 1];
      TokensOf(s[..|s| - 1], role) + if u.segment.speaker == role then u.tokens else []
  }

  /** The words of a role are its own, in the order listed. */
  lemma OneMoreUtterance(s: seq<Utterance>, u: Utterance, role: Label)
    ensures TokensOf([], role) == []
    ensures u.segment.speaker == role ==> TokensOf(s + [u], role) == TokensOf(s, role) + u.tokens
    ensures u.segment.speaker != role ==> TokensOf(s + [u], role) == TokensOf(s, role)
  {
    assert (s + [u])[..|s|] == s;
  }

  function Add(a: Counts, b: Counts): Counts {
    Counts(a.cost + b.cost, a.subs + b.subs, a.dels + b.dels, a.inss + b.inss)
  }

  /** The least tallies of the roles, added up. */
  function Attributed(reference: seq<Utterance>, hypothesis: seq<Utterance>, roles: seq<Label>): Counts {
    if roles == [] then Counts(0, 0, 0, 0)
    else
      var n := |roles| - 1;
      Add(Attributed(reference, hypothesis, roles[..n]),
          Cell(TokensOf(reference, roles[n]), TokensOf(hypothesis, roles[n])))
  }

  function WordsOf(s: seq<Utterance>, roles: seq<Label>): nat {
    if roles == [] then 0 else WordsOf(s, roles[..|roles| - 1]) + |TokensOf(s, roles[|roles| - 1])|
  }

  method SumOverRoles(reference: seq<Utterance>, hypothesis: seq<Utterance>, roles: seq<Label>)
      returns (counts: ErrorCounts)
    ensures counts.Tuple() == Attributed(reference, hypothesis, roles) &&
            counts.referenceWords == WordsOf(reference, roles)
  {
    counts := ErrorCounts(0, 0, 0, 0);
    for i := 0 to |roles|
      invariant counts.Tuple() == Attributed(reference, hypothesis, roles[..i])
      invariant counts.referenceWords == WordsOf(reference, roles[..i])
    {
      assert roles[..i + 1][..i] == roles[..i];
      var c := WordErrorCounts(TokensOf(reference, roles[i]), TokensOf(hypothesis, roles[i]));
      counts := ErrorCounts(counts.substitutions + c.substitutions, counts.deletions + c.deletions,
                            counts.insertions + c.insertions, counts.referenceWords + c.referenceWords);
    }
    assert roles[..|roles|] == roles;
  }

  method SpeakerAttributedWer(reference: seq<Utterance>, hypothesis: seq<Utterance>)
      returns (r: Result<ErrorCounts, Error>)
    ensures r.Ok? <==> SpokenBy(reference, [CLIENT, OPERATOR]) && SpokenBy(hypothesis, [CLIENT, OPERATOR])
    ensures r.Ok? ==> r.value.Tuple() == Attributed(reference, hypothesis, [CLIENT, OPERATOR])
    ensures r.Ok? ==> r.value.referenceWords == |Tokens(reference)|
  {
    if !SpokenBy(reference, [CLIENT, OPERATOR]) || !SpokenBy(hypothesis, [CLIENT, OPERATOR]) {
      return Err(NotPublicRoles);
    }
    var counts := SumOverRoles(reference, hypothesis, [CLIENT, OPERATOR]);
    TwoRoles(CLIENT, OPERATOR);
    EveryWordHasARole(reference, [CLIENT, OPERATOR]);
    r := Ok(counts);
  }

  lemma TwoRoles(a: Label, b: Label)
    requires |a| != |b|
    ensures Distinct([a, b])
  {
  }

  /** One more utterance adds its words to its own role and to no other. */
  lemma {:induction false} WordsOfSnoc(s: seq<Utterance>, u: Utterance, roles: seq<Label>)
    requires Distinct(roles)
    ensures WordsOf(s + [u], roles) == WordsOf(s, roles) + if u.segment.speaker in roles then |u.tokens| else 0
  {
    assert (s + [u])[..|s|] == s;
    if roles != [] {
      var n := |roles| - 1;
      WordsOfSnoc(s, u, roles[..n]);
      assert roles == roles[..n] + [roles[n]];
      assert TokensOf(s + [u], roles[n]) == TokensOf(s, roles[n]) +
             if u.segment.speaker == roles[n] then u.tokens else [];
    }
  }

  lemma {:induction false} NoWords(roles: seq<Label>)
    ensures WordsOf([], roles) == 0
  {
    if roles == [] {
    } else {
      NoWords(roles[..|roles| - 1]);
    }
  }

  /** With public roles only, every word is counted for exactly one role. */
  lemma {:induction false} EveryWordHasARole(s: seq<Utterance>, roles: seq<Label>)
    requires SpokenBy(s, roles) && Distinct(roles)
    ensures WordsOf(s, roles) == |Tokens(s)|
  {
    if s == [] {
      NoWords(roles);
    } else {
      var n := |s| - 1;
      assert s == s[..n] + [s[n]];
      EveryWordHasARole(s[..n], roles);
      WordsOfSnoc(s[..n], s[n], roles);
    }
  }

  ghost predicate SameSpeech(reference: seq<Utterance>, hypothesis: seq<Utterance>, roles: seq<Label>) {
    forall role :: role in roles ==> TokensOf(reference, role) == TokensOf(hypothesis, role)
  }

  lemma SameSpeechSnoc(reference: seq<Utterance>, hypothesis: seq<Utterance>, roles: seq<Label>)
    requires roles != []
    ensures var n := |roles| - 1;
            SameSpeech(reference, hypothesis, roles) <==>
            SameSpeech(reference, hypothesis, roles[..n]) &&
              TokensOf(reference, roles[n]) == TokensOf(hypothesis, roles[n])
  {
    assert roles == roles[..|roles| - 1] + [roles[|roles| - 1]];
  }

  /** No error exactly when every role says the same words in the same order. */
  lemma {:induction false} AttributedZeroIffSame(reference: seq<Utterance>, hypothesis: seq<Utterance>,
                                                 roles: seq<Label>)
    ensures Attributed(reference, hypothesis, roles).cost == 0 <==> SameSpeech(reference, hypothesis, roles)
  {
    if roles == [] {
    } else {
      var n := |roles| - 1;
      SameSpeechSnoc(reference, hypothesis, roles);
      AttributedZeroIffSame(reference, hypothesis, roles[..n]);
      CostZeroIffEqual(TokensOf(reference, roles[n]), TokensOf(hypothesis, roles[n]));
    }
  }
}
