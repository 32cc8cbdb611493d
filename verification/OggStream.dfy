// The incremental validator that stands between the network and the Opus decoder. Pages have the
// layout of section 6 of RFC 3533; the first page carries the identification header of section
// 5.1 of RFC 7845. The validator sees arbitrary chunks; what it accepts is proved to depend only
// on their concatenation, and to be exactly one complete logical stream.

module OggStream {
  import opened Bytes
  import opened Outcomes

  const CAPTURE_PATTERN: seq<byte> := [79, 103, 103, 83]
  const OPUS_HEAD: seq<byte> := [79, 112, 117, 115, 72, 101, 97, 100]
  const FIXED_HEADER_BYTES: nat := 27
  const MAX_SEGMENTS: nat := 255
  const MAX_PAGE_BYTES: nat := FIXED_HEADER_BYTES + MAX_SEGMENTS + MAX_SEGMENTS * MAX_SEGMENTS
  const SEQUENCE_MODULUS: nat := 0x1_0000_0000

  datatype Failure = BoundExceeded | Malformed | PageTooLong | InvalidFirstPage | Discontinuous | Incomplete
                   | HeaderOverflow | MissingOpusHead

  /** Bits 0, 1 and 2 of the header type; the mask 0x07 admits no other bit. */
  predicate Continued(headerType: byte) { headerType % 2 == 1 }

  predicate Bos(headerType: byte) { headerType / 2 % 2 == 1 }

  predicate Eos(headerType: byte) { headerType / 4 % 2 == 1 }

  predicate HasUnknownFlags(headerType: byte) { headerType / 8 != 0 }

  function Sum(b: seq<byte>): (n: nat)
    ensures n <= 255 * |b|
  {
    if b == [] then 0 else
    var last: int := b[|b| - 1];
    Sum(b[..|b| - 1]) + last
  }

  /** The flags are the bits of the header type under the masks of the page format. */
  lemma FlagsAreMasks(headerType: byte)
    ensures Continued(headerType) <==> headerType as bv8 & 0x01 != 0
    ensures Bos(headerType) <==> headerType as bv8 & 0x02 != 0
    ensures Eos(headerType) <==> headerType as bv8 & 0x04 != 0
    ensures HasUnknownFlags(headerType) <==> headerType as bv8 & !0x07 != 0
  {
  }

  /** The body of a page is as long as its lacing values together. */
  lemma {:induction false} SumOfConcat(a: seq<byte>, b: seq<byte>)
    ensures Sum(a + b) == Sum(a) + Sum(b)
    ensures forall x: byte :: Sum([x]) == x
  {
    if b == [] {
      assert a + b == a;
    } else {
      var n := |b| - 1;
      SumOfConcat(a, b[..n]);
      assert (a + b)[..|a + b| - 1] == a + b[..n];
    }
  }

  // ---- The validator as a function of its fields ----

  datatype Fields = Fields(
    pending: seq<byte>,
    serialNumber: Option<nat>,
    expectedPageSequence: Option<nat>,
    pageCount: nat,
    sawEos: bool)

  const INITIAL := Fields([], None, None, 0, false)

  /** What the front of the pending bytes is. */
  datatype Front = NeedsMore | Bad(failure: Failure) | Complete(headerBytes: nat, pageBytes: nat)

  function Inspect(p: seq<byte>): (f: Front)
    ensures f.Complete? ==> FIXED_HEADER_BYTES <= f.headerBytes <= f.pageBytes <= |p|
    ensures f.Complete? ==> f.headerBytes == FIXED_HEADER_BYTES + p[26]
  {
    if |p| < FIXED_HEADER_BYTES then NeedsMore
    else if p[..4] != CAPTURE_PATTERN || p[4] != 0 || HasUnknownFlags(p[5]) then Bad(Malformed)
    else
      var headerBytes := FIXED_HEADER_BYTES + p[26];
      if |p| < headerBytes then NeedsMore
      else
        var pageBytes := headerBytes + Sum(p[FIXED_HEADER_BYTES..headerBytes]);
        if pageBytes > MAX_PAGE_BYTES then Bad(PageTooLong)
        else if |p| < pageBytes then NeedsMore
        else Complete(headerBytes, pageBytes)
  }

  function ValidatePage(s: Fields, serial: nat, sequence: nat, headerType: byte, body: seq<byte>):
        Result<Fields, Failure> {
    if s.pageCount == 0 && (!Bos(headerType) || Continued(headerType) || sequence != 0 || !(OPUS_HEAD <= body)) then
      Err(InvalidFirstPage)
    else if s.pageCount != 0 &&
            (Bos(headerType) || Some(serial) != s.serialNumber || Some(sequence) != s.expectedPageSequence) then
      Err(Discontinuous)
    else
      Ok(s.(serialNumber := if s.pageCount == 0 then Some(serial) else s.serialNumber,
            expectedPageSequence := Some((sequence + 1) % SEQUENCE_MODULUS),
            pageCount := s.pageCount + 1,
            sawEos := s.sawEos || Eos(headerType)))
  }

  /** The complete page at the front of the pending bytes, checked and removed. */
  function TakePage(s: Fields): (r: Result<Fields, Failure>)
    requires Inspect(s.pending).Complete?
    ensures r.Ok? ==> |r.value.pending| < |s.pending|
  {
    var f := Inspect(s.pending);
    var page := s.pending[..f.pageBytes];
    var checked := ValidatePage(s, LittleEndian4(page[14..18]), LittleEndian4(page[18..22]), page[5],
                                page[f.headerBytes..]);
    if checked.Err? then checked else Ok(checked.value.(pending := s.pending[f.pageBytes..]))
  }

  /** The fields after a call, the bytes validated by it, and the failure it raised, if any. */
  datatype Drained = Drained(fields: Fields, output: seq<byte>, failure: Option<Failure>)

  function Drain(s: Fields): Drained
    decreases |s.pending|
  {
    match Inspect(s.pending)
    case NeedsMore => Drained(s, [], None)
    case Bad(failure) => Drained(s, [], Some(failure))
    case Complete(_, n) =>
      match TakePage(s)
      case Err(failure) => Drained(s, [], Some(failure))
      case Ok(next) =>
        if next.sawEos then
          Drained(next, s.pending[..n], if next.pending == [] then None else Some(Discontinuous))
        else
          var rest := Drain(next);
          rest.(output := s.pending[..n] + rest.output)
  }

  /** One turn of the loop. */
  lemma DrainStep(s: Fields)
    requires Inspect(s.pending).Complete? && TakePage(s).Ok?
    ensures var next, page := TakePage(s).value, s.pending[..Inspect(s.pending).pageBytes];
            Drain(s) == if next.sawEos
                        then Drained(next, page, if next.pending == [] then None else Some(Discontinuous))
                        else Drain(next).(output := page + Drain(next).output)
  {
  }

  function MaxPending(maxFrameBytes: nat): nat {
    maxFrameBytes + if maxFrameBytes > MAX_PAGE_BYTES then maxFrameBytes else MAX_PAGE_BYTES
  }

  function FeedOnce(maxPending: nat, s: Fields, payload: seq<byte>): Drained {
    if s.sawEos || |s.pending| + |payload| > maxPending then Drained(s, [], Some(BoundExceeded))
    else Drain(s.(pending := s.pending + payload))
  }

  predicate Finished(s: Fields) {
    s.pending == [] && s.pageCount != 0 && s.sawEos
  }

  lemma Associative(a: seq<byte>, b: seq<byte>, c: seq<byte>)
    ensures (a + b) + c == a + (b + c)
  {
  }

  /** What is left to do at `s`, behind the output so far, is what was to do at `start`. */
  ghost predicate Resumes(start: Fields, output: seq<byte>, s: Fields) {
    Drain(start) == Drain(s).(output := output + Drain(s).output)
  }

  lemma ResumesAfterPage(start: Fields, output: seq<byte>, s: Fields)
    requires Resumes(start, output, s) && Inspect(s.pending).Complete? && TakePage(s).Ok?
    ensures var next, page := TakePage(s).value, s.pending[..Inspect(s.pending).pageBytes];
            if next.sawEos
            then Drain(start) == Drained(next, output + page, if next.pending == [] then None else Some(Discontinuous))
            else Resumes(start, output + page, next)
  {
    DrainStep(s);
    Associative(output, s.pending[..Inspect(s.pending).pageBytes], Drain(TakePage(s).value).output);
  }

  class OggLogicalStreamValidator {
    const maxPendingBytes: nat
    var pending: seq<byte>
    var serialNumber: Option<nat>
    var expectedPageSequence: Option<nat>
    var pageCount: nat
    var sawEos: bool

    function State(): Fields
      reads this
    {
      Fields(pending, serialNumber, expectedPageSequence, pageCount, sawEos)
    }

    constructor (maxFrameBytes: nat)
      ensures State() == INITIAL && maxPendingBytes == MaxPending(maxFrameBytes)
    {
      pending, serialNumber, expectedPageSequence, pageCount, sawEos := [], None, None, 0, false;
      maxPendingBytes := MaxPending(maxFrameBytes);
    }

    method Feed(payload: seq<byte>) returns (r: Result<seq<byte>, Failure>)
      modifies this
      ensures var d := FeedOnce(maxPendingBytes, old(State()), payload);
              State() == d.fields && r == if d.failure.Some? then Err(d.failure.value) else Ok(d.output)
    {
      if sawEos || |pending| + |payload| > maxPendingBytes {
        return Err(BoundExceeded);
      }
      pending := pending + payload;
      ghost var start := State();
      var validated := [];
      while true
        invariant !sawEos
        invariant Resumes(start, validated, State())
        decreases |pending|
      {
        ghost var before := State();
        match Inspect(pending) {
          case NeedsMore =>
            assert validated + [] == validated;
            return Ok(validated);
          case Bad(failure) =>
            return Err(failure);
          case Complete(headerBytes, pageBytes) =>
            var page := pending[..pageBytes];
            var checked := CheckPage(LittleEndian4(page[14..18]), LittleEndian4(page[18..22]), page[5],
                                     page[headerBytes..]);
            if checked.Some? {
              return Err(checked.value);
            }
            pending := pending[pageBytes..];
            assert TakePage(before) == Ok(State());
            ResumesAfterPage(start, validated, before);
            validated := validated + page;
            if sawEos {
              if pending != [] {
                return Err(Discontinuous);
              }
              return Ok(validated);
            }
        }
      }
    }

    method CheckPage(serial: nat, sequence: nat, headerType: byte, body: seq<byte>) returns (failure: Option<Failure>)
      modifies this
      ensures match ValidatePage(old(State()), serial, sequence, headerType, body)
              case Ok(next) => failure == None && State() == next
              case Err(e) => failure == Some(e) && State() == old(State())
    {
      if pageCount == 0 {
        if !Bos(headerType) || Continued(headerType) || sequence != 0 || !(OPUS_HEAD <= body) {
          return Some(InvalidFirstPage);
        }
        serialNumber := Some(serial);
      } else if Bos(headerType) || Some(serial) != serialNumber || Some(sequence) != expectedPageSequence {
        return Some(Discontinuous);
      }
      pageCount := pageCount + 1;
      expectedPageSequence := Some((sequence + 1) % SEQUENCE_MODULUS);
      if Eos(headerType) {
        sawEos := true;
      }
      failure := None;
    }

    method Finish() returns (r: Result<(), Failure>)
      ensures r == if Finished(State()) then Ok(()) else Err(Incomplete)
    {
      r := if pending != [] || pageCount == 0 || !sawEos then Err(Incomplete) else Ok(());
    }
  }

  // ---- Conservation and bounds ----

  /** Nothing is lost or invented: what was validated and what is pending is what was received,
      whether or not the call fails. */
  lemma {:induction false} DrainConserves(s: Fields)
    ensures Drain(s).output + Drain(s).fields.pending == s.pending
    decreases |s.pending|
  {
    var f := Inspect(s.pending);
    if f.Complete? && TakePage(s).Ok? {
      var next, page := TakePage(s).value, s.pending[..f.pageBytes];
      assert page + next.pending == s.pending;
      DrainStep(s);
      if !next.sawEos {
        DrainConserves(next);
        Associative(page, Drain(next).output, Drain(next).fields.pending);
      }
    }
  }

  lemma SumBound(p: seq<byte>, n: nat)
    requires n <= MAX_SEGMENTS && FIXED_HEADER_BYTES + n <= |p|
    ensures Sum(p[FIXED_HEADER_BYTES..FIXED_HEADER_BYTES + n]) <= MAX_SEGMENTS * MAX_SEGMENTS
  {
  }

  /** A header cannot announce more than the longest page, and an unfinished page is shorter. */
  lemma UnfinishedPageIsShort(p: seq<byte>)
    ensures Inspect(p) != Bad(PageTooLong)
    ensures Inspect(p).NeedsMore? ==> |p| < MAX_PAGE_BYTES
  {
    if |p| >= FIXED_HEADER_BYTES + MAX_SEGMENTS {
      SumBound(p, p[26]);
    } else if |p| >= FIXED_HEADER_BYTES && FIXED_HEADER_BYTES + p[26] <= |p| {
      SumBound(p, p[26]);
    }
  }

  lemma {:induction false} DrainStopsShort(s: Fields)
    requires !s.sawEos
    ensures Drain(s).failure != Some(PageTooLong)
    ensures Drain(s).failure == None && !Drain(s).fields.sawEos ==> Inspect(Drain(s).fields.pending).NeedsMore?
    ensures Drain(s).failure == None && Drain(s).fields.sawEos ==> Drain(s).fields.pending == []
    ensures Drain(s).failure == None && !Drain(s).fields.sawEos ==> |Drain(s).fields.pending| < MAX_PAGE_BYTES
    decreases |s.pending|
  {
    UnfinishedPageIsShort(s.pending);
    if Inspect(s.pending).Complete? && TakePage(s).Ok? && !TakePage(s).value.sawEos {
      DrainStopsShort(TakePage(s).value);
    }
  }

  /** After a successful call that does not end the stream, the next frame of permitted size is
      never refused for its length, and no page is ever refused for its length. */
  lemma PendingLimitNeverRejects(maxFrameBytes: nat, s: Fields, payload: seq<byte>, next: seq<byte>)
    requires !s.sawEos && |next| <= maxFrameBytes
    requires FeedOnce(MaxPending(maxFrameBytes), s, payload).failure == None
    ensures var after := FeedOnce(MaxPending(maxFrameBytes), s, payload).fields;
            !after.sawEos ==>
              |after.pending| < 65307 &&
              FeedOnce(MaxPending(maxFrameBytes), after, next).failure !in {Some(BoundExceeded), Some(PageTooLong)}
  {
    DrainStopsShort(s.(pending := s.pending + payload));
    var after := FeedOnce(MaxPending(maxFrameBytes), s, payload).fields;
    if !after.sawEos {
      DrainStopsShort(after.(pending := after.pending + next));
      DrainNeverOverflows(after.(pending := after.pending + next));
    }
  }

  lemma {:induction false} DrainNeverOverflows(s: Fields)
    ensures Drain(s).failure != Some(BoundExceeded)
    decreases |s.pending|
  {
    if Inspect(s.pending).Complete? && TakePage(s).Ok? && !TakePage(s).value.sawEos {
      DrainNeverOverflows(TakePage(s).value);
    }
  }

  // ---- Independence of chunking ----

  /** More bytes never change what has already been decided about the front. */
  lemma InspectIsStable(p: seq<byte>, b: seq<byte>)
    requires !Inspect(p).NeedsMore?
    ensures Inspect(p + b) == Inspect(p)
  {
    assert (p + b)[..4] == p[..4];
    if FIXED_HEADER_BYTES + p[26] <= |p| {
      assert (p + b)[FIXED_HEADER_BYTES..FIXED_HEADER_BYTES + p[26]] ==
             p[FIXED_HEADER_BYTES..FIXED_HEADER_BYTES + p[26]];
    }
  }

  function Append(s: Fields, b: seq<byte>): Fields { s.(pending := s.pending + b) }

  /** The rules for a page do not look at the bytes behind it. */
  lemma ValidateAppended(s: Fields, b: seq<byte>, serial: nat, sequence: nat, headerType: byte, body: seq<byte>)
    ensures ValidatePage(Append(s, b), serial, sequence, headerType, body) ==
            match ValidatePage(s, serial, sequence, headerType, body)
            case Ok(next) => Ok(Append(next, b))
            case Err(e) => Err(e)
  {
  }

  lemma SplitAppended(p: seq<byte>, b: seq<byte>, n: nat)
    requires n <= |p|
    ensures (p + b)[..n] == p[..n] && (p + b)[n..] == p[n..] + b
  {
  }

  lemma TakePageIsStable(s: Fields, b: seq<byte>)
    requires Inspect(s.pending).Complete?
    ensures Inspect(s.pending + b) == Inspect(s.pending)
    ensures TakePage(Append(s, b)) == if TakePage(s).Err? then TakePage(s) else Ok(Append(TakePage(s).value, b))
  {
    InspectIsStable(s.pending, b);
    var f := Inspect(s.pending);
    SplitAppended(s.pending, b, f.pageBytes);
    var page := s.pending[..f.pageBytes];
    ValidateAppended(s, b, LittleEndian4(page[14..18]), LittleEndian4(page[18..22]), page[5], page[f.headerBytes..]);
  }

  /** The verdict on the whole, given the verdict on a first part. */
  ghost predicate Splits(first: Drained, whole: Drained, b: seq<byte>) {
    if first.failure.Some? || first.fields.sawEos then whole.failure.Some?
    else
      var second := Drain(Append(first.fields, b));
      whole == second.(output := first.output + second.output)
  }

  lemma PrefixedSplits(page: seq<byte>, first: Drained, whole: Drained, b: seq<byte>)
    requires Splits(first, whole, b)
    ensures Splits(first.(output := page + first.output), whole.(output := page + whole.output), b)
  {
    Associative(page, first.output, Drain(Append(first.fields, b)).output);
  }

  /** Draining more bytes at once is draining the first part and then the rest. */
  lemma {:induction false} DrainSplits(s: Fields, b: seq<byte>)
    requires !s.sawEos && b != []
    ensures Splits(Drain(s), Drain(Append(s, b)), b)
    decreases |s.pending|, 1
  {
    var f := Inspect(s.pending);
    if f.Bad? {
      InspectIsStable(s.pending, b);
    } else if f.NeedsMore? {
      assert [] + Drain(Append(s, b)).output == Drain(Append(s, b)).output;
    } else {
      DrainSplitsAfterPage(s, b);
    }
  }

  lemma {:induction false} DrainSplitsAfterPage(s: Fields, b: seq<byte>)
    requires !s.sawEos && b != [] && Inspect(s.pending).Complete?
    ensures Splits(Drain(s), Drain(Append(s, b)), b)
    decreases |s.pending|, 0
  {
    TakePageIsStable(s, b);
    if TakePage(s).Ok? {
      var n := Inspect(s.pending).pageBytes;
      var next, page := TakePage(s).value, s.pending[..n];
      assert (s.pending + b)[..n] == page;
      DrainStep(s);
      DrainStep(Append(s, b));
      if !next.sawEos {
        DrainSplits(next, b);
        PrefixedSplits(page, Drain(next), Drain(Append(next, b)), b);
      }
    }
  }

  /** When one call with `a + b` succeeds, so do the calls with `a` and then `b`, with the same
      final fields and the same validated bytes; and conversely when there is room for both. */
  lemma FeedIsChunkInvariant(maxPending: nat, s: Fields, a: seq<byte>, b: seq<byte>)
    requires b != []
    ensures var whole, first := FeedOnce(maxPending, s, a + b), FeedOnce(maxPending, s, a);
            var second := FeedOnce(maxPending, first.fields, b);
            (whole.failure == None ==>
               first.failure == None && second.failure == None &&
               whole == second.(output := first.output + second.output)) &&
            (first.failure == None && second.failure == None && |s.pending| + |a| + |b| <= maxPending ==>
               whole.failure == None)
  {
    assert s.pending + (a + b) == (s.pending + a) + b;
    if !s.sawEos {
      DrainSplits(Append(s, a), b);
      DrainConserves(Append(s, a));
    }
  }

  /** All bytes of a session, in order. */
  function Received(chunks: seq<seq<byte>>): seq<byte> {
    if chunks == [] then [] else chunks[0] + Received(chunks[1..])
  }

  /** A whole session of calls; it stops at the first failure. */
  function FeedAll(maxPending: nat, s: Fields, chunks: seq<seq<byte>>): Drained
    decreases |chunks|
  {
    if chunks == [] then Drained(s, [], None)
    else
      var first := FeedOnce(maxPending, s, chunks[0]);
      if first.failure.Some? then first
      else
        var rest := FeedAll(maxPending, first.fields, chunks[1..]);
        rest.(output := first.output + rest.output)
  }

  predicate Frames(maxFrameBytes: nat, chunks: seq<seq<byte>>) {
    forall c <- chunks :: 0 < |c| <= maxFrameBytes
  }

  lemma {:induction false} SessionConserves(maxPending: nat, s: Fields, chunks: seq<seq<byte>>)
    requires FeedAll(maxPending, s, chunks).failure == None
    ensures var d := FeedAll(maxPending, s, chunks); d.output + d.fields.pending == s.pending + Received(chunks)
    decreases |chunks|
  {
    if chunks == [] {
    } else {
      var first := FeedOnce(maxPending, s, chunks[0]);
      DrainConserves(Append(s, chunks[0]));
      SessionConserves(maxPending, first.fields, chunks[1..]);
      var rest := FeedAll(maxPending, first.fields, chunks[1..]);
      calc {
        (first.output + rest.output) + rest.fields.pending;
        { Associative(first.output, rest.output, rest.fields.pending); }
        first.output + (first.fields.pending + Received(chunks[1..]));
        { Associative(first.output, first.fields.pending, Received(chunks[1..])); }
        (s.pending + chunks[0]) + Received(chunks[1..]);
        { Associative(s.pending, chunks[0], Received(chunks[1..])); }
        s.pending + Received(chunks);
      }
    }
  }

  lemma NoLaterFrames(maxFrameBytes: nat, chunks: seq<seq<byte>>)
    requires Frames(maxFrameBytes, chunks) && Received(chunks) == []
    ensures chunks == []
  {
  }

  /** A session in frames of permitted size is one drain of everything received. */
  lemma {:induction false} SessionIsOneDrain(maxFrameBytes: nat, s: Fields, chunks: seq<seq<byte>>)
    requires Frames(maxFrameBytes, chunks)
    requires !s.sawEos && Inspect(s.pending).NeedsMore?
    ensures var session, whole := FeedAll(MaxPending(maxFrameBytes), s, chunks), Drain(Append(s, Received(chunks)));
            (session.failure == None <==> whole.failure == None) && (session.failure == None ==> session == whole)
    decreases |chunks|
  {
    if chunks == [] {
      assert s.pending + [] == s.pending;
    } else {
      var c, later := chunks[0], Received(chunks[1..]);
      UnfinishedPageIsShort(s.pending);
      assert c in chunks;
      assert s.pending + Received(chunks) == (s.pending + c) + later;
      var first := FeedOnce(MaxPending(maxFrameBytes), s, c);
      DrainStopsShort(Append(s, c));
      assert Frames(maxFrameBytes, chunks[1..]);
      if later == [] {
        NoLaterFrames(maxFrameBytes, chunks[1..]);
        assert (s.pending + c) + later == s.pending + c;
        assert first.output + [] == first.output;
      } else {
        DrainSplits(Append(s, c), later);
        if first.failure == None && !first.fields.sawEos {
          SessionIsOneDrain(maxFrameBytes, first.fields, chunks[1..]);
        }
      }
    }
  }

  // ---- What is accepted: the format, stated without the parser ----

  /** The fields of a page, in the order of section 6 of RFC 3533. */
  datatype PageFields = PageFields(
    headerType: byte,
    granulePosition: seq<byte>,
    serial: seq<byte>,
    sequence: seq<byte>,
    checksum: seq<byte>,
    lacing: seq<byte>,
    body: seq<byte>)

  predicate WellFormed(p: PageFields) {
    !HasUnknownFlags(p.headerType) && |p.granulePosition| == 8 && |p.serial| == 4 && |p.sequence| == 4 &&
    |p.checksum| == 4 && |p.lacing| <= MAX_SEGMENTS && |p.body| == Sum(p.lacing)
  }

  type Page = p: PageFields | WellFormed(p)
    witness PageFields(0, [0, 0, 0, 0, 0, 0, 0, 0], [0, 0, 0, 0], [0, 0, 0, 0], [0, 0, 0, 0], [], [])

  function Encode(p: Page): (b: seq<byte>) {
    CAPTURE_PATTERN + [0, p.headerType] + p.granulePosition + p.serial + p.sequence + p.checksum +
    [|p.lacing|] + p.lacing + p.body
  }

  function EncodeAll(pages: seq<Page>): seq<byte> {
    if pages == [] then [] else Encode(pages[0]) + EncodeAll(pages[1..])
  }

  /** `p` can be page number `n` of the logical stream with the given serial number. */
  predicate Fits(p: Page, n: nat, serial: nat) {
    LittleEndian4(p.serial) == serial &&
    LittleEndian4(p.sequence) == n % SEQUENCE_MODULUS &&
    (Bos(p.headerType) <==> n == 0) &&
    (n == 0 ==> !Continued(p.headerType) && OPUS_HEAD <= p.body)
  }

  /** `pages` are the pages from number `n` to the end of one logical stream. */
  ghost predicate StreamFrom(pages: seq<Page>, n: nat, serial: nat) {
    pages != [] &&
    forall i :: 0 <= i < |pages| ==> Fits(pages[i], n + i, serial) && (Eos(pages[i].headerType) <==> i == |pages| - 1)
  }

  /** Exactly one complete logical stream, and nothing else. */
  ghost predicate IsLogicalStream(b: seq<byte>) {
    exists pages, serial :: StreamFrom(pages, 0, serial) && b == EncodeAll(pages)
  }

  lemma StreamFromCons(pages: seq<Page>, n: nat, serial: nat)
    requires pages != []
    ensures StreamFrom(pages, n, serial) <==>
            Fits(pages[0], n, serial) &&
            if Eos(pages[0].headerType) then |pages| == 1 else StreamFrom(pages[1..], n + 1, serial)
  {
    var tail := pages[1..];
    if StreamFrom(pages, n, serial) {
      assert Fits(pages[0], n + 0, serial);
      forall i | 0 <= i < |tail|
        ensures Fits(tail[i], n + 1 + i, serial) && (Eos(tail[i].headerType) <==> i == |tail| - 1)
      {
        assert tail[i] == pages[i + 1];
      }
    }
    if Fits(pages[0], n, serial) && !Eos(pages[0].headerType) && StreamFrom(tail, n + 1, serial) {
      forall i | 0 <= i < |pages|
        ensures Fits(pages[i], n + i, serial) && (Eos(pages[i].headerType) <==> i == |pages| - 1)
      {
        if i > 0 {
          assert pages[i] == tail[i - 1];
          assert Fits(tail[i - 1], n + 1 + (i - 1), serial);
        }
      }
    }
  }

  /** The parser finds an encoded page at the front of any bytes, and its fields in place. */
  lemma InspectEncoded(p: Page, rest: seq<byte>)
    ensures Inspect(Encode(p) + rest) == Complete(FIXED_HEADER_BYTES + |p.lacing|, |Encode(p)|)
    ensures var b := Encode(p) + rest; var n := |Encode(p)|;
            b[..n] == Encode(p) && b[n..] == rest && b[5] == p.headerType &&
            b[..n][14..18] == p.serial && b[..n][18..22] == p.sequence &&
            b[..n][FIXED_HEADER_BYTES + |p.lacing|..] == p.body
  {
    var b := Encode(p) + rest;
    var h := FIXED_HEADER_BYTES + |p.lacing|;
    assert b[..4] == CAPTURE_PATTERN && b[4] == 0 && b[5] == p.headerType && b[26] == |p.lacing|;
    assert b[FIXED_HEADER_BYTES..h] == p.lacing;
  }

  /** Where the fields of a page stand. */
  lemma PageLayout(p: Page)
    ensures |Encode(p)| == 27 + |p.lacing| + |p.body|
    ensures Encode(p)[0] == 'O' as int && Encode(p)[1] == Encode(p)[2] == 'g' as int && Encode(p)[3] == 'S' as int
    ensures Encode(p)[4] == 0 && Encode(p)[5] == p.headerType
    ensures Encode(p)[6..14] == p.granulePosition && Encode(p)[14..18] == p.serial && Encode(p)[18..22] == p.sequence
    ensures Encode(p)[22..26] == p.checksum && Encode(p)[26] == |p.lacing|
    ensures Encode(p)[27..27 + |p.lacing|] == p.lacing && Encode(p)[27 + |p.lacing|..] == p.body
  {
  }

  /** And every complete front is an encoded page. */
  lemma DecodeFront(b: seq<byte>) returns (p: Page)
    requires Inspect(b).Complete?
    ensures Encode(p) == b[..Inspect(b).pageBytes]
  {
    var f := Inspect(b);
    p := PageFields(b[5], b[6..14], b[14..18], b[18..22], b[22..26],
              b[FIXED_HEADER_BYTES..f.headerBytes], b[f.headerBytes..f.pageBytes]);
    assert b[..f.pageBytes] ==
           b[..4] + [b[4], b[5]] + b[6..14] + b[14..18] + b[18..22] + b[22..26] + [b[26]] +
           b[FIXED_HEADER_BYTES..f.headerBytes] + b[f.headerBytes..f.pageBytes];
  }

  /** The fields of the validator between page `n - 1` and page `n` of a stream. */
  predicate At(s: Fields, n: nat, serial: nat) {
    !s.sawEos && s.pageCount == n &&
    (n > 0 ==> s.serialNumber == Some(serial) && s.expectedPageSequence == Some(n % SEQUENCE_MODULUS))
  }

  lemma NextSequence(n: nat)
    ensures (n % SEQUENCE_MODULUS + 1) % SEQUENCE_MODULUS == (n + 1) % SEQUENCE_MODULUS
  {
  }

  function Checked(s: Fields, page: Page): Result<Fields, Failure> {
    ValidatePage(s, LittleEndian4(page.serial), LittleEndian4(page.sequence), page.headerType, page.body)
  }

  /** An encoded page at the front is checked by its own fields. */
  lemma TakesEncoded(s: Fields, page: Page, rest: seq<byte>)
    requires s.pending == Encode(page) + rest
    ensures Inspect(s.pending).Complete?
    ensures TakePage(s) == match Checked(s, page) case Ok(next) => Ok(next.(pending := rest)) case Err(e) => Err(e)
  {
    InspectEncoded(page, rest);
  }

  /** Between two pages the rules accept exactly the pages that fit. */
  lemma CheckedIffFits(s: Fields, page: Page, n: nat, serial: nat)
    requires At(s, n, serial)
    ensures Checked(s, page).Ok? <==> Fits(page, n, if n == 0 then LittleEndian4(page.serial) else serial)
    ensures Checked(s, page).Ok? ==>
              var next := Checked(s, page).value;
              next.pageCount == n + 1 && next.sawEos == Eos(page.headerType) &&
              next.serialNumber == Some(LittleEndian4(page.serial)) &&
              next.expectedPageSequence == Some((n + 1) % SEQUENCE_MODULUS)
  {
    NextSequence(n);
  }

  /** The next page of the stream being followed is taken. */
  lemma FittingPageIsTaken(s: Fields, page: Page, rest: seq<byte>, n: nat, serial: nat)
    requires At(s, n, serial) && Fits(page, n, serial) && s.pending == Encode(page) + rest
    ensures Inspect(s.pending).Complete? && TakePage(s).Ok?
    ensures var next := TakePage(s).value;
            next.pending == rest && next.sawEos == Eos(page.headerType) && next.pageCount == n + 1 &&
            (!next.sawEos ==> At(next, n + 1, serial))
  {
    TakesEncoded(s, page, rest);
    CheckedIffFits(s, page, n, serial);
  }

  /** The pending bytes are the remaining bytes of an accepted stream. */
  ghost predicate DrainsToEnd(s: Fields) {
    Drain(s).failure == None && Finished(Drain(s).fields)
  }

  /** One page further on the stream is still accepted, or ends there. */
  lemma DrainsAfterPage(s: Fields)
    requires Inspect(s.pending).Complete? && TakePage(s).Ok?
    requires var next := TakePage(s).value; if next.sawEos then Finished(next) else DrainsToEnd(next)
    ensures DrainsToEnd(s)
  {
    DrainStep(s);
  }

  lemma {:induction false} StreamIsAccepted(s: Fields, pages: seq<Page>, n: nat, serial: nat)
    requires At(s, n, serial) && StreamFrom(pages, n, serial)
    requires s.pending == EncodeAll(pages)
    ensures DrainsToEnd(s)
    decreases |pages|
  {
    StreamFromCons(pages, n, serial);
    FittingPageIsTaken(s, pages[0], EncodeAll(pages[1..]), n, serial);
    var next := TakePage(s).value;
    if !next.sawEos {
      StreamIsAccepted(next, pages[1..], n + 1, serial);
    }
    DrainsAfterPage(s);
  }

  /** A page the validator takes is the next page of the stream it is following. */
  lemma TakenPageFits(s: Fields, n: nat, serial: nat) returns (page: Page)
    requires At(s, n, serial)
    requires Inspect(s.pending).Complete? && TakePage(s).Ok?
    ensures s.pending == Encode(page) + TakePage(s).value.pending
    ensures var found, next := LittleEndian4(page.serial), TakePage(s).value;
            Fits(page, n, found) && (n > 0 ==> found == serial) && next.sawEos == Eos(page.headerType) &&
            (!next.sawEos ==> At(next, n + 1, found))
  {
    var next := TakePage(s).value;
    page := DecodeFront(s.pending);
    assert s.pending == Encode(page) + next.pending;
    TakesEncoded(s, page, next.pending);
    CheckedIffFits(s, page, n, serial);
  }

  lemma NextAcceptedPage(s: Fields, n: nat, serial: nat) returns (page: Page, found: nat, next: Fields)
    requires At(s, n, serial) && DrainsToEnd(s)
    ensures Fits(page, n, found) && (n > 0 ==> found == serial)
    ensures s.pending == Encode(page) + next.pending && |next.pending| < |s.pending|
    ensures if Eos(page.headerType) then next.pending == [] else DrainsToEnd(next) && At(next, n + 1, found)
  {
    next := TakePage(s).value;
    DrainStep(s);
    page := TakenPageFits(s, n, serial);
    found := LittleEndian4(page.serial);
  }

  lemma {:induction false} AcceptedIsStream(s: Fields, n: nat, serial: nat) returns (pages: seq<Page>, found: nat)
    requires At(s, n, serial) && DrainsToEnd(s)
    ensures n > 0 ==> found == serial
    ensures StreamFrom(pages, n, found) && s.pending == EncodeAll(pages)
    decreases |s.pending|, 0
  {
    var page, next;
    page, found, next := NextAcceptedPage(s, n, serial);
    var tail := AcceptedTail(next, Eos(page.headerType), n, found);
    pages := [page] + tail;
    PageBefore(s.pending, page, tail, next.pending, n, found);
  }

  lemma {:induction false} AcceptedTail(s: Fields, ended: bool, n: nat, serial: nat) returns (tail: seq<Page>)
    requires if ended then s.pending == [] else DrainsToEnd(s) && At(s, n + 1, serial)
    ensures if ended then tail == [] else StreamFrom(tail, n + 1, serial)
    ensures s.pending == EncodeAll(tail)
    decreases |s.pending|, 1
  {
    if ended {
      tail := [];
    } else {
      var same;
      tail, same := AcceptedIsStream(s, n + 1, serial);
    }
  }

  /** A page in front of a stream that continues it, or the last page in front of nothing. */
  lemma PageBefore(b: seq<byte>, page: Page, tail: seq<Page>, rest: seq<byte>, n: nat, serial: nat)
    requires Fits(page, n, serial) && b == Encode(page) + rest && rest == EncodeAll(tail)
    requires if Eos(page.headerType) then tail == [] else StreamFrom(tail, n + 1, serial)
    ensures StreamFrom([page] + tail, n, serial) && b == EncodeAll([page] + tail)
  {
    assert ([page] + tail)[1..] == tail;
    StreamFromCons([page] + tail, n, serial);
  }

  /** The verdict of a session followed by `finish`. */
  predicate Accepts(maxFrameBytes: nat, chunks: seq<seq<byte>>) {
    var d := FeedAll(MaxPending(maxFrameBytes), INITIAL, chunks);
    d.failure == None && Finished(d.fields)
  }

  /** A session is accepted when its whole input drains to the end, and then it is its own output. */
  lemma AcceptsIffDrains(maxFrameBytes: nat, chunks: seq<seq<byte>>)
    requires Frames(maxFrameBytes, chunks)
    ensures var all := Append(INITIAL, Received(chunks));
            all.pending == Received(chunks) && At(all, 0, 0) && (Accepts(maxFrameBytes, chunks) <==> DrainsToEnd(all))
    ensures Accepts(maxFrameBytes, chunks) ==>
              FeedAll(MaxPending(maxFrameBytes), INITIAL, chunks).output == Received(chunks)
  {
    SessionIsOneDrain(maxFrameBytes, INITIAL, chunks);
    var all := Append(INITIAL, Received(chunks));
    NothingBefore(Received(chunks));
    if DrainsToEnd(all) {
      DrainedToEndIsPassedOn(all);
    }
  }

  lemma NothingBefore(b: seq<byte>)
    ensures Append(INITIAL, b).pending == b
  {
    assert [] + b == b;
  }

  lemma DrainedToEndIsPassedOn(s: Fields)
    requires DrainsToEnd(s)
    ensures Drain(s).output == s.pending
  {
    DrainConserves(s);
    assert Drain(s).output + [] == Drain(s).output;
  }

  /** Main result: however a byte string is cut into frames, it is accepted exactly when it is one
      complete logical stream, and then every byte has been passed on, in order. */
  lemma AcceptsExactlyLogicalStreams(maxFrameBytes: nat, chunks: seq<seq<byte>>)
    requires Frames(maxFrameBytes, chunks)
    ensures Accepts(maxFrameBytes, chunks) <==> IsLogicalStream(Received(chunks))
    ensures Accepts(maxFrameBytes, chunks) ==>
              FeedAll(MaxPending(maxFrameBytes), INITIAL, chunks).output == Received(chunks)
  {
    AcceptsIffDrains(maxFrameBytes, chunks);
    var all := Append(INITIAL, Received(chunks));
    if DrainsToEnd(all) {
      var pages, serial := AcceptedIsStream(all, 0, 0);
    }
    if IsLogicalStream(Received(chunks)) {
      var pages, serial :| StreamFrom(pages, 0, serial) && Received(chunks) == EncodeAll(pages);
      StreamIsAccepted(all, pages, 0, serial);
    }
  }

  // ---- The session's path from the validator to the decoder ----

  predicate OccursAt(haystack: seq<byte>, needle: seq<byte>, p: nat) {
    p + |needle| <= |haystack| && haystack[p..p + |needle|] == needle
  }

  predicate Contains(haystack: seq<byte>, needle: seq<byte>) {
    exists p | 0 <= p <= |haystack| :: OccursAt(haystack, needle, p)
  }

  /** A first page that is taken holds the OpusHead marker at the start of its body. */
  lemma FirstPageHoldsOpusHead(s: Fields)
    requires s.pageCount == 0 && Inspect(s.pending).Complete? && TakePage(s).Ok?
    ensures OccursAt(s.pending[..Inspect(s.pending).pageBytes], OPUS_HEAD, Inspect(s.pending).headerBytes)
  {
    var f := Inspect(s.pending);
    assert OPUS_HEAD <= s.pending[..f.pageBytes][f.headerBytes..];
  }

  lemma OccursInPrefix(a: seq<byte>, b: seq<byte>, needle: seq<byte>, p: nat)
    requires OccursAt(a, needle, p)
    ensures Contains(a + b, needle)
  {
    assert (a + b)[p..p + |needle|] == a[p..p + |needle|];
    assert OccursAt(a + b, needle, p);
  }

  /** The first bytes validated are at least the first page, and so hold the OpusHead marker. */
  lemma FirstOutputHoldsOpusHead(s: Fields)
    requires !s.sawEos && Drain(s).failure == None
    ensures Drain(s).output == [] <==> Drain(s).fields.pageCount == s.pageCount
    ensures s.pageCount == 0 && Drain(s).output != [] ==> Contains(Drain(s).output, OPUS_HEAD)
  {
    var f := Inspect(s.pending);
    if f.Complete? {
      DrainStep(s);
      var next, page := TakePage(s).value, s.pending[..f.pageBytes];
      PageCountGrows(next);
      if s.pageCount == 0 {
        FirstPageHoldsOpusHead(s);
        OccursInPrefix(page, if next.sawEos then [] else Drain(next).output, OPUS_HEAD, f.headerBytes);
        assert page + [] == page;
      }
    }
  }

  lemma {:induction false} PageCountGrows(s: Fields)
    ensures Drain(s).fields.pageCount >= s.pageCount
    decreases |s.pending|
  {
    if Inspect(s.pending).Complete? && TakePage(s).Ok? {
      DrainStep(s);
      if !TakePage(s).value.sawEos {
        PageCountGrows(TakePage(s).value);
      }
    }
  }

  // ---- A stream that failed stays failed ----

  /** Bytes are left that no further bytes can make acceptable. */
  predicate Stuck(s: Fields) {
    s.pending != [] && (s.sawEos || Drain(s).failure.Some?)
  }

  lemma {:induction false} FailureSticks(s: Fields)
    requires Drain(s).failure.Some?
    ensures Drain(s).fields.pending != [] && (Drain(s).fields.sawEos || Drain(Drain(s).fields).failure.Some?)
    decreases |s.pending|
  {
    if Inspect(s.pending).Complete? && TakePage(s).Ok? {
      DrainStep(s);
      if !TakePage(s).value.sawEos {
        FailureSticks(TakePage(s).value);
      }
    }
  }

  /** Once a drain has failed, every later call fails as well. */
  lemma StuckStays(maxPending: nat, s: Fields, frame: seq<byte>)
    requires Stuck(s)
    ensures FeedOnce(maxPending, s, frame).failure.Some? && Stuck(FeedOnce(maxPending, s, frame).fields)
  {
    if !s.sawEos && |s.pending| + |frame| <= maxPending {
      if frame == [] {
        assert Append(s, frame) == s;
      } else {
        DrainSplits(s, frame);
      }
      FailureSticks(Append(s, frame));
    }
  }

  /** A failed call leaves the fields alone or leaves a stuck stream. */
  lemma FailedOrUnchanged(maxPending: nat, s: Fields, frame: seq<byte>)
    requires FeedOnce(maxPending, s, frame).failure.Some?
    ensures FeedOnce(maxPending, s, frame).fields == s || Stuck(FeedOnce(maxPending, s, frame).fields)
  {
    if !s.sawEos && |s.pending| + |frame| <= maxPending {
      FailureSticks(Append(s, frame));
    }
  }

  const OGG_HEADER_MAX_BYTES: nat := 8 * 1024

  class OpusDecodePath {
    const validator: OggLogicalStreamValidator
    var header: seq<byte>
    var headerVerified: bool
    var decoderInput: seq<byte>

    ghost predicate Valid()
      reads this, validator
    {
      header == [] && (Stuck(validator.State()) || (headerVerified <==> validator.pageCount > 0))
    }

    constructor (maxFrameBytes: nat)
      ensures Valid() && fresh(validator) && decoderInput == []
      ensures validator.State() == INITIAL && validator.maxPendingBytes == MaxPending(maxFrameBytes)
    {
      validator := new OggLogicalStreamValidator(maxFrameBytes);
      header, headerVerified, decoderInput := [], false, [];
    }

    /** The decoder receives exactly the validated bytes, in the call that validates them; the
        branch that holds back or refuses a header without OpusHead is never taken. */
    method Decode(frame: seq<byte>) returns (r: Result<seq<byte>, Failure>)
      requires Valid()
      modifies this, validator
      ensures Valid()
      ensures var d := FeedOnce(validator.maxPendingBytes, old(validator.State()), frame);
              validator.State() == d.fields &&
              if d.failure.Some? then r == Err(d.failure.value) && decoderInput == old(decoderInput)
              else r == Ok(d.output) && decoderInput == old(decoderInput) + d.output
    {
      ghost var start := validator.State();
      ghost var before := Append(start, frame);
      var fed := validator.Feed(frame);
      if Stuck(start) {
        StuckStays(validator.maxPendingBytes, start, frame);
      }
      if fed.Err? {
        FailedOrUnchanged(validator.maxPendingBytes, start, frame);
        return fed;
      }
      FirstOutputHoldsOpusHead(before);
      PageCountGrows(before);
      var validated := fed.value;
      if validated == [] {
        return Ok([]);
      }
      if !headerVerified {
        header := header + validated;
        assert header == validated;
        if !Contains(header, OPUS_HEAD) {
          if |header| > OGG_HEADER_MAX_BYTES {
            return Err(HeaderOverflow);
          }
          return Ok([]);
        }
        headerVerified := true;
        validated := header;
        header := [];
      }
      decoderInput := decoderInput + validated;
      r := Ok(validated);
    }

    /** Once the logical stream is complete the missing-OpusHead refusal cannot happen. */
    method FinishDecoder() returns (r: Result<(), Failure>)
      requires Valid()
      ensures r == if Finished(validator.State()) then Ok(()) else Err(Incomplete)
    {
      r := validator.Finish();
      if r.Ok? && !headerVerified {
        return Err(MissingOpusHead);
      }
    }
  }
}
