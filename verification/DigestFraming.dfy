// The content digest of a provisioned model directory. Every file contributes its path, its
// length and the digest of its content, each either of fixed width or preceded by its length,
// so that the byte stream given to the outer hash determines the whole file list.

module DigestFraming {
  import opened Bytes
  import opened Common
  import opened Outcomes

  /** A SHA-256 value. */
  type Digest = d: seq<byte> | |d| == 32 witness seq(32, _ => 0)

  /** A regular file found by the directory walk: its relative path in POSIX form, UTF-8 encoded,
      and the chunks its content is read in. */
  datatype File = File(path: seq<byte>, chunks: seq<seq<byte>>)

  /** What one file contributes to the stream. */
  datatype Record = Record(path: seq<byte>, length: nat, digest: Digest)

  datatype Error = EmptyDirectory | Overflow

  const WORD: nat := 8
  const LIMIT: nat := 0x1_0000_0000_0000_0000

  lemma WordCapacity()
    ensures Capacity(WORD) == LIMIT
  {
    assert Capacity(4) == 0x1_0000_0000 by {
      assert Capacity(2) == 0x1_0000;
    }
    assert Capacity(6) == 0x1_0000_0000_0000;
  }

  function Word(n: nat): (b: seq<byte>)
    requires n < LIMIT
    ensures |b| == WORD
  {
    WordCapacity();
    BigEndian(n, WORD)
  }

  lemma WordInjective(m: nat, n: nat)
    requires m < LIMIT && n < LIMIT && Word(m) == Word(n)
    ensures m == n
  {
    WordCapacity();
    BigEndianRoundTrip(m, WORD);
    BigEndianRoundTrip(n, WORD);
  }

  function RecordOf(file: File, sha256: seq<byte> -> Digest): Record {
    var content := Concat(file.chunks);
    Record(file.path, |content|, sha256(content))
  }

  predicate Framable(r: Record) {
    |r.path| < LIMIT && r.length < LIMIT
  }

  function Frame(r: Record): seq<byte>
    requires Framable(r)
  {
    Word(|r.path|) + r.path + Word(r.length) + r.digest
  }

  function Frames(records: seq<Record>): seq<byte>
    requires forall r <- records :: Framable(r)
  {
    if records == [] then [] else Frame(records[0]) + Frames(records[1..])
  }

  /** The whole stream: a domain tag, the number of files, then the frames. */
  function Stream(domain: seq<byte>, records: seq<Record>): seq<byte>
    requires |records| < LIMIT
    requires forall r <- records :: Framable(r)
  {
    domain + Word(|records|) + Frames(records)
  }

  /** The stream field by field; numbers are eight bytes, the most significant first. */
  lemma FrameLayout(r: Record)
    requires Framable(r)
    ensures var b, n := Frame(r), |r.path|;
            |b| == 8 + n + 8 + 32 && BigEndianValue(b[..8]) == n && b[8..8 + n] == r.path &&
            BigEndianValue(b[8 + n..16 + n]) == r.length && b[16 + n..] == r.digest
  {
    var b, n := Frame(r), |r.path|;
    WordCapacity();
    BigEndianRoundTrip(n, WORD);
    BigEndianRoundTrip(r.length, WORD);
    assert b[..8] == Word(n) && b[8 + n..16 + n] == Word(r.length);
  }

  lemma StreamLayout(domain: seq<byte>, records: seq<Record>)
    requires |records| < LIMIT && forall r <- records :: Framable(r)
    ensures var b, n := Stream(domain, records), |domain|;
            |b| >= n + 8 && b[..n] == domain && BigEndianValue(b[n..n + 8]) == |records| &&
            b[n + 8..] == Frames(records)
  {
    var b, n := Stream(domain, records), |domain|;
    WordCapacity();
    BigEndianRoundTrip(|records|, WORD);
    assert b[n..n + 8] == Word(|records|);
  }

  function Records(files: seq<File>, sha256: seq<byte> -> Digest): (rs: seq<Record>)
    ensures |rs| == |files|
    ensures forall i :: 0 <= i < |files| ==> rs[i] == RecordOf(files[i], sha256)
  {
    seq(|files|, i requires 0 <= i < |files| => RecordOf(files[i], sha256))
  }

  lemma {:induction false} FramesAppend(records: seq<Record>, r: Record)
    requires Framable(r) && forall x <- records :: Framable(x)
    ensures Frames(records + [r]) == Frames(records) + Frame(r)
  {
    if records == [] {
      assert records + [r] == [r] && [r][1..] == [];
      assert Frames([r]) == Frame(r) + Frames([]);
    } else {
      assert (records + [r])[1..] == records[1..] + [r];
      FramesAppend(records[1..], r);
      assert Frame(records[0]) + (Frames(records[1..]) + Frame(r)) ==
             (Frame(records[0]) + Frames(records[1..])) + Frame(r);
    }
  }

  /** The files the walk keeps: all but the provenance marker the script itself writes. */
  function Kept(walk: seq<File>, marker: seq<byte>): seq<File> {
    if walk == [] then []
    else
      var init := Kept(walk[..|walk| - 1], marker);
      if walk[|walk| - 1].path == marker then init else init + [walk[|walk| - 1]]
  }

  /** Length and content digest of one file, read chunk by chunk. */
  method ReadContent(file: File, sha256: seq<byte> -> Digest) returns (r: Record)
    ensures r == RecordOf(file, sha256)
  {
    var length, fed := 0, [];
    for i := 0 to |file.chunks|
      invariant fed == Concat(file.chunks[..i]) && length == |fed|
    {
      assert file.chunks[..i + 1][..i] == file.chunks[..i];
      length := length + |file.chunks[i]|;
      fed := fed + file.chunks[i];
    }
    assert file.chunks[..|file.chunks|] == file.chunks;
    r := Record(file.path, length, sha256(fed));
  }

  /** The digest of a directory whose walk, in sorted order, yields `walk`. */
  method ArtifactContentDigest(walk: seq<File>, marker: seq<byte>, domain: seq<byte>, sha256: seq<byte> -> Digest)
    returns (r: Result<Digest, Error>)
    ensures Kept(walk, marker) == [] ==> r == Err(EmptyDirectory)
    ensures Kept(walk, marker) != [] ==>
              var records := Records(Kept(walk, marker), sha256);
              if |records| < LIMIT && forall x <- records :: Framable(x)
              then r == Ok(sha256(Stream(domain, records)))
              else r == Err(Overflow)
  {
    var files := [];
    for i := 0 to |walk|
      invariant files == Kept(walk[..i], marker)
    {
      assert walk[..i + 1][..i] == walk[..i];
      if walk[i].path != marker {
        files := files + [walk[i]];
      }
    }
    assert walk[..|walk|] == walk;
    if files == [] {
      return Err(EmptyDirectory);
    }
    r := DigestOf(files, domain, sha256);
  }

  /** The digest over the framed records of `files`. */
  method DigestOf(files: seq<File>, domain: seq<byte>, sha256: seq<byte> -> Digest) returns (r: Result<Digest, Error>)
    ensures var records := Records(files, sha256);
            if |records| < LIMIT && forall x <- records :: Framable(x)
            then r == Ok(sha256(Stream(domain, records)))
            else r == Err(Overflow)
  {
    ghost var records := Records(files, sha256);
    if |files| >= LIMIT {
      return Err(Overflow);
    }
    var stream := domain + Word(|files|);
    assert stream == domain + Word(|files|) + Frames([]);
    assert records[..0] == [];
    for i := 0 to |files|
      invariant AllFramable(records[..i])
      invariant stream == domain + Word(|files|) + Frames(records[..i])
    {
      var record := ReadContent(files[i], sha256);
      assert record == records[i];
      if |record.path| >= LIMIT || record.length >= LIMIT {
        assert !Framable(records[i]);
        return Err(Overflow);
      }
      FrameFollows(records, i, domain + Word(|files|));
      stream := stream + Word(|record.path|) + record.path + Word(record.length) + record.digest;
    }
    assert records[..|files|] == records;
    r := Ok(sha256(stream));
  }

  predicate AllFramable(records: seq<Record>) {
    forall r <- records :: Framable(r)
  }

  lemma FrameFollows(records: seq<Record>, i: nat, header: seq<byte>)
    requires i < |records| && AllFramable(records[..i]) && Framable(records[i])
    ensures AllFramable(records[..i + 1])
    ensures var r := records[i];
            header + Frames(records[..i]) + Word(|r.path|) + r.path + Word(r.length) + r.digest ==
            header + Frames(records[..i + 1])
  {
    var r := records[i];
    assert records[..i + 1] == records[..i] + [r];
    FramesAppend(records[..i], r);
    var done := header + Frames(records[..i]);
    assert done + Word(|r.path|) + r.path + Word(r.length) + r.digest == done + Frame(r);
    assert done + Frame(r) == header + (Frames(records[..i]) + Frame(r));
  }

  /** A frame can be read back from the front of any stream: the rest is also determined. */
  lemma FrameIsPrefixFree(a: Record, b: Record, x: seq<byte>, y: seq<byte>)
    requires Framable(a) && Framable(b)
    requires Frame(a) + x == Frame(b) + y
    ensures a == b && x == y
  {
    var s := Frame(a) + x;
    var n, m := |a.path|, |b.path|;
    assert s[..WORD] == Word(n);
    assert s[..WORD] == Word(m);
    WordInjective(n, m);
    assert s[WORD..WORD + n] == a.path;
    assert s[WORD..WORD + n] == b.path;
    assert s[WORD + n..2 * WORD + n] == Word(a.length);
    assert s[WORD + n..2 * WORD + n] == Word(b.length);
    WordInjective(a.length, b.length);
    assert s[2 * WORD + n..2 * WORD + n + 32] == a.digest;
    assert s[2 * WORD + n..2 * WORD + n + 32] == b.digest;
    assert s[2 * WORD + n + 32..] == x;
    assert s[2 * WORD + n + 32..] == y;
  }

  lemma {:induction false} FramesAreUnique(a: seq<Record>, b: seq<Record>)
    requires |a| == |b|
    requires (forall r <- a :: Framable(r)) && (forall r <- b :: Framable(r))
    requires Frames(a) == Frames(b)
    ensures a == b
  {
    if a == [] {
    } else {
      FrameIsPrefixFree(a[0], b[0], Frames(a[1..]), Frames(b[1..]));
      FramesAreUnique(a[1..], b[1..]);
      assert a == [a[0]] + a[1..] && b == [b[0]] + b[1..];
    }
  }

  /** Main result: equal streams come from equal ordered lists of path, length and digest. */
  lemma StreamIsUniquelyDecodable(domain: seq<byte>, a: seq<Record>, b: seq<Record>)
    requires |a| < LIMIT && |b| < LIMIT
    requires (forall r <- a :: Framable(r)) && (forall r <- b :: Framable(r))
    requires Stream(domain, a) == Stream(domain, b)
    ensures a == b
  {
    var s := Stream(domain, a);
    var d := |domain|;
    assert s[d..d + WORD] == Word(|a|);
    assert s[d..d + WORD] == Word(|b|);
    WordInjective(|a|, |b|);
    assert s[d + WORD..] == Frames(a);
    assert s[d + WORD..] == Frames(b);
    FramesAreUnique(a, b);
  }

  /** Everything that is hashed while the digest of `files` is computed. */
  ghost function Hashed(domain: seq<byte>, files: seq<File>, sha256: seq<byte> -> Digest): set<seq<byte>>
    requires |files| < LIMIT && forall r <- Records(files, sha256) :: Framable(r)
  {
    {Stream(domain, Records(files, sha256))} + (set f | f in files :: Concat(f.chunks))
  }

  /** Unless two of the strings hashed collide, the digest fixes every path and every content
      byte, however the contents were cut into chunks. */
  lemma DigestDeterminesTree(domain: seq<byte>, a: seq<File>, b: seq<File>, sha256: seq<byte> -> Digest)
    requires |a| < LIMIT && |b| < LIMIT
    requires (forall r <- Records(a, sha256) :: Framable(r)) && (forall r <- Records(b, sha256) :: Framable(r))
    requires CollisionFree(sha256, Hashed(domain, a, sha256) + Hashed(domain, b, sha256))
    requires sha256(Stream(domain, Records(a, sha256))) == sha256(Stream(domain, Records(b, sha256)))
    ensures |a| == |b|
    ensures forall i :: 0 <= i < |a| ==> a[i].path == b[i].path && Concat(a[i].chunks) == Concat(b[i].chunks)
  {
    StreamIsUniquelyDecodable(domain, Records(a, sha256), Records(b, sha256));
    forall i | 0 <= i < |a|
      ensures a[i].path == b[i].path && Concat(a[i].chunks) == Concat(b[i].chunks)
    {
      assert Records(a, sha256)[i] == Records(b, sha256)[i];
      assert a[i] in a && b[i] in b;
      assert Concat(a[i].chunks) in Hashed(domain, a, sha256);
      assert Concat(b[i].chunks) in Hashed(domain, b, sha256);
    }
  }
}
