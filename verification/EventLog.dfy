// The lifecycle log of a run: numbered events, each carrying the hash of its predecessor and a
// hash over everything else it holds.

module EventLog {
  import opened AgentContracts
  import opened Common
  import opened Outcomes

  type Hash = string

  /** The event types an agent run records. */
  datatype EventType =
    | AgentStarted
    | ModelRequested | ModelCompleted | ModelFailed
    | ToolProposed | ToolValidated | ToolAllowed | ToolStarted | ToolCompleted | ToolFailed
    | OutputValidated | OutputRejected
    | RunCompleted | RunFailed

  /** A run-local tool call: turn and position in the turn, both counted from zero. */
  datatype CallId = CallId(turn: nat, index: nat)

  /** The redacted payload, one form per group of event types. */
  datatype Payload =
    | Agent(modelId: string)
    | Model(turn: nat)
    | Usage(turn: nat, inputTokens: nat, outputTokens: nat)
    | Call(id: CallId, tool: string)
    | Submitted(id: CallId, tool: string)
    | Failure(code: FailureCode)

  /** What the hash covers. */
  datatype Document = Document(runId: nat, sequence: nat, eventType: EventType, occurredAt: int, payload: Payload,
                               previousHash: Option<Hash>)

  datatype RunEvent = RunEvent(document: Document, currentHash: Hash)

  predicate Linked(log: seq<RunEvent>, i: nat, runId: nat, digest: Document -> Hash)
    requires i < |log|
  {
    var d := log[i].document;
    d.runId == runId && d.sequence == i + 1 &&
    d.previousHash == (if i == 0 then None else Some(log[i - 1].currentHash)) &&
    log[i].currentHash == digest(d)
  }

  /** Contiguous numbers from one, and an unbroken chain of hashes. */
  ghost predicate IsChain(log: seq<RunEvent>, runId: nat, digest: Document -> Hash) {
    forall i :: 0 <= i < |log| ==> Linked(log, i, runId, digest)
  }

  function LastHash(log: seq<RunEvent>): Option<Hash> {
    if log == [] then None else Some(log[|log| - 1].currentHash)
  }

  function Documents(log: seq<RunEvent>): set<Document> {
    set e | e in log :: e.document
  }

  /** Main result: unless two of the documents hashed collide, the last hash determines every event
      before it, the length of the log and the run it belongs to. */
  lemma {:induction false} LastHashDeterminesLog(a: seq<RunEvent>, b: seq<RunEvent>, runA: nat, runB: nat,
                                                 digest: Document -> Hash)
    requires IsChain(a, runA, digest) && IsChain(b, runB, digest)
    requires CollisionFree(digest, Documents(a) + Documents(b))
    requires LastHash(a) == LastHash(b)
    ensures a == b && (a != [] ==> runA == runB)
    decreases |a|
  {
    if a == [] {
    } else {
      var m, n := |a| - 1, |b| - 1;
      assert Linked(a, m, runA, digest) && Linked(b, n, runB, digest);
      assert a[m] in a && b[n] in b;
      assert a[m].document in Documents(a) && b[n].document in Documents(b);
      assert a[m].document == b[n].document;
      PrefixIsChain(a, m, runA, digest);
      PrefixIsChain(b, n, runB, digest);
      assert Documents(a[..m]) <= Documents(a) && Documents(b[..n]) <= Documents(b);
      LastHashDeterminesLog(a[..m], b[..n], runA, runB, digest);
      assert a == a[..m] + [a[m]] && b == b[..n] + [b[n]];
    }
  }

  lemma PrefixIsChain(log: seq<RunEvent>, n: nat, runId: nat, digest: Document -> Hash)
    requires IsChain(log, runId, digest) && n <= |log|
    ensures IsChain(log[..n], runId, digest)
  {
    forall i | 0 <= i < n ensures Linked(log[..n], i, runId, digest) {
      assert Linked(log, i, runId, digest);
    }
  }

  /** Changing, dropping or adding an event without redoing the hashes after it breaks the chain:
      two chains that agree on the event at one position agree on all that comes before it. */
  lemma SharedEventSharesHistory(a: seq<RunEvent>, b: seq<RunEvent>, runA: nat, runB: nat, digest: Document -> Hash,
                                 i: nat, j: nat)
    requires IsChain(a, runA, digest) && IsChain(b, runB, digest)
    requires CollisionFree(digest, Documents(a) + Documents(b))
    requires i < |a| && j < |b| && a[i].currentHash == b[j].currentHash
    ensures i == j && a[..i + 1] == b[..j + 1]
  {
    PrefixIsChain(a, i + 1, runA, digest);
    PrefixIsChain(b, j + 1, runB, digest);
    assert Documents(a[..i + 1]) <= Documents(a) && Documents(b[..j + 1]) <= Documents(b);
    LastHashDeterminesLog(a[..i + 1], b[..j + 1], runA, runB, digest);
    assert |a[..i + 1]| == i + 1 && |b[..j + 1]| == j + 1;
  }

  /** The recorder, with a sink that keeps what it is given. */
  class LifecycleRecorder {
    const runId: nat
    const digest: Document -> Hash
    var sequence: nat
    var previousHash: Option<Hash>
    var events: seq<RunEvent>

    ghost predicate Valid()
      reads this
    {
      sequence == |events| && previousHash == LastHash(events) && IsChain(events, runId, digest)
    }

    constructor (runId: nat, digest: Document -> Hash)
      ensures Valid() && events == [] && this.runId == runId && this.digest == digest
    {
      this.runId, this.digest := runId, digest;
      sequence, previousHash, events := 0, None, [];
    }

    /** One atomic step: the next number, the hash over the document, then the append. */
    method Record(eventType: EventType, payload: Payload, now: int) returns (event: RunEvent)
      requires Valid()
      modifies this
      ensures Valid() && events == old(events) + [event]
      ensures event.document.eventType == eventType && event.document.payload == payload &&
              event.document.occurredAt == now
    {
      sequence := sequence + 1;
      var document := Document(runId, sequence, eventType, now, payload, previousHash);
      event := RunEvent(document, digest(document));
      events := events + [event];
      previousHash := Some(event.currentHash);
      forall i | 0 <= i < |events| ensures Linked(events, i, runId, digest) {
        assert i < |events| - 1 ==> Linked(old(events), i, runId, digest);
      }
    }
  }
}
