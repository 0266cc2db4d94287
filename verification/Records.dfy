/** The memory record, the candidate fact, and the write path's audit types. */
module Records {
  import opened Prelude

  type UserId = string
  type MemoryId = string
  type ThreadId = string
  type CheckpointKey = string

  datatype MemoryKind = SEMANTIC | EPISODIC | PROCEDURAL

  /** Where the content behind a memory came from. */
  datatype Provenance = USER | AGENT | TOOL | DOCUMENT

  predicate IsTrusted(source: Provenance) {
    source.USER? || source.AGENT?
  }

  /** One stored fact about one user. Times are whole microseconds. */
  datatype Memory = Memory(
    id: MemoryId,
    user: UserId,
    text: string,
    kind: MemoryKind,
    source: Provenance,
    importance: real,
    createdAt: int,
    updatedAt: int,
    expiresAt: Option<int>,
    supersededBy: Option<MemoryId>,
    supersededAt: Option<int>,
    attribute: string,
    value: string,
    scope: string,
    thread: Option<ThreadId>,
    evidence: Option<string>
  ) {
    predicate IsActive(now: int) {
      supersededBy.None? && (expiresAt.None? || expiresAt.value > now)
    }

    /** The (attribute, scope) pair this fact occupies. */
    function Slot(): Slot {
      (attribute, scope)
    }
  }

  /** Neither retired nor expired. */
  ghost predicate Live(m: Memory, now: int) {
    m.supersededBy == None && (m.expiresAt == None || m.expiresAt.value > now)
  }

  type Slot = (string, string)

  /** An empty attribute means the fact occupies no slot. */
  predicate IsSlot(slot: Slot) {
    slot.0 != ""
  }

  /** One user's records, by id. */
  type Namespace = map<MemoryId, Memory>

  /** What an extractor proposes, before the field validators have run. */
  datatype RawFact = RawFact(
    text: string,
    attribute: string,
    value: string,
    scope: string,
    kind: MemoryKind,
    importance: real,
    ttlDays: Option<int>
  )

  /** A fact that passed validation: some text, importance in [0, 1], no dead-on-arrival expiry. */
  type CandidateFact = c: RawFact |
      && c.text != ""
      && 0.0 <= c.importance <= 1.0
      && (c.ttlDays.Some? ==> c.ttlDays.value > 0)
    witness RawFact("x", "", "", "", SEMANTIC, 0.5, None)

  /** Runs the validators: a non-positive TTL means "durable", the other bounds reject. */
  function Validate(raw: RawFact): (r: Option<CandidateFact>)
    ensures r.None? <==> raw.text == "" || raw.importance < 0.0 || raw.importance > 1.0
    ensures r.Some? ==> r.value == raw.(ttlDays := r.value.ttlDays)
    ensures r.Some? ==>
              r.value.ttlDays == if raw.ttlDays.Some? && raw.ttlDays.value > 0 then raw.ttlDays else None
  {
    if raw.text == "" || raw.importance < 0.0 || raw.importance > 1.0 then None
    else if raw.ttlDays.Some? && raw.ttlDays.value <= 0 then Some(raw.(ttlDays := None))
    else Some(raw)
  }

  /** An envelope of proposed facts: one that is rejected takes the whole envelope with it. */
  function Parsed(raws: seq<RawFact>): (cs: seq<CandidateFact>)
    ensures (exists i :: 0 <= i < |raws| && Validate(raws[i]).None?) ==> cs == []
    ensures (forall i :: 0 <= i < |raws| ==> Validate(raws[i]).Some?) ==>
              |cs| == |raws| && forall i :: 0 <= i < |cs| ==> Validate(raws[i]) == Some(cs[i])
  {
    if forall i :: 0 <= i < |raws| ==> Validate(raws[i]).Some? then
      seq(|raws|, i requires 0 <= i < |raws| => Validate(raws[i]).value)
    else []
  }

  function FactSlot(c: CandidateFact): Slot {
    (c.attribute, c.scope)
  }

  datatype MemoryOp = WRITE | DEDUPE | SUPERSEDE | QUARANTINE

  /** One write-path decision, recorded so that a turn can be explained. */
  datatype MemoryDecision = MemoryDecision(
    op: MemoryOp,
    candidate: string,
    memoryId: Option<MemoryId>,
    supersededIds: seq<MemoryId>
  )

  datatype WriteReport = WriteReport(written: seq<Memory>, decisions: seq<MemoryDecision>)

  /** A memory returned by the read path, with the score that surfaced it. */
  datatype Recall = Recall(memory: Memory, score: real)

  /** Blocked content is kept under the time it was blocked and a digest of its text. */
  datatype QuarantineKey = QuarantineKey(at: int, digest: string)

  datatype GateDecision = ALLOW | BLOCK_UNTRUSTED | BLOCK_INSTRUCTION

  datatype GateVerdict = GateVerdict(decision: GateDecision, source: Provenance, markers: seq<string>)

  datatype Quarantined = Quarantined(
    text: string,
    verdict: GateVerdict,
    thread: Option<ThreadId>,
    at: int
  )

  /** The thread index entry; entries of old versions carry no checkpoint id. */
  datatype IndexEntry = IndexEntry(checkpoint: Option<CheckpointKey>, lastSeen: int)

  datatype Message = System(content: string) | Human(content: string) | AI(content: string)
}
