/**
 What resolving one candidate amounts to, told in terms of records, their fields and the
 words of their values: which records change and how, and what the report says of it.
 */
module Fates {
  import opened Prelude
  import opened Records
  import opened Environment
  import opened WritePolicy
  import opened TurnInvariants
  import Dedupe

  /** The record says what the fact says, for its author, from the moment it is made. */
  ghost predicate RecordsFact(m: Memory, c: CandidateFact, who: Author, id: MemoryId, now: int) {
    && m.id == id && m.user == who.user && m.thread == who.thread && m.source == who.source
    && m.text == c.text && m.kind == c.kind && m.importance == c.importance && m.evidence == Some(c.text)
    && m.attribute == c.attribute && m.scope == c.scope && m.value == c.value
    && m.createdAt == now && m.updatedAt == now && m.supersededBy == None && m.supersededAt == None
    && m.expiresAt == if c.ttlDays == None then None else Some(now + c.ttlDays.value * 86_400_000_000)
  }

  /** One record gains a tenth of importance, up to 1, and a new update time; nothing else changes. */
  ghost predicate Bumped(ns: Namespace, ns': Namespace, m: Memory, now: int) {
    && m.id in ns && ns[m.id] == m
    && ns'.Keys == ns.Keys
    && (forall id :: id in ns && id != m.id ==> ns'[id] == ns[id])
    && ns'[m.id] == m.(importance := if m.importance < 0.9 then m.importance + 0.1 else 1.0, updatedAt := now)
  }

  /** A record is added; those it displaces are kept, retired in its favour; nothing else changes. */
  ghost predicate Stored(ns: Namespace, ns': Namespace, made: Memory, stale: seq<Memory>, now: int) {
    && made.id !in ns && ns'.Keys == ns.Keys + {made.id} && ns'[made.id] == made
    && (forall m :: m in stale ==> m.id in ns && ns[m.id] == m)
    && (forall id :: id in ns ==>
          ns'[id] == if HasId(stale, id) then ns[id].(supersededBy := Some(made.id), supersededAt := Some(now))
                     else ns[id])
  }

  /** The report grows by one decision and, if a record was made, by that record. */
  ghost predicate Reports(before: WriteReport, after: WriteReport, op: MemoryOp, c: CandidateFact, id: MemoryId,
                          stale: seq<Memory>, made: seq<Memory>) {
    && after.written == before.written + made
    && |after.decisions| == |before.decisions| + 1 && before.decisions <= after.decisions
    && var d := after.decisions[|before.decisions|];
       && d.op == op && d.candidate == c.text && d.memoryId == Some(id)
       && |d.supersededIds| == |stale| && forall i :: 0 <= i < |stale| ==> d.supersededIds[i] == stale[i].id
  }

  // -------------------------------------------------------------- the two fates

  /** The step of a candidate that restates a record. */
  ghost predicate RestatedStep(d: Desk, d': Desk, c: CandidateFact, m: Memory, now: int) {
    Bumped(d.ns, d'.ns, m, now) && Reports(d.report, d'.report, DEDUPE, c, m.id, [], [])
  }

  /** The step of a candidate that becomes a record in the place of others. */
  ghost predicate StoredStep(d: Desk, d': Desk, c: CandidateFact, who: Author, id: MemoryId, stale: seq<Memory>,
                             now: int) {
    && id in d'.ns && RecordsFact(d'.ns[id], c, who, id, now)
    && Stored(d.ns, d'.ns, d'.ns[id], stale, now)
    && Reports(d.report, d'.report, if stale == [] then WRITE else SUPERSEDE, c, id, stale, [d'.ns[id]])
  }

  lemma KnownTells(d: Desk, c: CandidateFact, m: Memory, now: int, t: int, d': Desk)
    requires Mirrors(d.ns, d.existing, t) && m in d.existing && d' == Perform(d, c, Known(m), now)
    ensures RestatedStep(d, d', c, m, now)
  {
    KnownEffect(d, c, m, now, t, d');
    assert d.report.written + [] == d.report.written;
  }

  lemma NewTells(d: Desk, c: CandidateFact, who: Author, id: MemoryId, stale: seq<Memory>, now: int, t: int, d': Desk)
    requires Mirrors(d.ns, d.existing, t) && id !in d.ns && t <= now
    requires DistinctIds(stale) && forall m :: m in stale ==> m in d.existing
    requires d' == Perform(d, c, New(Build(c, who, id, now), stale), now)
    ensures StoredStep(d, d', c, who, id, stale, now)
  {
    var made := Build(c, who, id, now);
    NewEffect(d, c, made, stale, now, t, d');
    forall m | m in stale
      ensures m.id in d.ns && d.ns[m.id] == m
    {
      var i :| 0 <= i < |d.existing| && d.existing[i] == m;
      assert Current(d.ns, d.existing[i], t);
    }
    forall x | x in d.ns && HasId(stale, x)
      ensures d'.ns[x] == d.ns[x].(supersededBy := Some(id), supersededAt := Some(now))
    {
      var i :| 0 <= i < |stale| && stale[i].id == x;
      assert stale[i] in stale && d'.ns[stale[i].id] == Retired(stale[i], id, now);
    }
  }

  /**
   Conflict resolution of a fact with a slot. If some record of the working list about the
   same thing says the same but for case and white space, the first such record is bumped;
   otherwise the fact is stored, and every record about the same thing is retired for it.
   */
  lemma SlottedOutcome(env: Env, d: Desk, c: CandidateFact, who: Author, id: MemoryId, now: int, t: int)
    returns (m: Option<Memory>, stale: seq<Memory>)
    requires env.EmbedsUniformly() && c.attribute != ""
    requires Mirrors(d.ns, d.existing, t) && id !in d.ns && t <= now
    ensures m.Some? <==> exists x :: x in d.existing && Restates(env, x, c)
    ensures m.Some? ==>
              && FirstRestated(env, d.existing, c, m.value)
              && RestatedStep(d, Resolve(env, d, c, who, id, now), c, m.value, now)
    ensures m.None? ==>
              && Picks(AboutSame(c), d.existing, stale)
              && StoredStep(d, Resolve(env, d, c, who, id, now), c, who, id, stale, now)
  {
    var d' := Resolve(env, d, c, who, id, now);
    SlottedFate(env, d.ns, d.existing, c, who, id, now);
    DecideIsLawful(env, d.ns, d.existing, c, who, id, now);
    SameSlotMembers(d.existing, FactSlot(c));
    match Decide(env, d.ns, d.existing, c, who, id, now)
    case Known(x) => {
      m, stale := Some(x), [];
      KnownTells(d, c, x, now, t, d');
    }
    case New(made, gone) => {
      m, stale := None, gone;
      NewTells(d, c, who, id, gone, now, t, d');
    }
  }

  /**
   Conflict resolution of a fact without a slot. If it is as close as the threshold asks to
   some record that the index ranks among its ten best, one of the closest of them is bumped;
   otherwise it is stored, and nothing is retired.
   */
  lemma UnslottedOutcome(env: Env, d: Desk, c: CandidateFact, who: Author, id: MemoryId, now: int, t: int)
    returns (m: Option<Memory>)
    requires env.EmbedsUniformly() && IsSqrt(env.sqrt) && c.attribute == ""
    requires Mirrors(d.ns, d.existing, t) && id !in d.ns && t <= now
    ensures var window := Dedupe.Window(env, d.ns, d.existing, c.text);
            && (m.Some? <==> exists x :: x in window && Dedupe.AsClose(env, c.text, x, env.similarity))
            && (m.Some? ==>
                  && m.value in window
                  && (forall x, s :: x in window && Dedupe.AsClose(env, c.text, x, s) ==>
                        Dedupe.AsClose(env, c.text, m.value, s))
                  && RestatedStep(d, Resolve(env, d, c, who, id, now), c, m.value, now))
    ensures m.None? ==> StoredStep(d, Resolve(env, d, c, who, id, now), c, who, id, [], now)
  {
    var d' := Resolve(env, d, c, who, id, now);
    UnslottedFate(env, d.ns, d.existing, c, who, id, now);
    match Decide(env, d.ns, d.existing, c, who, id, now)
    case Known(x) => {
      m := Some(x);
      KnownTells(d, c, x, now, t, d');
    }
    case New(made, gone) => {
      m := None;
      NewTells(d, c, who, id, gone, now, t, d');
    }
  }
}
