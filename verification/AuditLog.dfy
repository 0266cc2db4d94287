/**
 The decision log accounts for the store: from an empty store, the reports of a run
 determine which records exist, what became of each, and why. From the log follows the
 history: each retired record leads, in finitely many links, to its slot's survivor.
 */
module AuditLog {
  import opened Prelude
  import opened Records
  import opened Environment
  import opened WritePolicy
  import opened TurnInvariants

  // ------------------------------------------------------------- reading the log

  /** The ids of the records a log says were created, in order. */
  function Created(log: seq<MemoryDecision>): seq<MemoryId> {
    if log == [] then []
    else
      var last := log[|log| - 1];
      Created(log[..|log| - 1])
      + if (last.op == WRITE || last.op == SUPERSEDE) && last.memoryId.Some? then [last.memoryId.value] else []
  }

  /** How often a log says a record was restated. */
  function Bumps(log: seq<MemoryDecision>, id: MemoryId): nat {
    if log == [] then 0
    else
      var last := log[|log| - 1];
      Bumps(log[..|log| - 1], id) + if last.op == DEDUPE && last.memoryId == Some(id) then 1 else 0
  }

  /** Every id a log says was retired, once for each time it says so. */
  function RetiredIds(log: seq<MemoryDecision>): seq<MemoryId> {
    if log == [] then [] else RetiredIds(log[..|log| - 1]) + log[|log| - 1].supersededIds
  }

  /** The replacement a log names for a record. */
  function Heir(log: seq<MemoryDecision>, id: MemoryId): Option<MemoryId> {
    if log == [] then None
    else if id in log[|log| - 1].supersededIds then log[|log| - 1].memoryId
    else Heir(log[..|log| - 1], id)
  }

  lemma LogSnoc(log: seq<MemoryDecision>, d: MemoryDecision)
    ensures RetiredIds(log + [d]) == RetiredIds(log) + d.supersededIds
    ensures Created(log + [d]) ==
              Created(log) + if (d.op == WRITE || d.op == SUPERSEDE) && d.memoryId.Some? then [d.memoryId.value] else []
    ensures forall id :: Bumps(log + [d], id) ==
                         Bumps(log, id) + if d.op == DEDUPE && d.memoryId == Some(id) then 1 else 0
    ensures forall id :: Heir(log + [d], id) == if id in d.supersededIds then d.memoryId else Heir(log, id)
  {
    assert (log + [d])[..|log|] == log;
  }

  function Capped(importance: real, bumps: nat): real {
    var raised := importance + bumps as real / 10.0;
    if raised < 1.0 then raised else 1.0
  }

  /** The stored record is the one created, but for what the log says happened since. */
  ghost predicate Accounts(stored: Memory, born: Memory, bumps: nat, heir: Option<MemoryId>) {
    stored == born.(importance := Capped(born.importance, bumps), supersededBy := heir,
                    updatedAt := stored.updatedAt, supersededAt := stored.supersededAt)
  }

  /** A record's replacement: created later, same slot, another value. */
  ghost predicate Replaces(env: Env, written: seq<Memory>, i: nat, j: nat)
    requires i < |written| && j < |written|
  {
    && i < j
    && IsSlot(written[i].Slot()) && written[j].Slot() == written[i].Slot()
    && NormValue(env, written[j].value) != NormValue(env, written[i].value)
  }

  ghost predicate HeirIn(env: Env, written: seq<Memory>, i: nat, heir: MemoryId)
    requires i < |written|
  {
    exists j :: 0 <= j < |written| && written[j].id == heir && Replaces(env, written, i, j)
  }

  /** Every stored record is one that was written, in the state the log gives it. */
  ghost predicate Audited(env: Env, ns: Namespace, written: seq<Memory>, log: seq<MemoryDecision>) {
    && Ids(written) == Created(log)
    && DistinctIds(written)
    && Distinct(RetiredIds(log))
    && (forall id :: id in ns ==> HasId(written, id))
    && (forall i :: 0 <= i < |written| ==> AuditedAt(env, ns, written, log, i))
    && (forall id :: !HasId(written, id) ==> Bumps(log, id) == 0 && Heir(log, id) == None && id !in RetiredIds(log))
  }

  /** Nothing that was written has been deleted. */
  ghost predicate Complete(ns: Namespace, written: seq<Memory>) {
    forall i :: 0 <= i < |written| ==> written[i].id in ns
  }

  ghost predicate AuditedAt(env: Env, ns: Namespace, written: seq<Memory>, log: seq<MemoryDecision>, i: nat)
    requires i < |written|
  {
    var m := written[i];
    && m.supersededBy.None? && 0.0 <= m.importance <= 1.0
    && (m.id in ns ==> Accounts(ns[m.id], m, Bumps(log, m.id), Heir(log, m.id)))
    && (m.id in RetiredIds(log) <==> Heir(log, m.id).Some?)
    && (Heir(log, m.id).Some? ==> HeirIn(env, written, i, Heir(log, m.id).value))
  }

  // -------------------------------------------------------------- one more candidate

  lemma KnownAudited(env: Env, d: Desk, written: seq<Memory>, log: seq<MemoryDecision>, c: CandidateFact,
                     known: Memory, now: int, t: int, d': Desk)
    requires Audited(env, d.ns, written, log) && Mirrors(d.ns, d.existing, t) && known in d.existing
    requires d' == Perform(d, c, Known(known), now)
    ensures Audited(env, d'.ns, written, log + [DecisionFor(c, Known(known))])
  {
    var decision := DecisionFor(c, Known(known));
    var log' := log + [decision];
    LogSnoc(log, decision);
    KnownEffect(d, c, known, now, t, d');
    forall i | 0 <= i < |written|
      ensures AuditedAt(env, d'.ns, written, log', i)
    {
      assert AuditedAt(env, d.ns, written, log, i);
    }
  }

  /** Older records keep their replacement when the list of created records grows. */
  lemma HeirInGrows(env: Env, written: seq<Memory>, made: Memory, i: nat, heir: MemoryId)
    requires i < |written| && HeirIn(env, written, i, heir)
    ensures HeirIn(env, written + [made], i, heir)
  {
    var j :| 0 <= j < |written| && written[j].id == heir && Replaces(env, written, i, j);
    assert Replaces(env, written + [made], i, j);
  }

  lemma IdsMember(ms: seq<Memory>)
    ensures forall id :: id in Ids(ms) <==> HasId(ms, id)
  {
    forall id | HasId(ms, id)
      ensures id in Ids(ms)
    {
      var i :| 0 <= i < |ms| && ms[i].id == id;
      assert Ids(ms)[i] == id;
    }
  }

  /** A record that is still current and stored was written, and no decision has retired it. */
  lemma CurrentIsUnretired(env: Env, ns: Namespace, written: seq<Memory>, log: seq<MemoryDecision>, id: MemoryId)
    requires Audited(env, ns, written, log) && id in ns && ns[id].supersededBy.None?
    ensures id !in RetiredIds(log) && HasId(written, id)
  {
    var k :| 0 <= k < |written| && written[k].id == id;
    assert AuditedAt(env, ns, written, log, k);
  }

  lemma DistinctAppend<T>(a: seq<T>, b: seq<T>)
    requires Distinct(a) && Distinct(b) && forall x :: x in b ==> x !in a
    ensures Distinct(a + b)
  {
    forall i, j | 0 <= i < j < |a + b|
      ensures (a + b)[i] != (a + b)[j]
    {
      if i < |a| <= j {
        assert (a + b)[j] in b && (a + b)[i] in a;
      }
    }
  }

  lemma WrittenGrows(written: seq<Memory>, made: Memory)
    requires DistinctIds(written) && !HasId(written, made.id)
    ensures DistinctIds(written + [made]) && Ids(written + [made]) == Ids(written) + [made.id]
    ensures forall id :: HasId(written + [made], id) <==> HasId(written, id) || id == made.id
  {
    HasIdSnoc(written, made);
    forall i | 0 <= i < |written|
      ensures written[i].id != made.id
    {
      assert HasId(written, written[i].id);
    }
  }

  /** How the two lists grow when a candidate becomes a record. */
  lemma NewListsAudited(env: Env, ns: Namespace, written: seq<Memory>, log: seq<MemoryDecision>, made: Memory,
                        stale: seq<Memory>, decision: MemoryDecision)
    requires Audited(env, ns, written, log) && !HasId(written, made.id)
    requires DistinctIds(stale)
    requires forall i :: 0 <= i < |stale| ==> stale[i].id in ns && ns[stale[i].id].supersededBy.None?
    requires decision.op == WRITE || decision.op == SUPERSEDE
    requires decision.memoryId == Some(made.id) && decision.supersededIds == Ids(stale)
    ensures var written', log' := written + [made], log + [decision];
            && Ids(written') == Created(log')
            && DistinctIds(written')
            && Distinct(RetiredIds(log'))
            && (forall id :: HasId(written', id) <==> HasId(written, id) || id == made.id)
            && (forall id :: !HasId(written', id) ==>
                               Bumps(log', id) == 0 && Heir(log', id) == None && id !in RetiredIds(log'))
  {
    LogSnoc(log, decision);
    WrittenGrows(written, made);
    IdsMember(stale);
    forall id | id in Ids(stale)
      ensures id !in RetiredIds(log) && HasId(written, id)
    {
      CurrentIsUnretired(env, ns, written, log, id);
    }
    DistinctAppend(RetiredIds(log), Ids(stale));
  }

  ghost predicate Contradicts(env: Env, made: Memory, stale: seq<Memory>) {
    forall k :: 0 <= k < |stale| ==> NormValue(env, stale[k].value) != NormValue(env, made.value)
  }

  /** An older record's account after a write: retired if its slot was taken over, else untouched. */
  lemma OldStaysAudited(env: Env, ns: Namespace, ns': Namespace, written: seq<Memory>, log: seq<MemoryDecision>,
                        made: Memory, stale: seq<Memory>, decision: MemoryDecision, now: int, i: nat)
    requires i < |written| && AuditedAt(env, ns, written, log, i) && written[i].id != made.id
    requires TakesOver(ns, ns', made, stale, now) && Contradicts(env, made, stale)
    requires decision.op != DEDUPE && decision.memoryId == Some(made.id) && decision.supersededIds == Ids(stale)
    ensures AuditedAt(env, ns', written + [made], log + [decision], i)
  {
    LogSnoc(log, decision);
    IdsMember(stale);
    var id := written[i].id;
    if HasId(stale, id) {
      var k :| 0 <= k < |stale| && stale[k].id == id;
      assert Retires(ns, ns', made, stale[k], now);
      assert Replaces(env, written + [made], i, |written|);
    } else if Heir(log, id).Some? {
      HeirInGrows(env, written, made, i, Heir(log, id).value);
    }
  }

  lemma MadeAudited(env: Env, ns: Namespace, ns': Namespace, written: seq<Memory>, log: seq<MemoryDecision>,
                    made: Memory, stale: seq<Memory>, decision: MemoryDecision, now: int)
    requires Audited(env, ns, written, log) && !HasId(written, made.id)
    requires TakesOver(ns, ns', made, stale, now) && Contradicts(env, made, stale)
    requires made.supersededBy.None? && 0.0 <= made.importance <= 1.0
    requires decision.op != DEDUPE && decision.memoryId == Some(made.id) && decision.supersededIds == Ids(stale)
    ensures AuditedAt(env, ns', written + [made], log + [decision], |written|)
  {
    LogSnoc(log, decision);
    IdsMember(stale);
    assert !HasId(stale, made.id) by {
      forall k | 0 <= k < |stale|
        ensures stale[k].id != made.id
      {
        assert Retires(ns, ns', made, stale[k], now);
      }
    }
  }

  lemma EachAudited(env: Env, ns: Namespace, ns': Namespace, written: seq<Memory>, log: seq<MemoryDecision>,
                    made: Memory, stale: seq<Memory>, decision: MemoryDecision, now: int, i: nat)
    requires Audited(env, ns, written, log) && !HasId(written, made.id) && i <= |written|
    requires TakesOver(ns, ns', made, stale, now) && Contradicts(env, made, stale)
    requires made.supersededBy.None? && 0.0 <= made.importance <= 1.0
    requires decision.op != DEDUPE && decision.memoryId == Some(made.id) && decision.supersededIds == Ids(stale)
    ensures AuditedAt(env, ns', written + [made], log + [decision], i)
  {
    if i < |written| {
      assert AuditedAt(env, ns, written, log, i) && HasId(written, written[i].id);
      OldStaysAudited(env, ns, ns', written, log, made, stale, decision, now, i);
    } else {
      MadeAudited(env, ns, ns', written, log, made, stale, decision, now);
    }
  }

  lemma WriteAudited(env: Env, ns: Namespace, ns': Namespace, written: seq<Memory>, log: seq<MemoryDecision>,
                     made: Memory, stale: seq<Memory>, decision: MemoryDecision, now: int)
    requires Audited(env, ns, written, log) && !HasId(written, made.id)
    requires TakesOver(ns, ns', made, stale, now) && Contradicts(env, made, stale)
    requires made.supersededBy.None? && 0.0 <= made.importance <= 1.0
    requires decision.op == WRITE || decision.op == SUPERSEDE
    requires decision.memoryId == Some(made.id) && decision.supersededIds == Ids(stale)
    ensures Audited(env, ns', written + [made], log + [decision])
  {
    var written', log' := written + [made], log + [decision];
    forall i | 0 <= i < |stale|
      ensures stale[i].id in ns && ns[stale[i].id].supersededBy.None?
    {
      assert Retires(ns, ns', made, stale[i], now);
    }
    NewListsAudited(env, ns, written, log, made, stale, decision);
    forall i | 0 <= i < |written'|
      ensures AuditedAt(env, ns', written', log', i)
    {
      EachAudited(env, ns, ns', written, log, made, stale, decision, now, i);
    }
  }

  /** A turn's desk, audited together with everything reported before the turn. */
  ghost predicate DeskAudited(env: Env, written: seq<Memory>, log: seq<MemoryDecision>, d: Desk) {
    Audited(env, d.ns, written + d.report.written, log + d.report.decisions) && Complete(d.ns, d.report.written)
  }

  /** The turn so far has neither written nor found written a record with this id. */
  lemma NewToLog(env: Env, written: seq<Memory>, d: Desk, id: MemoryId)
    requires Complete(d.ns, d.report.written) && id !in d.ns && !HasId(written, id)
    ensures !HasId(written + d.report.written, id)
  {
    forall i | 0 <= i < |written + d.report.written|
      ensures (written + d.report.written)[i].id != id
    {
      if i < |written| {
        assert HasId(written, written[i].id);
      }
    }
  }

  lemma ReportSnoc<T>(before: seq<T>, report: seq<T>, x: T)
    ensures before + (report + [x]) == (before + report) + [x]
  {
  }

  lemma CompleteSnoc(ns: Namespace, ns': Namespace, written: seq<Memory>, made: Memory)
    requires Complete(ns, written) && ns'.Keys == ns.Keys + {made.id}
    ensures Complete(ns', written + [made])
  {
  }

  lemma StepKnownAudited(env: Env, written: seq<Memory>, log: seq<MemoryDecision>, d: Desk, c: CandidateFact,
                         known: Memory, now: int, t: int, d': Desk)
    requires DeskAudited(env, written, log, d) && Mirrors(d.ns, d.existing, t) && known in d.existing
    requires d' == Perform(d, c, Known(known), now)
    ensures DeskAudited(env, written, log, d')
  {
    KnownAudited(env, d, written + d.report.written, log + d.report.decisions, c, known, now, t, d');
    KnownEffect(d, c, known, now, t, d');
    ReportSnoc(log, d.report.decisions, DecisionFor(c, Known(known)));
  }

  lemma StepNewAudited(env: Env, written: seq<Memory>, log: seq<MemoryDecision>, d: Desk, c: CandidateFact, who: Author,
                       made: Memory, stale: seq<Memory>, now: int, t: int, d': Desk)
    requires DeskAudited(env, written, log, d) && Mirrors(d.ns, d.existing, t)
    requires made.id !in d.ns && t <= now && !HasId(written, made.id)
    requires Lawful(env, d.existing, c, who, made.id, now, New(made, stale))
    requires d' == Perform(d, c, New(made, stale), now)
    ensures DeskAudited(env, written, log, d')
  {
    var decision := DecisionFor(c, New(made, stale));
    NewTakesOver(d, c, made, stale, now, t, d');
    NewToLog(env, written, d, made.id);
    WriteAudited(env, d.ns, d'.ns, written + d.report.written, log + d.report.decisions, made, stale, decision, now);
    ReportSnoc(log, d.report.decisions, decision);
    ReportSnoc(written, d.report.written, made);
    CompleteSnoc(d.ns, d'.ns, d.report.written, made);
  }

  lemma StepAudited(env: Env, written: seq<Memory>, log: seq<MemoryDecision>, d: Desk, cs: seq<CandidateFact>,
                    who: Author, inp: Inputs, n: nat, t: int, d': Desk)
    requires env.EmbedsUniformly() && n < |cs|
    requires DeskAudited(env, written, log, d) && Mirrors(d.ns, d.existing, t)
    requires inp.ids(n) !in d.ns && t <= inp.clock(n) && !HasId(written, inp.ids(n))
    requires Follows(env, cs, who, inp, n, d, d')
    ensures DeskAudited(env, written, log, d')
  {
    var c, id, now := cs[n], inp.ids(n), inp.clock(n);
    DecideIsLawful(env, d.ns, d.existing, c, who, id, now);
    match Decide(env, d.ns, d.existing, c, who, id, now)
    case Known(m) => StepKnownAudited(env, written, log, d, c, m, now, t, d');
    case New(m, stale) => StepNewAudited(env, written, log, d, c, who, m, stale, now, t, d');
  }

  lemma TurnStepAudited(env: Env, ns: Namespace, written: seq<Memory>, log: seq<MemoryDecision>,
                        cs: seq<CandidateFact>, who: Author, inp: Inputs, since: int, desks: seq<Desk>, n: nat)
    requires env.Valid() && Keyed(ns, who.user) && n < |cs|
    requires inp.Timely(since) && inp.FreshFor(ns) && !HasId(written, inp.ids(n))
    requires IsTurn(env, ns, cs, who, inp, desks)
    requires DeskAudited(env, written, log, desks[n])
    ensures DeskAudited(env, written, log, desks[n + 1])
  {
    TurnMeets(env, ns, cs, who, inp, since, desks, n);
    StepAudited(env, written, log, desks[n], cs, who, inp, n, inp.loadAt, desks[n + 1]);
  }

  lemma {:induction false} TurnAuditedUpTo(env: Env, ns: Namespace, written: seq<Memory>, log: seq<MemoryDecision>,
                                           cs: seq<CandidateFact>, who: Author, inp: Inputs, since: int,
                                           desks: seq<Desk>, n: nat)
    requires env.Valid() && Keyed(ns, who.user) && n <= |cs|
    requires inp.Timely(since) && inp.FreshFor(ns) && forall k :: !HasId(written, inp.ids(k))
    requires Audited(env, ns, written, log)
    requires IsTurn(env, ns, cs, who, inp, desks)
    ensures DeskAudited(env, written, log, desks[n])
  {
    if n == 0 {
      assert written + [] == written && log + [] == log;
    } else {
      TurnAuditedUpTo(env, ns, written, log, cs, who, inp, since, desks, n - 1);
      TurnStepAudited(env, ns, written, log, cs, who, inp, since, desks, n - 1);
    }
  }

  /** An audited store stays audited when a turn's report is appended, whatever the store's size. */
  lemma TurnAudited(env: Env, ns: Namespace, written: seq<Memory>, log: seq<MemoryDecision>, cs: seq<CandidateFact>,
                    who: Author, inp: Inputs, since: int)
    requires env.Valid() && Keyed(ns, who.user)
    requires inp.Timely(since) && inp.FreshFor(ns) && forall k :: !HasId(written, inp.ids(k))
    requires Audited(env, ns, written, log)
    ensures var d := ResolveAll(env, ns, cs, who, inp);
            && Audited(env, d.ns, written + d.report.written, log + d.report.decisions)
            && Complete(d.ns, d.report.written)
  {
    TurnAuditedUpTo(env, ns, written, log, cs, who, inp, since, Turn(env, ns, cs, who, inp), |cs|);
  }

  /** Deleting records leaves the log true of those that remain. */
  lemma ForgetAudited(env: Env, ns: Namespace, ns': Namespace, written: seq<Memory>, log: seq<MemoryDecision>)
    requires Audited(env, ns, written, log)
    requires forall id :: id in ns' ==> id in ns && ns'[id] == ns[id]
    ensures Audited(env, ns', written, log)
  {
    forall i | 0 <= i < |written|
      ensures AuditedAt(env, ns', written, log, i)
    {
      assert AuditedAt(env, ns, written, log, i);
    }
  }

  lemma EmptyAudited(env: Env)
    ensures Audited(env, map[], [], [])
  {
  }

  // ------------------------------------------------------------------- history

  /** Follows up to `fuel` supersession links. */
  function Follow(ns: Namespace, id: MemoryId, fuel: nat): MemoryId
    decreases fuel
  {
    if fuel == 0 || id !in ns || ns[id].supersededBy.None? then id
    else Follow(ns, ns[id].supersededBy.value, fuel - 1)
  }

  lemma {:induction false} ChainEndsFrom(env: Env, ns: Namespace, written: seq<Memory>, log: seq<MemoryDecision>,
                                         i: nat, fuel: nat)
    requires Audited(env, ns, written, log) && Complete(ns, written)
    requires i < |written| && fuel >= |written| - 1 - i
    ensures var last := Follow(ns, written[i].id, fuel);
            && last in ns && ns[last].supersededBy.None?
            && ns[last].Slot() == written[i].Slot()
    decreases |written| - i
  {
    assert AuditedAt(env, ns, written, log, i);
    var heir := Heir(log, written[i].id);
    if heir.None? {
    } else {
      var j :| 0 <= j < |written| && written[j].id == heir.value && Replaces(env, written, i, j);
      ChainEndsFrom(env, ns, written, log, j, fuel - 1);
    }
  }

  /**
   Supersession links never form a cycle: following them from any record, as many times as
   there are records, ends at an unsuperseded record of the same slot.
   */
  lemma ChainEnds(env: Env, ns: Namespace, written: seq<Memory>, log: seq<MemoryDecision>, id: MemoryId)
    requires Audited(env, ns, written, log) && Complete(ns, written) && id in ns
    ensures var last := Follow(ns, id, |ns|);
            && last in ns && ns[last].supersededBy.None?
            && ns[last].Slot() == ns[id].Slot()
  {
    var i :| 0 <= i < |written| && written[i].id == id;
    assert AuditedAt(env, ns, written, log, i);
    AuditedSize(env, ns, written, log);
    ChainEndsFrom(env, ns, written, log, i, |ns|);
  }

  lemma AuditedSize(env: Env, ns: Namespace, written: seq<Memory>, log: seq<MemoryDecision>)
    requires Audited(env, ns, written, log) && Complete(ns, written)
    ensures |written| == |ns|
  {
    var ids := Ids(written);
    forall x
      ensures x in ids <==> x in ns.Keys
    {
      if x in ns.Keys {
        var i :| 0 <= i < |written| && written[i].id == x;
        assert ids[i] == x;
      }
      if x in ids {
        var i :| 0 <= i < |ids| && ids[i] == x;
        assert written[i].id == x;
      }
    }
    DistinctCount(ids, ns.Keys);
    assert |ns.Keys| == |ns|;
  }
}
