/**
 Last writer wins, for one turn: exactly when every live record of a slot agrees with the
 last assertion for the slot, and that an asserted slot never loses its record.
 */
module TurnWords {
  import opened Prelude
  import opened Records
  import opened Environment
  import opened WritePolicy
  import opened TurnInvariants
  import opened Assertions
  import OneLiveValue

  /** Every live record of a slot says what was last asserted for the slot. */
  ghost predicate LastWords(env: Env, ns: Namespace, facts: seq<CandidateFact>, t: int) {
    forall id :: id in ns && ns[id].IsActive(t) && IsSlot(ns[id].Slot()) ==> Agrees(env, facts, ns[id])
  }

  ghost predicate Agrees(env: Env, facts: seq<CandidateFact>, m: Memory) {
    LastValue(env, facts, m.Slot()) == Some(NormValue(env, m.value))
  }

  /** No live record that the turn leaves unread is contradicted by what the turn says last. */
  ghost predicate Hears(env: Env, ns: Namespace, cs: seq<CandidateFact>, t: int)
    requires env.ListsAll()
  {
    forall id :: id in ns && ns[id].IsActive(t) && IsSlot(ns[id].Slot()) && id !in Page(env, ns) ==>
                   LastValue(env, cs, ns[id].Slot()).None? || Agrees(env, cs, ns[id])
  }

  ghost predicate ListAgrees(env: Env, facts: seq<CandidateFact>, ms: seq<Memory>) {
    forall m :: m in ms && IsSlot(m.Slot()) ==> Agrees(env, facts, m)
  }

  // --------------------------------------------------------------- one candidate

  lemma KnownAgrees(env: Env, facts: seq<CandidateFact>, d: Desk, c: CandidateFact, who: Author, id: MemoryId,
                    known: Memory, now: int, t: int, d': Desk)
    requires Mirrors(d.ns, d.existing, t) && ListAgrees(env, facts, d.existing)
    requires Lawful(env, d.existing, c, who, id, now, Known(known))
    requires d' == Perform(d, c, Known(known), now)
    ensures ListAgrees(env, facts + [c], d'.existing)
  {
    ReplacedMembers(d.existing, Reinforced(known, now));
    forall m | m in d'.existing && IsSlot(m.Slot())
      ensures Agrees(env, facts + [c], m)
    {
      var i :| 0 <= i < |d'.existing| && d'.existing[i] == m;
      var j :| 0 <= j < |d.existing| && d.existing[j] == known;
      assert d.existing[i] in d.existing && Agrees(env, facts, d.existing[i]);
      LastValueSnoc(env, facts, c, m.Slot());
    }
  }

  lemma NewAgrees(env: Env, facts: seq<CandidateFact>, d: Desk, c: CandidateFact, who: Author, made: Memory,
                  stale: seq<Memory>, now: int, t: int, d': Desk)
    requires Mirrors(d.ns, d.existing, t) && ListAgrees(env, facts, d.existing)
    requires made.id !in d.ns && t <= now
    requires Lawful(env, d.existing, c, who, made.id, now, New(made, stale))
    requires d' == Perform(d, c, New(made, stale), now)
    ensures ListAgrees(env, facts + [c], d'.existing)
  {
    OneLiveValue.NewDisplaces(d, c, made, stale, now, t, d');
    forall m | m in d'.existing && IsSlot(m.Slot())
      ensures Agrees(env, facts + [c], m)
    {
      LastValueSnoc(env, facts, c, m.Slot());
    }
  }

  lemma StepAgrees(env: Env, facts: seq<CandidateFact>, d: Desk, cs: seq<CandidateFact>, who: Author, inp: Inputs,
                   n: nat, t: int, d': Desk)
    requires env.EmbedsUniformly() && n < |cs|
    requires Mirrors(d.ns, d.existing, t) && ListAgrees(env, facts, d.existing)
    requires inp.ids(n) !in d.ns && t <= inp.clock(n)
    requires Follows(env, cs, who, inp, n, d, d')
    ensures ListAgrees(env, facts + [cs[n]], d'.existing)
  {
    var c, id, now := cs[n], inp.ids(n), inp.clock(n);
    DecideIsLawful(env, d.ns, d.existing, c, who, id, now);
    match Decide(env, d.ns, d.existing, c, who, id, now)
    case Known(m) => KnownAgrees(env, facts, d, c, who, id, m, now, t, d');
    case New(m, stale) => NewAgrees(env, facts, d, c, who, m, stale, now, t, d');
  }

  // ------------------------------------------------------------------ a whole turn

  lemma FactsSnoc(facts: seq<CandidateFact>, cs: seq<CandidateFact>, n: nat)
    requires n < |cs|
    ensures facts + cs[..n + 1] == (facts + cs[..n]) + [cs[n]]
  {
  }

  lemma OpenedAgrees(env: Env, ns: Namespace, user: UserId, facts: seq<CandidateFact>, t: int)
    requires env.ListsAll() && Keyed(ns, user) && LastWords(env, ns, facts, t)
    ensures ListAgrees(env, facts, ActiveMemories(env, ns, t))
  {
    OpenedMirrors(env, ns, user, t);
    var existing := ActiveMemories(env, ns, t);
    forall m | m in existing && IsSlot(m.Slot())
      ensures Agrees(env, facts, m)
    {
      var i :| 0 <= i < |existing| && existing[i] == m;
      assert Current(ns, existing[i], t);
    }
  }

  lemma {:induction false} TurnAgreesUpTo(env: Env, ns: Namespace, facts: seq<CandidateFact>, cs: seq<CandidateFact>,
                                          who: Author, inp: Inputs, since: int, desks: seq<Desk>, n: nat)
    requires env.Valid() && Keyed(ns, who.user) && n <= |cs|
    requires inp.Timely(since) && inp.FreshFor(ns)
    requires LastWords(env, ns, facts, inp.loadAt)
    requires IsTurn(env, ns, cs, who, inp, desks)
    ensures ListAgrees(env, facts + cs[..n], desks[n].existing)
  {
    if n == 0 {
      OpenedAgrees(env, ns, who.user, facts, inp.loadAt);
      assert facts + cs[..0] == facts;
    } else {
      TurnAgreesUpTo(env, ns, facts, cs, who, inp, since, desks, n - 1);
      TurnMeets(env, ns, cs, who, inp, since, desks, n - 1);
      StepAgrees(env, facts + cs[..n - 1], desks[n - 1], cs, who, inp, n - 1, inp.loadAt, desks[n]);
      FactsSnoc(facts, cs, n - 1);
    }
  }

  /** With its final desk in hand, a turn has the last word exactly when no unread record is contradicted. */
  lemma FinalWordsIff(env: Env, ns: Namespace, facts: seq<CandidateFact>, cs: seq<CandidateFact>, user: UserId,
                      inp: Inputs, d: Desk)
    requires env.ListsAll() && Keyed(ns, user)
    requires LastWords(env, ns, facts, inp.loadAt)
    requires TurnInv(ns, HiddenAtStart(env, ns, inp.loadAt), user, inp, |cs|, d)
    requires ListAgrees(env, facts + cs, d.existing)
    ensures LastWords(env, d.ns, facts + cs, inp.loadAt) <==> Hears(env, ns, cs, inp.loadAt)
  {
    var t := inp.loadAt;
    OpenedMirrors(env, ns, user, t);
    forall id | id in HiddenAtStart(env, ns, t)
      ensures id in d.ns && d.ns[id] == ns[id]
      ensures IsSlot(ns[id].Slot()) ==>
                (Agrees(env, facts + cs, ns[id]) <==>
                   LastValue(env, cs, ns[id].Slot()).None? || Agrees(env, cs, ns[id]))
    {
      LastValueAppend(env, facts, cs, ns[id].Slot());
    }
    forall id | id in d.ns && d.ns[id].IsActive(t) && IsSlot(d.ns[id].Slot()) && id !in HiddenAtStart(env, ns, t)
      ensures Agrees(env, facts + cs, d.ns[id])
    {
      var i :| 0 <= i < |d.existing| && d.existing[i].id == id;
      assert Current(d.ns, d.existing[i], t) && d.existing[i] in d.existing;
    }
  }

  /**
   A turn keeps "last writer wins" if and only if what it says last about a slot contradicts
   no live record of the slot listed past the first 500.
   */
  lemma TurnLastWords(env: Env, ns: Namespace, facts: seq<CandidateFact>, cs: seq<CandidateFact>, who: Author,
                      inp: Inputs, since: int)
    requires env.Valid() && Keyed(ns, who.user)
    requires inp.Timely(since) && inp.FreshFor(ns)
    requires LastWords(env, ns, facts, inp.loadAt)
    ensures LastWords(env, ResolveAll(env, ns, cs, who, inp).ns, facts + cs, inp.loadAt)
       <==> Hears(env, ns, cs, inp.loadAt)
  {
    var desks := Turn(env, ns, cs, who, inp);
    TurnAgreesUpTo(env, ns, facts, cs, who, inp, since, desks, |cs|);
    assert cs[..|cs|] == cs;
    TurnKeeps(env, ns, cs, who, inp, since, desks, |cs|);
    FinalWordsIff(env, ns, facts, cs, who.user, inp, desks[|cs|]);
  }

  lemma LastWordsPersist(env: Env, ns: Namespace, facts: seq<CandidateFact>, t: int, later: int)
    requires LastWords(env, ns, facts, t) && t <= later
    ensures LastWords(env, ns, facts, later)
  {
    forall id | id in ns && ns[id].IsActive(later) && IsSlot(ns[id].Slot())
      ensures Agrees(env, facts, ns[id])
    {
      assert ns[id].IsActive(t);
    }
  }

  // --------------------------------------------------------------- nothing is lost

  /** The record stands, unsuperseded, for the last assertion about the slot. */
  ghost predicate StandsFor(env: Env, ns: Namespace, facts: seq<CandidateFact>, slot: Slot, id: MemoryId) {
    id in ns && ns[id].Slot() == slot && ns[id].supersededBy.None? && Agrees(env, facts, ns[id])
  }

  ghost predicate IsKept(env: Env, ns: Namespace, facts: seq<CandidateFact>, slot: Slot) {
    LastValue(env, facts, slot).Some? ==> exists id :: StandsFor(env, ns, facts, slot, id)
  }

  lemma KnownKept(env: Env, facts: seq<CandidateFact>, d: Desk, c: CandidateFact, who: Author, id: MemoryId,
                  known: Memory, now: int, t: int, d': Desk, slot: Slot)
    requires Mirrors(d.ns, d.existing, t) && IsKept(env, d.ns, facts, slot) && IsSlot(slot)
    requires Lawful(env, d.existing, c, who, id, now, Known(known))
    requires d' == Perform(d, c, Known(known), now)
    ensures IsKept(env, d'.ns, facts + [c], slot)
  {
    KnownEffect(d, c, known, now, t, d');
    LastValueSnoc(env, facts, c, slot);
    if FactSlot(c) == slot {
      assert StandsFor(env, d'.ns, facts + [c], slot, known.id);
    } else if LastValue(env, facts, slot).Some? {
      var x :| StandsFor(env, d.ns, facts, slot, x);
      assert StandsFor(env, d'.ns, facts + [c], slot, x);
    }
  }

  lemma NewKept(env: Env, facts: seq<CandidateFact>, d: Desk, c: CandidateFact, who: Author, made: Memory,
                stale: seq<Memory>, now: int, t: int, d': Desk, slot: Slot)
    requires Mirrors(d.ns, d.existing, t) && IsKept(env, d.ns, facts, slot) && IsSlot(slot)
    requires made.id !in d.ns && t <= now
    requires Lawful(env, d.existing, c, who, made.id, now, New(made, stale))
    requires d' == Perform(d, c, New(made, stale), now)
    ensures IsKept(env, d'.ns, facts + [c], slot)
  {
    StaleAreSameSlot(d, c, stale, t);
    NewEffect(d, c, made, stale, now, t, d');
    LastValueSnoc(env, facts, c, slot);
    if FactSlot(c) == slot {
      assert StandsFor(env, d'.ns, facts + [c], slot, made.id);
    } else if LastValue(env, facts, slot).Some? {
      var x :| StandsFor(env, d.ns, facts, slot, x);
      assert !HasId(stale, x);
      assert StandsFor(env, d'.ns, facts + [c], slot, x);
    }
  }

  lemma StepKept(env: Env, facts: seq<CandidateFact>, d: Desk, cs: seq<CandidateFact>, who: Author, inp: Inputs,
                 n: nat, t: int, d': Desk, slot: Slot)
    requires env.EmbedsUniformly() && n < |cs| && IsSlot(slot)
    requires Mirrors(d.ns, d.existing, t) && IsKept(env, d.ns, facts, slot)
    requires inp.ids(n) !in d.ns && t <= inp.clock(n)
    requires Follows(env, cs, who, inp, n, d, d')
    ensures IsKept(env, d'.ns, facts + [cs[n]], slot)
  {
    var c, id, now := cs[n], inp.ids(n), inp.clock(n);
    DecideIsLawful(env, d.ns, d.existing, c, who, id, now);
    match Decide(env, d.ns, d.existing, c, who, id, now)
    case Known(m) => KnownKept(env, facts, d, c, who, id, m, now, t, d', slot);
    case New(m, stale) => NewKept(env, facts, d, c, who, m, stale, now, t, d', slot);
  }

  lemma TurnStepKept(env: Env, ns: Namespace, said: seq<CandidateFact>, cs: seq<CandidateFact>, who: Author,
                     inp: Inputs, since: int, desks: seq<Desk>, slot: Slot, n: nat)
    requires env.Valid() && Keyed(ns, who.user) && n < |cs| && IsSlot(slot)
    requires inp.Timely(since) && inp.FreshFor(ns)
    requires IsTurn(env, ns, cs, who, inp, desks)
    requires IsKept(env, desks[n].ns, said, slot)
    ensures IsKept(env, desks[n + 1].ns, said + [cs[n]], slot)
  {
    TurnMeets(env, ns, cs, who, inp, since, desks, n);
    StepKept(env, said, desks[n], cs, who, inp, n, inp.loadAt, desks[n + 1], slot);
  }

  lemma {:induction false} TurnKeptUpTo(env: Env, ns: Namespace, facts: seq<CandidateFact>, cs: seq<CandidateFact>,
                                        who: Author, inp: Inputs, since: int, desks: seq<Desk>, slot: Slot, n: nat)
    requires env.Valid() && Keyed(ns, who.user) && n <= |cs| && IsSlot(slot)
    requires inp.Timely(since) && inp.FreshFor(ns)
    requires IsKept(env, ns, facts, slot)
    requires IsTurn(env, ns, cs, who, inp, desks)
    ensures IsKept(env, desks[n].ns, facts + cs[..n], slot)
  {
    if n == 0 {
      assert facts + cs[..0] == facts;
    } else {
      TurnKeptUpTo(env, ns, facts, cs, who, inp, since, desks, slot, n - 1);
      TurnStepKept(env, ns, facts + cs[..n - 1], cs, who, inp, since, desks, slot, n - 1);
      FactsSnoc(facts, cs, n - 1);
    }
  }

  /** A turn never leaves an asserted slot without its record, however many records there are. */
  lemma TurnKept(env: Env, ns: Namespace, facts: seq<CandidateFact>, cs: seq<CandidateFact>, who: Author, inp: Inputs,
                 since: int, slot: Slot)
    requires env.Valid() && Keyed(ns, who.user) && IsSlot(slot)
    requires inp.Timely(since) && inp.FreshFor(ns)
    requires IsKept(env, ns, facts, slot)
    ensures IsKept(env, ResolveAll(env, ns, cs, who, inp).ns, facts + cs, slot)
  {
    TurnKeptUpTo(env, ns, facts, cs, who, inp, since, Turn(env, ns, cs, who, inp), slot, |cs|);
    assert cs[..|cs|] == cs;
  }
}
