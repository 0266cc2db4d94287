/** Never two live values in one slot: exactly when a turn keeps that promise. */
module OneLiveValue {
  import opened Prelude
  import opened Records
  import opened Environment
  import opened WritePolicy
  import opened TurnInvariants

  /** At time t no slot has two live records. */
  ghost predicate OneLive(ns: Namespace, t: int) {
    forall a, b | a in ns && b in ns && ns[a].IsActive(t) && ns[b].IsActive(t)
                  && IsSlot(ns[a].Slot()) && ns[a].Slot() == ns[b].Slot() :: a == b
  }

  ghost predicate SlotsDistinct(ms: seq<Memory>) {
    forall i, j :: 0 <= i < |ms| && 0 <= j < |ms| && IsSlot(ms[i].Slot()) && ms[i].Slot() == ms[j].Slot() ==> i == j
  }

  ghost predicate Holds(ms: seq<Memory>, slot: Slot) {
    exists i :: 0 <= i < |ms| && ms[i].Slot() == slot
  }

  /** One of the first n candidates speaks about the slot. */
  ghost predicate Touched(cs: seq<CandidateFact>, n: nat, slot: Slot) {
    exists k :: 0 <= k < n && k < |cs| && FactSlot(cs[k]) == slot
  }

  /** The working list fills a slot at most once, and in the end exactly the touched ones are added. */
  ghost predicate ListInv(start: seq<Memory>, cs: seq<CandidateFact>, n: nat, existing: seq<Memory>) {
    && SlotsDistinct(existing)
    && forall s :: IsSlot(s) ==> (Holds(existing, s) <==> Holds(start, s) || Touched(cs, n, s))
  }

  lemma KnownSlots(d: Desk, c: CandidateFact, known: Memory, now: int, d': Desk)
    requires DistinctIds(d.existing) && known in d.existing
    requires d' == Perform(d, c, Known(known), now)
    ensures |d'.existing| == |d.existing|
    ensures forall i :: 0 <= i < |d.existing| ==> d'.existing[i].Slot() == d.existing[i].Slot()
  {
    var m' := Reinforced(known, now);
    ReplacedMembers(d.existing, m');
    forall i | 0 <= i < |d.existing|
      ensures d'.existing[i].Slot() == d.existing[i].Slot()
    {
      var j :| 0 <= j < |d.existing| && d.existing[j] == known;
    }
  }

  /** The list changes as a new record displaces the rest of its slot. */
  ghost predicate Displaces(ex: seq<Memory>, ex': seq<Memory>, made: Memory) {
    && DistinctIds(ex')
    && forall m :: m in ex' <==> m == made || (m in ex && !(IsSlot(made.Slot()) && m.Slot() == made.Slot()))
  }

  lemma NewDisplaces(d: Desk, c: CandidateFact, made: Memory, stale: seq<Memory>, now: int, t: int, d': Desk)
    requires Mirrors(d.ns, d.existing, t)
    requires made.id !in d.ns && made.IsActive(t) && made.Slot() == FactSlot(c)
    requires stale == if c.attribute != "" then SameSlot(d.existing, FactSlot(c)) else []
    requires d' == Perform(d, c, New(made, stale), now)
    ensures Displaces(d.existing, d'.existing, made)
  {
    SameSlotMembers(d.existing, FactSlot(c));
    NewEffect(d, c, made, stale, now, t, d');
    forall m | m in d.existing
      ensures HasId(stale, m.id) <==> m in stale
    {
      if HasId(stale, m.id) {
        var i :| 0 <= i < |stale| && stale[i].id == m.id;
        assert stale[i] in d.existing;
      }
    }
  }

  lemma DisplacedSlots(ex: seq<Memory>, ex': seq<Memory>, made: Memory)
    requires Displaces(ex, ex', made)
    ensures forall s :: IsSlot(s) ==> (Holds(ex', s) <==> Holds(ex, s) || s == made.Slot())
  {
    forall s | IsSlot(s)
      ensures Holds(ex', s) <==> Holds(ex, s) || s == made.Slot()
    {
      if Holds(ex', s) {
        var i :| 0 <= i < |ex'| && ex'[i].Slot() == s;
        assert ex'[i] in ex';
      }
      if s == made.Slot() {
        assert made in ex';
      } else if Holds(ex, s) {
        var i :| 0 <= i < |ex| && ex[i].Slot() == s;
        assert ex[i] in ex';
      }
    }
  }

  lemma DisplacedDistinct(ex: seq<Memory>, ex': seq<Memory>, made: Memory)
    requires Displaces(ex, ex', made) && SlotsDistinct(ex)
    ensures SlotsDistinct(ex')
  {
    forall i, j | 0 <= i < |ex'| && 0 <= j < |ex'| && IsSlot(ex'[i].Slot()) && ex'[i].Slot() == ex'[j].Slot()
      ensures i == j
    {
      assert ex'[i] in ex' && ex'[j] in ex';
    }
  }

  lemma KnownHolds(ex: seq<Memory>, ex': seq<Memory>, slot: Slot)
    requires |ex'| == |ex| && forall i :: 0 <= i < |ex| ==> ex'[i].Slot() == ex[i].Slot()
    ensures Holds(ex', slot) <==> Holds(ex, slot)
  {
    if Holds(ex, slot) {
      var i :| 0 <= i < |ex| && ex[i].Slot() == slot;
      assert ex'[i].Slot() == slot;
    }
  }

  lemma TouchedNext(cs: seq<CandidateFact>, n: nat, slot: Slot)
    requires n < |cs|
    ensures Touched(cs, n + 1, slot) <==> Touched(cs, n, slot) || slot == FactSlot(cs[n])
  {
    if slot == FactSlot(cs[n]) {
      assert FactSlot(cs[n]) == slot;
    }
  }

  lemma ListInvNext(start: seq<Memory>, cs: seq<CandidateFact>, n: nat, ex: seq<Memory>, ex': seq<Memory>)
    requires n < |cs| && ListInv(start, cs, n, ex) && SlotsDistinct(ex')
    requires forall s :: IsSlot(s) ==> (Holds(ex', s) <==> Holds(ex, s) || s == FactSlot(cs[n]))
    ensures ListInv(start, cs, n + 1, ex')
  {
    forall s | IsSlot(s)
      ensures Holds(ex', s) <==> Holds(start, s) || Touched(cs, n + 1, s)
    {
      TouchedNext(cs, n, s);
    }
  }

  lemma KnownListInv(start: seq<Memory>, d: Desk, cs: seq<CandidateFact>, n: nat, known: Memory, now: int, d': Desk)
    requires n < |cs| && ListInv(start, cs, n, d.existing) && DistinctIds(d.existing)
    requires known in d.existing && (IsSlot(FactSlot(cs[n])) ==> known.Slot() == FactSlot(cs[n]))
    requires d' == Perform(d, cs[n], Known(known), now)
    ensures ListInv(start, cs, n + 1, d'.existing)
  {
    KnownSlots(d, cs[n], known, now, d');
    assert Holds(d.existing, known.Slot());
    forall s
      ensures Holds(d'.existing, s) <==> Holds(d.existing, s)
    {
      KnownHolds(d.existing, d'.existing, s);
    }
    ListInvNext(start, cs, n, d.existing, d'.existing);
  }

  lemma ListInvStep(env: Env, start: seq<Memory>, d: Desk, cs: seq<CandidateFact>, who: Author, inp: Inputs, n: nat,
                    t: int, d': Desk)
    requires env.EmbedsUniformly() && n < |cs|
    requires Mirrors(d.ns, d.existing, t) && inp.ids(n) !in d.ns && t <= inp.clock(n)
    requires Follows(env, cs, who, inp, n, d, d')
    requires ListInv(start, cs, n, d.existing)
    ensures ListInv(start, cs, n + 1, d'.existing)
  {
    var c, id, now := cs[n], inp.ids(n), inp.clock(n);
    DecideIsLawful(env, d.ns, d.existing, c, who, id, now);
    match Decide(env, d.ns, d.existing, c, who, id, now)
    case Known(m) => KnownListInv(start, d, cs, n, m, now, d');
    case New(m, stale) =>
      NewDisplaces(d, c, m, stale, now, t, d');
      DisplacedSlots(d.existing, d'.existing, m);
      DisplacedDistinct(d.existing, d'.existing, m);
      ListInvNext(start, cs, n, d.existing, d'.existing);
  }

  lemma ListStepKeeps(env: Env, ns: Namespace, cs: seq<CandidateFact>, who: Author, inp: Inputs, since: int,
                      desks: seq<Desk>, n: nat)
    requires env.Valid() && Keyed(ns, who.user) && n < |cs|
    requires inp.Timely(since) && inp.FreshFor(ns)
    requires IsTurn(env, ns, cs, who, inp, desks)
    requires ListInv(desks[0].existing, cs, n, desks[n].existing)
    ensures ListInv(desks[0].existing, cs, n + 1, desks[n + 1].existing)
  {
    TurnMeets(env, ns, cs, who, inp, since, desks, n);
    ListInvStep(env, desks[0].existing, desks[n], cs, who, inp, n, inp.loadAt, desks[n + 1]);
  }

  lemma {:induction false} ListKeeps(env: Env, ns: Namespace, cs: seq<CandidateFact>, who: Author, inp: Inputs,
                                     since: int, desks: seq<Desk>, n: nat)
    requires env.Valid() && Keyed(ns, who.user) && n <= |cs|
    requires inp.Timely(since) && inp.FreshFor(ns)
    requires IsTurn(env, ns, cs, who, inp, desks)
    requires SlotsDistinct(desks[0].existing)
    ensures ListInv(desks[0].existing, cs, n, desks[n].existing)
  {
    if n == 0 {
    } else {
      ListKeeps(env, ns, cs, who, inp, since, desks, n - 1);
      ListStepKeeps(env, ns, cs, who, inp, since, desks, n - 1);
    }
  }

  /** Every live record of a slot the candidates speak about is among those the turn reads. */
  ghost predicate SeesTouchedSlots(env: Env, ns: Namespace, cs: seq<CandidateFact>, t: int)
    requires env.ListsAll()
  {
    forall id :: id in ns && ns[id].IsActive(t) && IsSlot(ns[id].Slot()) && Touched(cs, |cs|, ns[id].Slot())
                 ==> id in Page(env, ns)
  }

  lemma OpensDistinct(ns: Namespace, existing: seq<Memory>, t: int)
    requires Mirrors(ns, existing, t) && OneLive(ns, t)
    ensures SlotsDistinct(existing)
  {
    forall i, j | 0 <= i < |existing| && 0 <= j < |existing| && IsSlot(existing[i].Slot())
                  && existing[i].Slot() == existing[j].Slot()
      ensures i == j
    {
      assert Current(ns, existing[i], t) && Current(ns, existing[j], t);
    }
  }

  /** With its final desk in hand, a turn is clean exactly when no touched slot is hidden. */
  lemma FinalDeskIff(ns: Namespace, hidden: set<MemoryId>, start: seq<Memory>, cs: seq<CandidateFact>, user: UserId,
                     inp: Inputs, d: Desk)
    requires Mirrors(ns, start, inp.loadAt) && OneLive(ns, inp.loadAt)
    requires hidden == Hidden(ns, start, inp.loadAt)
    requires TurnInv(ns, hidden, user, inp, |cs|, d)
    requires ListInv(start, cs, |cs|, d.existing)
    ensures OneLive(d.ns, inp.loadAt) <==>
              forall h :: h in hidden && IsSlot(ns[h].Slot()) ==> !Touched(cs, |cs|, ns[h].Slot())
  {
    var t := inp.loadAt;
    var clean := forall h :: h in hidden && IsSlot(ns[h].Slot()) ==> !Touched(cs, |cs|, ns[h].Slot());
    if !clean {
      var h :| h in hidden && IsSlot(ns[h].Slot()) && Touched(cs, |cs|, ns[h].Slot());
      assert Holds(d.existing, ns[h].Slot());
      var i :| 0 <= i < |d.existing| && d.existing[i].Slot() == ns[h].Slot();
      assert Current(d.ns, d.existing[i], t);
      assert h in Hidden(d.ns, d.existing, t);
      assert d.existing[i].id != h;
      assert !OneLive(d.ns, t);
    } else {
      forall a, b | a in d.ns && b in d.ns && d.ns[a].IsActive(t) && d.ns[b].IsActive(t)
                    && IsSlot(d.ns[a].Slot()) && d.ns[a].Slot() == d.ns[b].Slot()
        ensures a == b
      {
        HiddenApart(ns, hidden, start, cs, user, inp, d, a, b);
        HiddenApart(ns, hidden, start, cs, user, inp, d, b, a);
        if a !in hidden && b !in hidden {
          var i :| 0 <= i < |d.existing| && d.existing[i].id == a;
          var j :| 0 <= j < |d.existing| && d.existing[j].id == b;
          assert Current(d.ns, d.existing[i], t) && Current(d.ns, d.existing[j], t);
        }
      }
    }
  }

  /** A hidden record in an untouched slot shares that slot with no visible live record. */
  lemma HiddenApart(ns: Namespace, hidden: set<MemoryId>, start: seq<Memory>, cs: seq<CandidateFact>, user: UserId,
                    inp: Inputs, d: Desk, h: MemoryId, b: MemoryId)
    requires Mirrors(ns, start, inp.loadAt) && OneLive(ns, inp.loadAt)
    requires hidden == Hidden(ns, start, inp.loadAt)
    requires TurnInv(ns, hidden, user, inp, |cs|, d)
    requires ListInv(start, cs, |cs|, d.existing)
    requires h in d.ns && b in d.ns && d.ns[b].IsActive(inp.loadAt)
    requires IsSlot(d.ns[h].Slot()) && d.ns[h].Slot() == d.ns[b].Slot()
    ensures h in hidden && !Touched(cs, |cs|, d.ns[h].Slot()) ==> b in hidden
  {
    if b !in hidden {
      var i :| 0 <= i < |d.existing| && d.existing[i].id == b;
      assert Current(d.ns, d.existing[i], inp.loadAt);
      assert Holds(d.existing, d.ns[h].Slot());
      if Holds(start, d.ns[h].Slot()) {
        var j :| 0 <= j < |start| && start[j].Slot() == d.ns[h].Slot();
        assert Current(ns, start[j], inp.loadAt);
        assert HasId(start, start[j].id);
      }
    }
  }

  /**
   A turn keeps "one live value per slot" if and only if it could see, among the first 500
   listed records, the live record of every slot it speaks about.
   */
  lemma OneLiveExactly(env: Env, ns: Namespace, cs: seq<CandidateFact>, who: Author, inp: Inputs, since: int)
    requires env.Valid() && Keyed(ns, who.user)
    requires inp.Timely(since) && inp.FreshFor(ns)
    requires OneLive(ns, inp.loadAt)
    ensures OneLive(ResolveAll(env, ns, cs, who, inp).ns, inp.loadAt) <==> SeesTouchedSlots(env, ns, cs, inp.loadAt)
  {
    var desks := Turn(env, ns, cs, who, inp);
    var start := desks[0].existing;
    OpenedMirrors(env, ns, who.user, inp.loadAt);
    OpensDistinct(ns, start, inp.loadAt);
    TurnKeeps(env, ns, cs, who, inp, since, desks, |cs|);
    ListKeeps(env, ns, cs, who, inp, since, desks, |cs|);
    FinalDeskIff(ns, HiddenAtStart(env, ns, inp.loadAt), start, cs, who.user, inp, desks[|cs|]);
  }

  /** Time alone never creates a second live value. */
  lemma OneLivePersists(ns: Namespace, t: int, later: int)
    requires OneLive(ns, t) && t <= later
    ensures OneLive(ns, later)
  {
    forall a, b | a in ns && b in ns && ns[a].IsActive(later) && ns[b].IsActive(later)
                  && IsSlot(ns[a].Slot()) && ns[a].Slot() == ns[b].Slot()
      ensures a == b
    {
      assert ns[a].IsActive(t) && ns[b].IsActive(t);
    }
  }

  /** Up to 500 records, a turn reads them all. */
  lemma SeesAllWithinCap(env: Env, ns: Namespace, cs: seq<CandidateFact>, t: int)
    requires env.ListsAll() && |ns| <= MAX_EXISTING
    ensures SeesTouchedSlots(env, ns, cs, t)
  {
    var keys := env.listMemories(ns);
    assert Enumerates(keys, ns.Keys);
    DistinctCount(keys, ns.Keys);
    assert |keys| == |ns.Keys| == |ns|;
    assert Page(env, ns) == keys;
  }

  /** Within the 500-record cap the promise is unconditional. */
  lemma OneLiveWithinCap(env: Env, ns: Namespace, cs: seq<CandidateFact>, who: Author, inp: Inputs, since: int)
    requires env.Valid() && Keyed(ns, who.user)
    requires inp.Timely(since) && inp.FreshFor(ns)
    requires OneLive(ns, inp.loadAt) && |ns| <= MAX_EXISTING
    ensures OneLive(ResolveAll(env, ns, cs, who, inp).ns, inp.loadAt)
  {
    SeesAllWithinCap(env, ns, cs, inp.loadAt);
    OneLiveExactly(env, ns, cs, who, inp, since);
  }
}
