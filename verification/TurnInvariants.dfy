/**
 What every candidate of a turn keeps: the working list stays an exact copy of the store's
 live records that the turn could see, and nothing the turn could not see is touched.
 */
module TurnInvariants {
  import opened Prelude
  import opened Records
  import opened Environment
  import opened WritePolicy

  /** Every record sits in its own user's namespace under its own id. */
  ghost predicate Keyed(ns: Namespace, user: UserId) {
    forall id :: id in ns ==> ns[id].id == id && ns[id].user == user
  }

  ghost predicate HasId(ms: seq<Memory>, id: MemoryId) {
    exists i :: 0 <= i < |ms| && ms[i].id == id
  }

  /** m is the stored version of its record and is live at time t. */
  ghost predicate Current(ns: Namespace, m: Memory, t: int) {
    m.id in ns && ns[m.id] == m && m.IsActive(t)
  }

  /** The working list holds current copies of records live at time t, each once. */
  ghost predicate Mirrors(ns: Namespace, existing: seq<Memory>, t: int) {
    && DistinctIds(existing)
    && forall i :: 0 <= i < |existing| ==> Current(ns, existing[i], t)
  }

  /** The live records the working list misses. */
  ghost function Hidden(ns: Namespace, existing: seq<Memory>, t: int): set<MemoryId> {
    set id | id in ns && ns[id].IsActive(t) && !HasId(existing, id)
  }

  // ---------------------------------------------------------- effect of one step

  lemma HasIdSnoc(ms: seq<Memory>, m: Memory)
    ensures forall id :: HasId(ms + [m], id) <==> HasId(ms, id) || id == m.id
  {
    var all := ms + [m];
    forall id | HasId(ms, id)
      ensures HasId(all, id)
    {
      var i :| 0 <= i < |ms| && ms[i].id == id;
      assert all[i].id == id;
    }
    assert all[|ms|].id == m.id;
  }

  lemma {:induction false} RetireStore(ns: Namespace, existing: seq<Memory>, stale: seq<Memory>,
                                       heir: MemoryId, now: int)
    requires DistinctIds(stale)
    ensures var ns' := RetireAll(ns, existing, stale, heir, now).0;
            && (forall id :: id in ns' <==> id in ns || HasId(stale, id))
            && (forall i :: 0 <= i < |stale| ==> ns'[stale[i].id] == Retired(stale[i], heir, now))
            && (forall id :: id in ns && !HasId(stale, id) ==> ns'[id] == ns[id])
  {
    if stale == [] {
    } else {
      var init, last := stale[..|stale| - 1], stale[|stale| - 1];
      RetireStore(ns, existing, init, heir, now);
      assert stale == init + [last];
      HasIdSnoc(init, last);
    }
  }

  lemma {:induction false} RetireList(ns: Namespace, existing: seq<Memory>, stale: seq<Memory>,
                                      heir: MemoryId, now: int)
    ensures var existing' := RetireAll(ns, existing, stale, heir, now).1;
            && (forall m :: m in existing' <==> m in existing && !HasId(stale, m.id))
            && (DistinctIds(existing) ==> DistinctIds(existing'))
  {
    if stale == [] {
    } else {
      var init, last := stale[..|stale| - 1], stale[|stale| - 1];
      RetireList(ns, existing, init, heir, now);
      assert stale == init + [last];
      HasIdSnoc(init, last);
      WithoutMembers(RetireAll(ns, existing, init, heir, now).1, last.id);
    }
  }

  /** Re-stating a live fact changes its importance and update time, nothing else. */
  lemma KnownEffect(d: Desk, c: CandidateFact, known: Memory, now: int, t: int, d': Desk)
    requires Mirrors(d.ns, d.existing, t) && known in d.existing
    requires d' == Perform(d, c, Known(known), now)
    ensures d'.ns == d.ns[known.id := Reinforced(known, now)]
    ensures Mirrors(d'.ns, d'.existing, t)
    ensures forall id :: HasId(d'.existing, id) <==> HasId(d.existing, id)
    ensures Current(d.ns, known, t) && HasId(d.existing, known.id)
    ensures d'.report.written == d.report.written
  {
    var m' := Reinforced(known, now);
    assert d'.existing == Replaced(d.existing, m');
    ReplacedMembers(d.existing, m');
    forall id
      ensures HasId(d'.existing, id) <==> HasId(d.existing, id)
    {
      if HasId(d.existing, id) {
        var i :| 0 <= i < |d.existing| && d.existing[i].id == id;
        assert d'.existing[i].id == id;
      }
    }
    forall i | 0 <= i < |d'.existing|
      ensures Current(d'.ns, d'.existing[i], t)
    {
      assert Current(d.ns, d.existing[i], t);
    }
  }

  lemma NewStored(ns: Namespace, existing: seq<Memory>, made: Memory, stale: seq<Memory>, now: int, t: int)
    requires Mirrors(ns, existing, t) && made.id !in ns
    requires DistinctIds(stale) && forall m :: m in stale ==> m in existing
    ensures var ns' := RetireAll(ns[made.id := made], existing, stale, made.id, now).0;
            && ns'.Keys == ns.Keys + {made.id} && ns'[made.id] == made
            && (forall i :: 0 <= i < |stale| ==>
                  stale[i].id in ns && ns'[stale[i].id] == Retired(stale[i], made.id, now))
            && (forall id :: id in ns && !HasId(stale, id) ==> ns'[id] == ns[id])
  {
    RetireStore(ns[made.id := made], existing, stale, made.id, now);
    forall i | 0 <= i < |stale|
      ensures stale[i].id in ns
    {
      assert stale[i] in existing;
    }
    assert !HasId(stale, made.id);
  }

  lemma NewListed(ns: Namespace, existing: seq<Memory>, made: Memory, stale: seq<Memory>, now: int, t: int)
    requires Mirrors(ns, existing, t) && made.id !in ns
    ensures var existing' := RetireAll(ns[made.id := made], existing, stale, made.id, now).1 + [made];
            && (forall m :: m in existing' <==> m == made || (m in existing && !HasId(stale, m.id)))
            && DistinctIds(existing')
  {
    var existing' := RetireAll(ns[made.id := made], existing, stale, made.id, now).1;
    RetireList(ns[made.id := made], existing, stale, made.id, now);
    forall i | 0 <= i < |existing'|
      ensures existing'[i].id in ns
    {
      assert existing'[i] in existing;
    }
  }

  /** A new record retires the whole of its slot and joins the working list. */
  lemma NewEffect(d: Desk, c: CandidateFact, made: Memory, stale: seq<Memory>, now: int, t: int, d': Desk)
    requires Mirrors(d.ns, d.existing, t)
    requires made.id !in d.ns && made.IsActive(t)
    requires DistinctIds(stale) && forall m :: m in stale ==> m in d.existing
    requires d' == Perform(d, c, New(made, stale), now)
    ensures d'.ns.Keys == d.ns.Keys + {made.id} && d'.ns[made.id] == made
    ensures forall i :: 0 <= i < |stale| ==>
                          stale[i].id in d.ns && d'.ns[stale[i].id] == Retired(stale[i], made.id, now)
    ensures forall id :: id in d.ns && !HasId(stale, id) ==> d'.ns[id] == d.ns[id]
    ensures forall m :: m in d'.existing <==> m == made || (m in d.existing && !HasId(stale, m.id))
    ensures DistinctIds(d'.existing)
  {
    NewStored(d.ns, d.existing, made, stale, now, t);
    NewListed(d.ns, d.existing, made, stale, now, t);
  }

  lemma NewHasIds(ex: seq<Memory>, ex': seq<Memory>, made: Memory, stale: seq<Memory>)
    requires forall m :: m in ex' <==> m == made || (m in ex && !HasId(stale, m.id))
    ensures forall id :: HasId(ex', id) <==> id == made.id || (HasId(ex, id) && !HasId(stale, id))
  {
    forall id
      ensures HasId(ex', id) <==> id == made.id || (HasId(ex, id) && !HasId(stale, id))
    {
      if HasId(ex', id) {
        var i :| 0 <= i < |ex'| && ex'[i].id == id;
        assert ex'[i] in ex';
      }
      if HasId(ex, id) && !HasId(stale, id) {
        var i :| 0 <= i < |ex| && ex[i].id == id;
        assert ex[i] in ex';
      }
      assert made in ex';
    }
  }

  lemma NewMirrors(d: Desk, c: CandidateFact, made: Memory, stale: seq<Memory>, now: int, t: int, d': Desk)
    requires Mirrors(d.ns, d.existing, t)
    requires made.id !in d.ns && made.IsActive(t)
    requires DistinctIds(stale) && forall m :: m in stale ==> m in d.existing
    requires d' == Perform(d, c, New(made, stale), now)
    ensures Mirrors(d'.ns, d'.existing, t)
    ensures forall id :: HasId(d'.existing, id) <==> id == made.id || (HasId(d.existing, id) && !HasId(stale, id))
    ensures forall id :: HasId(stale, id) ==> HasId(d.existing, id) && id in d.ns
    ensures d.ns.Keys <= d'.ns.Keys
    ensures forall id :: HasId(stale, id) ==> !d'.ns[id].IsActive(t)
  {
    NewEffect(d, c, made, stale, now, t, d');
    forall i | 0 <= i < |d'.existing|
      ensures Current(d'.ns, d'.existing[i], t)
    {
      assert d'.existing[i] in d'.existing;
    }
    NewHasIds(d.existing, d'.existing, made, stale);
    forall id | HasId(stale, id)
      ensures HasId(d.existing, id) && id in d.ns && !d'.ns[id].IsActive(t)
    {
      var i :| 0 <= i < |stale| && stale[i].id == id;
      assert stale[i] in d.existing;
    }
  }

  /** The records a new fact retires are those of its own slot. */
  lemma StaleAreSameSlot(d: Desk, c: CandidateFact, stale: seq<Memory>, t: int)
    requires Mirrors(d.ns, d.existing, t)
    requires stale == if c.attribute != "" then SameSlot(d.existing, FactSlot(c)) else []
    ensures DistinctIds(stale) && forall m :: m in stale ==> m in d.existing
    ensures forall id :: HasId(stale, id) ==>
              id in d.ns && d.ns[id] in stale && IsSlot(FactSlot(c)) && d.ns[id].Slot() == FactSlot(c)
    ensures forall id :: id in d.ns && HasId(d.existing, id) && IsSlot(FactSlot(c)) && d.ns[id].Slot() == FactSlot(c)
              ==> HasId(stale, id) && d.ns[id] in stale
  {
    SameSlotMembers(d.existing, FactSlot(c));
    forall id | HasId(stale, id)
      ensures id in d.ns && d.ns[id] in stale && IsSlot(FactSlot(c)) && d.ns[id].Slot() == FactSlot(c)
    {
      var i :| 0 <= i < |stale| && stale[i].id == id;
      assert stale[i] in d.existing;
    }
    forall id | id in d.ns && HasId(d.existing, id) && IsSlot(FactSlot(c)) && d.ns[id].Slot() == FactSlot(c)
      ensures HasId(stale, id) && d.ns[id] in stale
    {
      var i :| 0 <= i < |d.existing| && d.existing[i].id == id;
      assert Current(d.ns, d.existing[i], t);
      assert d.existing[i] in stale;
    }
  }

  /** m, current until now and in the same slot as the new record, is retired in its favour. */
  ghost predicate Retires(ns: Namespace, ns': Namespace, made: Memory, m: Memory, now: int) {
    && m.id in ns && ns[m.id] == m && m.supersededBy.None?
    && m.id in ns' && ns'[m.id] == Retired(m, made.id, now)
    && IsSlot(m.Slot()) && m.Slot() == made.Slot()
  }

  /** One record is written over others of its slot; no other record changes. */
  ghost predicate TakesOver(ns: Namespace, ns': Namespace, made: Memory, stale: seq<Memory>, now: int) {
    && made.id !in ns
    && ns'.Keys == ns.Keys + {made.id} && ns'[made.id] == made
    && DistinctIds(stale)
    && (forall k :: 0 <= k < |stale| ==> Retires(ns, ns', made, stale[k], now))
    && (forall id :: id in ns && !HasId(stale, id) ==> ns'[id] == ns[id])
  }

  lemma NewTakesOver(d: Desk, c: CandidateFact, made: Memory, stale: seq<Memory>, now: int, t: int, d': Desk)
    requires Mirrors(d.ns, d.existing, t)
    requires made.id !in d.ns && made.IsActive(t) && made.Slot() == FactSlot(c)
    requires stale == if c.attribute != "" then SameSlot(d.existing, FactSlot(c)) else []
    requires d' == Perform(d, c, New(made, stale), now)
    ensures TakesOver(d.ns, d'.ns, made, stale, now)
  {
    SameSlotMembers(d.existing, FactSlot(c));
    NewEffect(d, c, made, stale, now, t, d');
    forall k | 0 <= k < |stale|
      ensures Retires(d.ns, d'.ns, made, stale[k], now)
    {
      assert stale[k] in stale && stale[k] in d.existing;
    }
  }

  /** What one candidate leaves as it found it, whatever its fate. */
  ghost predicate StepKeeps(d: Desk, d': Desk, user: UserId, id: MemoryId, t: int) {
    && Keyed(d'.ns, user)
    && Mirrors(d'.ns, d'.existing, t)
    && d.ns.Keys <= d'.ns.Keys <= d.ns.Keys + {id}
    && Hidden(d'.ns, d'.existing, t) == Hidden(d.ns, d.existing, t)
    && forall h :: h in Hidden(d.ns, d.existing, t) ==> d'.ns[h] == d.ns[h]
  }

  lemma KnownKeeps(d: Desk, c: CandidateFact, known: Memory, user: UserId, id: MemoryId, now: int, t: int, d': Desk)
    requires Keyed(d.ns, user) && Mirrors(d.ns, d.existing, t) && known in d.existing
    requires d' == Perform(d, c, Known(known), now)
    ensures StepKeeps(d, d', user, id, t)
  {
    KnownEffect(d, c, known, now, t, d');
  }

  lemma NewKeyed(d: Desk, c: CandidateFact, made: Memory, stale: seq<Memory>, user: UserId, now: int, t: int, d': Desk)
    requires Keyed(d.ns, user) && Mirrors(d.ns, d.existing, t)
    requires made.id !in d.ns && made.IsActive(t) && made.user == user
    requires DistinctIds(stale) && forall m :: m in stale ==> m in d.existing
    requires d' == Perform(d, c, New(made, stale), now)
    ensures Keyed(d'.ns, user)
  {
    NewEffect(d, c, made, stale, now, t, d');
    forall id | HasId(stale, id)
      ensures d'.ns[id].id == id && d'.ns[id].user == user
    {
      var i :| 0 <= i < |stale| && stale[i].id == id;
      assert stale[i] in d.existing;
    }
  }

  lemma NewHidden(d: Desk, c: CandidateFact, made: Memory, stale: seq<Memory>, now: int, t: int, d': Desk)
    requires Mirrors(d.ns, d.existing, t)
    requires made.id !in d.ns && made.IsActive(t)
    requires DistinctIds(stale) && forall m :: m in stale ==> m in d.existing
    requires d' == Perform(d, c, New(made, stale), now)
    ensures Mirrors(d'.ns, d'.existing, t) && d'.ns.Keys == d.ns.Keys + {made.id}
    ensures Hidden(d'.ns, d'.existing, t) == Hidden(d.ns, d.existing, t)
    ensures forall h :: h in Hidden(d.ns, d.existing, t) ==> d'.ns[h] == d.ns[h]
  {
    NewEffect(d, c, made, stale, now, t, d');
    NewMirrors(d, c, made, stale, now, t, d');
  }

  lemma NewKeeps(d: Desk, c: CandidateFact, made: Memory, stale: seq<Memory>, user: UserId, now: int, t: int, d': Desk)
    requires Keyed(d.ns, user) && Mirrors(d.ns, d.existing, t)
    requires made.id !in d.ns && made.IsActive(t) && made.user == user
    requires DistinctIds(stale) && forall m :: m in stale ==> m in d.existing
    requires d' == Perform(d, c, New(made, stale), now)
    ensures StepKeeps(d, d', user, made.id, t)
  {
    NewKeyed(d, c, made, stale, user, now, t, d');
    NewHidden(d, c, made, stale, now, t, d');
  }

  lemma ResolveKeeps(env: Env, d: Desk, c: CandidateFact, who: Author, id: MemoryId, now: int, t: int)
    requires env.EmbedsUniformly()
    requires Keyed(d.ns, who.user) && Mirrors(d.ns, d.existing, t)
    requires id !in d.ns && t <= now
    ensures StepKeeps(d, Resolve(env, d, c, who, id, now), who.user, id, t)
  {
    var d' := Resolve(env, d, c, who, id, now);
    DecideIsLawful(env, d.ns, d.existing, c, who, id, now);
    SameSlotMembers(d.existing, FactSlot(c));
    match Decide(env, d.ns, d.existing, c, who, id, now)
    case Known(m) => KnownKeeps(d, c, m, who.user, id, now, t, d');
    case New(m, stale) => NewKeeps(d, c, m, stale, who.user, now, t, d');
  }

  // ----------------------------------------------------------- over a whole turn

  /** On opening, the working list misses exactly the live records listed past the first 500. */
  lemma OpenedMirrors(env: Env, ns: Namespace, user: UserId, t: int)
    requires env.ListsAll() && Keyed(ns, user)
    ensures var existing := ActiveMemories(env, ns, t);
            && Mirrors(ns, existing, t)
            && (forall id :: id in Hidden(ns, existing, t) <==>
                               id in ns && ns[id].IsActive(t) && id !in Page(env, ns))
            && (|ns| <= MAX_EXISTING ==> Hidden(ns, existing, t) == {})
  {
    var keys := env.listMemories(ns);
    assert Enumerates(keys, ns.Keys);
    var page := Page(env, ns);
    var ms := Fetch(ns, page);
    var existing := KeepActive(ms, t);
    KeepActiveMembers(ms, t);
    forall i | 0 <= i < |ms|
      ensures ms[i] == ns[page[i]] && ms[i].id == page[i]
    {
      assert page[i] in page;
    }
    forall i | 0 <= i < |existing|
      ensures Current(ns, existing[i], t)
    {
      assert existing[i] in existing;
    }
    forall id | id in ns && ns[id].IsActive(t)
      ensures HasId(existing, id) <==> id in page
    {
      if HasId(existing, id) {
        var i :| 0 <= i < |existing| && existing[i].id == id;
        assert existing[i] in ms;
      }
      if id in page {
        var i :| 0 <= i < |page| && page[i] == id;
        assert ms[i] in existing;
      }
    }
    DistinctCount(keys, ns.Keys);
    assert |keys| == |ns.Keys| == |ns|;
  }

  /** The invariant of the candidate loop, from the records `ns` at turn start. */
  ghost predicate TurnInv(ns: Namespace, hidden: set<MemoryId>, user: UserId, inp: Inputs, n: nat, d: Desk) {
    && Keyed(d.ns, user)
    && Mirrors(d.ns, d.existing, inp.loadAt)
    && Hidden(d.ns, d.existing, inp.loadAt) == hidden
    && (forall h :: h in hidden ==> h in ns && d.ns[h] == ns[h])
    && ns.Keys <= d.ns.Keys
    && (forall i :: i >= n ==> inp.ids(i) !in d.ns)
  }

  ghost function HiddenAtStart(env: Env, ns: Namespace, t: int): set<MemoryId>
    requires env.ListsAll()
  {
    Hidden(ns, ActiveMemories(env, ns, t), t)
  }

  lemma TurnInvStep(ns: Namespace, hidden: set<MemoryId>, user: UserId, inp: Inputs, n: nat, d: Desk, d': Desk)
    requires TurnInv(ns, hidden, user, inp, n, d) && inp.FreshFor(ns)
    requires StepKeeps(d, d', user, inp.ids(n), inp.loadAt)
    ensures TurnInv(ns, hidden, user, inp, n + 1, d')
  {
  }

  lemma OpenedInv(env: Env, ns: Namespace, user: UserId, inp: Inputs)
    requires env.ListsAll() && Keyed(ns, user) && inp.FreshFor(ns)
    ensures TurnInv(ns, HiddenAtStart(env, ns, inp.loadAt), user, inp, 0, Opened(env, ns, inp.loadAt))
  {
    OpenedMirrors(env, ns, user, inp.loadAt);
  }

  lemma TurnKeepsStep(env: Env, ns: Namespace, hidden: set<MemoryId>, d: Desk, c: CandidateFact, who: Author,
                      inp: Inputs, n: nat, d': Desk)
    requires env.EmbedsUniformly()
    requires d' == Resolve(env, d, c, who, inp.ids(n), inp.clock(n))
    requires TurnInv(ns, hidden, who.user, inp, n, d)
    requires inp.FreshFor(ns) && inp.loadAt <= inp.clock(n)
    ensures TurnInv(ns, hidden, who.user, inp, n + 1, d')
  {
    ResolveKeeps(env, d, c, who, inp.ids(n), inp.clock(n), inp.loadAt);
    TurnInvStep(ns, hidden, who.user, inp, n, d, d');
  }

  /** Every desk of a turn satisfies the invariant. */
  lemma {:induction false} TurnKeepsFrom(env: Env, ns: Namespace, hidden: set<MemoryId>, cs: seq<CandidateFact>,
                                         who: Author, inp: Inputs, desks: seq<Desk>, n: nat)
    requires env.Valid() && n <= |cs|
    requires inp.FreshFor(ns) && forall i :: inp.loadAt <= inp.clock(i)
    requires IsTurn(env, ns, cs, who, inp, desks)
    requires TurnInv(ns, hidden, who.user, inp, 0, desks[0])
    ensures TurnInv(ns, hidden, who.user, inp, n, desks[n])
  {
    if n == 0 {
    } else {
      TurnKeepsFrom(env, ns, hidden, cs, who, inp, desks, n - 1);
      assert Follows(env, cs, who, inp, n - 1, desks[n - 1], desks[n]);
      TurnKeepsStep(env, ns, hidden, desks[n - 1], cs[n - 1], who, inp, n - 1, desks[n]);
    }
  }

  lemma TurnKeeps(env: Env, ns: Namespace, cs: seq<CandidateFact>, who: Author, inp: Inputs, since: int,
                  desks: seq<Desk>, n: nat)
    requires env.Valid() && Keyed(ns, who.user) && n <= |cs|
    requires inp.Timely(since) && inp.FreshFor(ns)
    requires IsTurn(env, ns, cs, who, inp, desks)
    ensures TurnInv(ns, HiddenAtStart(env, ns, inp.loadAt), who.user, inp, n, desks[n])
  {
    OpenedInv(env, ns, who.user, inp);
    TurnKeepsFrom(env, ns, HiddenAtStart(env, ns, inp.loadAt), cs, who, inp, desks, n);
  }

  /** What candidate n of a turn meets with. */
  lemma TurnMeets(env: Env, ns: Namespace, cs: seq<CandidateFact>, who: Author, inp: Inputs, since: int,
                  desks: seq<Desk>, n: nat)
    requires env.Valid() && Keyed(ns, who.user) && n < |cs|
    requires inp.Timely(since) && inp.FreshFor(ns)
    requires IsTurn(env, ns, cs, who, inp, desks)
    ensures Follows(env, cs, who, inp, n, desks[n], desks[n + 1])
    ensures Mirrors(desks[n].ns, desks[n].existing, inp.loadAt)
    ensures inp.ids(n) !in desks[n].ns && inp.loadAt <= inp.clock(n)
    ensures forall h :: h in Hidden(desks[n].ns, desks[n].existing, inp.loadAt) ==>
                          h in ns && desks[n].ns[h] == ns[h] && ns[h].IsActive(inp.loadAt) && h !in Page(env, ns)
  {
    TurnKeeps(env, ns, cs, who, inp, since, desks, n);
    OpenedMirrors(env, ns, who.user, inp.loadAt);
  }
}
