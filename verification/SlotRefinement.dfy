/**
 The write path refines a plain map from slots to values: last writer wins, restating a
 live value changes nothing, forgetting removes cells, and time expires them.
 */
module SlotRefinement {
  import opened Prelude
  import opened Records
  import opened Environment
  import opened WritePolicy
  import opened TurnInvariants
  import opened OneLiveValue

  /** What the map says about one slot, and which record stands behind it. */
  datatype Cell = Cell(norm: string, expiresAt: Option<int>, id: MemoryId, thread: Option<ThreadId>) {
    predicate IsLive(t: int) {
      expiresAt.None? || expiresAt.value > t
    }
  }

  type SlotMap = map<Slot, Cell>

  /** A candidate is told to the map: a live equal value stands, anything else is overwritten. */
  function Tell(env: Env, slots: SlotMap, c: CandidateFact, who: Author, id: MemoryId, now: int, t: int): SlotMap {
    var s := FactSlot(c);
    if !IsSlot(s) then slots
    else if s in slots && slots[s].IsLive(t) && slots[s].norm == NormValue(env, c.value) then slots
    else
      var expiry := if c.ttlDays.Some? then Some(now + c.ttlDays.value * DAY) else None;
      slots[s := Cell(NormValue(env, c.value), expiry, id, who.thread)]
  }

  function TellAll(env: Env, slots: SlotMap, cs: seq<CandidateFact>, who: Author, inp: Inputs, n: nat): SlotMap
    requires n <= |cs|
  {
    if n == 0 then slots
    else
      Tell(env, TellAll(env, slots, cs, who, inp, n - 1), cs[n - 1], who, inp.ids(n - 1), inp.clock(n - 1), inp.loadAt)
  }

  function Drop(slots: SlotMap, gone: set<MemoryId>): SlotMap {
    map s | s in slots && slots[s].id !in gone :: slots[s]
  }

  ghost predicate HeldBy(env: Env, ns: Namespace, slot: Slot, cell: Cell) {
    && cell.id in ns
    && var m := ns[cell.id];
       && m.Slot() == slot
       && m.supersededBy.None?
       && NormValue(env, m.value) == cell.norm
       && m.expiresAt == cell.expiresAt
       && m.thread == cell.thread
  }

  /**
   From time t on, the live slotted records are exactly the live cells: each cell is held
   by its record, and no other record of a slot is live.
   */
  ghost predicate Refines(env: Env, ns: Namespace, slots: SlotMap, t: int) {
    && (forall s :: s in slots ==> IsSlot(s) && HeldBy(env, ns, s, slots[s]))
    && (forall id :: id in ns && ns[id].IsActive(t) && IsSlot(ns[id].Slot()) ==>
                       ns[id].Slot() in slots && slots[ns[id].Slot()].id == id)
  }

  /** What `Refines` means to an observer at any later time. */
  lemma RefinesObserved(env: Env, ns: Namespace, slots: SlotMap, t: int, later: int, slot: Slot, id: MemoryId)
    requires Refines(env, ns, slots, t) && t <= later && IsSlot(slot)
    ensures (id in ns && ns[id].IsActive(later) && ns[id].Slot() == slot)
       <==> (slot in slots && slots[slot].IsLive(later) && slots[slot].id == id)
    ensures id in ns && ns[id].IsActive(later) && ns[id].Slot() == slot ==>
              NormValue(env, ns[id].value) == slots[slot].norm
  {
    if id in ns && ns[id].IsActive(later) {
      assert ns[id].IsActive(t);
    }
    if slot in slots {
      assert HeldBy(env, ns, slot, slots[slot]);
    }
  }

  /** Time alone breaks no refinement. */
  lemma RefinesLater(env: Env, ns: Namespace, slots: SlotMap, t: int, later: int)
    requires Refines(env, ns, slots, t) && t <= later
    ensures Refines(env, ns, slots, later)
  {
    forall x | x in ns && ns[x].IsActive(later) && IsSlot(ns[x].Slot())
      ensures ns[x].Slot() in slots && slots[ns[x].Slot()].id == x
    {
      assert ns[x].IsActive(t);
    }
  }

  lemma KnownRefines(env: Env, d: Desk, slots: SlotMap, c: CandidateFact, who: Author, id: MemoryId, known: Memory,
                     now: int, t: int, d': Desk)
    requires Refines(env, d.ns, slots, t) && Mirrors(d.ns, d.existing, t)
    requires Lawful(env, d.existing, c, who, id, now, Known(known))
    requires d' == Perform(d, c, Known(known), now)
    ensures Tell(env, slots, c, who, id, now, t) == slots && Refines(env, d'.ns, slots, t)
  {
    KnownEffect(d, c, known, now, t, d');
    if IsSlot(FactSlot(c)) {
      assert HeldBy(env, d.ns, FactSlot(c), slots[FactSlot(c)]);
    }
    assert Tell(env, slots, c, who, id, now, t) == slots;
    forall s | s in slots
      ensures HeldBy(env, d'.ns, s, slots[s])
    {
      assert HeldBy(env, d.ns, s, slots[s]);
    }
  }

  /** No live record of the slot escapes the working list. */
  ghost predicate Sees(ns: Namespace, existing: seq<Memory>, slot: Slot, t: int) {
    IsSlot(slot) ==> forall h :: h in Hidden(ns, existing, t) ==> ns[h].Slot() != slot
  }

  /** The cell of a freshly written record. */
  function CellOf(env: Env, m: Memory): Cell {
    Cell(NormValue(env, m.value), m.expiresAt, m.id, m.thread)
  }

  /** A new slotted fact overwrites its cell: had a live equal value stood there, it would be known. */
  lemma TellNew(env: Env, d: Desk, slots: SlotMap, c: CandidateFact, who: Author, made: Memory, stale: seq<Memory>,
                now: int, t: int)
    requires Refines(env, d.ns, slots, t) && Mirrors(d.ns, d.existing, t) && Sees(d.ns, d.existing, FactSlot(c), t)
    requires Lawful(env, d.existing, c, who, made.id, now, New(made, stale))
    ensures Tell(env, slots, c, who, made.id, now, t)
         == if IsSlot(FactSlot(c)) then slots[FactSlot(c) := CellOf(env, made)] else slots
  {
    var slot := FactSlot(c);
    if IsSlot(slot) && slot in slots && slots[slot].IsLive(t) {
      assert HeldBy(env, d.ns, slot, slots[slot]);
      assert slots[slot].id !in Hidden(d.ns, d.existing, t);
      StaleAreSameSlot(d, c, stale, t);
      assert d.ns[slots[slot].id] in stale;
    }
  }

  /** No live record of the new record's slot is left out. */
  ghost predicate Clears(ns: Namespace, made: Memory, stale: seq<Memory>, t: int) {
    forall id :: id in ns && ns[id].IsActive(t) && IsSlot(made.Slot()) && ns[id].Slot() == made.Slot() ==>
                   HasId(stale, id)
  }

  /** What is retired was in the slot and is live no more. */
  lemma RetiredAreGone(ns: Namespace, ns': Namespace, made: Memory, stale: seq<Memory>, now: int, t: int, id: MemoryId)
    requires TakesOver(ns, ns', made, stale, now) && HasId(stale, id)
    ensures id in ns && id in ns' && !ns'[id].IsActive(t) && IsSlot(made.Slot()) && ns[id].Slot() == made.Slot()
  {
    var k :| 0 <= k < |stale| && stale[k].id == id;
    assert Retires(ns, ns', made, stale[k], now);
  }

  lemma OtherCellsHeld(env: Env, ns: Namespace, ns': Namespace, slots: SlotMap, made: Memory, stale: seq<Memory>,
                       now: int, t: int, s: Slot)
    requires Refines(env, ns, slots, t) && TakesOver(ns, ns', made, stale, now)
    requires s in slots && (s != made.Slot() || !IsSlot(made.Slot()))
    ensures HeldBy(env, ns', s, slots[s])
  {
    assert HeldBy(env, ns, s, slots[s]);
    if HasId(stale, slots[s].id) {
      RetiredAreGone(ns, ns', made, stale, now, t, slots[s].id);
    }
  }

  lemma LiveAreCells(env: Env, ns: Namespace, ns': Namespace, slots: SlotMap, made: Memory, stale: seq<Memory>,
                     now: int, t: int, id: MemoryId)
    requires Refines(env, ns, slots, t) && TakesOver(ns, ns', made, stale, now) && Clears(ns, made, stale, t)
    requires id in ns && ns'[id].IsActive(t) && IsSlot(ns'[id].Slot())
    ensures var s := ns'[id].Slot();
            s in slots && slots[s].id == id && (s != made.Slot() || !IsSlot(made.Slot()))
  {
    if HasId(stale, id) {
      RetiredAreGone(ns, ns', made, stale, now, t, id);
    }
  }

  /** The map after a record is written over the rest of its slot. */
  ghost function CellWritten(env: Env, slots: SlotMap, made: Memory): SlotMap {
    if IsSlot(made.Slot()) then slots[made.Slot() := CellOf(env, made)] else slots
  }

  lemma WrittenCellsHeld(env: Env, ns: Namespace, ns': Namespace, slots: SlotMap, made: Memory, stale: seq<Memory>,
                         now: int, t: int, s: Slot)
    requires Refines(env, ns, slots, t) && TakesOver(ns, ns', made, stale, now)
    requires made.supersededBy.None? && s in CellWritten(env, slots, made)
    ensures IsSlot(s) && HeldBy(env, ns', s, CellWritten(env, slots, made)[s])
  {
    if s != made.Slot() || !IsSlot(made.Slot()) {
      OtherCellsHeld(env, ns, ns', slots, made, stale, now, t, s);
    }
  }

  lemma WrittenLiveAreCells(env: Env, ns: Namespace, ns': Namespace, slots: SlotMap, made: Memory,
                            stale: seq<Memory>, now: int, t: int, id: MemoryId)
    requires Refines(env, ns, slots, t) && TakesOver(ns, ns', made, stale, now) && Clears(ns, made, stale, t)
    requires id in ns' && ns'[id].IsActive(t) && IsSlot(ns'[id].Slot())
    ensures var slots' := CellWritten(env, slots, made);
            ns'[id].Slot() in slots' && slots'[ns'[id].Slot()].id == id
  {
    if id != made.id {
      LiveAreCells(env, ns, ns', slots, made, stale, now, t, id);
    }
  }

  /** Writing one record over the rest of its slot, seen from the slot map. */
  lemma WriteRefines(env: Env, ns: Namespace, ns': Namespace, slots: SlotMap, made: Memory, stale: seq<Memory>,
                     now: int, t: int)
    requires Refines(env, ns, slots, t) && TakesOver(ns, ns', made, stale, now) && Clears(ns, made, stale, t)
    requires made.supersededBy.None?
    ensures Refines(env, ns', CellWritten(env, slots, made), t)
  {
    forall s | s in CellWritten(env, slots, made)
      ensures IsSlot(s) && HeldBy(env, ns', s, CellWritten(env, slots, made)[s])
    {
      WrittenCellsHeld(env, ns, ns', slots, made, stale, now, t, s);
    }
    forall id | id in ns' && ns'[id].IsActive(t) && IsSlot(ns'[id].Slot())
      ensures var slots' := CellWritten(env, slots, made);
              ns'[id].Slot() in slots' && slots'[ns'[id].Slot()].id == id
    {
      WrittenLiveAreCells(env, ns, ns', slots, made, stale, now, t, id);
    }
  }

  lemma NewRefines(env: Env, d: Desk, slots: SlotMap, c: CandidateFact, who: Author, made: Memory, stale: seq<Memory>,
                   now: int, t: int, d': Desk)
    requires Refines(env, d.ns, slots, t) && Mirrors(d.ns, d.existing, t) && Sees(d.ns, d.existing, FactSlot(c), t)
    requires made.id !in d.ns && t <= now
    requires Lawful(env, d.existing, c, who, made.id, now, New(made, stale))
    requires d' == Perform(d, c, New(made, stale), now)
    ensures Refines(env, d'.ns, Tell(env, slots, c, who, made.id, now, t), t)
  {
    StaleAreSameSlot(d, c, stale, t);
    NewTakesOver(d, c, made, stale, now, t, d');
    TellNew(env, d, slots, c, who, made, stale, now, t);
    forall id | id in d.ns && d.ns[id].IsActive(t) && IsSlot(made.Slot()) && d.ns[id].Slot() == made.Slot()
      ensures HasId(stale, id)
    {
      assert id !in Hidden(d.ns, d.existing, t);
    }
    WriteRefines(env, d.ns, d'.ns, slots, made, stale, now, t);
  }

  lemma StepRefines(env: Env, d: Desk, slots: SlotMap, cs: seq<CandidateFact>, who: Author, inp: Inputs, n: nat,
                    d': Desk)
    requires env.EmbedsUniformly() && n < |cs|
    requires Refines(env, d.ns, slots, inp.loadAt) && Mirrors(d.ns, d.existing, inp.loadAt)
    requires Sees(d.ns, d.existing, FactSlot(cs[n]), inp.loadAt)
    requires inp.ids(n) !in d.ns && inp.loadAt <= inp.clock(n)
    requires Follows(env, cs, who, inp, n, d, d')
    ensures Refines(env, d'.ns, Tell(env, slots, cs[n], who, inp.ids(n), inp.clock(n), inp.loadAt), inp.loadAt)
  {
    DecideIsLawful(env, d.ns, d.existing, cs[n], who, inp.ids(n), inp.clock(n));
    match Decide(env, d.ns, d.existing, cs[n], who, inp.ids(n), inp.clock(n))
    case Known(m) => KnownRefines(env, d, slots, cs[n], who, inp.ids(n), m, inp.clock(n), inp.loadAt, d');
    case New(m, stale) => NewRefines(env, d, slots, cs[n], who, m, stale, inp.clock(n), inp.loadAt, d');
  }

  /** What the opening desk sees of the touched slots, every later desk still sees. */
  lemma SeesEach(env: Env, ns: Namespace, cs: seq<CandidateFact>, t: int, d: Desk, n: nat)
    requires env.ListsAll() && n < |cs| && SeesTouchedSlots(env, ns, cs, t)
    requires forall h :: h in Hidden(d.ns, d.existing, t) ==>
                           h in ns && d.ns[h] == ns[h] && ns[h].IsActive(t) && h !in Page(env, ns)
    ensures Sees(d.ns, d.existing, FactSlot(cs[n]), t)
  {
    assert Touched(cs, |cs|, FactSlot(cs[n]));
  }

  lemma {:induction false} TurnRefinesUpTo(env: Env, ns: Namespace, slots: SlotMap, cs: seq<CandidateFact>,
                                           who: Author, inp: Inputs, since: int, desks: seq<Desk>, n: nat)
    requires env.Valid() && Keyed(ns, who.user) && n <= |cs|
    requires inp.Timely(since) && inp.FreshFor(ns)
    requires Refines(env, ns, slots, inp.loadAt) && SeesTouchedSlots(env, ns, cs, inp.loadAt)
    requires IsTurn(env, ns, cs, who, inp, desks)
    ensures Refines(env, desks[n].ns, TellAll(env, slots, cs, who, inp, n), inp.loadAt)
  {
    if n == 0 {
    } else {
      TurnRefinesUpTo(env, ns, slots, cs, who, inp, since, desks, n - 1);
      TurnMeets(env, ns, cs, who, inp, since, desks, n - 1);
      SeesEach(env, ns, cs, inp.loadAt, desks[n - 1], n - 1);
      StepRefines(env, desks[n - 1], TellAll(env, slots, cs, who, inp, n - 1), cs, who, inp, n - 1, desks[n]);
    }
  }

  /** Records that refine a map have at most one live value per slot. */
  lemma RefinedIsOneLive(env: Env, ns: Namespace, slots: SlotMap, t: int)
    requires Refines(env, ns, slots, t)
    ensures OneLive(ns, t)
  {
  }

  /**
   A turn does to the store what `TellAll` does to the map if and only if it could see, among
   the first 500 listed records, the live record of every slot it speaks about.
   */
  lemma TurnRefinesExactly(env: Env, ns: Namespace, slots: SlotMap, cs: seq<CandidateFact>, who: Author, inp: Inputs,
                           since: int)
    requires env.Valid() && Keyed(ns, who.user)
    requires inp.Timely(since) && inp.FreshFor(ns)
    requires Refines(env, ns, slots, inp.loadAt)
    ensures Refines(env, ResolveAll(env, ns, cs, who, inp).ns, TellAll(env, slots, cs, who, inp, |cs|), inp.loadAt)
       <==> SeesTouchedSlots(env, ns, cs, inp.loadAt)
  {
    var ns', slots' := ResolveAll(env, ns, cs, who, inp).ns, TellAll(env, slots, cs, who, inp, |cs|);
    if SeesTouchedSlots(env, ns, cs, inp.loadAt) {
      TurnRefinesUpTo(env, ns, slots, cs, who, inp, since, Turn(env, ns, cs, who, inp), |cs|);
    } else {
      RefinedIsOneLive(env, ns, slots, inp.loadAt);
      OneLiveExactly(env, ns, cs, who, inp, since);
      if Refines(env, ns', slots', inp.loadAt) {
        RefinedIsOneLive(env, ns', slots', inp.loadAt);
      }
    }
  }

  /** On at most 500 records the condition always holds. */
  lemma TurnRefines(env: Env, ns: Namespace, slots: SlotMap, cs: seq<CandidateFact>, who: Author, inp: Inputs,
                    since: int)
    requires env.Valid() && Keyed(ns, who.user)
    requires inp.Timely(since) && inp.FreshFor(ns)
    requires Refines(env, ns, slots, inp.loadAt) && |ns| <= MAX_EXISTING
    ensures Refines(env, ResolveAll(env, ns, cs, who, inp).ns, TellAll(env, slots, cs, who, inp, |cs|), inp.loadAt)
  {
    SeesAllWithinCap(env, ns, cs, inp.loadAt);
    TurnRefinesExactly(env, ns, slots, cs, who, inp, since);
  }

  /** Deleting records does to the store what dropping their cells does to the map. */
  lemma ForgetRefines(env: Env, ns: Namespace, slots: SlotMap, gone: set<MemoryId>, t: int)
    requires Refines(env, ns, slots, t)
    ensures Refines(env, ns - gone, Drop(slots, gone), t)
  {
    var slots' := Drop(slots, gone);
    forall s | s in slots'
      ensures HeldBy(env, ns - gone, s, slots'[s])
    {
      assert HeldBy(env, ns, s, slots[s]);
    }
  }
}
