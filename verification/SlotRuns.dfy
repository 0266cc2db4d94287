/**
 Whole runs of turns, reads and deletes by all users refine slot maps: each user's records
 are the live side of a map driven by that user's operations alone, and the map holds for
 each slot the value most recently asserted for it.
 */
module SlotRuns {
  import opened Prelude
  import opened Records
  import opened Environment
  import opened Tables
  import opened World
  import opened TurnInvariants
  import opened SlotRefinement
  import opened Reachable
  import opened Assertions
  import WritePolicy
  import OneLiveValue
  import Isolation

  // ------------------------------------------------------------- the abstract machine

  function TellTurn(env: Env, slots: SlotMap, text: string, who: WritePolicy.Author, inp: WritePolicy.Inputs): SlotMap {
    match WritePolicy.TakeIn(env, text, who.source)
    case Admitted(cs) => TellAll(env, slots, cs, who, inp, |cs|)
    case _ => slots
  }

  function DropThread(slots: SlotMap, thread: ThreadId): SlotMap {
    map s | s in slots && slots[s].thread != Some(thread) :: slots[s]
  }

  /** What one operation does to a user's slot map. It never looks at the store. */
  function SlotStep(env: Env, slots: SlotMap, op: Op, user: UserId): SlotMap {
    if op.user != user then slots
    else
      match op
      case Chat(_, _, message, inp) =>
        if env.memory then TellTurn(env, slots, message, ChatAuthor(op), inp) else slots
      case Observe(_, text, _, _, inp) => TellTurn(env, slots, text, ObserveAuthor(op), inp)
      case Ask(_, _, _, _) => slots
      case History(_, _) => slots
      case ForgetMemory(_, id) => Drop(slots, {id})
      case ForgetThread(_, thread) => DropThread(slots, thread)
      case ForgetUser(_) => map[]
  }

  function SlotsAfter(env: Env, ops: seq<Op>, user: UserId, n: nat): SlotMap
    requires n <= |ops|
  {
    if n == 0 then map[] else SlotStep(env, SlotsAfter(env, ops, user, n - 1), ops[n - 1], user)
  }

  // ---------------------------------------------------------------- what a turn reads

  /** A turn reads the live record of every slot it speaks about. */
  ghost predicate ReadsEnough(env: Env, w: State, op: Op)
    requires env.ListsAll()
  {
    Writes(op) ==>
      OneLiveValue.SeesTouchedSlots(env, w.Mem(op.user), AssertedBy(env, op, op.user), op.inputs.loadAt)
  }

  /** What all turns of the user among the first n operations do. */
  ghost predicate AllReadEnough(env: Env, ops: seq<Op>, states: seq<State>, user: UserId, n: nat)
    requires env.ListsAll() && |states| == |ops| + 1
  {
    Until(ReadsEnoughOf(env, ops, states, user), n)
  }

  ghost function ReadsEnoughOf(env: Env, ops: seq<Op>, states: seq<State>, user: UserId): nat -> bool
    requires env.ListsAll() && |states| == |ops| + 1
  {
    (i: nat) => i < |ops| && ops[i].user == user ==> ReadsEnough(env, states[i], ops[i])
  }

  /** Up to 500 records at the start of a turn are enough. */
  lemma RoomIsEnough(env: Env, w: State, op: Op)
    requires env.ListsAll() && (Writes(op) ==> |w.Mem(op.user)| <= WritePolicy.MAX_EXISTING)
    ensures ReadsEnough(env, w, op)
  {
    if Writes(op) {
      OneLiveValue.SeesAllWithinCap(env, w.Mem(op.user), AssertedBy(env, op, op.user), op.inputs.loadAt);
    }
  }

  /** Each of the user's first n operations that may write starts on at most 500 records. */
  ghost predicate HasRoom(ops: seq<Op>, states: seq<State>, user: UserId, n: nat)
    requires n <= |ops| && |states| == |ops| + 1
  {
    forall i :: 0 <= i < n && ops[i].user == user && Writes(ops[i]) ==>
                  |states[i].Mem(user)| <= WritePolicy.MAX_EXISTING
  }

  /** A user whose turns never start past the cap reads enough throughout. */
  lemma RoomThroughout(env: Env, ops: seq<Op>, states: seq<State>, user: UserId, n: nat)
    requires env.ListsAll() && |states| == |ops| + 1 && n <= |ops| && HasRoom(ops, states, user, n)
    ensures AllReadEnough(env, ops, states, user, n)
  {
    forall i: nat | i < n
      ensures ReadsEnoughOf(env, ops, states, user)(i)
    {
      if ops[i].user == user {
        RoomIsEnough(env, states[i], ops[i]);
      }
    }
  }

  // ------------------------------------------------------------------ one operation

  /** At the time a turn loads the records, its step refines the map if and only if it reads enough. */
  lemma ApplyRefinesExactly(env: Env, ns: Namespace, slots: SlotMap, text: string, who: WritePolicy.Author,
                            inp: WritePolicy.Inputs, since: int)
    requires env.Valid() && Keyed(ns, who.user)
    requires inp.Timely(since) && inp.FreshFor(ns)
    requires Refines(env, ns, slots, inp.loadAt)
    ensures Refines(env, WritePolicy.Apply(env, ns, text, who, inp).0, TellTurn(env, slots, text, who, inp), inp.loadAt)
       <==> OneLiveValue.SeesTouchedSlots(env, ns, AssertedIn(env, text, who.source), inp.loadAt)
  {
    match WritePolicy.TakeIn(env, text, who.source)
    case Ignored =>
    case Blocked(_) =>
    case Admitted(cs) => TurnRefinesExactly(env, ns, slots, cs, who, inp, since);
  }

  /** A turn's step, from records that refine the map when the turn begins. */
  lemma OwnTurnRefinesExactly(env: Env, w: State, op: Op, t: int, w': State, slots: SlotMap)
    requires env.Valid() && Sound(env, w) && w' == Next(env, w, op) && TakesTurn(env, op)
    requires op.inputs.Timely(t) && op.inputs.FreshFor(w.Mem(op.user))
    requires Refines(env, w.Mem(op.user), slots, t)
    ensures Refines(env, w'.Mem(op.user), SlotStep(env, slots, op, op.user), op.inputs.loadAt)
       <==> ReadsEnough(env, w, op)
  {
    var ns, inp := w.Mem(op.user), op.inputs;
    NothingRefused(env, w, op);
    TurnStep(env, w, op, w');
    RefinesLater(env, ns, slots, t, inp.loadAt);
    ApplyRefinesExactly(env, ns, slots, TurnText(op), TurnAuthor(op), inp, t);
  }

  /** Forgetting a conversation drops exactly the cells its records hold. */
  lemma ThreadDropsCells(env: Env, ns: Namespace, slots: SlotMap, thread: ThreadId, t: int)
    requires Refines(env, ns, slots, t)
    ensures Drop(slots, FromThread(ns, thread)) == DropThread(slots, thread)
  {
    forall s | s in slots
      ensures slots[s].id in FromThread(ns, thread) <==> slots[s].thread == Some(thread)
    {
      assert HeldBy(env, ns, s, slots[s]);
    }
  }

  lemma EmptyRefines(env: Env, ns: Namespace, slots: SlotMap, t: int)
    requires ns == map[] && slots == map[]
    ensures Refines(env, ns, slots, t)
  {
  }

  lemma OwnStepRefines(env: Env, w: State, op: Op, t: int, t': int, w': State, slots: SlotMap)
    requires env.Valid() && Sound(env, w) && w' == Next(env, w, op)
    requires Fits(w, op, t, t') && ReadsEnough(env, w, op)
    requires Refines(env, w.Mem(op.user), slots, t)
    ensures Refines(env, w'.Mem(op.user), SlotStep(env, slots, op, op.user), t')
  {
    if TakesTurn(env, op) {
      OwnTurnRefinesExactly(env, w, op, t, w', slots);
      RefinesLater(env, w'.Mem(op.user), SlotStep(env, slots, op, op.user), op.inputs.loadAt, t');
    } else {
      QuietRefines(env, w, op, t, w', slots);
      RefinesLater(env, w'.Mem(op.user), SlotStep(env, slots, op, op.user), t, t');
    }
  }

  /** Reading changes neither side, and forgetting drops the same from both. */
  lemma QuietRefines(env: Env, w: State, op: Op, t: int, w': State, slots: SlotMap)
    requires env.Valid() && Sound(env, w) && w' == Next(env, w, op) && !TakesTurn(env, op)
    requires Refines(env, w.Mem(op.user), slots, t)
    ensures Refines(env, w'.Mem(op.user), SlotStep(env, slots, op, op.user), t)
  {
    var user := op.user;
    var ns := w.Mem(user);
    NothingRefused(env, w, op);
    QuietStep(env, w, op, w');
    match op
    case ForgetMemory(_, id) =>
      ForgetRefines(env, ns, slots, {id}, t);
      RowAssign(w.memories, user, ns - {id});
    case ForgetThread(_, thread) =>
      ForgetRefines(env, ns, slots, FromThread(ns, thread), t);
      ThreadDropsCells(env, ns, slots, thread, t);
      RowAssign(w.memories, user, ns - FromThread(ns, thread));
    case ForgetUser(_) =>
      RowAssign(w.memories, user, map[]);
      EmptyRefines(env, map[], map[], t);
    case _ =>
  }

  lemma OtherStepRefines(env: Env, user: UserId, w: State, op: Op, t: int, t': int, w': State, slots: SlotMap)
    requires env.Valid() && w' == Next(env, w, op) && op.user != user && t <= t'
    requires Refines(env, w.Mem(user), slots, t)
    ensures Refines(env, w'.Mem(user), SlotStep(env, slots, op, user), t')
  {
    Isolation.OthersUntouched(env, user, w, op, w');
    RefinesLater(env, w.Mem(user), slots, t, t');
  }

  lemma StepRefinesMap(env: Env, user: UserId, w: State, op: Op, t: int, t': int, w': State, out: Output,
                       slots: SlotMap)
    requires env.Valid() && Sound(env, w) && Steps(env, w, op, w', out)
    requires Fits(w, op, t, t') && (op.user == user ==> ReadsEnough(env, w, op))
    requires Refines(env, w.Mem(user), slots, t)
    ensures Refines(env, w'.Mem(user), SlotStep(env, slots, op, user), t')
  {
    if op.user == user {
      OwnStepRefines(env, w, op, t, t', w', slots);
    } else {
      OtherStepRefines(env, user, w, op, t, t', w', slots);
    }
  }

  // ------------------------------------------------------------------- whole runs

  /** Operation i takes records that refine a slot map to records that refine the next one. */
  ghost predicate MapStep(env: Env, ops: seq<Op>, states: seq<State>, times: seq<int>, user: UserId, i: nat)
    requires i < |ops| && |states| == |times| == |ops| + 1
  {
    forall slots :: Refines(env, states[i].Mem(user), slots, times[i]) ==>
                      Refines(env, states[i + 1].Mem(user), SlotStep(env, slots, ops[i], user), times[i + 1])
  }

  lemma {:induction false} RunMapStep(env: Env, ops: seq<Op>, states: seq<State>, outs: seq<Output>, times: seq<int>,
                                      user: UserId, i: nat)
    requires env.Valid() && IsRun(env, ops, states, outs) && IsTimed(ops, states, times)
    requires i < |ops| && Sound(env, states[i]) && (ops[i].user == user ==> ReadsEnough(env, states[i], ops[i]))
    ensures MapStep(env, ops, states, times, user, i)
  {
    forall slots | Refines(env, states[i].Mem(user), slots, times[i])
      ensures Refines(env, states[i + 1].Mem(user), SlotStep(env, slots, ops[i], user), times[i + 1])
    {
      assert Fits(states[i], ops[i], times[i], times[i + 1]);
      assert Steps(env, states[i], ops[i], states[i + 1], outs[i]);
      StepRefinesMap(env, user, states[i], ops[i], times[i], times[i + 1], states[i + 1], outs[i], slots);
    }
  }

  lemma {:induction false} MapStepsCompose(env: Env, ops: seq<Op>, states: seq<State>, times: seq<int>, user: UserId,
                                           n: nat)
    requires |states| == |times| == |ops| + 1 && n <= |ops|
    requires forall i :: 0 <= i < n ==> MapStep(env, ops, states, times, user, i)
    requires states[0].Mem(user) == map[]
    ensures Refines(env, states[n].Mem(user), SlotsAfter(env, ops, user, n), times[n])
  {
    if n == 0 {
      EmptyRefines(env, states[0].Mem(user), SlotsAfter(env, ops, user, 0), times[0]);
    } else {
      MapStepsCompose(env, ops, states, times, user, n - 1);
      assert MapStep(env, ops, states, times, user, n - 1);
    }
  }

  /** In every run from the empty store, a user whose own turns read enough has records that refine the map. */
  lemma {:induction false} RunRefines(env: Env, ops: seq<Op>, states: seq<State>, outs: seq<Output>, times: seq<int>,
                                      user: UserId, n: nat)
    requires env.Valid() && IsRun(env, ops, states, outs) && IsTimed(ops, states, times)
    requires states[0] == Empty() && n <= |ops| && AllReadEnough(env, ops, states, user, n)
    ensures Refines(env, states[n].Mem(user), SlotsAfter(env, ops, user, n), times[n])
  {
    EmptySound(env);
    forall i | 0 <= i < n
      ensures MapStep(env, ops, states, times, user, i)
    {
      UntilPrefix(ReadsEnoughOf(env, ops, states, user), i, n);
      RunIsSound(env, ops, states, outs, times, i);
      RunMapStep(env, ops, states, outs, times, user, i);
    }
    MapStepsCompose(env, ops, states, times, user, n);
  }

  /** So at any later time no slot of the user has two live records. */
  lemma {:induction false} RunIsOneLive(env: Env, ops: seq<Op>, states: seq<State>, outs: seq<Output>,
                                        times: seq<int>, user: UserId, n: nat, later: int)
    requires env.Valid() && IsRun(env, ops, states, outs) && IsTimed(ops, states, times)
    requires states[0] == Empty() && n <= |ops| && AllReadEnough(env, ops, states, user, n) && times[n] <= later
    ensures OneLiveValue.OneLive(states[n].Mem(user), later)
  {
    var slots := SlotsAfter(env, ops, user, n);
    RunRefines(env, ops, states, outs, times, user, n);
    RefinesLater(env, states[n].Mem(user), slots, times[n], later);
    RefinedIsOneLive(env, states[n].Mem(user), slots, later);
  }

  /** In particular while each of the user's turns starts on at most 500 records. */
  lemma {:induction false} RunIsOneLiveWithinCap(env: Env, ops: seq<Op>, states: seq<State>, outs: seq<Output>,
                                                 times: seq<int>, user: UserId, n: nat, later: int)
    requires env.Valid() && IsRun(env, ops, states, outs) && IsTimed(ops, states, times)
    requires states[0] == Empty() && n <= |ops| && HasRoom(ops, states, user, n) && times[n] <= later
    ensures OneLiveValue.OneLive(states[n].Mem(user), later)
  {
    RoomThroughout(env, ops, states, user, n);
    RunIsOneLive(env, ops, states, outs, times, user, n, later);
  }

  /** Right after each of the user's first n operations that is a turn, the records refine the map. */
  ghost predicate TurnsRefine(env: Env, ops: seq<Op>, states: seq<State>, user: UserId, n: nat)
    requires |states| == |ops| + 1
  {
    Until(RefinesOf(env, ops, states, user), n)
  }

  ghost function RefinesOf(env: Env, ops: seq<Op>, states: seq<State>, user: UserId): nat -> bool
    requires |states| == |ops| + 1
  {
    (i: nat) =>
      i < |ops| && ops[i].user == user && TakesTurn(env, ops[i]) ==> TurnRefinedAt(env, ops, states, user, i)
  }

  ghost predicate TurnRefinedAt(env: Env, ops: seq<Op>, states: seq<State>, user: UserId, i: nat)
    requires i < |ops| && |states| == |ops| + 1 && Writes(ops[i])
  {
    Refines(env, states[i + 1].Mem(user), SlotStep(env, SlotsAfter(env, ops, user, i), ops[i], user),
            ops[i].inputs.loadAt)
  }

  lemma TurnExactly(env: Env, ops: seq<Op>, states: seq<State>, times: seq<int>, user: UserId, i: nat)
    requires env.Valid() && i < |ops| && |states| == |times| == |ops| + 1 && ops[i].user == user
    requires Sound(env, states[i]) && states[i + 1] == Next(env, states[i], ops[i])
    requires Fits(states[i], ops[i], times[i], times[i + 1])
    requires Refines(env, states[i].Mem(user), SlotsAfter(env, ops, user, i), times[i])
    ensures (TakesTurn(env, ops[i]) ==> TurnRefinedAt(env, ops, states, user, i))
       <==> ReadsEnough(env, states[i], ops[i])
  {
    if TakesTurn(env, ops[i]) {
      OwnTurnRefinesExactly(env, states[i], ops[i], times[i], states[i + 1], SlotsAfter(env, ops, user, i));
    } else {
      QuietStep(env, states[i], ops[i], states[i + 1]);
    }
  }

  /** The first of the user's turns to break the refinement is the first not to read enough. */
  lemma {:induction false} NextTurnExactly(env: Env, ops: seq<Op>, states: seq<State>, outs: seq<Output>,
                                           times: seq<int>, user: UserId, i: nat)
    requires env.Valid() && IsRun(env, ops, states, outs) && IsTimed(ops, states, times)
    requires states[0] == Empty() && i < |ops| && ops[i].user == user && AllReadEnough(env, ops, states, user, i)
    ensures RefinesOf(env, ops, states, user)(i) <==> ReadsEnoughOf(env, ops, states, user)(i)
  {
    RunRefines(env, ops, states, outs, times, user, i);
    EmptySound(env);
    RunIsSound(env, ops, states, outs, times, i);
    assert Steps(env, states[i], ops[i], states[i + 1], outs[i]) && Fits(states[i], ops[i], times[i], times[i + 1]);
    TurnExactly(env, ops, states, times, user, i);
  }

  /** Over a whole run, the records refine the map after every turn if and only if every turn reads enough. */
  lemma {:induction false} RunRefinesExactly(env: Env, ops: seq<Op>, states: seq<State>, outs: seq<Output>,
                                             times: seq<int>, user: UserId, n: nat)
    requires env.Valid() && IsRun(env, ops, states, outs) && IsTimed(ops, states, times)
    requires states[0] == Empty() && n <= |ops|
    ensures TurnsRefine(env, ops, states, user, n) <==> AllReadEnough(env, ops, states, user, n)
  {
    var kept, enough := RefinesOf(env, ops, states, user), ReadsEnoughOf(env, ops, states, user);
    forall i: nat | i < n && Until(enough, i)
      ensures kept(i) <==> enough(i)
    {
      if ops[i].user == user {
        NextTurnExactly(env, ops, states, outs, times, user, i);
      }
    }
    SameFailures(kept, enough, n);
  }

  // ----------------------------------------------------- what the map holds: the last word

  /** Every cell is some slot's and agrees with the last assertion for it. */
  ghost predicate CellsAreLast(env: Env, slots: SlotMap, facts: seq<CandidateFact>) {
    forall s :: s in slots ==> IsSlot(s) && LastValue(env, facts, s) == Some(slots[s].norm)
  }

  /** Every asserted slot has its cell. */
  ghost predicate CellsCover(env: Env, slots: SlotMap, facts: seq<CandidateFact>) {
    forall s :: IsSlot(s) && LastValue(env, facts, s).Some? ==> s in slots
  }

  lemma TellLast(env: Env, slots: SlotMap, facts: seq<CandidateFact>, c: CandidateFact, who: WritePolicy.Author,
                 id: MemoryId, now: int, t: int)
    ensures var slots', facts' := Tell(env, slots, c, who, id, now, t), facts + [c];
            && (CellsAreLast(env, slots, facts) ==> CellsAreLast(env, slots', facts'))
            && (CellsCover(env, slots, facts) ==> CellsCover(env, slots', facts'))
  {
    var facts' := facts + [c];
    assert facts'[..|facts|] == facts;
  }

  lemma {:induction false} TellAllLast(env: Env, slots: SlotMap, facts: seq<CandidateFact>, cs: seq<CandidateFact>,
                                       who: WritePolicy.Author, inp: WritePolicy.Inputs, n: nat)
    requires n <= |cs|
    ensures var slots', facts' := TellAll(env, slots, cs, who, inp, n), facts + cs[..n];
            && (CellsAreLast(env, slots, facts) ==> CellsAreLast(env, slots', facts'))
            && (CellsCover(env, slots, facts) ==> CellsCover(env, slots', facts'))
  {
    if n == 0 {
      assert facts + cs[..0] == facts;
    } else {
      TellAllLast(env, slots, facts, cs, who, inp, n - 1);
      TellLast(env, TellAll(env, slots, cs, who, inp, n - 1), facts + cs[..n - 1], cs[n - 1], who, inp.ids(n - 1),
               inp.clock(n - 1), inp.loadAt);
      assert facts + cs[..n] == (facts + cs[..n - 1]) + [cs[n - 1]];
    }
  }

  lemma TurnLast(env: Env, slots: SlotMap, facts: seq<CandidateFact>, text: string, who: WritePolicy.Author,
                 inp: WritePolicy.Inputs)
    ensures var slots', facts' := TellTurn(env, slots, text, who, inp), facts + AssertedIn(env, text, who.source);
            && (CellsAreLast(env, slots, facts) ==> CellsAreLast(env, slots', facts'))
            && (CellsCover(env, slots, facts) ==> CellsCover(env, slots', facts'))
  {
    match WritePolicy.TakeIn(env, text, who.source)
    case Admitted(cs) =>
      TellAllLast(env, slots, facts, cs, who, inp, |cs|);
      assert cs[..|cs|] == cs;
    case _ => assert facts + [] == facts;
  }

  lemma OpLast(env: Env, slots: SlotMap, facts: seq<CandidateFact>, op: Op, user: UserId)
    requires CellsAreLast(env, slots, facts)
    ensures var slots', facts' := SlotStep(env, slots, op, user), facts + AssertedBy(env, op, user);
            && CellsAreLast(env, slots', facts')
            && (CellsCover(env, slots, facts) && !(op.user == user && Forgets(op)) ==> CellsCover(env, slots', facts'))
  {
    assert facts + [] == facts;
    if op.user == user {
      match op
      case Chat(_, _, message, inp) => TurnLast(env, slots, facts, message, ChatAuthor(op), inp);
      case Observe(_, text, _, _, inp) => TurnLast(env, slots, facts, text, ObserveAuthor(op), inp);
      case _ =>
    }
  }

  lemma {:induction false} SlotsAreLast(env: Env, ops: seq<Op>, user: UserId, n: nat)
    requires n <= |ops|
    ensures CellsAreLast(env, SlotsAfter(env, ops, user, n), Asserted(env, ops, user, n))
    ensures ForgetsNothing(ops, user, n) ==>
              CellsCover(env, SlotsAfter(env, ops, user, n), Asserted(env, ops, user, n))
  {
    if n == 0 {
    } else {
      SlotsAreLast(env, ops, user, n - 1);
      OpLast(env, SlotsAfter(env, ops, user, n - 1), Asserted(env, ops, user, n - 1), ops[n - 1], user);
    }
  }
}
