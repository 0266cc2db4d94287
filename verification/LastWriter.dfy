/**
 Last writer wins, over whole runs of turns, reads and deletes by all users: exactly when
 every live record of a slot says what was last asserted for it, what keeps a slot's record
 from being lost, and that recalls never show two records of one slot.
 */
module LastWriter {
  import opened Prelude
  import opened Records
  import opened Environment
  import opened World
  import opened TurnInvariants
  import opened Reachable
  import opened Assertions
  import opened TurnWords
  import opened OneLiveValue
  import WritePolicy
  import Reading
  import Isolation
  import SlotRuns

  // ------------------------------------------------------------------ one operation

  /** What the turn says last about a slot contradicts no live record it leaves unread. */
  ghost predicate HearsAll(env: Env, w: State, op: Op)
    requires env.ListsAll()
  {
    Writes(op) ==> Hears(env, w.Mem(op.user), AssertedBy(env, op, op.user), op.inputs.loadAt)
  }

  /** What all turns of the user among the first n operations do. */
  ghost predicate AllHear(env: Env, ops: seq<Op>, states: seq<State>, user: UserId, n: nat)
    requires env.ListsAll() && |states| == |ops| + 1
  {
    Until(HearsAllOf(env, ops, states, user), n)
  }

  ghost function HearsAllOf(env: Env, ops: seq<Op>, states: seq<State>, user: UserId): nat -> bool
    requires env.ListsAll() && |states| == |ops| + 1
  {
    (i: nat) => i < |ops| && ops[i].user == user ==> HearsAll(env, states[i], ops[i])
  }

  /** Who reads enough hears enough. */
  lemma ReadingIsHearing(env: Env, w: State, op: Op)
    requires env.ListsAll() && SlotRuns.ReadsEnough(env, w, op)
    ensures HearsAll(env, w, op)
  {
    if Writes(op) {
      var cs := AssertedBy(env, op, op.user);
      forall slot | LastValue(env, cs, slot).Some?
        ensures Touched(cs, |cs|, slot)
      {
        AssertedIsTouched(env, cs, slot);
      }
    }
  }

  lemma {:induction false} AssertedIsTouched(env: Env, cs: seq<CandidateFact>, slot: Slot)
    requires LastValue(env, cs, slot).Some?
    ensures Touched(cs, |cs|, slot)
  {
    var k := |cs| - 1;
    if FactSlot(cs[k]) != slot {
      AssertedIsTouched(env, cs[..k], slot);
      var j :| 0 <= j < k && FactSlot(cs[..k][j]) == slot;
      assert FactSlot(cs[j]) == slot;
    } else {
      assert FactSlot(cs[k]) == slot;
    }
  }

  /** A user whose turns all read enough hears enough throughout. */
  lemma ReadingThroughout(env: Env, ops: seq<Op>, states: seq<State>, user: UserId, n: nat)
    requires env.ListsAll() && |states| == |ops| + 1 && n <= |ops|
    requires SlotRuns.AllReadEnough(env, ops, states, user, n)
    ensures AllHear(env, ops, states, user, n)
  {
    forall i: nat | i < n
      ensures HearsAllOf(env, ops, states, user)(i)
    {
      UntilPrefix(SlotRuns.ReadsEnoughOf(env, ops, states, user), i, n);
      if ops[i].user == user {
        ReadingIsHearing(env, states[i], ops[i]);
      }
    }
  }

  lemma ApplyLastWords(env: Env, ns: Namespace, facts: seq<CandidateFact>, text: string, who: WritePolicy.Author,
                       inp: WritePolicy.Inputs, since: int)
    requires env.Valid() && Keyed(ns, who.user)
    requires inp.Timely(since) && inp.FreshFor(ns)
    requires LastWords(env, ns, facts, inp.loadAt)
    ensures LastWords(env, WritePolicy.Apply(env, ns, text, who, inp).0, facts + AssertedIn(env, text, who.source),
                      inp.loadAt)
       <==> Hears(env, ns, AssertedIn(env, text, who.source), inp.loadAt)
  {
    assert facts + [] == facts;
    match WritePolicy.TakeIn(env, text, who.source)
    case Ignored =>
    case Blocked(_) =>
    case Admitted(cs) => TurnLastWords(env, ns, facts, cs, who, inp, since);
  }

  /** A turn's step keeps the last word, at the time it loads the records, if and only if it hears enough. */
  lemma OwnTurnLastWords(env: Env, w: State, op: Op, t: int, w': State, facts: seq<CandidateFact>)
    requires env.Valid() && Sound(env, w) && w' == Next(env, w, op) && TakesTurn(env, op)
    requires op.inputs.Timely(t) && op.inputs.FreshFor(w.Mem(op.user))
    requires LastWords(env, w.Mem(op.user), facts, t)
    ensures LastWords(env, w'.Mem(op.user), facts + AssertedBy(env, op, op.user), op.inputs.loadAt)
       <==> HearsAll(env, w, op)
  {
    NothingRefused(env, w, op);
    TurnStep(env, w, op, w');
    LastWordsPersist(env, w.Mem(op.user), facts, t, op.inputs.loadAt);
    ApplyLastWords(env, w.Mem(op.user), facts, TurnText(op), TurnAuthor(op), op.inputs, t);
  }

  lemma OwnStepLastWords(env: Env, w: State, op: Op, t: int, t': int, w': State, facts: seq<CandidateFact>)
    requires env.Valid() && Sound(env, w) && w' == Next(env, w, op)
    requires Fits(w, op, t, t') && HearsAll(env, w, op)
    requires LastWords(env, w.Mem(op.user), facts, t)
    ensures LastWords(env, w'.Mem(op.user), facts + AssertedBy(env, op, op.user), t')
  {
    if TakesTurn(env, op) {
      OwnTurnLastWords(env, w, op, t, w', facts);
      LastWordsPersist(env, w'.Mem(op.user), facts + AssertedBy(env, op, op.user), op.inputs.loadAt, t');
    } else {
      QuietStep(env, w, op, w');
      assert facts + [] == facts;
      if Forgets(op) {
        ForgetStep(env, w, op, w');
      }
      LastWordsPersist(env, w'.Mem(op.user), facts, t, t');
    }
  }

  /** A stranger's operation asserts nothing for the user and leaves the user's records alone. */
  lemma StrangerStep(env: Env, user: UserId, w: State, op: Op, w': State, facts: seq<CandidateFact>)
    requires env.Valid() && op.user != user && w' == Next(env, w, op)
    ensures w'.Mem(user) == w.Mem(user) && facts + AssertedBy(env, op, user) == facts
  {
    Isolation.OthersUntouched(env, user, w, op, w');
    assert facts + [] == facts;
  }

  lemma StepLastWords(env: Env, user: UserId, w: State, op: Op, t: int, t': int, w': State, out: Output,
                      facts: seq<CandidateFact>)
    requires env.Valid() && Sound(env, w) && Steps(env, w, op, w', out)
    requires Fits(w, op, t, t') && (op.user == user ==> HearsAll(env, w, op))
    requires LastWords(env, w.Mem(user), facts, t)
    ensures LastWords(env, w'.Mem(user), facts + AssertedBy(env, op, user), t')
  {
    if op.user == user {
      OwnStepLastWords(env, w, op, t, t', w', facts);
    } else {
      StrangerStep(env, user, w, op, w', facts);
      LastWordsPersist(env, w.Mem(user), facts, t, t');
    }
  }

  // -------------------------------------------------------------------- whole runs

  /** Operation i carries the property over, with what it asserts added to the facts. */
  ghost predicate Carries(env: Env, ops: seq<Op>, states: seq<State>, user: UserId,
                          p: (State, seq<CandidateFact>, nat) -> bool, i: nat)
    requires i < |ops| && |states| == |ops| + 1
  {
    forall facts :: p(states[i], facts, i) ==> p(states[i + 1], facts + AssertedBy(env, ops[i], user), i + 1)
  }

  /** What every operation carries over holds of all that was asserted. */
  lemma {:induction false} RunCarries(env: Env, ops: seq<Op>, states: seq<State>, user: UserId,
                                      p: (State, seq<CandidateFact>, nat) -> bool, n: nat)
    requires |states| == |ops| + 1 && n <= |ops| && p(states[0], [], 0)
    requires forall i :: 0 <= i < n ==> Carries(env, ops, states, user, p, i)
    ensures p(states[n], Asserted(env, ops, user, n), n)
  {
    if n == 0 {
    } else {
      RunCarries(env, ops, states, user, p, n - 1);
      assert Carries(env, ops, states, user, p, n - 1);
    }
  }

  ghost function HoldsLastWords(env: Env, user: UserId, times: seq<int>): (State, seq<CandidateFact>, nat) -> bool {
    (w: State, facts: seq<CandidateFact>, i: nat) => i < |times| && LastWords(env, w.Mem(user), facts, times[i])
  }

  lemma {:induction false} NextLastWords(env: Env, ops: seq<Op>, states: seq<State>, outs: seq<Output>,
                                         times: seq<int>, user: UserId, i: nat, facts: seq<CandidateFact>)
    requires env.Valid() && IsRun(env, ops, states, outs) && IsTimed(ops, states, times)
    requires states[0] == Empty() && i < |ops| && HearsAllOf(env, ops, states, user)(i)
    requires HoldsLastWords(env, user, times)(states[i], facts, i)
    ensures HoldsLastWords(env, user, times)(states[i + 1], facts + AssertedBy(env, ops[i], user), i + 1)
  {
    EmptySound(env);
    RunIsSound(env, ops, states, outs, times, i);
    assert Steps(env, states[i], ops[i], states[i + 1], outs[i]) && Fits(states[i], ops[i], times[i], times[i + 1]);
    StepLastWords(env, user, states[i], ops[i], times[i], times[i + 1], states[i + 1], outs[i], facts);
  }

  lemma {:induction false} CarriesLastWords(env: Env, ops: seq<Op>, states: seq<State>, outs: seq<Output>,
                                            times: seq<int>, user: UserId, i: nat)
    requires env.Valid() && IsRun(env, ops, states, outs) && IsTimed(ops, states, times)
    requires states[0] == Empty() && i < |ops| && HearsAllOf(env, ops, states, user)(i)
    ensures Carries(env, ops, states, user, HoldsLastWords(env, user, times), i)
  {
    var p := HoldsLastWords(env, user, times);
    forall facts | p(states[i], facts, i)
      ensures p(states[i + 1], facts + AssertedBy(env, ops[i], user), i + 1)
    {
      NextLastWords(env, ops, states, outs, times, user, i, facts);
    }
  }

  lemma NoWordsYet(env: Env, user: UserId, times: seq<int>)
    requires |times| > 0
    ensures HoldsLastWords(env, user, times)(Empty(), [], 0)
  {
  }

  lemma {:induction false} RunLastWords(env: Env, ops: seq<Op>, states: seq<State>, outs: seq<Output>,
                                        times: seq<int>, user: UserId, n: nat)
    requires env.Valid() && IsRun(env, ops, states, outs) && IsTimed(ops, states, times)
    requires states[0] == Empty() && n <= |ops| && AllHear(env, ops, states, user, n)
    ensures LastWords(env, states[n].Mem(user), Asserted(env, ops, user, n), times[n])
  {
    forall i | 0 <= i < n
      ensures Carries(env, ops, states, user, HoldsLastWords(env, user, times), i)
    {
      UntilPrefix(HearsAllOf(env, ops, states, user), i, n);
      CarriesLastWords(env, ops, states, outs, times, user, i);
    }
    NoWordsYet(env, user, times);
    RunCarries(env, ops, states, user, HoldsLastWords(env, user, times), n);
  }

  /** After the turn that is operation i, every live record of a slot says what was last asserted for it. */
  ghost predicate LastWordAt(env: Env, ops: seq<Op>, states: seq<State>, user: UserId, i: nat)
    requires i < |ops| && |states| == |ops| + 1 && Writes(ops[i])
  {
    LastWords(env, states[i + 1].Mem(user), Asserted(env, ops, user, i) + AssertedBy(env, ops[i], user),
              ops[i].inputs.loadAt)
  }

  ghost predicate TurnsHaveLastWord(env: Env, ops: seq<Op>, states: seq<State>, user: UserId, n: nat)
    requires |states| == |ops| + 1
  {
    Until(LastWordsOf(env, ops, states, user), n)
  }

  ghost function LastWordsOf(env: Env, ops: seq<Op>, states: seq<State>, user: UserId): nat -> bool
    requires |states| == |ops| + 1
  {
    (i: nat) =>
      i < |ops| && ops[i].user == user && TakesTurn(env, ops[i]) ==> LastWordAt(env, ops, states, user, i)
  }

  lemma TurnExactly(env: Env, ops: seq<Op>, states: seq<State>, times: seq<int>, user: UserId, i: nat)
    requires env.Valid() && i < |ops| && |states| == |times| == |ops| + 1 && ops[i].user == user
    requires Sound(env, states[i]) && states[i + 1] == Next(env, states[i], ops[i])
    requires Fits(states[i], ops[i], times[i], times[i + 1])
    requires LastWords(env, states[i].Mem(user), Asserted(env, ops, user, i), times[i])
    ensures (TakesTurn(env, ops[i]) ==> LastWordAt(env, ops, states, user, i)) <==> HearsAll(env, states[i], ops[i])
  {
    if TakesTurn(env, ops[i]) {
      OwnTurnLastWords(env, states[i], ops[i], times[i], states[i + 1], Asserted(env, ops, user, i));
    } else {
      QuietStep(env, states[i], ops[i], states[i + 1]);
    }
  }

  /** The first of the user's turns to miss the last word is the first not to hear enough. */
  lemma {:induction false} NextTurnExactly(env: Env, ops: seq<Op>, states: seq<State>, outs: seq<Output>,
                                           times: seq<int>, user: UserId, i: nat)
    requires env.Valid() && IsRun(env, ops, states, outs) && IsTimed(ops, states, times)
    requires states[0] == Empty() && i < |ops| && ops[i].user == user && AllHear(env, ops, states, user, i)
    ensures LastWordsOf(env, ops, states, user)(i) <==> HearsAllOf(env, ops, states, user)(i)
  {
    RunLastWords(env, ops, states, outs, times, user, i);
    EmptySound(env);
    RunIsSound(env, ops, states, outs, times, i);
    assert Steps(env, states[i], ops[i], states[i + 1], outs[i]) && Fits(states[i], ops[i], times[i], times[i + 1]);
    TurnExactly(env, ops, states, times, user, i);
  }

  /**
   Over a whole run, last writer wins after every turn of a user if and only if what each of
   those turns says last contradicts no live record of the slot listed past the first 500.
   */
  lemma {:induction false} LastWriterWinsExactly(env: Env, ops: seq<Op>, states: seq<State>, outs: seq<Output>,
                                                 times: seq<int>, user: UserId, n: nat)
    requires env.Valid() && IsRun(env, ops, states, outs) && IsTimed(ops, states, times)
    requires states[0] == Empty() && n <= |ops|
    ensures TurnsHaveLastWord(env, ops, states, user, n) <==> AllHear(env, ops, states, user, n)
  {
    var kept, enough := LastWordsOf(env, ops, states, user), HearsAllOf(env, ops, states, user);
    forall i: nat | i < n && Until(enough, i)
      ensures kept(i) <==> enough(i)
    {
      if ops[i].user == user {
        NextTurnExactly(env, ops, states, outs, times, user, i);
      }
    }
    SameFailures(kept, enough, n);
  }

  /**
   Whenever a user's slot has a live record, it says what was last asserted for the slot: at
   any point of any run of turns, reads and deletes, and at any time thereafter. Only the
   user's own turns matter.
   */
  lemma {:induction false} LastWriterWins(env: Env, ops: seq<Op>, states: seq<State>, outs: seq<Output>,
                                          times: seq<int>, user: UserId, n: nat, later: int, id: MemoryId)
    requires env.Valid() && IsRun(env, ops, states, outs) && IsTimed(ops, states, times)
    requires states[0] == Empty() && n <= |ops| && times[n] <= later && AllHear(env, ops, states, user, n)
    requires var ns := states[n].Mem(user); id in ns && ns[id].IsActive(later) && IsSlot(ns[id].Slot())
    ensures var m := states[n].Mem(user)[id];
            && LastValue(env, Asserted(env, ops, user, n), m.Slot()) == Some(WritePolicy.NormValue(env, m.value))
            && SaysLast(env, Asserted(env, ops, user, n), m)
  {
    RunLastWords(env, ops, states, outs, times, user, n);
    LastWordsPersist(env, states[n].Mem(user), Asserted(env, ops, user, n), times[n], later);
    LastValueSaysLast(env, Asserted(env, ops, user, n), states[n].Mem(user)[id]);
  }

  /** In particular while each of the user's turns starts on at most 500 records. */
  lemma {:induction false} LastWriterWinsWithinCap(env: Env, ops: seq<Op>, states: seq<State>, outs: seq<Output>,
                                                   times: seq<int>, user: UserId, n: nat, later: int, id: MemoryId)
    requires env.Valid() && IsRun(env, ops, states, outs) && IsTimed(ops, states, times)
    requires states[0] == Empty() && n <= |ops| && times[n] <= later && SlotRuns.HasRoom(ops, states, user, n)
    requires var ns := states[n].Mem(user); id in ns && ns[id].IsActive(later) && IsSlot(ns[id].Slot())
    ensures var m := states[n].Mem(user)[id];
            && LastValue(env, Asserted(env, ops, user, n), m.Slot()) == Some(WritePolicy.NormValue(env, m.value))
            && SaysLast(env, Asserted(env, ops, user, n), m)
  {
    SlotRuns.RoomThroughout(env, ops, states, user, n);
    ReadingThroughout(env, ops, states, user, n);
    LastWriterWins(env, ops, states, outs, times, user, n, later, id);
  }

  // --------------------------------------------------------------- nothing is lost

  lemma ApplyKept(env: Env, ns: Namespace, facts: seq<CandidateFact>, text: string, who: WritePolicy.Author,
                  inp: WritePolicy.Inputs, since: int, slot: Slot)
    requires env.Valid() && Keyed(ns, who.user) && IsSlot(slot)
    requires inp.Timely(since) && inp.FreshFor(ns)
    requires IsKept(env, ns, facts, slot)
    ensures IsKept(env, WritePolicy.Apply(env, ns, text, who, inp).0, facts + AssertedIn(env, text, who.source), slot)
  {
    assert facts + [] == facts;
    match WritePolicy.TakeIn(env, text, who.source)
    case Ignored =>
    case Blocked(_) =>
    case Admitted(cs) => TurnKept(env, ns, facts, cs, who, inp, since, slot);
  }

  lemma StepKept(env: Env, user: UserId, w: State, op: Op, t: int, t': int, w': State, out: Output,
                 facts: seq<CandidateFact>, slot: Slot)
    requires env.Valid() && Sound(env, w) && Steps(env, w, op, w', out) && IsSlot(slot)
    requires Fits(w, op, t, t') && (op.user == user ==> !Forgets(op))
    requires IsKept(env, w.Mem(user), facts, slot)
    ensures IsKept(env, w'.Mem(user), facts + AssertedBy(env, op, user), slot)
  {
    assert facts + [] == facts;
    if op.user != user {
      StrangerStep(env, user, w, op, w', facts);
    } else if TakesTurn(env, op) {
      NothingRefused(env, w, op);
      TurnStep(env, w, op, w');
      ApplyKept(env, w.Mem(user), facts, TurnText(op), TurnAuthor(op), op.inputs, t, slot);
    } else {
      QuietStep(env, w, op, w');
    }
  }

  lemma {:induction false} NextKept(env: Env, ops: seq<Op>, states: seq<State>, outs: seq<Output>, times: seq<int>,
                                    user: UserId, slot: Slot, i: nat, facts: seq<CandidateFact>)
    requires env.Valid() && IsRun(env, ops, states, outs) && IsTimed(ops, states, times) && IsSlot(slot)
    requires states[0] == Empty() && i < |ops| && (ops[i].user == user ==> !Forgets(ops[i]))
    requires IsKept(env, states[i].Mem(user), facts, slot)
    ensures IsKept(env, states[i + 1].Mem(user), facts + AssertedBy(env, ops[i], user), slot)
  {
    EmptySound(env);
    RunIsSound(env, ops, states, outs, times, i);
    assert Steps(env, states[i], ops[i], states[i + 1], outs[i]) && Fits(states[i], ops[i], times[i], times[i + 1]);
    StepKept(env, user, states[i], ops[i], times[i], times[i + 1], states[i + 1], outs[i], facts, slot);
  }

  lemma {:induction false} RunKept(env: Env, ops: seq<Op>, states: seq<State>, outs: seq<Output>, times: seq<int>,
                                   user: UserId, slot: Slot, n: nat)
    requires env.Valid() && IsRun(env, ops, states, outs) && IsTimed(ops, states, times) && IsSlot(slot)
    requires states[0] == Empty() && n <= |ops| && ForgetsNothing(ops, user, n)
    ensures IsKept(env, states[n].Mem(user), Asserted(env, ops, user, n), slot)
  {
    var p := (w: State, facts: seq<CandidateFact>, i: nat) => IsKept(env, w.Mem(user), facts, slot);
    forall i | 0 <= i < n
      ensures Carries(env, ops, states, user, p, i)
    {
      forall facts | p(states[i], facts, i)
        ensures p(states[i + 1], facts + AssertedBy(env, ops[i], user), i + 1)
      {
        NextKept(env, ops, states, outs, times, user, slot, i, facts);
      }
    }
    RunCarries(env, ops, states, user, p, n);
  }

  /**
   If the user never asked to forget anything, an asserted slot always keeps an unsuperseded
   record of its last value, however many records there are; only expiry can silence it.
   */
  lemma {:induction false} NothingLost(env: Env, ops: seq<Op>, states: seq<State>, outs: seq<Output>, times: seq<int>,
                                       user: UserId, n: nat, slot: Slot) returns (id: MemoryId)
    requires env.Valid() && IsRun(env, ops, states, outs) && IsTimed(ops, states, times)
    requires states[0] == Empty() && n <= |ops| && ForgetsNothing(ops, user, n)
    requires IsSlot(slot) && LastValue(env, Asserted(env, ops, user, n), slot).Some?
    ensures var ns := states[n].Mem(user);
            && id in ns && ns[id].Slot() == slot
            && LastValue(env, Asserted(env, ops, user, n), slot) == Some(WritePolicy.NormValue(env, ns[id].value))
            && SaysLast(env, Asserted(env, ops, user, n), ns[id])
            && forall later :: ns[id].IsActive(later) <==> ns[id].expiresAt.None? || ns[id].expiresAt.value > later
  {
    RunKept(env, ops, states, outs, times, user, slot, n);
    id :| StandsFor(env, states[n].Mem(user), Asserted(env, ops, user, n), slot, id);
    LastValueSaysLast(env, Asserted(env, ops, user, n), states[n].Mem(user)[id]);
  }

  // ------------------------------------------------------------------ one live value

  /** No recall, at any point of any run in which the user's turns read enough, shows two records of one slot. */
  lemma {:induction false} RecallsAreConsistent(env: Env, ops: seq<Op>, states: seq<State>, outs: seq<Output>,
                                                times: seq<int>, user: UserId, n: nat, query: string,
                                                limit: Option<nat>, now: int)
    requires env.Valid() && IsRun(env, ops, states, outs) && IsTimed(ops, states, times)
    requires states[0] == Empty() && n <= |ops| && times[n] <= now
    requires SlotRuns.AllReadEnough(env, ops, states, user, n)
    ensures var rs := Reading.Recalls(env, states[n].Mem(user), query, limit, now);
            forall i, j | 0 <= i < j < |rs| && IsSlot(rs[i].memory.Slot()) :: rs[i].memory.Slot() != rs[j].memory.Slot()
  {
    var ns := states[n].Mem(user);
    SlotRuns.RunIsOneLive(env, ops, states, outs, times, user, n, now);
    var at := Reading.RecallsAreLive(env, ns, query, limit, now);
  }
}
