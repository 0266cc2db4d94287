/** No user's operations can be seen by another user. */
module Isolation {
  import opened Prelude
  import opened Records
  import opened Environment
  import opened Tables
  import opened ThreadIndex
  import opened ThreadKeys
  import opened World
  import opened Selection

  /** Two states look the same to one user. */
  ghost predicate SameFor(env: Env, user: UserId, v: State, w: State) {
    && v.Mem(user) == w.Mem(user)
    && v.Quar(user) == w.Quar(user)
    && SameIndexFor(env, user, v.index, w.index)
  }

  ghost predicate SameIndexFor(env: Env, user: UserId, v: Index, w: Index) {
    && Row(v.threads, user) == Row(w.threads, user)
    && forall t :: SameTranscript(v, w, Key(env, user, t))
  }

  ghost predicate SameTranscript(v: Index, w: Index, key: CheckpointKey) {
    && (key in v.transcripts <==> key in w.transcripts)
    && (key in v.transcripts ==> v.transcripts[key] == w.transcripts[key])
  }

  // ------------------------------------------------- other users change nothing

  lemma OtherChatIndex(env: Env, user: UserId, ix: Index, other: UserId, thread: ThreadId, at: int, human: Message,
                       reply: Message)
    requires env.DigestInjective() && other != user
    ensures SameIndexFor(env, user, ix, PerformAll(ix, ChatPlan(env, ix, other, thread, at, human, reply)))
  {
    ChatPlanResult(env, ix, other, thread, at, human, reply);
    forall t
      ensures SameTranscript(ix, PerformAll(ix, ChatPlan(env, ix, other, thread, at, human, reply)), Key(env, user, t))
    {
      KeysDistinct(env, user, t, other, thread);
    }
  }

  lemma OtherForgetIndex(env: Env, user: UserId, ix: Index, other: UserId, threads: seq<ThreadId>)
    requires env.DigestInjective() && other != user
    ensures SameIndexFor(env, user, ix, PerformAll(ix, ForgetPlan(env, other, threads)))
  {
    ForgetPlanForgets(env, ix, other, threads);
    forall t
      ensures SameTranscript(ix, PerformAll(ix, ForgetPlan(env, other, threads)), Key(env, user, t))
    {
      forall x | x in threads
        ensures Key(env, user, t) != Key(env, other, x)
      {
        KeysDistinct(env, user, t, other, x);
      }
    }
  }

  lemma SameTables(env: Env, user: UserId, w: State, w': State, other: UserId, ns: Namespace,
                   q: map<QuarantineKey, Quarantined>)
    requires other != user
    requires w'.memories == w.memories || w'.memories == Assign(w.memories, other, ns)
    requires w'.quarantine == w.quarantine || w'.quarantine == Assign(w.quarantine, other, q)
    requires SameIndexFor(env, user, w.index, w'.index)
    ensures SameFor(env, user, w, w')
  {
    RowAssign(w.memories, other, ns);
    RowAssign(w.quarantine, other, q);
  }

  lemma SameRefl(env: Env, user: UserId, w: State)
    ensures SameFor(env, user, w, w)
  {
  }

  /** An operation of one user leaves every other user's records, quarantine and transcripts alone. */
  lemma OthersUntouched(env: Env, user: UserId, w: State, op: Op, w': State)
    requires env.Valid() && op.user != user && w' == Next(env, w, op)
    ensures SameFor(env, user, w, w')
  {
    SameRefl(env, user, w);
    if !Refused(env, w, op) {
      match op
      case Chat(other, thread, message, inp) =>
        OtherChatIndex(env, user, w.index, other, thread, inp.startAt, Human(message), AI(ChatReply(env, w, op)));
        SameTables(env, user, w, w', other, WritePolicy.Apply(env, w.Mem(other), message, ChatAuthor(op), inp).0,
                   WritePolicy.ApplyQuarantine(env, w.Quar(other), message, ChatAuthor(op), inp.loadAt));
      case Observe(other, text, origin, source, inp) =>
        SameTables(env, user, w, w', other, WritePolicy.Apply(env, w.Mem(other), text, ObserveAuthor(op), inp).0,
                   WritePolicy.ApplyQuarantine(env, w.Quar(other), text, ObserveAuthor(op), inp.loadAt));
      case Ask(_, _, _, _) =>
      case History(_, _) =>
      case ForgetMemory(other, id) =>
        SameTables(env, user, w, w', other, w.Mem(other) - {id}, map[]);
      case ForgetThread(other, thread) =>
        OtherForgetIndex(env, user, w.index, other, [thread]);
        SameTables(env, user, w, w', other, w.Mem(other) - FromThread(w.Mem(other), thread), map[]);
      case ForgetUser(other) =>
        OtherForgetIndex(env, user, w.index, other, KnownThreads(env, w, other));
        SameTables(env, user, w, w', other, map[], map[]);
    }
  }

  // ------------------------------------------- one's own operations see only oneself

  lemma OwnChatIndex(env: Env, user: UserId, v: Index, w: Index, thread: ThreadId, at: int, human: Message,
                     reply: Message)
    requires SameIndexFor(env, user, v, w)
    ensures ChatPlan(env, v, user, thread, at, human, reply) == ChatPlan(env, w, user, thread, at, human, reply)
    ensures SameIndexFor(env, user, PerformAll(v, ChatPlan(env, v, user, thread, at, human, reply)),
                         PerformAll(w, ChatPlan(env, w, user, thread, at, human, reply)))
  {
    assert SameTranscript(v, w, Key(env, user, thread));
    var v' := PerformAll(v, ChatPlan(env, v, user, thread, at, human, reply));
    var w' := PerformAll(w, ChatPlan(env, w, user, thread, at, human, reply));
    ChatPlanResult(env, v, user, thread, at, human, reply);
    ChatPlanResult(env, w, user, thread, at, human, reply);
    forall t
      ensures SameTranscript(v', w', Key(env, user, t))
    {
      assert SameTranscript(v, w, Key(env, user, t));
    }
  }

  lemma OwnForgetIndex(env: Env, user: UserId, v: Index, w: Index, threads: seq<ThreadId>)
    requires SameIndexFor(env, user, v, w)
    ensures SameIndexFor(env, user, PerformAll(v, ForgetPlan(env, user, threads)),
                         PerformAll(w, ForgetPlan(env, user, threads)))
  {
    var v' := PerformAll(v, ForgetPlan(env, user, threads));
    var w' := PerformAll(w, ForgetPlan(env, user, threads));
    ForgetPlanForgets(env, v, user, threads);
    ForgetPlanForgets(env, w, user, threads);
    forall t
      ensures SameTranscript(v', w', Key(env, user, t))
    {
      assert SameTranscript(v, w, Key(env, user, t));
    }
  }

  lemma SameRefusal(env: Env, v: State, w: State, op: Op)
    requires SameFor(env, op.user, v, w)
    ensures Refused(env, v, op) == Refused(env, w, op)
  {
    forall t
      ensures IsLegacy(env, v.index, op.user, t) == IsLegacy(env, w.index, op.user, t)
    {
    }
  }

  lemma SameOwnRows(env: Env, user: UserId, v: State, w: State, v': State, w': State, ns: Namespace,
                    q: map<QuarantineKey, Quarantined>)
    requires SameFor(env, user, v, w)
    requires (v'.memories == v.memories && w'.memories == w.memories)
          || (v'.memories == Assign(v.memories, user, ns) && w'.memories == Assign(w.memories, user, ns))
    requires (v'.quarantine == v.quarantine && w'.quarantine == w.quarantine)
          || (v'.quarantine == Assign(v.quarantine, user, q) && w'.quarantine == Assign(w.quarantine, user, q))
    requires SameIndexFor(env, user, v'.index, w'.index)
    ensures SameFor(env, user, v', w')
  {
    RowAssign(v.memories, user, ns);
    RowAssign(w.memories, user, ns);
    RowAssign(v.quarantine, user, q);
    RowAssign(w.quarantine, user, q);
  }

  /** The reply a user gets depends on that user's part of the state alone. */
  lemma SameReply(env: Env, v: State, w: State, op: Op)
    requires env.Valid() && op.Chat? && SameFor(env, op.user, v, w)
    ensures ChatRecalls(env, v, op) == ChatRecalls(env, w, op)
    ensures ChatReply(env, v, op) == ChatReply(env, w, op)
  {
    assert SameTranscript(v.index, w.index, Key(env, op.user, op.thread));
  }

  lemma OwnTurn(env: Env, v: State, w: State, op: Op, v': State, w': State)
    requires env.Valid() && SameFor(env, op.user, v, w) && (op.Chat? || op.Observe?)
    requires !Refused(env, v, op) && !Refused(env, w, op)
    requires v' == Next(env, v, op) && w' == Next(env, w, op)
    ensures SameFor(env, op.user, v', w')
  {
    var user := op.user;
    match op
    case Chat(_, thread, message, inp) =>
      SameReply(env, v, w, op);
      OwnChatIndex(env, user, v.index, w.index, thread, inp.startAt, Human(message), AI(ChatReply(env, v, op)));
      SameOwnRows(env, user, v, w, v', w', WritePolicy.Apply(env, v.Mem(user), message, ChatAuthor(op), inp).0,
                  WritePolicy.ApplyQuarantine(env, v.Quar(user), message, ChatAuthor(op), inp.loadAt));
    case Observe(_, text, origin, source, inp) =>
      SameOwnRows(env, user, v, w, v', w', WritePolicy.Apply(env, v.Mem(user), text, ObserveAuthor(op), inp).0,
                  WritePolicy.ApplyQuarantine(env, v.Quar(user), text, ObserveAuthor(op), inp.loadAt));
  }

  lemma OwnForgetting(env: Env, v: State, w: State, op: Op, v': State, w': State)
    requires env.Valid() && SameFor(env, op.user, v, w) && (op.ForgetMemory? || op.ForgetThread? || op.ForgetUser?)
    requires !Refused(env, v, op) && !Refused(env, w, op)
    requires v' == Next(env, v, op) && w' == Next(env, w, op)
    ensures SameFor(env, op.user, v', w')
  {
    var user, ns := op.user, v.Mem(op.user);
    match op
    case ForgetMemory(_, id) => SameOwnRows(env, user, v, w, v', w', ns - {id}, map[]);
    case ForgetThread(_, thread) =>
      OwnForgetIndex(env, user, v.index, w.index, [thread]);
      SameOwnRows(env, user, v, w, v', w', ns - FromThread(ns, thread), map[]);
    case ForgetUser(_) =>
      OwnForgetIndex(env, user, v.index, w.index, KnownThreads(env, v, user));
      SameOwnRows(env, user, v, w, v', w', map[], map[]);
  }

  lemma OwnStep(env: Env, v: State, w: State, op: Op, v': State, w': State)
    requires env.Valid() && SameFor(env, op.user, v, w)
    requires v' == Next(env, v, op) && w' == Next(env, w, op)
    ensures SameFor(env, op.user, v', w')
  {
    SameRefusal(env, v, w, op);
    if Refused(env, v, op) || op.Ask? || op.History? {
    } else if op.Chat? || op.Observe? {
      OwnTurn(env, v, w, op, v', w');
    } else {
      OwnForgetting(env, v, w, op, v', w');
    }
  }

  lemma OwnResult(env: Env, v: State, w: State, op: Op)
    requires env.Valid() && SameFor(env, op.user, v, w)
    ensures Result(env, v, op) == Result(env, w, op)
  {
    SameRefusal(env, v, w, op);
    if op.Chat? {
      SameReply(env, v, w, op);
    } else if op.History? {
      assert SameTranscript(v.index, w.index, Key(env, op.user, op.thread));
    }
  }

  // ------------------------------------------------------------------ whole runs

  /** One of the user's own steps, taken from two states that look the same to the user. */
  lemma OwnSideBySide(env: Env, op: Op, w: State, w': State, out: Output, own: State, own': State, ownOut: Output)
    requires env.Valid() && SameFor(env, op.user, w, own)
    requires Steps(env, w, op, w', out) && Steps(env, own, op, own', ownOut)
    ensures SameFor(env, op.user, w', own') && out == ownOut
  {
    OwnStep(env, w, own, op, w', own');
    OwnResult(env, w, own, op);
  }

  /** A step of somebody else. */
  lemma OtherSideBySide(env: Env, user: UserId, op: Op, w: State, w': State, out: Output, own: State)
    requires env.Valid() && SameFor(env, user, w, own) && op.user != user
    requires Steps(env, w, op, w', out)
    ensures SameFor(env, user, w', own)
  {
    OthersUntouched(env, user, w, op, w');
    SameTransitive(env, user, w', w, own);
  }

  lemma SameTransitive(env: Env, user: UserId, w': State, w: State, own: State)
    requires SameFor(env, user, w, w') && SameFor(env, user, w, own)
    ensures SameFor(env, user, w', own)
  {
    forall t
      ensures SameTranscript(w'.index, own.index, Key(env, user, t))
    {
      assert SameTranscript(w.index, w'.index, Key(env, user, t));
      assert SameTranscript(w.index, own.index, Key(env, user, t));
    }
  }

  /**
   Erasing every other user's operations from a run leaves a user's records, quarantine,
   index and transcripts, and everything the user was ever given, exactly as they were.
   `own` are the user's operations; `at` is where they stand among all operations.
   */
  lemma NonInterference(env: Env, user: UserId, ops: seq<Op>, states: seq<State>, outs: seq<Output>, own: seq<Op>,
                        at: seq<nat>, ownStates: seq<State>, ownOuts: seq<Output>)
    requires env.Valid() && IsRun(env, ops, states, outs) && IsRun(env, own, ownStates, ownOuts)
    requires PicksAt((op: Op) => op.user == user, ops, own, at)
    requires states[0] == ownStates[0]
    ensures SameFor(env, user, states[|ops|], ownStates[|own|])
    ensures forall i :: 0 <= i < |own| ==> outs[at[i]] == ownOuts[i]
  {
    var keep := (op: Op) => op.user == user;
    var rel := (v: State, w: State) => SameFor(env, user, v, w);
    var same := (a: Output, b: Output) => a == b;
    forall i, j | 0 <= i < |ops| && 0 <= j < |ownStates|
      ensures DroppedKeeps(ops, keep, states, ownStates, rel, i, j)
    {
      if ops[i].user != user && SameFor(env, user, states[i], ownStates[j]) {
        assert Steps(env, states[i], ops[i], states[i + 1], outs[i]);
        OtherSideBySide(env, user, ops[i], states[i], states[i + 1], outs[i], ownStates[j]);
      }
    }
    forall i, j | 0 <= i < |ops| && 0 <= j < |own|
      ensures KeptKeeps(ops, keep, states, outs, own, ownStates, ownOuts, rel, same, i, j)
    {
      if ops[i].user == user && ops[i] == own[j] && SameFor(env, user, states[i], ownStates[j]) {
        assert Steps(env, states[i], ops[i], states[i + 1], outs[i]);
        assert Steps(env, ownStates[j], own[j], ownStates[j + 1], ownOuts[j]);
        OwnSideBySide(env, ops[i], states[i], states[i + 1], outs[i], ownStates[j], ownStates[j + 1], ownOuts[j]);
      }
    }
    SameRefl(env, user, states[0]);
    assert PicksAt(keep, ops, own, at);
    RunsStayRelated(ops, keep, states, outs, own, at, ownStates, ownOuts, rel, same, |ops|, |own|);
  }
}
