/** Content the agent merely read can never become, change or displace a memory. */
module Untrusted {
  import opened Prelude
  import opened Records
  import opened Environment
  import opened Tables
  import opened World
  import opened Selection
  import WritePolicy
  import History

  /** The states agree on everything but quarantine. */
  ghost predicate SameButQuarantine(v: State, w: State) {
    (forall user :: v.Mem(user) == w.Mem(user)) && v.index == w.index
  }

  /** Two operations gave the same, the count of quarantined items aside. */
  ghost predicate GaveSame(a: Output, b: Output) {
    if a.Forgot? && b.Forgot? then
      a.summary.memoriesDeleted == b.summary.memoriesDeleted && a.summary.threadsDeleted == b.summary.threadsDeleted
    else a == b
  }

  /** The agent reads what a tool returned or a document says. */
  ghost predicate IsUntrustedRead(op: Op) {
    op.Observe? && (op.source == TOOL || op.source == DOCUMENT)
  }

  lemma RowsAfter(v: State, w: State, v': State, w': State, user: UserId, ns: Namespace)
    requires forall u :: v.Mem(u) == w.Mem(u)
    requires (v'.memories == v.memories && w'.memories == w.memories)
          || (v'.memories == Assign(v.memories, user, ns) && w'.memories == Assign(w.memories, user, ns))
    ensures forall u :: v'.Mem(u) == w'.Mem(u)
  {
    RowAssign(v.memories, user, ns);
    RowAssign(w.memories, user, ns);
    forall u
      ensures v'.Mem(u) == w'.Mem(u)
    {
      assert v.Mem(u) == w.Mem(u);
    }
  }

  /** Reading untrusted content leaves memory and transcripts alone, whatever the text says. */
  lemma UntrustedReadIsInert(env: Env, w: State, op: Op, w': State, out: Output)
    requires env.Valid() && IsUntrustedRead(op) && Steps(env, w, op, w', out)
    ensures SameButQuarantine(w, w')
    ensures out.Observed? && out.report.written == []
    ensures forall d :: d in out.report.decisions ==> d.op == QUARANTINE
  {
    History.UntrustedApply(env, w.Mem(op.user), op.text, ObserveAuthor(op), op.inputs,
                           WritePolicy.Apply(env, w.Mem(op.user), op.text, ObserveAuthor(op), op.inputs));
    RowAssign(w.memories, op.user, w.Mem(op.user));
  }

  lemma SameResults(env: Env, op: Op, v: State, w: State)
    requires env.Valid() && SameButQuarantine(v, w)
    ensures Refused(env, v, op) == Refused(env, w, op)
    ensures GaveSame(Result(env, v, op), Result(env, w, op))
  {
    assert v.Mem(op.user) == w.Mem(op.user);
  }

  lemma TurnsStayAlike(env: Env, op: Op, v: State, v': State, w: State, w': State)
    requires env.Valid() && SameButQuarantine(v, w) && (op.Chat? || op.Observe?)
    requires !Refused(env, v, op) && !Refused(env, w, op) && v' == Next(env, v, op) && w' == Next(env, w, op)
    ensures SameButQuarantine(v', w')
  {
    var user := op.user;
    assert v.Mem(user) == w.Mem(user);
    match op
    case Chat(_, _, message, inp) =>
      RowsAfter(v, w, v', w', user, WritePolicy.Apply(env, v.Mem(user), message, ChatAuthor(op), inp).0);
    case Observe(_, text, _, _, inp) =>
      RowsAfter(v, w, v', w', user, WritePolicy.Apply(env, v.Mem(user), text, ObserveAuthor(op), inp).0);
  }

  lemma ForgettingStaysAlike(env: Env, op: Op, v: State, v': State, w: State, w': State)
    requires env.Valid() && SameButQuarantine(v, w) && (op.ForgetMemory? || op.ForgetThread? || op.ForgetUser?)
    requires !Refused(env, v, op) && !Refused(env, w, op) && v' == Next(env, v, op) && w' == Next(env, w, op)
    ensures SameButQuarantine(v', w')
  {
    var user, ns := op.user, v.Mem(op.user);
    assert ns == w.Mem(user);
    match op
    case ForgetMemory(_, id) => RowsAfter(v, w, v', w', user, ns - {id});
    case ForgetThread(_, thread) => RowsAfter(v, w, v', w', user, ns - FromThread(ns, thread));
    case ForgetUser(_) => RowsAfter(v, w, v', w', user, map[]);
  }

  /** Every other operation gives the same result and keeps the states alike. */
  lemma KeptSideBySide(env: Env, op: Op, v: State, v': State, out: Output, w: State, w': State, out': Output)
    requires env.Valid() && SameButQuarantine(v, w)
    requires Steps(env, v, op, v', out) && Steps(env, w, op, w', out')
    ensures SameButQuarantine(v', w') && GaveSame(out, out')
  {
    SameResults(env, op, v, w);
    if Refused(env, v, op) || op.Ask? || op.History? {
    } else if op.Chat? || op.Observe? {
      TurnsStayAlike(env, op, v, v', w, w');
    } else {
      ForgettingStaysAlike(env, op, v, v', w, w');
    }
  }

  lemma InertSideBySide(env: Env, op: Op, v: State, v': State, out: Output, w: State)
    requires env.Valid() && SameButQuarantine(v, w) && IsUntrustedRead(op)
    requires Steps(env, v, op, v', out)
    ensures SameButQuarantine(v', w)
  {
    UntrustedReadIsInert(env, v, op, v', out);
    forall u
      ensures v'.Mem(u) == w.Mem(u)
    {
      assert v.Mem(u) == w.Mem(u) && v.Mem(u) == v'.Mem(u);
    }
  }

  /**
   Deleting every tool and document observation from a run changes no record, no transcript,
   no decision and no recall, for any extractor and any text; only quarantine tells. `kept`
   are the operations that remain; `at` is where they stand among all operations.
   */
  lemma Purge(env: Env, ops: seq<Op>, states: seq<State>, outs: seq<Output>, kept: seq<Op>, at: seq<nat>,
              keptStates: seq<State>, keptOuts: seq<Output>)
    requires env.Valid() && IsRun(env, ops, states, outs) && IsRun(env, kept, keptStates, keptOuts)
    requires PicksAt((op: Op) => !IsUntrustedRead(op), ops, kept, at)
    requires states[0] == keptStates[0]
    ensures SameButQuarantine(states[|ops|], keptStates[|kept|])
    ensures forall i :: 0 <= i < |kept| ==> GaveSame(outs[at[i]], keptOuts[i])
  {
    var keep := (op: Op) => !IsUntrustedRead(op);
    var rel := (v: State, w: State) => SameButQuarantine(v, w);
    var same := (a: Output, b: Output) => GaveSame(a, b);
    forall i, j | 0 <= i < |ops| && 0 <= j < |keptStates|
      ensures DroppedKeeps(ops, keep, states, keptStates, rel, i, j)
    {
      if IsUntrustedRead(ops[i]) && SameButQuarantine(states[i], keptStates[j]) {
        assert Steps(env, states[i], ops[i], states[i + 1], outs[i]);
        InertSideBySide(env, ops[i], states[i], states[i + 1], outs[i], keptStates[j]);
      }
    }
    forall i, j | 0 <= i < |ops| && 0 <= j < |kept|
      ensures KeptKeeps(ops, keep, states, outs, kept, keptStates, keptOuts, rel, same, i, j)
    {
      if !IsUntrustedRead(ops[i]) && ops[i] == kept[j] && SameButQuarantine(states[i], keptStates[j]) {
        assert Steps(env, states[i], ops[i], states[i + 1], outs[i]);
        assert Steps(env, keptStates[j], kept[j], keptStates[j + 1], keptOuts[j]);
        KeptSideBySide(env, ops[i], states[i], states[i + 1], outs[i], keptStates[j], keptStates[j + 1], keptOuts[j]);
      }
    }
    assert PicksAt(keep, ops, kept, at);
    RunsStayRelated(ops, keep, states, outs, kept, at, keptStates, keptOuts, rel, same, |ops|, |kept|);
  }
}
