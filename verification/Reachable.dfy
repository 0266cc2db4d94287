/** What holds in every state the agent can reach. */
module Reachable {
  import opened Records
  import opened Environment
  import opened Tables
  import opened ThreadIndex
  import opened World
  import opened TurnInvariants
  import WritePolicy
  import History

  ghost predicate Writes(op: Op) {
    op.Chat? || op.Observe?
  }

  /** A writing operation draws its clock readings after time t and ids new to its user. */
  ghost predicate Fits(w: State, op: Op, t: int, t': int) {
    && t <= t'
    && (Writes(op) ==>
          op.inputs.Timely(t) && op.inputs.doneAt <= t' && op.inputs.FreshFor(w.Mem(op.user)))
  }

  /** times[n] is the time once the first n operations are done. */
  ghost predicate IsTimed(ops: seq<Op>, states: seq<State>, times: seq<int>)
    requires |states| == |ops| + 1
  {
    && |times| == |states|
    && forall n :: 0 <= n < |ops| ==> Fits(states[n], ops[n], times[n], times[n + 1])
  }

  ghost predicate AllTrusted(ns: Namespace) {
    forall id :: id in ns ==> IsTrusted(ns[id].source)
  }

  ghost predicate NoLegacy(env: Env, ix: Index) {
    forall u, t :: !IsLegacy(env, ix, u, t)
  }

  /** Records are well kept and vouched for, and no transcript escapes the index. */
  ghost predicate Sound(env: Env, w: State) {
    && (forall u :: Keyed(w.Mem(u), u) && AllTrusted(w.Mem(u)))
    && Indexed(env, w.index)
    && NoLegacy(env, w.index)
  }

  lemma EmptySound(env: Env)
    ensures Sound(env, Empty())
  {
  }

  // ----------------------------------------------------------------- the records

  lemma RowStaysSound(w: State, w': State, user: UserId, ns: Namespace)
    requires forall u :: Keyed(w.Mem(u), u) && AllTrusted(w.Mem(u))
    requires Keyed(ns, user) && AllTrusted(ns)
    requires w'.memories == w.memories || w'.memories == Assign(w.memories, user, ns)
    ensures forall u :: Keyed(w'.Mem(u), u) && AllTrusted(w'.Mem(u))
  {
    RowAssign(w.memories, user, ns);
    forall u
      ensures Keyed(w'.Mem(u), u) && AllTrusted(w'.Mem(u))
    {
      assert Keyed(w.Mem(u), u) && AllTrusted(w.Mem(u));
    }
  }

  lemma ApplyStaysSound(env: Env, ns: Namespace, text: string, who: WritePolicy.Author, inp: WritePolicy.Inputs,
                        since: int)
    requires env.Valid() && Keyed(ns, who.user) && AllTrusted(ns)
    requires inp.Timely(since) && inp.FreshFor(ns)
    ensures var ns' := WritePolicy.Apply(env, ns, text, who, inp).0;
            Keyed(ns', who.user) && AllTrusted(ns')
  {
    History.TurnExtends(env, ns, text, who, inp, since);
    var ns' := WritePolicy.Apply(env, ns, text, who, inp).0;
    forall id | id in ns'
      ensures IsTrusted(ns'[id].source)
    {
      if id in ns {
        assert History.Evolves(ns[id], ns'[id]);
      }
    }
  }

  lemma StepKeepsRecords(env: Env, w: State, op: Op, t: int, t': int, w': State)
    requires env.Valid() && w' == Next(env, w, op) && Fits(w, op, t, t')
    requires forall u :: Keyed(w.Mem(u), u) && AllTrusted(w.Mem(u))
    ensures forall u :: Keyed(w'.Mem(u), u) && AllTrusted(w'.Mem(u))
  {
    var user := op.user;
    assert Keyed(w.Mem(user), user) && AllTrusted(w.Mem(user));
    if !Refused(env, w, op) {
      match op
      case Chat(_, _, message, inp) =>
        ApplyStaysSound(env, w.Mem(user), message, ChatAuthor(op), inp, t);
        RowStaysSound(w, w', user, WritePolicy.Apply(env, w.Mem(user), message, ChatAuthor(op), inp).0);
      case Observe(_, text, _, _, inp) =>
        ApplyStaysSound(env, w.Mem(user), text, ObserveAuthor(op), inp, t);
        RowStaysSound(w, w', user, WritePolicy.Apply(env, w.Mem(user), text, ObserveAuthor(op), inp).0);
      case Ask(_, _, _, _) =>
      case History(_, _) =>
      case ForgetMemory(_, id) => RowStaysSound(w, w', user, w.Mem(user) - {id});
      case ForgetThread(_, thread) => RowStaysSound(w, w', user, w.Mem(user) - FromThread(w.Mem(user), thread));
      case ForgetUser(_) => RowStaysSound(w, w', user, map[]);
    }
  }

  // ------------------------------------------------------------------- the index

  lemma ChatKeepsIndex(env: Env, ix: Index, user: UserId, thread: ThreadId, at: int, human: Message, reply: Message)
    requires env.DigestInjective() && Indexed(env, ix) && NoLegacy(env, ix)
    ensures var ix' := PerformAll(ix, ChatPlan(env, ix, user, thread, at, human, reply));
            Indexed(env, ix') && NoLegacy(env, ix')
  {
    var plan := ChatPlan(env, ix, user, thread, at, human, reply);
    var ix' := PerformAll(ix, plan);
    ChatKeepsIndexed(env, ix, user, thread, at, human, reply, |plan|);
    assert plan[..|plan|] == plan;
    ChatPlanResult(env, ix, user, thread, at, human, reply);
    forall u, t
      ensures !IsLegacy(env, ix', u, t)
    {
      assert !IsLegacy(env, ix, u, t);
    }
  }

  lemma ForgetKeepsIndex(env: Env, ix: Index, user: UserId, threads: seq<ThreadId>)
    requires Indexed(env, ix) && NoLegacy(env, ix)
    ensures var ix' := PerformAll(ix, ForgetPlan(env, user, threads));
            Indexed(env, ix') && NoLegacy(env, ix')
  {
    var plan := ForgetPlan(env, user, threads);
    var ix' := PerformAll(ix, plan);
    ForgetKeepsIndexed(env, ix, user, threads, |plan|);
    assert plan[..|plan|] == plan;
    ForgetPlanForgets(env, ix, user, threads);
    forall u, t
      ensures !IsLegacy(env, ix', u, t)
    {
      assert !IsLegacy(env, ix, u, t);
    }
  }

  lemma StepKeepsIndex(env: Env, w: State, op: Op, w': State)
    requires env.Valid() && w' == Next(env, w, op)
    requires Indexed(env, w.index) && NoLegacy(env, w.index)
    ensures Indexed(env, w'.index) && NoLegacy(env, w'.index)
  {
    if !Refused(env, w, op) {
      match op
      case Chat(user, thread, message, inp) =>
        ChatKeepsIndex(env, w.index, user, thread, inp.startAt, Human(message), AI(ChatReply(env, w, op)));
      case ForgetThread(user, thread) => ForgetKeepsIndex(env, w.index, user, [thread]);
      case ForgetUser(user) => ForgetKeepsIndex(env, w.index, user, KnownThreads(env, w, user));
      case _ =>
    }
  }

  // --------------------------------------------------------------------- the run

  ghost predicate Keeps(states: seq<State>, inv: (State, nat) -> bool, i: nat)
    requires i + 1 < |states|
  {
    inv(states[i], i) ==> inv(states[i + 1], i + 1)
  }

  /** What every single step keeps holds along the whole run. */
  lemma {:induction false} RunKeeps(states: seq<State>, inv: (State, nat) -> bool, n: nat)
    requires n < |states| && inv(states[0], 0)
    requires forall i :: 0 <= i < n ==> Keeps(states, inv, i)
    ensures inv(states[n], n)
  {
    if n == 0 {
    } else {
      RunKeeps(states, inv, n - 1);
      assert Keeps(states, inv, n - 1);
    }
  }

  /** Every reachable state is sound: in particular every stored memory has a trusted source. */
  lemma RunIsSound(env: Env, ops: seq<Op>, states: seq<State>, outs: seq<Output>, times: seq<int>, n: nat)
    requires env.Valid() && IsRun(env, ops, states, outs) && IsTimed(ops, states, times)
    requires Sound(env, states[0]) && n < |states|
    ensures Sound(env, states[n])
  {
    var inv := (w: State, i: nat) => Sound(env, w);
    forall i | 0 <= i < n
      ensures Keeps(states, inv, i)
    {
      if Sound(env, states[i]) {
        assert Steps(env, states[i], ops[i], states[i + 1], outs[i]);
        assert Fits(states[i], ops[i], times[i], times[i + 1]);
        StepKeepsRecords(env, states[i], ops[i], times[i], times[i + 1], states[i + 1]);
        StepKeepsIndex(env, states[i], ops[i], states[i + 1]);
      }
    }
    RunKeeps(states, inv, n);
  }

  /** Without legacy entries no operation is ever refused. */
  lemma NothingRefused(env: Env, w: State, op: Op)
    requires NoLegacy(env, w.index)
    ensures !Refused(env, w, op)
  {
  }
}
