/** Forgetting on request: complete, exact, and safe to interrupt. */
module Erasure {
  import opened Prelude
  import opened Records
  import opened Environment
  import opened Tables
  import opened ThreadIndex
  import opened ThreadKeys
  import opened World
  import opened Reachable
  import Isolation

  // ---------------------------------------------------------------- thread names

  ghost predicate InOrder(xs: seq<string>) {
    forall i, j :: 0 <= i < j < |xs| ==> Precedes(xs[i], xs[j])
  }

  lemma {:induction false} PrecedesTotal(a: string, b: string)
    ensures Precedes(a, b) || Precedes(b, a)
  {
    if a == "" || b == "" || a[0] != b[0] {
    } else {
      PrecedesTotal(a[1..], b[1..]);
    }
  }

  lemma {:induction false} PrecedesTransitive(a: string, b: string, c: string)
    requires Precedes(a, b) && Precedes(b, c)
    ensures Precedes(a, c)
  {
    if a == "" || b == "" || c == "" || a[0] != b[0] || b[0] != c[0] {
    } else {
      PrecedesTransitive(a[1..], b[1..], c[1..]);
    }
  }

  lemma {:induction false} InsertSorts(x: string, xs: seq<string>)
    requires InOrder(xs)
    ensures InOrder(Insert(x, xs)) && multiset(Insert(x, xs)) == multiset(xs) + multiset{x}
  {
    if xs == [] {
    } else if Precedes(x, xs[0]) {
      forall i | 0 <= i < |xs|
        ensures Precedes(x, xs[i])
      {
        if i > 0 {
          PrecedesTransitive(x, xs[0], xs[i]);
        }
      }
      assert Insert(x, xs) == [x] + xs;
    } else {
      assert xs == [xs[0]] + xs[1..];
      InsertSorts(x, xs[1..]);
      PrecedesTotal(x, xs[0]);
      var rest := Insert(x, xs[1..]);
      forall i | 0 <= i < |rest|
        ensures Precedes(xs[0], rest[i])
      {
        assert rest[i] in multiset(rest);
        assert rest[i] == x || rest[i] in xs[1..];
      }
    }
  }

  /** The list of known threads is the index's keys in order, each as often as listed. */
  lemma {:induction false} SortedSorts(xs: seq<string>)
    ensures InOrder(Sorted(xs)) && multiset(Sorted(xs)) == multiset(xs)
  {
    if xs == [] {
    } else {
      SortedSorts(xs[1..]);
      InsertSorts(xs[0], Sorted(xs[1..]));
      assert xs == [xs[0]] + xs[1..];
    }
  }

  lemma DistinctMultiset(xs: seq<string>, ys: seq<string>)
    requires Distinct(xs) && multiset(xs) == multiset(ys)
    ensures Distinct(ys)
  {
    forall i, j | 0 <= i < j < |ys|
      ensures ys[i] != ys[j]
    {
      if ys[i] == ys[j] {
        TwiceCounts(ys, i, j);
        OnceCounts(xs, ys[i]);
      }
    }
  }

  lemma TwiceCounts(ys: seq<string>, i: nat, j: nat)
    requires i < j < |ys| && ys[i] == ys[j]
    ensures multiset(ys)[ys[i]] >= 2
  {
    var a, b, c := ys[..i], ys[i + 1..j], ys[j + 1..];
    assert ys == a + [ys[i]] + b + [ys[j]] + c;
  }

  lemma {:induction false} OnceCounts(xs: seq<string>, x: string)
    requires Distinct(xs)
    ensures multiset(xs)[x] <= 1
  {
    if xs == [] {
    } else {
      var init, last := xs[..|xs| - 1], xs[|xs| - 1];
      assert xs == init + [last];
      OnceCounts(init, x);
      if x == last {
        assert x !in init;
        assert x !in multiset(init);
      }
    }
  }

  lemma KnownThreadsEnumerate(env: Env, w: State, user: UserId)
    requires env.ListsAll()
    ensures Enumerates(KnownThreads(env, w, user), w.Threads(user).Keys) && InOrder(KnownThreads(env, w, user))
  {
    var listed := env.listThreads(w.Threads(user));
    assert Enumerates(listed, w.Threads(user).Keys);
    SortedSorts(listed);
    DistinctMultiset(listed, Sorted(listed));
    forall t
      ensures t in Sorted(listed) <==> t in listed
    {
      assert t in multiset(Sorted(listed)) <==> t in multiset(listed);
    }
  }

  // --------------------------------------------------------------- "forget me"

  /** Nothing of the user is left: no record, no quarantined text, no entry, no transcript. */
  ghost predicate Gone(env: Env, w: State, user: UserId) {
    && w.Mem(user) == map[] && w.Quar(user) == map[] && w.Threads(user) == map[]
    && forall t :: Key(env, user, t) !in w.index.transcripts
  }

  /**
   Forgetting a user is refused, with nothing changed, exactly when a legacy conversation
   stands in the index; otherwise it leaves nothing of the user, touches nobody else, and
   reports exact counts and every thread once, in order.
   */
  lemma ForgetUserErases(env: Env, w: State, user: UserId, w': State, out: Output)
    requires env.Valid() && Indexed(env, w.index)
    requires Steps(env, w, ForgetUser(user), w', out)
    ensures out.LegacyThread? <==> HasLegacy(env, w, user)
    ensures out.LegacyThread? ==> w' == w
    ensures !out.LegacyThread? ==>
              && out.Forgot?
              && Gone(env, w', user)
              && out.summary.memoriesDeleted == |w.Mem(user)|
              && out.summary.quarantineDeleted == |w.Quar(user)|
              && Enumerates(out.summary.threadsDeleted, w.Threads(user).Keys)
              && InOrder(out.summary.threadsDeleted)
    ensures forall other :: other != user ==> Isolation.SameFor(env, other, w, w')
  {
    var threads := KnownThreads(env, w, user);
    KnownThreadsEnumerate(env, w, user);
    forall other | other != user
      ensures Isolation.SameFor(env, other, w, w')
    {
      Isolation.OthersUntouched(env, other, w, ForgetUser(user), w');
    }
    if !HasLegacy(env, w, user) {
      RowAssign(w.memories, user, map[]);
      RowAssign(w.quarantine, user, map[]);
      ForgetPlanForgets(env, w.index, user, threads);
      NothingLeft(env, w.index, w'.index, user, threads);
    }
  }

  lemma NothingLeft(env: Env, ix: Index, ix': Index, user: UserId, threads: seq<ThreadId>)
    requires Indexed(env, ix) && ForgetsExactly(env, ix, ix', user, threads)
    requires forall t :: t in threads <==> t in Row(ix.threads, user)
    ensures Row(ix'.threads, user) == map[]
    ensures forall t :: Key(env, user, t) !in ix'.transcripts
  {
    forall t
      ensures Key(env, user, t) !in ix'.transcripts
    {
      if Key(env, user, t) in ix.transcripts {
        assert Listed(env, ix, user, t);
      }
    }
  }

  /** What was learned in the conversation is gone, and only that. */
  ghost predicate RecordsErased(ns: Namespace, ns': Namespace, thread: ThreadId) {
    && (forall id :: id in ns' <==> id in ns && ns[id].thread != Some(thread))
    && (forall id :: id in ns' ==> ns'[id] == ns[id])
  }

  /** The conversation's transcript, its entry and what was learned in it are gone, and only they. */
  ghost predicate ThreadErased(env: Env, w: State, w': State, user: UserId, thread: ThreadId) {
    && RecordsErased(w.Mem(user), w'.Mem(user), thread)
    && w'.Quar(user) == w.Quar(user)
    && w'.Threads(user) == w.Threads(user) - {thread}
    && w'.index.transcripts == w.index.transcripts - {Key(env, user, thread)}
  }

  lemma ErasesRecords(w: State, w': State, user: UserId, thread: ThreadId)
    requires w'.memories == Assign(w.memories, user, w.Mem(user) - FromThread(w.Mem(user), thread))
    ensures RecordsErased(w.Mem(user), w'.Mem(user), thread)
    ensures |FromThread(w.Mem(user), thread)| == |w.Mem(user)| - |w'.Mem(user)|
  {
    RemovedCount(w.Mem(user), thread);
    RowAssign(w.memories, user, w.Mem(user) - FromThread(w.Mem(user), thread));
  }

  /** What a step that forgets a conversation amounts to. */
  ghost predicate ForgetThreadStep(env: Env, w: State, user: UserId, thread: ThreadId, w': State, out: Output) {
    if IsLegacy(env, w.index, user, thread) then w' == w && out == LegacyThread
    else
      && w'.memories == Assign(w.memories, user, w.Mem(user) - FromThread(w.Mem(user), thread))
      && w'.quarantine == w.quarantine
      && w'.index == PerformAll(w.index, ForgetPlan(env, user, [thread]))
      && out == Forgot(ForgetReport(|FromThread(w.Mem(user), thread)|, 0, [thread]))
  }

  lemma ForgetThreadSteps(env: Env, w: State, user: UserId, thread: ThreadId)
    requires env.Valid()
    ensures ForgetThreadStep(env, w, user, thread, Next(env, w, ForgetThread(user, thread)),
                             Result(env, w, ForgetThread(user, thread)))
  {
  }

  lemma ForgetThreadErasesStep(env: Env, w: State, user: UserId, thread: ThreadId, w': State, out: Output)
    requires ForgetThreadStep(env, w, user, thread, w', out)
    ensures out.LegacyThread? <==> IsLegacy(env, w.index, user, thread)
    ensures out.LegacyThread? ==> w' == w
    ensures !out.LegacyThread? ==>
              && out == Forgot(ForgetReport(|w.Mem(user)| - |w'.Mem(user)|, 0, [thread]))
              && ThreadErased(env, w, w', user, thread)
  {
    if !IsLegacy(env, w.index, user, thread) {
      ErasesRecords(w, w', user, thread);
      PlanForgetsThread(env, w.index, w'.index, user, thread);
    }
  }

  /**
   Forgetting one conversation is refused, with nothing changed, exactly when it is a legacy
   one; otherwise it erases that conversation, touches nobody else, and counts exactly.
   */
  lemma ForgetThreadErases(env: Env, w: State, user: UserId, thread: ThreadId, w': State, out: Output)
    requires env.Valid()
    requires w' == Next(env, w, ForgetThread(user, thread)) && out == Result(env, w, ForgetThread(user, thread))
    ensures out.LegacyThread? <==> IsLegacy(env, w.index, user, thread)
    ensures out.LegacyThread? ==> w' == w
    ensures !out.LegacyThread? ==>
              && out == Forgot(ForgetReport(|w.Mem(user)| - |w'.Mem(user)|, 0, [thread]))
              && ThreadErased(env, w, w', user, thread)
    ensures forall other :: other != user ==> Isolation.SameFor(env, other, w, w')
  {
    forall other | other != user
      ensures Isolation.SameFor(env, other, w, w')
    {
      Isolation.OthersUntouched(env, other, w, ForgetThread(user, thread), w');
    }
    ForgetThreadSteps(env, w, user, thread);
    ForgetThreadErasesStep(env, w, user, thread, w', out);
  }

  lemma RemovedCount(ns: Namespace, thread: ThreadId)
    ensures var gone := FromThread(ns, thread);
            && |gone| == |ns| - |ns - gone|
            && forall id :: id in ns - gone <==> id in ns && ns[id].thread != Some(thread)
  {
    var gone := FromThread(ns, thread);
    assert (ns - gone).Keys == ns.Keys - gone;
    assert |ns| == |ns.Keys| && |ns - gone| == |(ns - gone).Keys|;
  }

  lemma OneThreadForgotten(env: Env, ix: Index, ix': Index, user: UserId, thread: ThreadId, threads: seq<ThreadId>)
    requires threads == [thread] && ForgetsExactly(env, ix, ix', user, threads)
    ensures Row(ix'.threads, user) == Row(ix.threads, user) - {thread}
    ensures ix'.transcripts == ix.transcripts - {Key(env, user, thread)}
  {
    assert (set t | t in threads) == {thread};
    forall key
      ensures key in ix'.transcripts <==> key in ix.transcripts && key != Key(env, user, thread)
    {
      assert threads[0] in threads;
      assert forall t :: t in threads ==> t == thread;
    }
  }

  lemma PlanForgetsThread(env: Env, ix: Index, ix': Index, user: UserId, thread: ThreadId)
    requires ix' == PerformAll(ix, ForgetPlan(env, user, [thread]))
    ensures Row(ix'.threads, user) == Row(ix.threads, user) - {thread}
    ensures ix'.transcripts == ix.transcripts - {Key(env, user, thread)}
  {
    var threads := [thread];
    ForgetPlanForgets(env, ix, user, threads);
    OneThreadForgotten(env, ix, ix', user, thread, threads);
  }

  // ------------------------------------------------------ between any two effects

  /** What an operation does to index and transcripts, effect by effect. */
  function EffectsOf(env: Env, w: State, op: Op): seq<Effect>
    requires env.Valid()
  {
    if Refused(env, w, op) then []
    else
      match op
      case Chat(_, _, _, _) => ChatEffects(env, w, op)
      case ForgetThread(user, thread) => ForgetPlan(env, user, [thread])
      case ForgetUser(user) => ForgetPlan(env, user, KnownThreads(env, w, user))
      case _ => []
  }

  /** The operation's step is taken, and its effects join the journal in their order. */
  ghost predicate Takes(env: Env, w: State, op: Op, w': State, out: Output, before: seq<Effect>, after: seq<Effect>)
    requires env.Valid()
  {
    Steps(env, w, op, w', out) && after == before + EffectsOf(env, w, op)
  }

  /** The effects, all made, are the step. */
  lemma EffectsMakeStep(env: Env, w: State, op: Op)
    requires env.Valid()
    ensures Next(env, w, op).index == PerformAll(w.index, EffectsOf(env, w, op))
  {
  }

  lemma OpSafeToInterrupt(env: Env, w: State, op: Op, k: nat)
    requires env.Valid() && Indexed(env, w.index) && k <= |EffectsOf(env, w, op)|
    ensures Indexed(env, PerformAll(w.index, EffectsOf(env, w, op)[..k]))
  {
    if !Refused(env, w, op) {
      match op
      case Chat(user, thread, message, inp) =>
        ChatKeepsIndexed(env, w.index, user, thread, inp.startAt, Human(message), AI(ChatReply(env, w, op)), k);
      case ForgetThread(user, thread) => ForgetKeepsIndexed(env, w.index, user, [thread], k);
      case ForgetUser(user) => ForgetKeepsIndexed(env, w.index, user, KnownThreads(env, w, user), k);
      case _ =>
    }
  }

  /**
   At every point of every run, even between two effects of one operation, each transcript
   has an index entry under its owner that carries its key: no erasure can miss it. All its
   effects together are what the operation does to index and transcripts.
   */
  lemma AlwaysIndexed(env: Env, ops: seq<Op>, states: seq<State>, outs: seq<Output>, times: seq<int>, n: nat, k: nat)
    requires env.Valid() && IsRun(env, ops, states, outs) && IsTimed(ops, states, times)
    requires Sound(env, states[0]) && n < |ops| && k <= |EffectsOf(env, states[n], ops[n])|
    ensures var mid := PerformAll(states[n].index, EffectsOf(env, states[n], ops[n])[..k]);
            && Indexed(env, mid)
            && (k == |EffectsOf(env, states[n], ops[n])| ==> mid == states[n + 1].index)
  {
    RunIsSound(env, ops, states, outs, times, n);
    OpSafeToInterrupt(env, states[n], ops[n], k);
    assert Steps(env, states[n], ops[n], states[n + 1], outs[n]);
    EffectsMakeStep(env, states[n], ops[n]);
    var es := EffectsOf(env, states[n], ops[n]);
    assert es[..|es|] == es;
  }

  // --------------------------------------------------------- broken-off operations

  /** No effect enters an index entry without its own key. */
  ghost predicate Tidy(env: Env, es: seq<Effect>) {
    forall i :: 0 <= i < |es| && es[i].Enter? ==> es[i].entry.checkpoint == Some(Key(env, es[i].user, es[i].thread))
  }

  lemma PlansAreTidy(env: Env, w: State, op: Op)
    requires env.Valid()
    ensures Tidy(env, EffectsOf(env, w, op))
  {
    match op
    case ForgetThread(user, thread) => ForgetIsTidy(env, user, [thread]);
    case ForgetUser(user) => ForgetIsTidy(env, user, KnownThreads(env, w, user));
    case _ =>
  }

  lemma {:induction false} ForgetIsTidy(env: Env, user: UserId, threads: seq<ThreadId>)
    ensures Tidy(env, ForgetPlan(env, user, threads))
  {
    if threads == [] {
    } else {
      ForgetIsTidy(env, user, threads[..|threads| - 1]);
    }
  }

  lemma EffectKeepsNoLegacy(env: Env, ix: Index, e: Effect)
    requires NoLegacy(env, ix) && Tidy(env, [e])
    ensures NoLegacy(env, ThreadIndex.Perform(ix, e))
  {
    assert [e][0] == e;
    var ix' := ThreadIndex.Perform(ix, e);
    if e.Enter? {
      RowAssign(ix.threads, e.user, Row(ix.threads, e.user)[e.thread := e.entry]);
    } else if e.Leave? {
      RowAssign(ix.threads, e.user, Row(ix.threads, e.user) - {e.thread});
    }
    forall u, t
      ensures !IsLegacy(env, ix', u, t)
    {
      assert !IsLegacy(env, ix, u, t);
    }
  }

  lemma {:induction false} EffectsKeepNoLegacy(env: Env, ix: Index, es: seq<Effect>, k: nat)
    requires NoLegacy(env, ix) && Tidy(env, es) && k <= |es|
    ensures NoLegacy(env, PerformAll(ix, es[..k]))
  {
    if k == 0 {
      assert es[..0] == [];
    } else {
      EffectsKeepNoLegacy(env, ix, es, k - 1);
      assert es[..k] == es[..k - 1] + [es[k - 1]];
      PerformSnoc(ix, es[..k - 1], es[k - 1]);
      EffectKeepsNoLegacy(env, PerformAll(ix, es[..k - 1]), es[k - 1]);
    }
  }

  /**
   The operation got as far as its first k effects on index and transcripts. How far it got
   with records and quarantine is left open; all k effects include the finished operation.
   */
  ghost predicate StopsAfter(env: Env, w: State, op: Op, w': State, k: nat)
    requires env.Valid()
  {
    k <= |EffectsOf(env, w, op)| && w'.index == PerformAll(w.index, EffectsOf(env, w, op)[..k])
  }

  /** A run any of whose operations may have been broken off. */
  ghost predicate IsBrokenRun(env: Env, ops: seq<Op>, states: seq<State>, stops: seq<nat>)
    requires env.Valid()
  {
    && |states| == |ops| + 1 && |stops| == |ops|
    && forall n :: 0 <= n < |ops| ==> StopsAfter(env, states[n], ops[n], states[n + 1], stops[n])
  }

  ghost predicate Erasable(env: Env, w: State) {
    Indexed(env, w.index) && NoLegacy(env, w.index)
  }

  lemma StopKeepsErasable(env: Env, w: State, op: Op, w': State, k: nat)
    requires env.Valid() && StopsAfter(env, w, op, w', k) && Erasable(env, w)
    ensures Erasable(env, w')
  {
    OpSafeToInterrupt(env, w, op, k);
    PlansAreTidy(env, w, op);
    EffectsKeepNoLegacy(env, w.index, EffectsOf(env, w, op), k);
  }

  lemma BrokenRunIsErasable(env: Env, ops: seq<Op>, states: seq<State>, stops: seq<nat>, n: nat)
    requires env.Valid() && IsBrokenRun(env, ops, states, stops) && Erasable(env, states[0]) && n < |states|
    ensures Erasable(env, states[n])
  {
    var inv := (w: State, i: nat) => Erasable(env, w);
    forall i | 0 <= i < n
      ensures Keeps(states, inv, i)
    {
      if Erasable(env, states[i]) {
        assert StopsAfter(env, states[i], ops[i], states[i + 1], stops[i]);
        StopKeepsErasable(env, states[i], ops[i], states[i + 1], stops[i]);
      }
    }
    RunKeeps(states, inv, n);
  }

  /**
   After any number of operations, each of them finished or broken off anywhere, a finished
   request to forget a user is not refused and leaves nothing of the user.
   */
  lemma BrokenRunsCanBeForgotten(env: Env, ops: seq<Op>, states: seq<State>, stops: seq<nat>, n: nat, user: UserId,
                                 w': State, out: Output)
    requires env.Valid() && IsBrokenRun(env, ops, states, stops) && Erasable(env, states[0]) && n < |states|
    requires Steps(env, states[n], ForgetUser(user), w', out)
    ensures out.Forgot? && Gone(env, w', user)
  {
    BrokenRunIsErasable(env, ops, states, stops, n);
    NothingRefused(env, states[n], ForgetUser(user));
    ForgetUserErases(env, states[n], user, w', out);
  }
}
