/**
 The thread index and the transcripts it points at. An operation is a list of single
 effects in program order, so that what holds between any two of them can be stated.
 */
module ThreadIndex {
  import opened Prelude
  import opened Records
  import opened Environment
  import opened ThreadKeys
  import opened Tables

  datatype Index = Index(
    threads: map<UserId, map<ThreadId, IndexEntry>>,
    transcripts: map<CheckpointKey, seq<Message>>
  )

  datatype Effect =
    | Enter(user: UserId, thread: ThreadId, entry: IndexEntry)
    | Leave(user: UserId, thread: ThreadId)
    | Save(key: CheckpointKey, messages: seq<Message>)
    | Erase(key: CheckpointKey)

  function Perform(ix: Index, e: Effect): Index {
    match e
    case Enter(u, t, entry) => ix.(threads := Assign(ix.threads, u, Row(ix.threads, u)[t := entry]))
    case Leave(u, t) => ix.(threads := Assign(ix.threads, u, Row(ix.threads, u) - {t}))
    case Save(key, messages) => ix.(transcripts := ix.transcripts[key := messages])
    case Erase(key) => ix.(transcripts := ix.transcripts - {key})
  }

  function PerformAll(ix: Index, es: seq<Effect>): Index {
    if es == [] then ix else Perform(PerformAll(ix, es[..|es| - 1]), es[|es| - 1])
  }

  function Transcript(ix: Index, key: CheckpointKey): seq<Message> {
    if key in ix.transcripts then ix.transcripts[key] else []
  }

  /** An index entry that does not carry its own key comes from an old, shared transcript. */
  predicate IsLegacy(env: Env, ix: Index, user: UserId, thread: ThreadId) {
    var row := Row(ix.threads, user);
    thread in row && row[thread].checkpoint != Some(Key(env, user, thread))
  }

  /** The key of a conversation, or nothing when it would be a legacy one. */
  function CheckpointId(env: Env, ix: Index, user: UserId, thread: ThreadId): Option<CheckpointKey> {
    if IsLegacy(env, ix, user, thread) then None else Some(Key(env, user, thread))
  }

  /** The conversation has an index entry under its owner that carries its key. */
  ghost predicate Listed(env: Env, ix: Index, user: UserId, thread: ThreadId) {
    var row := Row(ix.threads, user);
    thread in row && row[thread].checkpoint == Some(Key(env, user, thread))
  }

  /** No transcript escapes the index. */
  ghost predicate Indexed(env: Env, ix: Index) {
    forall u, t :: Key(env, u, t) in ix.transcripts ==> Listed(env, ix, u, t)
  }

  // ------------------------------------------------------------ the two plans

  /** One chat turn: index entry first, then the transcript as it grows. */
  function ChatPlan(env: Env, ix: Index, user: UserId, thread: ThreadId, at: int, human: Message, reply: Message):
      seq<Effect>
  {
    var key := Key(env, user, thread);
    var before := Transcript(ix, key);
    [
      Enter(user, thread, IndexEntry(Some(key), at)),
      Save(key, before + [human]),
      Save(key, before + [human, reply])
    ]
  }

  /** Forgetting threads: each transcript goes before the entry that finds it. */
  function ForgetPlan(env: Env, user: UserId, threads: seq<ThreadId>): seq<Effect> {
    if threads == [] then []
    else
      var last := threads[|threads| - 1];
      ForgetPlan(env, user, threads[..|threads| - 1]) + [Erase(Key(env, user, last)), Leave(user, last)]
  }

  lemma PerformSnoc(ix: Index, es: seq<Effect>, e: Effect)
    ensures PerformAll(ix, es + [e]) == Perform(PerformAll(ix, es), e)
  {
    assert (es + [e])[..|es|] == es;
  }

  // ------------------------------------------------ every single effect is safe

  lemma EnterKeeps(env: Env, ix: Index, user: UserId, thread: ThreadId, at: int)
    requires Indexed(env, ix)
    ensures var ix' := Perform(ix, Enter(user, thread, IndexEntry(Some(Key(env, user, thread)), at)));
            Indexed(env, ix') && Listed(env, ix', user, thread)
  {
    var row := Row(ix.threads, user)[thread := IndexEntry(Some(Key(env, user, thread)), at)];
    RowAssign(ix.threads, user, row);
    var ix' := ix.(threads := Assign(ix.threads, user, row));
    forall u, t | Key(env, u, t) in ix.transcripts
      ensures Listed(env, ix', u, t)
    {
      assert Listed(env, ix, u, t);
    }
  }

  lemma SaveKeeps(env: Env, ix: Index, user: UserId, thread: ThreadId, messages: seq<Message>)
    requires env.DigestInjective() && Indexed(env, ix) && Listed(env, ix, user, thread)
    ensures var ix' := Perform(ix, Save(Key(env, user, thread), messages));
            Indexed(env, ix') && Listed(env, ix', user, thread)
  {
    var ix' := Perform(ix, Save(Key(env, user, thread), messages));
    forall u, t | Key(env, u, t) in ix'.transcripts
      ensures Listed(env, ix', u, t)
    {
      KeysDistinct(env, u, t, user, thread);
      if Key(env, u, t) in ix.transcripts {
        assert Listed(env, ix, u, t);
      }
      assert ix'.threads == ix.threads;
    }
  }

  lemma EraseKeeps(env: Env, ix: Index, key: CheckpointKey)
    requires Indexed(env, ix)
    ensures Indexed(env, Perform(ix, Erase(key)))
  {
    var ix' := Perform(ix, Erase(key));
    forall u, t | Key(env, u, t) in ix'.transcripts
      ensures Listed(env, ix', u, t)
    {
      assert Listed(env, ix, u, t);
    }
  }

  lemma LeaveKeeps(env: Env, ix: Index, user: UserId, thread: ThreadId)
    requires Indexed(env, ix) && Key(env, user, thread) !in ix.transcripts
    ensures Indexed(env, Perform(ix, Leave(user, thread)))
  {
    var ix' := Perform(ix, Leave(user, thread));
    RowAssign(ix.threads, user, Row(ix.threads, user) - {thread});
    forall u, t | Key(env, u, t) in ix'.transcripts
      ensures Listed(env, ix', u, t)
    {
      assert Listed(env, ix, u, t);
    }
  }

  // ------------------------------------- and so is every point of every operation

  /** The three prefixes of a three-effect plan, one effect at a time. */
  lemma ThreeEffects(ix: Index, plan: seq<Effect>)
    requires |plan| == 3
    ensures PerformAll(ix, plan[..0]) == ix
    ensures PerformAll(ix, plan[..1]) == Perform(ix, plan[0])
    ensures PerformAll(ix, plan[..2]) == Perform(PerformAll(ix, plan[..1]), plan[1])
    ensures PerformAll(ix, plan[..3]) == PerformAll(ix, plan) == Perform(PerformAll(ix, plan[..2]), plan[2])
  {
    assert plan[..0] == [] && plan[..1] == [] + [plan[0]];
    assert plan[..2] == plan[..1] + [plan[1]] && plan == plan[..3] == plan[..2] + [plan[2]];
    PerformSnoc(ix, [], plan[0]);
    PerformSnoc(ix, plan[..1], plan[1]);
    PerformSnoc(ix, plan[..2], plan[2]);
  }

  /** A chat turn may stop after any number of its effects. */
  lemma ChatKeepsIndexed(env: Env, ix: Index, user: UserId, thread: ThreadId, at: int, human: Message, reply: Message,
                         n: nat)
    requires env.DigestInjective() && Indexed(env, ix)
    requires n <= |ChatPlan(env, ix, user, thread, at, human, reply)|
    ensures Indexed(env, PerformAll(ix, ChatPlan(env, ix, user, thread, at, human, reply)[..n]))
  {
    var plan := ChatPlan(env, ix, user, thread, at, human, reply);
    ThreeEffects(ix, plan);
    EnterKeeps(env, ix, user, thread, at);
    SaveKeeps(env, PerformAll(ix, plan[..1]), user, thread, plan[1].messages);
    SaveKeeps(env, PerformAll(ix, plan[..2]), user, thread, plan[2].messages);
    assert n == 0 || n == 1 || n == 2 || n == 3;
  }

  lemma ForgetOneKeeps(env: Env, ix: Index, user: UserId, thread: ThreadId)
    requires Indexed(env, ix)
    ensures var mid := Perform(ix, Erase(Key(env, user, thread)));
            Indexed(env, mid) && Indexed(env, Perform(mid, Leave(user, thread)))
  {
    EraseKeeps(env, ix, Key(env, user, thread));
    LeaveKeeps(env, Perform(ix, Erase(Key(env, user, thread))), user, thread);
  }

  /** The prefixes of a plan that two more effects extend. */
  lemma TwoMore(ix: Index, before: seq<Effect>, e1: Effect, e2: Effect, n: nat)
    requires n <= |before| + 2
    ensures var plan := before + [e1, e2];
            && (n <= |before| ==> plan[..n] == before[..n])
            && (n == |before| + 1 ==> PerformAll(ix, plan[..n]) == Perform(PerformAll(ix, before), e1))
            && (n == |before| + 2 ==> PerformAll(ix, plan[..n]) == Perform(Perform(PerformAll(ix, before), e1), e2))
  {
    var plan := before + [e1, e2];
    PerformSnoc(ix, before, e1);
    PerformSnoc(ix, before + [e1], e2);
    assert plan[..|before| + 1] == before + [e1];
    assert plan[..|before| + 2] == (before + [e1]) + [e2];
  }

  /** Forgetting may stop after any number of its effects. */
  lemma {:induction false} ForgetKeepsIndexed(env: Env, ix: Index, user: UserId, threads: seq<ThreadId>, n: nat)
    requires Indexed(env, ix) && n <= |ForgetPlan(env, user, threads)|
    ensures Indexed(env, PerformAll(ix, ForgetPlan(env, user, threads)[..n]))
  {
    if threads == [] {
      assert ForgetPlan(env, user, threads)[..n] == [];
    } else {
      var init, last := threads[..|threads| - 1], threads[|threads| - 1];
      var before := ForgetPlan(env, user, init);
      TwoMore(ix, before, Erase(Key(env, user, last)), Leave(user, last), n);
      if n <= |before| {
        ForgetKeepsIndexed(env, ix, user, init, n);
      } else {
        assert before[..|before|] == before;
        ForgetKeepsIndexed(env, ix, user, init, |before|);
        ForgetOneKeeps(env, PerformAll(ix, before), user, last);
      }
    }
  }

  // ------------------------------------------------------- what forgetting leaves

  /** Exactly the named entries and their transcripts are gone; everything else is as before. */
  ghost predicate ForgetsExactly(env: Env, ix: Index, ix': Index, user: UserId, threads: seq<ThreadId>) {
    && Row(ix'.threads, user) == Row(ix.threads, user) - (set t | t in threads)
    && (forall other :: other != user ==> Row(ix'.threads, other) == Row(ix.threads, other))
    && (forall key :: key in ix'.transcripts <==>
                        key in ix.transcripts && forall t :: t in threads ==> key != Key(env, user, t))
    && (forall key :: key in ix'.transcripts ==> ix'.transcripts[key] == ix.transcripts[key])
  }

  lemma ForgetOne(env: Env, ix: Index, mid: Index, user: UserId, threads: seq<ThreadId>, last: ThreadId)
    requires ForgetsExactly(env, ix, mid, user, threads)
    ensures ForgetsExactly(env, ix, Perform(Perform(mid, Erase(Key(env, user, last))), Leave(user, last)), user,
                           threads + [last])
  {
    var all := threads + [last];
    assert (set t | t in all) == (set t | t in threads) + {last};
    RowAssign(mid.threads, user, Row(mid.threads, user) - {last});
  }

  lemma {:induction false} ForgetPlanForgets(env: Env, ix: Index, user: UserId, threads: seq<ThreadId>)
    ensures ForgetsExactly(env, ix, PerformAll(ix, ForgetPlan(env, user, threads)), user, threads)
  {
    if threads == [] {
    } else {
      var init, last := threads[..|threads| - 1], threads[|threads| - 1];
      var before := ForgetPlan(env, user, init);
      ForgetPlanForgets(env, ix, user, init);
      var erase, leave := Erase(Key(env, user, last)), Leave(user, last);
      assert ForgetPlan(env, user, threads) == (before + [erase]) + [leave];
      PerformSnoc(ix, before, erase);
      PerformSnoc(ix, before + [erase], leave);
      ForgetOne(env, ix, PerformAll(ix, before), user, init, last);
      assert threads == init + [last];
    }
  }

  /** A chat turn touches one entry and one transcript, and extends the latter by two messages. */
  lemma ChatPlanResult(env: Env, ix: Index, user: UserId, thread: ThreadId, at: int, human: Message, reply: Message)
    ensures var key := Key(env, user, thread);
            var ix' := PerformAll(ix, ChatPlan(env, ix, user, thread, at, human, reply));
            && Row(ix'.threads, user) == Row(ix.threads, user)[thread := IndexEntry(Some(key), at)]
            && (forall other :: other != user ==> Row(ix'.threads, other) == Row(ix.threads, other))
            && ix'.transcripts == ix.transcripts[key := Transcript(ix, key) + [human, reply]]
  {
    var plan := ChatPlan(env, ix, user, thread, at, human, reply);
    ThreeEffects(ix, plan);
    RowAssign(ix.threads, user, Row(ix.threads, user)[thread := plan[0].entry]);
  }
}
