/**
 Forgetting as it runs: page through a namespace, delete record by record, and take each
 transcript away before the index entry that leads to it.
 */
module Forgetting {
  import opened Prelude
  import opened Records
  import opened Environment
  import opened Tables
  import opened ThreadIndex
  import opened ThreadKeys
  import opened World
  import opened Backends
  import opened Erasure

  // ------------------------------------------------------------------- recording

  /** Notes that the user has spoken in a conversation; refused for a legacy one. */
  method RecordThread(backend: Backend, user: UserId, thread: ThreadId, now: int) returns (recorded: bool)
    requires backend.Valid()
    modifies backend`threads, backend`journal
    ensures backend.Valid()
    ensures recorded <==> !IsLegacy(backend.env, old(backend.Now().index), user, thread)
    ensures var enter := Enter(user, thread, IndexEntry(Some(Key(backend.env, user, thread)), now));
            if recorded then
              && backend.journal == old(backend.journal) + [enter]
              && backend.Now().index == Perform(old(backend.Now().index), enter)
            else
              backend.Now() == old(backend.Now()) && backend.journal == old(backend.journal)
  {
    var checkpoint := CheckpointId(backend.env, Index(backend.threads, backend.transcripts), user, thread);
    recorded := checkpoint.Some?;
    if recorded {
      backend.PutThread(user, thread, IndexEntry(checkpoint, now));
    }
  }

  // ------------------------------------------------------------------ one memory

  lemma AbsentDeleted(table: map<UserId, Namespace>, user: UserId, id: MemoryId)
    requires Canonical(table) && id !in Row(table, user)
    ensures Assign(table, user, Row(table, user) - {id}) == table
  {
    assert Row(table, user) - {id} == Row(table, user);
    AssignSame(table, user);
  }

  lemma ForgetMemoryTaken(env: Env, w: State, user: UserId, id: MemoryId, w': State)
    requires env.Valid()
    requires w' == w.(memories := Assign(w.memories, user, w.Mem(user) - {id}))
    ensures Steps(env, w, World.ForgetMemory(user, id), w', Existed(id in w.Mem(user)))
  {
  }

  method ForgetMemory(backend: Backend, user: UserId, id: MemoryId) returns (existed: bool)
    requires backend.Valid()
    modifies backend`memories
    ensures backend.Valid()
    ensures Steps(backend.env, old(backend.Now()), World.ForgetMemory(user, id), backend.Now(), Existed(existed))
  {
    ghost var w := backend.Now();
    existed := id in Row(backend.memories, user);
    if existed {
      backend.DeleteMemory(user, id);
    } else {
      AbsentDeleted(backend.memories, user, id);
    }
    ForgetMemoryTaken(backend.env, w, user, id, backend.Now());
  }

  // ---------------------------------------------------------------- enumeration

  method AllMemories(backend: Backend, user: UserId) returns (keys: seq<MemoryId>)
    ensures keys == backend.env.listMemories(Row(backend.memories, user))
  {
    var listing := backend.env.listMemories(Row(backend.memories, user));
    keys := AllKeys((limit: nat, offset: nat) => Slice(listing, limit, offset), listing);
  }

  method AllQuarantined(backend: Backend, user: UserId) returns (keys: seq<QuarantineKey>)
    ensures keys == backend.env.listQuarantine(Row(backend.quarantine, user))
  {
    var listing := backend.env.listQuarantine(Row(backend.quarantine, user));
    keys := AllKeys((limit: nat, offset: nat) => Slice(listing, limit, offset), listing);
  }

  method ListThreads(backend: Backend, user: UserId) returns (threads: seq<ThreadId>)
    ensures threads == KnownThreads(backend.env, backend.Now(), user)
  {
    var listing := backend.env.listThreads(Row(backend.threads, user));
    var keys := AllKeys((limit: nat, offset: nat) => Slice(listing, limit, offset), listing);
    threads := Sorted(keys);
  }

  // ---------------------------------------------------------- one conversation

  /** The listed records that stem from the conversation. */
  ghost function Learned(ns: Namespace, keys: seq<MemoryId>, thread: ThreadId): set<MemoryId>
    requires forall k :: k in keys ==> k in ns
  {
    set k | k in keys && ns[k].thread == Some(thread)
  }

  lemma LearnedNext(ns: Namespace, keys: seq<MemoryId>, thread: ThreadId, i: nat)
    requires (forall k :: k in keys ==> k in ns) && Distinct(keys) && i < |keys|
    ensures Learned(ns, keys[..i + 1], thread)
         == Learned(ns, keys[..i], thread) + if ns[keys[i]].thread == Some(thread) then {keys[i]} else {}
    ensures keys[i] !in Learned(ns, keys[..i], thread)
  {
    assert keys[..i + 1] == keys[..i] + [keys[i]];
  }

  /** One more record looked at, seen from the table at the start. */
  lemma LearnedStep(table: map<UserId, Namespace>, user: UserId, keys: seq<MemoryId>, thread: ThreadId, i: nat)
    requires Enumerates(keys, Row(table, user).Keys) && i < |keys|
    ensures var ns := Row(table, user);
            var gone, gone' := Learned(ns, keys[..i], thread), Learned(ns, keys[..i + 1], thread);
            var now := Assign(table, user, ns - gone);
            if ns[keys[i]].thread == Some(thread) then
              && |gone'| == |gone| + 1
              && Assign(now, user, Row(now, user) - {keys[i]}) == Assign(table, user, ns - gone')
            else
              gone' == gone
  {
    var ns := Row(table, user);
    var gone := Learned(ns, keys[..i], thread);
    LearnedNext(ns, keys, thread, i);
    RowAssign(table, user, ns - gone);
    assert (ns - gone) - {keys[i]} == ns - (gone + {keys[i]});
  }

  lemma LearnedNone(table: map<UserId, Namespace>, user: UserId, keys: seq<MemoryId>, thread: ThreadId)
    requires Enumerates(keys, Row(table, user).Keys) && Canonical(table)
    ensures var ns := Row(table, user);
            |Learned(ns, keys[..0], thread)| == 0 && Assign(table, user, ns - Learned(ns, keys[..0], thread)) == table
  {
    var ns := Row(table, user);
    assert Learned(ns, keys[..0], thread) == {} && ns - {} == ns;
    AssignSame(table, user);
  }

  lemma LearnedAll(ns: Namespace, keys: seq<MemoryId>, thread: ThreadId)
    requires Enumerates(keys, ns.Keys)
    ensures Learned(ns, keys[..|keys|], thread) == FromThread(ns, thread)
  {
    assert keys[..|keys|] == keys;
  }

  /** Deletes what was learned in a conversation, record by record. */
  method DeleteLearned(backend: Backend, user: UserId, thread: ThreadId) returns (deleted: nat)
    requires backend.Valid()
    modifies backend`memories
    ensures backend.Valid()
    ensures deleted == |FromThread(Row(old(backend.memories), user), thread)|
    ensures backend.memories
         == Assign(old(backend.memories), user,
                   Row(old(backend.memories), user) - FromThread(Row(old(backend.memories), user), thread))
  {
    var ns := Row(backend.memories, user);
    var keys := AllMemories(backend, user);
    deleted := 0;
    LearnedNone(backend.memories, user, keys, thread);
    for i := 0 to |keys|
      invariant backend.Valid() && deleted == |Learned(ns, keys[..i], thread)|
      invariant backend.memories == Assign(old(backend.memories), user, ns - Learned(ns, keys[..i], thread))
    {
      LearnedStep(old(backend.memories), user, keys, thread, i);
      if ns[keys[i]].thread == Some(thread) {
        backend.DeleteMemory(user, keys[i]);
        deleted := deleted + 1;
      }
    }
    LearnedAll(ns, keys, thread);
  }

  /** The plan was followed from ix to ix', and its effects joined the journal in their order. */
  ghost predicate Followed(ix: Index, ix': Index, plan: seq<Effect>, before: seq<Effect>, after: seq<Effect>) {
    ix' == PerformAll(ix, plan) && after == before + plan
  }

  lemma FollowedNext(ix: Index, mid: Index, plan: seq<Effect>, before: seq<Effect>, journal: seq<Effect>, a: Effect,
                     b: Effect)
    requires Followed(ix, mid, plan, before, journal)
    ensures Followed(ix, ThreadIndex.Perform(ThreadIndex.Perform(mid, a), b), plan + [a, b], before,
                     (journal + [a]) + [b])
  {
    PerformSnoc(ix, plan, a);
    PerformSnoc(ix, plan + [a], b);
    assert plan + [a, b] == plan + [a] + [b];
    assert (journal + [a]) + [b] == before + (plan + [a, b]);
  }

  lemma NothingFollowed(ix: Index, journal: seq<Effect>)
    ensures Followed(ix, ix, [], journal, journal)
  {
    assert journal + [] == journal;
  }

  lemma PlanSnoc(env: Env, user: UserId, threads: seq<ThreadId>, i: nat)
    requires i < |threads|
    ensures ForgetPlan(env, user, threads[..i + 1])
         == ForgetPlan(env, user, threads[..i]) + [Erase(Key(env, user, threads[i])), Leave(user, threads[i])]
  {
    assert threads[..i + 1][..i] == threads[..i];
  }

  /** Transcript first, index entry second, conversation by conversation. */
  method DeleteThreads(backend: Backend, user: UserId, threads: seq<ThreadId>, checkpoints: seq<CheckpointKey>)
    requires backend.Valid() && |checkpoints| == |threads|
    requires forall i :: 0 <= i < |threads| ==> checkpoints[i] == Key(backend.env, user, threads[i])
    modifies backend`threads, backend`transcripts, backend`journal
    ensures backend.Valid()
    ensures Followed(old(backend.Now().index), backend.Now().index, ForgetPlan(backend.env, user, threads),
                     old(backend.journal), backend.journal)
  {
    ghost var ix, journal := backend.Now().index, backend.journal;
    NothingFollowed(ix, journal);
    for i := 0 to |threads|
      invariant backend.Valid()
      invariant Followed(ix, backend.Now().index, ForgetPlan(backend.env, user, threads[..i]), journal, backend.journal)
    {
      PlanSnoc(backend.env, user, threads, i);
      FollowedNext(ix, backend.Now().index, ForgetPlan(backend.env, user, threads[..i]), journal, backend.journal,
                   Erase(Key(backend.env, user, threads[i])), Leave(user, threads[i]));
      backend.DeleteTranscript(checkpoints[i]);
      backend.DeleteThreadEntry(user, threads[i]);
    }
    assert threads[..|threads|] == threads;
  }

  /** The conversation's records are deleted and its plan is followed. */
  ghost predicate Unlearned(env: Env, w: State, user: UserId, thread: ThreadId, w': State, deleted: nat,
                            before: seq<Effect>, after: seq<Effect>) {
    && w'.memories == Assign(w.memories, user, w.Mem(user) - FromThread(w.Mem(user), thread))
    && w'.quarantine == w.quarantine
    && deleted == |FromThread(w.Mem(user), thread)|
    && Followed(w.index, w'.index, ForgetPlan(env, user, [thread]), before, after)
  }

  /** What deleting the records and then following the plan amounts to. */
  lemma ForgetThreadTaken(env: Env, w: State, user: UserId, thread: ThreadId, w': State, deleted: nat,
                          before: seq<Effect>, after: seq<Effect>)
    requires env.Valid() && !IsLegacy(env, w.index, user, thread)
    requires Unlearned(env, w, user, thread, w', deleted, before, after)
    ensures Takes(env, w, World.ForgetThread(user, thread), w', Forgot(ForgetReport(deleted, 0, [thread])), before,
                  after)
  {
    ForgetThreadSteps(env, w, user, thread);
  }

  /** A refused request takes no effect at all. */
  lemma RefusedTaken(env: Env, w: State, op: Op, journal: seq<Effect>)
    requires env.Valid() && Refused(env, w, op)
    ensures Takes(env, w, op, w, LegacyThread, journal, journal)
  {
  }

  lemma UnlearnedNow(env: Env, w: State, user: UserId, thread: ThreadId, w': State, deleted: nat,
                     threads: seq<ThreadId>, before: seq<Effect>, after: seq<Effect>)
    requires threads == [thread]
    requires w'.memories == Assign(w.memories, user, w.Mem(user) - FromThread(w.Mem(user), thread))
    requires w'.quarantine == w.quarantine && deleted == |FromThread(w.Mem(user), thread)|
    requires Followed(w.index, w'.index, ForgetPlan(env, user, threads), before, after)
    ensures Unlearned(env, w, user, thread, w', deleted, before, after)
  {
  }

  /** Deletes what was learned in a conversation, then its transcript, then its entry. */
  method Unlearn(backend: Backend, user: UserId, thread: ThreadId, checkpoint: CheckpointKey) returns (deleted: nat)
    requires backend.Valid() && checkpoint == Key(backend.env, user, thread)
    modifies backend`memories, backend`threads, backend`transcripts, backend`journal
    ensures backend.Valid()
    ensures Unlearned(backend.env, old(backend.Now()), user, thread, backend.Now(), deleted, old(backend.journal),
                      backend.journal)
  {
    ghost var w, journal := backend.Now(), backend.journal;
    deleted := DeleteLearned(backend, user, thread);
    var threads, checkpoints := [thread], [checkpoint];
    DeleteThreads(backend, user, threads, checkpoints);
    UnlearnedNow(backend.env, w, user, thread, backend.Now(), deleted, threads, journal, backend.journal);
  }

  method ForgetThread(backend: Backend, user: UserId, thread: ThreadId) returns (out: Output)
    requires backend.Valid()
    modifies backend`memories, backend`threads, backend`transcripts, backend`journal
    ensures backend.Valid()
    ensures Takes(backend.env, old(backend.Now()), World.ForgetThread(user, thread), backend.Now(), out,
                  old(backend.journal), backend.journal)
  {
    ghost var w, journal := backend.Now(), backend.journal;
    var checkpoint := CheckpointId(backend.env, Index(backend.threads, backend.transcripts), user, thread);
    if checkpoint.None? {
      RefusedTaken(backend.env, w, World.ForgetThread(user, thread), journal);
      return LegacyThread;
    }
    var deleted := Unlearn(backend, user, thread, checkpoint.value);
    out := Forgot(ForgetReport(deleted, 0, [thread]));
    ForgetThreadTaken(backend.env, w, user, thread, backend.Now(), deleted, journal, backend.journal);
  }

  // ------------------------------------------------------------------- a whole user

  ghost function Among<K>(keys: seq<K>): set<K> {
    set k | k in keys
  }

  method DeleteMemories(backend: Backend, user: UserId) returns (deleted: nat)
    requires backend.Valid()
    modifies backend`memories
    ensures backend.Valid() && deleted == |Row(old(backend.memories), user)|
    ensures backend.memories == Assign(old(backend.memories), user, map[])
  {
    ghost var ns := Row(backend.memories, user);
    var keys := AllMemories(backend, user);
    AllLeft(backend.memories, user, keys);
    for i := 0 to |keys|
      invariant backend.Valid()
      invariant backend.memories == Assign(old(backend.memories), user, ns - Among(keys[..i]))
    {
      OneFewer(old(backend.memories), user, keys, i);
      backend.DeleteMemory(user, keys[i]);
    }
    NoneLeft(ns, keys);
    deleted := |keys|;
  }

  method DeleteQuarantined(backend: Backend, user: UserId) returns (deleted: nat)
    requires backend.Valid()
    modifies backend`quarantine
    ensures backend.Valid() && deleted == |Row(old(backend.quarantine), user)|
    ensures backend.quarantine == Assign(old(backend.quarantine), user, map[])
  {
    ghost var ns := Row(backend.quarantine, user);
    var keys := AllQuarantined(backend, user);
    AllLeft(backend.quarantine, user, keys);
    for i := 0 to |keys|
      invariant backend.Valid()
      invariant backend.quarantine == Assign(old(backend.quarantine), user, ns - Among(keys[..i]))
    {
      OneFewer(old(backend.quarantine), user, keys, i);
      backend.DeleteQuarantine(user, keys[i]);
    }
    NoneLeft(ns, keys);
    deleted := |keys|;
  }

  lemma AllLeft<K, V>(table: map<UserId, map<K, V>>, user: UserId, keys: seq<K>)
    requires Canonical(table)
    ensures Assign(table, user, Row(table, user) - Among(keys[..0])) == table
  {
    assert Row(table, user) - Among(keys[..0]) == Row(table, user);
    AssignSame(table, user);
  }

  /** One more key deleted, seen from the table at the start. */
  lemma OneFewer<K, V>(table: map<UserId, map<K, V>>, user: UserId, keys: seq<K>, i: nat)
    requires i < |keys|
    ensures var row := Row(table, user);
            var now := Assign(table, user, row - Among(keys[..i]));
            Assign(now, user, Row(now, user) - {keys[i]}) == Assign(table, user, row - Among(keys[..i + 1]))
  {
    var row := Row(table, user);
    assert keys[..i + 1] == keys[..i] + [keys[i]];
    assert row - Among(keys[..i + 1]) == (row - Among(keys[..i])) - {keys[i]};
    RowAssign(table, user, row - Among(keys[..i]));
  }

  lemma NoneLeft<K(!new), V>(ns: map<K, V>, keys: seq<K>)
    requires Enumerates(keys, ns.Keys)
    ensures ns - Among(keys[..|keys|]) == map[] && |keys| == |ns|
  {
    assert keys[..|keys|] == keys;
    DistinctCount(keys, ns.Keys);
    assert |ns| == |ns.Keys|;
  }

  /** The keys of all named conversations, or nothing if any of them is a legacy one. */
  method ValidateAll(backend: Backend, user: UserId, threads: seq<ThreadId>)
    returns (checkpoints: Option<seq<CheckpointKey>>)
    ensures checkpoints.None? <==> exists t :: t in threads && IsLegacy(backend.env, backend.Now().index, user, t)
    ensures checkpoints.Some? ==>
              && |checkpoints.value| == |threads|
              && forall i :: 0 <= i < |threads| ==> checkpoints.value[i] == Key(backend.env, user, threads[i])
  {
    var keys := [];
    for i := 0 to |threads|
      invariant |keys| == i
      invariant forall j :: 0 <= j < i ==>
        !IsLegacy(backend.env, backend.Now().index, user, threads[j]) && keys[j] == Key(backend.env, user, threads[j])
    {
      var checkpoint := CheckpointId(backend.env, Index(backend.threads, backend.transcripts), user, threads[i]);
      if checkpoint.None? {
        assert threads[i] in threads;
        return None;
      }
      keys := keys + [checkpoint.value];
    }
    checkpoints := Some(keys);
  }

  lemma ForgetUserReported(env: Env, w: State, user: UserId)
    requires env.Valid() && !HasLegacy(env, w, user)
    ensures Result(env, w, World.ForgetUser(user))
         == Forgot(ForgetReport(|w.Mem(user)|, |w.Quar(user)|, KnownThreads(env, w, user)))
    ensures EffectsOf(env, w, World.ForgetUser(user)) == ForgetPlan(env, user, KnownThreads(env, w, user))
  {
  }

  lemma ForgetUserMoves(env: Env, w: State, user: UserId, w': State)
    requires env.Valid() && !HasLegacy(env, w, user)
    requires w'.memories == Assign(w.memories, user, map[]) && w'.quarantine == Assign(w.quarantine, user, map[])
    requires w'.index == PerformAll(w.index, ForgetPlan(env, user, KnownThreads(env, w, user)))
    ensures w' == Next(env, w, World.ForgetUser(user))
  {
  }

  lemma ForgetUserTaken(env: Env, w: State, user: UserId, w': State, before: seq<Effect>, after: seq<Effect>)
    requires env.Valid() && !HasLegacy(env, w, user)
    requires w'.memories == Assign(w.memories, user, map[]) && w'.quarantine == Assign(w.quarantine, user, map[])
    requires Followed(w.index, w'.index, ForgetPlan(env, user, KnownThreads(env, w, user)), before, after)
    ensures Takes(env, w, World.ForgetUser(user), w',
                  Forgot(ForgetReport(|w.Mem(user)|, |w.Quar(user)|, KnownThreads(env, w, user))), before, after)
  {
    ForgetUserMoves(env, w, user, w');
    ForgetUserReported(env, w, user);
  }

  /** Some listed conversation is a legacy one exactly when the user has any. */
  lemma LegacyIsListed(env: Env, w: State, user: UserId)
    requires env.ListsAll()
    ensures HasLegacy(env, w, user)
       <==> exists t :: t in KnownThreads(env, w, user) && IsLegacy(env, w.index, user, t)
  {
    KnownThreadsEnumerate(env, w, user);
  }

  /** Deletes all there is of a user, the named conversations last. */
  method EraseAll(backend: Backend, user: UserId, threads: seq<ThreadId>, checkpoints: seq<CheckpointKey>)
    returns (memories: nat, quarantined: nat)
    requires backend.Valid() && |checkpoints| == |threads|
    requires forall i :: 0 <= i < |threads| ==> checkpoints[i] == Key(backend.env, user, threads[i])
    modifies backend`memories, backend`quarantine, backend`threads, backend`transcripts, backend`journal
    ensures backend.Valid()
    ensures memories == |Row(old(backend.memories), user)| && quarantined == |Row(old(backend.quarantine), user)|
    ensures backend.memories == Assign(old(backend.memories), user, map[])
    ensures backend.quarantine == Assign(old(backend.quarantine), user, map[])
    ensures Followed(old(backend.Now().index), backend.Now().index, ForgetPlan(backend.env, user, threads),
                     old(backend.journal), backend.journal)
  {
    memories := DeleteMemories(backend, user);
    quarantined := DeleteQuarantined(backend, user);
    DeleteThreads(backend, user, threads, checkpoints);
  }

  method ForgetUser(backend: Backend, user: UserId) returns (out: Output)
    requires backend.Valid()
    modifies backend`memories, backend`quarantine, backend`threads, backend`transcripts, backend`journal
    ensures backend.Valid()
    ensures Takes(backend.env, old(backend.Now()), World.ForgetUser(user), backend.Now(), out,
                  old(backend.journal), backend.journal)
  {
    ghost var w, journal := backend.Now(), backend.journal;
    var threads := ListThreads(backend, user);
    LegacyIsListed(backend.env, w, user);
    var checkpoints := ValidateAll(backend, user, threads);
    if checkpoints.None? {
      RefusedTaken(backend.env, w, World.ForgetUser(user), journal);
      return LegacyThread;
    }
    var memories, quarantined := EraseAll(backend, user, threads, checkpoints.value);
    ForgetUserTaken(backend.env, w, user, backend.Now(), journal, backend.journal);
    out := Forgot(ForgetReport(memories, quarantined, threads));
  }
}
