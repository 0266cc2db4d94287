/**
 The store and the checkpointer as mutable objects. Every change is a single put or delete;
 those to the index and the transcripts are also written to a ghost journal, so that the
 order in which an operation makes them is part of what it promises.
 */
module Backends {
  import opened Prelude
  import opened Records
  import opened Environment
  import opened Tables
  import opened ThreadIndex
  import opened World
  import opened TurnInvariants
  import WritePolicy

  /** Every user's records are filed under that user and their own ids. */
  ghost predicate AllKeyed(table: map<UserId, Namespace>) {
    forall user :: Keyed(Row(table, user), user)
  }

  lemma KeyedPut(ns: Namespace, m: Memory)
    requires Keyed(ns, m.user)
    ensures Keyed(ns[m.id := m], m.user)
  {
  }

  lemma KeyedDelete(ns: Namespace, user: UserId, id: MemoryId)
    requires Keyed(ns, user)
    ensures Keyed(ns - {id}, user)
  {
  }

  lemma KeyedAssign(table: map<UserId, Namespace>, user: UserId, row: Namespace)
    requires Canonical(table) && AllKeyed(table) && Keyed(row, user)
    ensures Canonical(Assign(table, user, row)) && AllKeyed(Assign(table, user, row))
  {
    RowAssign(table, user, row);
    var table' := Assign(table, user, row);
    forall other
      ensures Keyed(Row(table', other), other)
    {
      assert Keyed(Row(table, other), other);
    }
  }

  class Backend {
    const env: Env
    var memories: map<UserId, Namespace>
    var quarantine: map<UserId, map<QuarantineKey, Quarantined>>
    var threads: map<UserId, map<ThreadId, IndexEntry>>
    var transcripts: map<CheckpointKey, seq<Message>>
    ghost var journal: seq<Effect>

    ghost function Now(): State
      reads this
    {
      State(memories, quarantine, Index(threads, transcripts))
    }

    ghost predicate Valid()
      reads this
    {
      env.Valid() && Now().IsCanonical() && AllKeyed(memories)
    }

    constructor (env: Env)
      requires env.Valid()
      ensures Valid() && this.env == env && Now() == Empty() && journal == []
    {
      this.env := env;
      memories, quarantine, threads, transcripts := map[], map[], map[], map[];
      journal := [];
    }

    // ------------------------------------------------------------- searching

    /** A user's records in listing order: at most `limit`, from `offset` on. */
    function ListMemories(user: UserId, limit: nat, offset: nat): seq<Memory>
      requires env.Valid()
      reads this
    {
      var ns := Row(memories, user);
      assert Enumerates(env.listMemories(ns), ns.Keys);
      WritePolicy.Fetch(ns, Slice(env.listMemories(ns), limit, offset))
    }

    /** A user's best matches for a query. */
    function SearchMemories(user: UserId, query: string, limit: nat): seq<Hit>
      reads this
    {
      Take(env.rank(Row(memories, user), query), limit)
    }

    // --------------------------------------------------------------- memories

    method PutMemory(m: Memory)
      requires Valid()
      modifies this`memories
      ensures Valid()
      ensures memories == Assign(old(memories), m.user, Row(old(memories), m.user)[m.id := m])
    {
      var row := Row(memories, m.user);
      KeyedPut(row, m);
      KeyedAssign(memories, m.user, row[m.id := m]);
      memories := Assign(memories, m.user, row[m.id := m]);
    }

    method DeleteMemory(user: UserId, id: MemoryId)
      requires Valid()
      modifies this`memories
      ensures Valid()
      ensures memories == Assign(old(memories), user, Row(old(memories), user) - {id})
    {
      var row := Row(memories, user);
      KeyedDelete(row, user, id);
      KeyedAssign(memories, user, row - {id});
      memories := Assign(memories, user, row - {id});
    }

    // -------------------------------------------------------------- quarantine

    method PutQuarantine(user: UserId, key: QuarantineKey, item: Quarantined)
      requires Valid()
      modifies this`quarantine
      ensures Valid()
      ensures quarantine == Assign(old(quarantine), user, Row(old(quarantine), user)[key := item])
    {
      RowAssign(quarantine, user, Row(quarantine, user)[key := item]);
      quarantine := Assign(quarantine, user, Row(quarantine, user)[key := item]);
    }

    method DeleteQuarantine(user: UserId, key: QuarantineKey)
      requires Valid()
      modifies this`quarantine
      ensures Valid()
      ensures quarantine == Assign(old(quarantine), user, Row(old(quarantine), user) - {key})
    {
      RowAssign(quarantine, user, Row(quarantine, user) - {key});
      quarantine := Assign(quarantine, user, Row(quarantine, user) - {key});
    }

    // --------------------------------------------------- index and transcripts

    method PutThread(user: UserId, thread: ThreadId, entry: IndexEntry)
      requires Valid()
      modifies this`threads, this`journal
      ensures Valid() && journal == old(journal) + [Enter(user, thread, entry)]
      ensures Now().index == Perform(old(Now().index), Enter(user, thread, entry))
    {
      RowAssign(threads, user, Row(threads, user)[thread := entry]);
      threads := Assign(threads, user, Row(threads, user)[thread := entry]);
      journal := journal + [Enter(user, thread, entry)];
    }

    method DeleteThreadEntry(user: UserId, thread: ThreadId)
      requires Valid()
      modifies this`threads, this`journal
      ensures Valid() && journal == old(journal) + [Leave(user, thread)]
      ensures Now().index == Perform(old(Now().index), Leave(user, thread))
    {
      RowAssign(threads, user, Row(threads, user) - {thread});
      threads := Assign(threads, user, Row(threads, user) - {thread});
      journal := journal + [Leave(user, thread)];
    }

    method SaveTranscript(key: CheckpointKey, messages: seq<Message>)
      requires Valid()
      modifies this`transcripts, this`journal
      ensures Valid() && journal == old(journal) + [Save(key, messages)]
      ensures Now().index == Perform(old(Now().index), Save(key, messages))
    {
      transcripts := transcripts[key := messages];
      journal := journal + [Save(key, messages)];
    }

    method DeleteTranscript(key: CheckpointKey)
      requires Valid()
      modifies this`transcripts, this`journal
      ensures Valid() && journal == old(journal) + [Erase(key)]
      ensures Now().index == Perform(old(Now().index), Erase(key))
    {
      transcripts := transcripts - {key};
      journal := journal + [Erase(key)];
    }
  }

  /** One page of a listing. */
  function Slice<K>(listing: seq<K>, limit: nat, offset: nat): (page: seq<K>)
    ensures forall x :: x in page ==> x in listing
    ensures offset <= |listing| ==> page <= listing[offset..]
  {
    if offset >= |listing| then [] else Take(listing[offset..], limit)
  }

  const PAGE: nat := 200

  /**
   Every key of a namespace that does not change meanwhile, page by page until one comes
   back empty: the whole listing, in order, each key once.
   */
  method AllKeys<K>(search: (nat, nat) -> seq<K>, ghost listing: seq<K>) returns (out: seq<K>)
    requires forall limit, offset :: search(limit, offset) == Slice(listing, limit, offset)
    ensures out == listing
  {
    out := [];
    var offset := 0;
    while true
      invariant offset == |out| <= |listing| && out == listing[..offset]
      decreases |listing| - offset
    {
      var page := search(PAGE, offset);
      if page == [] {
        return;
      }
      out := out + page;
      offset := offset + |page|;
    }
  }
}
