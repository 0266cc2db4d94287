/**
 The write path as it runs: a manager that edits a working list in place, puts to the
 store record by record and memoises embeddings. Every method is proved to have exactly
 the effect that `WritePolicy` and `World` describe.
 */
module Manager {
  import opened Prelude
  import opened Records
  import opened Environment
  import opened Tables
  import opened Vectors
  import opened WritePolicy
  import opened Backends
  import opened TurnInvariants
  import Text
  import Dedupe
  import Gate
  import World

  /** The list of live records a turn works on; callees edit it in place. */
  class WorkingList {
    var items: seq<Memory>

    constructor (items: seq<Memory>)
      ensures this.items == items
    {
      this.items := items;
    }
  }

  ghost predicate AllOf(items: seq<Memory>, user: UserId) {
    forall m :: m in items ==> m.user == user
  }

  /** The record a candidate led to, as the tail it adds to a list. */
  function Added(made: Option<Memory>): seq<Memory> {
    if made.Some? then [made.value] else []
  }

  /**
   The store and the working list went as a turn goes from desk d to desk d', up to the new
   record, which is still to join the list; the report grows by the decision and that record.
   */
  ghost predicate Took(d: Desk, d': Desk, user: UserId, before: map<UserId, Namespace>, after: map<UserId, Namespace>,
                       items: seq<Memory>, decision: MemoryDecision, made: Option<Memory>) {
    && after == Assign(before, user, d'.ns)
    && items + Added(made) == d'.existing
    && d'.report == WriteReport(d.report.written + Added(made), d.report.decisions + [decision])
  }

  lemma {:induction false} GatherNothing(hits: seq<Hit>)
    ensures Dedupe.Gather(hits, []) == []
  {
    if hits == [] {
    } else {
      GatherNothing(hits[..|hits| - 1]);
    }
  }

  lemma GatherNext(hits: seq<Hit>, existing: seq<Memory>, i: nat)
    requires i < |hits|
    ensures Dedupe.Gather(hits[..i + 1], existing)
         == Dedupe.Gather(hits[..i], existing) + Added(Dedupe.Lookup(existing, hits[i].key))
  {
    assert hits[..i + 1][..i] == hits[..i];
  }

  lemma {:induction false} RetiredAllOf(ns: Namespace, existing: seq<Memory>, stale: seq<Memory>, heir: MemoryId,
                                        now: int, user: UserId)
    requires AllOf(existing, user)
    ensures AllOf(RetireAll(ns, existing, stale, heir, now).1, user)
  {
    if stale == [] {
    } else {
      var init, last := stale[..|stale| - 1], stale[|stale| - 1];
      RetiredAllOf(ns, existing, init, heir, now, user);
      WithoutMembers(RetireAll(ns, existing, init, heir, now).1, last.id);
    }
  }

  lemma RetireNext(ns: Namespace, existing: seq<Memory>, stale: seq<Memory>, heir: MemoryId, now: int, i: nat)
    requires i < |stale|
    ensures var before, after := RetireAll(ns, existing, stale[..i], heir, now),
                                 RetireAll(ns, existing, stale[..i + 1], heir, now);
            && after.0 == before.0[stale[i].id := Retired(stale[i], heir, now)]
            && after.1 == Without(before.1, stale[i].id)
  {
    assert stale[..i + 1][..i] == stale[..i];
  }

  lemma {:induction false} ReplacedAllOf(existing: seq<Memory>, updated: Memory, user: UserId)
    requires AllOf(existing, user) && updated.user == user
    ensures AllOf(Replaced(existing, updated), user)
  {
    if existing == [] {
    } else {
      ReplacedAllOf(existing[1..], updated, user);
    }
  }

  /** A candidate's record, if any, is its author's like the rest of the list. */
  lemma ResolvedAllOf(env: Env, d: Desk, c: CandidateFact, who: Author, id: MemoryId, now: int)
    requires env.EmbedsUniformly() && AllOf(d.existing, who.user)
    ensures AllOf(WritePolicy.Resolve(env, d, c, who, id, now).existing, who.user)
  {
    DecideIsLawful(env, d.ns, d.existing, c, who, id, now);
    match Decide(env, d.ns, d.existing, c, who, id, now)
    case Known(m) => ReplacedAllOf(d.existing, Reinforced(m, now), who.user);
    case New(m, stale) => RetiredAllOf(d.ns[m.id := m], d.existing, stale, m.id, now, who.user);
  }

  lemma {:induction false} ReplacedFirst(existing: seq<Memory>, updated: Memory, i: nat)
    requires i < |existing| && existing[i].id == updated.id
    requires forall j :: 0 <= j < i ==> existing[j].id != updated.id
    ensures Replaced(existing, updated) == existing[i := updated]
  {
    if i == 0 {
    } else {
      ReplacedFirst(existing[1..], updated, i - 1);
    }
  }

  lemma {:induction false} ReplacedNone(existing: seq<Memory>, updated: Memory)
    requires forall j :: 0 <= j < |existing| ==> existing[j].id != updated.id
    ensures Replaced(existing, updated) == existing
  {
    if existing == [] {
    } else {
      ReplacedNone(existing[1..], updated);
    }
  }

  /** A user's listing holds that user's records only. */
  lemma PageOwned(env: Env, table: map<UserId, Namespace>, user: UserId)
    requires env.ListsAll() && AllKeyed(table)
    ensures AllOf(Fetch(Row(table, user), Page(env, Row(table, user))), user)
  {
    assert Keyed(Row(table, user), user);
    var ns := Row(table, user);
    var page := Page(env, ns);
    forall m | m in Fetch(ns, page)
      ensures m.user == user
    {
      var i :| 0 <= i < |page| && ns[page[i]] == m;
      assert page[i] in page;
    }
  }

  lemma KeepActiveAllOf(ms: seq<Memory>, user: UserId, now: int)
    requires AllOf(ms, user)
    ensures AllOf(KeepActive(ms, now), user)
  {
    KeepActiveMembers(ms, now);
  }

  // What a turn writes, by how far it gets.

  /** From w, the full write path leads to w' and reports this. */
  ghost predicate Applied(env: Env, w: World.State, text: string, who: Author, inp: Inputs, w': World.State,
                          report: WriteReport)
    requires env.Valid()
  {
    w' == World.Written(env, w, text, who, inp) && report == World.ReportOf(env, w, text, who, inp)
  }

  lemma NothingWritten(env: Env, w: World.State, text: string, who: Author, inp: Inputs)
    requires env.Valid() && w.IsCanonical() && Text.Strip(text) == ""
    ensures Applied(env, w, text, who, inp, w, WriteReport([], []))
  {
    AssignSame(w.memories, who.user);
    AssignSame(w.quarantine, who.user);
  }

  lemma BlockedWritten(env: Env, w: World.State, text: string, who: Author, inp: Inputs, turn: string,
                       verdict: GateVerdict, w': World.State)
    requires env.Valid() && w.IsCanonical() && turn == Text.Strip(text) != ""
    requires verdict == Gate.Inspect(env, turn, who.source) && verdict.decision != ALLOW
    requires var key := QuarantineKey(inp.loadAt, env.blake2b(turn));
             var item := Quarantined(turn, verdict, who.thread, inp.loadAt);
             w' == w.(quarantine := Assign(w.quarantine, who.user, Row(w.quarantine, who.user)[key := item]))
    ensures Applied(env, w, text, who, inp, w', WriteReport([], [MemoryDecision(QUARANTINE, turn, None, [])]))
  {
    AssignSame(w.memories, who.user);
  }

  lemma AdmittedIntake(env: Env, text: string, source: Provenance, turn: string)
    requires turn == Text.Strip(text) != "" && Gate.Inspect(env, turn, source).decision == ALLOW
    ensures TakeIn(env, text, source) == Admitted(WritePolicy.Candidates(env, turn))
  {
  }

  lemma AdmittedWritten(env: Env, w: World.State, text: string, who: Author, inp: Inputs, cs: seq<CandidateFact>,
                        w': World.State, report: WriteReport)
    requires env.Valid() && w.IsCanonical() && TakeIn(env, text, who.source) == Admitted(cs)
    requires var d := ResolveAll(env, Row(w.memories, who.user), cs, who, inp);
             w' == w.(memories := Assign(w.memories, who.user, d.ns)) && report == d.report
    ensures Applied(env, w, text, who, inp, w', report)
  {
    AssignSame(w.quarantine, who.user);
  }

  class MemoryManager {
    const backend: Backend
    var vectors: map<string, seq<real>>

    /** One cache serves all users; it only ever holds what the embedder would return. */
    ghost predicate Valid()
      reads this, backend
    {
      backend.Valid() && forall text :: text in vectors ==> vectors[text] == backend.env.embed(text)
    }

    constructor (backend: Backend)
      requires backend.Valid()
      ensures Valid() && this.backend == backend && vectors == map[]
    {
      this.backend := backend;
      vectors := map[];
    }

    // ---------------------------------------------------------- the dedupe check

    method Embed(text: string) returns (vector: seq<real>)
      requires Valid()
      modifies this`vectors
      ensures Valid() && vector == backend.env.embed(text)
    {
      if text in vectors {
        vector := vectors[text];
      } else {
        vector := backend.env.embed(text);
        vectors := vectors[text := vector];
      }
    }

    /** The live records among the index's best ten. */
    method Candidates(text: string, existing: WorkingList, user: UserId) returns (found: seq<Memory>)
      ensures found == Dedupe.Window(backend.env, Row(backend.memories, user), existing.items, text)
    {
      var hits := backend.SearchMemories(user, text, Dedupe.DEDUPE_CANDIDATES);
      found := [];
      for i := 0 to |hits|
        invariant found == Dedupe.Gather(hits[..i], existing.items)
      {
        GatherNext(hits, existing.items, i);
        var live := Dedupe.Lookup(existing.items, hits[i].key);
        if live.Some? {
          found := found + [live.value];
        }
      }
      assert hits[..|hits|] == hits;
    }

    /** Exact cosine over the few candidates the index surfaced. */
    method BestMatch(text: string, candidates: seq<Memory>) returns (near: Option<Memory>)
      requires Valid()
      modifies this`vectors
      ensures Valid()
      ensures near == Dedupe.Settle(backend.env, Dedupe.BestOf(backend.env, text, candidates))
    {
      var query := Embed(text);
      var best, bestScore := None, 0.0;
      for i := 0 to |candidates|
        invariant Valid()
        invariant Dedupe.Pick(best, bestScore) == Dedupe.BestOf(backend.env, text, candidates[..i])
      {
        assert candidates[..i + 1][..i] == candidates[..i];
        var vector := Embed(candidates[i].text);
        var score := Cosine(backend.env.sqrt, query, vector);
        if score > bestScore {
          best, bestScore := Some(candidates[i]), score;
        }
      }
      assert candidates[..|candidates|] == candidates;
      near := if bestScore >= backend.env.similarity then best else None;
    }

    method Nearest(text: string, existing: WorkingList, ghost user: UserId) returns (near: Option<Memory>)
      requires Valid() && AllOf(existing.items, user)
      modifies this`vectors
      ensures Valid()
      ensures near == Dedupe.Nearest(backend.env, Row(backend.memories, user), existing.items, text)
    {
      if existing.items == [] {
        GatherNothing(Take(backend.env.rank(Row(backend.memories, user), text), Dedupe.DEDUPE_CANDIDATES));
        return None;
      }
      assert existing.items[0] in existing.items;
      var candidates := Candidates(text, existing, existing.items[0].user);
      if candidates == [] {
        return None;
      }
      near := BestMatch(text, candidates);
    }

    // ------------------------------------------------------- editing in place

    static method Replace(existing: WorkingList, updated: Memory)
      modifies existing
      ensures existing.items == Replaced(old(existing.items), updated)
    {
      for i := 0 to |existing.items|
        invariant existing.items == old(existing.items)
        invariant forall j :: 0 <= j < i ==> existing.items[j].id != updated.id
      {
        if existing.items[i].id == updated.id {
          ReplacedFirst(existing.items, updated, i);
          existing.items := existing.items[i := updated];
          return;
        }
      }
      ReplacedNone(existing.items, updated);
    }

    method Reinforce(memory: Memory, existing: WorkingList, now: int)
      requires Valid()
      modifies backend`memories, existing
      ensures Valid()
      ensures existing.items == Replaced(old(existing.items), Reinforced(memory, now))
      ensures backend.memories
           == Assign(old(backend.memories), memory.user,
                     Row(old(backend.memories), memory.user)[memory.id := Reinforced(memory, now)])
    {
      var updated := Reinforced(memory, now);
      backend.PutMemory(updated);
      Replace(existing, updated);
    }

    method Supersede(stale: Memory, heir: MemoryId, existing: WorkingList, now: int)
      requires Valid()
      modifies backend`memories, existing
      ensures Valid()
      ensures existing.items == Without(old(existing.items), stale.id)
      ensures backend.memories
           == Assign(old(backend.memories), stale.user,
                     Row(old(backend.memories), stale.user)[stale.id := Retired(stale, heir, now)])
    {
      backend.PutMemory(Retired(stale, heir, now));
      existing.items := Without(existing.items, stale.id);
    }

    /** Retires a whole slot, record by record. */
    method SupersedeAll(stale: seq<Memory>, heir: MemoryId, existing: WorkingList, user: UserId, now: int)
      requires Valid() && AllOf(stale, user)
      modifies backend`memories, existing
      ensures Valid()
      ensures var (ns', existing') :=
                RetireAll(Row(old(backend.memories), user), old(existing.items), stale, heir, now);
              existing.items == existing' && backend.memories == Assign(old(backend.memories), user, ns')
    {
      ghost var ns, items := Row(backend.memories, user), existing.items;
      AssignSame(backend.memories, user);
      for i := 0 to |stale|
        invariant Valid()
        invariant existing.items == RetireAll(ns, items, stale[..i], heir, now).1
        invariant backend.memories == Assign(old(backend.memories), user, RetireAll(ns, items, stale[..i], heir, now).0)
      {
        RetireNext(ns, items, stale, heir, now, i);
        assert stale[i] in stale;
        RowAssign(old(backend.memories), user, RetireAll(ns, items, stale[..i], heir, now).0);
        Supersede(stale[i], heir, existing, now);
      }
      assert stale[..|stale|] == stale;
    }

    // ---------------------------------------------------------- one candidate

    /** Re-stating a known fact: bump it, report a DEDUPE. */
    method Restate(c: CandidateFact, known: Memory, existing: WorkingList, who: Author, now: int, ghost d: Desk)
      returns (decision: MemoryDecision)
      requires Valid() && AllOf(existing.items, who.user) && known in existing.items
      requires d.ns == Row(backend.memories, who.user) && d.existing == existing.items
      modifies backend`memories, existing
      ensures Valid()
      ensures Took(d, Perform(d, c, Known(known), now), who.user, old(backend.memories), backend.memories,
                   existing.items, decision, None)
    {
      Reinforce(known, existing, now);
      decision := MemoryDecision(DEDUPE, c.text, Some(known.id), []);
    }

    /** Storing a new fact over whatever its slot holds; nothing stale makes it a plain WRITE. */
    method Store(c: CandidateFact, stale: seq<Memory>, existing: WorkingList, who: Author, id: MemoryId, now: int,
                 ghost d: Desk)
      returns (decision: MemoryDecision, made: Memory)
      requires Valid() && AllOf(existing.items, who.user) && AllOf(stale, who.user)
      requires d.ns == Row(backend.memories, who.user) && d.existing == existing.items
      modifies backend`memories, existing
      ensures Valid()
      ensures made == Build(c, who, id, now)
      ensures Took(d, Perform(d, c, New(made, stale), now), who.user, old(backend.memories), backend.memories,
                   existing.items, decision, Some(made))
    {
      made := Build(c, who, id, now);
      RowAssign(backend.memories, who.user, d.ns[made.id := made]);
      backend.PutMemory(made);
      SupersedeAll(stale, made.id, existing, who.user, now);
      decision := MemoryDecision(if stale == [] then WRITE else SUPERSEDE, c.text, Some(made.id), Ids(stale));
    }

    /**
     Decides one candidate's fate and carries it out. `d` is the turn so far; its working
     list continues with the new record, which the caller appends.
     */
    method Resolve(c: CandidateFact, existing: WorkingList, who: Author, id: MemoryId, now: int, ghost d: Desk)
      returns (decision: MemoryDecision, made: Option<Memory>)
      requires Valid() && AllOf(existing.items, who.user)
      requires d.ns == Row(backend.memories, who.user) && d.existing == existing.items
      modifies this`vectors, backend`memories, existing
      ensures Valid()
      ensures Took(d, WritePolicy.Resolve(backend.env, d, c, who, id, now), who.user, old(backend.memories),
                   backend.memories, existing.items, decision, made)
    {
      DecideIsLawful(backend.env, d.ns, d.existing, c, who, id, now);
      var same := [];
      if c.attribute != "" {
        same := SameSlot(existing.items, FactSlot(c));
        SameSlotMembers(existing.items, FactSlot(c));
        var duplicate := FirstWithValue(backend.env, same, c.value);
        if duplicate.Some? {
          decision := Restate(c, duplicate.value, existing, who, now, d);
          made := None;
          return;
        }
      } else {
        var near := Nearest(c.text, existing, who.user);
        if near.Some? {
          decision := Restate(c, near.value, existing, who, now, d);
          made := None;
          return;
        }
      }
      var memory;
      decision, memory := Store(c, same, existing, who, id, now, d);
      made := Some(memory);
    }

    // --------------------------------------------------------------- a whole turn

    method LoadActive(user: UserId, now: int) returns (existing: WorkingList)
      requires Valid()
      ensures fresh(existing) && AllOf(existing.items, user)
      ensures existing.items == ActiveMemories(backend.env, Row(backend.memories, user), now)
    {
      var page := backend.ListMemories(user, MAX_EXISTING, 0);
      PageOwned(backend.env, backend.memories, user);
      KeepActiveAllOf(page, user, now);
      existing := new WorkingList(KeepActive(page, now));
    }

    /** Keeps a blocked turn for inspection; it never reaches the memory namespace. */
    method Quarantine(text: string, verdict: GateVerdict, who: Author, now: int)
      requires Valid()
      modifies backend`quarantine
      ensures Valid()
      ensures backend.quarantine
           == Assign(old(backend.quarantine), who.user,
                     Row(old(backend.quarantine), who.user)
                       [QuarantineKey(now, backend.env.blake2b(text)) := Quarantined(text, verdict, who.thread, now)])
    {
      backend.PutQuarantine(who.user, QuarantineKey(now, backend.env.blake2b(text)),
                            Quarantined(text, verdict, who.thread, now));
    }

    /** Resolves one candidate; a new record joins the working list for the candidates after it. */
    method ResolveNext(c: CandidateFact, existing: WorkingList, who: Author, id: MemoryId, now: int,
                       ghost table: map<UserId, Namespace>, ghost d: Desk)
      returns (decision: MemoryDecision, made: Option<Memory>)
      requires Valid() && AllOf(existing.items, who.user)
      requires backend.memories == Assign(table, who.user, d.ns) && existing.items == d.existing
      modifies this`vectors, backend`memories, existing
      ensures Valid() && AllOf(existing.items, who.user)
      ensures var d' := WritePolicy.Resolve(backend.env, d, c, who, id, now);
              && backend.memories == Assign(table, who.user, d'.ns)
              && existing.items == d'.existing
              && d'.report == WriteReport(d.report.written + Added(made), d.report.decisions + [decision])
    {
      RowAssign(table, who.user, d.ns);
      ResolvedAllOf(backend.env, d, c, who, id, now);
      decision, made := Resolve(c, existing, who, id, now, d);
      if made.Some? {
        existing.items := existing.items + [made.value];
      }
    }

    /** Resolves the candidates one after another against a shared working list. */
    method ResolveEach(cs: seq<CandidateFact>, who: Author, inp: Inputs) returns (report: WriteReport)
      requires Valid()
      modifies this`vectors, backend`memories
      ensures Valid()
      ensures var d := ResolveAll(backend.env, Row(old(backend.memories), who.user), cs, who, inp);
              backend.memories == Assign(old(backend.memories), who.user, d.ns) && report == d.report
    {
      var existing := LoadActive(who.user, inp.loadAt);
      ghost var table, desks := backend.memories, Turn(backend.env, Row(backend.memories, who.user), cs, who, inp);
      AssignSame(table, who.user);
      var written: seq<Memory>, decisions: seq<MemoryDecision> := [], [];
      for i := 0 to |cs|
        invariant Valid() && AllOf(existing.items, who.user)
        invariant existing.items == desks[i].existing
        invariant WriteReport(written, decisions) == desks[i].report
        invariant backend.memories == Assign(table, who.user, desks[i].ns)
      {
        assert Follows(backend.env, cs, who, inp, i, desks[i], desks[i + 1]);
        var decision, made := ResolveNext(cs[i], existing, who, inp.ids(i), inp.clock(i), table, desks[i]);
        decisions := decisions + [decision];
        written := written + Added(made);
      }
      report := WriteReport(written, decisions);
    }

    /** What an admitted turn asks to have stored, if anything, is resolved. */
    method ExtractAndResolve(turn: string, who: Author, inp: Inputs) returns (report: WriteReport)
      requires Valid()
      modifies this`vectors, backend`memories
      ensures Valid()
      ensures var cs := WritePolicy.Candidates(backend.env, turn);
              var d := ResolveAll(backend.env, Row(old(backend.memories), who.user), cs, who, inp);
              backend.memories == Assign(old(backend.memories), who.user, d.ns) && report == d.report
    {
      var candidates := WritePolicy.Candidates(backend.env, turn);
      if candidates == [] {
        AssignSame(backend.memories, who.user);
        return WriteReport([], []);
      }
      report := ResolveEach(candidates, who, inp);
    }

    /** The full write path; everything it changes and reports is what the model says. */
    method Apply(text: string, who: Author, inp: Inputs) returns (report: WriteReport)
      requires Valid()
      modifies this`vectors, backend`memories, backend`quarantine
      ensures Valid()
      ensures Applied(backend.env, old(backend.Now()), text, who, inp, backend.Now(), report)
    {
      ghost var w := backend.Now();
      var turn := Text.Strip(text);
      if turn == "" {
        NothingWritten(backend.env, w, text, who, inp);
        return WriteReport([], []);
      }
      var verdict := Gate.Inspect(backend.env, turn, who.source);
      if verdict.decision != ALLOW {
        Quarantine(turn, verdict, who, inp.loadAt);
        report := WriteReport([], [MemoryDecision(QUARANTINE, turn, None, [])]);
        BlockedWritten(backend.env, w, text, who, inp, turn, verdict, backend.Now());
        return;
      }
      report := ExtractAndResolve(turn, who, inp);
      AdmittedIntake(backend.env, text, who.source, turn);
      AdmittedWritten(backend.env, w, text, who, inp, WritePolicy.Candidates(backend.env, turn), backend.Now(), report);
    }
  }
}
