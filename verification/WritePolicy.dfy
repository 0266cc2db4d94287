/**
 The write path on values: what one turn does to one user's records. The classes in
 `Manager` and `Agents` are proved to compute these functions; the guarantees of the
 write path are lemmas about them.
 */
module WritePolicy {
  import opened Prelude
  import opened Records
  import opened Environment
  import Text
  import Values
  import Dedupe
  import Gate

  /** How many records, retired ones included, a turn reads before it decides. */
  const MAX_EXISTING: nat := 500

  /** Microseconds in a day. */
  const DAY: int := 86_400_000_000

  /** Values that report absence rather than a fact. */
  predicate IsNonValue(norm: string) {
    norm in {"", "unknown", "unspecified", "none", "n/a", "na", "null", "?"}
  }

  /** Who is writing, from which conversation, with what provenance. */
  datatype Author = Author(user: UserId, thread: Option<ThreadId>, source: Provenance)

  /** The clock readings and fresh ids one operation draws. */
  datatype Inputs = Inputs(
    startAt: int,
    loadAt: int,
    clock: nat -> int,
    doneAt: int,
    ids: nat -> MemoryId
  ) {
    /** Readings never go backwards, from `since` to the end of the operation. */
    ghost predicate Timely(since: int) {
      && since <= startAt <= loadAt <= doneAt
      && (forall i :: loadAt <= clock(i) <= doneAt)
      && (forall i, j :: i <= j ==> clock(i) <= clock(j))
    }

    ghost predicate FreshFor(ns: Namespace) {
      && (forall i :: ids(i) !in ns)
      && (forall i, j :: i != j ==> ids(i) != ids(j))
    }
  }

  function NormValue(env: Env, value: string): string {
    Text.Norm(env.lower, value)
  }

  // ---------------------------------------------------------------- candidates

  predicate IsUsable(env: Env, c: CandidateFact) {
    c.attribute == "" || !IsNonValue(NormValue(env, c.value))
  }

  /** An expiry survives only if the turn itself frames something as temporary. */
  function VerifyTtl(env: Env, c: CandidateFact, turn: string): CandidateFact {
    if c.ttlDays.None? || env.temporal(turn) then c else c.(ttlDays := None)
  }

  function VerifyAll(env: Env, cs: seq<CandidateFact>, turn: string): seq<CandidateFact> {
    if cs == [] then [] else [VerifyTtl(env, cs[0], turn)] + VerifyAll(env, cs[1..], turn)
  }

  function Usable(env: Env): CandidateFact -> bool {
    (c: CandidateFact) => IsUsable(env, c)
  }

  /** The candidates of an admitted turn that reach conflict resolution. */
  function Candidates(env: Env, turn: string): seq<CandidateFact> {
    Filter(Usable(env), VerifyAll(env, Parsed(env.extract(turn)), turn))
  }

  lemma {:induction false} VerifyAllEach(env: Env, cs: seq<CandidateFact>, turn: string)
    ensures |VerifyAll(env, cs, turn)| == |cs|
    ensures forall i :: 0 <= i < |cs| ==> VerifyAll(env, cs, turn)[i] == VerifyTtl(env, cs[i], turn)
  {
    if cs == [] {
    } else {
      VerifyAllEach(env, cs[1..], turn);
    }
  }

  /** A fact that names a slot must say what fills it. */
  ghost predicate IsMeaningful(env: Env, c: CandidateFact) {
    c.attribute == "" || !Values.IsAbsent(env.lower, c.value)
  }

  ghost function Meaningful(env: Env): CandidateFact -> bool {
    (c: CandidateFact) => IsMeaningful(env, c)
  }

  /** It does so unless the normal form of its value is one of eight texts. */
  lemma MeaningfulExactly(env: Env, c: CandidateFact)
    ensures IsMeaningful(env, c) <==>
              c.attribute == "" ||
              NormValue(env, c.value) !in {"", "unknown", "unspecified", "none", "n/a", "na", "null", "?"}
  {
    Values.AbsentExactly(env.lower, c.value);
  }

  lemma UsableIsMeaningful(env: Env, c: CandidateFact)
    ensures IsUsable(env, c) <==> IsMeaningful(env, c)
  {
    MeaningfulExactly(env, c);
  }

  /**
   Of the facts an extractor proposes, each with an unbacked expiry removed, exactly those
   reach conflict resolution that name no slot or say what fills it, in their order.
   */
  lemma CandidatesAreUsable(env: Env, turn: string)
    ensures var facts := Parsed(env.extract(turn));
            var checked := VerifyAll(env, facts, turn);
            && |checked| == |facts|
            && (forall i :: 0 <= i < |facts| ==>
                  && checked[i] == facts[i].(ttlDays := checked[i].ttlDays)
                  && checked[i].ttlDays == if env.temporal(turn) then facts[i].ttlDays else None)
            && Picks(Meaningful(env), checked, Candidates(env, turn))
            && (forall c :: c in Candidates(env, turn) <==> c in checked && IsMeaningful(env, c))
  {
    var facts := Parsed(env.extract(turn));
    var checked := VerifyAll(env, facts, turn);
    VerifyAllEach(env, facts, turn);
    FilterPicks(Usable(env), checked);
    FilterMembers(Usable(env), checked);
    forall c: CandidateFact
      ensures Usable(env)(c) <==> Meaningful(env)(c)
    {
      UsableIsMeaningful(env, c);
    }
    PicksSame(Usable(env), Meaningful(env), checked, Candidates(env, turn));
  }

  // ------------------------------------------------------------- working list

  ghost predicate DistinctIds(ms: seq<Memory>) {
    forall i, j :: 0 <= i < j < |ms| ==> ms[i].id != ms[j].id
  }

  lemma DistinctTail(ms: seq<Memory>)
    requires ms != [] && DistinctIds(ms)
    ensures DistinctIds(ms[1..])
    ensures forall m :: m in ms[1..] ==> m.id != ms[0].id
  {
    forall m | m in ms[1..]
      ensures m.id != ms[0].id
    {
      var i :| 0 <= i < |ms[1..]| && ms[1..][i] == m;
      assert ms[i + 1] == m;
    }
  }

  function Ids(ms: seq<Memory>): (r: seq<MemoryId>)
    ensures |r| == |ms| && forall i :: 0 <= i < |ms| ==> r[i] == ms[i].id
  {
    seq(|ms|, i requires 0 <= i < |ms| => ms[i].id)
  }

  lemma {:induction false} FilterKeepsDistinct(keep: Memory -> bool, ms: seq<Memory>)
    requires DistinctIds(ms)
    ensures DistinctIds(Filter(keep, ms))
  {
    if ms == [] {
    } else {
      var init, last := ms[..|ms| - 1], ms[|ms| - 1];
      FilterKeepsDistinct(keep, init);
      FilterMembers(keep, init);
      var kept := Filter(keep, init);
      forall i | 0 <= i < |kept|
        ensures kept[i].id != last.id
      {
        assert kept[i] in init;
      }
    }
  }

  function InSlot(slot: Slot): Memory -> bool {
    (m: Memory) => m.Slot() == slot
  }

  function OtherThan(id: MemoryId): Memory -> bool {
    (m: Memory) => m.id != id
  }

  function ActiveAt(now: int): Memory -> bool {
    (m: Memory) => m.IsActive(now)
  }

  function SameSlot(existing: seq<Memory>, slot: Slot): seq<Memory> {
    Filter(InSlot(slot), existing)
  }

  lemma SameSlotMembers(existing: seq<Memory>, slot: Slot)
    ensures forall m :: m in SameSlot(existing, slot) <==> m in existing && m.Slot() == slot
    ensures DistinctIds(existing) ==> DistinctIds(SameSlot(existing, slot))
  {
    FilterMembers(InSlot(slot), existing);
    if DistinctIds(existing) {
      FilterKeepsDistinct(InSlot(slot), existing);
    }
  }

  function Without(existing: seq<Memory>, id: MemoryId): seq<Memory> {
    Filter(OtherThan(id), existing)
  }

  lemma WithoutMembers(existing: seq<Memory>, id: MemoryId)
    ensures forall m :: m in Without(existing, id) <==> m in existing && m.id != id
    ensures DistinctIds(existing) ==> DistinctIds(Without(existing, id))
  {
    FilterMembers(OtherThan(id), existing);
    if DistinctIds(existing) {
      FilterKeepsDistinct(OtherThan(id), existing);
    }
  }

  /** The first entry with the updated record's id gives way to it. */
  function Replaced(existing: seq<Memory>, updated: Memory): seq<Memory> {
    if existing == [] then []
    else if existing[0].id == updated.id then [updated] + existing[1..]
    else [existing[0]] + Replaced(existing[1..], updated)
  }

  lemma {:induction false} ReplacedMembers(existing: seq<Memory>, updated: Memory)
    requires DistinctIds(existing)
    ensures var r := Replaced(existing, updated);
            && |r| == |existing|
            && forall i :: 0 <= i < |r| ==>
                 r[i] == if existing[i].id == updated.id then updated else existing[i]
  {
    if existing == [] {
    } else {
      DistinctTail(existing);
      ReplacedMembers(existing[1..], updated);
      var r := Replaced(existing, updated);
      forall i | 0 < i < |r|
        ensures r[i] == if existing[i].id == updated.id then updated else existing[i]
      {
        assert existing[i] == existing[1..][i - 1];
      }
    }
  }

  function FirstWithValue(env: Env, ms: seq<Memory>, value: string): Option<Memory> {
    if ms == [] then None
    else if NormValue(env, ms[0].value) == NormValue(env, value) then Some(ms[0])
    else FirstWithValue(env, ms[1..], value)
  }

  lemma FirstAtLater(env: Env, ms: seq<Memory>, value: string, m: Memory)
    requires ms != [] && NormValue(env, ms[0].value) != NormValue(env, value) && FirstAt(env, ms[1..], value, m)
    ensures FirstAt(env, ms, value, m)
  {
    var rest := ms[1..];
    var i :| 0 <= i < |rest| && rest[i] == m && NormValue(env, rest[i].value) == NormValue(env, value)
        && forall j :: 0 <= j < i ==> NormValue(env, rest[j].value) != NormValue(env, value);
    assert ms[i + 1] == m;
  }

  /** The hit is the first entry with the value; there is none exactly when no entry has it. */
  lemma {:induction false} FirstWithValueFound(env: Env, ms: seq<Memory>, value: string)
    ensures var r := FirstWithValue(env, ms, value);
            && (r.None? <==> forall m :: m in ms ==> NormValue(env, m.value) != NormValue(env, value))
            && (r.Some? ==> FirstAt(env, ms, value, r.value))
  {
    if ms == [] {
    } else {
      FirstWithValueFound(env, ms[1..], value);
      assert ms == [ms[0]] + ms[1..];
      var r := FirstWithValue(env, ms, value);
      if r.Some? && NormValue(env, ms[0].value) != NormValue(env, value) {
        FirstAtLater(env, ms, value, r.value);
      }
    }
  }

  /** m is the first entry of the list whose normalised value is the given one. */
  ghost predicate FirstAt(env: Env, ms: seq<Memory>, value: string, m: Memory) {
    exists i :: 0 <= i < |ms| && ms[i] == m && NormValue(env, ms[i].value) == NormValue(env, value)
      && forall j :: 0 <= j < i ==> NormValue(env, ms[j].value) != NormValue(env, value)
  }

  function KeepActive(ms: seq<Memory>, now: int): seq<Memory> {
    Filter(ActiveAt(now), ms)
  }

  lemma KeepActiveMembers(ms: seq<Memory>, now: int)
    ensures forall m :: m in KeepActive(ms, now) <==> m in ms && m.IsActive(now)
    ensures DistinctIds(ms) ==> DistinctIds(KeepActive(ms, now))
  {
    FilterMembers(ActiveAt(now), ms);
    if DistinctIds(ms) {
      FilterKeepsDistinct(ActiveAt(now), ms);
    }
  }

  /** All three comprehensions keep exactly the records that pass, in their order. */
  lemma ComprehensionsInOrder(ms: seq<Memory>, slot: Slot, id: MemoryId, now: int)
    ensures Picks(InSlot(slot), ms, SameSlot(ms, slot))
    ensures Picks(OtherThan(id), ms, Without(ms, id))
    ensures Picks(ActiveAt(now), ms, KeepActive(ms, now))
  {
    FilterPicks(InSlot(slot), ms);
    FilterPicks(OtherThan(id), ms);
    FilterPicks(ActiveAt(now), ms);
  }

  /** The records behind a list of keys. */
  function Fetch(ns: Namespace, keys: seq<MemoryId>): (r: seq<Memory>)
    requires forall k :: k in keys ==> k in ns
    ensures |r| == |keys| && forall i :: 0 <= i < |keys| ==> r[i] == ns[keys[i]]
  {
    seq(|keys|, i requires 0 <= i < |keys| => ns[keys[i]])
  }

  /** The keys a turn reads: the listing's first 500. */
  function Page(env: Env, ns: Namespace): (r: seq<MemoryId>)
    requires env.ListsAll()
    ensures forall k :: k in r ==> k in ns
  {
    Take(env.listMemories(ns), MAX_EXISTING)
  }

  function ActiveMemories(env: Env, ns: Namespace, now: int): seq<Memory>
    requires env.ListsAll()
  {
    KeepActive(Fetch(ns, Page(env, ns)), now)
  }

  ghost function LiveAt(now: int): Memory -> bool {
    (m: Memory) => Live(m, now)
  }

  /**
   A turn reads the records that the store lists first, up to 500 of them, and works on those
   that are neither retired nor expired, in the order of the listing.
   */
  lemma PageIsFirst(env: Env, ns: Namespace, now: int) returns (page: seq<Memory>)
    requires env.ListsAll()
    ensures var all := env.listMemories(ns);
            && |page| == (if |all| < 500 then |all| else 500)
            && (forall i :: 0 <= i < |page| ==> all[i] in ns && page[i] == ns[all[i]])
    ensures Picks(LiveAt(now), page, ActiveMemories(env, ns, now))
  {
    page := Fetch(ns, Page(env, ns));
    assert Enumerates(env.listMemories(ns), ns.Keys);
    FilterPicks(ActiveAt(now), page);
    PicksSame(ActiveAt(now), LiveAt(now), page, ActiveMemories(env, ns, now));
  }

  // --------------------------------------------------------------- one candidate

  function Build(c: CandidateFact, who: Author, id: MemoryId, now: int): (m: Memory)
    ensures m.id == id && m.user == who.user && m.attribute == c.attribute && m.scope == c.scope
    ensures m.text == c.text && m.value == c.value && m.kind == c.kind && m.importance == c.importance
    ensures m.source == who.source && m.thread == who.thread && m.evidence == Some(c.text)
    ensures m.createdAt == m.updatedAt == now && m.supersededBy.None? && m.supersededAt.None?
    ensures if c.ttlDays.None? then m.expiresAt.None? else m.expiresAt == Some(now + c.ttlDays.value * 86_400_000_000)
    ensures forall t :: t <= now ==> m.IsActive(t)
  {
    Memory(id, who.user, c.text, c.kind, who.source, c.importance, now, now,
           if c.ttlDays.Some? then Some(now + c.ttlDays.value * DAY) else None,
           None, None, c.attribute, c.value, c.scope, who.thread, Some(c.text))
  }

  function Reinforced(m: Memory, now: int): (r: Memory)
    ensures r == m.(importance := r.importance, updatedAt := now)
    ensures m.importance <= 0.9 ==> r.importance == m.importance + 0.1
    ensures m.importance >= 0.9 ==> r.importance == 1.0
  {
    m.(importance := if m.importance + 0.1 < 1.0 then m.importance + 0.1 else 1.0, updatedAt := now)
  }

  function Retired(m: Memory, heir: MemoryId, now: int): (r: Memory)
    ensures r.supersededBy == Some(heir) && r.supersededAt == Some(now)
    ensures m == r.(supersededBy := m.supersededBy, supersededAt := m.supersededAt)
  {
    m.(supersededBy := Some(heir), supersededAt := Some(now))
  }

  /** What is to become of one candidate. */
  datatype Fate =
    | Known(known: Memory)
    | New(made: Memory, stale: seq<Memory>)

  function Decide(env: Env, ns: Namespace, existing: seq<Memory>, c: CandidateFact, who: Author, id: MemoryId,
                  now: int): Fate
    requires env.EmbedsUniformly()
  {
    if c.attribute != "" then
      var same := SameSlot(existing, FactSlot(c));
      var duplicate := FirstWithValue(env, same, c.value);
      if duplicate.Some? then Known(duplicate.value) else New(Build(c, who, id, now), same)
    else
      var near := Dedupe.Nearest(env, ns, existing, c.text);
      if near.Some? then Known(near.value) else New(Build(c, who, id, now), [])
  }

  /** What a fate may be, for a candidate met with a given working list. */
  ghost predicate Lawful(env: Env, existing: seq<Memory>, c: CandidateFact, who: Author, id: MemoryId, now: int,
                         f: Fate)
  {
    match f
    case Known(m) =>
      && m in existing
      && (c.attribute != "" ==> m.Slot() == FactSlot(c) && NormValue(env, m.value) == NormValue(env, c.value))
    case New(m, stale) =>
      && m == Build(c, who, id, now)
      && stale == (if c.attribute != "" then SameSlot(existing, FactSlot(c)) else [])
      && (forall s :: s in stale ==> NormValue(env, s.value) != NormValue(env, c.value))
  }

  /** The record is about the same thing as the fact and, but for case and white space, says the same of it. */
  ghost predicate Restates(env: Env, m: Memory, c: CandidateFact) {
    m.attribute == c.attribute && m.scope == c.scope && Values.SameWords(env.lower, m.value, c.value)
  }

  ghost function AboutSame(c: CandidateFact): Memory -> bool {
    (m: Memory) => m.attribute == c.attribute && m.scope == c.scope
  }

  /** m is the first record of the list that the fact restates. */
  ghost predicate FirstRestated(env: Env, existing: seq<Memory>, c: CandidateFact, m: Memory) {
    exists i :: 0 <= i < |existing| && existing[i] == m && Restates(env, m, c)
      && forall j :: 0 <= j < i ==> !Restates(env, existing[j], c)
  }

  lemma RestatesExactly(env: Env, m: Memory, c: CandidateFact)
    ensures Restates(env, m, c) <==> m.Slot() == FactSlot(c) && NormValue(env, m.value) == NormValue(env, c.value)
  {
    Values.NormTells(env.lower, m.value, c.value);
  }

  /**
   A slotted candidate is known exactly when some record of its slot says the same but for
   case and white space.
   */
  lemma DecideIsLawful(env: Env, ns: Namespace, existing: seq<Memory>, c: CandidateFact, who: Author, id: MemoryId,
                       now: int)
    requires env.EmbedsUniformly()
    ensures var f := Decide(env, ns, existing, c, who, id, now);
            && Lawful(env, existing, c, who, id, now, f)
            && (c.attribute != "" ==>
                  (f.Known? <==> exists m :: m in existing && Restates(env, m, c)))
  {
    if c.attribute != "" {
      SameSlotMembers(existing, FactSlot(c));
      FirstWithValueFound(env, SameSlot(existing, FactSlot(c)), c.value);
      forall m | m in existing
        ensures Restates(env, m, c) <==> m in SameSlot(existing, FactSlot(c))
                                         && NormValue(env, m.value) == NormValue(env, c.value)
      {
        RestatesExactly(env, m, c);
      }
    } else {
      Dedupe.NearestIsSound(env, ns, existing, c.text);
    }
  }

  lemma SlotIsAbout(existing: seq<Memory>, c: CandidateFact)
    ensures Picks(AboutSame(c), existing, SameSlot(existing, FactSlot(c)))
  {
    FilterPicks(InSlot(FactSlot(c)), existing);
    PicksSame(InSlot(FactSlot(c)), AboutSame(c), existing, SameSlot(existing, FactSlot(c)));
  }

  lemma FirstInSlot(env: Env, existing: seq<Memory>, c: CandidateFact, same: seq<Memory>, m: Memory)
    requires same == SameSlot(existing, FactSlot(c)) && FirstAt(env, same, c.value, m)
    ensures FirstRestated(env, existing, c, m)
  {
    var saysSame := (x: Memory) => NormValue(env, x.value) == NormValue(env, c.value);
    var i :| 0 <= i < |same| && same[i] == m && NormValue(env, same[i].value) == NormValue(env, c.value)
        && forall j :: 0 <= j < i ==> NormValue(env, same[j].value) != NormValue(env, c.value);
    var k := FirstKept(InSlot(FactSlot(c)), saysSame, existing, i);
    forall j | 0 <= j <= k
      ensures Restates(env, existing[j], c) <==> InSlot(FactSlot(c))(existing[j]) && saysSame(existing[j])
    {
      RestatesExactly(env, existing[j], c);
    }
    FirstIs(env, existing, c, k);
  }

  lemma FirstIs(env: Env, existing: seq<Memory>, c: CandidateFact, k: nat)
    requires k < |existing| && Restates(env, existing[k], c)
    requires forall j :: 0 <= j < k ==> !Restates(env, existing[j], c)
    ensures FirstRestated(env, existing, c, existing[k])
  {
  }

  /**
   The fate of a fact with a slot: it is known if and only if some record of the working list
   about the same thing says the same but for case and white space, and the first of them it
   is; otherwise it is new, at the cost of every record about the same thing, in list order.
   */
  lemma SlottedFate(env: Env, ns: Namespace, existing: seq<Memory>, c: CandidateFact, who: Author, id: MemoryId,
                    now: int)
    requires env.EmbedsUniformly() && c.attribute != ""
    ensures var f := Decide(env, ns, existing, c, who, id, now);
            && (f.Known? <==> exists m :: m in existing && Restates(env, m, c))
            && (f.Known? ==> FirstRestated(env, existing, c, f.known))
            && (f.New? ==> f.made == Build(c, who, id, now) && Picks(AboutSame(c), existing, f.stale))
  {
    var same := SameSlot(existing, FactSlot(c));
    SlotIsAbout(existing, c);
    DecideIsLawful(env, ns, existing, c, who, id, now);
    FirstWithValueFound(env, same, c.value);
    var duplicate := FirstWithValue(env, same, c.value);
    if duplicate.Some? {
      FirstInSlot(env, existing, c, same, duplicate.value);
    }
  }

  /**
   The fate of a fact without a slot: it is known if and only if it is as close as the
   threshold asks to some record the index puts before it, and one of the closest it is.
   */
  lemma UnslottedFate(env: Env, ns: Namespace, existing: seq<Memory>, c: CandidateFact, who: Author, id: MemoryId,
                      now: int)
    requires env.EmbedsUniformly() && IsSqrt(env.sqrt) && c.attribute == ""
    ensures var f := Decide(env, ns, existing, c, who, id, now);
            var window := Dedupe.Window(env, ns, existing, c.text);
            && (f.Known? <==> exists m :: m in window && Dedupe.AsClose(env, c.text, m, env.similarity))
            && (f.Known? ==>
                  && f.known in window
                  && forall m, s :: m in window && Dedupe.AsClose(env, c.text, m, s) ==>
                       Dedupe.AsClose(env, c.text, f.known, s))
            && (f.New? ==> f == New(Build(c, who, id, now), []))
  {
    Dedupe.NearestExactly(env, ns, existing, c.text);
  }

  /** The records and the working list after the stale ones are retired, first to last. */
  function RetireAll(ns: Namespace, existing: seq<Memory>, stale: seq<Memory>, heir: MemoryId, now: int):
      (Namespace, seq<Memory>)
  {
    if stale == [] then (ns, existing)
    else
      var (ns', existing') := RetireAll(ns, existing, stale[..|stale| - 1], heir, now);
      var last := stale[|stale| - 1];
      (ns'[last.id := Retired(last, heir, now)], Without(existing', last.id))
  }

  function DecisionFor(c: CandidateFact, f: Fate): MemoryDecision {
    match f
    case Known(m) => MemoryDecision(DEDUPE, c.text, Some(m.id), [])
    case New(m, stale) =>
      MemoryDecision(if stale == [] then WRITE else SUPERSEDE, c.text, Some(m.id), Ids(stale))
  }

  // ------------------------------------------------------------------- one turn

  /** A turn in progress: the store, the working list beside it, and the report so far. */
  datatype Desk = Desk(ns: Namespace, existing: seq<Memory>, report: WriteReport)

  function Perform(d: Desk, c: CandidateFact, f: Fate, now: int): Desk {
    var decisions := d.report.decisions + [DecisionFor(c, f)];
    match f
    case Known(m) =>
      var m' := Reinforced(m, now);
      Desk(d.ns[m.id := m'], Replaced(d.existing, m'), WriteReport(d.report.written, decisions))
    case New(m, stale) =>
      var (ns', existing') := RetireAll(d.ns[m.id := m], d.existing, stale, m.id, now);
      Desk(ns', existing' + [m], WriteReport(d.report.written + [m], decisions))
  }

  function Resolve(env: Env, d: Desk, c: CandidateFact, who: Author, id: MemoryId, now: int): Desk
    requires env.EmbedsUniformly()
  {
    Perform(d, c, Decide(env, d.ns, d.existing, c, who, id, now), now)
  }

  function Opened(env: Env, ns: Namespace, now: int): Desk
    requires env.ListsAll()
  {
    Desk(ns, ActiveMemories(env, ns, now), WriteReport([], []))
  }

  /** d' is what resolving candidate k makes of d. */
  ghost predicate Follows(env: Env, cs: seq<CandidateFact>, who: Author, inp: Inputs, k: nat, d: Desk, d': Desk)
    requires env.EmbedsUniformly() && k < |cs|
  {
    d' == Resolve(env, d, cs[k], who, inp.ids(k), inp.clock(k))
  }

  /** desks[n] is the desk after the first n candidates. */
  ghost predicate IsTurn(env: Env, ns: Namespace, cs: seq<CandidateFact>, who: Author, inp: Inputs, desks: seq<Desk>)
    requires env.Valid()
  {
    && |desks| == |cs| + 1
    && desks[0] == Opened(env, ns, inp.loadAt)
    && forall n :: 0 <= n < |cs| ==> Follows(env, cs, who, inp, n, desks[n], desks[n + 1])
  }

  /** The desks of the first n candidates, from the opening one on. */
  function Desks(env: Env, start: Desk, cs: seq<CandidateFact>, who: Author, inp: Inputs, n: nat): (r: seq<Desk>)
    requires env.EmbedsUniformly() && n <= |cs|
    ensures |r| == n + 1 && r[0] == start
    ensures forall k :: 0 <= k < n ==> Follows(env, cs, who, inp, k, r[k], r[k + 1])
  {
    if n == 0 then [start]
    else
      var before := Desks(env, start, cs, who, inp, n - 1);
      var d := Resolve(env, before[n - 1], cs[n - 1], who, inp.ids(n - 1), inp.clock(n - 1));
      assert Follows(env, cs, who, inp, n - 1, before[n - 1], d);
      before + [d]
  }

  function Turn(env: Env, ns: Namespace, cs: seq<CandidateFact>, who: Author, inp: Inputs): (desks: seq<Desk>)
    requires env.Valid()
    ensures IsTurn(env, ns, cs, who, inp, desks)
  {
    Desks(env, Opened(env, ns, inp.loadAt), cs, who, inp, |cs|)
  }

  function ResolveAll(env: Env, ns: Namespace, cs: seq<CandidateFact>, who: Author, inp: Inputs): Desk
    requires env.Valid()
  {
    Turn(env, ns, cs, who, inp)[|cs|]
  }

  /** Why a turn got no further than the gate, or what it asks to have stored. */
  datatype Intake = Ignored | Blocked(verdict: GateVerdict) | Admitted(candidates: seq<CandidateFact>)

  function TakeIn(env: Env, text: string, source: Provenance): Intake {
    var turn := Text.Strip(text);
    if turn == "" then Ignored
    else
      var verdict := Gate.Inspect(env, turn, source);
      if verdict.decision == ALLOW then Admitted(Candidates(env, turn)) else Blocked(verdict)
  }

  /** `MemoryManager.apply` on one user's records; quarantine is `BlockedItem`. */
  function Apply(env: Env, ns: Namespace, text: string, who: Author, inp: Inputs): (Namespace, WriteReport)
    requires env.Valid()
  {
    match TakeIn(env, text, who.source)
    case Ignored => (ns, WriteReport([], []))
    case Blocked(_) =>
      (ns, WriteReport([], [MemoryDecision(QUARANTINE, Text.Strip(text), None, [])]))
    case Admitted(cs) =>
      var d := ResolveAll(env, ns, cs, who, inp);
      (d.ns, d.report)
  }

  /** What becomes of a text: blank ones are ignored, untrusted ones blocked, and marked ones if scanned. */
  lemma IntakeExactly(env: Env, text: string, source: Provenance)
    ensures var intake, turn := TakeIn(env, text, source), Text.Strip(text);
            var trusted := source == USER || source == AGENT;
            && (intake.Ignored? <==> Text.IsBlank(text))
            && (intake.Admitted? <==>
                  !Text.IsBlank(text) && trusted && (env.scanTrusted ==> env.markers(turn) == []))
            && (intake.Admitted? ==> intake.candidates == Candidates(env, turn))
            && (intake.Blocked? ==>
                  intake.verdict == if trusted then GateVerdict(BLOCK_INSTRUCTION, source, env.markers(turn))
                                    else GateVerdict(BLOCK_UNTRUSTED, source, []))
  {
    Text.BlankExactly(text);
  }

  /** Desks of an admitted turn, from the working list it opens with, one per candidate. */
  ghost predicate Deliberates(env: Env, ns: Namespace, cs: seq<CandidateFact>, who: Author, inp: Inputs,
                              desks: seq<Desk>)
    requires env.Valid()
  {
    && |desks| == |cs| + 1
    && desks[0] == Desk(ns, ActiveMemories(env, ns, inp.loadAt), WriteReport([], []))
    && forall n :: 0 <= n < |cs| ==> Follows(env, cs, who, inp, n, desks[n], desks[n + 1])
  }

  /**
   What a text does. A blank one does nothing. A blocked one is quarantined and reported as
   such, nothing else. An admitted one has its candidates resolved one after another.
   */
  lemma TurnOutcome(env: Env, ns: Namespace, q: map<QuarantineKey, Quarantined>, text: string, who: Author, inp: Inputs)
    returns (desks: seq<Desk>)
    requires env.Valid()
    ensures var intake, turn := TakeIn(env, text, who.source), Text.Strip(text);
            var (ns', report) := Apply(env, ns, text, who, inp);
            var q' := ApplyQuarantine(env, q, text, who, inp.loadAt);
            && (intake.Ignored? ==> ns' == ns && q' == q && report.written == [] && report.decisions == [])
            && (intake.Blocked? ==>
                  && ns' == ns && report.written == [] && |report.decisions| == 1
                  && report.decisions[0] == MemoryDecision(QUARANTINE, turn, None, [])
                  && q' == q[QuarantineKey(inp.loadAt, env.blake2b(turn)) :=
                               Quarantined(turn, intake.verdict, who.thread, inp.loadAt)])
            && (intake.Admitted? ==>
                  && q' == q && Deliberates(env, ns, intake.candidates, who, inp, desks)
                  && ns' == desks[|intake.candidates|].ns && report == desks[|intake.candidates|].report)
  {
    desks := [];
    match TakeIn(env, text, who.source)
    case Ignored =>
    case Blocked(_) =>
    case Admitted(cs) => desks := Turn(env, ns, cs, who, inp);
  }

  lemma NothingToStore(env: Env, turn: string)
    requires forall c :: c in Parsed(env.extract(turn)) ==> c.attribute != "" && Values.IsAbsent(env.lower, c.value)
    ensures Candidates(env, turn) == []
  {
    var facts := Parsed(env.extract(turn));
    var checked := VerifyAll(env, facts, turn);
    VerifyAllEach(env, facts, turn);
    forall i | 0 <= i < |checked|
      ensures !Usable(env)(checked[i])
    {
      assert facts[i] in facts;
      UsableIsMeaningful(env, checked[i]);
    }
    FilterNone(Usable(env), checked);
  }

  /** A turn whose facts all name a slot without saying what fills it changes and reports nothing. */
  lemma SayingNothingChangesNothing(env: Env, ns: Namespace, text: string, who: Author, inp: Inputs)
    requires env.Valid() && TakeIn(env, text, who.source).Admitted?
    requires forall c :: c in Parsed(env.extract(Text.Strip(text))) ==>
                           c.attribute != "" && Values.IsAbsent(env.lower, c.value)
    ensures Apply(env, ns, text, who, inp) == (ns, WriteReport([], []))
  {
    NothingToStore(env, Text.Strip(text));
    NothingResolved(env, ns, who, inp);
  }

  lemma NothingResolved(env: Env, ns: Namespace, who: Author, inp: Inputs)
    requires env.Valid()
    ensures ResolveAll(env, ns, [], who, inp).ns == ns
    ensures ResolveAll(env, ns, [], who, inp).report == WriteReport([], [])
  {
  }

  /** What a blocked turn leaves in quarantine. */
  function BlockedItem(env: Env, text: string, who: Author, verdict: GateVerdict, now: int):
      (QuarantineKey, Quarantined)
  {
    (QuarantineKey(now, env.blake2b(Text.Strip(text))), Quarantined(Text.Strip(text), verdict, who.thread, now))
  }

  function ApplyQuarantine(env: Env, q: map<QuarantineKey, Quarantined>, text: string, who: Author, now: int):
      map<QuarantineKey, Quarantined>
  {
    match TakeIn(env, text, who.source)
    case Blocked(verdict) =>
      var (key, item) := BlockedItem(env, text, who, verdict, now);
      q[key := item]
    case _ => q
  }
}
