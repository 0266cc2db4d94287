/**
 Past the cap: 501 chats about different things and one that contradicts the first of them
 to be listed last leave two live values in one slot, whatever order the store lists in.
 */
module Overflow {
  import opened Prelude
  import opened Records
  import opened Environment
  import opened World
  import opened Reachable
  import opened ThreadIndex
  import opened TurnInvariants
  import opened OneLiveValue
  import opened Assertions
  import opened TurnWords
  import opened LastWriter
  import WritePolicy
  import Text

  const ANN: UserId := "ann"

  /** An extractor that takes the first letter of a turn for a value and the rest for its slot. */
  function Echo(turn: string): seq<RawFact> {
    if turn == "" then [] else [Said(turn)]
  }

  function Said(turn: string): RawFact
    requires turn != ""
  {
    RawFact("fact", turn[1..], [turn[0]], "", SEMANTIC, 0.5, None)
  }

  /** The given environment with that extractor and nothing in its way. */
  function Plain(env: Env): (plain: Env)
    ensures IsPlain(plain) && (env.Valid() ==> plain.Valid())
  {
    env.(extract := Echo, scanTrusted := false, memory := true, lower := (c: char) => [c])
  }

  ghost predicate IsPlain(env: Env) {
    && (forall turn :: env.extract(turn) == Echo(turn))
    && !env.scanTrusted && env.memory
    && (forall c :: env.lower(c) == [c])
  }

  function Name(n: nat): (name: string)
    ensures |name| == n && forall i :: 0 <= i < n ==> name[i] == 'a'
  {
    seq(n, _ => 'a')
  }

  /** Chat n draws ids of length n, n + 1000, and so on. */
  function Draw(n: nat): WritePolicy.Inputs {
    WritePolicy.Inputs(0, 0, (k: nat) => 0, 0, (k: nat) => Name(n + 1000 * k))
  }

  function Say(n: nat, text: string): Op {
    Chat(ANN, "t", text, Draw(n))
  }

  /** n live records, each alone in its own slot: what n chats leave. */
  function Crowd(n: nat): Namespace {
    if n == 0 then map[] else Crowd(n - 1)[Name(n) := RecordOf(n, "o" + Name(n))]
  }

  function RecordOf(n: nat, text: string): Memory
    requires text != ""
  {
    WritePolicy.Build(Said(text), WritePolicy.Author(ANN, Some("t"), USER), Name(n), 0)
  }

  /** n records, each named and filed after its slot. */
  ghost predicate IsCrowd(ns: Namespace, n: nat) {
    |ns| == n && forall id :: id in ns ==> 1 <= |id| <= n && IsName(id) && IsMember(ns[id], id)
  }

  lemma RecordFacts(n: nat)
    ensures IsName(Name(n)) && IsMember(RecordOf(n, "o" + Name(n)), Name(n))
  {
    assert ("o" + Name(n))[1..] == Name(n);
  }

  lemma CrowdGrows(ns: Namespace, n: nat, m: Memory)
    requires IsCrowd(ns, n) && IsName(Name(n + 1)) && IsMember(m, Name(n + 1))
    ensures IsCrowd(ns[Name(n + 1) := m], n + 1)
  {
    assert Name(n + 1) !in ns;
  }

  lemma {:induction false} CrowdFacts(n: nat)
    ensures IsCrowd(Crowd(n), n)
  {
    if n == 0 {
    } else {
      CrowdFacts(n - 1);
      RecordFacts(n);
      CrowdGrows(Crowd(n - 1), n - 1, RecordOf(n, "o" + Name(n)));
    }
  }

  ghost predicate IsName(id: MemoryId) {
    forall i :: 0 <= i < |id| ==> id[i] == 'a'
  }

  ghost predicate IsMember(m: Memory, id: MemoryId) {
    && m.id == id && m.attribute == id && m.value == "o"
    && m.user == ANN && m.scope == "" && m.expiresAt.None? && m.supersededBy.None?
  }

  // ------------------------------------------------------------------ one chat

  lemma ValueIsUsable(env: Env, c: RawFact)
    requires IsPlain(env) && (c.value == "o" || c.value == "n")
    ensures WritePolicy.NormValue(env, c.value) == c.value
  {
    var v := c.value;
    assert v[1..] == "" && [v[0]] == v && "" + [v[0]] == v;
    assert Text.Lower(env.lower, v) == env.lower(v[0]) + Text.Lower(env.lower, v[1..]) == v;
    assert Text.Fields(v, "") == Text.Fields(v[1..], "" + [v[0]]) == [v];
  }

  lemma OneCandidate(env: Env, c: CandidateFact, turn: string)
    requires IsPlain(env) && (c.value == "o" || c.value == "n") && c.ttlDays.None?
    requires env.extract(turn) == [c]
    ensures WritePolicy.Candidates(env, turn) == [c]
  {
    ValueIsUsable(env, c);
    var cs: seq<CandidateFact> := [c];
    assert Validate(c) == Some(c) && Parsed([c]) == cs;
    assert cs[1..] == [] && cs[..0] == [];
    assert WritePolicy.VerifyAll(env, cs, turn) == cs;
    assert Filter(WritePolicy.Usable(env), cs) == cs;
  }

  /** A letter for the value, then a name for the slot. */
  ghost predicate IsPhrase(text: string) {
    |text| > 1 && (text[0] == 'o' || text[0] == 'n') && forall i :: 0 < i < |text| ==> text[i] == 'a'
  }

  lemma PhraseIsTrimmed(text: string)
    requires IsPhrase(text)
    ensures Text.Strip(text) == text
  {
    assert text[|text| - 1] == 'a';
    assert Text.Trimmed(text);
  }

  lemma Admits(env: Env, text: string, cs: seq<CandidateFact>)
    requires text != "" && Text.Strip(text) == text && !env.scanTrusted
    requires cs == WritePolicy.Candidates(env, text)
    ensures WritePolicy.TakeIn(env, text, USER) == WritePolicy.Admitted(cs)
  {
  }

  lemma EchoSays(env: Env, text: string, c: RawFact)
    requires IsPlain(env) && IsPhrase(text) && c == Said(text)
    ensures env.extract(text) == [c] && (c.value == "o" || c.value == "n")
  {
    assert env.extract(text) == Echo(text);
    assert c.value == [text[0]];
  }

  lemma TurnAsserts(env: Env, text: string, c: CandidateFact)
    requires IsPlain(env) && IsPhrase(text) && c == Said(text)
    ensures WritePolicy.TakeIn(env, text, USER) == WritePolicy.Admitted([c])
  {
    EchoSays(env, text, c);
    OneCandidate(env, c, text);
    PhraseIsTrimmed(text);
    Admits(env, text, [c]);
  }

  lemma HeadIsMember<T>(s: seq<T>)
    ensures s == [] || exists x :: x in s
  {
    if s == [] {
    } else {
      assert s[0] in s;
    }
  }

  lemma SlotIsEmpty(ns: Namespace, existing: seq<Memory>, slot: Slot, t: int)
    requires Mirrors(ns, existing, t) && forall id :: id in ns ==> ns[id].Slot() != slot
    ensures WritePolicy.SameSlot(existing, slot) == []
  {
    var same := WritePolicy.SameSlot(existing, slot);
    WritePolicy.SameSlotMembers(existing, slot);
    forall m | m in existing
      ensures m.Slot() != slot
    {
      var i :| 0 <= i < |existing| && existing[i] == m;
      assert Current(ns, existing[i], t);
    }
    HeadIsMember(same);
  }

  /** A single candidate whose slot the working list does not hold becomes a record. */
  lemma OneNew(env: Env, ns: Namespace, c: CandidateFact, who: WritePolicy.Author, inp: WritePolicy.Inputs)
    requires env.Valid() && c.attribute != "" && Keyed(ns, who.user)
    requires forall id :: id in ns ==> ns[id].Slot() != FactSlot(c)
    ensures WritePolicy.ResolveAll(env, ns, [c], who, inp).ns
         == ns[inp.ids(0) := WritePolicy.Build(c, who, inp.ids(0), inp.clock(0))]
  {
    var desks := WritePolicy.Turn(env, ns, [c], who, inp);
    OpenedMirrors(env, ns, who.user, inp.loadAt);
    SlotIsEmpty(ns, desks[0].existing, FactSlot(c), inp.loadAt);
    assert WritePolicy.Follows(env, [c], who, inp, 0, desks[0], desks[1]);
  }

  lemma AppliedOnce(env: Env, ns: Namespace, text: string, c: CandidateFact, who: WritePolicy.Author,
                    inp: WritePolicy.Inputs)
    requires env.Valid() && WritePolicy.TakeIn(env, text, who.source) == WritePolicy.Admitted([c])
    ensures WritePolicy.Apply(env, ns, text, who, inp).0 == WritePolicy.ResolveAll(env, ns, [c], who, inp).ns
  {
  }

  lemma ApplyOne(env: Env, ns: Namespace, text: string, who: WritePolicy.Author, inp: WritePolicy.Inputs)
    requires env.Valid() && IsPlain(env) && who.source == USER && Keyed(ns, who.user)
    requires IsNews(ns, text)
    ensures WritePolicy.Apply(env, ns, text, who, inp).0
         == ns[inp.ids(0) := WritePolicy.Build(Said(text), who, inp.ids(0), inp.clock(0))]
  {
    var c: CandidateFact := Said(text);
    TurnAsserts(env, text, c);
    OneNew(env, ns, c, who, inp);
    AppliedOnce(env, ns, text, c, who, inp);
  }

  /** No record of the namespace is about what the phrase names. */
  ghost predicate IsNews(ns: Namespace, phrase: string) {
    IsPhrase(phrase) && forall id :: id in ns ==> ns[id].attribute != phrase[1..]
  }

  /** A chat of the shape the extractor understands, about something new, adds one record. */
  lemma OneChat(env: Env, w: State, op: Op, w': State, ns: Namespace)
    requires env.Valid() && IsPlain(env) && op.Chat? && w' == Next(env, w, op)
    requires ns == w.Mem(op.user) && NoLegacy(env, w.index) && Keyed(ns, op.user) && IsNews(ns, op.message)
    ensures w'.Mem(op.user) == ns[op.inputs.ids(0) :=
              WritePolicy.Build(Said(op.message), ChatAuthor(op), op.inputs.ids(0), op.inputs.clock(0))]
  {
    NothingRefused(env, w, op);
    TurnStep(env, w, op, w');
    ApplyOne(env, ns, op.message, ChatAuthor(op), op.inputs);
  }

  lemma CrowdIsOld(ns: Namespace, n: nat, phrase: string)
    requires ns == Crowd(n) && phrase == "o" + Name(n + 1)
    ensures Keyed(ns, ANN) && IsNews(ns, phrase)
  {
    CrowdFacts(n);
    assert phrase[1..] == Name(n + 1);
  }

  lemma SayFacts(op: Op, n: nat)
    requires op == Say(n, "o" + Name(n))
    ensures op.inputs.ids(0) == Name(n) && op.inputs.clock(0) == 0
    ensures WritePolicy.Build(Said(op.message), ChatAuthor(op), op.inputs.ids(0), op.inputs.clock(0))
         == RecordOf(n, "o" + Name(n))
  {
    assert Name(n + 1000 * 0) == Name(n);
  }

  lemma CrowdNext(n: nat)
    ensures Crowd(n + 1) == Crowd(n)[Name(n + 1) := RecordOf(n + 1, "o" + Name(n + 1))]
  {
  }

  /** One more chat adds one more record to the crowd. */
  lemma OneMore(env: Env, w: State, op: Op, n: nat, w': State, ns: Namespace)
    requires env.Valid() && IsPlain(env)
    requires ns == w.Mem(ANN) && ns == Crowd(n) && NoLegacy(env, w.index)
    requires op == Say(n + 1, "o" + Name(n + 1)) && w' == Next(env, w, op)
    ensures w'.Mem(ANN) == Crowd(n + 1)
  {
    CrowdIsOld(ns, n, op.message);
    OneChat(env, w, op, w', ns);
    SayFacts(op, n + 1);
    CrowdNext(n);
  }

  // ------------------------------------------------------------------- the run

  function CrowdOps(n: nat): (ops: seq<Op>)
    ensures |ops| == n && forall i :: 0 <= i < n ==> ops[i] == Say(i + 1, "o" + Name(i + 1))
  {
    seq(n, i requires 0 <= i < n => Say(i + 1, "o" + Name(i + 1)))
  }

  function Midnight(n: nat): (times: seq<int>)
    ensures |times| == n && forall i :: 0 <= i < n ==> times[i] == 0
  {
    seq(n, _ => 0)
  }

  /** After n chats the crowd has n members, and no conversation is a legacy one. */
  ghost predicate CrowdAt(env: Env, w: State, n: nat) {
    w.Mem(ANN) == Crowd(n) && Indexed(env, w.index) && NoLegacy(env, w.index)
  }

  lemma NextCrowd(env: Env, w: State, n: nat, op: Op, w': State, out: Output)
    requires env.Valid() && IsPlain(env) && CrowdAt(env, w, n)
    requires op == Say(n + 1, "o" + Name(n + 1)) && Steps(env, w, op, w', out)
    ensures CrowdAt(env, w', n + 1)
  {
    StepKeepsIndex(env, w, op, w');
    OneMore(env, w, op, n, w', w.Mem(ANN));
  }

  ghost function Gathered(env: Env): (State, nat) -> bool {
    (w: State, i: nat) => CrowdAt(env, w, i)
  }

  lemma CrowdStarts(env: Env)
    ensures Gathered(env)(Empty(), 0)
  {
  }

  lemma {:induction false} NextGathers(env: Env, ops: seq<Op>, states: seq<State>, outs: seq<Output>, i: nat)
    requires env.Valid() && IsPlain(env) && IsRun(env, ops, states, outs) && i < |ops|
    requires ops[i] == Say(i + 1, "o" + Name(i + 1))
    ensures Keeps(states, Gathered(env), i)
  {
    if CrowdAt(env, states[i], i) {
      assert Steps(env, states[i], ops[i], states[i + 1], outs[i]);
      NextCrowd(env, states[i], i, ops[i], states[i + 1], outs[i]);
    }
  }

  lemma {:induction false} CrowdGathers(env: Env, ops: seq<Op>, states: seq<State>, outs: seq<Output>, n: nat)
    requires env.Valid() && IsPlain(env) && IsRun(env, ops, states, outs) && states[0] == Empty()
    requires n <= |ops| && forall i :: 0 <= i < n ==> ops[i] == Say(i + 1, "o" + Name(i + 1))
    ensures Gathered(env)(states[n], n)
  {
    forall i | 0 <= i < n
      ensures Keeps(states, Gathered(env), i)
    {
      NextGathers(env, ops, states, outs, i);
    }
    CrowdStarts(env);
    RunKeeps(states, Gathered(env), n);
  }

  lemma DrawFacts(n: nat, inp: WritePolicy.Inputs)
    requires inp == Draw(n)
    ensures inp.Timely(0) && forall k: nat :: |inp.ids(k)| == n + 1000 * k
  {
  }

  lemma LongIdsAreFresh(inp: WritePolicy.Inputs, ns: Namespace, n: nat)
    requires IsCrowd(ns, n) && forall k: nat :: |inp.ids(k)| == n + 1 + 1000 * k
    ensures inp.FreshFor(ns)
  {
  }

  lemma DrawIsFresh(n: nat)
    ensures Draw(n + 1).FreshFor(Crowd(n)) && Draw(n + 1).Timely(0)
  {
    CrowdFacts(n);
    DrawFacts(n + 1, Draw(n + 1));
    LongIdsAreFresh(Draw(n + 1), Crowd(n), n);
  }

  lemma SayFits(env: Env, w: State, n: nat, text: string)
    requires CrowdAt(env, w, n)
    ensures Fits(w, Say(n + 1, text), 0, 0)
  {
    DrawIsFresh(n);
  }

  /** Of one record more than the cap, the one listed last is not read. */
  lemma LastListed(env: Env, ns: Namespace) returns (last: MemoryId)
    requires env.ListsAll() && |ns| == WritePolicy.MAX_EXISTING + 1
    ensures last in ns && last !in WritePolicy.Page(env, ns)
  {
    var keys := env.listMemories(ns);
    assert Enumerates(keys, ns.Keys);
    DistinctCount(keys, ns.Keys);
    assert |keys| == |ns.Keys| == |ns|;
    last := keys[WritePolicy.MAX_EXISTING];
    assert last in keys;
  }

  ghost predicate AllMembers(ns: Namespace) {
    forall id :: id in ns ==> id != "" && IsMember(ns[id], id)
  }

  lemma MembersAreApart(ns: Namespace)
    requires AllMembers(ns)
    ensures OneLive(ns, 0) && Keyed(ns, ANN)
  {
  }

  /** Contradicting a record that is not read leaves two live values in its slot. */
  lemma Contradicted(env: Env, ns: Namespace, last: MemoryId, c: CandidateFact, who: WritePolicy.Author,
                     inp: WritePolicy.Inputs)
    requires env.Valid() && AllMembers(ns) && who.user == ANN && inp.Timely(0) && inp.loadAt == 0 && inp.FreshFor(ns)
    requires last in ns && last !in WritePolicy.Page(env, ns) && c.attribute == last && c.scope == ""
    ensures !OneLive(WritePolicy.ResolveAll(env, ns, [c], who, inp).ns, 0)
  {
    MembersAreApart(ns);
    assert IsMember(ns[last], last);
    assert FactSlot([c][0]) == ns[last].Slot();
    assert Touched([c], 1, ns[last].Slot());
    OneLiveExactly(env, ns, [c], who, inp, 0);
  }

  lemma ApplyContradicts(env: Env, ns: Namespace, last: MemoryId, text: string, who: WritePolicy.Author,
                         inp: WritePolicy.Inputs)
    requires env.Valid() && IsPlain(env) && AllMembers(ns) && who.user == ANN && who.source == USER
    requires inp.Timely(0) && inp.loadAt == 0 && inp.FreshFor(ns)
    requires last in ns && last !in WritePolicy.Page(env, ns) && IsName(last) && text == "n" + last
    ensures !OneLive(WritePolicy.Apply(env, ns, text, who, inp).0, 0)
  {
    assert last != "" && text[1..] == last;
    var c: CandidateFact := Said(text);
    TurnAsserts(env, text, c);
    Contradicted(env, ns, last, c, who, inp);
    AppliedOnce(env, ns, text, c, who, inp);
  }

  /** The contradicting chat says "n" of a slot whose unread live record says "o". */
  lemma Unheard(env: Env, ns: Namespace, last: MemoryId, text: string, cs: seq<CandidateFact>)
    requires env.ListsAll() && IsPlain(env) && AllMembers(ns) && last in ns && last !in WritePolicy.Page(env, ns)
    requires text == "n" + last && cs == [Said(text)]
    ensures !Hears(env, ns, cs, 0)
  {
    var c := Said(text);
    assert text[1..] == last && c.value == "n" && FactSlot(c) == ns[last].Slot();
    ValueIsUsable(env, c);
    ValueIsUsable(env, RawFact("fact", last, "o", "", SEMANTIC, 0.5, None));
    assert IsMember(ns[last], last);
    assert LastValue(env, [] + [c], ns[last].Slot()) == Some("n") by {
      LastValueSnoc(env, [], c, ns[last].Slot());
    }
    assert [] + [c] == cs;
  }

  lemma ChatUnheard(env: Env, w: State, n: nat, last: MemoryId, op: Op)
    requires env.Valid() && IsPlain(env) && CrowdAt(env, w, n)
    requires op == Say(n + 1, "n" + last)
    requires last in Crowd(n) && last !in WritePolicy.Page(env, Crowd(n))
    ensures !HearsAll(env, w, op)
  {
    CrowdFacts(n);
    TurnAsserts(env, op.message, Said(op.message));
    Unheard(env, Crowd(n), last, op.message, AssertedBy(env, op, ANN));
  }

  lemma ChatContradicts(env: Env, w: State, n: nat, last: MemoryId, op: Op, w': State)
    requires env.Valid() && IsPlain(env) && CrowdAt(env, w, n)
    requires op == Say(n + 1, "n" + last) && w' == Next(env, w, op)
    requires last in Crowd(n) && last !in WritePolicy.Page(env, Crowd(n))
    ensures !OneLive(w'.Mem(ANN), 0)
  {
    CrowdFacts(n);
    DrawIsFresh(n);
    NothingRefused(env, w, op);
    TurnStep(env, w, op, w');
    ApplyContradicts(env, Crowd(n), last, op.message, ChatAuthor(op), op.inputs);
  }

  lemma {:induction false} CrowdFits(env: Env, ops: seq<Op>, states: seq<State>, outs: seq<Output>, i: nat,
                                     text: string)
    requires env.Valid() && IsPlain(env) && IsRun(env, ops, states, outs) && states[0] == Empty()
    requires i < |ops| && ops[i] == Say(i + 1, text)
    requires forall j :: 0 <= j < i ==> ops[j] == Say(j + 1, "o" + Name(j + 1))
    ensures Fits(states[i], ops[i], 0, 0)
  {
    CrowdGathers(env, ops, states, outs, i);
    SayFits(env, states[i], i, text);
  }

  lemma {:induction false} CrowdIsTimed(env: Env, ops: seq<Op>, states: seq<State>, outs: seq<Output>, n: nat,
                                        text: string)
    requires env.Valid() && IsPlain(env) && IsRun(env, ops, states, outs) && states[0] == Empty()
    requires ops == CrowdOps(n) + [Say(n + 1, text)]
    ensures IsTimed(ops, states, Midnight(|states|))
  {
    var times := Midnight(|states|);
    forall i | 0 <= i < |ops|
      ensures Fits(states[i], ops[i], times[i], times[i + 1])
    {
      CrowdFits(env, ops, states, outs, i, if i < n then "o" + Name(i + 1) else text);
    }
  }

  /** After n chats, n one past the cap, some chat leaves two live values in one slot. */
  lemma LastStraw(env: Env, w: State, n: nat) returns (op: Op, text: string, w': State, out: Output)
    requires env.Valid() && IsPlain(env) && CrowdAt(env, w, n) && n == WritePolicy.MAX_EXISTING + 1
    ensures op == Say(n + 1, text) && Steps(env, w, op, w', out)
    ensures !OneLive(w'.Mem(ANN), 0) && !HearsAll(env, w, op)
  {
    CrowdFacts(n);
    var last := LastListed(env, Crowd(n));
    text := "n" + last;
    op := Say(n + 1, text);
    w', out := Next(env, w, op), Result(env, w, op);
    ChatContradicts(env, w, n, last, op, w');
    ChatUnheard(env, w, n, last, op);
  }

  /** A run of n + 1 chats that ends with two live values in one slot. */
  lemma {:induction false} Overflows(env: Env, n: nat) returns (ops: seq<Op>, states: seq<State>, outs: seq<Output>)
    requires env.Valid() && IsPlain(env) && n == WritePolicy.MAX_EXISTING + 1
    ensures IsRun(env, ops, states, outs) && IsTimed(ops, states, Midnight(|states|)) && states[0] == Empty()
    ensures |ops| == n + 1 && ops[n].user == ANN
    ensures !OneLive(states[n + 1].Mem(ANN), 0) && !HearsAll(env, states[n], ops[n])
  {
    var chats := CrowdOps(n);
    states, outs := RunExists(env, Empty(), chats);
    CrowdGathers(env, chats, states, outs, n);
    var op, text, w', out := LastStraw(env, states[n], n);
    RunSnoc(env, chats, states, outs, op, w', out);
    ops, states, outs := chats + [op], states + [w'], outs + [out];
    CrowdIsTimed(env, ops, states, outs, n, text);
  }

  lemma UnheardOnce(env: Env, ops: seq<Op>, states: seq<State>, n: nat)
    requires env.ListsAll() && n < |ops| && |states| == |ops| + 1
    requires ops[n].user == ANN && !HearsAll(env, states[n], ops[n])
    ensures !AllHear(env, ops, states, ANN, |ops|)
  {
    assert !HearsAllOf(env, ops, states, ANN)(n);
  }

  /**
   However the store lists its records, some run of 502 chats ends with two live values in
   one slot, one of them not the last said: 501 chats about different things, and one that
   contradicts the record listed last.
   */
  lemma {:induction false} PastTheCap(given: Env)
    returns (env: Env, ops: seq<Op>, states: seq<State>, outs: seq<Output>, times: seq<int>)
    requires given.Valid()
    ensures env.Valid() && env.listMemories == given.listMemories
    ensures IsRun(env, ops, states, outs) && IsTimed(ops, states, times) && states[0] == Empty()
    ensures |ops| == WritePolicy.MAX_EXISTING + 2
    ensures !OneLive(states[|ops|].Mem(ANN), times[|ops|]) && !TurnsHaveLastWord(env, ops, states, ANN, |ops|)
  {
    env := Plain(given);
    ops, states, outs := Overflows(env, WritePolicy.MAX_EXISTING + 1);
    times := Midnight(|states|);
    LastWriterWinsExactly(env, ops, states, outs, times, ANN, |ops|);
    UnheardOnce(env, ops, states, WritePolicy.MAX_EXISTING + 1);
  }
}
