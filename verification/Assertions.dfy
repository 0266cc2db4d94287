/** What a run's operations assert: the usable facts of admitted turns, and the last word on each slot. */
module Assertions {
  import opened Prelude
  import opened Records
  import opened Environment
  import opened Tables
  import opened World
  import WritePolicy
  import Values

  predicate Forgets(op: Op) {
    op.ForgetMemory? || op.ForgetThread? || op.ForgetUser?
  }

  /** The user forgot nothing in the first n operations. */
  ghost predicate ForgetsNothing(ops: seq<Op>, user: UserId, n: nat)
    requires n <= |ops|
  {
    forall i :: 0 <= i < n && ops[i].user == user ==> !Forgets(ops[i])
  }

  function AssertedIn(env: Env, text: string, source: Provenance): seq<CandidateFact> {
    match WritePolicy.TakeIn(env, text, source)
    case Admitted(cs) => cs
    case _ => []
  }

  /** The facts one operation asserts for a user. */
  function AssertedBy(env: Env, op: Op, user: UserId): seq<CandidateFact> {
    if op.user != user then []
    else
      match op
      case Chat(_, _, message, _) => if env.memory then AssertedIn(env, message, USER) else []
      case Observe(_, text, _, source, _) => AssertedIn(env, text, source)
      case _ => []
  }

  /** Every usable fact asserted for a user in the first n operations, oldest first. */
  function Asserted(env: Env, ops: seq<Op>, user: UserId, n: nat): seq<CandidateFact>
    requires n <= |ops|
  {
    if n == 0 then [] else Asserted(env, ops, user, n - 1) + AssertedBy(env, ops[n - 1], user)
  }

  /** The value most recently asserted for a slot. */
  function LastValue(env: Env, facts: seq<CandidateFact>, slot: Slot): Option<string> {
    if facts == [] then None
    else
      var last := facts[|facts| - 1];
      if FactSlot(last) == slot then Some(WritePolicy.NormValue(env, last.value))
      else LastValue(env, facts[..|facts| - 1], slot)
  }

  // ------------------------------------------------------- operations that are turns

  /** The operation runs the write path; the control arm's chats do not. */
  predicate TakesTurn(env: Env, op: Op) {
    op.Observe? || (op.Chat? && env.memory)
  }

  function TurnText(op: Op): string
    requires op.Chat? || op.Observe?
  {
    if op.Chat? then op.message else op.text
  }

  function TurnAuthor(op: Op): WritePolicy.Author
    requires op.Chat? || op.Observe?
  {
    if op.Chat? then ChatAuthor(op) else ObserveAuthor(op)
  }

  /** A turn leaves its user's records as the write path does, and asserts what the text does. */
  lemma TurnStep(env: Env, w: State, op: Op, w': State)
    requires env.Valid() && TakesTurn(env, op) && !Refused(env, w, op) && w' == Next(env, w, op)
    ensures w'.Mem(op.user) == WritePolicy.Apply(env, w.Mem(op.user), TurnText(op), TurnAuthor(op), op.inputs).0
    ensures AssertedBy(env, op, op.user) == AssertedIn(env, TurnText(op), TurnAuthor(op).source)
    ensures TurnAuthor(op).user == op.user
  {
    RowAssign(w.memories, op.user,
              WritePolicy.Apply(env, w.Mem(op.user), TurnText(op), TurnAuthor(op), op.inputs).0);
  }

  /** Any other operation of the user asserts nothing and, unless it forgets, leaves the records alone. */
  lemma QuietStep(env: Env, w: State, op: Op, w': State)
    requires env.Valid() && !TakesTurn(env, op) && w' == Next(env, w, op)
    ensures AssertedBy(env, op, op.user) == []
    ensures !Forgets(op) ==> w'.Mem(op.user) == w.Mem(op.user)
  {
  }

  /** Forgetting only takes records away. */
  lemma ForgetStep(env: Env, w: State, op: Op, w': State)
    requires env.Valid() && Forgets(op) && w' == Next(env, w, op)
    ensures forall id :: id in w'.Mem(op.user) ==> id in w.Mem(op.user) && w'.Mem(op.user)[id] == w.Mem(op.user)[id]
  {
    if !Refused(env, w, op) {
      match op
      case ForgetMemory(user, id) => RowAssign(w.memories, user, w.Mem(user) - {id});
      case ForgetThread(user, thread) => RowAssign(w.memories, user, w.Mem(user) - FromThread(w.Mem(user), thread));
      case ForgetUser(user) => RowAssign(w.memories, user, map[]);
    }
  }

  // ----------------------------------------------------------------- the last word

  /** Fact i is the last one about the slot. */
  ghost predicate IsLastAbout(facts: seq<CandidateFact>, attribute: string, scope: string, i: nat) {
    && i < |facts| && facts[i].attribute == attribute && facts[i].scope == scope
    && forall j :: i < j < |facts| ==> facts[j].attribute != attribute || facts[j].scope != scope
  }

  /** The record says, but for case and white space, what the last fact about its slot says. */
  ghost predicate SaysLast(env: Env, facts: seq<CandidateFact>, m: Memory) {
    exists i: nat ::
      IsLastAbout(facts, m.attribute, m.scope, i) && Values.SameWords(env.lower, facts[i].value, m.value)
  }

  lemma {:induction false} LastAbout(env: Env, facts: seq<CandidateFact>, slot: Slot) returns (i: nat)
    requires LastValue(env, facts, slot).Some?
    ensures IsLastAbout(facts, slot.0, slot.1, i)
    ensures LastValue(env, facts, slot) == Some(WritePolicy.NormValue(env, facts[i].value))
  {
    var n := |facts| - 1;
    if FactSlot(facts[n]) == slot {
      i := n;
    } else {
      i := LastAbout(env, facts[..n], slot);
    }
  }

  lemma LastValueSaysLast(env: Env, facts: seq<CandidateFact>, m: Memory)
    requires LastValue(env, facts, m.Slot()) == Some(WritePolicy.NormValue(env, m.value))
    ensures SaysLast(env, facts, m)
  {
    var i := LastAbout(env, facts, m.Slot());
    Values.NormTells(env.lower, facts[i].value, m.value);
  }

  lemma LastValueSnoc(env: Env, facts: seq<CandidateFact>, c: CandidateFact, slot: Slot)
    ensures LastValue(env, facts + [c], slot)
         == if FactSlot(c) == slot then Some(WritePolicy.NormValue(env, c.value)) else LastValue(env, facts, slot)
  {
    assert (facts + [c])[..|facts|] == facts;
  }

  lemma {:induction false} LastValueAppend(env: Env, facts: seq<CandidateFact>, more: seq<CandidateFact>, slot: Slot)
    ensures LastValue(env, facts + more, slot)
         == if LastValue(env, more, slot).Some? then LastValue(env, more, slot) else LastValue(env, facts, slot)
  {
    if more == [] {
      assert facts + more == facts;
    } else {
      var init, last := more[..|more| - 1], more[|more| - 1];
      assert facts + more == (facts + init) + [last] && more == init + [last];
      LastValueAppend(env, facts, init, slot);
      LastValueSnoc(env, facts + init, last, slot);
      LastValueSnoc(env, init, last, slot);
    }
  }
}
