/**
 The agent as it runs. Each public operation takes exactly the step of `World` that bears
 its name, gives that step's result, and makes the index and transcript changes that
 `Erasure.EffectsOf` lists, in that order. `Drive` puts steps together: every theorem about
 runs is a theorem about the agent.
 */
module Agents {
  import opened Prelude
  import opened Records
  import opened Environment
  import opened Tables
  import opened ThreadIndex
  import opened ThreadKeys
  import opened World
  import opened Backends
  import opened Erasure
  import Forgetting
  import Manager
  import Reader
  import Reading
  import WritePolicy

  /** The user's most recent message, which is both query and write candidate. */
  function LastHumanText(messages: seq<Message>): string {
    if messages == [] then ""
    else
      match messages[|messages| - 1]
      case Human(content) => content
      case _ => LastHumanText(messages[..|messages| - 1])
  }

  lemma LastHumanIsNew(before: seq<Message>, text: string, reply: string)
    ensures LastHumanText(before + [Human(text)]) == text
    ensures LastHumanText(before + [Human(text), AI(reply)]) == text
  {
    assert (before + [Human(text), AI(reply)])[..|before| + 1] == before + [Human(text)];
  }

  /** The respond node: the system prompt goes before the transcript. */
  function Respond(env: Env, recalled: seq<Recall>, messages: seq<Message>): string {
    env.model([System(env.prompt(recalled))] + messages)
  }

  lemma AppendTwo<T>(xs: seq<T>, y: T, z: T)
    ensures (xs + [y]) + [z] == xs + [y, z]
  {
  }

  lemma RespondIsReply(env: Env, w: State, op: Op, recalled: seq<Recall>, before: seq<Message>)
    requires env.Valid() && op.Chat? && recalled == ChatRecalls(env, w, op)
    requires before == Transcript(w.index, Key(env, op.user, op.thread))
    ensures Respond(env, recalled, before + [Human(op.message)]) == ChatReply(env, w, op)
  {
    var prompt := [System(env.prompt(recalled))];
    assert prompt + (before + [Human(op.message)]) == prompt + before + [Human(op.message)];
  }

  /** The three changes of a chat turn, as made one by one. */
  lemma ChatEffectsMade(env: Env, w: State, op: Op, before: seq<Message>, journal: seq<Effect>)
    requires env.Valid() && op.Chat? && before == Transcript(w.index, Key(env, op.user, op.thread))
    ensures var key := Key(env, op.user, op.thread);
            var enter := Enter(op.user, op.thread, IndexEntry(Some(key), op.inputs.startAt));
            var save := Save(key, before + [Human(op.message)]);
            var finish := Save(key, before + [Human(op.message), AI(ChatReply(env, w, op))]);
            && journal + [enter, save] + [finish] == journal + ChatEffects(env, w, op)
            && PerformAll(w.index, ChatEffects(env, w, op))
            == ThreadIndex.Perform(ThreadIndex.Perform(ThreadIndex.Perform(w.index, enter), save), finish)
  {
    var plan := ChatEffects(env, w, op);
    ThreeEffects(w.index, plan);
    assert journal + plan[..2] + [plan[2]] == journal + plan;
  }

  // What the finished operations amount to.

  lemma ChatTaken(env: Env, w: State, op: Op, w': State, reply: string, recalled: seq<Recall>, report: WriteReport,
                  journal: seq<Effect>)
    requires env.Valid() && op.Chat? && !Refused(env, w, op)
    requires recalled == ChatRecalls(env, w, op) && reply == ChatReply(env, w, op)
    requires w' == (if env.memory then Written(env, w, op.message, ChatAuthor(op), op.inputs) else w)
                   .(index := PerformAll(w.index, ChatEffects(env, w, op)))
    requires report == if env.memory then ReportOf(env, w, op.message, ChatAuthor(op), op.inputs)
                       else WriteReport([], [])
    ensures Takes(env, w, op, w', Trace(reply, recalled, report), journal, journal + ChatEffects(env, w, op))
  {
  }

  lemma ObserveTaken(env: Env, w: State, op: Op, w': State, report: WriteReport)
    requires env.Valid() && op.Observe?
    requires w' == Written(env, w, op.text, ObserveAuthor(op), op.inputs)
    requires report == ReportOf(env, w, op.text, ObserveAuthor(op), op.inputs)
    ensures Steps(env, w, op, w', Observed(report)) && EffectsOf(env, w, op) == []
  {
  }

  lemma AskTaken(env: Env, w: State, op: Op, recalls: seq<Recall>)
    requires env.Valid() && op.Ask? && recalls == Reading.Recalls(env, w.Mem(op.user), op.query, op.limit, op.now)
    ensures Steps(env, w, op, w, Answer(recalls))
  {
  }

  /** Writing neither looks at the index nor changes it, so it may as well come last. */
  lemma WritingCommutes(env: Env, w: State, ix: Index, text: string, who: WritePolicy.Author, inp: WritePolicy.Inputs)
    requires env.Valid()
    ensures Written(env, w.(index := ix), text, who, inp) == Written(env, w, text, who, inp).(index := ix)
    ensures ReportOf(env, w.(index := ix), text, who, inp) == ReportOf(env, w, text, who, inp)
  {
  }

  /** A turn as far as the reply. */
  datatype Spoken = Spoken(messages: seq<Message>, recalled: seq<Recall>, reply: string)

  class Agent {
    const backend: Backend
    const reader: Reader.MemoryReader
    const writer: Manager.MemoryManager

    ghost predicate Valid()
      reads this, backend, writer
    {
      reader.backend == backend && writer.backend == backend && writer.Valid()
    }

    constructor (env: Env)
      requires env.Valid()
      ensures Valid() && backend.env == env && backend.Now() == Empty() && backend.journal == []
      ensures fresh(backend) && fresh(writer)
    {
      var b := new Backend(env);
      var r := new Reader.MemoryReader(b);
      var w := new Manager.MemoryManager(b);
      backend, reader, writer := b, r, w;
    }

    /** Enters the conversation in the index before its transcript grows. */
    method BeginTurn(thread: ThreadId, message: string, user: UserId, now: int)
      returns (before: Option<seq<Message>>)
      requires Valid()
      modifies backend`threads, backend`transcripts, backend`journal
      ensures Valid()
      ensures before.None? <==> IsLegacy(backend.env, old(backend.Now().index), user, thread)
      ensures before.None? ==> backend.Now() == old(backend.Now()) && backend.journal == old(backend.journal)
      ensures before.Some? ==>
                var key := Key(backend.env, user, thread);
                var enter := Enter(user, thread, IndexEntry(Some(key), now));
                var save := Save(key, before.value + [Human(message)]);
                && before.value == Transcript(old(backend.Now().index), key)
                && backend.journal == old(backend.journal) + [enter, save]
                && backend.Now().index
                == ThreadIndex.Perform(ThreadIndex.Perform(old(backend.Now().index), enter), save)
    {
      var recorded := Forgetting.RecordThread(backend, user, thread, now);
      if !recorded {
        return None;
      }
      var key := Key(backend.env, user, thread);
      var messages := Transcript(Index(backend.threads, backend.transcripts), key);
      backend.SaveTranscript(key, messages + [Human(message)]);
      before := Some(messages);
    }

    /** The recall node; the control arm has none. */
    method RecallNode(user: UserId, messages: seq<Message>, now: int) returns (recalled: seq<Recall>)
      requires Valid()
      ensures recalled == if backend.env.memory then
                            Reading.Recalls(backend.env, Row(backend.memories, user), LastHumanText(messages), None,
                                            now)
                          else []
    {
      recalled := [];
      if backend.env.memory {
        recalled := reader.Recall(user, LastHumanText(messages), None, now);
      }
    }

    /** The remember node; the control arm has none. */
    method RememberNode(messages: seq<Message>, who: WritePolicy.Author, inp: WritePolicy.Inputs)
      returns (report: WriteReport)
      requires Valid()
      modifies backend`memories, backend`quarantine, writer`vectors
      ensures Valid()
      ensures backend.Now() == if backend.env.memory then
                                 Written(backend.env, old(backend.Now()), LastHumanText(messages), who, inp)
                               else old(backend.Now())
      ensures report == if backend.env.memory then
                          ReportOf(backend.env, old(backend.Now()), LastHumanText(messages), who, inp)
                        else WriteReport([], [])
    {
      report := WriteReport([], []);
      if backend.env.memory {
        report := writer.Apply(LastHumanText(messages), who, inp);
      }
    }

    /** Everything up to the reply: index entry, transcript, recall, respond. */
    method Converse(user: UserId, thread: ThreadId, message: string, inp: WritePolicy.Inputs)
      returns (turn: Option<Spoken>)
      requires Valid()
      modifies backend`threads, backend`transcripts, backend`journal
      ensures Valid()
      ensures var w, op := old(backend.Now()), World.Chat(user, thread, message, inp);
              && (turn.None? <==> Refused(backend.env, w, op))
              && (turn.None? ==> backend.Now() == w && backend.journal == old(backend.journal))
              && (turn.Some? ==>
                    && LastHumanText(turn.value.messages) == message
                    && turn.value.recalled == ChatRecalls(backend.env, w, op)
                    && turn.value.reply == ChatReply(backend.env, w, op)
                    && backend.Now() == w.(index := PerformAll(w.index, ChatEffects(backend.env, w, op)))
                    && backend.journal == old(backend.journal) + ChatEffects(backend.env, w, op))
    {
      ghost var w, op := backend.Now(), World.Chat(user, thread, message, inp);
      ghost var journal := backend.journal;
      var before := BeginTurn(thread, message, user, inp.startAt);
      if before.None? {
        return None;
      }
      var messages := before.value + [Human(message)];
      LastHumanIsNew(before.value, message, "");
      var recalled := RecallNode(user, messages, inp.startAt);
      var reply := Respond(backend.env, recalled, messages);
      RespondIsReply(backend.env, w, op, recalled, before.value);
      LastHumanIsNew(before.value, message, reply);
      AppendTwo(before.value, Human(message), AI(reply));
      backend.SaveTranscript(Key(backend.env, user, thread), messages + [AI(reply)]);
      ChatEffectsMade(backend.env, w, op, before.value, journal);
      turn := Some(Spoken(messages + [AI(reply)], recalled, reply));
    }

    /** One user message in, a reply and a memory trace out: recall, respond, remember. */
    method Chat(user: UserId, thread: ThreadId, message: string, inp: WritePolicy.Inputs) returns (out: Output)
      requires Valid()
      modifies backend, writer`vectors
      ensures Valid()
      ensures Takes(backend.env, old(backend.Now()), World.Chat(user, thread, message, inp), backend.Now(), out,
                    old(backend.journal), backend.journal)
    {
      ghost var w, op, journal := backend.Now(), World.Chat(user, thread, message, inp), backend.journal;
      var turn := Converse(user, thread, message, inp);
      if turn.None? {
        Forgetting.RefusedTaken(backend.env, w, op, journal);
        return LegacyThread;
      }
      WritingCommutes(backend.env, w, backend.Now().index, message, ChatAuthor(op), inp);
      var report := RememberNode(turn.value.messages, WritePolicy.Author(user, Some(thread), USER), inp);
      ChatTaken(backend.env, w, op, backend.Now(), turn.value.reply, turn.value.recalled, report, journal);
      out := Trace(turn.value.reply, turn.value.recalled, report);
    }

    /** Content the agent read rather than content the user said. */
    method Observe(user: UserId, text: string, origin: Option<ThreadId>, source: Provenance, inp: WritePolicy.Inputs)
      returns (out: Output)
      requires Valid()
      modifies backend`memories, backend`quarantine, writer`vectors
      ensures Valid()
      ensures Steps(backend.env, old(backend.Now()), World.Observe(user, text, origin, source, inp), backend.Now(), out)
    {
      ghost var w := backend.Now();
      var report := writer.Apply(text, WritePolicy.Author(user, origin, source), inp);
      ObserveTaken(backend.env, w, World.Observe(user, text, origin, source, inp), backend.Now(), report);
      out := Observed(report);
    }

    method Ask(user: UserId, query: string, limit: Option<nat>, now: int) returns (out: Output)
      requires Valid()
      ensures Valid()
      ensures Steps(backend.env, old(backend.Now()), World.Ask(user, query, limit, now), backend.Now(), out)
    {
      var recalls := reader.Recall(user, query, limit, now);
      AskTaken(backend.env, backend.Now(), World.Ask(user, query, limit, now), recalls);
      out := Answer(recalls);
    }

    /** The persisted transcript of a conversation, oldest first. */
    method History(user: UserId, thread: ThreadId) returns (out: Output)
      requires Valid()
      ensures Valid()
      ensures Steps(backend.env, old(backend.Now()), World.History(user, thread), backend.Now(), out)
    {
      var index := Index(backend.threads, backend.transcripts);
      var checkpoint := CheckpointId(backend.env, index, user, thread);
      if checkpoint.None? {
        return LegacyThread;
      }
      out := Messages(Rendered(Transcript(index, checkpoint.value)));
    }

    method Forget(user: UserId) returns (out: Output)
      requires Valid()
      modifies backend
      ensures Valid()
      ensures Takes(backend.env, old(backend.Now()), ForgetUser(user), backend.Now(), out, old(backend.journal),
                    backend.journal)
    {
      out := Forgetting.ForgetUser(backend, user);
    }

    method ForgetConversation(user: UserId, thread: ThreadId) returns (out: Output)
      requires Valid()
      modifies backend
      ensures Valid()
      ensures Takes(backend.env, old(backend.Now()), ForgetThread(user, thread), backend.Now(), out,
                    old(backend.journal), backend.journal)
    {
      out := Forgetting.ForgetThread(backend, user, thread);
    }
  }

  // ------------------------------------------------------------------------- runs

  /** Any one request to the agent is one step of the model. */
  method Do(agent: Agent, op: Op) returns (out: Output)
    requires agent.Valid()
    modifies agent.backend, agent.writer`vectors
    ensures agent.Valid()
    ensures Steps(agent.backend.env, old(agent.backend.Now()), op, agent.backend.Now(), out)
  {
    match op
    case Chat(user, thread, message, inp) => out := agent.Chat(user, thread, message, inp);
    case Observe(user, text, origin, source, inp) => out := agent.Observe(user, text, origin, source, inp);
    case Ask(user, query, limit, now) => out := agent.Ask(user, query, limit, now);
    case History(user, thread) => out := agent.History(user, thread);
    case ForgetMemory(user, id) =>
      var existed := Forgetting.ForgetMemory(agent.backend, user, id);
      out := Existed(existed);
    case ForgetThread(user, thread) => out := agent.ForgetConversation(user, thread);
    case ForgetUser(user) => out := agent.Forget(user);
  }

  /** Whatever requests one agent serves, in whatever order, are a run: theorems about runs are about it. */
  method Drive(agent: Agent, ops: seq<Op>) returns (ghost states: seq<State>, outs: seq<Output>)
    requires agent.Valid()
    modifies agent.backend, agent.writer`vectors
    ensures agent.Valid()
    ensures IsRun(agent.backend.env, ops, states, outs)
    ensures states[0] == old(agent.backend.Now()) && states[|ops|] == agent.backend.Now()
  {
    states, outs := [agent.backend.Now()], [];
    for i := 0 to |ops|
      invariant agent.Valid() && IsRun(agent.backend.env, ops[..i], states, outs)
      invariant states[0] == old(agent.backend.Now()) && states[i] == agent.backend.Now()
    {
      var out := Do(agent, ops[i]);
      RunSnoc(agent.backend.env, ops[..i], states, outs, ops[i], agent.backend.Now(), out);
      assert ops[..i + 1] == ops[..i] + [ops[i]];
      states, outs := states + [agent.backend.Now()], outs + [out];
    }
    assert ops[..|ops|] == ops;
  }
}
