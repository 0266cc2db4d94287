/**
 What each operation of the agent gives and changes, told in terms of the state before it:
 who is refused, what is recalled, what the model is asked, what is written on whose
 behalf, and what the transcript holds afterwards.
 */
module Outcomes {
  import opened Prelude
  import opened Records
  import opened Environment
  import opened Tables
  import opened ThreadIndex
  import opened ThreadKeys
  import opened World
  import Reading
  import Text
  import WritePolicy

  /** The conversation is listed, but not under its own key: it comes from an old, shared transcript. */
  ghost predicate IsOld(env: Env, w: State, user: UserId, thread: ThreadId) {
    && user in w.index.threads && thread in w.index.threads[user]
    && w.index.threads[user][thread].checkpoint != Some(Key(env, user, thread))
  }

  /** Which requests are refused: those about an old conversation, or about a user who has one. */
  lemma RefusedExactly(env: Env, w: State, op: Op)
    ensures Refused(env, w, op) <==>
              match op
              case Chat(user, thread, _, _) => IsOld(env, w, user, thread)
              case History(user, thread) => IsOld(env, w, user, thread)
              case ForgetThread(user, thread) => IsOld(env, w, user, thread)
              case ForgetUser(user) => exists t :: IsOld(env, w, user, t)
              case _ => false
  {
    if op.ForgetUser? {
      forall t
        ensures IsOld(env, w, op.user, t) <==> IsLegacy(env, w.index, op.user, t)
      {
      }
    }
  }

  /** A refused request changes nothing and says that the conversation is an old one. */
  lemma RefusedOutcome(env: Env, w: State, op: Op, w': State, out: Output)
    requires env.Valid() && Steps(env, w, op, w', out)
    ensures out.LegacyThread? <==> Refused(env, w, op)
    ensures out.LegacyThread? ==> w' == w
  {
  }

  /** The messages of a conversation so far. */
  ghost function Said(env: Env, w: State, user: UserId, thread: ThreadId): seq<Message> {
    var key := Key(env, user, thread);
    if key in w.index.transcripts then w.index.transcripts[key] else []
  }

  /**
   A chat recalls what asking for its message would; the model is given the prompt with
   those recalls, the conversation so far and the message, in that order. The control arm
   recalls nothing.
   */
  lemma ChatOutcome(env: Env, w: State, op: Op, w': State, out: Output)
    requires env.Valid() && op.Chat? && !Refused(env, w, op) && Steps(env, w, op, w', out)
    ensures out.Trace?
    ensures if env.memory
            then Result(env, w, Ask(op.user, op.message, None, op.inputs.startAt)) == Answer(out.recalled)
            else out.recalled == []
    ensures out.reply
         == env.model([System(env.prompt(out.recalled))] + Said(env, w, op.user, op.thread) + [Human(op.message)])
  {
  }

  /** The transcript grows by the message and the reply, and the index lists it as of the turn's start. */
  lemma ChatTranscript(env: Env, w: State, op: Op, w': State, out: Output)
    requires env.Valid() && op.Chat? && !Refused(env, w, op) && Steps(env, w, op, w', out)
    ensures out.Trace?
    ensures var key := Key(env, op.user, op.thread);
            && w'.index.transcripts
            == w.index.transcripts[key := Said(env, w, op.user, op.thread) + [Human(op.message), AI(out.reply)]]
            && w'.Threads(op.user) == w.Threads(op.user)[op.thread := IndexEntry(Some(key), op.inputs.startAt)]
  {
    ChatPlanResult(env, w.index, op.user, op.thread, op.inputs.startAt, Human(op.message), AI(ChatReply(env, w, op)));
  }

  /** Text goes down the write path in somebody's name; the report is what the operation gives. */
  ghost predicate WrittenAs(env: Env, w: State, w': State, text: string, who: WritePolicy.Author,
                            inp: WritePolicy.Inputs, report: WriteReport)
    requires env.Valid()
  {
    && WritePolicy.Apply(env, w.Mem(who.user), text, who, inp) == (w'.Mem(who.user), report)
    && w'.Quar(who.user) == WritePolicy.ApplyQuarantine(env, w.Quar(who.user), text, who, inp.loadAt)
  }

  /** A chat's message is written as the user's own word in that conversation; the control arm writes nothing. */
  lemma ChatWrites(env: Env, w: State, op: Op, w': State, out: Output)
    requires env.Valid() && op.Chat? && !Refused(env, w, op) && Steps(env, w, op, w', out)
    ensures out.Trace?
    ensures if env.memory
            then WrittenAs(env, w, w', op.message, WritePolicy.Author(op.user, Some(op.thread), USER), op.inputs,
                           out.report)
            else w'.memories == w.memories && w'.quarantine == w.quarantine && out.report == WriteReport([], [])
  {
    var who := WritePolicy.Author(op.user, Some(op.thread), USER);
    RowAssign(w.memories, op.user, WritePolicy.Apply(env, w.Mem(op.user), op.message, who, op.inputs).0);
    RowAssign(w.quarantine, op.user,
              WritePolicy.ApplyQuarantine(env, w.Quar(op.user), op.message, who, op.inputs.loadAt));
  }

  /** What the agent reads is written under the provenance it comes with, and no conversation changes. */
  lemma ObserveOutcome(env: Env, w: State, op: Op, w': State, out: Output)
    requires env.Valid() && op.Observe? && Steps(env, w, op, w', out)
    ensures out.Observed? && w'.index == w.index
    ensures WrittenAs(env, w, w', op.text, WritePolicy.Author(op.user, op.origin, op.source), op.inputs, out.report)
  {
    var who := WritePolicy.Author(op.user, op.origin, op.source);
    RowAssign(w.memories, op.user, WritePolicy.Apply(env, w.Mem(op.user), op.text, who, op.inputs).0);
    RowAssign(w.quarantine, op.user,
              WritePolicy.ApplyQuarantine(env, w.Quar(op.user), op.text, who, op.inputs.loadAt));
  }

  /** Asking gives the first live hits of the user's ranking, as many as were asked for, and changes nothing. */
  lemma AskOutcome(env: Env, w: State, op: Op, w': State, out: Output) returns (at: seq<nat>)
    requires env.Valid() && op.Ask? && Steps(env, w, op, w', out)
    ensures w' == w && out.Answer?
    ensures RanksWithin(env.rank(w.Mem(op.user), op.query), w.Mem(op.user))
    ensures if Text.IsBlank(op.query) then out.recalls == []
            else
              var k := if op.limit == None || op.limit == Some(0) then env.topK else op.limit.value;
              Reading.FirstLiveHits(w.Mem(op.user), env.rank(w.Mem(op.user), op.query), 3 * k, k, op.now, out.recalls,
                                    at)
  {
    at := Reading.RecallExactly(env, w.Mem(op.user), op.query, op.limit, op.now);
  }

  /** A transcript is shown message by message, each as who spoke, a colon and what was said. */
  lemma HistoryOutcome(env: Env, w: State, op: Op, w': State, out: Output)
    requires env.Valid() && op.History? && !Refused(env, w, op) && Steps(env, w, op, w', out)
    ensures w' == w && out.Messages?
    ensures var said := Said(env, w, op.user, op.thread);
            && |out.lines| == |said|
            && forall i :: 0 <= i < |said| ==>
                 out.lines[i] == (if said[i].Human? then "human" else if said[i].AI? then "ai" else "system")
                                 + ": " + said[i].content
  {
    var said := Said(env, w, op.user, op.thread);
    forall i | 0 <= i < |said|
      ensures out.lines[i] == (if said[i].Human? then "human" else if said[i].AI? then "ai" else "system")
                              + ": " + said[i].content
    {
      ShownAs(said[i]);
    }
  }

  lemma ShownAs(m: Message)
    ensures Line(m) == (if m.Human? then "human" else if m.AI? then "ai" else "system") + ": " + m.content
  {
    assert "human" + ": " == "human: " && "ai" + ": " == "ai: " && "system" + ": " == "system: ";
  }

  /** Deleting one record takes that record away and says whether there was one. */
  lemma ForgetMemoryOutcome(env: Env, w: State, op: Op, w': State, out: Output)
    requires env.Valid() && op.ForgetMemory? && Steps(env, w, op, w', out)
    ensures out == Existed(op.id in w.Mem(op.user))
    ensures w'.Mem(op.user) == w.Mem(op.user) - {op.id}
    ensures w'.quarantine == w.quarantine && w'.index == w.index
  {
    RowAssign(w.memories, op.user, w.Mem(op.user) - {op.id});
  }
}
