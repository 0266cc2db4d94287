/**
 The whole agent as one state machine: the records, the quarantine, the thread index and
 the transcripts of all users, and what each operation makes of them. The class `Agent`
 is proved to take exactly these steps.
 */
module World {
  import opened Prelude
  import opened Records
  import opened Environment
  import opened Tables
  import opened ThreadIndex
  import ThreadKeys
  import Reading
  import WritePolicy

  datatype State = State(
    memories: map<UserId, Namespace>,
    quarantine: map<UserId, map<QuarantineKey, Quarantined>>,
    index: Index
  ) {
    function Mem(user: UserId): Namespace {
      Row(memories, user)
    }

    function Quar(user: UserId): map<QuarantineKey, Quarantined> {
      Row(quarantine, user)
    }

    function Threads(user: UserId): map<ThreadId, IndexEntry> {
      Row(index.threads, user)
    }

    ghost predicate IsCanonical() {
      Canonical(memories) && Canonical(quarantine) && Canonical(index.threads)
    }
  }

  function Empty(): State {
    State(map[], map[], Index(map[], map[]))
  }

  datatype Op =
    | Chat(user: UserId, thread: ThreadId, message: string, inputs: WritePolicy.Inputs)
    | Observe(user: UserId, text: string, origin: Option<ThreadId>, source: Provenance, inputs: WritePolicy.Inputs)
    | Ask(user: UserId, query: string, limit: Option<nat>, now: int)
    | History(user: UserId, thread: ThreadId)
    | ForgetMemory(user: UserId, id: MemoryId)
    | ForgetThread(user: UserId, thread: ThreadId)
    | ForgetUser(user: UserId)

  datatype ForgetReport = ForgetReport(memoriesDeleted: nat, quarantineDeleted: nat, threadsDeleted: seq<ThreadId>)

  datatype Output =
    | Trace(reply: string, recalled: seq<Recall>, report: WriteReport)
    | Observed(report: WriteReport)
    | Answer(recalls: seq<Recall>)
    | Messages(lines: seq<string>)
    | Existed(existed: bool)
    | Forgot(summary: ForgetReport)
    | LegacyThread

  // ----------------------------------------------------------- reading a transcript

  function Line(m: Message): string {
    match m
    case System(content) => "system: " + content
    case Human(content) => "human: " + content
    case AI(content) => "ai: " + content
  }

  /** A transcript as its reader sees it, message by message. */
  function Rendered(messages: seq<Message>): (lines: seq<string>)
    ensures |lines| == |messages|
  {
    seq(|messages|, i requires 0 <= i < |messages| => Line(messages[i]))
  }

  lemma LineTells(a: Message, b: Message)
    requires Line(a) == Line(b)
    ensures a == b
  {
    assert Line(a)[0] == (if a.System? then 's' else if a.Human? then 'h' else 'a');
    assert Line(b)[0] == (if b.System? then 's' else if b.Human? then 'h' else 'a');
    assert a.content == Line(a)[|Line(a)| - |a.content|..] && b.content == Line(b)[|Line(b)| - |b.content|..];
  }

  /** The rendering loses nothing: who spoke and what was said can be told from it. */
  lemma RenderingTells(a: seq<Message>, b: seq<Message>)
    requires Rendered(a) == Rendered(b)
    ensures a == b
  {
    forall i | 0 <= i < |a|
      ensures i < |b| && a[i] == b[i]
    {
      assert Rendered(a)[i] == Rendered(b)[i];
      LineTells(a[i], b[i]);
    }
  }

  // ------------------------------------------------------------ writing, reading

  function Written(env: Env, w: State, text: string, who: WritePolicy.Author, inp: WritePolicy.Inputs): State
    requires env.Valid()
  {
    w.(memories := Assign(w.memories, who.user, WritePolicy.Apply(env, w.Mem(who.user), text, who, inp).0),
       quarantine := Assign(w.quarantine, who.user,
                            WritePolicy.ApplyQuarantine(env, w.Quar(who.user), text, who, inp.loadAt)))
  }

  function ReportOf(env: Env, w: State, text: string, who: WritePolicy.Author, inp: WritePolicy.Inputs): WriteReport
    requires env.Valid()
  {
    WritePolicy.Apply(env, w.Mem(who.user), text, who, inp).1
  }

  function ChatAuthor(op: Op): WritePolicy.Author
    requires op.Chat?
  {
    WritePolicy.Author(op.user, Some(op.thread), USER)
  }

  function ObserveAuthor(op: Op): WritePolicy.Author
    requires op.Observe?
  {
    WritePolicy.Author(op.user, op.origin, op.source)
  }

  /** What the recall node puts before the model; the control arm recalls nothing. */
  function ChatRecalls(env: Env, w: State, op: Op): seq<Recall>
    requires env.Valid() && op.Chat?
  {
    if env.memory then Reading.Recalls(env, w.Mem(op.user), op.message, None, op.inputs.startAt) else []
  }

  /** The model sees the prompt with the recalls, the transcript so far and the new message. */
  function ChatReply(env: Env, w: State, op: Op): string
    requires env.Valid() && op.Chat?
  {
    var before := Transcript(w.index, ThreadKeys.Key(env, op.user, op.thread));
    env.model([System(env.prompt(ChatRecalls(env, w, op)))] + before + [Human(op.message)])
  }

  function ChatEffects(env: Env, w: State, op: Op): seq<Effect>
    requires env.Valid() && op.Chat?
  {
    ChatPlan(env, w.index, op.user, op.thread, op.inputs.startAt, Human(op.message), AI(ChatReply(env, w, op)))
  }

  // ------------------------------------------------------------------ forgetting

  /** Code-point order of strings. */
  predicate Precedes(a: string, b: string) {
    a == "" || (b != "" && (a[0] < b[0] || (a[0] == b[0] && Precedes(a[1..], b[1..]))))
  }

  /** One string comes before another if it is the beginning of it or smaller where the two first differ. */
  lemma {:induction false} PrecedesExactly(a: string, b: string)
    ensures Precedes(a, b) <==>
              || a <= b
              || exists i :: 0 <= i < |a| && i < |b| && a[i] < b[i] && forall j :: 0 <= j < i ==> a[j] == b[j]
  {
    if a == "" || b == "" || a[0] != b[0] {
    } else {
      PrecedesExactly(a[1..], b[1..]);
    }
  }

  function Insert(x: string, xs: seq<string>): seq<string> {
    if xs == [] || Precedes(x, xs[0]) then [x] + xs else [xs[0]] + Insert(x, xs[1..])
  }

  function Sorted(xs: seq<string>): seq<string> {
    if xs == [] then [] else Insert(xs[0], Sorted(xs[1..]))
  }

  function KnownThreads(env: Env, w: State, user: UserId): seq<ThreadId> {
    Sorted(env.listThreads(w.Threads(user)))
  }

  function FromThread(ns: Namespace, thread: ThreadId): set<MemoryId> {
    set id | id in ns && ns[id].thread == Some(thread)
  }

  /** Some conversation of the user is a legacy one, so a complete erasure is refused. */
  predicate HasLegacy(env: Env, w: State, user: UserId) {
    exists t :: t in w.Threads(user) && IsLegacy(env, w.index, user, t)
  }

  /** The operation touches a legacy conversation and raises before it changes anything. */
  predicate Refused(env: Env, w: State, op: Op) {
    match op
    case Chat(user, thread, _, _) => IsLegacy(env, w.index, user, thread)
    case History(user, thread) => IsLegacy(env, w.index, user, thread)
    case ForgetThread(user, thread) => IsLegacy(env, w.index, user, thread)
    case ForgetUser(user) => HasLegacy(env, w, user)
    case _ => false
  }

  // --------------------------------------------------------------------- one step

  function Next(env: Env, w: State, op: Op): State
    requires env.Valid()
  {
    if Refused(env, w, op) then w
    else
      match op
      case Chat(user, thread, message, inp) =>
        var w' := if env.memory then Written(env, w, message, ChatAuthor(op), inp) else w;
        w'.(index := PerformAll(w.index, ChatEffects(env, w, op)))
      case Observe(user, text, origin, source, inp) => Written(env, w, text, ObserveAuthor(op), inp)
      case Ask(_, _, _, _) => w
      case History(_, _) => w
      case ForgetMemory(user, id) => w.(memories := Assign(w.memories, user, w.Mem(user) - {id}))
      case ForgetThread(user, thread) =>
        w.(memories := Assign(w.memories, user, w.Mem(user) - FromThread(w.Mem(user), thread)),
           index := PerformAll(w.index, ForgetPlan(env, user, [thread])))
      case ForgetUser(user) =>
        w.(memories := Assign(w.memories, user, map[]),
           quarantine := Assign(w.quarantine, user, map[]),
           index := PerformAll(w.index, ForgetPlan(env, user, KnownThreads(env, w, user))))
  }

  function Result(env: Env, w: State, op: Op): Output
    requires env.Valid()
  {
    if Refused(env, w, op) then LegacyThread
    else
      match op
      case Chat(user, thread, message, inp) =>
        Trace(ChatReply(env, w, op), ChatRecalls(env, w, op),
              if env.memory then ReportOf(env, w, message, ChatAuthor(op), inp) else WriteReport([], []))
      case Observe(user, text, origin, source, inp) => Observed(ReportOf(env, w, text, ObserveAuthor(op), inp))
      case Ask(user, query, limit, now) => Answer(Reading.Recalls(env, w.Mem(user), query, limit, now))
      case History(user, thread) => Messages(Rendered(Transcript(w.index, ThreadKeys.Key(env, user, thread))))
      case ForgetMemory(user, id) => Existed(id in w.Mem(user))
      case ForgetThread(user, thread) =>
        Forgot(ForgetReport(|FromThread(w.Mem(user), thread)|, 0, [thread]))
      case ForgetUser(user) =>
        Forgot(ForgetReport(|w.Mem(user)|, |w.Quar(user)|, KnownThreads(env, w, user)))
  }

  // ------------------------------------------------------------------------- runs

  /** In state w the operation leads to w' and gives out. */
  ghost predicate Steps(env: Env, w: State, op: Op, w': State, out: Output)
    requires env.Valid()
  {
    w' == Next(env, w, op) && out == Result(env, w, op)
  }

  /** states[n] is the state after the first n operations, outs[n] what operation n gave. */
  ghost predicate IsRun(env: Env, ops: seq<Op>, states: seq<State>, outs: seq<Output>)
    requires env.Valid()
  {
    && |states| == |ops| + 1 && |outs| == |ops|
    && forall n :: 0 <= n < |ops| ==> Steps(env, states[n], ops[n], states[n + 1], outs[n])
  }

  lemma LinksSnoc(r: (State, Op, State, Output) -> bool, ops: seq<Op>, states: seq<State>, outs: seq<Output>,
                  op: Op, w': State, out: Output)
    requires |states| == |ops| + 1 && |outs| == |ops| && r(states[|ops|], op, w', out)
    requires forall n :: 0 <= n < |ops| ==> r(states[n], ops[n], states[n + 1], outs[n])
    ensures forall n :: 0 <= n < |ops| + 1 ==>
              r((states + [w'])[n], (ops + [op])[n], (states + [w'])[n + 1], (outs + [out])[n])
  {
  }

  lemma RunSnoc(env: Env, ops: seq<Op>, states: seq<State>, outs: seq<Output>, op: Op, w': State, out: Output)
    requires env.Valid() && IsRun(env, ops, states, outs) && Steps(env, states[|ops|], op, w', out)
    ensures IsRun(env, ops + [op], states + [w'], outs + [out])
  {
    var r := (v: State, o: Op, v': State, gave: Output) => env.Valid() && Steps(env, v, o, v', gave);
    assert forall n :: 0 <= n < |ops| ==> r(states[n], ops[n], states[n + 1], outs[n]);
    LinksSnoc(r, ops, states, outs, op, w', out);
  }

  /** Every list of operations has its run. */
  lemma {:induction false} RunExists(env: Env, start: State, ops: seq<Op>)
    returns (states: seq<State>, outs: seq<Output>)
    requires env.Valid()
    ensures IsRun(env, ops, states, outs) && states[0] == start
  {
    if ops == [] {
      states, outs := [start], [];
    } else {
      var init, last := ops[..|ops| - 1], ops[|ops| - 1];
      states, outs := RunExists(env, start, init);
      var w', out := Next(env, states[|init|], last), Result(env, states[|init|], last);
      RunSnoc(env, init, states, outs, last, w', out);
      assert ops == init + [last];
      states, outs := states + [w'], outs + [out];
    }
  }
}
