/**
 Over every run the reports a user's turns returned account for the user's records; and as
 long as the user asks for nothing to be forgotten, they do so completely, every chain of
 replacements ends, and history is permanent.
 */
module AuditedRuns {
  import opened Prelude
  import opened Records
  import opened Environment
  import opened World
  import opened TurnInvariants
  import opened Reachable
  import opened AuditLog
  import opened Assertions
  import Text
  import WritePolicy
  import History
  import Isolation

  // ------------------------------------------------------------------- the reports

  function ReportIn(out: Output): WriteReport {
    match out
    case Trace(_, _, report) => report
    case Observed(report) => report
    case _ => WriteReport([], [])
  }

  function OwnReport(op: Op, out: Output, user: UserId): WriteReport {
    if op.user == user then ReportIn(out) else WriteReport([], [])
  }

  /** All records the user's first n operations reported as written, in order. */
  function WrittenFor(ops: seq<Op>, outs: seq<Output>, user: UserId, n: nat): seq<Memory>
    requires n <= |ops| == |outs|
  {
    if n == 0 then []
    else WrittenFor(ops, outs, user, n - 1) + OwnReport(ops[n - 1], outs[n - 1], user).written
  }

  /** All decisions the user's first n operations reported, in order. */
  function LogFor(ops: seq<Op>, outs: seq<Output>, user: UserId, n: nat): seq<MemoryDecision>
    requires n <= |ops| == |outs|
  {
    if n == 0 then []
    else LogFor(ops, outs, user, n - 1) + OwnReport(ops[n - 1], outs[n - 1], user).decisions
  }

  /** Each of the user's first n operations draws ids that no record it reported before carries. */
  ghost predicate DrawsNewIds(ops: seq<Op>, outs: seq<Output>, user: UserId, n: nat)
    requires n <= |ops| == |outs|
  {
    forall i :: 0 <= i < n && ops[i].user == user ==> NewTo(WrittenFor(ops, outs, user, i), ops[i])
  }

  ghost predicate NewTo(written: seq<Memory>, op: Op) {
    Writes(op) ==> forall k :: !HasId(written, op.inputs.ids(k))
  }

  // ----------------------------------------------------------------- one operation

  /** A quarantine decision accounts for nothing in the store. */
  lemma QuarantineAudited(env: Env, ns: Namespace, written: seq<Memory>, log: seq<MemoryDecision>, text: string)
    requires Audited(env, ns, written, log)
    ensures Audited(env, ns, written, log + [MemoryDecision(QUARANTINE, text, None, [])])
  {
    var d := MemoryDecision(QUARANTINE, text, None, []);
    LogSnoc(log, d);
    forall i | 0 <= i < |written|
      ensures AuditedAt(env, ns, written, log + [d], i)
    {
      assert AuditedAt(env, ns, written, log, i);
    }
  }

  lemma ApplyAudited(env: Env, ns: Namespace, written: seq<Memory>, log: seq<MemoryDecision>, text: string,
                     who: WritePolicy.Author, inp: WritePolicy.Inputs, since: int, result: (Namespace, WriteReport))
    requires env.Valid() && Keyed(ns, who.user)
    requires inp.Timely(since) && inp.FreshFor(ns) && forall k :: !HasId(written, inp.ids(k))
    requires Audited(env, ns, written, log)
    requires result == WritePolicy.Apply(env, ns, text, who, inp)
    ensures Audited(env, result.0, written + result.1.written, log + result.1.decisions)
    ensures Complete(result.0, result.1.written)
  {
    assert written + [] == written && log + [] == log;
    match WritePolicy.TakeIn(env, text, who.source)
    case Ignored =>
    case Blocked(_) => QuarantineAudited(env, ns, written, log, Text.Strip(text));
    case Admitted(cs) => TurnAudited(env, ns, written, log, cs, who, inp, since);
  }

  lemma TurnReports(env: Env, w: State, op: Op, out: Output)
    requires env.Valid() && TakesTurn(env, op) && !Refused(env, w, op) && out == Result(env, w, op)
    ensures ReportIn(out) == WritePolicy.Apply(env, w.Mem(op.user), TurnText(op), TurnAuthor(op), op.inputs).1
  {
  }

  lemma QuietReports(env: Env, w: State, op: Op, out: Output)
    requires env.Valid() && !TakesTurn(env, op) && out == Result(env, w, op)
    ensures ReportIn(out) == WriteReport([], [])
  {
  }

  /** Nothing is reported and nothing is added: the log stays true of what remains. */
  lemma NothingAdded(env: Env, ns: Namespace, ns': Namespace, written: seq<Memory>, log: seq<MemoryDecision>,
                     report: WriteReport)
    requires Audited(env, ns, written, log) && report == WriteReport([], [])
    requires forall id :: id in ns' ==> id in ns && ns'[id] == ns[id]
    ensures Audited(env, ns', written + report.written, log + report.decisions)
  {
    assert written + [] == written && log + [] == log;
    ForgetAudited(env, ns, ns', written, log);
  }

  lemma QuietOpAudited(env: Env, w: State, op: Op, w': State, out: Output, written: seq<Memory>,
                       log: seq<MemoryDecision>)
    requires env.Valid() && Steps(env, w, op, w', out) && !TakesTurn(env, op)
    requires Audited(env, w.Mem(op.user), written, log)
    ensures Audited(env, w'.Mem(op.user), written + ReportIn(out).written, log + ReportIn(out).decisions)
  {
    QuietStep(env, w, op, w');
    QuietReports(env, w, op, out);
    if Forgets(op) {
      ForgetStep(env, w, op, w');
    }
    NothingAdded(env, w.Mem(op.user), w'.Mem(op.user), written, log, ReportIn(out));
  }

  lemma OwnOpAudited(env: Env, w: State, op: Op, t: int, t': int, w': State, out: Output, written: seq<Memory>,
                     log: seq<MemoryDecision>)
    requires env.Valid() && Sound(env, w) && Steps(env, w, op, w', out)
    requires Fits(w, op, t, t') && NewTo(written, op)
    requires Audited(env, w.Mem(op.user), written, log)
    ensures Audited(env, w'.Mem(op.user), written + ReportIn(out).written, log + ReportIn(out).decisions)
  {
    var ns := w.Mem(op.user);
    if TakesTurn(env, op) {
      NothingRefused(env, w, op);
      TurnStep(env, w, op, w');
      TurnReports(env, w, op, out);
      ApplyAudited(env, ns, written, log, TurnText(op), TurnAuthor(op), op.inputs, t,
                   WritePolicy.Apply(env, ns, TurnText(op), TurnAuthor(op), op.inputs));
    } else {
      QuietOpAudited(env, w, op, w', out, written, log);
    }
  }

  lemma OpAudited(env: Env, user: UserId, w: State, op: Op, t: int, t': int, w': State, out: Output,
                  written: seq<Memory>, log: seq<MemoryDecision>)
    requires env.Valid() && Sound(env, w) && Steps(env, w, op, w', out)
    requires Fits(w, op, t, t') && (op.user == user ==> NewTo(written, op))
    requires Audited(env, w.Mem(user), written, log)
    ensures var report := OwnReport(op, out, user);
            Audited(env, w'.Mem(user), written + report.written, log + report.decisions)
  {
    if op.user == user {
      OwnOpAudited(env, w, op, t, t', w', out, written, log);
    } else {
      Isolation.OthersUntouched(env, user, w, op, w');
      NothingAdded(env, w.Mem(user), w'.Mem(user), written, log, OwnReport(op, out, user));
    }
  }

  /** Unless something is forgotten, whatever was written is still stored. */
  lemma OpComplete(env: Env, user: UserId, w: State, op: Op, t: int, t': int, w': State, out: Output,
                   written: seq<Memory>, log: seq<MemoryDecision>)
    requires env.Valid() && Sound(env, w) && Steps(env, w, op, w', out)
    requires Fits(w, op, t, t') && (op.user == user ==> !Forgets(op) && NewTo(written, op))
    requires Audited(env, w.Mem(user), written, log) && Complete(w.Mem(user), written)
    ensures Complete(w'.Mem(user), written + OwnReport(op, out, user).written)
  {
    if op.user != user {
      Isolation.OthersUntouched(env, user, w, op, w');
    } else if TakesTurn(env, op) {
      NothingRefused(env, w, op);
      TurnStep(env, w, op, w');
      TurnReports(env, w, op, out);
      var result := WritePolicy.Apply(env, w.Mem(user), TurnText(op), TurnAuthor(op), op.inputs);
      ApplyAudited(env, w.Mem(user), written, log, TurnText(op), TurnAuthor(op), op.inputs, t, result);
      History.TurnExtends(env, w.Mem(user), TurnText(op), TurnAuthor(op), op.inputs, t);
      CompleteAppend(w.Mem(user), result.0, written, result.1.written);
    } else {
      QuietStep(env, w, op, w');
      QuietReports(env, w, op, out);
    }
  }

  lemma CompleteAppend(ns: Namespace, ns': Namespace, written: seq<Memory>, more: seq<Memory>)
    requires Complete(ns, written) && Complete(ns', more) && forall id :: id in ns ==> id in ns'
    ensures Complete(ns', written + more)
  {
  }

  /** Ids new to the store are new to a log all of whose records are stored. */
  lemma FreshIsNew(w: State, op: Op, t: int, t': int, written: seq<Memory>)
    requires Fits(w, op, t, t') && Complete(w.Mem(op.user), written)
    ensures NewTo(written, op)
  {
  }

  // -------------------------------------------------------------------- whole runs

  ghost predicate AuditStep(env: Env, ops: seq<Op>, states: seq<State>, outs: seq<Output>, user: UserId, i: nat)
    requires i < |ops| == |outs| && |states| == |ops| + 1
  {
    var report := OwnReport(ops[i], outs[i], user);
    forall written, log ::
      Audited(env, states[i].Mem(user), written, log) && (ops[i].user == user ==> NewTo(written, ops[i])) ==>
        Audited(env, states[i + 1].Mem(user), written + report.written, log + report.decisions)
  }

  lemma RunAuditStep(env: Env, ops: seq<Op>, states: seq<State>, outs: seq<Output>, times: seq<int>, user: UserId,
                     i: nat)
    requires env.Valid() && IsRun(env, ops, states, outs) && IsTimed(ops, states, times)
    requires i < |ops| && Sound(env, states[i])
    ensures AuditStep(env, ops, states, outs, user, i)
  {
    forall written, log | Audited(env, states[i].Mem(user), written, log)
                          && (ops[i].user == user ==> NewTo(written, ops[i]))
      ensures var report := OwnReport(ops[i], outs[i], user);
              Audited(env, states[i + 1].Mem(user), written + report.written, log + report.decisions)
    {
      assert Fits(states[i], ops[i], times[i], times[i + 1]);
      assert Steps(env, states[i], ops[i], states[i + 1], outs[i]);
      OpAudited(env, user, states[i], ops[i], times[i], times[i + 1], states[i + 1], outs[i], written, log);
    }
  }

  lemma AuditStepApplied(env: Env, ops: seq<Op>, states: seq<State>, outs: seq<Output>, user: UserId, i: nat,
                         written: seq<Memory>, log: seq<MemoryDecision>)
    requires i < |ops| == |outs| && |states| == |ops| + 1
    requires AuditStep(env, ops, states, outs, user, i) && Audited(env, states[i].Mem(user), written, log)
    requires ops[i].user == user ==> NewTo(written, ops[i])
    ensures var report := OwnReport(ops[i], outs[i], user);
            Audited(env, states[i + 1].Mem(user), written + report.written, log + report.decisions)
  {
  }

  lemma {:induction false} AuditStepsCompose(env: Env, ops: seq<Op>, states: seq<State>, outs: seq<Output>,
                                             user: UserId, n: nat)
    requires |states| == |ops| + 1 && |outs| == |ops| && n <= |ops|
    requires forall i :: 0 <= i < |ops| ==> AuditStep(env, ops, states, outs, user, i)
    requires states[0].Mem(user) == map[] && DrawsNewIds(ops, outs, user, n)
    ensures Audited(env, states[n].Mem(user), WrittenFor(ops, outs, user, n), LogFor(ops, outs, user, n))
  {
    if n == 0 {
      EmptyAudited(env);
    } else {
      AuditStepsCompose(env, ops, states, outs, user, n - 1);
      AuditStepApplied(env, ops, states, outs, user, n - 1, WrittenFor(ops, outs, user, n - 1),
                       LogFor(ops, outs, user, n - 1));
    }
  }

  lemma {:induction false} RunAuditSteps(env: Env, ops: seq<Op>, states: seq<State>, outs: seq<Output>,
                                         times: seq<int>, user: UserId)
    requires env.Valid() && IsRun(env, ops, states, outs) && IsTimed(ops, states, times) && states[0] == Empty()
    ensures forall i :: 0 <= i < |ops| ==> AuditStep(env, ops, states, outs, user, i)
  {
    EmptySound(env);
    forall i | 0 <= i < |ops|
      ensures AuditStep(env, ops, states, outs, user, i)
    {
      RunIsSound(env, ops, states, outs, times, i);
      RunAuditStep(env, ops, states, outs, times, user, i);
    }
  }

  /**
   In every run from an empty store, deletes included, a user's stored records are exactly
   what the reports of the user's turns make of them.
   */
  lemma {:induction false} RunIsAudited(env: Env, ops: seq<Op>, states: seq<State>, outs: seq<Output>, times: seq<int>,
                                        user: UserId, n: nat)
    requires env.Valid() && IsRun(env, ops, states, outs) && IsTimed(ops, states, times)
    requires states[0] == Empty() && n <= |ops| && DrawsNewIds(ops, outs, user, n)
    ensures Audited(env, states[n].Mem(user), WrittenFor(ops, outs, user, n), LogFor(ops, outs, user, n))
  {
    RunAuditSteps(env, ops, states, outs, times, user);
    AuditStepsCompose(env, ops, states, outs, user, n);
  }

  /** A record's importance, in every run: what it began with and a tenth per reported restatement, at most 1. */
  lemma {:induction false} RunReinforces(env: Env, ops: seq<Op>, states: seq<State>, outs: seq<Output>,
                                         times: seq<int>, user: UserId, n: nat, id: MemoryId) returns (born: Memory)
    requires env.Valid() && IsRun(env, ops, states, outs) && IsTimed(ops, states, times)
    requires states[0] == Empty() && n <= |ops| && DrawsNewIds(ops, outs, user, n)
    requires id in states[n].Mem(user)
    ensures born in WrittenFor(ops, outs, user, n) && born.id == id
    ensures var m := states[n].Mem(user)[id];
            && m.importance == Capped(born.importance, Bumps(LogFor(ops, outs, user, n), id))
            && m == born.(importance := m.importance, updatedAt := m.updatedAt, supersededBy := m.supersededBy,
                          supersededAt := m.supersededAt)
  {
    RunIsAudited(env, ops, states, outs, times, user, n);
    var written := WrittenFor(ops, outs, user, n);
    var i :| 0 <= i < |written| && written[i].id == id;
    assert AuditedAt(env, states[n].Mem(user), written, LogFor(ops, outs, user, n), i);
    born := written[i];
  }

  // ------------------------------------------------------ users who forget nothing

  ghost predicate CompleteStep(env: Env, ops: seq<Op>, states: seq<State>, outs: seq<Output>, user: UserId, i: nat)
    requires i < |ops| == |outs| && |states| == |ops| + 1
  {
    forall written, log ::
      Audited(env, states[i].Mem(user), written, log) && Complete(states[i].Mem(user), written) ==>
        && (ops[i].user == user ==> NewTo(written, ops[i]))
        && Complete(states[i + 1].Mem(user), written + OwnReport(ops[i], outs[i], user).written)
  }

  lemma RunCompleteStep(env: Env, ops: seq<Op>, states: seq<State>, outs: seq<Output>, times: seq<int>, user: UserId,
                        i: nat)
    requires env.Valid() && IsRun(env, ops, states, outs) && IsTimed(ops, states, times)
    requires i < |ops| && Sound(env, states[i]) && (ops[i].user == user ==> !Forgets(ops[i]))
    ensures CompleteStep(env, ops, states, outs, user, i)
  {
    forall written, log | Audited(env, states[i].Mem(user), written, log) && Complete(states[i].Mem(user), written)
      ensures ops[i].user == user ==> NewTo(written, ops[i])
      ensures Complete(states[i + 1].Mem(user), written + OwnReport(ops[i], outs[i], user).written)
    {
      assert Fits(states[i], ops[i], times[i], times[i + 1]);
      assert Steps(env, states[i], ops[i], states[i + 1], outs[i]);
      if ops[i].user == user {
        FreshIsNew(states[i], ops[i], times[i], times[i + 1], written);
      }
      OpComplete(env, user, states[i], ops[i], times[i], times[i + 1], states[i + 1], outs[i], written, log);
    }
  }

  lemma CompleteStepApplied(env: Env, ops: seq<Op>, states: seq<State>, outs: seq<Output>, user: UserId, i: nat,
                            written: seq<Memory>, log: seq<MemoryDecision>)
    requires i < |ops| == |outs| && |states| == |ops| + 1 && CompleteStep(env, ops, states, outs, user, i)
    requires Audited(env, states[i].Mem(user), written, log) && Complete(states[i].Mem(user), written)
    ensures ops[i].user == user ==> NewTo(written, ops[i])
    ensures Complete(states[i + 1].Mem(user), written + OwnReport(ops[i], outs[i], user).written)
  {
  }

  lemma DrawsOneMore(ops: seq<Op>, outs: seq<Output>, user: UserId, n: nat)
    requires n < |ops| == |outs| && DrawsNewIds(ops, outs, user, n)
    requires ops[n].user == user ==> NewTo(WrittenFor(ops, outs, user, n), ops[n])
    ensures DrawsNewIds(ops, outs, user, n + 1)
  {
  }

  lemma {:induction false} CompleteStepsCompose(env: Env, ops: seq<Op>, states: seq<State>, outs: seq<Output>,
                                                user: UserId, n: nat)
    requires |states| == |ops| + 1 && |outs| == |ops| && n <= |ops|
    requires forall i :: 0 <= i < |ops| ==> AuditStep(env, ops, states, outs, user, i)
    requires forall i :: 0 <= i < n ==> CompleteStep(env, ops, states, outs, user, i)
    requires states[0].Mem(user) == map[]
    ensures DrawsNewIds(ops, outs, user, n) && Complete(states[n].Mem(user), WrittenFor(ops, outs, user, n))
  {
    if n == 0 {
    } else {
      CompleteStepsCompose(env, ops, states, outs, user, n - 1);
      AuditStepsCompose(env, ops, states, outs, user, n - 1);
      CompleteStepApplied(env, ops, states, outs, user, n - 1, WrittenFor(ops, outs, user, n - 1),
                          LogFor(ops, outs, user, n - 1));
      DrawsOneMore(ops, outs, user, n - 1);
    }
  }

  /** The stored ids of a user who forgot nothing are exactly those reported as written. */
  lemma {:induction false} RunIsComplete(env: Env, ops: seq<Op>, states: seq<State>, outs: seq<Output>,
                                         times: seq<int>, user: UserId, n: nat)
    requires env.Valid() && IsRun(env, ops, states, outs) && IsTimed(ops, states, times)
    requires n <= |ops| && ForgetsNothing(ops, user, n) && states[0] == Empty()
    ensures DrawsNewIds(ops, outs, user, n)
    ensures Audited(env, states[n].Mem(user), WrittenFor(ops, outs, user, n), LogFor(ops, outs, user, n))
    ensures forall id :: id in states[n].Mem(user) <==> HasId(WrittenFor(ops, outs, user, n), id)
  {
    EmptySound(env);
    RunAuditSteps(env, ops, states, outs, times, user);
    forall i | 0 <= i < n
      ensures CompleteStep(env, ops, states, outs, user, i)
    {
      RunIsSound(env, ops, states, outs, times, i);
      RunCompleteStep(env, ops, states, outs, times, user, i);
    }
    CompleteStepsCompose(env, ops, states, outs, user, n);
    AuditStepsCompose(env, ops, states, outs, user, n);
  }

  /** Following a record's supersession links always ends at its slot's survivor, the same user's. */
  lemma {:induction false} RunChainsEnd(env: Env, ops: seq<Op>, states: seq<State>, outs: seq<Output>,
                                        times: seq<int>, user: UserId, n: nat, id: MemoryId)
    requires env.Valid() && IsRun(env, ops, states, outs) && IsTimed(ops, states, times)
    requires n <= |ops| && ForgetsNothing(ops, user, n) && states[0] == Empty()
    requires id in states[n].Mem(user)
    ensures var ns := states[n].Mem(user);
            var last := Follow(ns, id, |ns|);
            && last in ns && ns[last].supersededBy.None?
            && ns[last].Slot() == ns[id].Slot() && ns[last].user == user
  {
    RunIsComplete(env, ops, states, outs, times, user, n);
    EmptySound(env);
    RunIsSound(env, ops, states, outs, times, n);
    ChainEnds(env, states[n].Mem(user), WrittenFor(ops, outs, user, n), LogFor(ops, outs, user, n), id);
  }

  // ----------------------------------------------------------------------- history

  /** Records of before are all still there, each changed at most as `Evolves` allows. */
  ghost predicate Grows(ns: Namespace, ns': Namespace) {
    forall id :: id in ns ==> id in ns' && History.Evolves(ns[id], ns'[id])
  }

  lemma GrowsTransitive(a: Namespace, b: Namespace, c: Namespace)
    requires Grows(a, b) && Grows(b, c)
    ensures Grows(a, c)
  {
    forall id | id in a
      ensures id in c && History.Evolves(a[id], c[id])
    {
      History.EvolvesTransitive(a[id], b[id], c[id]);
    }
  }

  lemma OpGrows(env: Env, user: UserId, w: State, op: Op, t: int, t': int, w': State)
    requires env.Valid() && Sound(env, w) && w' == Next(env, w, op)
    requires Fits(w, op, t, t') && (op.user == user ==> !Forgets(op))
    ensures Grows(w.Mem(user), w'.Mem(user))
  {
    if op.user != user {
      Isolation.OthersUntouched(env, user, w, op, w');
    } else if TakesTurn(env, op) {
      NothingRefused(env, w, op);
      TurnStep(env, w, op, w');
      History.TurnExtends(env, w.Mem(user), TurnText(op), TurnAuthor(op), op.inputs, t);
    } else {
      QuietStep(env, w, op, w');
    }
  }

  ghost predicate GrowStep(states: seq<State>, user: UserId, i: nat)
    requires i + 1 < |states|
  {
    Grows(states[i].Mem(user), states[i + 1].Mem(user))
  }

  lemma {:induction false} GrowStepsCompose(states: seq<State>, user: UserId, m: nat, n: nat)
    requires m <= n < |states|
    requires forall i :: m <= i < n ==> GrowStep(states, user, i)
    ensures Grows(states[m].Mem(user), states[n].Mem(user))
  {
    if m == n {
    } else {
      GrowStepsCompose(states, user, m, n - 1);
      assert GrowStep(states, user, n - 1);
      GrowsTransitive(states[m].Mem(user), states[n - 1].Mem(user), states[n].Mem(user));
    }
  }

  /**
   Between any two points of a run no record disappears, no wording, value, slot, source or
   expiry changes, and a retired record stays exactly as it was, replacement included.
   */
  lemma HistoryIsPermanent(env: Env, ops: seq<Op>, states: seq<State>, outs: seq<Output>, times: seq<int>,
                           user: UserId, m: nat, n: nat)
    requires env.Valid() && IsRun(env, ops, states, outs) && IsTimed(ops, states, times)
    requires m <= n <= |ops| && ForgetsNothing(ops, user, n) && Sound(env, states[0])
    ensures Grows(states[m].Mem(user), states[n].Mem(user))
  {
    forall i | m <= i < n
      ensures GrowStep(states, user, i)
    {
      RunIsSound(env, ops, states, outs, times, i);
      assert Fits(states[i], ops[i], times[i], times[i + 1]);
      assert Steps(env, states[i], ops[i], states[i + 1], outs[i]);
      OpGrows(env, user, states[i], ops[i], times[i], times[i + 1], states[i + 1]);
    }
    GrowStepsCompose(states, user, m, n);
  }
}
