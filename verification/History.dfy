/** What a turn may do to a record that already exists, and what its new records look like. */
module History {
  import opened Records
  import opened Environment
  import opened WritePolicy
  import opened TurnInvariants

  /**
   A record may gain importance or be retired; nothing else about it changes, and once it
   is retired nothing changes at all.
   */
  ghost predicate Evolves(before: Memory, after: Memory) {
    && after == before.(importance := after.importance, updatedAt := after.updatedAt,
                        supersededBy := after.supersededBy, supersededAt := after.supersededAt)
    && (before.importance <= 1.0 ==> before.importance <= after.importance <= 1.0)
    && (before.supersededBy.Some? ==> after == before)
  }

  lemma EvolvesTransitive(a: Memory, b: Memory, c: Memory)
    requires Evolves(a, b) && Evolves(b, c)
    ensures Evolves(a, c)
  {
  }

  /** Old records evolve; new ones carry the turn's user, conversation and provenance. */
  ghost predicate Extends(ns: Namespace, ns': Namespace, who: Author) {
    && (forall id :: id in ns ==> id in ns' && Evolves(ns[id], ns'[id]))
    && (forall id :: id in ns' && id !in ns ==>
          ns'[id].user == who.user && ns'[id].thread == who.thread && ns'[id].source == who.source)
  }

  lemma ExtendsTransitive(a: Namespace, b: Namespace, c: Namespace, who: Author)
    requires Extends(a, b, who) && Extends(b, c, who)
    ensures Extends(a, c, who)
  {
    forall id | id in a
      ensures id in c && Evolves(a[id], c[id])
    {
      EvolvesTransitive(a[id], b[id], c[id]);
    }
    forall id | id in c && id !in a
      ensures c[id].user == who.user && c[id].thread == who.thread && c[id].source == who.source
    {
      if id in b {
        assert Evolves(b[id], c[id]);
      }
    }
  }

  lemma KnownExtends(d: Desk, c: CandidateFact, who: Author, known: Memory, now: int, t: int, d': Desk)
    requires Mirrors(d.ns, d.existing, t) && known in d.existing
    requires d' == Perform(d, c, Known(known), now)
    ensures Extends(d.ns, d'.ns, who)
  {
    KnownEffect(d, c, known, now, t, d');
  }

  lemma TakeoverExtends(ns: Namespace, ns': Namespace, made: Memory, stale: seq<Memory>, who: Author, now: int)
    requires TakesOver(ns, ns', made, stale, now)
    requires made.user == who.user && made.thread == who.thread && made.source == who.source
    ensures Extends(ns, ns', who)
  {
    forall id | id in ns
      ensures Evolves(ns[id], ns'[id])
    {
      if HasId(stale, id) {
        var k :| 0 <= k < |stale| && stale[k].id == id;
        assert Retires(ns, ns', made, stale[k], now);
      }
    }
  }

  lemma NewExtends(env: Env, d: Desk, c: CandidateFact, who: Author, made: Memory, stale: seq<Memory>, now: int,
                   t: int, d': Desk)
    requires Mirrors(d.ns, d.existing, t) && made.id !in d.ns && t <= now
    requires Lawful(env, d.existing, c, who, made.id, now, New(made, stale))
    requires d' == Perform(d, c, New(made, stale), now)
    ensures Extends(d.ns, d'.ns, who)
  {
    NewTakesOver(d, c, made, stale, now, t, d');
    TakeoverExtends(d.ns, d'.ns, made, stale, who, now);
  }

  lemma StepExtends(env: Env, d: Desk, cs: seq<CandidateFact>, who: Author, inp: Inputs, n: nat, t: int, d': Desk)
    requires env.EmbedsUniformly() && n < |cs|
    requires Mirrors(d.ns, d.existing, t) && inp.ids(n) !in d.ns && t <= inp.clock(n)
    requires Follows(env, cs, who, inp, n, d, d')
    ensures Extends(d.ns, d'.ns, who)
  {
    DecideIsLawful(env, d.ns, d.existing, cs[n], who, inp.ids(n), inp.clock(n));
    match Decide(env, d.ns, d.existing, cs[n], who, inp.ids(n), inp.clock(n))
    case Known(m) => KnownExtends(d, cs[n], who, m, inp.clock(n), t, d');
    case New(m, stale) => NewExtends(env, d, cs[n], who, m, stale, inp.clock(n), t, d');
  }

  lemma TurnStepExtends(env: Env, ns: Namespace, cs: seq<CandidateFact>, who: Author, inp: Inputs, since: int,
                        desks: seq<Desk>, n: nat)
    requires env.Valid() && Keyed(ns, who.user) && n < |cs|
    requires inp.Timely(since) && inp.FreshFor(ns)
    requires IsTurn(env, ns, cs, who, inp, desks)
    ensures Extends(desks[n].ns, desks[n + 1].ns, who)
  {
    TurnMeets(env, ns, cs, who, inp, since, desks, n);
    StepExtends(env, desks[n], cs, who, inp, n, inp.loadAt, desks[n + 1]);
  }

  lemma {:induction false} TurnExtendsUpTo(env: Env, ns: Namespace, cs: seq<CandidateFact>, who: Author, inp: Inputs,
                                           since: int, desks: seq<Desk>, n: nat)
    requires env.Valid() && Keyed(ns, who.user) && n <= |cs|
    requires inp.Timely(since) && inp.FreshFor(ns)
    requires IsTurn(env, ns, cs, who, inp, desks)
    ensures Extends(ns, desks[n].ns, who)
  {
    if n == 0 {
    } else {
      TurnExtendsUpTo(env, ns, cs, who, inp, since, desks, n - 1);
      TurnStepExtends(env, ns, cs, who, inp, since, desks, n - 1);
      ExtendsTransitive(ns, desks[n - 1].ns, desks[n].ns, who);
    }
  }

  /** A turn never un-retires a record, never re-points one, never edits what one says. */
  lemma TurnExtends(env: Env, ns: Namespace, text: string, who: Author, inp: Inputs, since: int)
    requires env.Valid() && Keyed(ns, who.user)
    requires inp.Timely(since) && inp.FreshFor(ns)
    ensures var ns' := Apply(env, ns, text, who, inp).0;
            && Extends(ns, ns', who)
            && Keyed(ns', who.user)
            && (!IsTrusted(who.source) ==> ns' == ns)
  {
    match TakeIn(env, text, who.source)
    case Ignored =>
    case Blocked(_) =>
    case Admitted(cs) =>
      var desks := Turn(env, ns, cs, who, inp);
      TurnExtendsUpTo(env, ns, cs, who, inp, since, desks, |cs|);
      TurnKeeps(env, ns, cs, who, inp, since, desks, |cs|);
  }

  lemma UntrustedIntake(env: Env, text: string, source: Provenance)
    requires !IsTrusted(source)
    ensures !TakeIn(env, text, source).Admitted?
  {
  }

  /** Untrusted content is stopped before extraction: no record, no change, at most a quarantine entry. */
  lemma UntrustedApply(env: Env, ns: Namespace, text: string, who: Author, inp: Inputs,
                       result: (Namespace, WriteReport))
    requires env.Valid() && !IsTrusted(who.source) && result == Apply(env, ns, text, who, inp)
    ensures result.0 == ns && result.1.written == []
    ensures forall d :: d in result.1.decisions ==> d.op == QUARANTINE
  {
    UntrustedIntake(env, text, who.source);
  }
}
