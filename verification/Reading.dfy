/** The read path: over-fetch from the ranking, drop what is no longer live, keep the first k. */
module Reading {
  import opened Prelude
  import opened Records
  import opened Environment
  import Text

  const OVERFETCH: nat := 3

  function RecallOf(ns: Namespace, hit: Hit): Recall
    requires hit.key in ns
  {
    Recall(ns[hit.key], if hit.score.Some? then hit.score.value else 0.0)
  }

  /** The live records of a ranking, best first. */
  function LiveRecalls(ns: Namespace, hits: seq<Hit>, now: int): seq<Recall>
    requires forall i :: 0 <= i < |hits| ==> hits[i].key in ns
  {
    if hits == [] then []
    else
      var init := LiveRecalls(ns, hits[..|hits| - 1], now);
      var last := hits[|hits| - 1];
      if ns[last.key].IsActive(now) then init + [RecallOf(ns, last)] else init
  }

  /** A missing or zero limit means the configured one. */
  function Wanted(env: Env, limit: Option<nat>): nat {
    if limit.Some? && limit.value != 0 then limit.value else env.topK
  }

  function Recalls(env: Env, ns: Namespace, query: string, limit: Option<nat>, now: int): seq<Recall>
    requires env.Valid()
  {
    if Text.Strip(query) == "" then []
    else
      var k := Wanted(env, limit);
      Take(LiveRecalls(ns, Take(env.rank(ns, query), k * OVERFETCH), now), k)
  }

  /** What recall stands in for: filter the entire ranking, keep the first k. */
  function Ideal(env: Env, ns: Namespace, query: string, limit: Option<nat>, now: int): seq<Recall>
    requires env.Valid()
  {
    if Text.Strip(query) == "" then []
    else Take(LiveRecalls(ns, env.rank(ns, query), now), Wanted(env, limit))
  }

  lemma LiveSnoc(ns: Namespace, hits: seq<Hit>, last: Hit, now: int)
    requires forall i :: 0 <= i < |hits| ==> hits[i].key in ns
    requires last.key in ns
    ensures LiveRecalls(ns, hits + [last], now)
         == LiveRecalls(ns, hits, now) + if ns[last.key].IsActive(now) then [RecallOf(ns, last)] else []
  {
    assert (hits + [last])[..|hits|] == hits;
  }

  lemma {:induction false} LiveAppend(ns: Namespace, a: seq<Hit>, b: seq<Hit>, now: int)
    requires forall i :: 0 <= i < |a| ==> a[i].key in ns
    requires forall i :: 0 <= i < |b| ==> b[i].key in ns
    ensures LiveRecalls(ns, a + b, now) == LiveRecalls(ns, a, now) + LiveRecalls(ns, b, now)
  {
    if b == [] {
      assert a + b == a;
    } else {
      var init, last := b[..|b| - 1], b[|b| - 1];
      assert a + b == (a + init) + [last] && b == init + [last];
      LiveAppend(ns, a, init, now);
      LiveSnoc(ns, a + init, last, now);
      LiveSnoc(ns, init, last, now);
    }
  }

  /** The recall shows the hit's record, with the hit's own score or, failing that, 0. */
  ghost predicate Shows(ns: Namespace, hit: Hit, r: Recall)
    requires hit.key in ns
  {
    r.memory == ns[hit.key] && (hit.score == Some(r.score) || (hit.score == None && r.score == 0.0))
  }

  /** Recall i shows hit at[i]; the hits shown are exactly the live ones, and they come in ranking order. */
  ghost predicate InOrder(ns: Namespace, hits: seq<Hit>, rs: seq<Recall>, now: int, at: seq<nat>)
    requires forall i :: 0 <= i < |hits| ==> hits[i].key in ns
  {
    && |at| == |rs|
    && (forall i :: 0 <= i < |rs| ==> at[i] < |hits| && Shows(ns, hits[at[i]], rs[i]) && Live(rs[i].memory, now))
    && (forall i, j :: 0 <= i < j < |rs| ==> at[i] < at[j])
    && (forall k :: 0 <= k < |hits| && Live(ns[hits[k].key], now) ==> k in at)
  }

  lemma InOrderNext(ns: Namespace, init: seq<Hit>, last: Hit, rs: seq<Recall>, now: int, at: seq<nat>)
    requires forall i :: 0 <= i < |init| ==> init[i].key in ns
    requires last.key in ns && InOrder(ns, init, rs, now, at)
    ensures if Live(ns[last.key], now) then InOrder(ns, init + [last], rs + [RecallOf(ns, last)], now, at + [|init|])
            else InOrder(ns, init + [last], rs, now, at)
  {
    var hits, at' := init + [last], at + [|init|];
    assert at'[|at|] == |init|;
    forall k | 0 <= k < |init| && Live(ns[hits[k].key], now)
      ensures k in at && k in at'
    {
      assert hits[k] == init[k];
    }
  }

  /** Every recall is a live ranked record, and they come in ranking order. */
  lemma {:induction false} LiveInOrder(ns: Namespace, hits: seq<Hit>, now: int) returns (at: seq<nat>)
    requires forall i :: 0 <= i < |hits| ==> hits[i].key in ns
    ensures InOrder(ns, hits, LiveRecalls(ns, hits, now), now, at)
  {
    if hits == [] {
      at := [];
    } else {
      var init, last := hits[..|hits| - 1], hits[|hits| - 1];
      at := LiveInOrder(ns, init, now);
      InOrderNext(ns, init, last, LiveRecalls(ns, init, now), now, at);
      assert init + [last] == hits;
      at := if ns[last.key].IsActive(now) then at + [|init|] else at;
    }
  }

  /**
   Over-fetching gives the ideal answer if and only if the fetched part already holds k live
   records or the rest of the ranking holds none.
   */
  lemma OverfetchExactly(env: Env, ns: Namespace, query: string, limit: Option<nat>, now: int)
    requires env.Valid() && Text.Strip(query) != ""
    ensures var k := Wanted(env, limit);
            var hits := env.rank(ns, query);
            var fetched := Take(hits, k * OVERFETCH);
            RanksWithin(hits, ns) &&
            (Recalls(env, ns, query, limit, now) == Ideal(env, ns, query, limit, now)
             <==> |LiveRecalls(ns, fetched, now)| >= k || LiveRecalls(ns, hits[|fetched|..], now) == [])
  {
    var k := Wanted(env, limit);
    var hits := env.rank(ns, query);
    assert RanksWithin(hits, ns);
    var fetched := Take(hits, k * OVERFETCH);
    var rest := hits[|fetched|..];
    assert hits == fetched + rest;
    LiveAppend(ns, fetched, rest, now);
    var near, far := LiveRecalls(ns, fetched, now), LiveRecalls(ns, rest, now);
    if |near| < k && far != [] {
      assert |Take(near + far, k)| > |near|;
    }
  }

  // ----------------------------------------------------- a record that is missed

  /** A ranking that looks at the keys alone. */
  ghost function KeysRanked(ns: Namespace): (hits: seq<Hit>)
    ensures |hits| == |Listing(ns.Keys)| && RanksWithin(hits, ns)
    ensures forall i :: 0 <= i < |hits| ==> hits[i].key == Listing(ns.Keys)[i]
  {
    var keys := Listing(ns.Keys);
    seq(|keys|, i requires 0 <= i < |keys| => Hit(keys[i], None))
  }

  function Note(id: MemoryId, expiresAt: Option<int>): Memory {
    Memory(id, "u", "n", SEMANTIC, USER, 0.5, 0, 0, expiresAt, None, None, "", "", "", None, None)
  }

  /** Four records of which only one, ranked last, is live at time 1. */
  ghost function LastLive(order: seq<MemoryId>): Namespace
    requires |order| == 4
  {
    map id | id in order :: Note(id, if id == order[3] then None else Some(0))
  }

  lemma {:induction false} StaleGiveNothing(ns: Namespace, hits: seq<Hit>, now: int)
    requires forall i :: 0 <= i < |hits| ==> hits[i].key in ns && !ns[hits[i].key].IsActive(now)
    ensures LiveRecalls(ns, hits, now) == []
  {
    if hits == [] {
    } else {
      StaleGiveNothing(ns, hits[..|hits| - 1], now);
    }
  }

  lemma FourKeys() returns (order: seq<MemoryId>)
    ensures |order| == 4 && Distinct(order) && LastLive(order).Keys == {"a", "b", "c", "d"}
    ensures Listing(LastLive(order).Keys) == order
  {
    var keys: set<MemoryId> := {"a", "b", "c", "d"};
    order := Listing(keys);
    DistinctCount(order, keys);
    assert LastLive(order).Keys == keys;
  }

  lemma OnlyLastLives(order: seq<MemoryId>, ns: Namespace, hits: seq<Hit>)
    requires |order| == |hits| == 4 && Distinct(order) && ns == LastLive(order)
    requires forall i :: 0 <= i < |hits| ==> hits[i].key == order[i]
    ensures forall i :: 0 <= i < |hits| ==> hits[i].key in ns
    ensures LiveRecalls(ns, Take(hits, 3), 1) == [] && |LiveRecalls(ns, hits, 1)| == 1
  {
    var fetched := Take(hits, 3);
    assert hits == fetched + [hits[3]];
    forall i | 0 <= i < |fetched|
      ensures fetched[i].key in ns && !ns[fetched[i].key].IsActive(1)
    {
      assert fetched[i].key == order[i] != order[3];
    }
    StaleGiveNothing(ns, fetched, 1);
    LiveSnoc(ns, fetched, hits[3], 1);
  }

  /** Three stale records ranked before the only live one hide it from a recall of one. */
  lemma OverfetchMisses(given: Env) returns (env: Env, ns: Namespace)
    requires given.Valid()
    ensures env.Valid()
    ensures Recalls(env, ns, "n", Some(1), 1) == [] && |Ideal(env, ns, "n", Some(1), 1)| == 1
  {
    env := given.(rank := (ns: Namespace, query: string) => KeysRanked(ns));
    var order := FourKeys();
    ns := LastLive(order);
    OnlyLastLives(order, ns, env.rank(ns, "n"));
    assert Text.Trimmed("n");
  }

  /** If at most 2k of the first 3k matches are stale, nothing is missed. */
  lemma OverfetchSuffices(env: Env, ns: Namespace, query: string, limit: Option<nat>, now: int)
    requires env.Valid() && RanksWithin(env.rank(ns, query), ns)
    requires var k := Wanted(env, limit);
             var fetched := Take(env.rank(ns, query), k * OVERFETCH);
             |fetched| - |LiveRecalls(ns, fetched, now)| <= 2 * k
    ensures Recalls(env, ns, query, limit, now) == Ideal(env, ns, query, limit, now)
  {
    if Text.Strip(query) != "" {
      OverfetchExactly(env, ns, query, limit, now);
      var k := Wanted(env, limit);
      var hits := env.rank(ns, query);
      var fetched := Take(hits, k * OVERFETCH);
      if |hits| <= k * OVERFETCH {
        assert hits[|fetched|..] == [];
      }
    }
  }

  // ----------------------------------------------------------- what recall gives

  /** The places of the live hits among the first n. */
  ghost function LivePlaces(ns: Namespace, hits: seq<Hit>, n: nat, now: int): set<nat>
    requires forall i :: 0 <= i < |hits| ==> hits[i].key in ns
  {
    set i: nat | i < |hits| && i < n && Live(ns[hits[i].key], now)
  }

  lemma PlacesCounted(ns: Namespace, hits: seq<Hit>, n: nat, rs: seq<Recall>, now: int, at: seq<nat>)
    requires forall i :: 0 <= i < |hits| ==> hits[i].key in ns
    requires InOrder(ns, Take(hits, n), rs, now, at)
    ensures |rs| == |LivePlaces(ns, hits, n, now)|
  {
    forall x
      ensures x in at <==> x in LivePlaces(ns, hits, n, now)
    {
      if x in at {
        var i :| 0 <= i < |at| && at[i] == x;
        assert Shows(ns, Take(hits, n)[at[i]], rs[i]);
      }
      if x in LivePlaces(ns, hits, n, now) {
        assert Take(hits, n)[x] == hits[x];
      }
    }
    DistinctCount(at, LivePlaces(ns, hits, n, now));
  }

  /** Recalls are the first `want` live hits among the first `seen`, each as it is shown. */
  ghost predicate FirstLiveHits(ns: Namespace, hits: seq<Hit>, seen: nat, want: nat, now: int, rs: seq<Recall>,
                                at: seq<nat>)
    requires forall i :: 0 <= i < |hits| ==> hits[i].key in ns
  {
    var live := LivePlaces(ns, hits, seen, now);
    && |rs| == |at| == (if |live| < want then |live| else want)
    && (forall i :: 0 <= i < |at| ==> at[i] in live && Shows(ns, hits[at[i]], rs[i]))
    && (forall i, j :: 0 <= i < j < |at| ==> at[i] < at[j])
    && (forall x, i :: x in live && 0 <= i < |at| && x < at[i] ==> x in at)
  }

  lemma CutKeepsFirst(ns: Namespace, hits: seq<Hit>, seen: nat, want: nat, now: int, all: seq<Recall>, at: seq<nat>)
    requires forall i :: 0 <= i < |hits| ==> hits[i].key in ns
    requires InOrder(ns, Take(hits, seen), all, now, at)
    ensures FirstLiveHits(ns, hits, seen, want, now, Take(all, want), Take(at, want))
  {
    PlacesCounted(ns, hits, seen, all, now, at);
    var at', live := Take(at, want), LivePlaces(ns, hits, seen, now);
    forall i | 0 <= i < |at'|
      ensures at'[i] in live && Shows(ns, hits[at'[i]], Take(all, want)[i])
    {
      assert Shows(ns, Take(hits, seen)[at[i]], all[i]);
    }
    forall x, i | x in live && 0 <= i < |at'| && x < at'[i]
      ensures x in at'
    {
      assert Take(hits, seen)[x] == hits[x];
      var j :| 0 <= j < |at| && at[j] == x;
      assert at'[j] == x;
    }
  }

  /**
   What recall gives: nothing for a blank query; otherwise, with k the limit if it is given
   and not zero and the configured one if not, the first k live hits among the first 3k.
   */
  lemma RecallExactly(env: Env, ns: Namespace, query: string, limit: Option<nat>, now: int) returns (at: seq<nat>)
    requires env.Valid()
    ensures RanksWithin(env.rank(ns, query), ns)
    ensures var rs := Recalls(env, ns, query, limit, now);
            if Text.IsBlank(query) then rs == []
            else
              var k := if limit == None || limit == Some(0) then env.topK else limit.value;
              FirstLiveHits(ns, env.rank(ns, query), 3 * k, k, now, rs, at)
  {
    var k := Wanted(env, limit);
    var hits := env.rank(ns, query);
    assert RanksWithin(hits, ns);
    Text.BlankExactly(query);
    at := [];
    if Text.Strip(query) != "" {
      var fetched := Take(hits, k * OVERFETCH);
      at := LiveInOrder(ns, fetched, now);
      CutKeepsFirst(ns, hits, k * OVERFETCH, k, now, LiveRecalls(ns, fetched, now), at);
      at := Take(at, k);
    }
  }

  /** In all cases: at most k live records of the namespace, none twice, in ranking order. */
  lemma RecallsAreLive(env: Env, ns: Namespace, query: string, limit: Option<nat>, now: int)
    returns (at: seq<nat>)
    requires env.Valid()
    ensures var rs := Recalls(env, ns, query, limit, now);
            var hits := env.rank(ns, query);
            && |rs| <= Wanted(env, limit)
            && |at| == |rs| && RanksWithin(hits, ns)
            && (forall i :: 0 <= i < |rs| ==> at[i] < |hits| && rs[i] == RecallOf(ns, hits[at[i]]))
            && (forall i :: 0 <= i < |rs| ==> rs[i].memory.IsActive(now))
            && (forall i, j :: 0 <= i < j < |rs| ==> at[i] < at[j])
  {
    at := RecallExactly(env, ns, query, limit, now);
    if Text.IsBlank(query) {
      at := [];
    }
  }
}
