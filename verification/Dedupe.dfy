/** The unslotted duplicate check: the store's index narrows, exact cosine settles. */
module Dedupe {
  import opened Prelude
  import opened Records
  import opened Environment
  import opened Vectors

  /** How many index results the check considers. */
  const DEDUPE_CANDIDATES: nat := 10

  function Score(env: Env, text: string, m: Memory): real
    requires env.EmbedsUniformly()
  {
    Cosine(env.sqrt, env.embed(text), env.embed(m.text))
  }

  /** The working list seen as a dictionary by id; a later entry wins. */
  function Lookup(existing: seq<Memory>, key: MemoryId): (r: Option<Memory>)
    ensures r.None? <==> forall m :: m in existing ==> m.id != key
    ensures r.Some? ==> r.value in existing && r.value.id == key
  {
    if existing == [] then None
    else
      var last := existing[|existing| - 1];
      if last.id == key then Some(last) else Lookup(existing[..|existing| - 1], key)
  }

  /** The working-list records behind a list of search results, in result order. */
  function Gather(hits: seq<Hit>, existing: seq<Memory>): (r: seq<Memory>)
    ensures forall m :: m in r ==> m in existing
  {
    if hits == [] then []
    else
      var init := Gather(hits[..|hits| - 1], existing);
      var found := Lookup(existing, hits[|hits| - 1].key);
      if found.Some? then init + [found.value] else init
  }

  function Window(env: Env, ns: Namespace, existing: seq<Memory>, text: string): (r: seq<Memory>)
    ensures forall m :: m in r ==> m in existing
  {
    Gather(Take(env.rank(ns, text), DEDUPE_CANDIDATES), existing)
  }

  datatype Pick = Pick(best: Option<Memory>, score: real)

  /** The running best of a left-to-right scan that starts from "none, score 0". */
  function BestOf(env: Env, text: string, candidates: seq<Memory>): Pick
    requires env.EmbedsUniformly()
  {
    if candidates == [] then Pick(None, 0.0)
    else
      var soFar := BestOf(env, text, candidates[..|candidates| - 1]);
      var last := candidates[|candidates| - 1];
      var score := Score(env, text, last);
      if score > soFar.score then Pick(Some(last), score) else soFar
  }

  function Settle(env: Env, pick: Pick): Option<Memory> {
    if pick.score >= env.similarity then pick.best else None
  }

  function Nearest(env: Env, ns: Namespace, existing: seq<Memory>, text: string): Option<Memory>
    requires env.EmbedsUniformly()
  {
    Settle(env, BestOf(env, text, Window(env, ns, existing, text)))
  }

  /** What the narrowed check stands in for: comparing against every live memory. */
  function FullScan(env: Env, existing: seq<Memory>, text: string): Option<Memory>
    requires env.EmbedsUniformly()
  {
    Settle(env, BestOf(env, text, existing))
  }

  /** The pick is the first of the records with the pick's score. */
  ghost predicate IsFirst(env: Env, text: string, ms: seq<Memory>, pick: Pick)
    requires env.EmbedsUniformly() && pick.best.Some?
  {
    exists i :: 0 <= i < |ms| && ms[i] == pick.best.value && Score(env, text, ms[i]) == pick.score
      && forall j :: 0 <= j < i ==> Score(env, text, ms[j]) < pick.score
  }

  lemma FirstStays(env: Env, text: string, init: seq<Memory>, last: Memory, pick: Pick)
    requires env.EmbedsUniformly() && pick.best.Some? && IsFirst(env, text, init, pick)
    ensures IsFirst(env, text, init + [last], pick)
  {
    var i :| 0 <= i < |init| && init[i] == pick.best.value && Score(env, text, init[i]) == pick.score
        && forall j :: 0 <= j < i ==> Score(env, text, init[j]) < pick.score;
    assert (init + [last])[i] == init[i];
  }

  lemma LastIsFirst(env: Env, text: string, init: seq<Memory>, last: Memory, score: real)
    requires env.EmbedsUniformly() && Score(env, text, last) == score
    requires forall m :: m in init ==> Score(env, text, m) < score
    ensures IsFirst(env, text, init + [last], Pick(Some(last), score))
  {
    assert (init + [last])[|init|] == last;
    forall j | 0 <= j < |init|
      ensures Score(env, text, (init + [last])[j]) < score
    {
      assert (init + [last])[j] in init;
    }
  }

  /** The scan finds the first record with the highest positive score, if any is positive. */
  lemma {:induction false} BestOfIsFirstBest(env: Env, text: string, candidates: seq<Memory>)
    requires env.EmbedsUniformly()
    ensures var pick := BestOf(env, text, candidates);
            && pick.score >= 0.0
            && (forall m :: m in candidates ==> Score(env, text, m) <= pick.score)
            && (pick.best.None? <==> pick.score == 0.0)
            && (pick.best.Some? ==> IsFirst(env, text, candidates, pick))
  {
    if candidates == [] {
    } else {
      var init, last := candidates[..|candidates| - 1], candidates[|candidates| - 1];
      assert candidates == init + [last];
      BestOfIsFirstBest(env, text, init);
      var soFar := BestOf(env, text, init);
      if Score(env, text, last) > soFar.score {
        LastIsFirst(env, text, init, last, Score(env, text, last));
      } else if soFar.best.Some? {
        FirstStays(env, text, init, last, soFar);
      }
    }
  }

  /**
   A duplicate is always a live record with a positive cosine at or above the threshold,
   so the narrowed check never reports one the full scan would not; and it reports none
   exactly when nothing in its window qualifies.
   */
  lemma NearestIsSound(env: Env, ns: Namespace, existing: seq<Memory>, text: string)
    requires env.EmbedsUniformly()
    ensures var near := Nearest(env, ns, existing, text);
            && (near.Some? ==>
                  && near.value in existing
                  && Score(env, text, near.value) >= env.similarity
                  && Score(env, text, near.value) > 0.0
                  && FullScan(env, existing, text).Some?)
            && (near.None? <==>
                  forall m :: m in Window(env, ns, existing, text) ==>
                    Score(env, text, m) < env.similarity || Score(env, text, m) <= 0.0)
  {
    BestOfIsFirstBest(env, text, Window(env, ns, existing, text));
    BestOfIsFirstBest(env, text, existing);
  }

  /** When the window holds a top-scoring live record, narrowing changes nothing. */
  lemma NearestRefinesFullScan(env: Env, ns: Namespace, existing: seq<Memory>, text: string, top: Memory)
    requires env.EmbedsUniformly()
    requires top in Window(env, ns, existing, text)
    requires forall m :: m in existing ==> Score(env, text, m) <= Score(env, text, top)
    ensures var near, full := Nearest(env, ns, existing, text), FullScan(env, existing, text);
            && (near.Some? <==> full.Some?)
            && (near.Some? ==> Score(env, text, near.value) == Score(env, text, full.value)
                               == Score(env, text, top))
  {
    BestOfIsFirstBest(env, text, Window(env, ns, existing, text));
    BestOfIsFirstBest(env, text, existing);
  }

  // ------------------------------------------- in terms of the index and the vectors

  /** m is the entry of the working list under the key, the last one if there are several. */
  ghost predicate IsEntry(existing: seq<Memory>, key: MemoryId, m: Memory) {
    exists j :: 0 <= j < |existing| && existing[j] == m && m.id == key
      && forall i :: j < i < |existing| ==> existing[i].id != key
  }

  /** ms are the working list's entries under the keys of the hits at the given places, and those are all. */
  ghost predicate GathersAt(hits: seq<Hit>, existing: seq<Memory>, ms: seq<Memory>, at: seq<nat>) {
    && |at| == |ms|
    && (forall i :: 0 <= i < |ms| ==> at[i] < |hits| && IsEntry(existing, hits[at[i]].key, ms[i]))
    && (forall i, j :: 0 <= i < j < |at| ==> at[i] < at[j])
    && (forall k :: 0 <= k < |hits| && (exists m :: m in existing && m.id == hits[k].key) ==> k in at)
  }

  lemma EntryStays(init: seq<Memory>, last: Memory, key: MemoryId, m: Memory)
    requires IsEntry(init, key, m) && last.id != key
    ensures IsEntry(init + [last], key, m)
  {
    var j :| 0 <= j < |init| && init[j] == m && m.id == key && forall i :: j < i < |init| ==> init[i].id != key;
    assert (init + [last])[j] == m;
  }

  lemma LastIsEntry(init: seq<Memory>, last: Memory)
    ensures IsEntry(init + [last], last.id, last)
  {
    assert (init + [last])[|init|] == last;
  }

  lemma {:induction false} LookupIsEntry(existing: seq<Memory>, key: MemoryId)
    requires Lookup(existing, key).Some?
    ensures IsEntry(existing, key, Lookup(existing, key).value)
  {
    var init, last := existing[..|existing| - 1], existing[|existing| - 1];
    assert init + [last] == existing;
    if last.id == key {
      LastIsEntry(init, last);
    } else {
      LookupIsEntry(init, key);
      EntryStays(init, last, key, Lookup(init, key).value);
    }
  }

  lemma GathersNext(init: seq<Hit>, hit: Hit, existing: seq<Memory>, ms: seq<Memory>, at: seq<nat>, m: Memory)
    requires GathersAt(init, existing, ms, at) && IsEntry(existing, hit.key, m)
    ensures GathersAt(init + [hit], existing, ms + [m], at + [|init|])
  {
    var at' := at + [|init|];
    forall k | 0 <= k < |init + [hit]| && (exists x :: x in existing && x.id == (init + [hit])[k].key)
      ensures k in at'
    {
      if k == |init| {
        assert at'[|at|] == k;
      } else {
        assert k in at;
      }
    }
  }

  lemma GathersSkip(init: seq<Hit>, hit: Hit, existing: seq<Memory>, ms: seq<Memory>, at: seq<nat>)
    requires GathersAt(init, existing, ms, at) && forall x :: x in existing ==> x.id != hit.key
    ensures GathersAt(init + [hit], existing, ms, at)
  {
  }

  lemma {:induction false} GatherGathers(hits: seq<Hit>, existing: seq<Memory>) returns (at: seq<nat>)
    ensures GathersAt(hits, existing, Gather(hits, existing), at)
  {
    if hits == [] {
      at := [];
    } else {
      var init, last := hits[..|hits| - 1], hits[|hits| - 1];
      at := GatherGathers(init, existing);
      assert init + [last] == hits;
      var found := Lookup(existing, last.key);
      if found.Some? {
        LookupIsEntry(existing, last.key);
        GathersNext(init, last, existing, Gather(init, existing), at, found.value);
        at := at + [|init|];
      } else {
        GathersSkip(init, last, existing, Gather(init, existing), at);
      }
    }
  }

  /** The check considers the working list's entries among the index's ten best, in ranking order. */
  lemma WindowIsTenBest(env: Env, ns: Namespace, existing: seq<Memory>, text: string) returns (at: seq<nat>)
    ensures var hits := env.rank(ns, text);
            GathersAt(if |hits| < 10 then hits else hits[..10], existing, Window(env, ns, existing, text), at)
  {
    at := GatherGathers(Take(env.rank(ns, text), DEDUPE_CANDIDATES), existing);
  }

  ghost predicate AsClose(env: Env, text: string, m: Memory, s: real)
    requires env.EmbedsUniformly()
  {
    IsClose(env.embed(text), env.embed(m.text), s)
  }

  lemma ScoreReaches(env: Env, text: string, m: Memory, s: real)
    requires env.EmbedsUniformly() && IsSqrt(env.sqrt)
    ensures Score(env, text, m) >= s && Score(env, text, m) > 0.0 <==> AsClose(env, text, m, s)
  {
    CosineReaches(env.sqrt, env.embed(text), env.embed(m.text), s);
  }

  /**
   A text restates a record of the window if and only if the vectors of the two are as close
   as the threshold asks; the record reported is as close as any other.
   */
  lemma NearestExactly(env: Env, ns: Namespace, existing: seq<Memory>, text: string)
    requires env.EmbedsUniformly() && IsSqrt(env.sqrt)
    ensures var near := Nearest(env, ns, existing, text);
            var window := Window(env, ns, existing, text);
            && (near.None? <==> forall m :: m in window ==> !AsClose(env, text, m, env.similarity))
            && (near.Some? ==>
                  && near.value in window && AsClose(env, text, near.value, env.similarity)
                  && forall m, s :: m in window && AsClose(env, text, m, s) ==>
                       AsClose(env, text, near.value, s))
  {
    var near := Nearest(env, ns, existing, text);
    var window := Window(env, ns, existing, text);
    BestOfIsFirstBest(env, text, window);
    forall m | m in window
      ensures Score(env, text, m) >= env.similarity && Score(env, text, m) > 0.0
         <==> AsClose(env, text, m, env.similarity)
    {
      ScoreReaches(env, text, m, env.similarity);
    }
    if near.Some? {
      forall m, s | m in window && AsClose(env, text, m, s)
        ensures AsClose(env, text, near.value, s)
      {
        ScoreReaches(env, text, m, s);
        ScoreReaches(env, text, near.value, s);
      }
    }
  }
}
