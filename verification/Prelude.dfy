/** Optional values and the few sequence facts that several modules share. */
module Prelude {

  datatype Option<+T> = None | Some(value: T)

  /** No value occurs at two positions. */
  ghost predicate Distinct<T>(xs: seq<T>) {
    forall i, j :: 0 <= i < j < |xs| ==> xs[i] != xs[j]
  }

  /** xs lists every element of keys exactly once. */
  ghost predicate Enumerates<T(!new)>(xs: seq<T>, keys: set<T>) {
    Distinct(xs) && forall x :: x in xs <==> x in keys
  }

  /** The first n elements, or all of them when there are fewer. */
  function Take<T>(xs: seq<T>, n: nat): (r: seq<T>)
    ensures r <= xs
    ensures |r| == if n < |xs| then n else |xs|
    ensures |xs| <= n ==> r == xs
  {
    if n < |xs| then xs[..n] else xs
  }

  lemma {:induction false} DistinctCount<T>(xs: seq<T>, keys: set<T>)
    requires Distinct(xs) && forall x :: x in xs ==> x in keys
    ensures |xs| <= |keys|
    ensures (forall x :: x in keys ==> x in xs) ==> |xs| == |keys|
  {
    if xs == [] {
      assert (forall x :: x in keys ==> x in xs) ==> keys == {};
    } else {
      var last := xs[|xs| - 1];
      var rest := xs[..|xs| - 1];
      assert xs == rest + [last];
      assert last in xs;
      DistinctCount(rest, keys - {last});
    }
  }

  // ------------------------------------------------------------------- filtering

  /** The entries that pass a test, in order. */
  function Filter<T>(keep: T -> bool, xs: seq<T>): seq<T> {
    if xs == [] then []
    else
      var kept := Filter(keep, xs[..|xs| - 1]);
      var last := xs[|xs| - 1];
      if keep(last) then kept + [last] else kept
  }

  /** r consists of the entries of xs at the given places, which are all those that pass, in order. */
  ghost predicate PicksAt<T>(keep: T -> bool, xs: seq<T>, r: seq<T>, at: seq<nat>) {
    && |at| == |r|
    && (forall i :: 0 <= i < |r| ==> at[i] < |xs| && r[i] == xs[at[i]] && keep(r[i]))
    && (forall i, j :: 0 <= i < j < |at| ==> at[i] < at[j])
    && (forall k :: 0 <= k < |xs| && keep(xs[k]) ==> k in at)
  }

  /** r lists every entry of xs that passes, as often and in the order it occurs there, and no other. */
  ghost predicate Picks<T>(keep: T -> bool, xs: seq<T>, r: seq<T>) {
    exists at :: PicksAt(keep, xs, r, at)
  }

  lemma {:induction false} FilterPicks<T>(keep: T -> bool, xs: seq<T>)
    ensures Picks(keep, xs, Filter(keep, xs))
  {
    if xs == [] {
      assert PicksAt(keep, xs, Filter(keep, xs), []);
    } else {
      var init := xs[..|xs| - 1];
      FilterPicks(keep, init);
      var at :| PicksAt(keep, init, Filter(keep, init), at);
      PicksSnoc(keep, xs, init, Filter(keep, init), at);
    }
  }

  /** One more entry is picked exactly if it passes. */
  lemma PicksSnoc<T>(keep: T -> bool, xs: seq<T>, init: seq<T>, kept: seq<T>, at: seq<nat>)
    requires xs != [] && init == xs[..|xs| - 1] && PicksAt(keep, init, kept, at)
    ensures var n := |xs| - 1;
            if keep(xs[n]) then PicksAt(keep, xs, kept + [xs[n]], at + [n]) else PicksAt(keep, xs, kept, at)
  {
    var n := |xs| - 1;
    forall k | 0 <= k < n && keep(xs[k])
      ensures k in at
    {
      assert init[k] == xs[k];
    }
  }

  lemma {:induction false} FilterMembers<T(!new)>(keep: T -> bool, xs: seq<T>)
    ensures forall x :: x in Filter(keep, xs) <==> x in xs && keep(x)
  {
    if xs == [] {
    } else {
      var init, last := xs[..|xs| - 1], xs[|xs| - 1];
      FilterMembers(keep, init);
      assert xs == init + [last];
    }
  }

  lemma PicksSame<T(!new)>(p: T -> bool, q: T -> bool, xs: seq<T>, r: seq<T>)
    requires Picks(p, xs, r) && forall x :: p(x) <==> q(x)
    ensures Picks(q, xs, r)
  {
    var at :| PicksAt(p, xs, r, at);
    assert PicksAt(q, xs, r, at);
  }

  lemma NoneMeetsBoth<T(!new)>(keep: T -> bool, hit: T -> bool, xs: seq<T>)
    requires forall j :: 0 <= j < |Filter(keep, xs)| ==> !hit(Filter(keep, xs)[j])
    ensures forall j :: 0 <= j < |xs| && keep(xs[j]) ==> !hit(xs[j])
  {
    FilterMembers(keep, xs);
    forall j | 0 <= j < |xs| && keep(xs[j])
      ensures !hit(xs[j])
    {
      assert xs[j] in Filter(keep, xs);
    }
  }

  /** The first entry kept that meets a second test is the first entry at all that meets both. */
  lemma {:induction false} FirstKept<T(!new)>(keep: T -> bool, hit: T -> bool, xs: seq<T>, i: nat) returns (k: nat)
    requires i < |Filter(keep, xs)| && hit(Filter(keep, xs)[i])
    requires forall j :: 0 <= j < i ==> !hit(Filter(keep, xs)[j])
    ensures k < |xs| && xs[k] == Filter(keep, xs)[i] && keep(xs[k])
    ensures forall j :: 0 <= j < k && keep(xs[j]) ==> !hit(xs[j])
  {
    var init := xs[..|xs| - 1];
    assert forall j :: 0 <= j < |Filter(keep, init)| ==> Filter(keep, xs)[j] == Filter(keep, init)[j];
    if i < |Filter(keep, init)| {
      k := FirstKept(keep, hit, init, i);
    } else {
      k := |init|;
      NoneMeetsBoth(keep, hit, init);
    }
  }

  lemma {:induction false} FilterNone<T>(keep: T -> bool, xs: seq<T>)
    requires forall i :: 0 <= i < |xs| ==> !keep(xs[i])
    ensures Filter(keep, xs) == []
  {
    if xs == [] {
    } else {
      FilterNone(keep, xs[..|xs| - 1]);
    }
  }

  // --------------------------------------------------------------- first failures

  ghost predicate Until(p: nat -> bool, n: nat) {
    forall i: nat :: i < n ==> p(i)
  }

  lemma UntilPrefix(p: nat -> bool, m: nat, n: nat)
    requires m <= n && Until(p, n)
    ensures Until(p, m) && (m < n ==> p(m))
  {
  }

  /** Two properties whose first failures coincide hold up to the same points. */
  lemma {:induction false} SameFailures(p: nat -> bool, q: nat -> bool, n: nat)
    requires forall i: nat :: i < n && Until(q, i) ==> (p(i) <==> q(i))
    ensures Until(p, n) <==> Until(q, n)
  {
    if n == 0 {
    } else {
      SameFailures(p, q, n - 1);
      assert Until(p, n) <==> Until(p, n - 1) && p(n - 1);
      assert Until(q, n) <==> Until(q, n - 1) && q(n - 1);
    }
  }
}
