/** The part of a run made up of certain operations, in order. */
module Selection {
  import opened Prelude
  import opened World

  /** An operation left out does not tell the two runs apart. */
  ghost predicate DroppedKeeps(ops: seq<Op>, keep: Op -> bool, states: seq<State>, keptStates: seq<State>,
                               rel: (State, State) -> bool, i: nat, j: nat)
    requires i < |ops| < |states| && j < |keptStates|
  {
    !keep(ops[i]) && rel(states[i], keptStates[j]) ==> rel(states[i + 1], keptStates[j])
  }

  /** An operation kept does the same to both, and gives the same. */
  ghost predicate KeptKeeps(ops: seq<Op>, keep: Op -> bool, states: seq<State>, outs: seq<Output>, kept: seq<Op>,
                            keptStates: seq<State>, keptOuts: seq<Output>, rel: (State, State) -> bool,
                            relOut: (Output, Output) -> bool, i: nat, j: nat)
    requires i < |ops| == |outs| < |states| && j < |kept| == |keptOuts| < |keptStates|
  {
    keep(ops[i]) && ops[i] == kept[j] && rel(states[i], keptStates[j]) ==>
      rel(states[i + 1], keptStates[j + 1]) && relOut(outs[i], keptOuts[j])
  }

  /** The first k places are those before n, so an operation that none of them names is not kept. */
  lemma NotKept(ops: seq<Op>, keep: Op -> bool, kept: seq<Op>, at: seq<nat>, n: nat, k: nat)
    requires PicksAt(keep, ops, kept, at) && n < |ops| && k <= |at|
    requires (forall i :: 0 <= i < k ==> at[i] < n) && (k < |at| ==> at[k] > n)
    ensures !keep(ops[n])
  {
    if keep(ops[n]) {
      var i :| 0 <= i < |at| && at[i] == n;
    }
  }

  /** If each single step keeps two runs related, then a run and a part of it stay related throughout. */
  lemma {:induction false} RunsStayRelated(ops: seq<Op>, keep: Op -> bool, states: seq<State>, outs: seq<Output>,
                                           kept: seq<Op>, at: seq<nat>, keptStates: seq<State>,
                                           keptOuts: seq<Output>, rel: (State, State) -> bool,
                                           relOut: (Output, Output) -> bool, n: nat, k: nat)
    requires |states| == |ops| + 1 && |outs| == |ops|
    requires |keptStates| == |kept| + 1 && |keptOuts| == |kept|
    requires PicksAt(keep, ops, kept, at) && n <= |ops| && k <= |at|
    requires (forall i :: 0 <= i < k ==> at[i] < n) && (k < |at| ==> at[k] >= n)
    requires forall i, j :: 0 <= i < |ops| && 0 <= j < |keptStates| ==>
               DroppedKeeps(ops, keep, states, keptStates, rel, i, j)
    requires forall i, j :: 0 <= i < |ops| && 0 <= j < |kept| ==>
               KeptKeeps(ops, keep, states, outs, kept, keptStates, keptOuts, rel, relOut, i, j)
    requires rel(states[0], keptStates[0])
    ensures rel(states[n], keptStates[k])
    ensures forall i :: 0 <= i < k ==> relOut(outs[at[i]], keptOuts[i])
  {
    if n == 0 {
    } else if k > 0 && at[k - 1] == n - 1 {
      RunsStayRelated(ops, keep, states, outs, kept, at, keptStates, keptOuts, rel, relOut, n - 1, k - 1);
      assert KeptKeeps(ops, keep, states, outs, kept, keptStates, keptOuts, rel, relOut, n - 1, k - 1);
    } else {
      NotKept(ops, keep, kept, at, n - 1, k);
      RunsStayRelated(ops, keep, states, outs, kept, at, keptStates, keptOuts, rel, relOut, n - 1, k);
      assert DroppedKeeps(ops, keep, states, keptStates, rel, n - 1, k);
    }
  }
}
