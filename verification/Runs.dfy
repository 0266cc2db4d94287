/**
 The maximal runs of characters that pass a test. They say what splitting a text gives
 without saying how it is split: each text has exactly one list of runs.
 */
module Runs {

  datatype Run = Run(from: nat, to: nat)

  /** The characters at x all pass, and x can be stretched at neither end. */
  ghost predicate IsMaximal(keep: char -> bool, s: string, x: Run) {
    && x.from < x.to <= |s|
    && (forall i :: x.from <= i < x.to ==> keep(s[i]))
    && (x.from > 0 ==> !keep(s[x.from - 1]))
    && (x.to < |s| ==> !keep(s[x.to]))
  }

  /** The word is what stands at the run x. */
  ghost predicate StandsAt(keep: char -> bool, s: string, x: Run, word: string) {
    && IsMaximal(keep, s, x)
    && |word| == x.to - x.from
    && forall i :: 0 <= i < |word| ==> word[i] == s[x.from + i]
  }

  ghost predicate Covers(at: seq<Run>, k: nat) {
    exists i :: 0 <= i < |at| && at[i].from <= k < at[i].to
  }

  /** The words are what stands at the given runs, which are all the runs from `lo` on, in order. */
  ghost predicate RunsFrom(keep: char -> bool, s: string, lo: nat, words: seq<string>, at: seq<Run>) {
    && |at| == |words|
    && (forall i :: 0 <= i < |at| ==> lo <= at[i].from && StandsAt(keep, s, at[i], words[i]))
    && (forall i, j :: 0 <= i < j < |at| ==> at[i].to < at[j].from)
    && (forall k :: lo <= k < |s| && keep(s[k]) ==> Covers(at, k))
  }

  /** The words are the maximal runs of s, in order. */
  ghost predicate AreRuns(keep: char -> bool, s: string, words: seq<string>) {
    exists at :: RunsFrom(keep, s, 0, words, at)
  }

  // ------------------------------------------------------------------- splitting

  function Word(word: string): seq<string> {
    if word == "" then [] else [word]
  }

  /** A scan from left to right; `word` is the run being read. */
  function Split(keep: char -> bool, s: string, word: string): seq<string> {
    if s == "" then Word(word)
    else if keep(s[0]) then Split(keep, s[1..], word + [s[0]])
    else Word(word) + Split(keep, s[1..], "")
  }

  lemma CoversCons(x: Run, at: seq<Run>, k: nat)
    ensures Covers([x] + at, k) <==> x.from <= k < x.to || Covers(at, k)
  {
    var all := [x] + at;
    if Covers(at, k) {
      var i :| 0 <= i < |at| && at[i].from <= k < at[i].to;
      assert all[i + 1].from <= k < all[i + 1].to;
    }
    if x.from <= k < x.to {
      assert all[0].from <= k < all[0].to;
    }
  }

  lemma RunsCons(keep: char -> bool, s: string, x: Run, word: string, words: seq<string>, at: seq<Run>)
    requires StandsAt(keep, s, x, word) && RunsFrom(keep, s, x.to + 1, words, at)
    ensures RunsFrom(keep, s, x.from, [word] + words, [x] + at)
  {
    forall k | x.from <= k < |s| && keep(s[k])
      ensures Covers([x] + at, k)
    {
      CoversCons(x, at, k);
    }
  }

  lemma RunsSkip(keep: char -> bool, s: string, i: nat, words: seq<string>, at: seq<Run>)
    requires i < |s| && !keep(s[i]) && RunsFrom(keep, s, i + 1, words, at)
    ensures RunsFrom(keep, s, i, words, at)
  {
  }

  /** The word is what stands at from..to, all of it passing, and it starts a run. */
  ghost predicate InHand(keep: char -> bool, s: string, from: nat, to: nat, word: string) {
    && from <= to <= |s| && |word| == to - from
    && (forall k :: 0 <= k < |word| ==> word[k] == s[from + k] && keep(word[k]))
    && (from > 0 ==> !keep(s[from - 1]))
  }

  lemma InHandNext(keep: char -> bool, s: string, from: nat, to: nat, word: string)
    requires InHand(keep, s, from, to, word) && to < |s| && keep(s[to])
    ensures InHand(keep, s, from, to + 1, word + [s[to]])
  {
  }

  lemma InHandStands(keep: char -> bool, s: string, from: nat, to: nat, word: string)
    requires InHand(keep, s, from, to, word) && from < to && (to < |s| ==> !keep(s[to]))
    ensures StandsAt(keep, s, Run(from, to), word)
  {
    forall i | from <= i < to
      ensures keep(s[i])
    {
      assert word[i - from] == s[from + (i - from)];
    }
  }

  lemma NoRunsLeft(keep: char -> bool, s: string, lo: nat)
    requires lo >= |s|
    ensures RunsFrom(keep, s, lo, [], [])
  {
  }

  lemma TailOfTail(s: string, i: nat)
    requires i < |s|
    ensures s[i..][0] == s[i] && s[i..][1..] == s[i + 1..]
  {
  }

  /** The scan, about to read s from position i with `word` in hand, finds the runs. */
  lemma {:induction false} SplitFrom(keep: char -> bool, s: string, from: nat, i: nat, word: string, rest: string)
    returns (at: seq<Run>)
    requires InHand(keep, s, from, i, word) && rest == s[i..]
    ensures RunsFrom(keep, s, from, Split(keep, rest, word), at)
    decreases |rest|
  {
    if rest == "" {
      at := EndOfScan(keep, s, from, word);
    } else if keep(rest[0]) {
      TailOfTail(s, i);
      InHandNext(keep, s, from, i, word);
      at := SplitFrom(keep, s, from, i + 1, word + [rest[0]], rest[1..]);
    } else {
      TailOfTail(s, i);
      at := SplitFrom(keep, s, i + 1, i + 1, "", rest[1..]);
      at := EndOfRun(keep, s, from, i, word, Split(keep, rest[1..], ""), at);
    }
  }

  lemma EndOfScan(keep: char -> bool, s: string, from: nat, word: string) returns (at: seq<Run>)
    requires InHand(keep, s, from, |s|, word)
    ensures RunsFrom(keep, s, from, Word(word), at)
  {
    NoRunsLeft(keep, s, |s| + 1);
    at := [];
    if word != "" {
      InHandStands(keep, s, from, |s|, word);
      RunsCons(keep, s, Run(from, |s|), word, [], []);
      at := [Run(from, |s|)];
      assert [word] + [] == [word] && at + [] == at;
    }
  }

  lemma EndOfRun(keep: char -> bool, s: string, from: nat, i: nat, word: string, words: seq<string>, later: seq<Run>)
    returns (at: seq<Run>)
    requires InHand(keep, s, from, i, word) && i < |s| && !keep(s[i]) && RunsFrom(keep, s, i + 1, words, later)
    ensures RunsFrom(keep, s, from, Word(word) + words, at)
  {
    if word == "" {
      at := later;
      RunsSkip(keep, s, i, words, later);
      assert Word(word) + words == words;
    } else {
      at := [Run(from, i)] + later;
      InHandStands(keep, s, from, i, word);
      RunsCons(keep, s, Run(from, i), word, words, later);
    }
  }

  lemma SplitFindsRuns(keep: char -> bool, s: string)
    ensures AreRuns(keep, s, Split(keep, s, ""))
  {
    assert s[0..] == s;
    var at := SplitFrom(keep, s, 0, 0, "", s);
  }

  // ------------------------------------------------------------------ uniqueness

  lemma RunStarts(keep: char -> bool, s: string, x: Run)
    requires IsMaximal(keep, s, x)
    ensures x.from < |s| && keep(s[x.from])
  {
  }

  lemma SameEnd(keep: char -> bool, s: string, x: Run, y: Run)
    requires IsMaximal(keep, s, x) && IsMaximal(keep, s, y) && x.from == y.from
    ensures x.to <= y.to
  {
    if y.to < |s| {
      assert !keep(s[y.to]);
    }
  }

  /** Every listing of the runs from lo on has the first of them no later than any other listing. */
  lemma FirstIsFirst(keep: char -> bool, s: string, lo: nat, words: seq<string>, at: seq<Run>, words': seq<string>,
                     at': seq<Run>)
    requires RunsFrom(keep, s, lo, words, at) && RunsFrom(keep, s, lo, words', at') && at != []
    ensures at' != [] && at'[0].from <= at[0].from
  {
    assert StandsAt(keep, s, at[0], words[0]);
    RunStarts(keep, s, at[0]);
    assert Covers(at', at[0].from);
    var j :| 0 <= j < |at'| && at'[j].from <= at[0].from < at'[j].to;
    assert j > 0 ==> at'[0].to < at'[j].from && StandsAt(keep, s, at'[0], words'[0]);
  }

  lemma SameWord(keep: char -> bool, s: string, x: Run, w: string, w': string)
    requires StandsAt(keep, s, x, w) && StandsAt(keep, s, x, w')
    ensures w == w'
  {
    assert forall i :: 0 <= i < |w| ==> w[i] == s[x.from + i] == w'[i];
  }

  lemma SameStart(keep: char -> bool, s: string, x: Run, w: string, y: Run, w': string)
    requires StandsAt(keep, s, x, w) && StandsAt(keep, s, y, w') && x.from == y.from
    ensures x == y && w == w'
  {
    SameEnd(keep, s, x, y);
    SameEnd(keep, s, y, x);
    SameWord(keep, s, x, w, w');
  }

  lemma StandsFirst(keep: char -> bool, s: string, lo: nat, words: seq<string>, at: seq<Run>)
    requires RunsFrom(keep, s, lo, words, at) && at != []
    ensures StandsAt(keep, s, at[0], words[0])
  {
  }

  lemma FirstRunIsUnique(keep: char -> bool, s: string, lo: nat, words: seq<string>, at: seq<Run>,
                         words': seq<string>, at': seq<Run>)
    requires RunsFrom(keep, s, lo, words, at) && RunsFrom(keep, s, lo, words', at') && at != []
    ensures at' != [] && at'[0] == at[0] && words'[0] == words[0]
  {
    FirstIsFirst(keep, s, lo, words, at, words', at');
    FirstIsFirst(keep, s, lo, words', at', words, at);
    StandsFirst(keep, s, lo, words, at);
    StandsFirst(keep, s, lo, words', at');
    SameStart(keep, s, at[0], words[0], at'[0], words'[0]);
  }

  lemma RunsTail(keep: char -> bool, s: string, lo: nat, words: seq<string>, at: seq<Run>)
    requires at != [] && RunsFrom(keep, s, lo, words, at)
    ensures RunsFrom(keep, s, at[0].to + 1, words[1..], at[1..])
  {
    assert at == [at[0]] + at[1..];
    forall k | at[0].to + 1 <= k < |s| && keep(s[k])
      ensures Covers(at[1..], k)
    {
      assert StandsAt(keep, s, at[0], words[0]) && Covers(at, k);
      CoversCons(at[0], at[1..], k);
    }
  }

  lemma NoRunsAgree(keep: char -> bool, s: string, lo: nat, words: seq<string>, words': seq<string>, at': seq<Run>)
    requires RunsFrom(keep, s, lo, words, []) && RunsFrom(keep, s, lo, words', at')
    ensures words == words' == []
  {
    if at' != [] {
      FirstIsFirst(keep, s, lo, words', at', words, []);
    }
  }

  lemma {:induction false} RunsFromUnique(keep: char -> bool, s: string, lo: nat, words: seq<string>, at: seq<Run>,
                                          words': seq<string>, at': seq<Run>)
    requires RunsFrom(keep, s, lo, words, at) && RunsFrom(keep, s, lo, words', at')
    ensures words == words'
    decreases |at|
  {
    if at == [] {
      NoRunsAgree(keep, s, lo, words, words', at');
    } else {
      FirstRunIsUnique(keep, s, lo, words, at, words', at');
      RunsTail(keep, s, lo, words, at);
      RunsTail(keep, s, lo, words', at');
      RunsFromUnique(keep, s, at[0].to + 1, words[1..], at[1..], words'[1..], at'[1..]);
      assert words == [words[0]] + words[1..] && words' == [words'[0]] + words'[1..];
    }
  }

  /** A text has exactly one list of maximal runs. */
  lemma RunsAreUnique(keep: char -> bool, s: string, words: seq<string>, words': seq<string>)
    requires AreRuns(keep, s, words) && AreRuns(keep, s, words')
    ensures words == words'
  {
    var at: seq<Run> :| RunsFrom(keep, s, 0, words, at);
    var at': seq<Run> :| RunsFrom(keep, s, 0, words', at');
    RunsFromUnique(keep, s, 0, words, at, words', at');
  }

  /** So the runs of a text are what the scan gives, and nothing else is. */
  lemma RunsAreSplit(keep: char -> bool, s: string, words: seq<string>)
    ensures AreRuns(keep, s, words) <==> words == Split(keep, s, "")
  {
    SplitFindsRuns(keep, s);
    if AreRuns(keep, s, words) {
      RunsAreUnique(keep, s, words, Split(keep, s, ""));
    }
  }

  lemma RunPasses(keep: char -> bool, s: string, x: Run, word: string)
    requires StandsAt(keep, s, x, word)
    ensures word != "" && forall i :: 0 <= i < |word| ==> keep(word[i])
  {
  }

  lemma RunsPass(keep: char -> bool, s: string, words: seq<string>)
    requires AreRuns(keep, s, words)
    ensures forall w :: w in words ==> w != "" && forall i :: 0 <= i < |w| ==> keep(w[i])
  {
    var at: seq<Run> :| RunsFrom(keep, s, 0, words, at);
    forall w | w in words
      ensures w != "" && forall i :: 0 <= i < |w| ==> keep(w[i])
    {
      var j :| 0 <= j < |words| && words[j] == w;
      RunPasses(keep, s, at[j], w);
    }
  }
}
