/**
 What two slot values have in common when they count as the same: once every character is
 lower-cased, the same words, a word being a maximal run of characters that are no white space.
 */
module Values {
  import opened Runs
  import opened Text

  ghost function Visible(): char -> bool {
    (c: char) => !IsSpace(c)
  }

  // -------------------------------------------------------------- lower-casing

  /** t is s with each character replaced by its lower case; that of s[i] begins at cuts[i]. */
  ghost predicate LoweredAt(lower: char -> string, s: string, t: string, cuts: seq<nat>) {
    && |cuts| == |s| + 1 && cuts[0] == 0 && cuts[|s|] == |t|
    && forall i :: 0 <= i < |s| ==> StandsFor(lower, s[i], t, cuts[i], cuts[i + 1])
  }

  ghost predicate StandsFor(lower: char -> string, c: char, t: string, from: nat, to: nat) {
    && from + |lower(c)| == to <= |t|
    && forall k :: 0 <= k < |lower(c)| ==> t[from + k] == lower(c)[k]
  }

  ghost predicate IsLowered(lower: char -> string, s: string, t: string) {
    exists cuts :: LoweredAt(lower, s, t, cuts)
  }

  lemma {:induction false} LowerSnoc(lower: char -> string, s: string, c: char)
    ensures Lower(lower, s + [c]) == Lower(lower, s) + lower(c)
  {
    if s == "" {
      assert s + [c] == [c] && [c][1..] == "" && lower(c) + "" == lower(c) && "" + lower(c) == lower(c);
    } else {
      LowerSnoc(lower, s[1..], c);
      assert (s + [c])[1..] == s[1..] + [c];
    }
  }

  lemma LongerStands(lower: char -> string, c: char, t: string, more: string, from: nat, to: nat)
    requires StandsFor(lower, c, t, from, to)
    ensures StandsFor(lower, c, t + more, from, to)
  {
  }

  lemma LoweredSnoc(lower: char -> string, s: string, t: string, cuts: seq<nat>, c: char)
    requires LoweredAt(lower, s, t, cuts)
    ensures LoweredAt(lower, s + [c], t + lower(c), cuts + [|t| + |lower(c)|])
  {
    var s', t', cuts' := s + [c], t + lower(c), cuts + [|t| + |lower(c)|];
    forall i | 0 <= i < |s'|
      ensures StandsFor(lower, s'[i], t', cuts'[i], cuts'[i + 1])
    {
      if i < |s| {
        LongerStands(lower, s[i], t, lower(c), cuts[i], cuts[i + 1]);
      }
    }
  }

  lemma {:induction false} LowerIsLowered(lower: char -> string, s: string) returns (cuts: seq<nat>)
    ensures LoweredAt(lower, s, Lower(lower, s), cuts)
  {
    if s == "" {
      cuts := [0];
    } else {
      var init, c := s[..|s| - 1], s[|s| - 1];
      cuts := LowerIsLowered(lower, init);
      LoweredSnoc(lower, init, Lower(lower, init), cuts, c);
      LowerSnoc(lower, init, c);
      assert init + [c] == s;
      cuts := cuts + [|Lower(lower, init)| + |lower(c)|];
    }
  }

  lemma {:induction false} CutsBelow(lower: char -> string, s: string, t: string, cuts: seq<nat>, n: nat)
    requires LoweredAt(lower, s, t, cuts) && n <= |s|
    ensures forall i :: 0 <= i <= n ==> cuts[i] <= cuts[n]
  {
    if n == 0 {
    } else {
      CutsBelow(lower, s, t, cuts, n - 1);
      assert StandsFor(lower, s[n - 1], t, cuts[n - 1], cuts[n]);
    }
  }

  lemma LoweredInit(lower: char -> string, s: string, t: string, cuts: seq<nat>)
    requires LoweredAt(lower, s, t, cuts) && s != ""
    ensures cuts[|s| - 1] <= |t| && t == t[..cuts[|s| - 1]] + lower(s[|s| - 1])
    ensures LoweredAt(lower, s[..|s| - 1], t[..cuts[|s| - 1]], cuts[..|s|])
  {
    var n := |s| - 1;
    assert StandsFor(lower, s[n], t, cuts[n], cuts[n + 1]);
    var t' := t[..cuts[n]];
    CutsBelow(lower, s, t, cuts, n);
    forall i | 0 <= i < n
      ensures StandsFor(lower, s[..n][i], t', cuts[..|s|][i], cuts[..|s|][i + 1])
    {
      assert StandsFor(lower, s[i], t, cuts[i], cuts[i + 1]) && cuts[i + 1] <= cuts[n];
    }
  }

  lemma {:induction false} LoweredIsLower(lower: char -> string, s: string, t: string, cuts: seq<nat>)
    requires LoweredAt(lower, s, t, cuts)
    ensures t == Lower(lower, s)
  {
    if s == "" {
    } else {
      var init, c := s[..|s| - 1], s[|s| - 1];
      LoweredInit(lower, s, t, cuts);
      LoweredIsLower(lower, init, t[..cuts[|s| - 1]], cuts[..|s|]);
      LowerSnoc(lower, init, c);
      assert init + [c] == s;
    }
  }

  /** A text has exactly one lower-cased form. */
  lemma LoweredExactly(lower: char -> string, s: string, t: string)
    ensures IsLowered(lower, s, t) <==> t == Lower(lower, s)
  {
    var cuts := LowerIsLowered(lower, s);
    if IsLowered(lower, s, t) {
      var cuts': seq<nat> :| LoweredAt(lower, s, t, cuts');
      LoweredIsLower(lower, s, t, cuts');
    }
  }

  // --------------------------------------------------------------------- words

  /** The value, lower-cased, consists of these words. */
  ghost predicate Says(lower: char -> string, value: string, words: seq<string>) {
    exists t :: IsLowered(lower, value, t) && AreRuns(Visible(), t, words)
  }

  /** The values differ in case and white space at most. */
  ghost predicate SameWords(lower: char -> string, a: string, b: string) {
    exists words :: Says(lower, a, words) && Says(lower, b, words)
  }

  lemma {:induction false} FieldsAreSplit(s: string, word: string)
    ensures Fields(s, word) == Split(Visible(), s, word)
  {
    if s == "" {
    } else if IsSpace(s[0]) {
      FieldsAreSplit(s[1..], "");
    } else {
      FieldsAreSplit(s[1..], word + [s[0]]);
    }
  }

  lemma SaysExactly(lower: char -> string, value: string, words: seq<string>)
    ensures Says(lower, value, words) <==> words == Fields(Lower(lower, value), "")
  {
    var t := Lower(lower, value);
    LoweredExactly(lower, value, t);
    FieldsAreSplit(t, "");
    RunsAreSplit(Visible(), t, words);
    if Says(lower, value, words) {
      var t' :| IsLowered(lower, value, t') && AreRuns(Visible(), t', words);
      LoweredExactly(lower, value, t');
    }
  }

  // --------------------------------------------------------------- normal form

  ghost predicate IsWord(w: string) {
    w != "" && forall i :: 0 <= i < |w| ==> !IsSpace(w[i])
  }

  lemma {:induction false} FieldsOfWord(word: string, w: string)
    requires forall i :: 0 <= i < |w| ==> !IsSpace(w[i])
    ensures Fields(w, word) == if word + w == "" then [] else [word + w]
    decreases |w|
  {
    if w == "" {
      assert word + w == word;
    } else {
      FieldsOfWord(word + [w[0]], w[1..]);
      assert word + [w[0]] + w[1..] == word + w;
    }
  }

  lemma {:induction false} FieldsAcross(word: string, w: string, rest: string)
    requires forall i :: 0 <= i < |w| ==> !IsSpace(w[i])
    requires word + w != ""
    ensures Fields(w + " " + rest, word) == [word + w] + Fields(rest, "")
    decreases |w|
  {
    var s := w + " " + rest;
    if w == "" {
      assert s[0] == ' ' && s[1..] == rest && word + w == word;
    } else {
      assert s[0] == w[0] && s[1..] == w[1..] + " " + rest;
      FieldsAcross(word + [w[0]], w[1..], rest);
      assert word + [w[0]] + w[1..] == word + w;
    }
  }

  /** Words set apart by single spaces are read back as they are. */
  lemma {:induction false} FieldsOfJoin(words: seq<string>)
    requires forall i :: 0 <= i < |words| ==> IsWord(words[i])
    ensures Fields(Join(" ", words), "") == words
  {
    if words == [] {
    } else {
      assert IsWord(words[0]) && "" + words[0] == words[0];
      if |words| == 1 {
        FieldsOfWord("", words[0]);
      } else {
        FieldsAcross("", words[0], Join(" ", words[1..]));
        FieldsOfJoin(words[1..]);
        assert words == [words[0]] + words[1..];
      }
    }
  }

  lemma FieldsAreWords(s: string)
    ensures forall i :: 0 <= i < |Fields(s, "")| ==> IsWord(Fields(s, "")[i])
  {
    var words := Fields(s, "");
    FieldsAreSplit(s, "");
    SplitFindsRuns(Visible(), s);
    RunsPass(Visible(), s, words);
    forall i | 0 <= i < |words|
      ensures IsWord(words[i])
    {
      assert words[i] in words;
    }
  }

  lemma NormTellsFields(lower: char -> string, a: string, b: string)
    ensures Norm(lower, a) == Norm(lower, b) <==> Fields(Lower(lower, a), "") == Fields(Lower(lower, b), "")
  {
    FieldsAreWords(Lower(lower, a));
    FieldsAreWords(Lower(lower, b));
    FieldsOfJoin(Fields(Lower(lower, a), ""));
    FieldsOfJoin(Fields(Lower(lower, b), ""));
  }

  /** Two values have the same normal form if and only if, lower-cased, they consist of the same words. */
  lemma NormTells(lower: char -> string, a: string, b: string)
    ensures Norm(lower, a) == Norm(lower, b) <==> SameWords(lower, a, b)
  {
    NormTellsFields(lower, a, b);
    var words := Fields(Lower(lower, a), "");
    SaysExactly(lower, a, words);
    SaysExactly(lower, b, words);
    if SameWords(lower, a, b) {
      var words' :| Says(lower, a, words') && Says(lower, b, words');
      SaysExactly(lower, a, words');
      SaysExactly(lower, b, words');
    }
  }

  /** The normal form is a given word, or empty, exactly when the value says that word alone, or nothing. */
  lemma NormIsWord(lower: char -> string, value: string, w: string)
    requires w == "" || IsWord(w)
    ensures Norm(lower, value) == w <==> Says(lower, value, if w == "" then [] else [w])
  {
    var words := if w == "" then [] else [w];
    SaysExactly(lower, value, words);
    FieldsAreWords(Lower(lower, value));
    FieldsOfJoin(Fields(Lower(lower, value), ""));
    FieldsOfJoin(words);
  }

  // ------------------------------------------------------- values that say nothing

  /** The value is blank, or its one word reports that there is none. */
  ghost predicate IsAbsent(lower: char -> string, value: string) {
    || Says(lower, value, [])
    || Says(lower, value, ["unknown"]) || Says(lower, value, ["unspecified"]) || Says(lower, value, ["none"])
    || Says(lower, value, ["n/a"]) || Says(lower, value, ["na"]) || Says(lower, value, ["null"])
    || Says(lower, value, ["?"])
  }

  lemma AbsentExactly(lower: char -> string, value: string)
    ensures IsAbsent(lower, value)
       <==> Norm(lower, value) in {"", "unknown", "unspecified", "none", "n/a", "na", "null", "?"}
  {
    NormIsWord(lower, value, "");
    NormIsWord(lower, value, "unknown");
    NormIsWord(lower, value, "unspecified");
    NormIsWord(lower, value, "none");
    NormIsWord(lower, value, "n/a");
    NormIsWord(lower, value, "na");
    NormIsWord(lower, value, "null");
    NormIsWord(lower, value, "?");
  }
}
