/**
 The hashed bag-of-words embedder, over the reals: its loops compute what the functions
 here say, the result is always a unit vector, and it depends on nothing but which content
 words a text has, each as often as it occurs.
 */
module Embedding {
  import opened Prelude
  import opened Environment
  import opened Runs
  import opened Vectors
  import Text
  import Values

  /** The character tables, the function words and the token digest in use. */
  datatype Hasher = Hasher(
    lower: char -> string,
    isAlnum: char -> bool,
    stopwords: set<string>,
    digest: string -> seq<nat>,
    dims: nat,
    sqrt: real -> real
  ) {
    ghost predicate Valid() {
      dims >= 1 && IsSqrt(sqrt) && forall token :: |digest(token)| == 8
    }
  }

  // ------------------------------------------------------------------- words

  /** Maximal runs of alphanumeric characters; `current` is the run being read. */
  function Tokens(h: Hasher, s: string, current: string): seq<string> {
    if s == "" then (if current == "" then [] else [current])
    else if h.isAlnum(s[0]) then Tokens(h, s[1..], current + [s[0]])
    else (if current == "" then [] else [current]) + Tokens(h, s[1..], "")
  }

  function CarriesContent(h: Hasher): string -> bool {
    (token: string) => token !in h.stopwords
  }

  function Content(h: Hasher, tokens: seq<string>): seq<string> {
    Filter(CarriesContent(h), tokens)
  }

  function WordsOf(h: Hasher, text: string): seq<string> {
    Content(h, Tokens(h, Text.Lower(h.lower, text), ""))
  }

  /** The tokenizer's loop over the lowered characters, then the function-word filter. */
  method Words(h: Hasher, text: string) returns (words: seq<string>)
    ensures words == WordsOf(h, text)
  {
    var out: seq<string> := [];
    var current := "";
    var s := Text.Lower(h.lower, text);
    for i := 0 to |s|
      invariant out + Tokens(h, s[i..], current) == Tokens(h, s, "")
    {
      TokensStep(h, s[i..], current);
      assert s[i..][1..] == s[i + 1..];
      if h.isAlnum(s[i]) {
        current := current + [s[i]];
      } else if current != "" {
        ghost var before := out;
        out := out + [current];
        Regroup(before, [current], Tokens(h, s[i + 1..], ""));
        current := "";
      }
    }
    if current != "" {
      out := out + [current];
    }
    assert s[|s|..] == "";
    assert out == Tokens(h, s, "");
    words := Content(h, out);
  }

  lemma TokensStep(h: Hasher, s: string, current: string)
    requires s != ""
    ensures h.isAlnum(s[0]) ==> Tokens(h, s, current) == Tokens(h, s[1..], current + [s[0]])
    ensures !h.isAlnum(s[0]) && current == "" ==> Tokens(h, s, current) == Tokens(h, s[1..], "")
    ensures !h.isAlnum(s[0]) && current != "" ==> Tokens(h, s, current) == [current] + Tokens(h, s[1..], "")
  {
  }

  lemma Regroup(a: seq<string>, b: seq<string>, c: seq<string>)
    ensures a + (b + c) == (a + b) + c
  {
  }

  lemma {:induction false} TokensAreSplit(h: Hasher, s: string, current: string)
    ensures Tokens(h, s, current) == Split(h.isAlnum, s, current)
    decreases |s|
  {
    if s == "" {
    } else {
      TokensAreSplit(h, s[1..], if h.isAlnum(s[0]) then current + [s[0]] else "");
    }
  }

  /**
   The words of a text: of the maximal runs of letters and digits in the lower-cased text,
   those that are no function words, in order.
   */
  lemma WordsExactly(h: Hasher, text: string) returns (low: string, tokens: seq<string>)
    ensures Values.IsLowered(h.lower, text, low)
    ensures AreRuns(h.isAlnum, low, tokens)
    ensures Picks((token: string) => token !in h.stopwords, tokens, WordsOf(h, text))
  {
    low := Text.Lower(h.lower, text);
    tokens := Tokens(h, low, "");
    Values.LoweredExactly(h.lower, text, low);
    TokensAreSplit(h, low, "");
    SplitFindsRuns(h.isAlnum, low);
    FilterPicks(CarriesContent(h), tokens);
    PicksSame(CarriesContent(h), (token: string) => token !in h.stopwords, tokens, WordsOf(h, text));
  }

  // ---------------------------------------------------------------- features

  const NGRAM: nat := 3
  const NGRAM_WEIGHT: real := 0.4

  datatype Feature = Feature(token: string, weight: real)

  function Padded(word: string): string {
    "#" + word + "#"
  }

  /** The word itself, then the n-grams of the padded word, up to the n-th. */
  function WordFeatures(word: string, n: nat): seq<Feature>
    requires n + NGRAM <= |Padded(word)| + 1
  {
    if n == 0 then [Feature(word, 1.0)]
    else WordFeatures(word, n - 1) + [Feature(Padded(word)[n - 1..n - 1 + NGRAM], NGRAM_WEIGHT)]
  }

  function NGrams(word: string): nat {
    if |Padded(word)| + 1 >= NGRAM then |Padded(word)| + 1 - NGRAM else 0
  }

  function AllWordFeatures(word: string): seq<Feature> {
    WordFeatures(word, NGrams(word))
  }

  function FeaturesOf(words: seq<string>): seq<Feature> {
    if words == [] then []
    else FeaturesOf(words[..|words| - 1]) + AllWordFeatures(words[|words| - 1])
  }

  lemma {:induction false} WordFeatureAt(word: string, n: nat, i: nat)
    requires n + NGRAM <= |Padded(word)| + 1 && 1 <= i <= n
    ensures |WordFeatures(word, n)| == n + 1 && WordFeatures(word, n)[0] == Feature(word, 1.0)
    ensures WordFeatures(word, n)[i] == Feature(Padded(word)[i - 1..i - 1 + NGRAM], NGRAM_WEIGHT)
  {
    if n == 1 {
    } else {
      WordFeatureAt(word, n - 1, if i < n then i else 1);
    }
  }

  /** The token is the three characters from place i on of the word between two hashes. */
  ghost predicate IsTrigram(word: string, i: int, token: string) {
    |token| == 3
    && forall k :: 0 <= k < 3 ==> token[k] == if 0 < i + k <= |word| then word[i + k - 1] else '#'
  }

  lemma PaddedTrigram(word: string, i: nat)
    requires i < |word|
    ensures IsTrigram(word, i, Padded(word)[i..i + NGRAM])
  {
  }

  /** A word counts in full, and so does each trigram of the word between hashes, at two fifths. */
  lemma WordCounts(word: string)
    requires word != ""
    ensures var feats := AllWordFeatures(word);
            && |feats| == 1 + |word| && feats[0] == Feature(word, 1.0)
            && forall i :: 1 <= i < |feats| ==> IsTrigram(word, i - 1, feats[i].token) && feats[i].weight == 0.4
  {
    WordFeatureAt(word, |word|, 1);
    forall i | 1 <= i < |AllWordFeatures(word)|
      ensures IsTrigram(word, i - 1, AllWordFeatures(word)[i].token) && AllWordFeatures(word)[i].weight == 0.4
    {
      WordFeatureAt(word, |word|, i);
      PaddedTrigram(word, i - 1);
    }
  }

  lemma FeaturesSnoc(words: seq<string>, i: nat)
    requires i < |words|
    ensures FeaturesOf(words[..i + 1]) == FeaturesOf(words[..i]) + AllWordFeatures(words[i])
  {
    assert words[..i + 1][..i] == words[..i];
  }

  lemma RegroupFeatures(a: seq<Feature>, b: seq<Feature>, c: seq<Feature>)
    ensures (a + b) + c == a + (b + c)
  {
  }

  /** The nested loops over words and n-grams. */
  method Features(h: Hasher, text: string) returns (feats: seq<Feature>)
    ensures feats == FeaturesOf(WordsOf(h, text))
  {
    var words := Words(h, text);
    feats := [];
    for i := 0 to |words|
      invariant feats == FeaturesOf(words[..i])
    {
      var word := words[i];
      ghost var before := feats;
      feats := feats + [Feature(word, 1.0)];
      var padded := Padded(word);
      for n := 0 to NGrams(word)
        invariant feats == before + WordFeatures(word, n)
      {
        RegroupFeatures(before, WordFeatures(word, n), [Feature(padded[n..n + NGRAM], NGRAM_WEIGHT)]);
        feats := feats + [Feature(padded[n..n + NGRAM], NGRAM_WEIGHT)];
      }
      FeaturesSnoc(words, i);
    }
    assert words[..|words|] == words;
  }

  // ----------------------------------------------------------------- vectors

  /** Big-endian value of the first four digest bytes, modulo the dimension. */
  function SlotOf(h: Hasher, token: string): (slot: nat)
    requires h.Valid()
    ensures slot < h.dims
  {
    var d := h.digest(token);
    (((d[0] * 256 + d[1]) * 256 + d[2]) * 256 + d[3]) % h.dims
  }

  function Signed(h: Hasher, f: Feature): real
    requires h.Valid()
  {
    if h.digest(f.token)[4] % 2 == 1 then f.weight else -f.weight
  }

  /** What a list of features adds up to in component j. */
  function Component(h: Hasher, feats: seq<Feature>, j: nat): real
    requires h.Valid()
  {
    if feats == [] then 0.0
    else
      var last := feats[|feats| - 1];
      Component(h, feats[..|feats| - 1], j) + if SlotOf(h, last.token) == j then Signed(h, last) else 0.0
  }

  function Raw(h: Hasher, feats: seq<Feature>): (v: seq<real>)
    requires h.Valid()
    ensures |v| == h.dims && forall j :: 0 <= j < h.dims ==> v[j] == Component(h, feats, j)
  {
    seq(h.dims, j requires 0 <= j < h.dims => Component(h, feats, j))
  }

  function Scaled(v: seq<real>, norm: real): (r: seq<real>)
    requires norm != 0.0
    ensures |r| == |v| && forall j :: 0 <= j < |v| ==> r[j] == v[j] / norm
  {
    seq(|v|, j requires 0 <= j < |v| => v[j] / norm)
  }

  /** Scaled to unit length; a text without content words gets the first unit vector. */
  function Normalised(h: Hasher, raw: seq<real>): (r: seq<real>)
    requires h.Valid() && |raw| == h.dims
    ensures |r| == h.dims
  {
    var norm := h.sqrt(Dot(raw, raw));
    if norm == 0.0 then raw[0 := 1.0] else Scaled(raw, norm)
  }

  function Embed(h: Hasher, text: string): (r: seq<real>)
    requires h.Valid()
    ensures |r| == h.dims
  {
    Normalised(h, Raw(h, FeaturesOf(WordsOf(h, text))))
  }

  lemma ComponentSnoc(h: Hasher, feats: seq<Feature>, i: nat, j: nat)
    requires h.Valid() && i < |feats|
    ensures Component(h, feats[..i + 1], j)
         == Component(h, feats[..i], j) + if SlotOf(h, feats[i].token) == j then Signed(h, feats[i]) else 0.0
  {
    assert feats[..i + 1][..i] == feats[..i];
  }

  /** Adds each feature into the vector in place. */
  method Accumulate(h: Hasher, feats: seq<Feature>, vec: array<real>)
    requires h.Valid() && vec.Length == h.dims
    requires forall j :: 0 <= j < vec.Length ==> vec[j] == 0.0
    modifies vec
    ensures vec[..] == Raw(h, feats)
  {
    for i := 0 to |feats|
      invariant forall j :: 0 <= j < vec.Length ==> vec[j] == Component(h, feats[..i], j)
    {
      var slot := SlotOf(h, feats[i].token);
      forall j | 0 <= j < vec.Length
        ensures Component(h, feats[..i + 1], j)
             == vec[j] + if slot == j then Signed(h, feats[i]) else 0.0
      {
        ComponentSnoc(h, feats, i, j);
      }
      vec[slot] := vec[slot] + Signed(h, feats[i]);
    }
    assert feats[..|feats|] == feats;
  }

  method EmbedText(h: Hasher, text: string) returns (r: seq<real>)
    requires h.Valid()
    ensures r == Embed(h, text)
  {
    var vec := new real[h.dims](_ => 0.0);
    var feats := Features(h, text);
    Accumulate(h, feats, vec);
    var norm := h.sqrt(Dot(vec[..], vec[..]));
    if norm == 0.0 {
      ghost var raw := vec[..];
      vec[0] := 1.0;
      assert vec[..] == raw[0 := 1.0];
      r := vec[..];
    } else {
      r := Scaled(vec[..], norm);
    }
  }

  // --------------------------------------------------------------- unit length

  /** Scaling down by a factor scales the squared length down by its square, p. */
  lemma {:induction false} ScaledLength(v: seq<real>, norm: real, p: real, r: seq<real>)
    requires norm != 0.0 && p == norm * norm && r == Scaled(v, norm)
    ensures Dot(r, r) * p == Dot(v, v)
  {
    if v == [] {
    } else {
      assert r[1..] == Scaled(v[1..], norm);
      ScaledLength(v[1..], norm, p, r[1..]);
      SquareOfQuotient(v[0], norm, p, r[0] * r[0]);
      Distribute(r[0] * r[0], Dot(r[1..], r[1..]), p);
    }
  }

  lemma SquareOfQuotient(x: real, norm: real, p: real, qq: real)
    requires norm != 0.0 && p == norm * norm && qq == (x / norm) * (x / norm)
    ensures qq * p == x * x
  {
    var q := x / norm;
    assert q * norm == x;
    assert (q * q) * (norm * norm) == (q * norm) * (q * norm);
  }

  lemma Distribute(x: real, y: real, p: real)
    ensures (x + y) * p == x * p + y * p
  {
  }

  lemma {:induction false} ZeroLength(v: seq<real>)
    requires IsZero(v)
    ensures Dot(v, v) == 0.0
  {
    SquareLength(v);
  }

  /** Over the reals every embedding has length one, the fallback included. */
  lemma EmbedIsUnit(h: Hasher, text: string)
    requires h.Valid()
    ensures var v := Embed(h, text); Dot(v, v) == 1.0
  {
    var raw := Raw(h, FeaturesOf(WordsOf(h, text)));
    var norm := h.sqrt(Dot(raw, raw));
    var v := Embed(h, text);
    RootOf(h.sqrt, raw);
    if norm == 0.0 {
      assert v[0] == 1.0 && v[1..] == raw[1..];
      assert IsZero(v[1..]);
      ZeroLength(v[1..]);
    } else {
      var p := norm * norm;
      SquareSign(norm, p);
      assert p == Dot(raw, raw) && v == Scaled(raw, norm);
      ScaledLength(raw, norm, p, v);
      UniqueFactor(Dot(v, v), p);
    }
  }

  lemma UniqueFactor(x: real, y: real)
    requires y > 0.0 && x * y == y
    ensures x == 1.0
  {
    assert (x * y) / y == x;
  }

  /** v is the vector `sum` shortened or stretched to a given multiple. */
  ghost predicate PointsAlong(v: seq<real>, sum: seq<real>, length: real) {
    |v| == |sum| && forall j :: 0 <= j < |v| ==> v[j] * length == sum[j]
  }

  lemma ScaledPoints(sum: seq<real>, length: real)
    requires length != 0.0
    ensures PointsAlong(Scaled(sum, length), sum, length)
  {
  }

  ghost predicate IsFirstUnit(v: seq<real>) {
    forall j :: 0 <= j < |v| ==> v[j] == if j == 0 then 1.0 else 0.0
  }

  /** The embedding is the fixed unit vector if the features cancel out, and else the sum of them scaled to length 1. */
  lemma EmbedPoints(h: Hasher, text: string) returns (length: real)
    requires h.Valid()
    ensures var sum, v := Raw(h, FeaturesOf(WordsOf(h, text))), Embed(h, text);
            && length >= 0.0 && length * length == Dot(sum, sum)
            && (if IsZero(sum) then IsFirstUnit(v) else length > 0.0 && PointsAlong(v, sum, length))
  {
    var sum := Raw(h, FeaturesOf(WordsOf(h, text)));
    length := h.sqrt(Dot(sum, sum));
    RootOf(h.sqrt, sum);
    if length != 0.0 {
      ScaledPoints(sum, length);
    }
  }

  // ------------------------------------------------------------- bag of words

  /** What a bag of words adds up to in component j, word by word. */
  function WordSum(h: Hasher, words: seq<string>, j: nat): real
    requires h.Valid()
  {
    if words == [] then 0.0 else Component(h, AllWordFeatures(words[0]), j) + WordSum(h, words[1..], j)
  }

  lemma {:induction false} ComponentAppend(h: Hasher, a: seq<Feature>, b: seq<Feature>, j: nat)
    requires h.Valid()
    ensures Component(h, a + b, j) == Component(h, a, j) + Component(h, b, j)
  {
    if b == [] {
      assert a + b == a;
    } else {
      var init := b[..|b| - 1];
      assert (a + b)[..|a + b| - 1] == a + init;
      ComponentAppend(h, a, init, j);
    }
  }

  /**
   One feature alone adds its weight, with the sign that the fifth byte's lowest bit gives, to
   the one component that the first four bytes name, read as a big-endian number.
   */
  lemma OneFeature(h: Hasher, f: Feature, j: nat)
    requires h.Valid()
    ensures var d := h.digest(f.token);
            var slot := (0x1000000 * d[0] + 0x10000 * d[1] + 0x100 * d[2] + d[3]) % h.dims;
            Component(h, [f], j) == (if j != slot then 0.0 else if d[4] % 2 == 0 then -f.weight else f.weight)
  {
    var d := h.digest(f.token);
    assert ((d[0] * 256 + d[1]) * 256 + d[2]) * 256 + d[3] == 0x1000000 * d[0] + 0x10000 * d[1] + 0x100 * d[2] + d[3];
    assert [f][..0] == [];
  }

  lemma {:induction false} WordSumAppend(h: Hasher, a: seq<string>, b: seq<string>, j: nat)
    requires h.Valid()
    ensures WordSum(h, a + b, j) == WordSum(h, a, j) + WordSum(h, b, j)
  {
    if a == [] {
      assert a + b == b;
    } else {
      assert (a + b)[1..] == a[1..] + b;
      WordSumAppend(h, a[1..], b, j);
    }
  }

  lemma {:induction false} ComponentOfWords(h: Hasher, words: seq<string>, j: nat)
    requires h.Valid()
    ensures Component(h, FeaturesOf(words), j) == WordSum(h, words, j)
  {
    if words == [] {
    } else {
      var init, last := words[..|words| - 1], words[|words| - 1];
      assert words == init + [last];
      ComponentOfWords(h, init, j);
      ComponentAppend(h, FeaturesOf(init), AllWordFeatures(last), j);
      WordSumAppend(h, init, [last], j);
      assert [last][1..] == [];
      assert WordSum(h, [last], j) == Component(h, AllWordFeatures(last), j) + WordSum(h, [], j);
    }
  }

  /** Where b has the first word of a, and what both are left with without it. */
  lemma FirstOf(a: seq<string>, b: seq<string>) returns (k: nat)
    requires a != [] && multiset(a) == multiset(b)
    ensures k < |b| && b[k] == a[0]
    ensures multiset(a[1..]) == multiset(b[..k] + b[k + 1..])
  {
    assert a[0] in multiset(a);
    assert a[0] in b;
    k :| 0 <= k < |b| && b[k] == a[0];
    var x, rest, left, right := a[0], a[1..], b[..k], b[k + 1..];
    assert a == [x] + rest && b == left + [x] + right;
    assert multiset(a) == multiset([x]) + multiset(rest);
    assert multiset(b) == multiset(left) + multiset([x]) + multiset(right);
    SameRemainder(multiset(rest), multiset(left) + multiset(right), multiset([x]));
  }

  lemma SameRemainder(a: multiset<string>, b: multiset<string>, c: multiset<string>)
    requires c + a == c + b
    ensures a == b
  {
    forall x
      ensures a[x] == b[x]
    {
      assert (c + a)[x] == (c + b)[x];
    }
  }

  lemma {:induction false} WordSumOfBag(h: Hasher, a: seq<string>, b: seq<string>, j: nat)
    requires h.Valid() && multiset(a) == multiset(b)
    ensures WordSum(h, a, j) == WordSum(h, b, j)
    decreases |a|
  {
    if a == [] {
      assert |b| == |multiset(b)| == 0;
    } else {
      var k := FirstOf(a, b);
      var b' := b[..k] + b[k + 1..];
      WordSumOfBag(h, a[1..], b', j);
      WordSumAppend(h, b[..k], b[k + 1..], j);
      WordSumAppend(h, b[..k], [b[k]] + b[k + 1..], j);
      assert ([b[k]] + b[k + 1..])[1..] == b[k + 1..];
      assert b == b[..k] + ([b[k]] + b[k + 1..]);
    }
  }

  /** Two texts with the same content words, in whatever order, have the same vector. */
  lemma EmbedIsBagOfWords(h: Hasher, a: string, b: string)
    requires h.Valid() && multiset(WordsOf(h, a)) == multiset(WordsOf(h, b))
    ensures Embed(h, a) == Embed(h, b)
  {
    var x, y := FeaturesOf(WordsOf(h, a)), FeaturesOf(WordsOf(h, b));
    forall j | 0 <= j < h.dims
      ensures Component(h, x, j) == Component(h, y, j)
    {
      ComponentOfWords(h, WordsOf(h, a), j);
      ComponentOfWords(h, WordsOf(h, b), j);
      WordSumOfBag(h, WordsOf(h, a), WordsOf(h, b), j);
    }
    assert Raw(h, x) == Raw(h, y);
  }

  // --------------------------------------------------- punctuation and function words

  /** A character that always ends a word. */
  ghost predicate Separates(h: Hasher, c: char) {
    h.lower(c) != "" && forall i :: 0 <= i < |h.lower(c)| ==> !h.isAlnum(h.lower(c)[i])
  }

  lemma {:induction false} LowerAppend(lower: char -> string, a: string, b: string)
    ensures Text.Lower(lower, a + b) == Text.Lower(lower, a) + Text.Lower(lower, b)
  {
    if a == "" {
      assert a + b == b;
    } else {
      assert (a + b)[1..] == a[1..] + b;
      LowerAppend(lower, a[1..], b);
    }
  }

  lemma {:induction false} ContentAppend(h: Hasher, a: seq<string>, b: seq<string>)
    ensures Content(h, a + b) == Content(h, a) + Content(h, b)
  {
    if b == [] {
      assert a + b == a;
    } else {
      var init, last := b[..|b| - 1], b[|b| - 1];
      assert (a + b)[..|a + b| - 1] == a + init && (a + b)[|a + b| - 1] == last;
      ContentAppend(h, a, init);
    }
  }

  /** A run of non-word characters ends the word being read and begins none. */
  lemma {:induction false} TokensAcross(h: Hasher, a: string, gap: string, b: string, current: string)
    requires gap != "" && forall i :: 0 <= i < |gap| ==> !h.isAlnum(gap[i])
    ensures Tokens(h, a + gap + b, current) == Tokens(h, a, current) + Tokens(h, b, "")
    decreases |a| + |gap|
  {
    var s := a + gap + b;
    if a != "" {
      assert s[1..] == a[1..] + gap + b;
      TokensStep(h, s, current);
      TokensStep(h, a, current);
      TokensAcross(h, a[1..], gap, b, if h.isAlnum(a[0]) then current + [a[0]] else "");
    } else {
      assert s[0] == gap[0] && s[1..] == gap[1..] + b;
      TokensStep(h, s, current);
      if |gap| == 1 {
        assert gap[1..] + b == b;
      } else {
        assert gap[1..] + b == "" + gap[1..] + b;
        TokensAcross(h, "", gap[1..], b, "");
      }
    }
  }

  lemma WordsAcross(h: Hasher, a: string, c: char, b: string)
    requires Separates(h, c)
    ensures WordsOf(h, a + [c] + b) == WordsOf(h, a) + WordsOf(h, b)
  {
    var low := h.lower;
    LowerAppend(low, a + [c], b);
    LowerAppend(low, a, [c]);
    assert [c][1..] == "" && Text.Lower(low, [c]) == low(c) + Text.Lower(low, "") == low(c);
    TokensAcross(h, Text.Lower(low, a), low(c), Text.Lower(low, b), "");
    ContentAppend(h, Tokens(h, Text.Lower(low, a), ""), Tokens(h, Text.Lower(low, b), ""));
  }

  /**
   Inserting punctuation, or function words set off by it, between two stretches of text
   leaves the vector as it was.
   */
  lemma EmbedIgnoresFiller(h: Hasher, a: string, c: char, filler: string, d: char, b: string)
    requires h.Valid() && Separates(h, c) && Separates(h, d)
    requires WordsOf(h, filler) == []
    ensures Embed(h, a + [c] + (filler + [d] + b)) == Embed(h, a + [c] + b)
  {
    WordsAcross(h, a, c, filler + [d] + b);
    WordsAcross(h, filler, d, b);
    WordsAcross(h, a, c, b);
    EmbedIsBagOfWords(h, a + [c] + (filler + [d] + b), a + [c] + b);
  }

  lemma {:induction false} OneToken(h: Hasher, s: string, current: string)
    requires (current + s) != "" && forall i :: 0 <= i < |s| ==> h.isAlnum(s[i])
    ensures Tokens(h, s, current) == [current + s]
    decreases |s|
  {
    if s == "" {
      assert current + s == current;
    } else {
      TokensStep(h, s, current);
      assert current + [s[0]] + s[1..] == current + s;
      OneToken(h, s[1..], current + [s[0]]);
    }
  }

  /** A function word is such filler. */
  lemma FunctionWordIsFiller(h: Hasher, word: string)
    requires var low := Text.Lower(h.lower, word);
             low != "" && low in h.stopwords && forall i :: 0 <= i < |low| ==> h.isAlnum(low[i])
    ensures WordsOf(h, word) == []
  {
    var low := Text.Lower(h.lower, word);
    assert "" + low == low;
    OneToken(h, low, "");
    FilterNone(CarriesContent(h), [low]);
  }
}
