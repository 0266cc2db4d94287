/**
 The offline extractor: it cuts a turn into sentences, keeps those its patterns accept,
 and proposes an expiry for those that call themselves temporary. Each fact is a clean cut
 of the turn, and no expiry it proposes is ever rejected by the write path's own check.
 */
module RuleExtractor {
  import opened Prelude
  import opened Records
  import opened Environment
  import opened Text
  import WritePolicy

  /** Character tables of the pattern matcher, and the patterns left abstract. */
  datatype Rules = Rules(
    isWord: char -> bool,
    fold: char -> char,
    isDirective: string -> bool,
    isFact: (string, bool) -> bool,
    slotOf: string -> (string, string)
  ) {
    /** Neither whitespace, nor a sentence terminator, nor a bracket is a word character. */
    ghost predicate Valid() {
      forall c :: IsSpace(c) || IsTerminator(c) || c == ']' ==> !isWord(c)
    }
  }

  predicate IsTerminator(c: char) {
    c == '.' || c == '!' || c == '?'
  }

  // ------------------------------------------------------------------- patterns

  /** The pattern's text occurs at i, ignoring case. */
  predicate MatchesAt(rules: Rules, s: string, i: nat, pattern: string) {
    i + |pattern| <= |s| && forall k :: 0 <= k < |pattern| ==> rules.fold(s[i + k]) == rules.fold(pattern[k])
  }

  /** A word character stands at i. */
  predicate WordAt(rules: Rules, s: string, i: int) {
    0 <= i < |s| && rules.isWord(s[i])
  }

  /** `\b`: exactly one side of position i is a word character. */
  predicate Boundary(rules: Rules, s: string, i: nat) {
    WordAt(rules, s, i - 1) != WordAt(rules, s, i)
  }

  /** The pattern occurs at i as whole words. */
  predicate WholeAt(rules: Rules, s: string, i: nat, pattern: string) {
    MatchesAt(rules, s, i, pattern) && Boundary(rules, s, i) && Boundary(rules, s, i + |pattern|)
  }

  predicate HasWhole(rules: Rules, s: string, pattern: string) {
    exists i :: 0 <= i <= |s| && WholeAt(rules, s, i, pattern)
  }

  /** The pattern occurs at i, and a word follows: `pattern\w+`, whole. */
  predicate LeadsAt(rules: Rules, s: string, i: nat, pattern: string) {
    MatchesAt(rules, s, i, pattern) && Boundary(rules, s, i) && WordAt(rules, s, i + |pattern|)
  }

  predicate HasLead(rules: Rules, s: string, pattern: string) {
    exists i :: 0 <= i <= |s| && LeadsAt(rules, s, i, pattern)
  }

  /** What makes an ongoing activity worth storing. */
  function TransientWords(): set<string> {
    {"today", "tonight", "right now", "this morning", "this afternoon", "this week", "this sprint"}
  }

  /** What counts as framing something as temporary at all. */
  function TemporalWords(): set<string> {
    TransientWords()
    + {"tomorrow", "currently", "for now", "at the moment", "this evening", "this month", "this quarter", "this year",
       "next week", "next month", "next quarter", "temporarily", "for a while", "for a bit", "these days", "on call",
       "this time"}
  }

  function TemporalLeads(): set<string> {
    {"until ", "for the next "}
  }

  predicate IsTransient(rules: Rules, s: string) {
    exists p :: p in TransientWords() && HasWhole(rules, s, p)
  }

  predicate HasTemporalMarker(rules: Rules, s: string) {
    || (exists p :: p in TemporalWords() && HasWhole(rules, s, p))
    || (exists p :: p in TemporalLeads() && HasLead(rules, s, p))
  }

  /** Where letters begin and end it, a phrase is matched whole if and only if no letter touches it on either side. */
  lemma WholeExactly(rules: Rules, s: string, i: nat, pattern: string)
    requires pattern != "" && i + |pattern| <= |s| && rules.isWord(s[i]) && rules.isWord(s[i + |pattern| - 1])
    ensures WholeAt(rules, s, i, pattern) <==>
              && (forall k :: 0 <= k < |pattern| ==> rules.fold(s[i + k]) == rules.fold(pattern[k]))
              && (i > 0 ==> !rules.isWord(s[i - 1]))
              && (i + |pattern| < |s| ==> !rules.isWord(s[i + |pattern|]))
    ensures LeadsAt(rules, s, i, pattern) <==>
              && (forall k :: 0 <= k < |pattern| ==> rules.fold(s[i + k]) == rules.fold(pattern[k]))
              && (i > 0 ==> !rules.isWord(s[i - 1]))
              && i + |pattern| < |s| && rules.isWord(s[i + |pattern|])
  {
    assert MatchesAt(rules, s, i, pattern) <==>
             forall k :: 0 <= k < |pattern| ==> rules.fold(s[i + k]) == rules.fold(pattern[k]);
  }

  // ------------------------------------------------------------------ sentences

  function SkipSpaces(s: string, p: nat): (q: nat)
    requires p <= |s|
    ensures p <= q <= |s|
    ensures q > p ==> IsSpace(s[q - 1])
    ensures q < |s| ==> !IsSpace(s[q])
    ensures forall i :: p <= i < q ==> IsSpace(s[i])
    decreases |s| - p
  {
    if p < |s| && IsSpace(s[p]) then SkipSpaces(s, p + 1) else p
  }

  function FirstBracket(s: string, p: nat): (q: nat)
    requires p <= |s|
    ensures p <= q <= |s| && (q < |s| ==> s[q] == ']')
    ensures forall i :: p <= i < q ==> s[i] != ']'
    decreases |s| - p
  {
    if p < |s| && s[p] != ']' then FirstBracket(s, p + 1) else p
  }

  /** Where the turn proper begins: behind a leading "[...]" date of 3 to 40 characters. */
  function BodyStart(s: string): (p: nat)
    ensures p <= |s|
    ensures p > 0 ==> s[p - 1] == ']' || IsSpace(s[p - 1])
  {
    var open := SkipSpaces(s, 0);
    if open < |s| && s[open] == '[' then
      var close := FirstBracket(s, open + 1);
      if close < |s| && 3 <= close - open - 1 <= 40 then SkipSpaces(s, close + 1) else 0
    else 0
  }

  /** The turn opens, behind white space at most, with 3 to 40 characters between brackets. */
  ghost predicate IsDated(s: string, open: nat, close: nat) {
    && open < close < |s| && s[open] == '[' && s[close] == ']' && 3 <= close - open - 1 <= 40
    && (forall i :: 0 <= i < open ==> IsSpace(s[i]))
    && (forall i :: open < i < close ==> s[i] != ']')
  }

  /** Only such a date is cut off the turn, together with the white space behind it. */
  lemma BodyStartExactly(s: string)
    ensures BodyStart(s) == 0 <==> forall open: nat, close: nat :: !IsDated(s, open, close)
    ensures forall open: nat, close: nat :: IsDated(s, open, close) ==>
              close < BodyStart(s) && forall i :: close < i < BodyStart(s) ==> IsSpace(s[i])
    ensures 0 < BodyStart(s) < |s| ==> !IsSpace(s[BodyStart(s)])
  {
    var open := SkipSpaces(s, 0);
    forall o: nat, c: nat | IsDated(s, o, c)
      ensures o == open && c == FirstBracket(s, open + 1)
    {
    }
    if BodyStart(s) > 0 {
      assert IsDated(s, open, FirstBracket(s, open + 1));
    }
  }

  datatype Span = Span(from: nat, to: nat)

  /** Whitespace right after a terminator separates sentences. */
  predicate Breaks(s: string, lo: nat, p: nat) {
    lo < p < |s| && IsTerminator(s[p - 1]) && IsSpace(s[p])
  }

  /** The stretches between the breaks of s[lo..]; `start` is where the current one began. */
  function Pieces(s: string, lo: nat, start: nat, p: nat): seq<Span>
    requires lo <= start <= p <= |s|
    decreases |s| - p
  {
    if p == |s| then [Span(start, |s|)]
    else if Breaks(s, lo, p) then
      var q := SkipSpaces(s, p);
      assert q > p;
      [Span(start, p)] + Pieces(s, lo, q, q)
    else Pieces(s, lo, start, p + 1)
  }

  function TrimLeft(s: string, x: Span): (y: Span)
    requires x.from <= x.to <= |s|
    ensures x.from <= y.from <= y.to == x.to
    ensures y.from < y.to ==> !IsSpace(s[y.from])
    ensures y.from > x.from ==> IsSpace(s[y.from - 1])
    decreases x.to - x.from
  {
    if x.from < x.to && IsSpace(s[x.from]) then TrimLeft(s, Span(x.from + 1, x.to)) else x
  }

  function TrimRight(s: string, x: Span): (y: Span)
    requires x.from <= x.to <= |s|
    ensures y.from == x.from <= y.to <= x.to
    ensures y.from < y.to ==> !IsSpace(s[y.to - 1])
    ensures y.to < x.to ==> IsSpace(s[y.to])
    decreases x.to - x.from
  {
    if x.from < x.to && IsSpace(s[x.to - 1]) then TrimRight(s, Span(x.from, x.to - 1)) else x
  }

  function TrimEnd(s: string, x: Span): (y: Span)
    requires x.from <= x.to <= |s|
    ensures y.from == x.from <= y.to <= x.to
    ensures y.from < y.to ==> !IsTerminator(s[y.to - 1])
    ensures y.to < x.to ==> IsTerminator(s[y.to])
    decreases x.to - x.from
  {
    if x.from < x.to && IsTerminator(s[x.to - 1]) then TrimEnd(s, Span(x.from, x.to - 1)) else x
  }

  /** `strip`, drop trailing terminators, `strip` again. */
  function SentenceOf(s: string, x: Span): (y: Span)
    requires x.from <= x.to <= |s|
    ensures x.from <= y.from <= y.to <= x.to
  {
    var stripped := TrimRight(s, TrimLeft(s, x));
    var bare := TrimEnd(s, stripped);
    TrimRight(s, TrimLeft(s, bare))
  }

  // ---------------------------------------------------------------------- facts

  const TRANSIENT_TTL_DAYS: int := 7

  function Cut(s: string, x: Span): string
    requires x.from <= x.to <= |s|
  {
    s[x.from..x.to]
  }

  ghost predicate SpansIn(s: string, spans: seq<Span>) {
    forall i :: 0 <= i < |spans| ==> spans[i].from <= spans[i].to <= |s|
  }

  ghost predicate AllKept(keep: string -> bool, s: string, spans: seq<Span>) {
    forall i :: 0 <= i < |spans| ==> spans[i].from <= spans[i].to <= |s| && keep(Cut(s, spans[i]))
  }

  predicate IsKept(rules: Rules, sentence: string) {
    sentence != "" && (rules.isDirective(sentence) || rules.isFact(sentence, IsTransient(rules, sentence)))
  }

  function Keeps(rules: Rules): string -> bool {
    (sentence: string) => IsKept(rules, sentence)
  }

  function FactOf(rules: Rules, sentence: string): CandidateFact
    requires sentence != ""
  {
    var directive := rules.isDirective(sentence);
    var (attribute, value) := rules.slotOf(sentence);
    RawFact(sentence, attribute, value, "",
            if directive then PROCEDURAL else SEMANTIC,
            if directive || attribute != "" then 0.8 else 0.5,
            if IsTransient(rules, sentence) then Some(TRANSIENT_TTL_DAYS) else None)
  }

  function Sentences(s: string, pieces: seq<Span>): (r: seq<Span>)
    requires SpansIn(s, pieces)
    ensures SpansIn(s, r)
    ensures |r| == |pieces| && forall i :: 0 <= i < |r| ==> r[i] == SentenceOf(s, pieces[i])
  {
    seq(|pieces|, i requires 0 <= i < |pieces| => SentenceOf(s, pieces[i]))
  }

  /** The spans of s whose text passes a test. */
  function Passing(keep: string -> bool, s: string): Span -> bool {
    (x: Span) => x.from <= x.to <= |s| && keep(Cut(s, x))
  }

  lemma PassingAreKept(keep: string -> bool, s: string, spans: seq<Span>)
    ensures AllKept(keep, s, Filter(Passing(keep, s), spans))
  {
    FilterMembers(Passing(keep, s), spans);
  }

  function FactsAt(rules: Rules, s: string, spans: seq<Span>): (r: seq<CandidateFact>)
    requires AllKept(Keeps(rules), s, spans)
    ensures |r| == |spans| && forall i :: 0 <= i < |r| ==> r[i] == FactOf(rules, Cut(s, spans[i]))
  {
    seq(|spans|, i requires 0 <= i < |spans| => FactOf(rules, Cut(s, spans[i])))
  }

  lemma {:induction false} PiecesInRange(s: string, lo: nat, start: nat, p: nat)
    requires lo <= start <= p <= |s|
    ensures SpansIn(s, Pieces(s, lo, start, p))
    decreases |s| - p
  {
    if p >= |s| {
    } else if Breaks(s, lo, p) {
      PiecesInRange(s, lo, SkipSpaces(s, p), SkipSpaces(s, p));
    } else {
      PiecesInRange(s, lo, start, p + 1);
    }
  }

  /** The sentences of s, blank ones included. */
  function SentencesOf(s: string): (r: seq<Span>)
    ensures SpansIn(s, r)
  {
    var lo := BodyStart(s);
    PiecesInRange(s, lo, lo, lo);
    Sentences(s, Pieces(s, lo, lo, lo))
  }

  /** The cuts behind the facts of a turn. */
  function FactSpans(rules: Rules, s: string): (r: seq<Span>)
    ensures AllKept(Keeps(rules), s, r)
  {
    PassingAreKept(Keeps(rules), s, SentencesOf(s));
    Filter(Passing(Keeps(rules), s), SentencesOf(s))
  }

  function Facts(rules: Rules, turn: string): seq<CandidateFact> {
    var s := Strip(turn);
    FactsAt(rules, s, FactSpans(rules, s))
  }

  /** The extractor's loop over the sentences of a turn. */
  method Extract(rules: Rules, turn: string) returns (facts: seq<CandidateFact>)
    ensures facts == Facts(rules, turn)
  {
    facts := [];
    var s := Strip(turn);
    var lo := BodyStart(s);
    PiecesInRange(s, lo, lo, lo);
    var pieces := Pieces(s, lo, lo, lo);
    ghost var sentences := SentencesOf(s);
    ghost var kept: seq<Span> := [];
    for n := 0 to |pieces|
      invariant kept == Filter(Passing(Keeps(rules), s), sentences[..n]) && AllKept(Keeps(rules), s, kept)
      invariant facts == FactsAt(rules, s, kept)
    {
      KeptNext(rules, s, sentences, n);
      var span := SentenceOf(s, pieces[n]);
      var sentence := Cut(s, span);
      if sentence == "" {
        continue;
      }
      var directive := rules.isDirective(sentence);
      var transient := IsTransient(rules, sentence);
      if !directive && !rules.isFact(sentence, transient) {
        continue;
      }
      FactsSnoc(rules, s, kept, span);
      kept := kept + [span];
      var (attribute, value) := rules.slotOf(sentence);
      var kind := if directive then PROCEDURAL else SEMANTIC;
      var importance := if directive || attribute != "" then 0.8 else 0.5;
      var ttl := if transient then Some(TRANSIENT_TTL_DAYS) else None;
      facts := facts + [RawFact(sentence, attribute, value, "", kind, importance, ttl)];
    }
    assert sentences[..|pieces|] == sentences;
  }

  lemma KeptNext(rules: Rules, s: string, sentences: seq<Span>, n: nat)
    requires SpansIn(s, sentences) && n < |sentences|
    ensures Filter(Passing(Keeps(rules), s), sentences[..n + 1])
         == Filter(Passing(Keeps(rules), s), sentences[..n])
            + if IsKept(rules, Cut(s, sentences[n])) then [sentences[n]] else []
    ensures AllKept(Keeps(rules), s, Filter(Passing(Keeps(rules), s), sentences[..n + 1]))
  {
    assert sentences[..n + 1][..n] == sentences[..n];
    PassingAreKept(Keeps(rules), s, sentences[..n + 1]);
  }

  lemma FactsSnoc(rules: Rules, s: string, spans: seq<Span>, x: Span)
    requires AllKept(Keeps(rules), s, spans)
    requires x.from <= x.to <= |s| && IsKept(rules, Cut(s, x))
    ensures FactsAt(rules, s, spans + [x]) == FactsAt(rules, s, spans) + [FactOf(rules, Cut(s, x))]
  {
  }

  // -------------------------------------------------------------- clean cuts

  /** A full stop, an exclamation or a question mark, and white space behind it. */
  predicate EndsSentence(s: string, p: int) {
    0 < p < |s| && (s[p - 1] == '.' || s[p - 1] == '!' || s[p - 1] == '?') && IsSpace(s[p])
  }

  /** No sentence ends inside the span. */
  ghost predicate Unbroken(s: string, x: Span)
    requires x.from <= x.to <= |s|
  {
    forall p :: x.from < p < x.to ==> !EndsSentence(s, p)
  }

  /** What stands right before and right after the span is no part of a word. */
  ghost predicate Isolated(s: string, x: Span)
    requires x.from <= x.to <= |s|
  {
    && (x.from > 0 ==> IsSpace(s[x.from - 1]) || s[x.from - 1] == ']')
    && (x.to < |s| ==> IsSpace(s[x.to]) || IsTerminator(s[x.to]))
  }

  ghost predicate CleanPieces(s: string, ps: seq<Span>, from: nat) {
    && (forall i :: 0 <= i < |ps| ==>
          from <= ps[i].from <= ps[i].to <= |s| && Unbroken(s, ps[i]) && Isolated(s, ps[i]))
    && (forall i, j :: 0 <= i < j < |ps| ==> ps[i].to <= ps[j].from)
  }

  /** One more piece in front of clean pieces. */
  lemma CleanCons(s: string, x: Span, rest: seq<Span>, q: nat)
    requires x.from <= x.to <= q <= |s| && Unbroken(s, x) && Isolated(s, x) && CleanPieces(s, rest, q)
    ensures CleanPieces(s, [x] + rest, x.from)
  {
  }

  lemma LastIsClean(s: string, start: nat)
    requires start <= |s| && Unbroken(s, Span(start, |s|))
    requires start > 0 ==> IsSpace(s[start - 1]) || s[start - 1] == ']'
    ensures CleanPieces(s, [Span(start, |s|)], start)
  {
    assert Isolated(s, Span(start, |s|));
  }

  lemma {:induction false} PiecesAreClean(s: string, lo: nat, start: nat, p: nat, pieces: seq<Span>)
    requires lo <= start <= p <= |s|
    requires start > 0 ==> IsSpace(s[start - 1]) || s[start - 1] == ']'
    requires Unbroken(s, Span(start, p))
    requires pieces == Pieces(s, lo, start, p)
    ensures CleanPieces(s, pieces, start)
    decreases |s| - p
  {
    if p == |s| {
      LastIsClean(s, start);
    } else if Breaks(s, lo, p) {
      var q := SkipSpaces(s, p);
      var rest := Pieces(s, lo, q, q);
      PiecesAreClean(s, lo, q, q, rest);
      CleanCons(s, Span(start, p), rest, q);
    } else {
      LongerUnbroken(s, lo, start, p);
      PiecesAreClean(s, lo, start, p + 1, pieces);
    }
  }

  lemma LongerUnbroken(s: string, lo: nat, start: nat, p: nat)
    requires lo <= start <= p < |s| && !Breaks(s, lo, p) && Unbroken(s, Span(start, p))
    ensures Unbroken(s, Span(start, p + 1))
  {
  }

  /**
   Nothing is left of the closing terminators. `end` is where cutting them off stopped and
   y.to where the spaces before them began; had one been left, a space would follow it.
   */
  lemma NoClosingTerminator(s: string, x: Span, end: nat, y: Span)
    requires x.from <= y.from < y.to <= end <= x.to <= |s| && Unbroken(s, x)
    requires !IsTerminator(s[end - 1])
    requires y.to < end ==> IsSpace(s[y.to])
    ensures !IsTerminator(s[y.to - 1])
  {
    if y.to < end {
      assert !EndsSentence(s, y.to);
    }
  }

  lemma NarrowerUnbroken(s: string, x: Span, y: Span)
    requires x.from <= y.from <= y.to <= x.to <= |s| && Unbroken(s, x)
    ensures Unbroken(s, y)
  {
  }

  lemma NothingToTrim(s: string, x: Span)
    requires x.from < x.to <= |s| && !IsSpace(s[x.from])
    ensures TrimLeft(s, x) == x
  {
  }

  /** What is left of a clean piece once spaces, terminators and spaces again are cut off its ends. */
  lemma TrimmedIsClean(s: string, x: Span, left: Span, stripped: Span, bare: Span, y: Span)
    requires x.from <= x.to <= |s| && Unbroken(s, x) && Isolated(s, x)
    requires x.from <= left.from < left.to == x.to && !IsSpace(s[left.from])
    requires left.from > x.from ==> IsSpace(s[left.from - 1])
    requires stripped.to <= left.to && (stripped.to < left.to ==> IsSpace(s[stripped.to]))
    requires bare.to <= stripped.to && (bare.to < stripped.to ==> IsTerminator(s[bare.to]))
    requires y.from == left.from < y.to <= bare.to && (y.to < bare.to ==> IsSpace(s[y.to]))
    requires !IsTerminator(s[bare.to - 1]) && !IsSpace(s[y.to - 1])
    ensures IsCleanSpan(s, y)
  {
    NoClosingTerminator(s, x, bare.to, y);
    NarrowerUnbroken(s, x, y);
  }

  /** A sentence is a cut of its piece: trimmed, unbroken, isolated, without a closing terminator. */
  lemma SentenceIsClean(s: string, x: Span)
    requires x.from <= x.to <= |s| && Unbroken(s, x) && Isolated(s, x)
    ensures var y := SentenceOf(s, x);
            y.from < y.to ==> IsCleanSpan(s, y)
  {
    var left := TrimLeft(s, x);
    var stripped := TrimRight(s, left);
    var bare := TrimEnd(s, stripped);
    var y := SentenceOf(s, x);
    if y.from < y.to {
      NothingToTrim(s, bare);
      TrimmedIsClean(s, x, left, stripped, bare, y);
    }
  }

  /**
   The facts of a turn are cuts of it, in order and apart; each is non-empty, trimmed, has no
   sentence boundary inside and no terminator at its end.
   */
  lemma FactsAreCleanCuts(rules: Rules, turn: string)
    ensures var s := Strip(turn);
            var spans, facts := FactSpans(rules, s), Facts(rules, turn);
            && |facts| == |spans|
            && (forall i, j :: 0 <= i < j < |spans| ==> spans[i].to <= spans[j].from)
            && (forall i :: 0 <= i < |facts| ==> IsCleanCut(s, spans[i], facts[i].text))
  {
    var s := Strip(turn);
    var spans := FactSpans(rules, s);
    SpansAreClean(rules, s, spans);
    forall i | 0 <= i < |spans|
      ensures IsCleanCut(s, spans[i], Facts(rules, turn)[i].text)
    {
      FactText(rules, turn, i);
      CutTrimmed(s, spans[i]);
    }
  }

  lemma FactText(rules: Rules, turn: string, i: nat)
    requires i < |FactSpans(rules, Strip(turn))|
    ensures |Facts(rules, turn)| == |FactSpans(rules, Strip(turn))|
    ensures var x := FactSpans(rules, Strip(turn))[i];
            x.from <= x.to <= |Strip(turn)| && Facts(rules, turn)[i].text == Cut(Strip(turn), x)
  {
  }

  lemma CutTrimmed(s: string, y: Span)
    requires IsCleanSpan(s, y)
    ensures Trimmed(Cut(s, y))
  {
    var text := Cut(s, y);
    assert text[0] == s[y.from] && text[|text| - 1] == s[y.to - 1];
  }

  lemma SpansAreClean(rules: Rules, s: string, spans: seq<Span>)
    requires spans == FactSpans(rules, s)
    ensures Apart(spans) && forall i :: 0 <= i < |spans| ==> IsCleanSpan(s, spans[i])
  {
    var lo := BodyStart(s);
    PiecesInRange(s, lo, lo, lo);
    var pieces := Pieces(s, lo, lo, lo);
    PiecesAreClean(s, lo, lo, lo, pieces);
    SentencesAreClean(s, pieces, lo, Sentences(s, pieces));
    KeptAreClean(Keeps(rules), s, Sentences(s, pieces));
  }

  /** The text is this cut of s: trimmed, unbroken, without a closing terminator. */
  ghost predicate IsCleanCut(s: string, x: Span, text: string) {
    IsCleanSpan(s, x) && text == Cut(s, x) && Trimmed(text)
  }

  ghost predicate IsCleanSpan(s: string, x: Span) {
    && x.from < x.to <= |s| && !IsSpace(s[x.from]) && !IsSpace(s[x.to - 1])
    && Unbroken(s, x) && !IsTerminator(s[x.to - 1]) && Isolated(s, x)
  }

  /** Each span ends before the next begins. */
  ghost predicate Apart(spans: seq<Span>) {
    forall i, j :: 0 <= i < j < |spans| ==> spans[i].to <= spans[j].from
  }

  lemma SentencesAreClean(s: string, pieces: seq<Span>, lo: nat, sentences: seq<Span>)
    requires CleanPieces(s, pieces, lo) && SpansIn(s, pieces) && sentences == Sentences(s, pieces)
    ensures Apart(sentences)
    ensures forall i :: 0 <= i < |sentences| ==> sentences[i].from < sentences[i].to ==> IsCleanSpan(s, sentences[i])
  {
    forall i | 0 <= i < |sentences|
      ensures sentences[i].from < sentences[i].to ==> IsCleanSpan(s, sentences[i])
    {
      SentenceIsClean(s, pieces[i]);
    }
    forall i, j | 0 <= i < j < |sentences|
      ensures sentences[i].to <= sentences[j].from
    {
      assert pieces[i].to <= pieces[j].from;
    }
  }

  lemma PicksAreApart(keep: Span -> bool, spans: seq<Span>, picked: seq<Span>)
    requires Apart(spans) && Picks(keep, spans, picked)
    ensures Apart(picked)
  {
    var at :| PicksAt(keep, spans, picked, at);
  }

  lemma KeptIsNonEmpty(keep: string -> bool, s: string, x: Span)
    requires x.from <= x.to <= |s| && !keep("")
    ensures keep(Cut(s, x)) ==> x.from < x.to
  {
    if x.from == x.to {
      assert Cut(s, x) == "";
    }
  }

  /** The kept sentences are non-empty ones, still in order and apart. */
  lemma KeptAreClean(keep: string -> bool, s: string, sentences: seq<Span>)
    requires SpansIn(s, sentences) && Apart(sentences) && !keep("")
    requires forall i :: 0 <= i < |sentences| ==> sentences[i].from < sentences[i].to ==> IsCleanSpan(s, sentences[i])
    ensures var kept := Filter(Passing(keep, s), sentences);
            Apart(kept) && forall i :: 0 <= i < |kept| ==> IsCleanSpan(s, kept[i])
  {
    var kept := Filter(Passing(keep, s), sentences);
    FilterPicks(Passing(keep, s), sentences);
    PicksAreApart(Passing(keep, s), sentences, kept);
    FilterMembers(Passing(keep, s), sentences);
    forall i | 0 <= i < |kept|
      ensures IsCleanSpan(s, kept[i])
    {
      var j :| 0 <= j < |sentences| && sentences[j] == kept[i];
      KeptIsNonEmpty(keep, s, kept[i]);
    }
  }

  // --------------------------------------------------------- no word is dropped

  lemma {:induction false} TrimLeftCuts(s: string, x: Span, k: nat)
    requires x.from <= x.to <= |s| && x.from <= k < TrimLeft(s, x).from
    ensures IsSpace(s[k])
    decreases x.to - x.from
  {
    if k == x.from {
    } else {
      TrimLeftCuts(s, Span(x.from + 1, x.to), k);
    }
  }

  lemma {:induction false} TrimRightCuts(s: string, x: Span, k: nat)
    requires x.from <= x.to <= |s| && TrimRight(s, x).to <= k < x.to
    ensures IsSpace(s[k])
    decreases x.to - x.from
  {
    if k == x.to - 1 {
    } else {
      TrimRightCuts(s, Span(x.from, x.to - 1), k);
    }
  }

  lemma {:induction false} TrimEndCuts(s: string, x: Span, k: nat)
    requires x.from <= x.to <= |s| && TrimEnd(s, x).to <= k < x.to
    ensures IsTerminator(s[k])
    decreases x.to - x.from
  {
    if k == x.to - 1 {
    } else {
      TrimEndCuts(s, Span(x.from, x.to - 1), k);
    }
  }

  /** A character of a piece that is neither space nor terminator is one of its sentence. */
  lemma SentenceHolds(s: string, x: Span, k: nat)
    requires x.from <= k < x.to <= |s| && !IsSpace(s[k]) && !IsTerminator(s[k])
    ensures SentenceOf(s, x).from <= k < SentenceOf(s, x).to
  {
    var left := TrimLeft(s, x);
    var stripped := TrimRight(s, left);
    var bare := TrimEnd(s, stripped);
    if k < left.from {
      TrimLeftCuts(s, x, k);
    } else if stripped.to <= k {
      TrimRightCuts(s, left, k);
    } else if bare.to <= k {
      TrimEndCuts(s, stripped, k);
    } else if k < TrimLeft(s, bare).from {
      TrimLeftCuts(s, bare, k);
    } else if SentenceOf(s, x).to <= k {
      TrimRightCuts(s, TrimLeft(s, bare), k);
    }
  }

  /** Every visible character lies in some piece: between two pieces there is only whitespace. */
  lemma {:induction false} PieceHolds(s: string, lo: nat, start: nat, p: nat, k: nat) returns (i: nat)
    requires lo <= start <= p <= |s| && start <= k < |s| && !IsSpace(s[k])
    ensures var pieces := Pieces(s, lo, start, p);
            i < |pieces| && pieces[i].from <= k < pieces[i].to
    decreases |s| - p
  {
    if p == |s| || (Breaks(s, lo, p) && k < p) {
      i := 0;
    } else if Breaks(s, lo, p) {
      var q := SkipSpaces(s, p);
      i := PieceHolds(s, lo, q, q, k);
      i := i + 1;
    } else {
      i := PieceHolds(s, lo, start, p + 1, k);
    }
  }

  /** No word of the turn proper is dropped: what is neither space nor terminator belongs to a sentence. */
  lemma NothingIsDropped(s: string, k: nat) returns (i: nat)
    requires BodyStart(s) <= k < |s| && !IsSpace(s[k]) && !IsTerminator(s[k])
    ensures i < |SentencesOf(s)| && SentencesOf(s)[i].from <= k < SentencesOf(s)[i].to
  {
    var lo := BodyStart(s);
    i := PieceHolds(s, lo, lo, lo, k);
    PiecesInRange(s, lo, lo, lo);
    SentenceHolds(s, Pieces(s, lo, lo, lo)[i], k);
  }

  /** With no sentence end from start to b, and none from p on, one piece reaches from start past b. */
  lemma {:induction false} PieceReaches(s: string, lo: nat, start: nat, p: nat, b: nat)
    requires lo <= start <= p <= |s| && start <= b < |s|
    requires forall q :: p <= q <= b && lo < q ==> !EndsSentence(s, q)
    ensures var pieces := Pieces(s, lo, start, p);
            pieces != [] && pieces[0].from == start && pieces[0].to >= if p <= b then b + 1 else p
    decreases |s| - p
  {
    if p == |s| {
    } else if Breaks(s, lo, p) {
      assert EndsSentence(s, p);
    } else {
      PieceReaches(s, lo, start, p + 1, b);
    }
  }

  /** Two visible characters with no sentence end between them lie in the same piece. */
  lemma {:induction false} PieceHoldsBoth(s: string, lo: nat, start: nat, p: nat, a: nat, b: nat) returns (i: nat)
    requires lo <= start <= p <= |s| && start <= a <= b < |s| && p <= b && !IsSpace(s[a])
    requires forall q :: a < q <= b ==> !EndsSentence(s, q)
    ensures var pieces := Pieces(s, lo, start, p);
            i < |pieces| && pieces[i].from <= a <= b < pieces[i].to
    decreases |s| - p
  {
    if a < p {
      PieceReaches(s, lo, start, p, b);
      i := 0;
    } else if Breaks(s, lo, p) {
      var q := SkipSpaces(s, p);
      i := PieceHoldsBoth(s, lo, q, q, a, b);
      i := i + 1;
    } else if p == b {
      PieceReaches(s, lo, start, p, b);
      i := 0;
    } else {
      i := PieceHoldsBoth(s, lo, start, p + 1, a, b);
    }
  }

  /** Nothing but the end of a sentence parts two words: without one between them they share a sentence. */
  lemma StaysTogether(s: string, a: nat, b: nat) returns (i: nat)
    requires BodyStart(s) <= a <= b < |s| && !IsSpace(s[a]) && !IsSpace(s[b])
    requires !IsTerminator(s[a]) && !IsTerminator(s[b])
    requires forall q :: a < q <= b ==> !EndsSentence(s, q)
    ensures i < |SentencesOf(s)| && SentencesOf(s)[i].from <= a <= b < SentencesOf(s)[i].to
  {
    var lo := BodyStart(s);
    i := PieceHoldsBoth(s, lo, lo, lo, a, b);
    PiecesInRange(s, lo, lo, lo);
    SentenceHolds(s, Pieces(s, lo, lo, lo)[i], a);
    SentenceHolds(s, Pieces(s, lo, lo, lo)[i], b);
  }

  /** The sentence calls itself temporary, in one of seven ways. */
  ghost predicate IsPassing(rules: Rules, sentence: string) {
    || HasWhole(rules, sentence, "today") || HasWhole(rules, sentence, "tonight")
    || HasWhole(rules, sentence, "right now") || HasWhole(rules, sentence, "this morning")
    || HasWhole(rules, sentence, "this afternoon") || HasWhole(rules, sentence, "this week")
    || HasWhole(rules, sentence, "this sprint")
  }

  lemma TransientExactly(rules: Rules, sentence: string)
    ensures IsTransient(rules, sentence) <==> IsPassing(rules, sentence)
  {
    assert "today" in TransientWords() && "tonight" in TransientWords() && "right now" in TransientWords();
    assert "this morning" in TransientWords() && "this afternoon" in TransientWords();
    assert "this week" in TransientWords() && "this sprint" in TransientWords();
  }

  /** The text calls itself temporary, by a phrase or by one that a word completes. */
  ghost predicate IsFramed(rules: Rules, s: string) {
    || IsPassing(rules, s) || IsFramedElse(rules, s)
    || HasLead(rules, s, "until ") || HasLead(rules, s, "for the next ")
  }

  ghost predicate IsFramedElse(rules: Rules, s: string) {
    || HasWhole(rules, s, "tomorrow") || HasWhole(rules, s, "currently") || HasWhole(rules, s, "for now")
    || HasWhole(rules, s, "at the moment") || HasWhole(rules, s, "this evening") || HasWhole(rules, s, "this month")
    || HasWhole(rules, s, "this quarter") || HasWhole(rules, s, "this year") || HasWhole(rules, s, "next week")
    || HasWhole(rules, s, "next month") || HasWhole(rules, s, "next quarter") || HasWhole(rules, s, "temporarily")
    || HasWhole(rules, s, "for a while") || HasWhole(rules, s, "for a bit") || HasWhole(rules, s, "these days")
    || HasWhole(rules, s, "on call") || HasWhole(rules, s, "this time")
  }

  lemma FramedIsMarked(rules: Rules, s: string)
    requires IsFramed(rules, s)
    ensures HasTemporalMarker(rules, s)
  {
    TransientExactly(rules, s);
    assert "until " in TemporalLeads() && "for the next " in TemporalLeads();
    var ps := TemporalWords();
    assert "tomorrow" in ps && "currently" in ps && "for now" in ps && "at the moment" in ps && "this evening" in ps;
    assert "this month" in ps && "this quarter" in ps && "this year" in ps && "next week" in ps && "next month" in ps;
    assert "next quarter" in ps && "temporarily" in ps && "for a while" in ps && "for a bit" in ps;
    assert "these days" in ps && "on call" in ps && "this time" in ps;
  }

  lemma MarkedIsFramed(rules: Rules, s: string, p: string)
    requires (p in TemporalWords() && HasWhole(rules, s, p)) || (p in TemporalLeads() && HasLead(rules, s, p))
    ensures IsFramed(rules, s)
  {
    if p in TransientWords() {
      TransientExactly(rules, s);
    }
  }

  /** The temporal markers are these phrases and no others. */
  lemma TemporalExactly(rules: Rules, s: string)
    ensures HasTemporalMarker(rules, s) <==> IsFramed(rules, s)
  {
    if IsFramed(rules, s) {
      FramedIsMarked(rules, s);
    }
    if HasTemporalMarker(rules, s) {
      var p :| (p in TemporalWords() && HasWhole(rules, s, p)) || (p in TemporalLeads() && HasLead(rules, s, p));
      MarkedIsFramed(rules, s, p);
    }
  }

  /** A sentence is worth storing as an instruction, or as a fact, for which passing activities count too. */
  ghost function WorthStoring(rules: Rules): string -> bool {
    (sentence: string) =>
      sentence != "" && (rules.isDirective(sentence) || rules.isFact(sentence, IsPassing(rules, sentence)))
  }

  /** What is stored of such a sentence. */
  ghost predicate Reports(rules: Rules, sentence: string, c: CandidateFact) {
    && c.text == sentence && (c.attribute, c.value) == rules.slotOf(sentence) && c.scope == ""
    && (if rules.isDirective(sentence) then c.kind == PROCEDURAL else c.kind == SEMANTIC)
    && c.importance == (if rules.isDirective(sentence) || c.attribute != "" then 0.8 else 0.5)
    && c.ttlDays == (if IsPassing(rules, sentence) then Some(7) else None)
  }

  lemma FactReports(rules: Rules, sentence: string)
    requires sentence != ""
    ensures Reports(rules, sentence, FactOf(rules, sentence))
  {
    TransientExactly(rules, sentence);
  }

  /**
   The facts are exactly the sentences worth storing, each once and in order. A fact carries
   its sentence's slot; it is a procedure if it is an instruction, weighs more if it is one
   or fills a slot, and lapses after a week if the sentence calls itself temporary.
   */
  lemma FactsAreTheKept(rules: Rules, turn: string)
    ensures var s := Strip(turn);
            var spans := FactSpans(rules, s);
            && Picks(Passing(WorthStoring(rules), s), SentencesOf(s), spans)
            && |Facts(rules, turn)| == |spans|
            && forall i :: 0 <= i < |spans| ==>
                 spans[i].from <= spans[i].to <= |s| && Reports(rules, Cut(s, spans[i]), Facts(rules, turn)[i])
  {
    var s := Strip(turn);
    var spans := FactSpans(rules, s);
    FilterPicks(Passing(Keeps(rules), s), SentencesOf(s));
    forall x: Span
      ensures Passing(Keeps(rules), s)(x) <==> Passing(WorthStoring(rules), s)(x)
    {
      if x.from <= x.to <= |s| {
        TransientExactly(rules, Cut(s, x));
      }
    }
    PicksSame(Passing(Keeps(rules), s), Passing(WorthStoring(rules), s), SentencesOf(s), spans);
    forall i | 0 <= i < |spans|
      ensures Reports(rules, Cut(s, spans[i]), Facts(rules, turn)[i])
    {
      FactReports(rules, Cut(s, spans[i]));
    }
  }

  // ----------------------------------------------------------- expiries survive

  /** Seen from inside or outside an isolated cut, the same positions hold word characters. */
  lemma WordAtCut(rules: Rules, s: string, x: Span, j: int)
    requires rules.Valid() && x.from <= x.to <= |s| && Isolated(s, x) && -1 <= j <= x.to - x.from
    ensures WordAt(rules, Cut(s, x), j) == WordAt(rules, s, x.from + j)
  {
  }

  /** A whole-word match inside a sentence is one in the turn. */
  lemma WholeInCut(rules: Rules, s: string, x: Span, i: nat, pattern: string)
    requires rules.Valid() && x.from <= x.to <= |s| && Isolated(s, x)
    requires WholeAt(rules, Cut(s, x), i, pattern)
    ensures WholeAt(rules, s, x.from + i, pattern)
  {
    var e := i + |pattern|;
    WordAtCut(rules, s, x, i - 1);
    WordAtCut(rules, s, x, i);
    WordAtCut(rules, s, x, e - 1);
    WordAtCut(rules, s, x, e);
    forall k | 0 <= k < |pattern|
      ensures rules.fold(s[x.from + i + k]) == rules.fold(pattern[k])
    {
      assert Cut(s, x)[i + k] == s[x.from + i + k];
    }
  }

  /** A sentence that calls itself temporary marks the whole turn. */
  lemma TransientMarksTurn(rules: Rules, s: string, x: Span)
    requires rules.Valid() && x.from <= x.to <= |s| && Isolated(s, x)
    requires IsTransient(rules, Cut(s, x))
    ensures HasTemporalMarker(rules, s)
  {
    var p :| p in TransientWords() && HasWhole(rules, Cut(s, x), p);
    var i :| 0 <= i <= |Cut(s, x)| && WholeAt(rules, Cut(s, x), i, p);
    WholeInCut(rules, s, x, i, p);
    assert HasWhole(rules, s, p);
    assert p in TemporalWords();
  }

  /** Every expiry the extractor proposes is backed by the words of the turn. */
  lemma TtlIsBacked(rules: Rules, turn: string, i: nat)
    requires rules.Valid() && i < |Facts(rules, turn)| && Facts(rules, turn)[i].ttlDays.Some?
    ensures HasTemporalMarker(rules, Strip(turn))
  {
    var s := Strip(turn);
    FactsAreCleanCuts(rules, turn);
    TransientMarksTurn(rules, s, FactSpans(rules, s)[i]);
  }

  ghost predicate NoneExpires(facts: seq<CandidateFact>) {
    forall i :: 0 <= i < |facts| ==> facts[i].ttlDays.None?
  }

  lemma ExpiringTurnIsMarked(rules: Rules, turn: string)
    requires rules.Valid() && !NoneExpires(Facts(rules, turn))
    ensures HasTemporalMarker(rules, Strip(turn))
  {
    var i :| 0 <= i < |Facts(rules, turn)| && Facts(rules, turn)[i].ttlDays.Some?;
    TtlIsBacked(rules, turn, i);
  }

  lemma {:induction false} VerifyKeeps(env: Env, facts: seq<CandidateFact>, turn: string)
    requires env.temporal(turn) || NoneExpires(facts)
    ensures WritePolicy.VerifyAll(env, facts, turn) == facts
  {
    if facts == [] {
    } else {
      VerifyKeeps(env, facts[1..], turn);
    }
  }

  /** With this extractor the write path's expiry check never drops an expiry. */
  lemma TtlsSurvive(env: Env, rules: Rules, turn: string)
    requires rules.Valid() && Trimmed(turn)
    requires env.temporal(turn) == HasTemporalMarker(rules, turn)
    ensures WritePolicy.VerifyAll(env, Facts(rules, turn), turn) == Facts(rules, turn)
  {
    if !NoneExpires(Facts(rules, turn)) {
      ExpiringTurnIsMarked(rules, turn);
    }
    VerifyKeeps(env, Facts(rules, turn), turn);
  }
}
