/**
 The recalled-memory block: the prompt builder prints it, the stub model parses it back.
 The prompt's own prose names the start marker, so the parser's match begins there and
 swallows prose; the round trip holds nevertheless, exactly for texts that fit one line.
 */
module Prompts {
  import opened Prelude
  import opened Records
  import opened Text

  const MEMORY_BLOCK_START: string := "<recalled_memories>"
  const MEMORY_BLOCK_END: string := "</recalled_memories>"

  // ---------------------------------------------------------------- printing

  /** The prose before the start marker, in short pieces. */
  const HEAD_PIECES: seq<string> := [
    "You are a helpful assistant that",
    " remembers this user across",
    " conversations.\n\nAnything inside "
  ]

  /** The prose after the start marker. */
  const TAIL_PIECES: seq<string> := [
    " was recalled from your long-term memory",
    " of this user. Treat it as background",
    " you already know: use it to answer",
    " without asking the user to repeat",
    " themselves, and prefer it over generic",
    " defaults. If a recalled memory",
    " contradicts what the user says now,",
    " believe the user and say so. If nothing",
    " recalled is relevant, ignore it",
    " \U{2014} do not force it into the",
    " answer."
  ]

  /** Prose that names the start marker once: what stands before the marker and what behind it. */
  datatype Prose = Prose(head: string, tail: string) {
    function Text(): string {
      head + MEMORY_BLOCK_START + tail
    }

    /** The head opens no marker; the tail is a single line, no bullet, and closes none. */
    ghost predicate IsSuitable() {
      Lacks(head, '<') && OneLine(tail) && Lacks(tail, '/') && BulletOf(tail) == []
    }
  }

  const SYSTEM_PROSE: Prose := Prose(Join("", HEAD_PIECES), Join("", TAIL_PIECES))

  function Texts(recalls: seq<Recall>): (r: seq<string>)
    ensures |r| == |recalls| && forall i :: 0 <= i < |r| ==> r[i] == recalls[i].memory.text
  {
    seq(|recalls|, i requires 0 <= i < |recalls| => recalls[i].memory.text)
  }

  function Bulleted(texts: seq<string>): (r: seq<string>)
    ensures |r| == |texts| && forall i :: 0 <= i < |r| ==> r[i] == "- " + texts[i]
  {
    seq(|texts|, i requires 0 <= i < |texts| => "- " + texts[i])
  }

  function RenderMemoryBlock(recalls: seq<Recall>): string {
    if recalls == [] then ""
    else MEMORY_BLOCK_START + "\n" + Join("\n", Bulleted(Texts(recalls))) + "\n" + MEMORY_BLOCK_END
  }

  function BuildPrompt(prose: Prose, recalls: seq<Recall>): string {
    var block := RenderMemoryBlock(recalls);
    if block != "" then prose.Text() + "\n\n" + block else prose.Text()
  }

  function BuildSystemPrompt(recalls: seq<Recall>): string {
    BuildPrompt(SYSTEM_PROSE, recalls)
  }

  // ---------------------------------------------------------------- parsing

  predicate At(s: string, i: nat, pattern: string) {
    i + |pattern| <= |s| && s[i..i + |pattern|] == pattern
  }

  /** The first place at or after `from` where the pattern occurs. */
  function Find(s: string, from: nat, pattern: string): (r: Option<nat>)
    ensures r.Some? ==> from <= r.value && r.value + |pattern| <= |s|
    decreases |s| - from
  {
    if At(s, from, pattern) then Some(from)
    else if from >= |s| then None
    else Find(s, from + 1, pattern)
  }

  lemma {:induction false} FindMeets(s: string, from: nat, pattern: string)
    ensures var r := Find(s, from, pattern);
            && (r.Some? ==> At(s, r.value, pattern))
            && forall i :: from <= i < (if r.Some? then r.value else |s|) ==> !At(s, i, pattern)
    decreases |s| - from
  {
    if At(s, from, pattern) || from >= |s| {
    } else {
      FindMeets(s, from + 1, pattern);
    }
  }

  /** The texts between each start marker and the next end marker, left to right. */
  function BlocksBetween(s: string, from: nat, start: string, end: string): seq<string>
    requires start != ""
    decreases |s| - from
  {
    var first := Find(s, from, start);
    if first.None? then []
    else
      var body := first.value + |start|;
      var last := Find(s, body, end);
      if last.None? then []
      else [s[body..last.value]] + BlocksBetween(s, last.value + |end|, start, end)
  }

  function Blocks(s: string, from: nat): seq<string> {
    BlocksBetween(s, from, MEMORY_BLOCK_START, MEMORY_BLOCK_END)
  }

  /** `str.splitlines`; `line` is the line being read, and `\r\n` is one boundary. */
  function SplitLines(s: string, line: string): seq<string>
    decreases |s|
  {
    if s == "" then (if line == "" then [] else [line])
    else if "\r\n" <= s then [line] + SplitLines(s[2..], "")
    else if IsLineBreak(s[0]) then [line] + SplitLines(s[1..], "")
    else SplitLines(s[1..], line + [s[0]])
  }

  function BulletOf(raw: string): seq<string> {
    var line := Strip(raw);
    if "- " <= line then [Strip(line[2..])] else []
  }

  function BulletsOf(lines: seq<string>): seq<string> {
    if lines == [] then [] else BulletsOf(lines[..|lines| - 1]) + BulletOf(lines[|lines| - 1])
  }

  function BlockLines(blocks: seq<string>): seq<string> {
    if blocks == [] then []
    else BlockLines(blocks[..|blocks| - 1]) + BulletsOf(SplitLines(blocks[|blocks| - 1], ""))
  }

  function MemoryLines(messages: seq<Message>): seq<string> {
    if messages == [] then []
    else MemoryLines(messages[..|messages| - 1]) + BlockLines(Blocks(messages[|messages| - 1].content, 0))
  }

  lemma AppendMore(found: seq<string>, before: seq<string>, more: seq<string>)
    ensures (found + before) + more == found + (before + more)
  {
  }

  lemma NothingMore(found: seq<string>)
    ensures found + [] == found
  {
  }

  lemma MemoryLinesStep(messages: seq<Message>, i: nat)
    requires i < |messages|
    ensures MemoryLines(messages[..i + 1]) == MemoryLines(messages[..i]) + BlockLines(Blocks(messages[i].content, 0))
  {
    assert messages[..i + 1][..i] == messages[..i];
  }

  lemma BlockLinesStep(blocks: seq<string>, j: nat)
    requires j < |blocks|
    ensures BlockLines(blocks[..j + 1]) == BlockLines(blocks[..j]) + BulletsOf(SplitLines(blocks[j], ""))
  {
    assert blocks[..j + 1][..j] == blocks[..j];
  }

  lemma BulletsStep(raws: seq<string>, k: nat)
    requires k < |raws|
    ensures BulletsOf(raws[..k + 1]) == BulletsOf(raws[..k]) + BulletOf(raws[k])
  {
    assert raws[..k + 1][..k] == raws[..k];
  }

  /** The innermost loop: the bullet texts of one block, appended to what was found before. */
  method AppendBullets(found: seq<string>, block: string) returns (lines: seq<string>)
    ensures lines == found + BulletsOf(SplitLines(block, ""))
  {
    lines := found;
    var raws := SplitLines(block, "");
    for k := 0 to |raws|
      invariant lines == found + BulletsOf(raws[..k])
    {
      ghost var before := BulletsOf(raws[..k]);
      var line := Strip(raws[k]);
      if "- " <= line {
        lines := lines + [Strip(line[2..])];
      } else {
        NothingMore(lines);
      }
      BulletsStep(raws, k);
      AppendMore(found, before, BulletOf(raws[k]));
    }
    assert raws[..|raws|] == raws;
  }

  /** The middle loop: the bullet texts of one message's blocks. */
  method AppendBlocks(found: seq<string>, blocks: seq<string>) returns (lines: seq<string>)
    ensures lines == found + BlockLines(blocks)
  {
    lines := found;
    for j := 0 to |blocks|
      invariant lines == found + BlockLines(blocks[..j])
    {
      ghost var before := BlockLines(blocks[..j]);
      ghost var more := BulletsOf(SplitLines(blocks[j], ""));
      lines := AppendBullets(lines, blocks[j]);
      BlockLinesStep(blocks, j);
      AppendMore(found, before, more);
    }
    assert blocks[..|blocks|] == blocks;
  }

  /** Collects the bullet texts of every memory block of every message. */
  method ExtractMemoryBlock(messages: seq<Message>) returns (lines: seq<string>)
    ensures lines == MemoryLines(messages)
  {
    lines := [];
    for i := 0 to |messages|
      invariant lines == MemoryLines(messages[..i])
    {
      lines := AppendBlocks(lines, Blocks(messages[i].content, 0));
      MemoryLinesStep(messages, i);
    }
    assert messages[..|messages|] == messages;
  }

  // ------------------------------------------------------------- round trip

  ghost predicate Contains(s: string, pattern: string) {
    exists i :: 0 <= i && At(s, i, pattern)
  }

  ghost predicate OneLine(s: string) {
    forall i :: 0 <= i < |s| ==> !IsLineBreak(s[i])
  }

  /** A text the block can carry: non-empty, trimmed, on one line, free of the end marker. */
  ghost predicate Clean(text: string) {
    text != "" && Trimmed(text) && OneLine(text) && !Contains(text, MEMORY_BLOCK_END)
  }

  ghost predicate Lacks(s: string, c: char) {
    forall i :: 0 <= i < |s| ==> s[i] != c
  }

  // The end marker lies within one line and cannot straddle two.

  lemma MarkerFacts()
    ensures |MEMORY_BLOCK_END| == 20 && MEMORY_BLOCK_END[0] == '<' && MEMORY_BLOCK_END[1] == '/'
    ensures Lacks(MEMORY_BLOCK_END, '\n')
    ensures |MEMORY_BLOCK_START| == 19 && MEMORY_BLOCK_START[0] == '<'
    ensures Lacks(MEMORY_BLOCK_START, '/') && OneLine(MEMORY_BLOCK_START) && Trimmed(MEMORY_BLOCK_START)
  {
  }

  lemma ContainsPart(before: string, part: string, after: string, pattern: string)
    requires Contains(part, pattern)
    ensures Contains(before + part + after, pattern)
  {
    var i :| 0 <= i && At(part, i, pattern);
    var s := before + part + after;
    assert s[|before| + i..|before| + i + |pattern|] == part[i..i + |pattern|];
    assert At(s, |before| + i, pattern);
  }

  lemma AtChar(s: string, i: nat, pattern: string, k: nat)
    requires At(s, i, pattern) && k < |pattern|
    ensures s[i + k] == pattern[k]
  {
    assert s[i..i + |pattern|][k] == s[i + k];
  }

  lemma NoMarkerWithoutSlash(s: string)
    requires Lacks(s, '/')
    ensures !Contains(s, MEMORY_BLOCK_END)
  {
    MarkerFacts();
    forall i: nat | i + |MEMORY_BLOCK_END| <= |s|
      ensures !At(s, i, MEMORY_BLOCK_END)
    {
      assert s[i..i + |MEMORY_BLOCK_END|][1] == s[i + 1];
    }
  }

  lemma SlicePrefix(part: string, after: string, i: nat, n: nat)
    requires i + n <= |part|
    ensures (part + after)[i..i + n] == part[i..i + n]
  {
  }

  lemma SliceSuffix(before: string, part: string, i: nat, n: nat)
    requires i + n <= |part|
    ensures (before + part)[|before| + i..|before| + i + n] == part[i..i + n]
  {
  }

  lemma NoMarkerAcrossLines(a: string, b: string)
    requires !Contains(a, MEMORY_BLOCK_END) && !Contains(b, MEMORY_BLOCK_END)
    ensures !Contains(a + "\n" + b, MEMORY_BLOCK_END)
  {
    MarkerFacts();
    var e := MEMORY_BLOCK_END;
    var s := a + "\n" + b;
    assert s == a + ("\n" + b);
    forall i: nat
      ensures !At(s, i, e)
    {
      if i + |e| <= |a| {
        SlicePrefix(a, "\n" + b, i, |e|);
        assert !At(a, i, e);
      } else if i > |a| && i + |e| <= |s| {
        SliceSuffix(a + "\n", b, i - |a| - 1, |e|);
        assert !At(b, i - |a| - 1, e);
      } else if i + |e| <= |s| {
        assert s[i..i + |e|][|a| - i] == s[|a|] == '\n';
      }
    }
  }

  lemma NoMarkerInBullet(text: string)
    ensures Contains("- " + text, MEMORY_BLOCK_END) <==> Contains(text, MEMORY_BLOCK_END)
  {
    MarkerFacts();
    var s := "- " + text;
    if Contains(s, MEMORY_BLOCK_END) {
      var i :| 0 <= i && At(s, i, MEMORY_BLOCK_END);
      AtChar(s, i, MEMORY_BLOCK_END, 0);
      assert text[i - 2..i - 2 + |MEMORY_BLOCK_END|] == s[i..i + |MEMORY_BLOCK_END|];
      assert At(text, i - 2, MEMORY_BLOCK_END);
    }
    if Contains(text, MEMORY_BLOCK_END) {
      ContainsPart("- ", text, "", MEMORY_BLOCK_END);
      assert s == "- " + text + "";
    }
  }

  lemma {:induction false} NoMarkerInBullets(texts: seq<string>)
    requires forall i :: 0 <= i < |texts| ==> !Contains(texts[i], MEMORY_BLOCK_END)
    ensures !Contains(Join("\n", Bulleted(texts)), MEMORY_BLOCK_END)
  {
    if texts == [] {
      NoMarkerWithoutSlash("");
    } else {
      NoMarkerInBullet(texts[0]);
      assert Bulleted(texts)[1..] == Bulleted(texts[1..]);
      NoMarkerInBullets(texts[1..]);
      NoMarkerAcrossLines("- " + texts[0], Join("\n", Bulleted(texts[1..])));
    }
  }

  // --------------------------------------------------- the parser's first match

  /** A pattern's first occurrence, when nothing before it can start one. */
  lemma FindFirst(s: string, from: nat, i: nat, pattern: string)
    requires from <= i && At(s, i, pattern) && pattern != ""
    requires forall k :: from <= k < i ==> !At(s, k, pattern)
    ensures Find(s, from, pattern) == Some(i)
  {
    FindMeets(s, from, pattern);
  }

  lemma FirstStart(head: string, rest: string)
    requires Lacks(head, '<')
    ensures Find(head + MEMORY_BLOCK_START + rest, 0, MEMORY_BLOCK_START) == Some(|head|)
  {
    MarkerFacts();
    var s := head + MEMORY_BLOCK_START + rest;
    assert At(s, |head|, MEMORY_BLOCK_START);
    forall k | 0 <= k < |head|
      ensures !At(s, k, MEMORY_BLOCK_START)
    {
      assert s[k..k + |MEMORY_BLOCK_START|][0] == head[k];
    }
    FindFirst(s, 0, |head|, MEMORY_BLOCK_START);
  }

  lemma BodyLacks(before: string, body: string, k: nat)
    requires !Contains(body, MEMORY_BLOCK_END) && body != "" && body[|body| - 1] == '\n'
    requires |before| <= k < |before| + |body|
    ensures !At(before + body + MEMORY_BLOCK_END, k, MEMORY_BLOCK_END)
  {
    MarkerFacts();
    var e := MEMORY_BLOCK_END;
    var s := before + body + e;
    var i := k - |before|;
    var n := |body| - 1 - i;
    if i + |e| <= |body| {
      assert body[i..i + |e|] == s[k..k + |e|];
      assert !At(body, i, e);
    } else if k + |e| <= |s| {
      assert s[k..k + |e|][n] == s[k + n] == '\n';
    }
  }

  lemma FirstAfter(before: string, body: string, pattern: string)
    requires pattern != ""
    requires forall k :: |before| <= k < |before| + |body| ==> !At(before + body + pattern, k, pattern)
    ensures Find(before + body + pattern, |before|, pattern) == Some(|before| + |body|)
  {
    var s := before + body + pattern;
    assert At(s, |before| + |body|, pattern);
    FindFirst(s, |before|, |before| + |body|, pattern);
  }

  /** The first end marker after a body of whole lines without one stands right behind the body. */
  lemma FirstEnd(before: string, body: string)
    requires !Contains(body, MEMORY_BLOCK_END) && body != "" && body[|body| - 1] == '\n'
    ensures Find(before + body + MEMORY_BLOCK_END, |before|, MEMORY_BLOCK_END) == Some(|before| + |body|)
  {
    MarkerFacts();
    forall k | |before| <= k < |before| + |body|
      ensures !At(before + body + MEMORY_BLOCK_END, k, MEMORY_BLOCK_END)
    {
      BodyLacks(before, body, k);
    }
    FirstAfter(before, body, MEMORY_BLOCK_END);
  }

  lemma NoBlockAtEnd(s: string, start: string, end: string)
    requires start != ""
    ensures BlocksBetween(s, |s|, start, end) == []
  {
  }

  lemma BlocksSplit(s: string, from: nat, start: string, end: string, at: nat, last: nat)
    requires start != "" && Find(s, from, start).Some? && at == Find(s, from, start).value + |start|
    requires Find(s, at, end) == Some(last)
    ensures BlocksBetween(s, from, start, end) == [s[at..last]] + BlocksBetween(s, last + |end|, start, end)
  {
  }

  lemma SliceOfMiddle(before: string, body: string, after: string)
    ensures (before + body + after)[|before|..|before| + |body|] == body
  {
  }

  lemma BlockAtEnd(s: string, from: nat, body: string, start: string, end: string)
    requires start != "" && Find(s, from, start).Some?
    requires var at := Find(s, from, start).value + |start|;
             Find(s, at, end) == Some(|s| - |end|) && body == s[at..|s| - |end|]
    ensures BlocksBetween(s, from, start, end) == [body]
  {
    BlocksSplit(s, from, start, end, Find(s, from, start).value + |start|, |s| - |end|);
    NoBlockAtEnd(s, start, end);
  }

  lemma BlockBetween(s: string, from: nat, before: string, body: string, start: string, end: string)
    requires s == before + body + end && start != "" && |start| <= |before|
    requires Find(s, from, start) == Some(|before| - |start|)
    requires Find(s, |before|, end) == Some(|before| + |body|)
    ensures BlocksBetween(s, from, start, end) == [body]
  {
    SliceOfMiddle(before, body, end);
    BlockAtEnd(s, from, body, start, end);
  }

  /** A message of this shape holds exactly one block: everything between the markers. */
  lemma OneBlock(head: string, body: string)
    requires Lacks(head, '<')
    requires !Contains(body, MEMORY_BLOCK_END) && body != "" && body[|body| - 1] == '\n'
    ensures Blocks(head + MEMORY_BLOCK_START + body + MEMORY_BLOCK_END, 0) == [body]
  {
    var start, end := MEMORY_BLOCK_START, MEMORY_BLOCK_END;
    var before := head + start;
    var s := before + body + end;
    assert s == head + start + (body + end);
    FirstStart(head, body + end);
    FirstEnd(before, body);
    BlockBetween(s, 0, before, body, start, end);
  }

  // ----------------------------------------------------------- lines and bullets

  /** A line without a break starts at `from`; behind its break, of which "\r\n" is one, the next starts at `to`. */
  ghost predicate LineAt(s: string, from: nat, line: string, to: nat) {
    && from + |line| <= |s|
    && (forall k :: 0 <= k < |line| ==> line[k] == s[from + k] && !IsLineBreak(line[k]))
    && var p := from + |line|;
       if p == |s| then line != "" && to == p
       else IsLineBreak(s[p]) && to == if s[p] == '\r' && p + 1 < |s| && s[p + 1] == '\n' then p + 2 else p + 1
  }

  /** The lines stand one behind the other from `from` to the end of s. */
  ghost predicate AreLines(s: string, from: nat, lines: seq<string>, starts: seq<nat>) {
    && |starts| == |lines| + 1 && starts[0] == from && starts[|lines|] == |s|
    && forall i :: 0 <= i < |lines| ==> LineAt(s, starts[i], lines[i], starts[i + 1])
  }

  lemma LinesCons(s: string, from: nat, line: string, to: nat, lines: seq<string>, starts: seq<nat>)
    requires LineAt(s, from, line, to) && AreLines(s, to, lines, starts)
    ensures AreLines(s, from, [line] + lines, [from] + starts)
  {
  }

  lemma RestOfLines(s: string, i: nat, n: nat, rest: string)
    requires i + n <= |s| && rest == s[i..]
    ensures rest[n..] == s[i + n..]
    ensures n < |rest| ==> rest[n] == s[i + n]
  {
  }

  /** The split, about to read s from position i with `line` in hand, finds the lines. */
  lemma {:induction false} LinesFrom(s: string, from: nat, i: nat, rest: string, line: string)
    returns (starts: seq<nat>)
    requires from <= i <= |s| && rest == s[i..] && |line| == i - from
    requires forall k :: 0 <= k < |line| ==> line[k] == s[from + k] && !IsLineBreak(line[k])
    ensures AreLines(s, from, SplitLines(rest, line), starts)
    decreases |rest|
  {
    if rest == "" {
      starts := [|s|];
      if line != "" {
        LinesCons(s, from, line, |s|, [], [|s|]);
        assert [line] + [] == [line];
        starts := [from] + starts;
      }
    } else if "\r\n" <= rest || IsLineBreak(rest[0]) {
      var n := if "\r\n" <= rest then 2 else 1;
      RestOfLines(s, i, n, rest);
      starts := LinesFrom(s, i + n, i + n, rest[n..], "");
      EndsAtBreak(s, from, i, rest, line, n);
      LinesCons(s, from, line, i + n, SplitLines(rest[n..], ""), starts);
      starts := [from] + starts;
    } else {
      RestOfLines(s, i, 1, rest);
      starts := LinesFrom(s, from, i + 1, rest[1..], line + [rest[0]]);
    }
  }

  lemma EndsAtBreak(s: string, from: nat, i: nat, rest: string, line: string, n: nat)
    requires from <= i < |s| && rest == s[i..] && |line| == i - from
    requires forall k :: 0 <= k < |line| ==> line[k] == s[from + k] && !IsLineBreak(line[k])
    requires "\r\n" <= rest || IsLineBreak(rest[0])
    requires n == if "\r\n" <= rest then 2 else 1
    ensures LineAt(s, from, line, i + n)
  {
    assert "\r\n" <= rest <==> |rest| >= 2 && rest[0] == '\r' && rest[1] == '\n';
    assert rest[0] == s[i];
    assert |rest| >= 2 ==> rest[1] == s[i + 1];
  }

  /** Splitting a text gives its lines, one behind the other, with nothing left over. */
  lemma LinesExactly(s: string) returns (starts: seq<nat>)
    ensures AreLines(s, 0, SplitLines(s, ""), starts)
  {
    assert s[0..] == s;
    starts := LinesFrom(s, 0, 0, s, "");
  }

  lemma SplitAtBreak(line: string, rest: string)
    ensures SplitLines("\n" + rest, line) == [line] + SplitLines(rest, "")
  {
    var s := "\n" + rest;
    assert s[0] == '\n' && s[1..] == rest;
  }

  lemma {:induction false} SplitOne(line: string, part: string, rest: string)
    requires OneLine(part)
    ensures SplitLines(part + "\n" + rest, line) == [line + part] + SplitLines(rest, "")
    decreases |part|
  {
    var s := part + "\n" + rest;
    if part == "" {
      assert s == "\n" + rest;
      assert line + part == line;
      SplitAtBreak(line, rest);
    } else {
      assert s[0] == part[0];
      assert s[1..] == part[1..] + "\n" + rest;
      SplitOne(line + [part[0]], part[1..], rest);
      assert line + [part[0]] + part[1..] == line + part;
    }
  }

  lemma {:induction false} SplitBullets(texts: seq<string>)
    requires texts != [] && forall i :: 0 <= i < |texts| ==> OneLine(texts[i])
    ensures SplitLines(Join("\n", Bulleted(texts)) + "\n", "") == Bulleted(texts)
  {
    var first := "- " + texts[0];
    assert OneLine(first);
    assert Bulleted(texts) == [first] + Bulleted(texts[1..]);
    if |texts| == 1 {
      assert Join("\n", Bulleted(texts)) + "\n" == first + "\n" + "";
      SplitOne("", first, "");
      assert "" + first == first;
    } else {
      var rest := Join("\n", Bulleted(texts[1..]));
      assert Bulleted(texts)[1..] == Bulleted(texts[1..]);
      assert Join("\n", Bulleted(texts)) + "\n" == first + "\n" + (rest + "\n");
      SplitOne("", first, rest + "\n");
      assert "" + first == first;
      SplitBullets(texts[1..]);
    }
  }

  lemma BulletsSnoc(lines: seq<string>, last: string)
    ensures BulletsOf(lines + [last]) == BulletsOf(lines) + BulletOf(last)
  {
    assert (lines + [last])[..|lines|] == lines;
  }

  lemma {:induction false} BulletsAppend(a: seq<string>, b: seq<string>)
    ensures BulletsOf(a + b) == BulletsOf(a) + BulletsOf(b)
  {
    if b == [] {
      assert a + b == a;
      NothingMore(BulletsOf(a));
    } else {
      var init, last := b[..|b| - 1], b[|b| - 1];
      assert a + b == (a + init) + [last] && b == init + [last];
      BulletsAppend(a, init);
      BulletsSnoc(a + init, last);
      BulletsSnoc(init, last);
      AppendMore(BulletsOf(a), BulletsOf(init), BulletOf(last));
    }
  }

  lemma BulletOfClean(text: string)
    requires text != "" && Trimmed(text)
    ensures BulletOf("- " + text) == [text]
  {
    var line := "- " + text;
    assert line[|line| - 1] == text[|text| - 1];
    assert line[2..] == text;
  }

  lemma BulletedSnoc(texts: seq<string>, last: string)
    ensures Bulleted(texts + [last]) == Bulleted(texts) + ["- " + last]
  {
  }

  lemma BulletsOfCleanSnoc(texts: seq<string>, last: string)
    requires BulletsOf(Bulleted(texts)) == texts && Clean(last)
    ensures BulletsOf(Bulleted(texts + [last])) == texts + [last]
  {
    BulletOfClean(last);
    BulletedSnoc(texts, last);
    BulletsSnoc(Bulleted(texts), "- " + last);
  }

  lemma CleanSplit(texts: seq<string>, init: seq<string>, last: string)
    requires texts == init + [last] && forall i :: 0 <= i < |texts| ==> Clean(texts[i])
    ensures Clean(last) && forall i :: 0 <= i < |init| ==> Clean(init[i])
  {
    forall i | 0 <= i < |init|
      ensures Clean(init[i])
    {
      assert texts[i] == init[i];
    }
    assert texts[|init|] == last;
  }

  lemma {:induction false} BulletsOfClean(texts: seq<string>)
    requires forall i :: 0 <= i < |texts| ==> Clean(texts[i])
    ensures BulletsOf(Bulleted(texts)) == texts
  {
    if texts == [] {
      assert Bulleted(texts) == [];
    } else {
      var init, last := texts[..|texts| - 1], texts[|texts| - 1];
      CleanSplit(texts, init, last);
      BulletsOfClean(init);
      BulletsOfCleanSnoc(init, last);
    }
  }

  lemma SingleLine(a: string)
    ensures BulletsOf([a]) == BulletOf(a)
  {
    assert [a][..0] == [];
  }

  lemma TwoLines(a: string, b: string)
    ensures BulletsOf([a, b]) == BulletOf(a) + BulletOf(b)
  {
    SingleLine(a);
    BulletsSnoc([a], b);
    assert [a] + [b] == [a, b];
  }

  lemma ThreeLines(a: string, b: string, c: string)
    ensures BulletsOf([a, b, c]) == BulletOf(a) + BulletOf(b) + BulletOf(c)
  {
    TwoLines(a, b);
    BulletsSnoc([a, b], c);
    assert [a, b] + [c] == [a, b, c];
  }

  /** The lines the match swallows before the first bullet hold no bullet. */
  lemma NoBulletBefore(tail: string)
    requires BulletOf(tail) == []
    ensures BulletsOf([tail, "", MEMORY_BLOCK_START]) == []
  {
    MarkerIsNoBullet();
    ThreeLines(tail, "", MEMORY_BLOCK_START);
  }

  lemma MarkerIsNoBullet()
    ensures BulletOf("") == BulletOf(MEMORY_BLOCK_START) == []
  {
    MarkerFacts();
    assert BulletOf("") == [];
  }

  lemma TailIsNoBullet(tail: string)
    requires " w" <= tail
    ensures BulletOf(tail) == []
  {
    var rest := tail[1..];
    assert tail[0] == ' ' && rest[0] == 'w';
    assert StripLeft(tail) == StripLeft(rest);
    assert StripLeft(rest) == rest;
    RightIsPrefix(rest);
  }

  // ------------------------------------------------------------ what is parsed

  /** A part of a line without a pattern is a line without it. */
  lemma PartOneLine(before: string, part: string, after: string, pattern: string)
    requires OneLine(before + part + after) && !Contains(before + part + after, pattern)
    ensures OneLine(part) && !Contains(part, pattern)
  {
    forall i | 0 <= i < |part|
      ensures !IsLineBreak(part[i])
    {
      assert part[i] == (before + part + after)[|before| + i];
    }
    if Contains(part, pattern) {
      ContainsPart(before, part, after, pattern);
    }
  }

  lemma {:induction false} LeftOneLine(s: string, pattern: string)
    requires OneLine(s) && !Contains(s, pattern)
    ensures OneLine(StripLeft(s)) && !Contains(StripLeft(s), pattern)
  {
    if s == "" || !IsSpace(s[0]) {
    } else {
      assert s == s[..1] + s[1..] + "";
      PartOneLine(s[..1], s[1..], "", pattern);
      LeftOneLine(s[1..], pattern);
    }
  }

  lemma {:induction false} RightOneLine(s: string, pattern: string)
    requires OneLine(s) && !Contains(s, pattern)
    ensures OneLine(StripRight(s)) && !Contains(StripRight(s), pattern)
  {
    if s == "" || !IsSpace(s[|s| - 1]) {
    } else {
      assert s == "" + s[..|s| - 1] + s[|s| - 1..];
      PartOneLine("", s[..|s| - 1], s[|s| - 1..], pattern);
      RightOneLine(s[..|s| - 1], pattern);
    }
  }

  lemma StripOneLine(s: string, pattern: string)
    requires OneLine(s) && !Contains(s, pattern)
    ensures OneLine(Strip(s)) && !Contains(Strip(s), pattern)
  {
    LeftOneLine(s, pattern);
    RightOneLine(StripLeft(s), pattern);
  }

  /** Stripping leaves something of a text that holds a visible character. */
  lemma StripNonEmpty(s: string, i: nat)
    requires i < |s| && !IsSpace(s[i])
    ensures Strip(s) != ""
  {
    var left := StripLeft(s);
    LeftStripped(s, i);
    LeftIsSuffix(s);
    RightStripped(left, i - (|s| - |left|));
  }

  /** The visible part of a bullet line is what remains of it after the mark. */
  lemma BulletBody(line: string, body: string)
    requires Trimmed(line) && "- " <= line && body == line[2..]
    ensures Strip(body) != ""
  {
    assert line[0] == '-' && line[1] == ' ';
    assert body[|body| - 1] == line[|line| - 1];
    StripNonEmpty(body, |body| - 1);
  }

  lemma BulletLineIsClean(line: string, pattern: string)
    requires Trimmed(line) && OneLine(line) && "- " <= line && !Contains(line, pattern)
    ensures var text := Strip(line[2..]);
            text != "" && Trimmed(text) && OneLine(text) && !Contains(text, pattern)
  {
    assert line == line[..2] + line[2..] + "";
    PartOneLine(line[..2], line[2..], "", pattern);
    assert line[2..] == line[2..|line|];
    StripOneLine(line[2..], pattern);
    BulletBody(line, line[2..]);
  }

  lemma BulletIsClean(raw: string)
    requires OneLine(raw) && !Contains(raw, MEMORY_BLOCK_END)
    ensures forall text :: text in BulletOf(raw) ==> Clean(text)
  {
    StripOneLine(raw, MEMORY_BLOCK_END);
    if "- " <= Strip(raw) {
      BulletLineIsClean(Strip(raw), MEMORY_BLOCK_END);
    }
  }

  lemma {:induction false} BulletsAreClean(raws: seq<string>)
    requires forall i :: 0 <= i < |raws| ==> OneLine(raws[i]) && !Contains(raws[i], MEMORY_BLOCK_END)
    ensures forall text :: text in BulletsOf(raws) ==> Clean(text)
  {
    if raws == [] {
    } else {
      BulletsAreClean(raws[..|raws| - 1]);
      BulletIsClean(raws[|raws| - 1]);
    }
  }

  lemma {:induction false} SplitIsClean(s: string, line: string)
    requires OneLine(line) && !Contains(line + s, MEMORY_BLOCK_END)
    ensures forall raw :: raw in SplitLines(s, line) ==> OneLine(raw) && !Contains(raw, MEMORY_BLOCK_END)
    decreases |s|
  {
    assert line + s == "" + line + s;
    if Contains(line, MEMORY_BLOCK_END) {
      ContainsPart("", line, s, MEMORY_BLOCK_END);
    }
    if s == "" {
    } else {
      var n := if "\r\n" <= s then 2 else 1;
      if "\r\n" <= s || IsLineBreak(s[0]) {
        SplitRest(line, s, n);
        SplitIsClean(s[n..], "");
      } else {
        assert line + s == line + [s[0]] + s[1..];
        SplitIsClean(s[1..], line + [s[0]]);
      }
    }
  }

  lemma SplitRest(line: string, s: string, n: nat)
    requires n <= |s| && !Contains(line + s, MEMORY_BLOCK_END)
    ensures !Contains("" + s[n..], MEMORY_BLOCK_END)
  {
    assert "" + s[n..] == s[n..];
    assert line + s == line + s[..n] + s[n..] + "";
    if Contains(s[n..], MEMORY_BLOCK_END) {
      ContainsPart(line + s[..n], s[n..], "", MEMORY_BLOCK_END);
    }
  }

  lemma SliceOfSlice(s: string, a: nat, b: nat, i: nat, n: nat)
    requires a <= b <= |s| && i + n <= b - a
    ensures s[a..b][i..i + n] == s[a + i..a + i + n]
  {
    var left, right := s[a..b][i..i + n], s[a + i..a + i + n];
    assert |left| == |right|;
    forall k | 0 <= k < n
      ensures left[k] == right[k]
    {
      assert left[k] == s[a..b][i + k] == s[a + i + k];
    }
  }

  /** Text up to the next end marker holds none. */
  lemma BlockLacks(s: string, body: nat, end: nat, marker: string)
    requires body <= end <= |s| && marker != ""
    requires forall i :: body <= i < end ==> !At(s, i, marker)
    ensures !Contains(s[body..end], marker)
  {
    var block := s[body..end];
    forall i: nat | i + |marker| <= |block|
      ensures !At(block, i, marker)
    {
      SliceOfSlice(s, body, end, i, |marker|);
      assert !At(s, body + i, marker);
    }
  }

  ghost predicate AllLack(blocks: seq<string>, marker: string) {
    forall i :: 0 <= i < |blocks| ==> !Contains(blocks[i], marker)
  }

  lemma ConsLacks(head: string, rest: seq<string>, marker: string)
    requires !Contains(head, marker) && AllLack(rest, marker)
    ensures AllLack([head] + rest, marker)
  {
  }

  lemma FoundLacks(s: string, body: nat, pattern: string)
    requires Find(s, body, pattern).Some? && pattern != ""
    ensures !Contains(s[body..Find(s, body, pattern).value], pattern)
  {
    FindMeets(s, body, pattern);
    BlockLacks(s, body, Find(s, body, pattern).value, pattern);
  }

  lemma NextBlockIsClean(s: string, from: nat, start: string, end: string, at: nat, last: nat, rest: seq<string>)
    requires start != "" && end != "" && Find(s, from, start).Some? && at == Find(s, from, start).value + |start|
    requires Find(s, at, end) == Some(last) && rest == BlocksBetween(s, last + |end|, start, end)
    requires AllLack(rest, end)
    ensures AllLack(BlocksBetween(s, from, start, end), end)
  {
    FoundLacks(s, at, end);
    ConsLacks(s[at..last], rest, end);
    BlocksSplit(s, from, start, end, at, last);
  }

  lemma {:induction false} BlocksAreClean(s: string, from: nat, start: string, end: string)
    requires start != "" && end != ""
    ensures AllLack(BlocksBetween(s, from, start, end), end)
    decreases |s| - from
  {
    var first := Find(s, from, start);
    if first.None? {
    } else {
      var at := first.value + |start|;
      var last := Find(s, at, end);
      if last.None? {
      } else {
        var rest := BlocksBetween(s, last.value + |end|, start, end);
        BlocksAreClean(s, last.value + |end|, start, end);
        NextBlockIsClean(s, from, start, end, at, last.value, rest);
      }
    }
  }

  lemma {:induction false} BlockLinesAreClean(blocks: seq<string>)
    requires AllLack(blocks, MEMORY_BLOCK_END)
    ensures forall text :: text in BlockLines(blocks) ==> Clean(text)
  {
    if blocks == [] {
    } else {
      var last := blocks[|blocks| - 1];
      BlockLinesAreClean(blocks[..|blocks| - 1]);
      assert "" + last == last;
      SplitIsClean(last, "");
      BulletsAreClean(SplitLines(last, ""));
    }
  }

  lemma {:induction false} ParsedAreClean(messages: seq<Message>)
    ensures forall text :: text in MemoryLines(messages) ==> Clean(text)
  {
    if messages == [] {
    } else {
      var last := messages[|messages| - 1].content;
      ParsedAreClean(messages[..|messages| - 1]);
      BlocksAreClean(last, 0, MEMORY_BLOCK_START, MEMORY_BLOCK_END);
      BlockLinesAreClean(Blocks(last, 0));
    }
  }

  // ------------------------------------------------------------- the theorem

  /** What the match captures: the prose behind the first start marker, then the printed block. */
  function Captured(tail: string, texts: seq<string>): string {
    tail + "\n" + ("" + "\n" + (MEMORY_BLOCK_START + "\n" + (Join("\n", Bulleted(texts)) + "\n")))
  }

  lemma ShapeOf(head: string, start: string, tail: string, list: string, end: string)
    ensures head + start + tail + "\n\n" + (start + "\n" + list + "\n" + end)
         == head + start + (tail + "\n" + ("" + "\n" + (start + "\n" + (list + "\n")))) + end
  {
  }

  lemma PromptShape(prose: Prose, recalls: seq<Recall>)
    requires recalls != []
    ensures BuildPrompt(prose, recalls)
         == prose.head + MEMORY_BLOCK_START + Captured(prose.tail, Texts(recalls)) + MEMORY_BLOCK_END
  {
    ShapeOf(prose.head, MEMORY_BLOCK_START, prose.tail, Join("\n", Bulleted(Texts(recalls))), MEMORY_BLOCK_END);
  }

  lemma CapturedHasNoMarker(tail: string, texts: seq<string>)
    requires Lacks(tail, '/') && forall i :: 0 <= i < |texts| ==> Clean(texts[i])
    ensures !Contains(Captured(tail, texts), MEMORY_BLOCK_END)
  {
    MarkerFacts();
    var list := Join("\n", Bulleted(texts));
    NoMarkerInBullets(texts);
    NoMarkerWithoutSlash("");
    NoMarkerAcrossLines(list, "");
    assert list + "\n" + "" == list + "\n";
    NoMarkerWithoutSlash(MEMORY_BLOCK_START);
    NoMarkerAcrossLines(MEMORY_BLOCK_START, list + "\n");
    NoMarkerAcrossLines("", MEMORY_BLOCK_START + "\n" + (list + "\n"));
    NoMarkerWithoutSlash(tail);
    NoMarkerAcrossLines(tail, "" + "\n" + (MEMORY_BLOCK_START + "\n" + (list + "\n")));
  }

  lemma SplitLine(part: string, rest: string)
    requires OneLine(part)
    ensures SplitLines(part + "\n" + rest, "") == [part] + SplitLines(rest, "")
  {
    SplitOne("", part, rest);
    assert "" + part == part;
  }

  /** The lines of three lines followed by a rest. */
  lemma SplitThree(a: string, b: string, c: string, rest: string)
    requires OneLine(a) && OneLine(b) && OneLine(c)
    ensures SplitLines(a + "\n" + (b + "\n" + (c + "\n" + rest)), "") == [a, b, c] + SplitLines(rest, "")
  {
    SplitLine(a, b + "\n" + (c + "\n" + rest));
    SplitLine(b, c + "\n" + rest);
    SplitLine(c, rest);
  }

  lemma CapturedBullets(tail: string, texts: seq<string>)
    requires OneLine(tail) && BulletOf(tail) == []
    requires texts != [] && forall i :: 0 <= i < |texts| ==> Clean(texts[i])
    ensures BulletsOf(SplitLines(Captured(tail, texts), "")) == texts
  {
    MarkerFacts();
    SplitThree(tail, "", MEMORY_BLOCK_START, Join("\n", Bulleted(texts)) + "\n");
    SplitBullets(texts);
    NoBulletBefore(tail);
    BulletsOfClean(texts);
    BulletsAppend([tail, "", MEMORY_BLOCK_START], Bulleted(texts));
  }

  /** A start marker without an end marker makes no block. */
  lemma NoBlock(head: string, tail: string)
    requires Lacks(head, '<') && Lacks(tail, '/')
    ensures Blocks(head + MEMORY_BLOCK_START + tail, 0) == []
  {
    MarkerFacts();
    var e := MEMORY_BLOCK_END;
    var s := head + MEMORY_BLOCK_START + tail;
    var body := |head| + |MEMORY_BLOCK_START|;
    FirstStart(head, tail);
    forall i | body <= i && i + |e| <= |s|
      ensures !At(s, i, e)
    {
      assert s[i..i + |e|][1] == s[i + 1] == tail[i + 1 - body];
    }
    FindMeets(s, body, e);
  }

  lemma NothingRecalled(prose: Prose)
    requires prose.IsSuitable()
    ensures MemoryLines([System(BuildPrompt(prose, []))]) == []
  {
    NoBlock(prose.head, prose.tail);
    var messages := [System(prose.Text())];
    assert messages[..0] == [];
  }

  ghost predicate AllClean(recalls: seq<Recall>) {
    forall i :: 0 <= i < |recalls| ==> Clean(recalls[i].memory.text)
  }

  lemma CleanRoundTrip(prose: Prose, recalls: seq<Recall>)
    requires prose.IsSuitable() && recalls != [] && AllClean(recalls)
    ensures MemoryLines([System(BuildPrompt(prose, recalls))]) == Texts(recalls)
  {
    var prompt, texts := BuildPrompt(prose, recalls), Texts(recalls);
    PromptShape(prose, recalls);
    CapturedHasNoMarker(prose.tail, texts);
    OneBlock(prose.head, Captured(prose.tail, texts));
    CapturedBullets(prose.tail, texts);
    SingleMessage(prompt, Captured(prose.tail, texts));
  }

  lemma SingleMessage(content: string, block: string)
    requires Blocks(content, 0) == [block]
    ensures MemoryLines([System(content)]) == BulletsOf(SplitLines(block, ""))
  {
    var messages := [System(content)];
    assert messages[..0] == [] && [block][..0] == [];
    assert BlockLines([block]) == [] + BulletsOf(SplitLines(block, ""));
  }

  lemma {:induction false} MemoryLinesAppend(a: seq<Message>, b: seq<Message>)
    ensures MemoryLines(a + b) == MemoryLines(a) + MemoryLines(b)
  {
    if b == [] {
      assert a + b == a;
      NothingMore(MemoryLines(a));
    } else {
      var init, last := b[..|b| - 1], b[|b| - 1];
      assert (a + b)[..|a + b| - 1] == a + init && (a + b)[|a + b| - 1] == last;
      MemoryLinesAppend(a, init);
      AppendMore(MemoryLines(a), MemoryLines(init), BlockLines(Blocks(last.content, 0)));
    }
  }

  /** What is parsed back is recalled exactly if every recalled text fits one bullet. */
  lemma UncleanIsLost(messages: seq<Message>, recalls: seq<Recall>)
    requires MemoryLines(messages) == Texts(recalls)
    ensures AllClean(recalls)
  {
    ParsedAreClean(messages);
    forall i | 0 <= i < |recalls|
      ensures Clean(recalls[i].memory.text)
    {
      assert Texts(recalls)[i] in MemoryLines(messages);
    }
  }

  /** The round trip, for any suitable prose and whatever transcript follows the prompt. */
  lemma ProseRoundTrip(prose: Prose, recalls: seq<Recall>, transcript: seq<Message>)
    requires prose.IsSuitable()
    ensures MemoryLines([System(BuildPrompt(prose, recalls))] + transcript) == Texts(recalls)
       <==> AllClean(recalls) && MemoryLines(transcript) == []
    ensures var sent := [System(BuildPrompt(prose, recalls))] + transcript;
            AllClean(recalls) ==> MemoryLines(sent) == Texts(recalls) + MemoryLines(transcript)
  {
    var prompt := [System(BuildPrompt(prose, recalls))];
    MemoryLinesAppend(prompt, transcript);
    if MemoryLines(prompt + transcript) == Texts(recalls) {
      UncleanIsLost(prompt + transcript, recalls);
    }
    if recalls == [] {
      NothingRecalled(prose);
    } else if AllClean(recalls) {
      CleanRoundTrip(prose, recalls);
    }
  }

  // ------------------------------------------------------ the system prompt in use

  /** Printable, and not the one character by which an end marker could be told. */
  predicate PlainChar(c: char) {
    ' ' <= c <= '.' || '0' <= c <= '~' || c == '\U{2014}'
  }

  ghost predicate Plain(s: string) {
    forall i :: 0 <= i < |s| ==> PlainChar(s[i])
  }

  lemma {:induction false} JoinLacks(pieces: seq<string>, c: char)
    requires forall i :: 0 <= i < |pieces| ==> Lacks(pieces[i], c)
    ensures Lacks(Join("", pieces), c)
  {
    if |pieces| <= 1 {
    } else {
      JoinLacks(pieces[1..], c);
    }
  }

  lemma {:induction false} JoinPlain(pieces: seq<string>)
    requires forall i :: 0 <= i < |pieces| ==> Plain(pieces[i])
    ensures Plain(Join("", pieces))
  {
    if |pieces| <= 1 {
    } else {
      JoinPlain(pieces[1..]);
    }
  }

  lemma PlainOneLine(s: string)
    requires Plain(s)
    ensures OneLine(s) && Lacks(s, '/')
  {
  }

  // A piece or two at a time keeps the solver's work on literals small.

  lemma TailPlain0()
    ensures Plain(TAIL_PIECES[0])
  {
  }

  lemma TailPlain1()
    ensures Plain(TAIL_PIECES[1])
  {
  }

  lemma TailPlain2To3()
    ensures Plain(TAIL_PIECES[2]) && Plain(TAIL_PIECES[3])
  {
  }

  lemma TailPlain4To5()
    ensures Plain(TAIL_PIECES[4]) && Plain(TAIL_PIECES[5])
  {
  }

  lemma TailPlain6To7()
    ensures Plain(TAIL_PIECES[6]) && Plain(TAIL_PIECES[7])
  {
  }

  lemma TailPlain8To10()
    ensures Plain(TAIL_PIECES[8]) && Plain(TAIL_PIECES[9]) && Plain(TAIL_PIECES[10])
  {
  }

  lemma HeadIsSuitable()
    ensures Lacks(Join("", HEAD_PIECES), '<')
  {
    assert Lacks(HEAD_PIECES[0], '<') && Lacks(HEAD_PIECES[1], '<') && Lacks(HEAD_PIECES[2], '<');
    JoinLacks(HEAD_PIECES, '<');
  }

  lemma TailIsPlain()
    ensures Plain(Join("", TAIL_PIECES)) && " w" <= Join("", TAIL_PIECES)
  {
    TailPlain0();
    TailPlain1();
    TailPlain2To3();
    TailPlain4To5();
    TailPlain6To7();
    TailPlain8To10();
    assert |TAIL_PIECES| == 11;
    JoinPlain(TAIL_PIECES);
    assert " w" <= TAIL_PIECES[0];
  }

  lemma SystemProseIsSuitable()
    ensures SYSTEM_PROSE.IsSuitable()
  {
    HeadIsSuitable();
    TailIsPlain();
    PlainOneLine(SYSTEM_PROSE.tail);
    TailIsNoBullet(SYSTEM_PROSE.tail);
  }

  /**
   Parsing what is sent, the built prompt and the transcript behind it, gives back the
   recalled texts, in order, if and only if every one of them is non-empty, trimmed, on one
   line and free of the end marker, and the transcript holds no memory block of its own.
   */
  lemma PromptRoundTrip(recalls: seq<Recall>, transcript: seq<Message>)
    ensures MemoryLines([System(BuildSystemPrompt(recalls))] + transcript) == Texts(recalls)
       <==> AllClean(recalls) && MemoryLines(transcript) == []
    ensures var sent := [System(BuildSystemPrompt(recalls))] + transcript;
            AllClean(recalls) ==> MemoryLines(sent) == Texts(recalls) + MemoryLines(transcript)
  {
    SystemProseIsSuitable();
    ProseRoundTrip(SYSTEM_PROSE, recalls, transcript);
  }

  lemma BreakIsUnclean(recalls: seq<Recall>, k: nat, i: nat)
    requires k < |recalls| && i < |recalls[k].memory.text| && IsLineBreak(recalls[k].memory.text[i])
    ensures !AllClean(recalls)
  {
    assert !OneLine(recalls[k].memory.text);
  }

  lemma LetterIsClean(recalls: seq<Recall>)
    requires |recalls| == 1 && recalls[0].memory.text == "a"
    ensures AllClean(recalls) && Texts(recalls) == ["a"]
  {
    MarkerFacts();
    assert !Contains("a", MEMORY_BLOCK_END);
  }

  lemma SentAlone(recalls: seq<Recall>)
    ensures MemoryLines([System(BuildSystemPrompt(recalls))]) == Texts(recalls) <==> AllClean(recalls)
  {
    var sent := [System(BuildSystemPrompt(recalls))];
    assert sent + [] == sent;
    PromptRoundTrip(recalls, []);
  }

  lemma PastedLines(content: string)
    ensures MemoryLines([Human(content)]) == MemoryLines([System(content)])
  {
    assert [Human(content)][..0] == [System(content)][..0];
  }

  /** A text of two lines does not come back, nor does a clean one when the user pastes a prompt. */
  lemma PromptFails(m: Memory)
    ensures var broken := [Recall(m.(text := "a\nb"), 1.0)];
            MemoryLines([System(BuildSystemPrompt(broken))]) != Texts(broken)
    ensures var plain := [Recall(m.(text := "a"), 1.0)];
            var pasted := [Human(BuildSystemPrompt(plain))];
            MemoryLines([System(BuildSystemPrompt(plain))] + pasted) != Texts(plain)
  {
    var broken := [Recall(m.(text := "a\nb"), 1.0)];
    BreakIsUnclean(broken, 0, 1);
    SentAlone(broken);
    var plain := [Recall(m.(text := "a"), 1.0)];
    LetterIsClean(plain);
    SentAlone(plain);
    PastedLines(BuildSystemPrompt(plain));
    PromptRoundTrip(plain, [Human(BuildSystemPrompt(plain))]);
  }
}
