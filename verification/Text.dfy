/**
 Python's string primitives, as far as the agent uses them: whitespace, `strip`,
 `splitlines`' line boundaries, and the normal form in which slot values are compared.
 */
module Text {

  /** The characters `str.isspace` accepts, which are also those of `\s` in a pattern. */
  predicate IsSpace(c: char) {
    || '\t' <= c <= '\r'
    || '\U{1c}' <= c <= ' '
    || c == '\U{85}' || c == '\U{a0}' || c == '\U{1680}'
    || '\U{2000}' <= c <= '\U{200a}'
    || c == '\U{2028}' || c == '\U{2029}' || c == '\U{202f}' || c == '\U{205f}' || c == '\U{3000}'
  }

  /** The characters at which `str.splitlines` ends a line. */
  predicate IsLineBreak(c: char) {
    || '\n' <= c <= '\r'
    || '\U{1c}' <= c <= '\U{1e}'
    || c == '\U{85}' || c == '\U{2028}' || c == '\U{2029}'
  }

  /** The twenty-nine white-space characters and the ten line breaks, one by one. */
  lemma CharacterTables(c: char)
    ensures IsSpace(c) <==>
              c as int in {0x09, 0x0a, 0x0b, 0x0c, 0x0d, 0x1c, 0x1d, 0x1e, 0x1f, 0x20, 0x85, 0xa0, 0x1680,
                           0x2000, 0x2001, 0x2002, 0x2003, 0x2004, 0x2005, 0x2006, 0x2007, 0x2008, 0x2009, 0x200a,
                           0x2028, 0x2029, 0x202f, 0x205f, 0x3000}
    ensures IsLineBreak(c) <==> c as int in {0x0a, 0x0b, 0x0c, 0x0d, 0x1c, 0x1d, 0x1e, 0x85, 0x2028, 0x2029}
  {
  }

  predicate Trimmed(s: string) {
    s == "" || (!IsSpace(s[0]) && !IsSpace(s[|s| - 1]))
  }

  function StripLeft(s: string): string {
    if s != "" && IsSpace(s[0]) then StripLeft(s[1..]) else s
  }

  function StripRight(s: string): string {
    if s != "" && IsSpace(s[|s| - 1]) then StripRight(s[..|s| - 1]) else s
  }

  lemma {:induction false} LeftIsSuffix(s: string)
    ensures var r := StripLeft(s);
            |r| <= |s| && r == s[|s| - |r|..] && (r != "" ==> !IsSpace(r[0]))
  {
    if s == "" || !IsSpace(s[0]) {
    } else {
      LeftIsSuffix(s[1..]);
    }
  }

  lemma {:induction false} RightIsPrefix(s: string)
    ensures var r := StripRight(s);
            r <= s && (r != "" ==> !IsSpace(r[|r| - 1]))
  {
    if s == "" || !IsSpace(s[|s| - 1]) {
    } else {
      RightIsPrefix(s[..|s| - 1]);
    }
  }

  /** Only white space is stripped. */
  lemma {:induction false} LeftStripped(s: string, i: nat)
    requires i < |s| && !IsSpace(s[i])
    ensures |s| - |StripLeft(s)| <= i
  {
    if i == 0 {
    } else {
      LeftStripped(s[1..], i - 1);
    }
  }

  lemma {:induction false} RightStripped(s: string, i: nat)
    requires i < |s| && !IsSpace(s[i])
    ensures i < |StripRight(s)|
  {
    if i == |s| - 1 {
    } else {
      RightStripped(s[..|s| - 1], i);
    }
  }

  function Strip(s: string): (r: string)
    ensures Trimmed(r)
    ensures Trimmed(s) ==> r == s
  {
    LeftIsSuffix(s);
    RightIsPrefix(StripLeft(s));
    StripRight(StripLeft(s))
  }

  lemma {:induction false} LeftDropsSpace(s: string, i: nat)
    requires i < |s| - |StripLeft(s)|
    ensures i < |s| && IsSpace(s[i])
  {
    if i == 0 {
    } else {
      LeftDropsSpace(s[1..], i - 1);
    }
  }

  lemma {:induction false} RightDropsSpace(s: string, i: nat)
    requires |StripRight(s)| <= i < |s|
    ensures IsSpace(s[i])
  {
    if i == |s| - 1 {
      RightIsPrefix(s);
    } else {
      RightDropsSpace(s[..|s| - 1], i);
    }
  }

  /** Stripping cuts off white space at both ends, all of it and nothing else. */
  lemma StripExactly(s: string) returns (a: nat, b: nat)
    ensures a <= b <= |s| && |Strip(s)| == b - a && forall i :: a <= i < b ==> Strip(s)[i - a] == s[i]
    ensures forall i :: 0 <= i < a || b <= i < |s| ==> IsSpace(s[i])
    ensures a < b ==> !IsSpace(s[a]) && !IsSpace(s[b - 1])
  {
    var left := StripLeft(s);
    LeftIsSuffix(s);
    RightIsPrefix(left);
    a := |s| - |left|;
    b := a + |StripRight(left)|;
    forall i | 0 <= i < a
      ensures IsSpace(s[i])
    {
      LeftDropsSpace(s, i);
    }
    forall i | b <= i < |s|
      ensures IsSpace(s[i])
    {
      RightDropsSpace(left, i - a);
    }
  }

  ghost predicate IsBlank(s: string) {
    forall i :: 0 <= i < |s| ==> IsSpace(s[i])
  }

  lemma BlankExactly(s: string)
    ensures Strip(s) == "" <==> IsBlank(s)
  {
    var a, b := StripExactly(s);
    if a == b {
      assert forall i :: 0 <= i < |s| ==> IsSpace(s[i]);
    } else {
      assert !IsSpace(s[a]);
    }
  }

  /** `str.lower`, given the lower-case expansion of each single character. */
  function Lower(lower: char -> string, s: string): string {
    if s == "" then "" else lower(s[0]) + Lower(lower, s[1..])
  }

  /** `str.split()` scanning left to right; `word` is the field being read. */
  function Fields(s: string, word: string): seq<string> {
    if s == "" then (if word == "" then [] else [word])
    else if IsSpace(s[0]) then (if word == "" then [] else [word]) + Fields(s[1..], "")
    else Fields(s[1..], word + [s[0]])
  }

  function Join(sep: string, parts: seq<string>): string {
    if parts == [] then ""
    else if |parts| == 1 then parts[0]
    else parts[0] + sep + Join(sep, parts[1..])
  }

  /** The form in which two slot values are compared: lower case, single spaces. */
  function Norm(lower: char -> string, value: string): string {
    Join(" ", Fields(Lower(lower, value), ""))
  }
}
