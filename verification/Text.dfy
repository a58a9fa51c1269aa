/** The string operations the program borrows from its standard library: ASCII case folding,
    trimming, and substring search. Strings are sequences of Unicode scalar values. */
module Text {

  function LowerChar(c: char): char {
    if 'A' <= c <= 'Z' then c + 32 as char else c
  }

  function Lower(s: string): (lower: string)
    ensures |lower| == |s|
  {
    seq(|s|, i requires 0 <= i < |s| => LowerChar(s[i]))
  }

  predicate EqualsIgnoringCase(a: string, b: string) {
    Lower(a) == Lower(b)
  }

  /** Unicode White_Space, which is what trimming removes. */
  predicate IsWhitespace(c: char) {
    || '\U{0009}' <= c <= '\U{000D}'
    || '\U{2000}' <= c <= '\U{200A}'
    || c in {' ', '\U{0085}', '\U{00A0}', '\U{1680}', '\U{2028}', '\U{2029}', '\U{202F}', '\U{205F}', '\U{3000}'}
  }

  function TrimStart(s: string): (rest: string)
    ensures rest == [] || !IsWhitespace(rest[0])
  {
    if s != [] && IsWhitespace(s[0]) then TrimStart(s[1..]) else s
  }

  function TrimEnd(s: string): (rest: string)
    ensures rest <= s
    ensures rest == [] || !IsWhitespace(rest[|rest| - 1])
  {
    if s != [] && IsWhitespace(s[|s| - 1]) then TrimEnd(s[..|s| - 1]) else s
  }

  function Trim(s: string): string {
    TrimEnd(TrimStart(s))
  }

  predicate StartsWith(s: string, prefix: string) {
    prefix <= s
  }

  /** `pattern` occurs in `s` at position `i`. */
  predicate OccursAt(s: string, pattern: string, i: int) {
    0 <= i && i + |pattern| <= |s| && s[i..i + |pattern|] == pattern
  }

  predicate Contains(s: string, pattern: string) {
    exists i | 0 <= i <= |s| :: OccursAt(s, pattern, i)
  }

  /** A string with no white space at either end is what trimming leaves alone. */
  lemma TrimFixpoint(s: string)
    requires s == [] || (!IsWhitespace(s[0]) && !IsWhitespace(s[|s| - 1]))
    ensures Trim(s) == s
  {
  }

  lemma LowerKeepsWhitespace(c: char)
    ensures IsWhitespace(LowerChar(c)) == IsWhitespace(c)
    ensures LowerChar(LowerChar(c)) == LowerChar(c)
  {
  }

  lemma TrimEnds(s: string)
    ensures var t := Trim(s); t == [] || (!IsWhitespace(t[0]) && !IsWhitespace(t[|t| - 1]))
  {
    assert TrimEnd(TrimStart(s)) <= TrimStart(s);
  }

  /** Trimming and then folding case is idempotent. */
  lemma NormaliseIdempotent(s: string)
    ensures Lower(Trim(Lower(Trim(s)))) == Lower(Trim(s))
  {
    var t := Trim(s);
    TrimEnds(s);
    if t != [] {
      LowerKeepsWhitespace(t[0]);
      LowerKeepsWhitespace(t[|t| - 1]);
    }
    TrimFixpoint(Lower(t));
    forall i | 0 <= i < |t| ensures LowerChar(LowerChar(t[i])) == LowerChar(t[i]) {
      LowerKeepsWhitespace(t[i]);
    }
  }

  // ----- occurrences

  lemma LiesInPart(a: string, b: string, c: string, s: string, i: int)
    requires |a| <= i && i + |s| <= |a| + |b|
    ensures OccursAt(a + b + c, s, i) <==> OccursAt(b, s, i - |a|)
  {
    assert (a + b + c)[i..i + |s|] == b[i - |a|..i - |a| + |s|];
  }

  lemma OccursInPart(a: string, b: string, c: string, s: string)
    requires Contains(b, s)
    ensures Contains(a + b + c, s)
  {
    var i :| 0 <= i <= |b| && OccursAt(b, s, i);
    LiesInPart(a, b, c, s, |a| + i);
    assert OccursAt(a + b + c, s, |a| + i);
  }

  lemma AbsentFromPart(a: string, b: string, c: string, s: string)
    requires !Contains(a + b + c, s)
    ensures !Contains(b, s)
  {
    if Contains(b, s) {
      OccursInPart(a, b, c, s);
    }
  }

  lemma ContainsItself(s: string)
    ensures Contains(s, s)
  {
    assert OccursAt(s, s, 0);
  }

  lemma ContainsTransitive(a: string, b: string, c: string)
    requires Contains(a, b) && Contains(b, c)
    ensures Contains(a, c)
  {
    var i :| 0 <= i <= |a| && OccursAt(a, b, i);
    assert a == a[..i] + b + a[i + |b|..];
    OccursInPart(a[..i], b, a[i + |b|..], c);
  }

  lemma LowerJoins(a: string, b: string)
    ensures Lower(a + b) == Lower(a) + Lower(b)
  {
  }

  // ----- what trimming and case folding mean

  /** White space is the twenty-five characters with the Unicode property White_Space. */
  lemma WhiteSpaceCodes(c: char)
    ensures IsWhitespace(c) <==>
              c as int in {0x09, 0x0A, 0x0B, 0x0C, 0x0D, 0x20, 0x85, 0xA0, 0x1680, 0x2000, 0x2001, 0x2002, 0x2003, 0x2004,
                           0x2005, 0x2006, 0x2007, 0x2008, 0x2009, 0x200A, 0x2028, 0x2029, 0x202F, 0x205F, 0x3000}
  {
  }

  predicate Blank(s: string) {
    forall c | c in s :: IsWhitespace(c)
  }

  predicate Trimmed(s: string) {
    s == [] || (!IsWhitespace(s[0]) && !IsWhitespace(s[|s| - 1]))
  }

  lemma {:induction false} TrimStartPart(s: string) returns (before: string)
    ensures Blank(before) && s == before + TrimStart(s)
  {
    if s != [] && IsWhitespace(s[0]) {
      var rest := TrimStartPart(s[1..]);
      before := [s[0]] + rest;
      assert s == [s[0]] + s[1..];
    } else {
      before := "";
    }
  }

  lemma {:induction false} TrimEndPart(s: string) returns (after: string)
    ensures Blank(after) && s == TrimEnd(s) + after
  {
    if s != [] && IsWhitespace(s[|s| - 1]) {
      var rest := TrimEndPart(s[..|s| - 1]);
      after := rest + [s[|s| - 1]];
      assert s == s[..|s| - 1] + [s[|s| - 1]];
    } else {
      after := "";
    }
  }

  lemma {:induction false} TrimStartDrops(before: string, s: string)
    requires Blank(before) && (s == [] || !IsWhitespace(s[0]))
    ensures TrimStart(before + s) == s
  {
    if before == [] {
      assert before + s == s;
    } else {
      assert before[0] in before && (before + s)[1..] == before[1..] + s;
      TrimStartDrops(before[1..], s);
    }
  }

  lemma {:induction false} TrimEndDrops(s: string, after: string)
    requires Blank(after) && (s == [] || !IsWhitespace(s[|s| - 1]))
    ensures TrimEnd(s + after) == s
  {
    if after == [] {
      assert s + after == s;
    } else {
      var last := after[|after| - 1];
      assert last in after && (s + after)[..|s + after| - 1] == s + after[..|after| - 1];
      TrimEndDrops(s, after[..|after| - 1]);
    }
  }

  /** What trimming takes off: white space on either side, and all of it. */
  lemma TrimParts(s: string) returns (before: string, after: string)
    ensures Blank(before) && Blank(after) && s == before + Trim(s) + after && Trimmed(Trim(s))
  {
    before := TrimStartPart(s);
    after := TrimEndPart(TrimStart(s));
    TrimEnds(s);
    assert s == before + (Trim(s) + after);
  }

  /** Nothing else is taken off. */
  lemma TrimIs(before: string, core: string, after: string)
    requires Blank(before) && Blank(after) && Trimmed(core)
    ensures Trim(before + core + after) == core
  {
    if core == [] {
      assert before + core + after == (before + after) + [];
      TrimStartDrops(before + after, []);
    } else {
      assert before + core + after == before + (core + after);
      TrimStartDrops(before, core + after);
      TrimEndDrops(core, after);
    }
  }

  /** The same character, or the same ASCII letter in the other case. */
  predicate SameLetter(a: char, b: char) {
    || a == b
    || ('A' <= a <= 'Z' && b as int == a as int + 32)
    || ('A' <= b <= 'Z' && a as int == b as int + 32)
  }

  predicate SameLetters(a: string, b: string) {
    |a| == |b| && forall i | 0 <= i < |a| :: SameLetter(a[i], b[i])
  }

  /** Folding makes equal exactly the strings that differ in letter case only. */
  lemma FoldsTogetherExactly(a: string, b: string)
    ensures EqualsIgnoringCase(a, b) <==> SameLetters(a, b)
  {
    if EqualsIgnoringCase(a, b) {
      forall i | 0 <= i < |a| ensures SameLetter(a[i], b[i]) {
        assert Lower(a)[i] == LowerChar(a[i]) && Lower(b)[i] == LowerChar(b[i]);
      }
    }
    if SameLetters(a, b) {
      assert forall i | 0 <= i < |a| :: SameLetter(a[i], b[i]) && Lower(a)[i] == Lower(b)[i];
      assert Lower(a) == Lower(b);
    }
  }
}
