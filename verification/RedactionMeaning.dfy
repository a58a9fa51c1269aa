/** What a replacement pass and the byte length mean, without following the program. */
module RedactionMeaning {
  import opened Redaction
  import opened Text

  // ----- a pass takes the leftmost occurrences out and puts placeholders in

  function Join(parts: seq<string>, separator: string): string
    requires parts != []
  {
    if |parts| == 1 then parts[0] else parts[0] + (separator + Join(parts[1..], separator))
  }

  /** The parts of a text between the leftmost occurrences of `s` that do not overlap: none starts
      before the end of a part, and the last part holds none. */
  ghost predicate LeftmostParts(parts: seq<string>, s: string) {
    && parts != []
    && (forall i | 0 <= i < |parts| - 1 :: !StartsBefore(parts[i] + s, s, |parts[i]|))
    && !Contains(parts[|parts| - 1], s)
  }

  lemma {:induction false} ReplacedParts(parts: seq<string>, s: string, p: string)
    requires s != [] && LeftmostParts(parts, s)
    ensures Replace(Join(parts, s), s, p) == Join(parts, p)
  {
    hide Replace;
    if |parts| == 1 {
      AbsentUnchanged(parts[0], s, p);
    } else {
      var first, rest := parts[0], parts[1..];
      ReplacedParts(rest, s, p);
      StartsAreInFront(first, s, Join(rest, s));
      SkipUnmatched(first, s + Join(rest, s), s, p);
      ReplaceMatched(s, Join(rest, s), p);
    }
  }

  lemma {:induction false} PartsOf(text: string, s: string) returns (parts: seq<string>)
    requires s != []
    ensures LeftmostParts(parts, s) && Join(parts, s) == text
    decreases |text|
  {
    if !Contains(text, s) {
      parts := [text];
    } else {
      var i := FirstOccurrence(text, s);
      var first, rest := text[..i], text[i + |s|..];
      var later := PartsOf(rest, s);
      parts := [first] + later;
      assert parts[1..] == later;
      assert text == first + (s + rest);
      NothingStartsEarlier(text, s, i);
    }
  }

  lemma FirstOccurrence(text: string, s: string) returns (i: nat)
    requires Contains(text, s)
    ensures OccursAt(text, s, i) && forall j: nat | j < i :: !OccursAt(text, s, j)
  {
    var known: nat :| known <= |text| && OccursAt(text, s, known);
    i := 0;
    while !OccursAt(text, s, i)
      invariant i <= known
      invariant forall j: nat | j < i :: !OccursAt(text, s, j)
      decreases known - i
    {
      i := i + 1;
    }
  }

  lemma NothingStartsEarlier(text: string, s: string, i: nat)
    requires OccursAt(text, s, i) && forall j: nat | j < i :: !OccursAt(text, s, j)
    ensures !StartsBefore(text[..i] + s, s, i)
  {
    var front, after := text[..i] + s, text[i + |s|..];
    assert text == "" + front + after;
    forall j: nat | j < i ensures !OccursAt(front, s, j) {
      if j + |s| <= |front| {
        LiesInPart("", front, after, s, j);
      }
    }
  }

  /** A pass replaces the leftmost occurrences and nothing else: however a text is cut into such parts,
      the result is those parts around placeholders, and every text can be cut so. */
  lemma PassReplacesLeftmost(text: string, s: string, p: string)
    requires s != []
    ensures exists parts :: LeftmostParts(parts, s) && Join(parts, s) == text
    ensures forall parts | LeftmostParts(parts, s) && Join(parts, s) == text :: Replace(text, s, p) == Join(parts, p)
  {
    var parts := PartsOf(text, s);
    forall parts | LeftmostParts(parts, s) && Join(parts, s) == text ensures Replace(text, s, p) == Join(parts, p) {
      ReplacedParts(parts, s, p);
    }
  }

  // ----- the byte length is that of the UTF-8 encoding

  /** The bytes of a character, section 3 of RFC 3629. */
  function Utf8(c: char): seq<int> {
    var n := c as nat;
    if n <= 0x7F then [n]
    else if n <= 0x7FF then [0xC0 + n / 64, 0x80 + n % 64]
    else if n <= 0xFFFF then [0xE0 + n / 4096, 0x80 + n / 64 % 64, 0x80 + n % 64]
    else [0xF0 + n / 262_144, 0x80 + n / 4096 % 64, 0x80 + n / 64 % 64, 0x80 + n % 64]
  }

  /** Reads one encoded character. */
  function Read(bytes: seq<int>): int {
    if |bytes| == 1 then bytes[0]
    else if |bytes| == 2 then 64 * (bytes[0] - 0xC0) + (bytes[1] - 0x80)
    else if |bytes| == 3 then 4096 * (bytes[0] - 0xE0) + 64 * (bytes[1] - 0x80) + (bytes[2] - 0x80)
    else if |bytes| == 4 then 262_144 * (bytes[0] - 0xF0) + 4096 * (bytes[1] - 0x80) + 64 * (bytes[2] - 0x80) + (bytes[3] - 0x80)
    else -1
  }

  lemma Utf8Reads(c: char)
    ensures |Utf8(c)| == Utf8Len(c) && Read(Utf8(c)) == c as int
    ensures forall b | b in Utf8(c) :: 0 <= b <= 0xFF
  {
    var n := c as nat;
    assert n == 64 * (n / 64) + n % 64;
    assert n / 64 == 64 * (n / 4096) + n / 64 % 64;
    assert n / 4096 == 64 * (n / 262_144) + n / 4096 % 64;
  }

  function Utf8Text(s: string): seq<int> {
    if s == [] then [] else Utf8(s[0]) + Utf8Text(s[1..])
  }

  /** The length secrets are measured by is the number of bytes of their UTF-8 encoding, from which each
      character can be read back. */
  lemma {:induction false} ByteLenIsUtf8(s: string)
    ensures ByteLen(s) == |Utf8Text(s)|
    ensures forall c | c in s :: Read(Utf8(c)) == c as int
  {
    if s != [] {
      ByteLenIsUtf8(s[1..]);
      Utf8Reads(s[0]);
      assert s == [s[0]] + s[1..];
    }
  }
}
