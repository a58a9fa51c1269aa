/** Scrubbing registered secrets from text: one leftmost, non-overlapping replacement pass per
    secret, longest secret first. */
module Redaction {
  import opened Text

  /** What a secret becomes: the word `redacted` between angle quotation marks. */
  const PLACEHOLDER := "\U{00AB}redacted\U{00BB}"

  const MIN_SECRET_LEN := 4

  /** The length of a string in UTF-8, which is how the program measures secrets. */
  function ByteLen(s: string): (n: nat)
    ensures |s| <= n
  {
    if s == [] then 0 else Utf8Len(s[0]) + ByteLen(s[1..])
  }

  function Utf8Len(c: char): nat {
    if c < '\U{0080}' then 1 else if c < '\U{0800}' then 2 else if c < '\U{10000}' then 3 else 4
  }

  /** Every non-overlapping occurrence of `secret`, found left to right, becomes `p`. Everything
      below holds for any placeholder `p`; the program uses the one above. */
  function Replace(text: string, secret: string, p: string): string
    requires secret != []
  {
    if |text| < |secret| then text
    else if secret <= text then p + Replace(text[|secret|..], secret, p)
    else [text[0]] + Replace(text[1..], secret, p)
  }

  /** One pass per secret, in list order. */
  function RedactWith(text: string, secrets: seq<string>, p: string): string
    requires [] !in secrets
    decreases |secrets|
  {
    if secrets == [] then text
    else
      assert secrets[0] in secrets;
      RedactWith(Replace(text, secrets[0], p), secrets[1..], p)
  }

  predicate LeaksNothing(text: string, secrets: seq<string>) {
    forall s | s in secrets :: !Contains(text, s)
  }

  // ----- the registry

  /** A stable sort by decreasing byte length. */
  function SortLongestFirst(secrets: seq<string>): seq<string> {
    if secrets == [] then []
    else InsertShorter(SortLongestFirst(secrets[..|secrets| - 1]), secrets[|secrets| - 1])
  }

  /** Puts `s` after everything at least as long as it. */
  function InsertShorter(sorted: seq<string>, s: string): seq<string> {
    if sorted == [] || ByteLen(sorted[0]) < ByteLen(s) then [s] + sorted
    else [sorted[0]] + InsertShorter(sorted[1..], s)
  }

  predicate LongestFirst(secrets: seq<string>) {
    forall i, j | 0 <= i < j < |secrets| :: ByteLen(secrets[j]) <= ByteLen(secrets[i])
  }

  predicate Distinct(secrets: seq<string>) {
    forall i, j | 0 <= i < j < |secrets| :: secrets[i] != secrets[j]
  }

  predicate WellKept(secrets: seq<string>) {
    && LongestFirst(secrets) && Distinct(secrets)
    && forall s | s in secrets :: MIN_SECRET_LEN <= ByteLen(s)
  }

  lemma {:induction false} InsertShorterMembers(sorted: seq<string>, s: string)
    ensures forall x :: x in InsertShorter(sorted, s) <==> x == s || x in sorted
    ensures |InsertShorter(sorted, s)| == |sorted| + 1
  {
    if sorted != [] && ByteLen(s) <= ByteLen(sorted[0]) {
      InsertShorterMembers(sorted[1..], s);
      assert sorted == [sorted[0]] + sorted[1..];
    }
  }

  lemma {:induction false} InsertShorterSorts(sorted: seq<string>, s: string)
    requires LongestFirst(sorted)
    ensures LongestFirst(InsertShorter(sorted, s))
  {
    if sorted != [] && ByteLen(s) <= ByteLen(sorted[0]) {
      var rest := InsertShorter(sorted[1..], s);
      InsertShorterSorts(sorted[1..], s);
      InsertShorterMembers(sorted[1..], s);
      forall k | 0 <= k < |rest| ensures ByteLen(rest[k]) <= ByteLen(sorted[0]) {
        assert rest[k] in rest;
      }
    }
  }

  lemma {:induction false} InsertShorterDistinct(sorted: seq<string>, s: string)
    requires Distinct(sorted) && s !in sorted
    ensures Distinct(InsertShorter(sorted, s))
  {
    if sorted != [] && ByteLen(s) <= ByteLen(sorted[0]) {
      var rest := InsertShorter(sorted[1..], s);
      InsertShorterDistinct(sorted[1..], s);
      InsertShorterMembers(sorted[1..], s);
      assert sorted[0] !in sorted[1..];
      assert sorted[0] !in rest;
    }
  }

  /** Sorting an already sorted list with one secret appended only inserts that secret. */
  lemma {:induction false} SortedStays(sorted: seq<string>)
    requires LongestFirst(sorted)
    ensures SortLongestFirst(sorted) == sorted
  {
    if sorted != [] {
      var front, last := sorted[..|sorted| - 1], sorted[|sorted| - 1];
      assert sorted == front + [last];
      assert SortLongestFirst(front) == front by {
        SortedStays(front);
      }
      InsertLast(front, last);
    }
  }

  lemma {:induction false} InsertLast(front: seq<string>, last: string)
    requires LongestFirst(front + [last])
    ensures InsertShorter(front, last) == front + [last]
  {
    if front != [] {
      assert (front + [last])[0] == front[0] && (front + [last])[|front|] == last;
      assert (front + [last])[1..] == front[1..] + [last];
      InsertLast(front[1..], last);
    }
  }

  class Redactor {
    var secrets: seq<string>

    constructor ()
      ensures secrets == [] && WellKept(secrets)
    {
      secrets := [];
    }

    /** Keeps the list free of duplicates, longest first, and above the minimum length; a secret is
        added exactly when it is long enough and new. */
    method Register(secret: string) returns (added: bool)
      requires WellKept(secrets)
      modifies this
      ensures WellKept(secrets)
      ensures added <==> 4 <= ByteLen(secret) && secret !in old(secrets)
      ensures added ==> |secrets| == old(|secrets|) + 1 && forall x :: x in secrets <==> x == secret || x in old(secrets)
      ensures added ==> secrets == InsertShorter(old(secrets), secret)
      ensures !added ==> secrets == old(secrets)
    {
      if ByteLen(secret) < MIN_SECRET_LEN || secret in secrets {
        return false;
      }
      secrets := secrets + [secret];
      secrets := SortLongestFirst(secrets);
      SortedStays(old(secrets));
      assert (old(secrets) + [secret])[..|old(secrets)|] == old(secrets);
      InsertShorterMembers(old(secrets), secret);
      InsertShorterSorts(old(secrets), secret);
      InsertShorterDistinct(old(secrets), secret);
      return true;
    }

    method RegisterAll(candidates: seq<string>)
      requires WellKept(secrets)
      modifies this
      ensures WellKept(secrets)
      ensures forall x :: x in secrets <==> x in old(secrets) || (x in candidates && 4 <= ByteLen(x))
    {
      for i := 0 to |candidates|
        invariant WellKept(secrets)
        invariant forall x :: x in secrets <==> x in old(secrets) || (x in candidates[..i] && MIN_SECRET_LEN <= ByteLen(x))
      {
        var added := Register(candidates[i]);
        assert candidates[..i + 1] == candidates[..i] + [candidates[i]];
      }
      assert candidates[..|candidates|] == candidates;
    }

    method Redact(text: string) returns (out: string)
      requires WellKept(secrets)
      ensures [] !in secrets && out == RedactWith(text, secrets, PLACEHOLDER)
      ensures LeaksNothing(text, secrets) ==> out == text
    {
      out := text;
      for i := 0 to |secrets|
        invariant [] !in secrets[i..]
        invariant RedactWith(out, secrets[i..], PLACEHOLDER) == RedactWith(text, secrets, PLACEHOLDER)
        invariant LeaksNothing(text, secrets) ==> out == text
      {
        var secret := secrets[i];
        assert secret in secrets && secret in secrets[i..];
        assert secrets[i..][1..] == secrets[i + 1..];
        if Contains(out, secret) {
          out := Replace(out, secret, PLACEHOLDER);
        } else {
          AbsentUnchanged(out, secret, PLACEHOLDER);
        }
      }
    }
  }

  // ----- occurrences

  lemma {:induction false} AbsentUnchanged(text: string, secret: string, p: string)
    requires secret != [] && !Contains(text, secret)
    ensures Replace(text, secret, p) == text
  {
    if |secret| <= |text| {
      assert !OccursAt(text, secret, 0);
      assert [text[0]] + text[1..] + "" == text;
      AbsentFromPart([text[0]], text[1..], "", secret);
      AbsentUnchanged(text[1..], secret, p);
    }
  }

  // ----- how a secret can straddle the edge of a placeholder

  /** `s` begins with an end of `p` and runs past it. */
  predicate RunsPastEnd(p: string, s: string) {
    exists k | 0 < k < |s| && k <= |p| :: s[..k] == p[|p| - k..]
  }

  /** `p` begins `k` characters into `s`, as far as the shorter of them goes. */
  predicate RunsInto(p: string, s: string, k: int) {
    0 < k < |s| && (s[k..] <= p || p <= s[k..])
  }

  predicate Straddles(p: string, s: string) {
    RunsPastEnd(p, s) || exists k | 0 < k < |s| :: RunsInto(p, s, k)
  }

  /** Where an occurrence in `a + p + b` can lie. */
  lemma AroundMiddle(a: string, p: string, b: string, s: string, i: int)
    requires s != [] && OccursAt(a + p + b, s, i)
    ensures || (i + |s| <= |a| && OccursAt(a, s, i))
            || (|a| + |p| <= i && OccursAt(b, s, i - |a| - |p|))
            || (|a| <= i && Contains(p, s))
            || (|a| <= i && RunsPastEnd(p, s))
            || (i < |a| && RunsInto(p, s, |a| - i) && s[..|a| - i] == a[i..])
  {
    if i + |s| <= |a| {
      LiesInPart("", a, p + b, s, i);
      assert "" + a + (p + b) == a + p + b;
    } else if |a| + |p| <= i {
      LiesInPart(a + p, b, "", s, i);
      assert a + p + b + "" == a + p + b;
    } else if |a| <= i {
      StartsInMiddle(a, p, b, s, i);
    } else {
      StartsBeforeMiddle(a, p, b, s, i);
    }
  }

  lemma StartsInMiddle(a: string, p: string, b: string, s: string, i: int)
    requires s != [] && OccursAt(a + p + b, s, i) && |a| <= i < |a| + |p|
    ensures Contains(p, s) || RunsPastEnd(p, s)
  {
    var whole, at := a + p + b, i - |a|;
    CharacterOf(whole, s, i);
    if at + |s| <= |p| {
      forall j | 0 <= j < |s| ensures s[j] == p[at + j] {
        assert s[j] == whole[i + j];
      }
      assert p[at..at + |s|] == s;
      assert OccursAt(p, s, at);
    } else {
      var k := |p| - at;
      forall j | 0 <= j < k ensures s[j] == p[at + j] {
        assert s[j] == whole[i + j];
      }
      assert s[..k] == p[|p| - k..];
    }
  }

  lemma StartsBeforeMiddle(a: string, p: string, b: string, s: string, i: int)
    requires OccursAt(a + p + b, s, i) && i < |a| < i + |s|
    ensures RunsInto(p, s, |a| - i) && s[..|a| - i] == a[i..]
  {
    var whole, k := a + p + b, |a| - i;
    CharacterOf(whole, s, i);
    forall j | 0 <= j < k ensures s[j] == a[i + j] {
      assert s[j] == whole[i + j];
    }
    assert s[..k] == a[i..];
    forall j | 0 <= j < |s| - k && j < |p| ensures s[k..][j] == p[j] {
      assert s[k + j] == whole[i + k + j];
    }
    if |s| - k <= |p| {
      assert s[k..] == p[..|s| - k];
    } else {
      assert s[k..][..|p|] == p;
    }
  }

  lemma CharacterOf(text: string, s: string, i: int)
    requires OccursAt(text, s, i)
    ensures 0 <= i && i + |s| <= |text| && forall j | 0 <= j < |s| :: s[j] == text[i + j]
  {
    assert text[i..i + |s|] == s;
  }

  /** No straddling and not part of the placeholder: then joining around one creates no occurrence. */
  lemma NoOccurrenceAcross(a: string, b: string, s: string, p: string)
    requires s != [] && !Straddles(p, s) && !Contains(p, s)
    requires !Contains(a, s) && !Contains(b, s)
    ensures !Contains(a + p + b, s)
  {
    if Contains(a + p + b, s) {
      var i :| OccursAt(a + p + b, s, i);
      AroundMiddle(a, p, b, s, i);
    }
  }

  // ----- the steps of one pass

  lemma Regroup(x: string, y: string, z: string)
    ensures x + (y + z) == x + y + z
  {
  }

  lemma ReplaceShort(text: string, s: string, p: string)
    requires |text| < |s|
    ensures Replace(text, s, p) == text
  {
  }

  lemma ReplaceMatched(s: string, rest: string, p: string)
    requires s != []
    ensures Replace(s + rest, s, p) == p + Replace(rest, s, p)
  {
    assert (s + rest)[|s|..] == rest;
  }

  lemma ReplaceStep(c: char, text: string, s: string, p: string)
    requires s != [] && !(s <= [c] + text)
    ensures Replace([c] + text, s, p) == [c] + Replace(text, s, p)
  {
    assert ([c] + text)[1..] == text;
  }

  // ----- one pass

  /** A pass for one secret brings back no other secret that was absent before it. */
  lemma {:induction false} PassReintroducesNothing(u: string, text: string, secret: string, other: string, p: string)
    requires secret != [] && other != [] && !Straddles(p, other) && !Contains(p, other)
    requires !Contains(u + text, other)
    ensures !Contains(u + Replace(text, secret, p), other)
    decreases |text|
  {
    hide Replace, Straddles, Contains;
    if |text| < |secret| {
      ReplaceShort(text, secret, p);
    } else if secret <= text {
      var rest := text[|secret|..];
      assert text == secret + rest && "" + rest == rest;
      ReplaceMatched(secret, rest, p);
      EndsAreAbsent(u, secret, rest, other);
      PassReintroducesNothing("", rest, secret, other, p);
      var after := Replace(rest, secret, p);
      assert "" + after == after;
      NoOccurrenceAcross(u, after, other, p);
      Regroup(u, p, after);
    } else {
      var c, rest := text[0], text[1..];
      assert text == [c] + rest;
      ReplaceStep(c, rest, secret, p);
      Regroup(u, [c], rest);
      PassReintroducesNothing(u + [c], rest, secret, other, p);
      Regroup(u, [c], Replace(rest, secret, p));
    }
  }

  lemma EndsAreAbsent(a: string, b: string, c: string, s: string)
    requires !Contains(a + (b + c), s)
    ensures !Contains(a, s) && !Contains(c, s)
  {
    hide Contains;
    assert "" + a + (b + c) == a + (b + c) && (a + b) + c + "" == a + (b + c);
    AbsentFromPart("", a, b + c, s);
    AbsentFromPart(a + b, c, "", s);
  }

  ghost predicate StartsBefore(text: string, s: string, n: int) {
    exists i :: i < n && OccursAt(text, s, i)
  }

  /** The one way left for a secret to survive its own pass: it runs into a placeholder, and no
      earlier occurrence would have been replaced first. */
  ghost predicate SurvivesBeforeItself(p: string, s: string, k: int) {
    RunsInto(p, s, k) && !StartsBefore(s[..k] + s, s, k)
  }

  ghost predicate SurvivesOwnPass(p: string, s: string) {
    Contains(p, s) || RunsPastEnd(p, s) || exists k | 0 < k < |s| :: SurvivesBeforeItself(p, s, k)
  }

  lemma NoMatchAtHead(u: string, text: string, s: string)
    requires !StartsBefore(u + text, s, |u|) && !(s <= text)
    ensures !StartsBefore(u + text, s, |u| + 1)
  {
    forall i | i < |u| + 1 ensures !OccursAt(u + text, s, i) {
      if i == |u| && |u| + |s| <= |u + text| {
        assert (u + text)[|u|..|u| + |s|] == text[..|s|];
      }
    }
  }

  /** An occurrence before the end of `s[..k] + s` is an occurrence before the end of `u`, when `u`
      ends with `s[..k]`. */
  lemma EarlierStart(u: string, s: string, rest: string, i: int, k: int, j: int)
    requires 0 <= i && i + k == |u| && 0 < k < |s| && s[..k] == u[i..]
    requires j < k && OccursAt(s[..k] + s, s, j)
    ensures StartsBefore(u + (s + rest), s, |u|)
  {
    var all := u + (s + rest);
    assert all[i + j..i + j + |s|] == (s[..k] + s)[j..j + |s|];
    assert OccursAt(all, s, i + j);
  }

  lemma EarlierInPrefix(u: string, s: string, rest: string, i: int)
    requires s != [] && OccursAt(u, s, i)
    ensures StartsBefore(u + rest, s, |u|)
  {
    assert (u + rest)[i..i + |s|] == u[i..i + |s|];
    assert OccursAt(u + rest, s, i);
  }

  lemma {:induction false} PassRemovesSecret(u: string, text: string, s: string, p: string)
    requires s != [] && !SurvivesOwnPass(p, s)
    requires !StartsBefore(u + text, s, |u|)
    ensures !Contains(u + Replace(text, s, p), s)
    decreases |text|
  {
    hide Replace;
    if |text| < |s| {
      ReplaceShort(text, s, p);
      NoStartNoOccurrence(u, text, s);
    } else if s <= text {
      var rest := text[|s|..];
      assert text == s + rest && "" + rest == rest;
      ReplaceMatched(s, rest, p);
      PassRemovesSecret("", rest, s, p);
      var after := Replace(rest, s, p);
      assert "" + after == after;
      NotAroundOwnPlaceholder(u, rest, s, p);
      Regroup(u, p, after);
    } else {
      var c, rest := text[0], text[1..];
      assert text == [c] + rest;
      ReplaceStep(c, rest, s, p);
      NoMatchAtHead(u, text, s);
      Regroup(u, [c], rest);
      PassRemovesSecret(u + [c], rest, s, p);
      Regroup(u, [c], Replace(rest, s, p));
    }
  }

  lemma NoStartNoOccurrence(u: string, text: string, s: string)
    requires |text| < |s| && !StartsBefore(u + text, s, |u|)
    ensures !Contains(u + text, s)
  {
  }

  lemma NotAroundOwnPlaceholder(u: string, rest: string, s: string, p: string)
    requires s != [] && !SurvivesOwnPass(p, s)
    requires !StartsBefore(u + (s + rest), s, |u|) && !Contains(Replace(rest, s, p), s)
    ensures !Contains(u + p + Replace(rest, s, p), s)
  {
    var whole := u + p + Replace(rest, s, p);
    if Contains(whole, s) {
      var i :| OccursAt(whole, s, i);
      AroundMiddle(u, p, Replace(rest, s, p), s, i);
      if i + |s| <= |u| {
        EarlierInPrefix(u, s, s + rest, i);
      } else if i < |u| {
        var k := |u| - i;
        assert !SurvivesBeforeItself(p, s, k);
        var j :| j < k && OccursAt(s[..k] + s, s, j);
        EarlierStart(u, s, rest, i, k, j);
      }
    }
  }

  // ----- exactly which secrets one pass removes

  lemma DropUnmatched(c: char, text: string, s: string, n: nat)
    requires s != [] && 0 < n && !StartsBefore([c] + text, s, n)
    ensures !StartsBefore(text, s, n - 1) && !(s <= [c] + text)
  {
    var whole := [c] + text;
    forall i | i < n - 1 ensures !OccursAt(text, s, i) {
      if 0 <= i && i + |s| <= |text| {
        assert whole[i + 1..i + 1 + |s|] == text[i..i + |s|];
        assert !OccursAt(whole, s, i + 1);
      }
    }
    assert !OccursAt(whole, s, 0);
  }

  /** What precedes every occurrence is copied. */
  lemma {:induction false} SkipUnmatched(x: string, text: string, s: string, p: string)
    requires s != [] && !StartsBefore(x + text, s, |x|)
    ensures Replace(x + text, s, p) == x + Replace(text, s, p)
  {
    if x == [] {
      assert x + text == text;
    } else {
      var c, y := x[0], x[1..];
      assert x + text == [c] + (y + text);
      DropUnmatched(c, y + text, s, |x|);
      SkipUnmatched(y, text, s, p);
      SkipOne(c, y, text, s, p);
      assert [c] + y == x;
    }
  }

  lemma SkipOne(c: char, y: string, text: string, s: string, p: string)
    requires s != [] && !(s <= [c] + (y + text)) && Replace(y + text, s, p) == y + Replace(text, s, p)
    ensures Replace([c] + (y + text), s, p) == ([c] + y) + Replace(text, s, p)
  {
    ReplaceStep(c, y + text, s, p);
    assert [c] + (y + Replace(text, s, p)) == ([c] + y) + Replace(text, s, p);
  }

  lemma ReplaceHead(s: string, tail: string, p: string)
    requires |tail| < |s|
    ensures Replace(s + tail, s, p) == p + tail
  {
    assert (s + tail)[|s|..] == tail;
  }

  /** Texts whose redaction still holds the secret, one for each way of surviving. */
  lemma PartWitness(s: string, p: string)
    requires s != [] && Contains(p, s)
    ensures Contains(Replace(s, s, p), s)
  {
    assert s[|s|..] == [];
    assert Replace(s, s, p) == p;
  }

  /** If `p` ends with the first `k` characters of `s`, then `p` and the rest of `s` end with `s`. */
  lemma JoinHolds(p: string, s: string, k: int)
    requires 0 <= k <= |s| && k <= |p| && s[..k] == p[|p| - k..]
    ensures Contains(p + s[k..], s)
  {
    var before := p[..|p| - k];
    assert p + s[k..] == before + s + "";
    ContainsItself(s);
    OccursInPart(before, s, "", s);
  }

  lemma PastEndWitness(s: string, k: int, p: string)
    requires 0 < k < |s| && k <= |p| && s[..k] == p[|p| - k..]
    ensures Contains(Replace(s + s[k..], s, p), s)
  {
    ReplaceHead(s, s[k..], p);
    JoinHolds(p, s, k);
  }

  lemma RunsIntoWitness(s: string, k: int, p: string) returns (text: string)
    requires SurvivesBeforeItself(p, s, k)
    ensures Contains(Replace(text, s, p), s)
  {
    hide Replace;
    var tail := if k + |p| <= |s| then s[k + |p|..] else "";
    text := s[..k] + (s + tail);
    StartsAreInFront(s[..k], s, tail);
    SkipUnmatched(s[..k], s + tail, s, p);
    ReplaceHead(s, tail, p);
    FrontHolds(s, k, p, tail);
  }

  lemma FrontHolds(s: string, k: int, p: string, tail: string)
    requires RunsInto(p, s, k) && tail == if k + |p| <= |s| then s[k + |p|..] else ""
    ensures Contains(s[..k] + (p + tail), s)
  {
    var out := s[..k] + (p + tail);
    forall j | k <= j < |s| && j < k + |p| ensures p[j - k] == s[j] {
      assert s[k..][j - k] == s[j];
    }
    forall j | 0 <= j < |s| ensures out[j] == s[j] {
    }
    assert out[..|s|] == s;
    assert OccursAt(out, s, 0);
  }

  lemma StartsAreInFront(x: string, s: string, tail: string)
    requires !StartsBefore(x + s, s, |x|)
    ensures !StartsBefore(x + (s + tail), s, |x|)
  {
    forall i | 0 <= i < |x| ensures !OccursAt(x + (s + tail), s, i) {
      assert (x + (s + tail))[i..i + |s|] == (x + s)[i..i + |s|];
      assert !OccursAt(x + s, s, i);
    }
  }

  /** The pass for `s` leaves no copy of it in this text. */
  predicate RemovedFrom(text: string, s: string, p: string)
    requires s != []
  {
    !Contains(Replace(text, s, p), s)
  }

  lemma SurvivorWitness(s: string, p: string) returns (text: string)
    requires s != [] && SurvivesOwnPass(p, s)
    ensures !RemovedFrom(text, s, p)
  {
    if Contains(p, s) {
      text := s;
      PartWitness(s, p);
    } else if RunsPastEnd(p, s) {
      var k :| 0 < k < |s| && k <= |p| && s[..k] == p[|p| - k..];
      text := s + s[k..];
      PastEndWitness(s, k, p);
    } else {
      var k :| 0 < k < |s| && SurvivesBeforeItself(p, s, k);
      text := RunsIntoWitness(s, k, p);
    }
  }

  /** For a single secret the guarantee is exact: its pass leaves no copy in any text, if and only if
      the secret is not part of the placeholder, does not begin with an end of it, and does not run
      into it past every earlier copy of itself. */
  lemma OneSecretExactly(s: string, p: string)
    requires s != []
    ensures (forall text :: RemovedFrom(text, s, p)) <==> !SurvivesOwnPass(p, s)
  {
    if SurvivesOwnPass(p, s) {
      var text := SurvivorWitness(s, p);
    } else {
      forall text ensures RemovedFrom(text, s, p) {
        assert "" + text == text && "" + Replace(text, s, p) == Replace(text, s, p);
        PassRemovesSecret("", text, s, p);
      }
    }
  }

  // ----- all the passes

  lemma {:induction false} AbsentStaysAbsent(text: string, secrets: seq<string>, s: string, p: string)
    requires [] !in secrets
    requires s != [] && !Straddles(p, s) && !Contains(p, s) && !Contains(text, s)
    ensures !Contains(RedactWith(text, secrets, p), s)
    decreases |secrets|
  {
    if secrets != [] {
      assert secrets[0] in secrets;
      assert "" + text == text && "" + Replace(text, secrets[0], p) == Replace(text, secrets[0], p);
      PassReintroducesNothing("", text, secrets[0], s, p);
      AbsentStaysAbsent(Replace(text, secrets[0], p), secrets[1..], s, p);
    }
  }

  predicate Scrubbable(p: string, s: string) {
    s != [] && !Straddles(p, s) && !Contains(p, s)
  }

  /** When no secret straddles or lies inside the placeholder, no text keeps any of them. */
  lemma {:induction false} RedactRemovesEverySecret(text: string, secrets: seq<string>, p: string)
    requires forall s | s in secrets :: Scrubbable(p, s)
    ensures [] !in secrets && LeaksNothing(RedactWith(text, secrets, p), secrets)
    decreases |secrets|
  {
    if secrets != [] {
      var first, rest := secrets[0], secrets[1..];
      assert first in secrets && secrets == [first] + rest;
      assert "" + text == text && "" + Replace(text, first, p) == Replace(text, first, p);
      PassRemovesSecret("", text, first, p);
      RedactRemovesEverySecret(Replace(text, first, p), rest, p);
      AbsentStaysAbsent(Replace(text, first, p), rest, first, p);
    }
  }

  lemma {:induction false} CleanTextUnchanged(text: string, secrets: seq<string>, p: string)
    requires [] !in secrets && LeaksNothing(text, secrets)
    ensures RedactWith(text, secrets, p) == text
    decreases |secrets|
  {
    if secrets != [] {
      assert secrets[0] in secrets;
      AbsentUnchanged(text, secrets[0], p);
      CleanTextUnchanged(text, secrets[1..], p);
    }
  }

  lemma {:induction false} LastPassIsLast(text: string, front: seq<string>, last: string, p: string)
    requires [] !in front && last != []
    ensures [] !in front + [last] && RedactWith(text, front + [last], p) == Replace(RedactWith(text, front, p), last, p)
    decreases |front|
  {
    var all := front + [last];
    assert [] !in all;
    if front == [] {
      assert all == [last] && all[1..] == [];
    } else {
      assert front[0] in front && all[0] == front[0] && all[1..] == front[1..] + [last];
      LastPassIsLast(Replace(text, front[0], p), front[1..], last, p);
    }
  }

  /** With several secrets of which the last may straddle or be part of the placeholder: redaction
      leaves no secret in any text if and only if the last pass removes its own secret from every text
      that holds none of the others. Those texts are exactly what the earlier passes hand on. */
  lemma LastSecretExactly(front: seq<string>, last: string, p: string)
    requires last != [] && forall s | s in front :: Scrubbable(p, s)
    ensures [] !in front + [last]
    ensures (forall text :: LeaksNothing(RedactWith(text, front + [last], p), front + [last]))
            <==> forall text | LeaksNothing(text, front) :: RemovedFrom(text, last, p)
  {
    var all := front + [last];
    LastPassIsLast("", front, last, p);
    if forall text | LeaksNothing(text, front) :: RemovedFrom(text, last, p) {
      forall text ensures LeaksNothing(RedactWith(text, all, p), all) {
        LastPassCleans(text, front, last, p);
      }
    } else {
      var text :| LeaksNothing(text, front) && !RemovedFrom(text, last, p);
      LastPassLeaks(text, front, last, p);
      assert !LeaksNothing(RedactWith(text, all, p), all);
    }
  }

  lemma LastPassLeaks(text: string, front: seq<string>, last: string, p: string)
    requires [] !in front && last != [] && LeaksNothing(text, front) && !RemovedFrom(text, last, p)
    ensures [] !in front + [last] && !LeaksNothing(RedactWith(text, front + [last], p), front + [last])
  {
    LastPassIsLast(text, front, last, p);
    CleanTextUnchanged(text, front, p);
    assert last in front + [last];
  }

  lemma LastPassCleans(text: string, front: seq<string>, last: string, p: string)
    requires last != [] && forall s | s in front :: Scrubbable(p, s)
    requires forall handed | LeaksNothing(handed, front) :: RemovedFrom(handed, last, p)
    ensures [] !in front + [last] && LeaksNothing(RedactWith(text, front + [last], p), front + [last])
  {
    var handed := RedactWith(text, front, p);
    LastPassIsLast(text, front, last, p);
    RedactRemovesEverySecret(text, front, p);
    assert RemovedFrom(handed, last, p);
    forall s | s in front ensures !Contains(Replace(handed, last, p), s) {
      assert "" + handed == handed && "" + Replace(handed, last, p) == Replace(handed, last, p);
      PassReintroducesNothing("", handed, last, s, p);
    }
  }

  lemma {:induction false} PassLeavesPlaceholder(text: string, s: string, p: string)
    requires s != [] && Contains(text, s)
    ensures Contains(Replace(text, s, p), p)
    decreases |text|
  {
    var i :| 0 <= i <= |text| && OccursAt(text, s, i);
    if s <= text {
      assert OccursAt(p + Replace(text[|s|..], s, p), p, 0);
    } else {
      assert i != 0;
      assert text[1..][i - 1..i - 1 + |s|] == text[i..i + |s|];
      assert OccursAt(text[1..], s, i - 1);
      PassLeavesPlaceholder(text[1..], s, p);
      OccursInPart([text[0]], Replace(text[1..], s, p), "", p);
      assert [text[0]] + Replace(text[1..], s, p) + "" == Replace(text, s, p);
    }
  }

  /** Whatever the list, once anything is replaced the result keeps a placeholder. */
  lemma {:induction false} PlaceholderRemains(text: string, secrets: seq<string>, p: string)
    requires [] !in secrets
    requires Contains(text, p) || !LeaksNothing(text, secrets)
    ensures Contains(RedactWith(text, secrets, p), p)
    decreases |secrets|
  {
    if secrets != [] {
      var first, rest := secrets[0], secrets[1..];
      assert first in secrets && secrets == [first] + rest;
      if Contains(text, first) {
        PassLeavesPlaceholder(text, first, p);
      } else {
        AbsentUnchanged(text, first, p);
      }
      PlaceholderRemains(Replace(text, first, p), rest, p);
    }
  }

  /** Whatever is part of the placeholder is in the result whenever any secret is replaced. */
  lemma PlaceholderPartSurvives(text: string, secrets: seq<string>, s: string, p: string)
    requires [] !in secrets && Contains(p, s) && !LeaksNothing(text, secrets)
    ensures Contains(RedactWith(text, secrets, p), s)
  {
    PlaceholderRemains(text, secrets, p);
    ContainsTransitive(RedactWith(text, secrets, p), p, s);
  }

  /** With no straddling secret, the result is clean exactly when the text already was or no secret
      is part of the placeholder. */
  lemma RedactIsCleanExactly(text: string, secrets: seq<string>, p: string)
    requires [] !in secrets && forall s | s in secrets :: !Straddles(p, s)
    ensures LeaksNothing(RedactWith(text, secrets, p), secrets)
            <==> LeaksNothing(text, secrets) || forall s | s in secrets :: !Contains(p, s)
  {
    if LeaksNothing(text, secrets) {
      CleanTextUnchanged(text, secrets, p);
    } else if s :| s in secrets && Contains(p, s) {
      PlaceholderPartSurvives(text, secrets, s, p);
    } else {
      RedactRemovesEverySecret(text, secrets, p);
    }
  }

  /** Redacting twice is redacting once. */
  lemma RedactIsIdempotent(text: string, secrets: seq<string>, p: string)
    requires forall s | s in secrets :: Scrubbable(p, s)
    ensures [] !in secrets && RedactWith(RedactWith(text, secrets, p), secrets, p) == RedactWith(text, secrets, p)
  {
    RedactRemovesEverySecret(text, secrets, p);
    CleanTextUnchanged(RedactWith(text, secrets, p), secrets, p);
  }

  predicate QuoteFree(s: string) {
    '\U{00AB}' !in s && '\U{00BB}' !in s
  }

  /** A secret with no angle quotation mark never straddles, and is part of the placeholder only by
      being part of the word inside it. */
  lemma QuoteFreeSecrets(s: string)
    requires s != [] && QuoteFree(s)
    ensures !Straddles(PLACEHOLDER, s)
    ensures Contains(PLACEHOLDER, s) <==> Contains("redacted", s)
  {
    if RunsPastEnd(PLACEHOLDER, s) {
      EndRunsHoldClose(PLACEHOLDER, s);
    }
    if k :| 0 < k < |s| && RunsInto(PLACEHOLDER, s, k) {
      StartRunsHoldOpen(PLACEHOLDER, s, k);
    }
    QuoteFreeInside(s);
  }

  lemma EndRunsHoldClose(p: string, s: string)
    requires RunsPastEnd(p, s)
    ensures p[|p| - 1] in s
  {
    var k :| 0 < k < |s| && k <= |p| && s[..k] == p[|p| - k..];
    assert s[k - 1] == s[..k][k - 1];
  }

  lemma StartRunsHoldOpen(p: string, s: string, k: int)
    requires p != [] && RunsInto(p, s, k)
    ensures p[0] in s
  {
    assert s[k] == s[k..][0];
  }

  lemma QuoteFreeInside(s: string)
    requires s != [] && QuoteFree(s)
    ensures Contains(PLACEHOLDER, s) <==> Contains("redacted", s)
  {
    if Contains("redacted", s) {
      var open, close := PLACEHOLDER[..1], PLACEHOLDER[|PLACEHOLDER| - 1..];
      assert PLACEHOLDER == open + "redacted" + close;
      OccursInPart(open, "redacted", close, s);
    }
    if Contains(PLACEHOLDER, s) {
      var i :| 0 <= i <= |PLACEHOLDER| && OccursAt(PLACEHOLDER, s, i);
      QuoteFreeBetween(s, i);
    }
  }

  lemma QuoteFreeBetween(s: string, i: int)
    requires s != [] && QuoteFree(s) && OccursAt(PLACEHOLDER, s, i)
    ensures OccursAt("redacted", s, i - 1)
  {
    assert PLACEHOLDER == [PLACEHOLDER[0]] + "redacted" + [PLACEHOLDER[|PLACEHOLDER| - 1]];
    OccursBetween(PLACEHOLDER[0], "redacted", PLACEHOLDER[|PLACEHOLDER| - 1], s, i);
  }

  lemma OccursBetween(open: char, word: string, close: char, s: string, i: int)
    requires s != [] && OccursAt([open] + word + [close], s, i) && open !in s && close !in s
    ensures OccursAt(word, s, i - 1)
  {
    var p := [open] + word + [close];
    assert s[0] == p[i] && s[|s| - 1] == p[i + |s| - 1];
    assert 1 <= i && i + |s| <= |word| + 1;
    assert p[i..i + |s|] == word[i - 1..i - 1 + |s|];
  }

  /** The guarantee in the program's own terms: for registered secrets without angle quotation
      marks, redaction leaves none of them in any text if and only if the text had none to begin
      with or none is part of the word `redacted`. */
  lemma QuoteFreeRegistryIsScrubbed(text: string, secrets: seq<string>)
    requires WellKept(secrets) && forall s | s in secrets :: QuoteFree(s)
    ensures [] !in secrets
    ensures LeaksNothing(RedactWith(text, secrets, PLACEHOLDER), secrets)
            <==> LeaksNothing(text, secrets) || forall s | s in secrets :: !Contains("redacted", s)
  {
    forall s | s in secrets
      ensures s != [] && !Straddles(PLACEHOLDER, s) && (Contains(PLACEHOLDER, s) <==> Contains("redacted", s))
    {
      QuoteFreeSecrets(s);
    }
    RedactIsCleanExactly(text, secrets, PLACEHOLDER);
  }

  // ----- why the longest secret goes first

  lemma {:induction false} ByteLenOfJoin(a: string, b: string)
    ensures ByteLen(a + b) == ByteLen(a) + ByteLen(b)
  {
    if a == [] {
      assert a + b == b;
    } else {
      assert (a + b)[1..] == a[1..] + b;
      ByteLenOfJoin(a[1..], b);
    }
  }

  /** Only the whole of a secret is as long as it. */
  lemma PartIsShorter(whole: string, s: string, i: int)
    requires OccursAt(whole, s, i) && ByteLen(whole) <= ByteLen(s)
    ensures s == whole
  {
    var before, after := whole[..i], whole[i + |s|..];
    assert whole == before + (s + after);
    ByteLenOfJoin(before, s + after);
    ByteLenOfJoin(s, after);
  }
}
