/** Deciding from the registry alone whether its last secret can survive redaction. */
module RedactionWitnesses {
  import opened Redaction
  import opened Text

  /** `s` begins with the last `k` characters of `p` and runs past them. */
  predicate EndsIn(p: string, s: string, k: int) {
    0 < k < |s| && k <= |p| && s[..k] == p[|p| - k..]
  }

  /** Finitely many texts decide: the last secret itself if it is part of the placeholder, and for each
      way it can begin with an end of the placeholder, the secret followed by its rest. One of them
      holding no other secret is enough. */
  predicate LeaksOnWitness(front: seq<string>, last: string, p: string) {
    || (Contains(p, last) && LeaksNothing(last, front))
    || exists k | 0 < k < |last| :: EndsIn(p, last, k) && LeaksNothing(last + last[k..], front)
  }

  lemma PartHoldsNothing(a: string, b: string, c: string, front: seq<string>)
    requires LeaksNothing(a + (b + c), front)
    ensures LeaksNothing(b, front) && LeaksNothing(c, front)
  {
    hide Contains;
    assert a + (b + c) == a + b + c;
    forall s | s in front ensures !Contains(b, s) && !Contains(c, s) {
      AbsentFromPart(a, b, c, s);
      EndsAreAbsent(a, b, c, s);
    }
  }

  lemma HeadsAgree(x: string, a: string, b: string)
    requires a != [] && x <= a + b
    ensures x == [] || a[0] in x
  {
    if x != [] {
      assert x[0] == a[0];
    }
  }

  /** What a pass puts first is a placeholder or what was there, so a string without the placeholder's
      first character that comes first afterwards came first before. */
  lemma {:induction false} FirstWasThere(text: string, x: string, s: string, p: string)
    requires s != [] && p != [] && p[0] !in x && x <= Replace(text, s, p)
    ensures x <= text
    decreases |text|
  {
    hide Replace;
    if |text| < |s| {
      ReplaceShort(text, s, p);
    } else if s <= text {
      var rest := text[|s|..];
      assert text == s + rest;
      ReplaceMatched(s, rest, p);
      HeadsAgree(x, p, Replace(rest, s, p));
    } else {
      var c, rest := text[0], text[1..];
      assert text == [c] + rest;
      ReplaceStep(c, rest, s, p);
      if x != [] {
        var after := [c] + Replace(rest, s, p);
        assert x == after[..|x|];
        assert x[0] == c && x[1..] == Replace(rest, s, p)[..|x| - 1];
        FirstWasThere(rest, x[1..], s, p);
      }
    }
  }

  /** An occurrence that starts in the placeholder and runs past it. */
  lemma PastEndAt(a: string, p: string, b: string, s: string, i: int)
    requires OccursAt(a + p + b, s, i) && |a| <= i < |a| + |p| < i + |s|
    ensures var k := |a| + |p| - i; EndsIn(p, s, k) && s[k..] <= b
  {
    var whole, k := a + p + b, |a| + |p| - i;
    CharacterOf(whole, s, i);
    forall j | 0 <= j < k ensures s[j] == p[|p| - k + j] {
      assert s[j] == whole[i + j];
    }
    assert s[..k] == p[|p| - k..];
    forall j | 0 <= j < |s| - k ensures s[k..][j] == b[j] {
      assert s[k + j] == whole[i + k + j];
    }
    assert s[k..] == b[..|s| - k];
  }

  lemma StartsInside(a: string, p: string, b: string, s: string, i: int)
    requires s != [] && OccursAt(a + p + b, s, i) && |a| <= i && i + |s| <= |a| + |p|
    ensures Contains(p, s)
  {
    LiesInPart(a, p, b, s, i);
    assert OccursAt(p, s, i - |a|);
  }

  /** When no witness leaks, the pass for the last secret removes it from every text that holds none of
      the others. */
  lemma {:induction false} PassRemovesLast(u: string, text: string, front: seq<string>, s: string, p: string)
    requires s != [] && p != [] && p[0] !in s && !LeaksOnWitness(front, s, p)
    requires LeaksNothing(u + text, front) && !StartsBefore(u + text, s, |u|)
    ensures !Contains(u + Replace(text, s, p), s)
    decreases |text|
  {
    hide Replace, LeaksNothing, LeaksOnWitness;
    if |text| < |s| {
      ReplaceShort(text, s, p);
      NoStartNoOccurrence(u, text, s);
    } else if s <= text {
      var rest := text[|s|..];
      assert text == s + rest && "" + rest == rest;
      ReplaceMatched(s, rest, p);
      PartHoldsNothing(u, s, rest, front);
      PassRemovesLast("", rest, front, s, p);
      var after := Replace(rest, s, p);
      assert "" + after == after;
      NoneAroundPlaceholder(u, rest, front, s, p);
      Regroup(u, p, after);
    } else {
      var c, rest := text[0], text[1..];
      assert text == [c] + rest;
      ReplaceStep(c, rest, s, p);
      NoMatchAtHead(u, text, s);
      Regroup(u, [c], rest);
      PassRemovesLast(u + [c], rest, front, s, p);
      Regroup(u, [c], Replace(rest, s, p));
    }
  }

  lemma NoneAroundPlaceholder(u: string, rest: string, front: seq<string>, s: string, p: string)
    requires s != [] && p != [] && p[0] !in s && !LeaksOnWitness(front, s, p)
    requires LeaksNothing(u + (s + rest), front) && !StartsBefore(u + (s + rest), s, |u|)
    requires !Contains(Replace(rest, s, p), s)
    ensures !Contains(u + p + Replace(rest, s, p), s)
  {
    hide Replace, LeaksNothing, LeaksOnWitness;
    var after := Replace(rest, s, p);
    if Contains(u + p + after, s) {
      var i :| OccursAt(u + p + after, s, i);
      AroundMiddle(u, p, after, s, i);
      if i + |s| <= |u| {
        EarlierInPrefix(u, s, s + rest, i);
      } else if |u| + |p| <= i {
      } else if i < |u| {
        NeverRunsInto(p, s, |u| - i);
      } else if i + |s| <= |u| + |p| {
        StartsInside(u, p, after, s, i);
        PartHoldsNothing(u, s, rest, front);
        PartWitnessLeaks(front, s, p);
      } else {
        PastEndAt(u, p, after, s, i);
        EndWitnessLeaks(u, rest, front, s, p, |u| + |p| - i);
      }
    }
  }

  lemma NeverRunsInto(p: string, s: string, k: int)
    requires p != [] && p[0] !in s
    ensures !RunsInto(p, s, k)
  {
    if 0 < k < |s| {
      assert s[k..][0] == s[k] && s[k] in s;
    }
  }

  lemma PartWitnessLeaks(front: seq<string>, s: string, p: string)
    requires Contains(p, s) && LeaksNothing(s, front)
    ensures LeaksOnWitness(front, s, p)
  {
  }

  lemma EndWitnessLeaks(u: string, rest: string, front: seq<string>, s: string, p: string, k: int)
    requires s != [] && p != [] && p[0] !in s && EndsIn(p, s, k)
    requires LeaksNothing(u + (s + rest), front) && s[k..] <= Replace(rest, s, p)
    ensures LeaksOnWitness(front, s, p)
  {
    hide Replace, LeaksNothing;
    var x := s[k..];
    assert forall c | c in x :: c in s;
    FirstWasThere(rest, x, s, p);
    var beyond := rest[|x|..];
    assert rest == x + beyond;
    assert u + (s + rest) == u + ((s + x) + beyond);
    PartHoldsNothing(u, s + x, beyond, front);
  }

  /** For a last secret without the placeholder's first character, behind secrets that neither straddle
      nor lie in the placeholder: redaction leaves no secret in any text if and only if no witness text
      is free of the other secrets. The condition can be read off the registry. */
  lemma LastSecretWitnessed(front: seq<string>, last: string, p: string)
    requires last != [] && p != [] && p[0] !in last && forall s | s in front :: Scrubbable(p, s)
    ensures [] !in front + [last]
    ensures (forall text :: LeaksNothing(RedactWith(text, front + [last], p), front + [last]))
            <==> !LeaksOnWitness(front, last, p)
  {
    hide LeaksNothing, LeaksOnWitness, RemovedFrom, Scrubbable, RedactWith;
    LastSecretExactly(front, last, p);
    if LeaksOnWitness(front, last, p) {
      var text := LeakingWitness(front, last, p);
      assert LeaksNothing(text, front) && !RemovedFrom(text, last, p);
    } else {
      forall text | LeaksNothing(text, front) ensures RemovedFrom(text, last, p) {
        WitnessesDecide(text, front, last, p);
      }
    }
  }

  lemma WitnessesDecide(text: string, front: seq<string>, last: string, p: string)
    requires last != [] && p != [] && p[0] !in last && !LeaksOnWitness(front, last, p) && LeaksNothing(text, front)
    ensures RemovedFrom(text, last, p)
  {
    assert "" + text == text && "" + Replace(text, last, p) == Replace(text, last, p);
    PassRemovesLast("", text, front, last, p);
  }

  lemma LeakingWitness(front: seq<string>, last: string, p: string) returns (text: string)
    requires last != [] && LeaksOnWitness(front, last, p)
    ensures LeaksNothing(text, front) && !RemovedFrom(text, last, p)
  {
    if Contains(p, last) && LeaksNothing(last, front) {
      text := last;
      PartWitness(last, p);
    } else {
      var k :| 0 < k < |last| && EndsIn(p, last, k) && LeaksNothing(last + last[k..], front);
      text := last + last[k..];
      PastEndWitness(last, k, p);
    }
  }
}
