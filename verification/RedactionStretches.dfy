/** Where a registered secret fills a stretch of text that no occurrence sticks out of, redaction turns
    the stretch into one placeholder and treats the text on either side by itself. */
module RedactionStretches {
  import opened Redaction
  import opened Text

  /** An occurrence of `s` in `a + b` that begins in `a` and ends in `b`. */
  predicate Crosses(a: string, b: string, s: string) {
    exists i | 0 <= i < |a| :: |a| < i + |s| && OccursAt(a + b, s, i)
  }

  // ----- a pass over two parts

  lemma CrossingInTail(x: string, a: string, b: string, s: string)
    requires Crosses(a, b, s)
    ensures Crosses(x + a, b, s)
  {
    var i :| 0 <= i < |a| && |a| < i + |s| && OccursAt(a + b, s, i);
    assert x + (a + b) + "" == x + a + b;
    LiesInPart(x, a + b, "", s, |x| + i);
    assert OccursAt(x + a + b, s, |x| + i);
  }

  /** Where no occurrence crosses, a pass over the whole is a pass over each part. */
  lemma {:induction false} ReplaceSplits(a: string, b: string, s: string, p: string)
    requires s != [] && !Crosses(a, b, s)
    ensures Replace(a + b, s, p) == Replace(a, s, p) + Replace(b, s, p)
    decreases |a|
  {
    if a == [] {
      assert a + b == b;
    } else if s <= a + b {
      HeadMatchIsWhole(a, b, s);
      var rest := a[|s|..];
      assert a == s + rest;
      TailDoesNotCross(s, rest, b, s);
      ReplaceSplits(rest, b, s, p);
      SplitAfterMatch(rest, b, s, p);
    } else {
      var rest := a[1..];
      assert a == [a[0]] + rest;
      TailDoesNotCross([a[0]], rest, b, s);
      ReplaceSplits(rest, b, s, p);
      SplitAfterCopy(a[0], rest, b, s, p);
    }
  }

  lemma SplitAfterMatch(rest: string, b: string, s: string, p: string)
    requires s != [] && Replace(rest + b, s, p) == Replace(rest, s, p) + Replace(b, s, p)
    ensures Replace(s + rest + b, s, p) == Replace(s + rest, s, p) + Replace(b, s, p)
  {
    hide Replace;
    ReplaceMatched(s, rest, p);
    ReplaceMatched(s, rest + b, p);
    Regroup(s, rest, b);
    Regroup(p, Replace(rest, s, p), Replace(b, s, p));
  }

  lemma SplitAfterCopy(c: char, rest: string, b: string, s: string, p: string)
    requires s != [] && !(s <= [c] + rest + b) && Replace(rest + b, s, p) == Replace(rest, s, p) + Replace(b, s, p)
    ensures Replace([c] + rest + b, s, p) == Replace([c] + rest, s, p) + Replace(b, s, p)
  {
    hide Replace;
    Regroup([c], rest, b);
    assert s <= [c] + rest ==> s <= [c] + rest + b;
    ReplaceStep(c, rest, s, p);
    ReplaceStep(c, rest + b, s, p);
    Regroup([c], Replace(rest, s, p), Replace(b, s, p));
  }

  lemma TailDoesNotCross(x: string, a: string, b: string, s: string)
    requires !Crosses(x + a, b, s)
    ensures !Crosses(a, b, s)
  {
    if Crosses(a, b, s) {
      CrossingInTail(x, a, b, s);
    }
  }

  lemma HeadMatchIsWhole(a: string, b: string, s: string)
    requires a != [] && s <= a + b && !Crosses(a, b, s)
    ensures s <= a
  {
    assert OccursAt(a + b, s, 0);
  }

  // ----- a pass creates no crossing

  /** What a pass does to the left of a boundary, anything up to it left alone, lets no other secret
      cross it. */
  lemma {:induction false} PassLeavesRightEdge(u: string, text: string, v: string, b: string, s: string, other: string, p: string)
    requires s != [] && Scrubbable(p, other) && !Crosses(u + text + v, b, other)
    ensures !Crosses(u + Replace(text, s, p) + v, b, other)
    decreases |text|
  {
    hide Replace, Crosses;
    if |text| < |s| {
      ReplaceShort(text, s, p);
    } else if s <= text {
      var rest := text[|s|..];
      assert text == s + rest;
      ReplaceMatched(s, rest, p);
      assert u + (s + rest) + v == (u + s) + (rest + v) && "" + rest + v == rest + v;
      TailDoesNotCross(u + s, rest + v, b, other);
      PassLeavesRightEdge("", rest, v, b, s, other, p);
      var after := Replace(rest, s, p);
      assert "" + after + v == after + v;
      PlaceholderDoesNotCross(u, after + v, b, other, p);
      assert u + (p + after) + v == u + p + (after + v);
    } else {
      var c, rest := text[0], text[1..];
      assert text == [c] + rest;
      ReplaceStep(c, rest, s, p);
      Regroup(u, [c], rest);
      PassLeavesRightEdge(u + [c], rest, v, b, s, other, p);
      Regroup(u, [c], Replace(rest, s, p));
    }
  }

  lemma PlaceholderDoesNotCross(u: string, after: string, b: string, s: string, p: string)
    requires Scrubbable(p, s) && !Crosses(after, b, s)
    ensures !Crosses(u + p + after, b, s)
  {
    var all := u + p + after;
    if Crosses(all, b, s) {
      var i :| 0 <= i < |all| && |all| < i + |s| && OccursAt(all + b, s, i);
      assert all + b == u + p + (after + b);
      AroundMiddle(u, p, after + b, s, i);
    }
  }

  /** Nor does what a pass does to the right of a boundary. */
  lemma {:induction false} PassLeavesLeftEdge(a: string, u: string, text: string, s: string, other: string, p: string)
    requires s != [] && Scrubbable(p, other) && !Crosses(a, u + text, other)
    ensures !Crosses(a, u + Replace(text, s, p), other)
    decreases |text|
  {
    hide Replace, Crosses;
    if |text| < |s| {
      ReplaceShort(text, s, p);
    } else if s <= text {
      var rest := text[|s|..];
      assert text == s + rest;
      ReplaceMatched(s, rest, p);
      NothingReachesPlaceholder(a, u, text, Replace(rest, s, p), other, p);
      Regroup(u, p, Replace(rest, s, p));
    } else {
      var c, rest := text[0], text[1..];
      assert text == [c] + rest;
      ReplaceStep(c, rest, s, p);
      Regroup(u, [c], rest);
      PassLeavesLeftEdge(a, u + [c], rest, s, other, p);
      Regroup(u, [c], Replace(rest, s, p));
    }
  }

  lemma NothingReachesPlaceholder(a: string, u: string, text: string, rest: string, s: string, p: string)
    requires Scrubbable(p, s) && !Crosses(a, u + text, s)
    ensures !Crosses(a, u + p + rest, s)
  {
    var all := u + p + rest;
    if Crosses(a, all, s) {
      var i :| 0 <= i < |a| && |a| < i + |s| && OccursAt(a + all, s, i);
      assert a + all == (a + u) + p + rest;
      AroundMiddle(a + u, p, rest, s, i);
      assert "" + (a + u) + text == a + (u + text);
      LiesInPart("", a + u, text, s, i);
    }
  }

  // ----- the stretch survives until its own pass

  /** No occurrence of `s` sticks out of the stretch between `left` and `right` or reaches over it. */
  predicate Fits(left: string, stretch: string, right: string, s: string) {
    !Crosses(left, stretch + right, s) && !Crosses(left + stretch, right, s)
  }

  lemma PassKeepsFit(left: string, stretch: string, right: string, s: string, other: string, p: string)
    requires s != [] && Scrubbable(p, other) && Fits(left, stretch, right, other)
    ensures Fits(Replace(left, s, p), stretch, Replace(right, s, p), other)
  {
    hide Replace, Crosses;
    var l, r := Replace(left, s, p), Replace(right, s, p);
    assert left + "" == left && l + "" == l;
    LeftPassKeepsEdge(left, "", stretch + right, s, other, p);
    PassLeavesLeftEdge(l, stretch, right, s, other, p);
    LeftPassKeepsEdge(left, stretch, right, s, other, p);
    assert "" + right == right && "" + r == r;
    PassLeavesLeftEdge(l + stretch, "", right, s, other, p);
  }

  lemma LeftPassKeepsEdge(left: string, v: string, b: string, s: string, other: string, p: string)
    requires s != [] && Scrubbable(p, other) && !Crosses(left + v, b, other)
    ensures !Crosses(Replace(left, s, p) + v, b, other)
  {
    assert "" + left == left && "" + Replace(left, s, p) == Replace(left, s, p);
    PassLeavesRightEdge("", left, v, b, s, other, p);
  }

  lemma PassSplits(left: string, stretch: string, right: string, s: string, p: string)
    requires s != [] && Fits(left, stretch, right, s)
    ensures Replace(left + stretch + right, s, p) == Replace(left, s, p) + Replace(stretch, s, p) + Replace(right, s, p)
  {
    ReplaceSplits(left + stretch, right, s, p);
    EarlierCrossing(left, stretch, right, s);
    ReplaceSplits(left, stretch, s, p);
  }

  lemma EarlierCrossing(left: string, stretch: string, right: string, s: string)
    requires !Crosses(left, stretch + right, s)
    ensures !Crosses(left, stretch, s)
  {
    if Crosses(left, stretch, s) {
      var i :| 0 <= i < |left| && |left| < i + |s| && OccursAt(left + stretch, s, i);
      assert "" + (left + stretch) + right == left + (stretch + right);
      LiesInPart("", left + stretch, right, s, i);
    }
  }

  /** No secret reaches into a placeholder, so from then on the two sides are passed over separately. */
  lemma {:induction false} PlaceholderSeparates(left: string, right: string, secrets: seq<string>, p: string)
    requires forall s | s in secrets :: Scrubbable(p, s)
    ensures [] !in secrets && RedactWith(left + p + right, secrets, p) == RedactWith(left, secrets, p) + p + RedactWith(right, secrets, p)
    decreases |secrets|
  {
    if secrets != [] {
      var s := secrets[0];
      assert s in secrets;
      PlaceholderFits(left, right, s, p);
      PassSplits(left, p, right, s, p);
      AbsentUnchanged(p, s, p);
      PlaceholderSeparates(Replace(left, s, p), Replace(right, s, p), secrets[1..], p);
    }
  }

  lemma PlaceholderFits(left: string, right: string, s: string, p: string)
    requires Scrubbable(p, s)
    ensures Fits(left, p, right, s)
  {
    if Crosses(left, p + right, s) {
      var i :| 0 <= i < |left| && |left| < i + |s| && OccursAt(left + (p + right), s, i);
      assert left + (p + right) == left + p + right;
      AroundMiddle(left, p, right, s, i);
    }
    if Crosses(left + p, right, s) {
      var i :| 0 <= i < |left + p| && |left + p| < i + |s| && OccursAt(left + p + right, s, i);
      AroundMiddle(left, p, right, s, i);
    }
  }

  lemma TailKeepsOrder(first: string, rest: seq<string>)
    requires LongestFirst([first] + rest) && Distinct([first] + rest)
    ensures LongestFirst(rest) && Distinct(rest)
    ensures forall k | 0 <= k < |rest| :: rest[k] != first && ByteLen(rest[k]) <= ByteLen(first)
  {
    var all := [first] + rest;
    assert all[0] == first;
    assert forall k | 0 <= k < |rest| :: rest[k] == all[k + 1];
  }

  lemma LongerIsAbsent(stretch: string, other: string)
    requires other != stretch && ByteLen(stretch) <= ByteLen(other)
    ensures !Contains(stretch, other)
  {
    if Contains(stretch, other) {
      var i :| 0 <= i <= |stretch| && OccursAt(stretch, other, i);
      PartIsShorter(stretch, other, i);
    }
  }

  /** Wherever a registered secret occurs and no other occurrence sticks out of it, that stretch becomes
      one placeholder and the text on either side is redacted by itself: no shorter secret breaks the
      stretch up first, and nothing it contains spills over. */
  lemma {:induction false} LongestSecretIsReplacedWhole(secrets: seq<string>, left: string, stretch: string, right: string, p: string)
    requires LongestFirst(secrets) && Distinct(secrets) && stretch in secrets
    requires forall s | s in secrets :: Scrubbable(p, s) && Fits(left, stretch, right, s)
    ensures [] !in secrets
    ensures RedactWith(left + stretch + right, secrets, p) == RedactWith(left, secrets, p) + p + RedactWith(right, secrets, p)
    decreases |secrets|
  {
    var first, rest := secrets[0], secrets[1..];
    assert first in secrets && secrets == [first] + rest;
    TailKeepsOrder(first, rest);
    PassSplits(left, stretch, right, first, p);
    if first == stretch {
      assert stretch[|stretch|..] == [];
      assert Replace(stretch, stretch, p) == p;
      PlaceholderSeparates(Replace(left, first, p), Replace(right, first, p), rest, p);
    } else {
      LongerIsAbsent(stretch, first);
      AbsentUnchanged(stretch, first, p);
      forall s | s in rest ensures Fits(Replace(left, first, p), stretch, Replace(right, first, p), s) {
        PassKeepsFit(left, stretch, right, first, s, p);
      }
      LongestSecretIsReplacedWhole(rest, Replace(left, first, p), stretch, Replace(right, first, p), p);
    }
  }
}
