/** Cleaning up two configuration files, line by line: repeated safe directories in a gitconfig, and
    the broad work-directory patterns in a gitignore. */
module ConfigLines {
  import opened Text
  import opened Wrappers

  const DIRECTORY := "directory = "

  /** The directory a line declares, if it declares one. */
  function Directory(line: string): Option<string> {
    var trimmed := Trim(line);
    if StartsWith(trimmed, DIRECTORY) then Some(Trim(trimmed[|DIRECTORY|..])) else None
  }

  /** Some earlier line declares the same directory. */
  predicate Repeats(lines: seq<string>, i: nat)
    requires i < |lines|
  {
    Directory(lines[i]).Some? && exists j | 0 <= j < i :: Directory(lines[j]) == Directory(lines[i])
  }

  /** The reference: the lines that repeat no earlier one, in order. */
  function Kept(lines: seq<string>): seq<string> {
    if lines == [] then []
    else
      var n := |lines| - 1;
      Kept(lines[..n]) + if Repeats(lines, n) then [] else [lines[n]]
  }

  function CountRepeats(lines: seq<string>): nat {
    if lines == [] then 0
    else
      var n := |lines| - 1;
      CountRepeats(lines[..n]) + if Repeats(lines, n) then 1 else 0
  }

  ghost predicate SeenIn(seen: set<string>, lines: seq<string>) {
    forall value :: value in seen <==> Some(value) in Directories(lines)
  }

  function Directories(lines: seq<string>): seq<Option<string>> {
    if lines == [] then [] else Directories(lines[..|lines| - 1]) + [Directory(lines[|lines| - 1])]
  }

  lemma {:induction false} InDirectories(lines: seq<string>, value: string)
    ensures Some(value) in Directories(lines) <==> exists j | 0 <= j < |lines| :: Directory(lines[j]) == Some(value)
  {
    if lines != [] {
      var front, last := lines[..|lines| - 1], lines[|lines| - 1];
      InDirectories(front, value);
      assert lines == front + [last];
      if j :| 0 <= j < |front| && Directory(front[j]) == Some(value) {
        assert Directory(lines[j]) == Some(value);
      }
    }
  }

  lemma RepeatsWhenSeen(lines: seq<string>, i: nat, seen: set<string>)
    requires i < |lines| && SeenIn(seen, lines[..i])
    ensures Repeats(lines, i) <==> Directory(lines[i]).Some? && Directory(lines[i]).value in seen
  {
    hide Directory;
    if Directory(lines[i]).None? {
      return;
    }
    var value := Directory(lines[i]).value;
    InDirectories(lines[..i], value);
    if j :| 0 <= j < |lines[..i]| && Directory(lines[..i][j]) == Some(value) {
      assert Directory(lines[j]) == Some(value);
    }
    if j :| 0 <= j < i && Directory(lines[j]) == Directory(lines[i]) {
      assert lines[..i][j] == lines[j];
    }
  }

  lemma PrefixRepeats(lines: seq<string>, n: nat)
    requires n < |lines|
    ensures Repeats(lines[..n + 1], n) <==> Repeats(lines, n)
  {
    var front := lines[..n + 1];
    assert forall j | 0 <= j <= n :: front[j] == lines[j];
  }

  lemma SeenNext(seen: set<string>, lines: seq<string>, i: nat)
    requires i < |lines| && SeenIn(seen, lines[..i])
    ensures var value := Directory(lines[i]);
            SeenIn(if value.Some? then seen + {value.value} else seen, lines[..i + 1])
  {
    hide Directory;
    assert lines[..i + 1][..i] == lines[..i];
  }

  lemma NothingSeen(lines: seq<string>)
    ensures SeenIn({}, lines[..0])
  {
  }

  method SafeDirectoryDuplicates(lines: seq<string>) returns (duplicates: nat)
    ensures duplicates == CountRepeats(lines)
  {
    hide SeenIn, Directory, Repeats;
    var seen: set<string> := {};
    duplicates := 0;
    NothingSeen(lines);
    for i := 0 to |lines|
      invariant SeenIn(seen, lines[..i])
      invariant duplicates == CountRepeats(lines[..i])
    {
      assert lines[..i + 1][..i] == lines[..i];
      PrefixRepeats(lines, i);
      SeenNext(seen, lines, i);
      RepeatsWhenSeen(lines, i, seen);
      var value := Directory(lines[i]);
      if value.Some? {
        if value.value in seen {
          duplicates := duplicates + 1;
        }
        seen := seen + {value.value};
      }
    }
    assert lines[..|lines|] == lines;
  }

  method DedupeSafeDirectories(lines: seq<string>) returns (out: seq<string>)
    ensures out == Kept(lines)
  {
    hide SeenIn, Directory, Repeats;
    var seen: set<string> := {};
    out := [];
    NothingSeen(lines);
    for i := 0 to |lines|
      invariant SeenIn(seen, lines[..i])
      invariant out == Kept(lines[..i])
    {
      assert lines[..i + 1][..i] == lines[..i];
      PrefixRepeats(lines, i);
      SeenNext(seen, lines, i);
      RepeatsWhenSeen(lines, i, seen);
      var line := lines[i];
      var value := Directory(line);
      if value.Some? {
        if value.value in seen {
          assert seen + {value.value} == seen;
          continue;
        }
        seen := seen + {value.value};
      }
      out := out + [line];
    }
    assert lines[..|lines|] == lines;
  }

  /** The cleaner removes exactly as many lines as the counter counted. */
  lemma {:induction false} RemovesWhatIsCounted(lines: seq<string>)
    ensures |Kept(lines)| + CountRepeats(lines) == |lines|
  {
    if lines != [] {
      RemovesWhatIsCounted(lines[..|lines| - 1]);
    }
  }

  lemma {:induction false} KeptDeclaresTheSame(lines: seq<string>, value: string)
    ensures Some(value) in Directories(Kept(lines)) <==> Some(value) in Directories(lines)
  {
    if lines != [] {
      var n := |lines| - 1;
      var front := lines[..n];
      KeptDeclaresTheSame(front, value);
      assert (Kept(front) + [lines[n]])[..|Kept(front)|] == Kept(front);
      if Repeats(lines, n) && Directory(lines[n]) == Some(value) {
        var j :| 0 <= j < n && Directory(lines[j]) == Directory(lines[n]);
        assert Directory(front[j]) == Some(value);
        InDirectories(front, value);
      }
      assert Kept(front) + [] == Kept(front);
    }
  }

  /** Cleaning leaves nothing to count, so cleaning twice is cleaning once. */
  lemma {:induction false} CleanedIsClean(lines: seq<string>)
    ensures CountRepeats(Kept(lines)) == 0
    ensures Kept(Kept(lines)) == Kept(lines)
  {
    if lines != [] {
      var n := |lines| - 1;
      var front, line := lines[..n], lines[n];
      CleanedIsClean(front);
      if !Repeats(lines, n) {
        var kept := Kept(front) + [line];
        assert kept[..|Kept(front)|] == Kept(front);
        NewLineRepeatsNothing(lines, n);
      } else {
        assert Kept(front) + [] == Kept(front);
      }
    }
  }

  lemma NewLineRepeatsNothing(lines: seq<string>, n: nat)
    requires n < |lines| && !Repeats(lines, n)
    ensures var kept := Kept(lines[..n]); !Repeats(kept + [lines[n]], |kept|)
  {
    var kept, line := Kept(lines[..n]), lines[n];
    if Directory(line).Some? && Repeats(kept + [line], |kept|) {
      var j :| 0 <= j < |kept| && Directory((kept + [line])[j]) == Directory(line);
      assert Directory(kept[j]) == Directory(line);
      RepeatOfKept(lines, n, j);
    }
  }

  lemma RepeatOfKept(lines: seq<string>, n: nat, j: nat)
    requires n < |lines| && j < |Kept(lines[..n])| && Directory(lines[n]).Some?
    requires Directory(Kept(lines[..n])[j]) == Directory(lines[n])
    ensures Repeats(lines, n)
  {
    var value := Directory(lines[n]).value;
    InDirectories(Kept(lines[..n]), value);
    KeptDeclaresTheSame(lines[..n], value);
    InDirectories(lines[..n], value);
    var i :| 0 <= i < |lines[..n]| && Directory(lines[..n][i]) == Some(value);
    assert Directory(lines[i]) == Directory(lines[n]);
  }

  /** What has been kept stays first, whatever lines follow, so of the lines that declare a directory the
      first is the one kept. */
  lemma {:induction false} KeptGrows(lines: seq<string>, more: seq<string>)
    ensures Kept(lines) <= Kept(lines + more)
    decreases |more|
  {
    if more == [] {
      assert lines + more == lines;
    } else {
      KeptGrows(lines, more[..|more| - 1]);
      assert (lines + more)[..|lines + more| - 1] == lines + more[..|more| - 1];
    }
  }

  /** A line is kept after others unless it declares what one of them did; any other line always is. */
  lemma KeptNext(lines: seq<string>, line: string)
    ensures Kept(lines + [line])
            == if Directory(line).Some? && Directory(line) in Directories(lines) then Kept(lines) else Kept(lines) + [line]
  {
    var all := lines + [line];
    assert all[..|lines|] == lines && all[|lines|] == line;
    if Directory(line).Some? {
      InDirectories(lines, Directory(line).value);
      assert Repeats(all, |lines|) <==> exists j | 0 <= j < |lines| :: Directory(lines[j]) == Directory(line);
    }
  }

  // ----- which lines are meant

  /** A line declares a directory exactly when it is white space, `directory = `, the trimmed and
      non-empty directory after any further white space, and white space. */
  lemma DeclaresExactly(line: string, value: string)
    ensures Directory(line) == Some(value) <==>
              && value != "" && Trimmed(value)
              && exists before, gap, after ::
                   Blank(before) && Blank(gap) && Blank(after) && line == before + "directory = " + gap + value + after
  {
    if Directory(line) == Some(value) {
      var before, gap, after := DeclarationParts(line, value);
    }
    if value != "" && Trimmed(value) {
      forall before, gap, after | Blank(before) && Blank(gap) && Blank(after) && line == before + "directory = " + gap + value + after
        ensures Directory(line) == Some(value)
      {
        DeclarationIsRead(before, gap, value, after);
      }
    }
  }

  lemma DeclarationParts(line: string, value: string) returns (before: string, gap: string, after: string)
    requires Directory(line) == Some(value)
    ensures value != "" && Trimmed(value)
    ensures Blank(before) && Blank(gap) && Blank(after) && line == before + DIRECTORY + gap + value + after
  {
    var core := Trim(line);
    before, after := TrimParts(line);
    var rest := core[|DIRECTORY|..];
    assert core == DIRECTORY + rest;
    KeywordEndsBlank();
    gap := DeclaredPart(DIRECTORY, rest);
    Regroup4(before, DIRECTORY, gap, value, after);
  }

  lemma Regroup4(a: string, b: string, c: string, d: string, e: string)
    ensures a + (b + (c + d)) + e == a + b + c + d + e
  {
  }

  /** After a keyword that ends in white space, a trimmed line goes on to something. */
  lemma DeclaredPart(keyword: string, rest: string) returns (gap: string)
    requires keyword != "" && IsWhitespace(keyword[|keyword| - 1]) && Trimmed(keyword + rest)
    ensures Trim(rest) != "" && Trimmed(Trim(rest)) && Blank(gap) && rest == gap + Trim(rest)
  {
    var last: string;
    gap, last := TrimParts(rest);
    var value := Trim(rest);
    assert keyword + rest == keyword + gap + value + last;
    BlankTailIsUntrimmed(keyword + gap + value, last);
    assert gap + value + "" == gap + value && keyword + gap + "" == keyword + gap;
    KeywordAloneIsUntrimmed(keyword, gap);
  }

  lemma BlankTailIsUntrimmed(s: string, tail: string)
    requires Blank(tail)
    ensures tail == "" || !Trimmed(s + tail)
  {
    if tail != "" {
      assert tail[|tail| - 1] in tail;
      assert (s + tail)[|s + tail| - 1] == tail[|tail| - 1];
    }
  }

  lemma KeywordAloneIsUntrimmed(keyword: string, gap: string)
    requires keyword != "" && IsWhitespace(keyword[|keyword| - 1]) && Blank(gap)
    ensures !Trimmed(keyword + gap)
  {
    BlankTailIsUntrimmed(keyword, gap);
    assert keyword + "" == keyword;
  }

  lemma KeywordEndsBlank()
    ensures DIRECTORY != "" && IsWhitespace(DIRECTORY[|DIRECTORY| - 1]) && !IsWhitespace(DIRECTORY[0])
  {
  }

  lemma DeclarationIsRead(before: string, gap: string, value: string, after: string)
    requires Blank(before) && Blank(gap) && Blank(after) && value != "" && Trimmed(value)
    ensures Directory(before + DIRECTORY + gap + value + after) == Some(value)
  {
    var core := DIRECTORY + (gap + value);
    KeywordEndsBlank();
    assert core[|core| - 1] == value[|value| - 1] && core[0] == DIRECTORY[0];
    assert before + DIRECTORY + gap + value + after == before + core + after;
    TrimIs(before, core, after);
    assert core[|DIRECTORY|..] == gap + value + "";
    TrimIs(gap, value, "");
  }

  // ----- the gitignore

  const WORK_PATTERNS: seq<string> := ["_work", "_work/", "/_work", "/_work/"]

  predicate HidesWorkLine(line: string) {
    var trimmed := Trim(line);
    !StartsWith(trimmed, "#") && !StartsWith(trimmed, "!") && trimmed in WORK_PATTERNS
  }

  predicate HidesWork(lines: seq<string>) {
    exists line | line in lines :: HidesWorkLine(line)
  }

  function WithoutWorkIgnore(lines: seq<string>): seq<string> {
    if lines == [] then []
    else
      var n := |lines| - 1;
      var trimmed := Trim(lines[n]);
      WithoutWorkIgnore(lines[..n])
      + if StartsWith(trimmed, "#") || StartsWith(trimmed, "!") || trimmed !in WORK_PATTERNS then [lines[n]] else []
  }

  lemma KeptUnlessHiding(lines: seq<string>)
    requires lines != []
    ensures var front, last := lines[..|lines| - 1], lines[|lines| - 1];
            WithoutWorkIgnore(lines) == if HidesWorkLine(last) then WithoutWorkIgnore(front) else WithoutWorkIgnore(front) + [last]
  {
  }

  /** The rewrite leaves no line that hides the work directory. */
  lemma {:induction false} RewriteHidesNothing(lines: seq<string>)
    ensures !HidesWork(WithoutWorkIgnore(lines))
  {
    hide HidesWorkLine;
    if lines != [] {
      KeptUnlessHiding(lines);
      RewriteHidesNothing(lines[..|lines| - 1]);
    }
  }

  /** It judges each line alone... */
  lemma RewriteJudgesOneLine(line: string)
    ensures WithoutWorkIgnore([line]) == if HidesWorkLine(line) then [] else [line]
  {
    hide HidesWorkLine;
    KeptUnlessHiding([line]);
    assert [line][..0] == [];
  }

  /** ...and keeps the rest in place: rewriting two parts and joining them is rewriting the whole. */
  lemma {:induction false} RewriteJoins(a: seq<string>, b: seq<string>)
    ensures WithoutWorkIgnore(a + b) == WithoutWorkIgnore(a) + WithoutWorkIgnore(b)
    decreases |b|, 0
  {
    if b == [] {
      assert a + b == a;
    } else {
      RewriteJoinsOneMore(a, b[..|b| - 1], b[|b| - 1]);
      assert b == b[..|b| - 1] + [b[|b| - 1]];
    }
  }

  lemma RewriteJoinsOneMore(a: seq<string>, front: seq<string>, last: string)
    ensures WithoutWorkIgnore(a + (front + [last])) == WithoutWorkIgnore(a) + WithoutWorkIgnore(front + [last])
    decreases |front|, 1
  {
    hide WithoutWorkIgnore;
    hide HidesWorkLine;
    var x, y := WithoutWorkIgnore(a), WithoutWorkIgnore(front);
    assert (a + (front + [last]))[..|a + front|] == a + front;
    assert (front + [last])[..|front|] == front;
    KeptUnlessHiding(a + (front + [last]));
    KeptUnlessHiding(front + [last]);
    RewriteJoins(a, front);
    assert x + y + [last] == x + (y + [last]);
  }

  /** A file that hides nothing is unchanged. */
  lemma {:induction false} RewriteKeepsCleanFiles(lines: seq<string>)
    requires !HidesWork(lines)
    ensures WithoutWorkIgnore(lines) == lines
  {
    hide HidesWorkLine;
    if lines != [] {
      var front, last := lines[..|lines| - 1], lines[|lines| - 1];
      assert last in lines && lines == front + [last];
      KeptUnlessHiding(lines);
      RewriteKeepsCleanFiles(front);
    }
  }

  /** The lines the rewrite drops are exactly the four patterns with white space around them. */
  lemma HidesExactly(line: string)
    ensures HidesWorkLine(line) <==>
              exists before, pattern, after ::
                && Blank(before) && Blank(after) && line == before + pattern + after
                && (pattern == "_work" || pattern == "_work/" || pattern == "/_work" || pattern == "/_work/")
  {
    PatternsAreTrimmed();
    if HidesWorkLine(line) {
      var before, after := TrimParts(line);
      var pattern := Trim(line);
      assert line == before + pattern + after;
    }
    if before, pattern, after :|
      && Blank(before) && Blank(after) && line == before + pattern + after
      && (pattern == "_work" || pattern == "_work/" || pattern == "/_work" || pattern == "/_work/")
    {
      TrimIs(before, pattern, after);
    }
  }

  lemma PatternsAreTrimmed()
    ensures forall pattern | pattern in WORK_PATTERNS ::
              Trimmed(pattern) && pattern != "" && !StartsWith(pattern, "#") && !StartsWith(pattern, "!")
    ensures WORK_PATTERNS == ["_work", "_work/", "/_work", "/_work/"]
  {
  }
}
