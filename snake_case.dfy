/**
 * The file-name normaliser `to_snake_case` of the repository's devops scripts.
 *
 * The source is a fixed chain of six rewrites. Each `re.sub` scans its input
 * left to right and replaces non-overlapping matches; here each rewrite is a
 * recursive function over `string` that performs that scan, and each scan is
 * paired with an independent reference definition (what happens at every
 * position, regardless of how the scan advanced) proved equal to it.
 *
 * Characters are ASCII-only: the regex classes `[a-z]`, `[A-Z]`, `[0-9]` are
 * ASCII in Python anyway, `\s` is read as the ASCII characters Python counts
 * as whitespace, and `lower()` only folds `A`-`Z`.
 */
module SnakeCase {

  // ---------------------------------------------------------------------
  // Character classes
  // ---------------------------------------------------------------------

  predicate IsUpper(c: char) { 'A' <= c <= 'Z' }
  predicate IsLower(c: char) { 'a' <= c <= 'z' }
  predicate IsDigit(c: char) { '0' <= c <= '9' }
  predicate IsUnderscore(c: char) { c == '_' }

  /** The class `[-\s]`: a hyphen, or an ASCII character that Python's `\s` matches
      (space, tab, line feed, carriage return, vertical tab, form feed and the
      four information separators 0x1C-0x1F). */
  predicate IsSeparator(c: char) {
    c == '-' || c == ' ' || c == '\t' || c == '\n' || c == '\r'
    || c == '\U{B}' || c == '\U{C}' || ('\U{1C}' <= c <= '\U{1F}')
  }

  predicate IsSeparatorOrUnderscore(c: char) { IsSeparator(c) || c == '_' }

  /** `str.lower()` on one ASCII character. */
  function LowerChar(c: char): (d: char)
    ensures !IsUpper(d)
    ensures IsSeparatorOrUnderscore(d) == IsSeparatorOrUnderscore(c)
    ensures IsUpper(c) ==> IsLower(d)
    ensures !IsUpper(c) ==> d == c
  {
    if IsUpper(c) then (c as int + 32) as char else c
  }

  // ---------------------------------------------------------------------
  // Sequence helpers
  // ---------------------------------------------------------------------

  /** `s` with every character satisfying `p` deleted, order kept. */
  function Without(s: string, p: char -> bool): (r: string)
    ensures |r| <= |s|
    decreases |s|
  {
    if s == [] then [] else (if p(s[0]) then [] else [s[0]]) + Without(s[1..], p)
  }

  /** What is left of `s` after its longest prefix of characters satisfying `p`. */
  function SkipWhile(s: string, p: char -> bool): (r: string)
    ensures |r| <= |s| && r == s[|s| - |r|..]
    ensures forall i :: 0 <= i < |s| - |r| ==> p(s[i])
    ensures r != [] ==> !p(r[0])
    decreases |s|
  {
    if s != [] && p(s[0]) then SkipWhile(s[1..], p) else s
  }

  /** What is left of `s` after its longest suffix of characters satisfying `p`. */
  function DropTrailing(s: string, p: char -> bool): (r: string)
    ensures |r| <= |s| && r == s[..|r|]
    ensures forall i :: |r| <= i < |s| ==> p(s[i])
    ensures r != [] ==> !p(r[|r| - 1])
    decreases |s|
  {
    if s != [] && p(s[|s| - 1]) then DropTrailing(s[..|s| - 1], p) else s
  }

  lemma {:induction false} WithoutAppend(a: string, b: string, p: char -> bool)
    ensures Without(a + b, p) == Without(a, p) + Without(b, p)
    decreases |a|
  {
    if a == [] {
      assert a + b == b;
    } else {
      assert (a + b)[1..] == a[1..] + b;
      WithoutAppend(a[1..], b, p);
    }
  }

  lemma {:induction false} WithoutAll(s: string, p: char -> bool)
    requires forall i :: 0 <= i < |s| ==> p(s[i])
    ensures Without(s, p) == []
    decreases |s|
  {
    if s != [] {
      WithoutAll(s[1..], p);
    }
  }

  /** Deleting underscores first changes nothing about deleting separators and underscores. */
  lemma {:induction false} WithoutUnderscoresFirst(s: string)
    ensures Without(Without(s, IsUnderscore), IsSeparatorOrUnderscore) == Without(s, IsSeparatorOrUnderscore)
    decreases |s|
  {
    if s != [] {
      WithoutUnderscoresFirst(s[1..]);
      var head := if IsUnderscore(s[0]) then [] else [s[0]];
      WithoutAppend(head, Without(s[1..], IsUnderscore), IsSeparatorOrUnderscore);
    }
  }

  /** Two strings equal up to underscores are equal up to separators and underscores. */
  lemma SameUpToUnderscores(a: string, b: string)
    requires Without(a, IsUnderscore) == Without(b, IsUnderscore)
    ensures Without(a, IsSeparatorOrUnderscore) == Without(b, IsSeparatorOrUnderscore)
  {
    WithoutUnderscoresFirst(a);
    WithoutUnderscoresFirst(b);
  }

  // ---------------------------------------------------------------------
  // Reference reading shared by rewrites 1 and 6
  // ---------------------------------------------------------------------

  /** A character satisfying `p` yields one underscore when it begins a run of
      such characters (`inRun` is false) and nothing when it continues one;
      every other character is kept. */
  function RunStartsToUnderscore(s: string, p: char -> bool, inRun: bool): string
    decreases |s|
  {
    if s == [] then []
    else (if !p(s[0]) then [s[0]] else if inRun then "" else "_")
         + RunStartsToUnderscore(s[1..], p, p(s[0]))
  }

  /** Inside a run, the rest of the run produces nothing. */
  lemma {:induction false} InRunSkips(s: string, p: char -> bool)
    ensures RunStartsToUnderscore(s, p, true) == RunStartsToUnderscore(SkipWhile(s, p), p, false)
    decreases |s|
  {
    if s != [] && p(s[0]) {
      InRunSkips(s[1..], p);
    }
  }

  // ---------------------------------------------------------------------
  // Rewrite 1: re.sub(r"[-\s]+", "_", name)
  // ---------------------------------------------------------------------

  /** Every maximal run of hyphens and whitespace becomes a single underscore. */
  function ReplaceSeparators(s: string): (r: string)
    ensures forall c :: c in r ==> c == '_' || (c in s && !IsSeparator(c))
    decreases |s|
  {
    if s == [] then []
    else if IsSeparator(s[0]) then "_" + ReplaceSeparators(SkipWhile(s[1..], IsSeparator))
    else [s[0]] + ReplaceSeparators(s[1..])
  }

  /** The scan equals the reference: a separator yields `_` exactly when it starts a run. */
  lemma {:induction false} ReplaceSeparatorsMarksRunStarts(s: string)
    ensures ReplaceSeparators(s) == RunStartsToUnderscore(s, IsSeparator, false)
    decreases |s|
  {
    if s != [] {
      if IsSeparator(s[0]) {
        InRunSkips(s[1..], IsSeparator);
        ReplaceSeparatorsMarksRunStarts(SkipWhile(s[1..], IsSeparator));
      } else {
        ReplaceSeparatorsMarksRunStarts(s[1..]);
      }
    }
  }

  /** Apart from separators and underscores, the text is kept in order. */
  lemma {:induction false} ReplaceSeparatorsKeepsText(s: string)
    ensures Without(ReplaceSeparators(s), IsSeparatorOrUnderscore) == Without(s, IsSeparatorOrUnderscore)
    decreases |s|
  {
    if s != [] {
      if IsSeparator(s[0]) {
        var t := SkipWhile(s[1..], IsSeparator);
        ReplaceSeparatorsKeepsText(t);
        WithoutAppend("_", ReplaceSeparators(t), IsSeparatorOrUnderscore);
        var k := |s[1..]| - |t|;
        assert s[1..] == s[1..][..k] + t;
        WithoutAll(s[1..][..k], IsSeparatorOrUnderscore);
        WithoutAppend(s[1..][..k], t, IsSeparatorOrUnderscore);
      } else {
        ReplaceSeparatorsKeepsText(s[1..]);
        WithoutAppend([s[0]], ReplaceSeparators(s[1..]), IsSeparatorOrUnderscore);
      }
    }
  }

  // ---------------------------------------------------------------------
  // Rewrite 2: re.sub(r"([a-z0-9])([A-Z])", r"\1_\2", name)
  // ---------------------------------------------------------------------

  /** A lowercase letter or digit directly followed by an uppercase letter. */
  predicate CamelBoundary(a: char, b: char) {
    (IsLower(a) || IsDigit(a)) && IsUpper(b)
  }

  predicate NoCamelBoundary(s: string) {
    forall i :: 0 <= i < |s| - 1 ==> !CamelBoundary(s[i], s[i + 1])
  }

  /** The scan: a match consumes both characters and the scan resumes after them. */
  function SplitCamel(s: string): (r: string)
    ensures forall c :: c in r ==> c in s || c == '_'
    decreases |s|
  {
    if |s| < 2 then s
    else if CamelBoundary(s[0], s[1]) then [s[0], '_', s[1]] + SplitCamel(s[2..])
    else [s[0]] + SplitCamel(s[1..])
  }

  /** Reference: an underscore between every adjacent pair forming a camel boundary. */
  function CamelMarked(s: string): (r: string)
    ensures |s| > 0 ==> |r| > 0 && r[0] == s[0]
    decreases |s|
  {
    if |s| < 2 then s
    else [s[0]] + (if CamelBoundary(s[0], s[1]) then "_" else "") + CamelMarked(s[1..])
  }

  /** Non-overlapping scanning misses no boundary, since a match ends in an
      uppercase letter, which cannot begin another match. */
  lemma {:induction false} SplitCamelMarksEveryBoundary(s: string)
    ensures SplitCamel(s) == CamelMarked(s)
    decreases |s|
  {
    if |s| >= 2 {
      if CamelBoundary(s[0], s[1]) {
        SplitCamelMarksEveryBoundary(s[2..]);
        assert s[1..][1..] == s[2..];
      } else {
        SplitCamelMarksEveryBoundary(s[1..]);
      }
    }
  }

  lemma {:induction false} CamelMarkedLeavesNoBoundary(s: string)
    ensures NoCamelBoundary(CamelMarked(s))
    decreases |s|
  {
    if |s| >= 2 {
      CamelMarkedLeavesNoBoundary(s[1..]);
      var ins := if CamelBoundary(s[0], s[1]) then "_" else "";
      var rest := CamelMarked(s[1..]);
      var r := CamelMarked(s);
      assert r == [s[0]] + ins + rest;
      forall i | 0 <= i < |r| - 1
        ensures !CamelBoundary(r[i], r[i + 1])
      {
        if i >= 1 + |ins| {
          assert r[i] == rest[i - 1 - |ins|] && r[i + 1] == rest[i - |ins|];
        }
      }
    }
  }

  lemma {:induction false} CamelMarkedKeepsText(s: string)
    ensures Without(CamelMarked(s), IsUnderscore) == Without(s, IsUnderscore)
    decreases |s|
  {
    if |s| >= 2 {
      CamelMarkedKeepsText(s[1..]);
      var ins := if CamelBoundary(s[0], s[1]) then "_" else "";
      WithoutAppend([s[0]] + ins, CamelMarked(s[1..]), IsUnderscore);
      WithoutAppend([s[0]], ins, IsUnderscore);
      WithoutAppend([s[0]], s[1..], IsUnderscore);
      assert [s[0]] + s[1..] == s;
    }
  }

  /** After rewrite 2: no lowercase letter or digit is directly followed by an
      uppercase letter, and only underscores were added. */
  lemma SplitCamelSeparatesWords(s: string)
    ensures NoCamelBoundary(SplitCamel(s))
    ensures Without(SplitCamel(s), IsUnderscore) == Without(s, IsUnderscore)
  {
    SplitCamelMarksEveryBoundary(s);
    CamelMarkedLeavesNoBoundary(s);
    CamelMarkedKeepsText(s);
  }


  lemma {:induction false} CamelMarkedWithoutBoundary(s: string)
    requires NoCamelBoundary(s)
    ensures CamelMarked(s) == s
    decreases |s|
  {
    if |s| >= 2 {
      CamelMarkedWithoutBoundary(s[1..]);
      assert s == [s[0]] + s[1..];
    }
  }

  /** Rewrite 2 changes a string only where a camel boundary occurs. */
  lemma SplitCamelOnlyAtBoundaries(s: string)
    requires NoCamelBoundary(s)
    ensures SplitCamel(s) == s
  {
    SplitCamelMarksEveryBoundary(s);
    CamelMarkedWithoutBoundary(s);
  }

  // ---------------------------------------------------------------------
  // Rewrite 3: re.sub(r"([A-Z]+)([A-Z][a-z])", r"\1_\2", name)
  // ---------------------------------------------------------------------

  /** Length of the run of uppercase letters that `s` starts with. */
  function UpperRun(s: string): (n: nat)
    ensures n <= |s|
    ensures forall i :: 0 <= i < n ==> IsUpper(s[i])
    ensures n < |s| ==> !IsUpper(s[n])
    decreases |s|
  {
    if s != [] && IsUpper(s[0]) then 1 + UpperRun(s[1..]) else 0
  }

  /** The pattern matches at the start of `s` exactly when `s` starts with at
      least two uppercase letters and the run is followed by a lowercase one:
      `[A-Z]+` backtracks to leave the run's last letter for `[A-Z][a-z]`. */
  predicate AcronymMatch(s: string) {
    var n := UpperRun(s);
    2 <= n < |s| && IsLower(s[n])
  }

  /** A string of capitals only. */
  predicate AllUpper(s: string) {
    forall i :: 0 <= i < |s| ==> IsUpper(s[i])
  }

  /** A leading block of capitals lies within the maximal run. */
  lemma {:induction false} UpperRunCovers(s: string, m: nat)
    requires m <= |s| && AllUpper(s[..m])
    ensures m <= UpperRun(s)
    decreases m
  {
    if m > 0 {
      assert IsUpper(s[..m][0]);
      var t := s[1..];
      assert AllUpper(t[..m - 1]) by {
        assert t[..m - 1] == s[1..m];
        forall i | 0 <= i < m - 1 ensures IsUpper(s[1..m][i]) {
          assert s[1..m][i] == s[..m][i + 1];
        }
      }
      UpperRunCovers(t, m - 1);
    }
  }

  /** `AcronymMatch` is the regex's own condition: the input starts with one
      or more capitals (group 1) and then a capital and a lowercase letter
      (group 2); `j` is the position of that lowercase letter. */
  lemma {:induction false} AcronymMatchIsRegexMatch(s: string)
    ensures AcronymMatch(s) <==> exists j :: 2 <= j < |s| && IsLower(s[j]) && AllUpper(s[..j])
  {
    var n := UpperRun(s);
    if AcronymMatch(s) {
      assert 2 <= n < |s| && IsLower(s[n]) && AllUpper(s[..n]);
    }
    if j :| 2 <= j < |s| && IsLower(s[j]) && AllUpper(s[..j]) {
      UpperRunCovers(s, j);
      assert !IsUpper(s[j]);
    }
  }

  /** Two uppercase letters followed by a lowercase one. */
  predicate AcronymEnd(a: char, b: char, c: char) {
    IsUpper(a) && IsUpper(b) && IsLower(c)
  }

  predicate NoAcronymEnd(s: string) {
    forall i :: 0 <= i < |s| - 2 ==> !AcronymEnd(s[i], s[i + 1], s[i + 2])
  }

  /** The scan: on a match, the underscore goes before the run's last letter and
      the scan resumes after the lowercase letter; otherwise it advances by one. */
  function SplitAcronym(s: string): (r: string)
    ensures forall c :: c in r ==> c in s || c == '_'
    decreases |s|
  {
    if s == [] then []
    else if AcronymMatch(s) then
      var n := UpperRun(s);
      s[..n - 1] + "_" + s[n - 1..n + 1] + SplitAcronym(s[n + 1..])
    else [s[0]] + SplitAcronym(s[1..])
  }

  /** Reference: an underscore between the first two letters of every
      uppercase-uppercase-lowercase triple. */
  function AcronymMarked(s: string): (r: string)
    ensures |r| >= |s|
    ensures |s| > 0 ==> r[0] == s[0]
    decreases |s|
  {
    if |s| < 3 then s
    else [s[0]] + (if AcronymEnd(s[0], s[1], s[2]) then "_" else "") + AcronymMarked(s[1..])
  }

  /** One step of the reference, also for strings shorter than three. */
  lemma AcronymMarkedStep(s: string)
    requires |s| > 0
    ensures AcronymMarked(s)
            == [s[0]] + (if |s| >= 3 && AcronymEnd(s[0], s[1], s[2]) then "_" else "") + AcronymMarked(s[1..])
  {
    if |s| < 3 {
      assert s == [s[0]] + s[1..];
    }
  }

  /** Inside an uppercase run the reference copies the letter. */
  lemma AcronymMarkedInRun(t: string)
    requires |t| >= 3 && IsUpper(t[0]) && IsUpper(t[1]) && IsUpper(t[2])
    ensures AcronymMarked(t) == [t[0]] + AcronymMarked(t[1..])
  {
  }

  /** At the last two capitals before a lowercase letter the reference inserts its underscore. */
  lemma AcronymMarkedAtEnd(t: string)
    requires |t| >= 3 && IsUpper(t[0]) && IsUpper(t[1]) && IsLower(t[2])
    ensures AcronymMarked(t) == [t[0]] + "_" + ([t[1]] + ([t[2]] + AcronymMarked(t[3..])))
  {
    var u := t[1..];
    AcronymMarkedStep(u);
    assert u[1..] == t[2..];
    var v := t[2..];
    AcronymMarkedStep(v);
    assert v[1..] == t[3..];
  }

  lemma RegroupEnd(s: string, k: nat, rest: string)
    requires k + 3 <= |s|
    ensures [s[k]] + "_" + ([s[k + 1]] + ([s[k + 2]] + rest)) == s[k..k + 1] + "_" + s[k + 1..k + 3] + rest
  {
  }

  lemma RegroupRun(s: string, k: nat, n: nat, rest: string)
    requires k + 1 < n <= |s|
    ensures [s[k]] + (s[k + 1..n - 1] + "_" + rest) == s[k..n - 1] + "_" + rest
  {
    assert s[k..n - 1] == [s[k]] + s[k + 1..n - 1];
  }

  /** Over an uppercase run ending at `n`, followed by a lowercase letter, the
      reference inserts exactly one underscore, before the run's last letter. */
  lemma {:induction false} AcronymMarkedOverRun(s: string, k: nat, n: nat)
    requires k + 2 <= n < |s|
    requires forall i :: k <= i < n ==> IsUpper(s[i])
    requires IsLower(s[n])
    ensures AcronymMarked(s[k..]) == s[k..n - 1] + "_" + s[n - 1..n + 1] + AcronymMarked(s[n + 1..])
    decreases n - k
  {
    var t := s[k..];
    if k + 2 == n {
      AcronymMarkedAtEnd(t);
      assert t[3..] == s[n + 1..];
      RegroupEnd(s, k, AcronymMarked(s[n + 1..]));
    } else {
      AcronymMarkedInRun(t);
      assert t[1..] == s[k + 1..];
      AcronymMarkedOverRun(s, k + 1, n);
      RegroupRun(s, k, n, s[n - 1..n + 1] + AcronymMarked(s[n + 1..]));
    }
  }

  /** Where the pattern matches, the reference inserts the same single underscore. */
  lemma AcronymMarkedAtMatch(s: string)
    requires AcronymMatch(s)
    ensures var n := UpperRun(s);
            AcronymMarked(s) == s[..n - 1] + "_" + s[n - 1..n + 1] + AcronymMarked(s[n + 1..])
  {
    var n := UpperRun(s);
    AcronymMarkedOverRun(s, 0, n);
    assert s[0..] == s;
    assert s[0..n - 1] == s[..n - 1];
  }

  /** Where the pattern does not match, the input does not start with a triple. */
  lemma NoMatchNoEnd(s: string)
    requires |s| >= 3 && !AcronymMatch(s)
    ensures !AcronymEnd(s[0], s[1], s[2])
  {
    if IsUpper(s[0]) && IsUpper(s[1]) {
      assert UpperRun(s) == 1 + UpperRun(s[1..]);
      assert UpperRun(s[1..]) == 1 + UpperRun(s[2..]);
      assert s[2..][0] == s[2];
    }
  }

  /** Where the pattern does not match, the reference inserts nothing after the first character. */
  lemma AcronymMarkedNoMatch(s: string)
    requires s != [] && !AcronymMatch(s)
    ensures AcronymMarked(s) == [s[0]] + AcronymMarked(s[1..])
  {
    AcronymMarkedStep(s);
    if |s| >= 3 {
      NoMatchNoEnd(s);
    }
    assert [s[0]] + "" == [s[0]];
  }

  lemma {:induction false} SplitAcronymMarksEveryEnd(s: string)
    ensures SplitAcronym(s) == AcronymMarked(s)
    decreases |s|
  {
    if s != [] {
      if AcronymMatch(s) {
        var n := UpperRun(s);
        var head := s[..n - 1] + "_" + s[n - 1..n + 1];
        var tail := s[n + 1..];
        AcronymMarkedAtMatch(s);
        SplitAcronymMarksEveryEnd(tail);
        assert SplitAcronym(s) == head + SplitAcronym(tail) == head + AcronymMarked(tail);
      } else {
        AcronymMarkedNoMatch(s);
        SplitAcronymMarksEveryEnd(s[1..]);
        assert SplitAcronym(s) == [s[0]] + SplitAcronym(s[1..]) == [s[0]] + AcronymMarked(s[1..]);
      }
    }
  }

  /** The second character of the reference is an inserted underscore or the input's second. */
  lemma AcronymMarkedSecond(s: string)
    requires |s| >= 2
    ensures |AcronymMarked(s)| >= 2
    ensures AcronymMarked(s)[1] == '_' || AcronymMarked(s)[1] == s[1]
  {
    AcronymMarkedStep(s);
  }

  lemma {:induction false} AcronymMarkedLeavesNoEnd(s: string)
    ensures NoAcronymEnd(AcronymMarked(s))
    decreases |s|
  {
    if |s| >= 3 {
      AcronymMarkedLeavesNoEnd(s[1..]);
      AcronymMarkedSecond(s[1..]);
      var ins := if AcronymEnd(s[0], s[1], s[2]) then "_" else "";
      var rest := AcronymMarked(s[1..]);
      var r := AcronymMarked(s);
      assert r == [s[0]] + ins + rest;
      forall i | 0 <= i < |r| - 2
        ensures !AcronymEnd(r[i], r[i + 1], r[i + 2])
      {
        if i >= 1 + |ins| {
          var j := i - 1 - |ins|;
          assert r[i] == rest[j] && r[i + 1] == rest[j + 1] && r[i + 2] == rest[j + 2];
        }
      }
    }
  }

  lemma {:induction false} AcronymMarkedKeepsText(s: string)
    ensures Without(AcronymMarked(s), IsUnderscore) == Without(s, IsUnderscore)
    decreases |s|
  {
    if |s| >= 3 {
      AcronymMarkedKeepsText(s[1..]);
      var ins := if AcronymEnd(s[0], s[1], s[2]) then "_" else "";
      WithoutAppend([s[0]] + ins, AcronymMarked(s[1..]), IsUnderscore);
      WithoutAppend([s[0]], ins, IsUnderscore);
      WithoutAppend([s[0]], s[1..], IsUnderscore);
      assert [s[0]] + s[1..] == s;
    }
  }

  /** After rewrite 3: no uppercase run is directly followed by an
      uppercase-lowercase pair any more, and only underscores were added. */
  lemma SplitAcronymSeparatesWords(s: string)
    ensures NoAcronymEnd(SplitAcronym(s))
    ensures Without(SplitAcronym(s), IsUnderscore) == Without(s, IsUnderscore)
  {
    SplitAcronymMarksEveryEnd(s);
    AcronymMarkedLeavesNoEnd(s);
    AcronymMarkedKeepsText(s);
  }


  lemma {:induction false} AcronymMarkedWithoutEnd(s: string)
    requires NoAcronymEnd(s)
    ensures AcronymMarked(s) == s
    decreases |s|
  {
    if |s| >= 3 {
      AcronymMarkedWithoutEnd(s[1..]);
      assert s == [s[0]] + s[1..];
    }
  }

  /** Rewrite 3 changes a string only where an uppercase-uppercase-lowercase triple occurs. */
  lemma SplitAcronymOnlyAtEnds(s: string)
    requires NoAcronymEnd(s)
    ensures SplitAcronym(s) == s
  {
    SplitAcronymMarksEveryEnd(s);
    AcronymMarkedWithoutEnd(s);
  }

  // ---------------------------------------------------------------------
  // Rewrite 4: name.lower()
  // ---------------------------------------------------------------------

  function Lower(s: string): (r: string)
    ensures |r| == |s|
    ensures forall i :: 0 <= i < |s| ==> r[i] == LowerChar(s[i])
    decreases |s|
  {
    if s == [] then [] else [LowerChar(s[0])] + Lower(s[1..])
  }

  lemma LowerAppend(a: string, b: string)
    ensures Lower(a + b) == Lower(a) + Lower(b)
  {
  }

  /** Lowercasing commutes with deleting separators and underscores. */
  lemma {:induction false} LowerKeepsText(s: string)
    ensures Without(Lower(s), IsSeparatorOrUnderscore) == Lower(Without(s, IsSeparatorOrUnderscore))
    decreases |s|
  {
    if s != [] {
      LowerKeepsText(s[1..]);
      assert Lower(s) == [LowerChar(s[0])] + Lower(s[1..]);
      var head := if IsSeparatorOrUnderscore(s[0]) then [] else [s[0]];
      LowerAppend(head, Without(s[1..], IsSeparatorOrUnderscore));
    }
  }

  // ---------------------------------------------------------------------
  // Rewrite 5: name.strip("_")
  // ---------------------------------------------------------------------

  function StripUnderscores(s: string): (r: string)
    ensures r != [] ==> r[0] != '_' && r[|r| - 1] != '_'
  {
    DropTrailing(SkipWhile(s, IsUnderscore), IsUnderscore)
  }

  /** Stripping removes underscores only, and only at the two ends: the result
      is the middle of the input, with nothing but underscores on either side. */
  lemma StripRemovesOnlyEdgeUnderscores(s: string)
    ensures var r := StripUnderscores(s);
            var k := |s| - |SkipWhile(s, IsUnderscore)|;
            && k + |r| <= |s|
            && s[k..k + |r|] == r
            && (forall i :: 0 <= i < k ==> s[i] == '_')
            && (forall i :: k + |r| <= i < |s| ==> s[i] == '_')
  {
    var t := SkipWhile(s, IsUnderscore);
    var r := DropTrailing(t, IsUnderscore);
    var k := |s| - |t|;
    assert t == s[k..];
    assert r == t[..|r|];
    forall i | k + |r| <= i < |s|
      ensures s[i] == '_'
    {
      assert IsUnderscore(t[i - k]);
    }
  }

  lemma {:induction false} WithoutSkipWhile(s: string, p: char -> bool)
    ensures Without(SkipWhile(s, p), p) == Without(s, p)
    decreases |s|
  {
    if s != [] && p(s[0]) {
      WithoutSkipWhile(s[1..], p);
    }
  }

  lemma {:induction false} WithoutDropTrailing(s: string, p: char -> bool)
    ensures Without(DropTrailing(s, p), p) == Without(s, p)
    decreases |s|
  {
    if s != [] && p(s[|s| - 1]) {
      var init := s[..|s| - 1];
      WithoutDropTrailing(init, p);
      assert s == init + [s[|s| - 1]];
      WithoutAppend(init, [s[|s| - 1]], p);
    }
  }

  lemma StripKeepsText(s: string)
    ensures Without(StripUnderscores(s), IsUnderscore) == Without(s, IsUnderscore)
  {
    WithoutSkipWhile(s, IsUnderscore);
    WithoutDropTrailing(SkipWhile(s, IsUnderscore), IsUnderscore);
  }

  // ---------------------------------------------------------------------
  // Rewrite 6: re.sub(r"__+", "_", name)
  // ---------------------------------------------------------------------

  predicate NoDoubleUnderscore(s: string) {
    forall i :: 0 <= i < |s| - 1 ==> !(s[i] == '_' && s[i + 1] == '_')
  }

  /** The scan: two or more underscores in a row become one; a single
      underscore is not a match and is kept as it is. */
  function CollapseUnderscores(s: string): (r: string)
    ensures forall c :: c in r ==> c in s
    ensures s != [] ==> r != [] && r[0] == s[0]
    ensures s != [] && s[|s| - 1] != '_' ==> r[|r| - 1] == s[|s| - 1]
    ensures NoDoubleUnderscore(r)
    decreases |s|
  {
    if |s| >= 2 && s[0] == '_' && s[1] == '_' then "_" + CollapseUnderscores(SkipWhile(s, IsUnderscore))
    else if s == [] then []
    else [s[0]] + CollapseUnderscores(s[1..])
  }

  /** The scan equals the reference: an underscore is kept exactly when it starts a run. */
  lemma {:induction false} CollapseMarksRunStarts(s: string)
    ensures CollapseUnderscores(s) == RunStartsToUnderscore(s, IsUnderscore, false)
    decreases |s|
  {
    if s != [] {
      if s[0] == '_' {
        InRunSkips(s[1..], IsUnderscore);
        if |s| >= 2 && s[1] == '_' {
          CollapseMarksRunStarts(SkipWhile(s, IsUnderscore));
        } else {
          CollapseMarksRunStarts(s[1..]);
        }
      } else {
        CollapseMarksRunStarts(s[1..]);
      }
    }
  }

  lemma {:induction false} RunStartsKeepText(s: string, inRun: bool)
    ensures Without(RunStartsToUnderscore(s, IsUnderscore, inRun), IsUnderscore) == Without(s, IsUnderscore)
    decreases |s|
  {
    if s != [] {
      RunStartsKeepText(s[1..], s[0] == '_');
      var head := if s[0] != '_' then [s[0]] else if inRun then "" else "_";
      WithoutAppend(head, RunStartsToUnderscore(s[1..], IsUnderscore, s[0] == '_'), IsUnderscore);
    }
  }

  lemma CollapseKeepsText(s: string)
    ensures Without(CollapseUnderscores(s), IsUnderscore) == Without(s, IsUnderscore)
  {
    CollapseMarksRunStarts(s);
    RunStartsKeepText(s, false);
  }

  // ---------------------------------------------------------------------
  // The whole pipeline
  // ---------------------------------------------------------------------

  function ToSnakeCase(name: string): (r: string)
    ensures r != [] ==> r[0] != '_' && r[|r| - 1] != '_'
    ensures NoDoubleUnderscore(r)
  {
    var spaced := ReplaceSeparators(name);
    var camel := SplitCamel(spaced);
    var acronyms := SplitAcronym(camel);
    var lowered := Lower(acronyms);
    var stripped := StripUnderscores(lowered);
    CollapseUnderscores(stripped)
  }

  /** What every result looks like: no uppercase letter, no hyphen or
      whitespace, no underscore at either end, no two underscores in a row. */
  predicate IsNormalized(s: string) {
    && (forall i :: 0 <= i < |s| ==> !IsUpper(s[i]) && !IsSeparator(s[i]))
    && (s != [] ==> s[0] != '_' && s[|s| - 1] != '_')
    && NoDoubleUnderscore(s)
  }

  /** No character of `s` is an uppercase letter, a hyphen or whitespace. */
  predicate Clean(s: string) {
    forall c :: c in s ==> !IsUpper(c) && !IsSeparator(c)
  }

  lemma CleanSlice(s: string, i: nat, j: nat)
    requires Clean(s) && i <= j <= |s|
    ensures Clean(s[i..j])
  {
    forall c | c in s[i..j] ensures c in s {
      var k :| 0 <= k < j - i && s[i..j][k] == c;
      assert s[i + k] == c;
    }
  }

  /** The first three rewrites leave no hyphen or whitespace. */
  lemma SplitsHaveNoSeparator(name: string)
    ensures forall c :: c in SplitAcronym(SplitCamel(ReplaceSeparators(name))) ==> !IsSeparator(c)
  {
  }

  lemma LowerIsClean(s: string)
    requires forall c :: c in s ==> !IsSeparator(c)
    ensures Clean(Lower(s))
  {
    var r := Lower(s);
    forall c | c in r ensures !IsUpper(c) && !IsSeparator(c) {
      var i :| 0 <= i < |r| && r[i] == c;
      assert s[i] in s;
    }
  }

  lemma StripIsClean(s: string)
    requires Clean(s)
    ensures Clean(StripUnderscores(s))
  {
    var t := SkipWhile(s, IsUnderscore);
    CleanSlice(s, |s| - |t|, |s|);
    CleanSlice(t, 0, |DropTrailing(t, IsUnderscore)|);
  }

  lemma CollapseIsNormalized(s: string)
    requires Clean(s)
    requires s != [] ==> s[0] != '_' && s[|s| - 1] != '_'
    ensures IsNormalized(CollapseUnderscores(s))
  {
    var r := CollapseUnderscores(s);
    forall i | 0 <= i < |r|
      ensures !IsUpper(r[i]) && !IsSeparator(r[i])
    {
      assert r[i] in r;
    }
  }

  lemma ToSnakeCaseIsNormalized(name: string)
    ensures IsNormalized(ToSnakeCase(name))
  {
    var acronyms := SplitAcronym(SplitCamel(ReplaceSeparators(name)));
    SplitsHaveNoSeparator(name);
    LowerIsClean(acronyms);
    StripIsClean(Lower(acronyms));
    CollapseIsNormalized(StripUnderscores(Lower(acronyms)));
  }

  /** Everything but separators and underscores survives, lowercased and in order. */
  lemma ToSnakeCaseKeepsText(name: string)
    ensures Without(ToSnakeCase(name), IsSeparatorOrUnderscore)
            == Lower(Without(name, IsSeparatorOrUnderscore))
  {
    var spaced := ReplaceSeparators(name);
    var camel := SplitCamel(spaced);
    var acronyms := SplitAcronym(camel);
    var lowered := Lower(acronyms);
    var stripped := StripUnderscores(lowered);
    var r := CollapseUnderscores(stripped);
    ReplaceSeparatorsKeepsText(name);
    SplitCamelSeparatesWords(spaced);
    SameUpToUnderscores(camel, spaced);
    SplitAcronymSeparatesWords(camel);
    SameUpToUnderscores(acronyms, camel);
    LowerKeepsText(acronyms);
    StripKeepsText(lowered);
    SameUpToUnderscores(stripped, lowered);
    CollapseKeepsText(stripped);
    SameUpToUnderscores(r, stripped);
  }

  // Each rewrite leaves a normalized string as it is.

  lemma {:induction false} ReplaceSeparatorsFixes(s: string)
    requires forall i :: 0 <= i < |s| ==> !IsSeparator(s[i])
    ensures ReplaceSeparators(s) == s
    decreases |s|
  {
    if s != [] {
      ReplaceSeparatorsFixes(s[1..]);
    }
  }

  lemma {:induction false} CollapseFixes(s: string)
    requires NoDoubleUnderscore(s)
    ensures CollapseUnderscores(s) == s
    decreases |s|
  {
    if s != [] {
      var t := s[1..];
      assert NoDoubleUnderscore(t) by {
        forall i | 0 <= i < |t| - 1
          ensures !(t[i] == '_' && t[i + 1] == '_')
        {
          assert t[i] == s[i + 1] && t[i + 1] == s[i + 2];
        }
      }
      CollapseFixes(t);
      if |s| >= 2 {
        assert !(s[0] == '_' && s[1] == '_');
      }
      assert CollapseUnderscores(s) == [s[0]] + CollapseUnderscores(t);
      assert s == [s[0]] + t;
    }
  }

  lemma NormalizedHasNoWordBreak(s: string)
    requires IsNormalized(s)
    ensures NoCamelBoundary(s) && NoAcronymEnd(s)
  {
    forall i | 0 <= i < |s| - 1 ensures !CamelBoundary(s[i], s[i + 1]) {
      assert !IsUpper(s[i + 1]);
    }
    forall i | 0 <= i < |s| - 2 ensures !AcronymEnd(s[i], s[i + 1], s[i + 2]) {
      assert !IsUpper(s[i]);
    }
  }

  lemma LowerFixes(s: string)
    requires forall i :: 0 <= i < |s| ==> !IsUpper(s[i])
    ensures Lower(s) == s
  {
    assert forall i :: 0 <= i < |s| ==> Lower(s)[i] == s[i];
  }

  lemma StripFixes(s: string)
    requires s != [] ==> s[0] != '_' && s[|s| - 1] != '_'
    ensures StripUnderscores(s) == s
  {
    assert SkipWhile(s, IsUnderscore) == s;
    assert DropTrailing(s, IsUnderscore) == s;
  }

  lemma NormalizedFixes(s: string)
    requires IsNormalized(s)
    ensures ToSnakeCase(s) == s
  {
    ReplaceSeparatorsFixes(s);
    NormalizedHasNoWordBreak(s);
    SplitCamelOnlyAtBoundaries(s);
    SplitAcronymOnlyAtEnds(s);
    LowerFixes(s);
    StripFixes(s);
    CollapseFixes(s);
  }

  /** A normalized name is returned unchanged, and only a normalized name is. */
  lemma FixedPointsAreNormalized(s: string)
    ensures ToSnakeCase(s) == s <==> IsNormalized(s)
  {
    if IsNormalized(s) {
      NormalizedFixes(s);
    }
    ToSnakeCaseIsNormalized(s);
  }

  lemma ToSnakeCaseIdempotent(name: string)
    ensures ToSnakeCase(ToSnakeCase(name)) == ToSnakeCase(name)
  {
    ToSnakeCaseIsNormalized(name);
    FixedPointsAreNormalized(ToSnakeCase(name));
  }
}
