/** Running the fixes one after the other: whitespace, then tabs, then license text.  No fix
    undoes another one, and a second round finds nothing to do. */
module FixerComposition {
  import opened StyleFixer

  // ---------- Strip ----------

  ghost predicate AllOf(s: string, p: char -> bool) {
    forall i | 0 <= i < |s| :: p(s[i])
  }

  /** Empty, or with ends that would not be dropped. */
  ghost predicate Bare(s: string, drop: char -> bool) {
    s == [] || (!drop(s[0]) && !drop(s[|s| - 1]))
  }

  lemma {:induction false} RStripShape(s: string, drop: char -> bool) returns (b: string)
    ensures s == RStrip(s, drop) + b && AllOf(b, drop)
    ensures RStrip(s, drop) == [] || !drop(RStrip(s, drop)[|RStrip(s, drop)| - 1])
  {
    if s != [] && drop(s[|s| - 1]) {
      var b' := RStripShape(s[..|s| - 1], drop);
      var r := RStrip(s[..|s| - 1], drop);
      b := b' + [s[|s| - 1]];
      assert s == s[..|s| - 1] + [s[|s| - 1]] == (r + b') + [s[|s| - 1]] == r + b;
    } else {
      b := [];
    }
  }

  lemma {:induction false} LStripShape(s: string, drop: char -> bool) returns (a: string)
    ensures s == a + LStrip(s, drop) && AllOf(a, drop)
    ensures LStrip(s, drop) == [] || !drop(LStrip(s, drop)[0])
  {
    if s != [] && drop(s[0]) {
      var a' := LStripShape(s[1..], drop);
      var r := LStrip(s[1..], drop);
      a := [s[0]] + a';
      assert s == [s[0]] + s[1..] == [s[0]] + (a' + r) == a + r;
    } else {
      a := [];
    }
  }

  lemma StripShape(s: string, drop: char -> bool) returns (a: string, b: string)
    ensures s == a + StripAll(s, drop) + b
    ensures AllOf(a, drop) && AllOf(b, drop) && Bare(StripAll(s, drop), drop)
  {
    b := RStripShape(s, drop);
    var r := RStrip(s, drop);
    a := LStripShape(r, drop);
    var t := StripAll(s, drop);
    assert r == a + t && s == a + t + b;
    if t != [] { assert r[|r| - 1] == t[|t| - 1]; }
  }

  lemma {:induction false} RStripSuffix(s: string, b: string, drop: char -> bool)
    requires AllOf(b, drop) && (s == [] || !drop(s[|s| - 1]))
    ensures RStrip(s + b, drop) == s
  {
    if b == [] {
      assert s + b == s;
    } else {
      assert (s + b)[|s + b| - 1] == b[|b| - 1];
      assert (s + b)[..|s + b| - 1] == s + b[..|b| - 1];
      RStripSuffix(s, b[..|b| - 1], drop);
    }
  }

  lemma {:induction false} LStripPrefix(a: string, s: string, drop: char -> bool)
    requires AllOf(a, drop) && (s == [] || !drop(s[0]))
    ensures LStrip(a + s, drop) == s
  {
    if a == [] {
      assert a + s == s;
    } else {
      assert (a + s)[1..] == a[1..] + s;
      LStripPrefix(a[1..], s, drop);
    }
  }

  /** Stripping is determined by where the bare middle is. */
  lemma StripMiddle(a: string, s: string, b: string, drop: char -> bool)
    requires AllOf(a, drop) && AllOf(b, drop) && Bare(s, drop)
    ensures StripAll(a + s + b, drop) == s
  {
    if s == [] {
      assert a + s + b == [] + (a + b);
      RStripSuffix([], a + b, drop);
    } else {
      RStripSuffix(a + s, b, drop);
      LStripPrefix(a, s, drop);
    }
  }

  lemma StripKeeps(s: string, drop: char -> bool, x: char)
    requires x in s && !drop(x)
    ensures x in StripAll(s, drop)
  {
    var a, b := StripShape(s, drop);
    assert x !in a && x !in b;
    assert x in a + StripAll(s, drop) + b;
  }

  lemma UncommentedKeeps(s: string, x: char)
    requires x in s && !IsSpace(x) && !IsCommentMark(x)
    ensures x in Strip(s) && x in Uncommented(s)
  {
    StripKeeps(s, IsSpace, x);
    StripKeeps(Strip(s), IsCommentMark, x);
    StripKeeps(StripAll(Strip(s), IsCommentMark), IsSpace, x);
  }

  /** The uncommented text is a part of the line, without spaces at its ends. */
  lemma UncommentedPart(s: string) returns (p: string, q: string)
    ensures s == p + Uncommented(s) + q && Bare(Uncommented(s), IsSpace)
    ensures AllOf(p, SpaceOrMark) && AllOf(q, SpaceOrMark)
    ensures |Uncommented(s)| <= |Strip(s)|
  {
    var a, b := StripShape(s, IsSpace);
    var a', b' := StripShape(Strip(s), IsCommentMark);
    var inner := StripAll(Strip(s), IsCommentMark);
    var a'', b'' := StripShape(inner, IsSpace);
    Nested(a, a', inner, b', b);
    Nested(a + a', a'', Uncommented(s), b'', b' + b);
    p, q := a + a' + a'', b'' + (b' + b);
  }

  lemma Nested(a: string, a': string, m: string, b': string, b: string)
    ensures a + (a' + m + b') + b == (a + a') + m + (b' + b)
  {
  }

  // ---------- Lines ----------

  /** A line as it is read: a newline at most at its end, no carriage return. */
  ghost predicate RawLine(s: string) {
    s != [] && '\r' !in s && '\n' !in s[..|s| - 1]
  }

  /** A line with one newline, at its end, and no space before it. */
  ghost predicate Tidy(s: string) {
    RawLine(s) && s[|s| - 1] == '\n' && (|s| == 1 || !IsSpace(s[|s| - 2]))
  }

  ghost predicate AllRaw(lines: seq<string>) {
    forall i | 0 <= i < |lines| :: RawLine(lines[i])
  }

  ghost predicate AllTidy(lines: seq<string>) {
    forall i | 0 <= i < |lines| :: Tidy(lines[i])
  }

  lemma TidyTail(s: string, n: nat)
    requires Tidy(s) && n < |s|
    ensures Tidy(s[n..])
  {
    var t := s[n..];
    assert t[..|t| - 1] == s[..|s| - 1][n..];
  }

  lemma TidyCons(x: char, t: string)
    requires Tidy(t) && x != '\n' && x != '\r' && (|t| == 1 ==> !IsSpace(x))
    ensures Tidy([x] + t)
  {
    var s := [x] + t;
    assert s[..|s| - 1] == [x] + t[..|t| - 1];
  }

  lemma {:induction false} TidyAppend(p: string, t: string)
    requires Tidy(t) && '\n' !in p && '\r' !in p && (|t| == 1 && p != [] ==> !IsSpace(p[|p| - 1]))
    ensures Tidy(p + t)
  {
    if p == [] {
      assert p + t == t;
    } else {
      TidyAppend(p[1..], t);
      assert p + t == [p[0]] + (p[1..] + t);
      TidyCons(p[0], p[1..] + t);
    }
  }

  lemma WhitespaceLine(rules: Rules, line: string)
    requires RawLine(line)
    ensures Tidy(FixLine(rules, Whitespace, line))
  {
    var b := RStripShape(line, IsSpace);
    var r := RStrip(line, IsSpace);
    assert forall i | 0 <= i < |r| - 1 :: r[i] == line[..|line| - 1][i];
    assert (r + "\n")[..|r|] == r;
  }

  lemma TidyIsCompliant(rules: Rules, line: string)
    requires Tidy(line)
    ensures LineCompliant(rules, Whitespace, line)
  {
    var front := line[..|line| - 1];
    assert line == front + "\n";
    RStripSuffix(front, "\n", IsSpace);
  }

  /** A newline can only be the last character, so it is in no bare part. */
  lemma NoNewlineInside(line: string, p: string, t: string, q: string)
    requires Tidy(line) && line == p + t + q && Bare(t, IsSpace)
    ensures '\n' !in t
  {
    assert forall i | 0 <= i < |t| - 1 :: t[i] == line[..|line| - 1][|p| + i];
  }

  // ---------- Tabs ----------

  lemma {:induction false} ExpandLeavesNoTabs(s: string, column: nat)
    ensures '\t' !in ExpandTabs(s, column)
  {
    if s != [] {
      ExpandLeavesNoTabs(s[1..], NextColumn(s[0], column));
    }
  }

  lemma {:induction false} ExpandShape(s: string, column: nat)
    requires Tidy(s)
    ensures Tidy(ExpandTabs(s, column))
    ensures |ExpandTabs(s, column)| == 1 ==> |s| == 1
  {
    if |s| == 1 {
      assert s[1..] == [];
      assert ExpandTabs(s, column) == s;
    } else {
      TidyTail(s, 1);
      assert s[0] == s[..|s| - 1][0];
      ExpandShape(s[1..], NextColumn(s[0], column));
      if s[0] == '\t' {
        assert |s[1..]| > 1;
        TidyAppend(Expanded(s[0], column), ExpandTabs(s[1..], NextColumn(s[0], column)));
      } else {
        TidyCons(s[0], ExpandTabs(s[1..], NextColumn(s[0], column)));
      }
    }
  }

  lemma {:induction false} ExpandConcat(s: string, t: string, column: nat) returns (next: nat)
    ensures ExpandTabs(s + t, column) == ExpandTabs(s, column) + ExpandTabs(t, next)
    ensures OneLineText(s) ==> next == column + |ExpandTabs(s, column)|
  {
    if s == [] {
      next := column;
      assert s + t == t;
    } else {
      assert (s + t)[0] == s[0] && (s + t)[1..] == s[1..] + t;
      next := ExpandConcat(s[1..], t, NextColumn(s[0], column));
    }
  }

  ghost predicate OneLineText(s: string) {
    forall i | 0 <= i < |s| :: s[i] != '\n' && s[i] != '\r'
  }

  lemma {:induction false} ExpandSpaces(s: string, column: nat)
    requires AllOf(s, IsSpace)
    ensures AllOf(ExpandTabs(s, column), IsSpace)
  {
    if s != [] {
      ExpandSpaces(s[1..], NextColumn(s[0], column));
    }
  }

  lemma {:induction false} ExpandNothing(s: string, column: nat)
    requires '\t' !in s
    ensures ExpandTabs(s, column) == s
  {
    if s != [] {
      assert s == [s[0]] + s[1..];
      ExpandNothing(s[1..], NextColumn(s[0], column));
    }
  }

  /** Tabs around a guard do not hide it. */
  lemma ExpandKeepsGuard(s: string)
    requires '\t' !in Strip(s)
    ensures Strip(ExpandTabs(s, 0)) == Strip(s)
  {
    var a, b := StripShape(s, IsSpace);
    var g := Strip(s);
    var i := ExpandConcat(a + g, b, 0);
    var j := ExpandConcat(a, g, 0);
    ExpandSpaces(a, 0);
    ExpandSpaces(b, i);
    ExpandNothing(g, j);
    StripMiddle(ExpandTabs(a, 0), g, ExpandTabs(b, i), IsSpace);
  }

  lemma TabsLine(rules: Rules, line: string)
    requires Compatible(rules) && Tidy(line)
    ensures var fixed := FixLine(rules, Tabs, line);
      Tidy(fixed) && LineCompliant(rules, Tabs, fixed) && (IsGuard(rules, line) ==> Strip(fixed) == Strip(line))
  {
    ExpandShape(line, 0);
    ExpandLeavesNoTabs(line, 0);
    if IsGuard(rules, line) {
      assert Strip(line) in rules.guardOn + rules.guardOff;
      ExpandKeepsGuard(line);
    }
  }

  /** What is enabled in the check of the fixed lines was enabled when they were fixed; the
      other way round need not hold, because expanding tabs can make a new "off" guard. */
  lemma {:induction false} TabsPass(rules: Rules, lines: seq<string>, fixing: bool, checking: bool)
    requires Compatible(rules) && AllTidy(lines) && (checking ==> fixing)
    ensures AllTidy(FixLines(rules, Tabs, lines, fixing))
    ensures AllCompliant(rules, Tabs, FixLines(rules, Tabs, lines, fixing), checking)
  {
    if lines != [] {
      var line := lines[0];
      var e := Enabled(rules, Tabs, fixing, line);
      var fixed := Fixed(rules, Tabs, e, line);
      TabsLine(rules, line);
      var e' := Enabled(rules, Tabs, checking, fixed);
      TabsPass(rules, lines[1..], e, e');
      assert FixLines(rules, Tabs, lines, fixing)[1..] == FixLines(rules, Tabs, lines[1..], e);
    }
  }

  // ---------- License text ----------

  lemma {:induction false} ReplaceShape(s: string, what: string, with: string)
    requires Tidy(s) && what != [] && '\n' !in what && PlainText(with)
    ensures Tidy(Replace(s, what, with))
    ensures |Replace(s, what, with)| == 1 ==> |s| == 1
    ensures '\t' !in s ==> '\t' !in Replace(s, what, with)
  {
    if |what| <= |s| {
      if what <= s {
        assert |what| < |s|;
        TidyTail(s, |what|);
        ReplaceShape(s[|what|..], what, with);
        TidyAppend(with, Replace(s[|what|..], what, with));
      } else if |s| == 1 {
        assert s[1..] == [] && Replace(s, what, with) == s;
      } else {
        TidyTail(s, 1);
        ReplaceShape(s[1..], what, with);
        assert s[0] == s[..|s| - 1][0];
        TidyCons(s[0], Replace(s[1..], what, with));
      }
    }
  }

  lemma {:induction false} ReplaceHits(p: string, what: string, q: string, with: string, x: char)
    requires what != [] && x in with
    ensures x in Replace(p + what + q, what, with)
    decreases |p|
  {
    var s := p + what + q;
    if !(what <= s) {
      assert p != [] by { assert p == [] ==> s == what + q; }
      assert s[1..] == p[1..] + what + q;
      ReplaceHits(p[1..], what, q, with, x);
    }
  }

  /** A guard is never a license line; and a license line is deleted, or it is turned into a
      tidy line that is neither a license line nor a guard and has no new tabs. */
  lemma LicenseLine(rules: Rules, line: string)
    requires Compatible(rules) && Tidy(line)
    ensures IsGuard(rules, line) ==> LineCompliant(rules, License, line)
    ensures !LineCompliant(rules, License, line) && FixLine(rules, License, line) != [] ==>
      var fixed := FixLine(rules, License, line);
      Tidy(fixed) && LineCompliant(rules, License, fixed) && !IsGuard(rules, fixed) && ('\t' !in line ==> '\t' !in fixed)
  {
    var p, q := UncommentedPart(line);
    var text := Uncommented(line);
    if IsGuard(rules, line) {
      assert Strip(line) in rules.guardOn + rules.guardOff;
    }
    if text in rules.gpl && text == rules.gpl[0] && text != [] {
      NoNewlineInside(line, p, text, q);
      ReplaceShape(line, text, rules.spdx);
      var x :| x in rules.spdx && !IsSpace(x) && !IsCommentMark(x)
        && Lacks(x, rules.guardOn + rules.guardOff + rules.gpl);
      ReplaceHits(p, text, q, rules.spdx, x);
      UncommentedKeeps(Replace(line, text, rules.spdx), x);
    }
  }

  /** What is left of the lines when they are joined and read again. */
  function Kept(lines: seq<string>): seq<string> {
    if lines == [] then []
    else if lines[0] == [] then Kept(lines[1..])
    else [lines[0]] + Kept(lines[1..])
  }

  /** A line that is kept leaves the guards as they were; so does a line that is deleted. */
  lemma KeptLine(rules: Rules, line: string, enabled: bool, rest: seq<string>)
    requires Compatible(rules) && Tidy(line)
    ensures var e := Enabled(rules, License, enabled, line);
      var fixed := Fixed(rules, License, e, line);
      fixed == [] ==> e == enabled && Kept([fixed] + rest) == Kept(rest)
    ensures var e := Enabled(rules, License, enabled, line);
      var fixed := Fixed(rules, License, e, line);
      fixed != [] ==>
        Enabled(rules, License, enabled, fixed) == e && Passes(rules, License, e, fixed)
        && (Passes(rules, Tabs, e, line) ==> Passes(rules, Tabs, e, fixed))
        && Kept([fixed] + rest) == [fixed] + Kept(rest)
  {
    LicenseLine(rules, line);
    var fixed := Fixed(rules, License, Enabled(rules, License, enabled, line), line);
    assert ([fixed] + rest)[1..] == rest;
  }

  lemma {:induction false} LicensePass(rules: Rules, lines: seq<string>, enabled: bool)
    requires Compatible(rules) && AllTidy(lines)
    ensures AllCompliant(rules, License, Kept(FixLines(rules, License, lines, enabled)), enabled)
  {
    if lines != [] {
      var e := Enabled(rules, License, enabled, lines[0]);
      var fixed := Fixed(rules, License, e, lines[0]);
      var rest := FixLines(rules, License, lines[1..], e);
      LicensePass(rules, lines[1..], e);
      KeptLine(rules, lines[0], enabled, rest);
      if fixed != [] { Consed(rules, License, fixed, Kept(rest), enabled); }
    }
  }

  lemma {:induction false} LicenseKeepsTabs(rules: Rules, lines: seq<string>, enabled: bool)
    requires Compatible(rules) && AllTidy(lines) && AllCompliant(rules, Tabs, lines, enabled)
    ensures AllCompliant(rules, Tabs, Kept(FixLines(rules, License, lines, enabled)), enabled)
  {
    if lines != [] {
      var e := Enabled(rules, License, enabled, lines[0]);
      var fixed := Fixed(rules, License, e, lines[0]);
      var rest := FixLines(rules, License, lines[1..], e);
      LicenseKeepsTabs(rules, lines[1..], e);
      KeptLine(rules, lines[0], enabled, rest);
      if fixed != [] { Consed(rules, Tabs, fixed, Kept(rest), enabled); }
    }
  }

  lemma {:induction false} KeptTidy(lines: seq<string>)
    requires TidyOrGone(lines)
    ensures AllTidy(Kept(lines))
  {
    if lines != [] { KeptTidy(lines[1..]); }
  }

  lemma Consed(rules: Rules, c: Check, line: string, rest: seq<string>, enabled: bool)
    ensures AllCompliant(rules, c, [line] + rest, enabled)
       <==> var e := Enabled(rules, c, enabled, line); Passes(rules, c, e, line) && AllCompliant(rules, c, rest, e)
  {
    assert ([line] + rest)[1..] == rest;
  }

  // ---------- Reading what was written ----------

  ghost predicate TidyOrGone(lines: seq<string>) {
    forall i | 0 <= i < |lines| :: lines[i] == [] || Tidy(lines[i])
  }

  lemma {:induction false} TranslateNothing(s: string)
    requires '\r' !in s
    ensures Translate(s) == s
  {
    if s != [] { TranslateNothing(s[1..]); }
  }

  lemma {:induction false} TranslateRemovesReturns(raw: string)
    ensures '\r' !in Translate(raw)
    decreases |raw|
  {
    if raw != [] {
      if raw[0] == '\r' {
        TranslateRemovesReturns(if |raw| > 1 && raw[1] == '\n' then raw[2..] else raw[1..]);
      } else {
        TranslateRemovesReturns(raw[1..]);
      }
    }
  }

  lemma {:induction false} SplitGivesRawLines(text: string)
    requires '\r' !in text
    ensures AllRaw(SplitLines(text))
  {
    if text != [] {
      SplitGivesRawLines(text[1..]);
      var rest := SplitLines(text[1..]);
      if text[0] != '\n' && rest != [] {
        var first := [text[0]] + rest[0];
        assert RawLine(rest[0]);
        assert first[..|first| - 1] == [text[0]] + rest[0][..|rest[0]| - 1];
        assert forall i | 0 <= i < |rest[1..]| :: rest[1..][i] == rest[i + 1];
      }
    }
  }

  lemma {:induction false} SplitFirstLine(line: string, text: string)
    requires Tidy(line)
    ensures SplitLines(line + text) == [line] + SplitLines(text)
  {
    var all := line + text;
    assert all[1..] == line[1..] + text;
    if |line| == 1 {
      assert all[1..] == text && line == [line[0]];
    } else {
      TidyTail(line, 1);
      SplitFirstLine(line[1..], text);
      assert line[0] == line[..|line| - 1][0];
      assert [line[0]] + line[1..] == line;
    }
  }

  lemma {:induction false} SplitJoin(lines: seq<string>)
    requires TidyOrGone(lines)
    ensures SplitLines(Join(lines)) == Kept(lines) && '\r' !in Join(lines)
  {
    if lines != [] {
      SplitJoin(lines[1..]);
      if lines[0] == [] {
        assert [] + Join(lines[1..]) == Join(lines[1..]);
      } else {
        SplitFirstLine(lines[0], Join(lines[1..]));
      }
    }
  }

  lemma {:induction false} KeptAll(lines: seq<string>)
    requires forall i | 0 <= i < |lines| :: lines[i] != []
    ensures Kept(lines) == lines
  {
    if lines != [] { KeptAll(lines[1..]); }
  }

  lemma {:induction false} CompliantIsUnchanged(rules: Rules, c: Check, lines: seq<string>, enabled: bool)
    requires AllCompliant(rules, c, lines, enabled)
    ensures FixLines(rules, c, lines, enabled) == lines
  {
    if lines != [] {
      CompliantIsUnchanged(rules, c, lines[1..], Enabled(rules, c, enabled, lines[0]));
    }
  }

  /** Reading a fixed file gives the fixed lines, without those that were deleted. */
  lemma ReadFixed(rules: Rules, c: Check, raw: string)
    requires TidyOrGone(FixLines(rules, c, ReadLines(raw), true))
    ensures ReadLines(FixFile(rules, c, raw)) == Kept(FixLines(rules, c, ReadLines(raw), true))
  {
    var lines := ReadLines(raw);
    if FileCompliant(rules, c, raw) {
      CompliantIsUnchanged(rules, c, lines, true);
      TranslateRemovesReturns(raw);
      SplitGivesRawLines(Translate(raw));
      KeptAll(lines);
    } else {
      SplitJoin(FixLines(rules, c, lines, true));
      TranslateNothing(Join(FixLines(rules, c, lines, true)));
    }
  }

  // ---------- The passes on files ----------

  lemma {:induction false} WhitespacePass(rules: Rules, lines: seq<string>)
    requires AllRaw(lines)
    ensures AllTidy(FixLines(rules, Whitespace, lines, true))
  {
    if lines != [] {
      WhitespaceLine(rules, lines[0]);
      WhitespacePass(rules, lines[1..]);
    }
  }

  lemma {:induction false} TidyFileIsCompliant(rules: Rules, lines: seq<string>)
    requires AllTidy(lines)
    ensures AllCompliant(rules, Whitespace, lines, true)
  {
    if lines != [] {
      TidyIsCompliant(rules, lines[0]);
      TidyFileIsCompliant(rules, lines[1..]);
    }
  }

  lemma {:induction false} LicenseLinesTidyOrGone(rules: Rules, lines: seq<string>, enabled: bool)
    requires Compatible(rules) && AllTidy(lines)
    ensures TidyOrGone(FixLines(rules, License, lines, enabled))
  {
    if lines != [] {
      LicenseLine(rules, lines[0]);
      LicenseLinesTidyOrGone(rules, lines[1..], Enabled(rules, License, enabled, lines[0]));
    }
  }

  // ---------- What a fix does to a line ----------

  /** The display column behind some text: a tab goes to the next tab stop. */
  function Column(s: string): nat {
    if s == [] then 0
    else
      var before := Column(s[..|s| - 1]);
      if s[|s| - 1] == '\t' then (before / TAB_SIZE + 1) * TAB_SIZE else before + 1
  }

  /** Expanding tabs moves nothing: every other character of the line is at its display
      column, and everything else is a space. */
  lemma {:induction false} ExpandTabsKeepsColumns(s: string)
    requires OneLineText(s)
    ensures |ExpandTabs(s, 0)| == Column(s)
    ensures forall i | 0 <= i < |s| && s[i] != '\t' ::
      Column(s[..i]) < Column(s) && ExpandTabs(s, 0)[Column(s[..i])] == s[i]
    ensures forall k | 0 <= k < Column(s) :: ExpandTabs(s, 0)[k] == ' ' || HasCharacterAt(s, k)
  {
    if s != [] {
      var front, last := s[..|s| - 1], s[|s| - 1];
      assert s == front + [last];
      ExpandTabsKeepsColumns(front);
      ExpandLast(front, last, 0);
      assert forall i | 0 <= i < |front| :: s[..i] == front[..i] && s[i] == front[i];
      var e, e' := ExpandTabs(front, 0), ExpandTabs(s, 0);
      assert e <= e';
      forall k | 0 <= k < Column(s) ensures e'[k] == ' ' || HasCharacterAt(s, k) {
        if k < Column(front) {
          KeepsCharacters(front, last, k);
        } else if last != '\t' {
          assert s[..|front|] == front;
        }
      }
    }
  }

  /** A character other than a tab is displayed in this column. */
  ghost predicate HasCharacterAt(s: string, k: nat) {
    exists i | 0 <= i < |s| :: s[i] != '\t' && Column(s[..i]) == k
  }

  lemma KeepsCharacters(s: string, x: char, k: nat)
    ensures HasCharacterAt(s, k) ==> HasCharacterAt(s + [x], k)
  {
    if i :| 0 <= i < |s| && s[i] != '\t' && Column(s[..i]) == k {
      assert (s + [x])[i] == s[i] && (s + [x])[..i] == s[..i];
    }
  }

  lemma ExpandLast(s: string, x: char, column: nat)
    requires OneLineText(s)
    ensures ExpandTabs(s + [x], column)
         == ExpandTabs(s, column) + Expanded(x, column + |ExpandTabs(s, column)|)
  {
    var next := ExpandConcat(s, [x], column);
    ExpandOne(x, next);
  }

  lemma ExpandOne(x: char, column: nat)
    ensures ExpandTabs([x], column) == Expanded(x, column)
  {
    assert [x][1..] == [];
  }

  ghost predicate SpaceOrMark(c: char) { IsSpace(c) || IsCommentMark(c) }

  /** The first line of the license text becomes the replacement and keeps everything around
      it; every other license line is deleted, and no other line changes. */
  lemma LicenseFixKeepsTheFrame(rules: Rules, line: string) returns (p: string, q: string)
    requires Compatible(rules)
    ensures line == p + Uncommented(line) + q && AllOf(p, SpaceOrMark) && AllOf(q, SpaceOrMark)
    ensures FixLine(rules, License, line)
         == if Uncommented(line) !in rules.gpl then line
            else if Uncommented(line) == rules.gpl[0] then p + rules.spdx + q
            else ""
  {
    p, q := UncommentedPart(line);
    var text := Uncommented(line);
    if text in rules.gpl && text == rules.gpl[0] {
      ReplaceMiddle(p, text, q, rules.spdx);
    }
  }

  lemma {:induction false} ReplaceMiddle(p: string, what: string, q: string, with: string)
    requires what != [] && !SpaceOrMark(what[0]) && AllOf(p, SpaceOrMark) && AllOf(q, SpaceOrMark)
    ensures Replace(p + what + q, what, with) == p + with + q
    decreases |p|
  {
    var s := p + what + q;
    if p == [] {
      assert s == what + q && s[|what|..] == q;
      ReplaceNowhere(q, what, with);
    } else {
      assert s[0] == p[0];
      assert !(what <= s);
      assert s[1..] == p[1..] + what + q;
      ReplaceMiddle(p[1..], what, q, with);
      assert [p[0]] + (p[1..] + with + q) == p + with + q;
    }
  }

  lemma {:induction false} ReplaceNowhere(s: string, what: string, with: string)
    requires what != [] && !SpaceOrMark(what[0]) && AllOf(s, SpaceOrMark)
    ensures Replace(s, what, with) == s
  {
    if |what| <= |s| {
      assert !(what <= s);
      ReplaceNowhere(s[1..], what, with);
    }
  }

  /** Only spaces go, from the end, and all of them; then one newline is put there. */
  lemma WhitespaceFixOnlyTrims(rules: Rules, line: string) returns (spaces: string)
    ensures var kept := RStrip(line, IsSpace);
      line == kept + spaces && AllOf(spaces, IsSpace) && (kept == [] || !IsSpace(kept[|kept| - 1]))
      && FixLine(rules, Whitespace, line) == kept + "\n"
  {
    spaces := RStripShape(line, IsSpace);
  }

  lemma ExpandOneTab(a: string, b: string)
    requires OneLineText(a) && '\t' !in a && '\t' !in b
    requires |a| % TAB_SIZE == TAB_SIZE - 1
    ensures ExpandTabs(a + "\t" + b, 0) == a + " " + b
  {
    ExpandNothing(a, 0);
    ExpandLast(a, '\t', 0);
    var column := ExpandConcat(a + "\t", b, 0);
    ExpandNothing(b, column);
    assert Spaces(1) == " ";
  }

  lemma StripNothing(s: string)
    requires s != [] && !IsSpace(s[0]) && !IsSpace(s[|s| - 1])
    ensures Strip(s) == s
  {
  }

  /** A line that is no guard becomes one when its tab is expanded: the passes need not all
      see the same guards. */
  lemma ExpandingCanMakeAGuard(rules: Rules, a: string, b: string)
    requires Lacks('\t', rules.guardOn + rules.guardOff) && a + " " + b in rules.guardOff
    requires OneLineText(a) && |a| % TAB_SIZE == TAB_SIZE - 1 && b != []
    requires !IsSpace(a[0]) && !IsSpace(b[|b| - 1])
    ensures !IsGuard(rules, a + "\t" + b)
    ensures FixLine(rules, Tabs, a + "\t" + b) == a + " " + b && IsGuard(rules, a + " " + b)
  {
    var line, guard := a + "\t" + b, a + " " + b;
    assert guard in rules.guardOn + rules.guardOff;
    assert forall x | x in a || x in b :: x in guard;
    ExpandOneTab(a, b);
    assert line[|a|] == '\t' && line[0] == guard[0] == a[0];
    assert line[|line| - 1] == guard[|guard| - 1] == b[|b| - 1];
    StripNothing(line);
    StripNothing(guard);
    assert line !in rules.guardOn + rules.guardOff;
  }

  /** It happens with the guards of the script. */
  lemma ScriptGuardFromATab()
    ensures var line := "// clang-format" + "\t" + "off";
      !IsGuard(NS3, line) && FixLine(NS3, Tabs, line) in NS3.guardOff
  {
    var a, b := ScriptGuardParts();
    ExpandingCanMakeAGuard(NS3, a, b);
  }

  lemma ScriptGuardParts() returns (a: string, b: string)
    ensures a == "// clang-format" && b == "off" && a + " " + b in NS3.guardOff
    ensures Lacks('\t', NS3.guardOn + NS3.guardOff)
    ensures OneLineText(a) && |a| % TAB_SIZE == TAB_SIZE - 1 && b != []
    ensures !IsSpace(a[0]) && !IsSpace(b[|b| - 1])
  {
    a, b := "// clang-format", "off";
    OffGuard();
    Ns3Guards();
    OneLineGuard();
  }

  lemma OffGuard()
    ensures "// clang-format" + " " + "off" in NS3.guardOff
  {
    assert "// clang-format" + " " + "off" == NS3.guardOff[0];
  }

  lemma OneLineGuard()
    ensures var a, b := "// clang-format", "off";
      OneLineText(a) && |a| == 15 && !IsSpace(a[0]) && |b| == 3 && !IsSpace(b[2])
  {
  }

  // ---------- Main results ----------

  /** The three fixes in the order in which the checks are run. */
  function FixAll(rules: Rules, raw: string): string {
    FixFile(rules, License, FixFile(rules, Tabs, FixFile(rules, Whitespace, raw)))
  }

  /** Whatever the file: after the fixes all three checks pass. */
  lemma FixAllIsCompliant(rules: Rules, raw: string, c: Check)
    requires Compatible(rules)
    ensures FileCompliant(rules, c, FixAll(rules, raw))
  {
    TranslateRemovesReturns(raw);
    SplitGivesRawLines(Translate(raw));
    var lines0 := ReadLines(raw);
    WhitespacePass(rules, lines0);
    ReadFixed(rules, Whitespace, raw);
    KeptAll(FixLines(rules, Whitespace, lines0, true));
    var raw1 := FixFile(rules, Whitespace, raw);
    var lines1 := ReadLines(raw1);
    TabsPass(rules, lines1, true, true);
    ReadFixed(rules, Tabs, raw1);
    KeptAll(FixLines(rules, Tabs, lines1, true));
    var raw2 := FixFile(rules, Tabs, raw1);
    var lines2 := ReadLines(raw2);
    LicenseLinesTidyOrGone(rules, lines2, true);
    LicensePass(rules, lines2, true);
    LicenseKeepsTabs(rules, lines2, true);
    KeptTidy(FixLines(rules, License, lines2, true));
    ReadFixed(rules, License, raw2);
    TidyFileIsCompliant(rules, Kept(FixLines(rules, License, lines2, true)));
  }

  /** A second round leaves the text alone: neither a single fix nor all of them change it. */
  lemma FixAllIsIdempotent(rules: Rules, raw: string, c: Check)
    requires Compatible(rules)
    ensures FixFile(rules, c, FixAll(rules, raw)) == FixAll(rules, raw)
    ensures FixAll(rules, FixAll(rules, raw)) == FixAll(rules, raw)
  {
    FixAllIsCompliant(rules, raw, c);
    FixAllIsCompliant(rules, raw, Whitespace);
    FixAllIsCompliant(rules, raw, Tabs);
    FixAllIsCompliant(rules, raw, License);
  }

  /** The fixes leave nothing to do: every check passes and every fix keeps the text. */
  ghost predicate NothingLeftToFix(rules: Rules, raw: string) {
    forall c: Check :: FileCompliant(rules, c, FixAll(rules, raw))
                       && FixFile(rules, c, FixAll(rules, raw)) == FixAll(rules, raw)
  }

  lemma FixAllLeavesNothing(rules: Rules, raw: string)
    requires Compatible(rules)
    ensures NothingLeftToFix(rules, raw)
  {
    forall c: Check
      ensures FileCompliant(rules, c, FixAll(rules, raw)) && FixFile(rules, c, FixAll(rules, raw)) == FixAll(rules, raw)
    {
      FixAllIsCompliant(rules, raw, c);
      FixAllIsIdempotent(rules, raw, c);
    }
  }

  /** The strings of the script itself fit together. */
  lemma ScriptFixesEverything(raw: string)
    ensures NothingLeftToFix(NS3, raw)
  {
    Ns3IsCompatible();
    FixAllLeavesNothing(NS3, raw);
  }

  /** A line behind an "off" guard with no "on" guard since, and no guard itself. */
  ghost predicate GuardedOff(rules: Rules, lines: seq<string>, i: nat)
    requires i < |lines|
  {
    !IsGuard(rules, lines[i])
    && exists j | 0 <= j < i ::
         Strip(lines[j]) in rules.guardOff && forall k | j <= k <= i :: Strip(lines[k]) !in rules.guardOn
  }

  function EnabledAt(rules: Rules, c: Check, lines: seq<string>, enabled: bool, i: nat): bool
    requires i < |lines|
  {
    Enabled(rules, c, if i == 0 then enabled else EnabledAt(rules, c, lines, enabled, i - 1), lines[i])
  }

  lemma {:induction false} EnabledAtShift(rules: Rules, c: Check, lines: seq<string>, enabled: bool, i: nat)
    requires 0 < i < |lines|
    ensures EnabledAt(rules, c, lines, enabled, i)
         == EnabledAt(rules, c, lines[1..], Enabled(rules, c, enabled, lines[0]), i - 1)
  {
    if i > 1 { EnabledAtShift(rules, c, lines, enabled, i - 1); }
  }

  lemma {:induction false} FixLinesAt(rules: Rules, c: Check, lines: seq<string>, enabled: bool, i: nat)
    requires i < |lines|
    ensures |FixLines(rules, c, lines, enabled)| == |lines|
    ensures FixLines(rules, c, lines, enabled)[i] == Fixed(rules, c, EnabledAt(rules, c, lines, enabled, i), lines[i])
  {
    var e := Enabled(rules, c, enabled, lines[0]);
    if i > 0 {
      EnabledAtShift(rules, c, lines, enabled, i);
      FixLinesAt(rules, c, lines[1..], e, i - 1);
    } else if |lines| > 1 {
      FixLinesAt(rules, c, lines[1..], e, 0);
    }
  }

  /** The last guard up to here decides. */
  lemma {:induction false} DisabledBehindOff(rules: Rules, c: Check, lines: seq<string>, i: nat)
    requires i < |lines| && !c.Whitespace?
    ensures !EnabledAt(rules, c, lines, true, i)
       <==> exists j | 0 <= j <= i ::
              Strip(lines[j]) in rules.guardOff && forall k | j <= k <= i :: Strip(lines[k]) !in rules.guardOn
  {
    if i > 0 {
      DisabledBehindOff(rules, c, lines, i - 1);
      if !EnabledAt(rules, c, lines, true, i) && Strip(lines[i]) !in rules.guardOff {
        var j :| 0 <= j <= i - 1
          && Strip(lines[j]) in rules.guardOff && forall k | j <= k <= i - 1 :: Strip(lines[k]) !in rules.guardOn;
        assert forall k | j <= k <= i :: Strip(lines[k]) !in rules.guardOn;
      }
    }
  }

  /** Line by line: the tabs and license fixes leave exactly the guarded lines alone, the
      whitespace fix none. */
  lemma FixTouchesExactlyTheUnguarded(rules: Rules, c: Check, lines: seq<string>, i: nat)
    requires i < |lines|
    ensures |FixLines(rules, c, lines, true)| == |lines|
    ensures FixLines(rules, c, lines, true)[i]
         == if !c.Whitespace? && GuardedOff(rules, lines, i) then lines[i] else FixLine(rules, c, lines[i])
  {
    FixLinesAt(rules, c, lines, true, i);
    if c.Whitespace? {
      NeverDisabled(rules, lines, i);
    } else {
      DisabledBehindOff(rules, c, lines, i);
    }
  }

  lemma {:induction false} NeverDisabled(rules: Rules, lines: seq<string>, i: nat)
    requires i < |lines|
    ensures EnabledAt(rules, Whitespace, lines, true, i)
  {
    if i > 0 { NeverDisabled(rules, lines, i - 1); }
  }
}
