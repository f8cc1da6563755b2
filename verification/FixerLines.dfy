/** What reading, checking and fixing mean for single lines, stated without the functions that do
    it: when a file counts as compliant, and where the text of a line is found. */
module FixerLines {
  import opened StyleFixer
  import opened FixerComposition

  // ---------- Compliance ----------

  /** A check accepts exactly the lines that its fix would leave alone. */
  lemma CompliantExactlyIfUnchanged(rules: Rules, c: Check, line: string)
    requires Compatible(rules) && line != []
    ensures LineCompliant(rules, c, line) <==> FixLine(rules, c, line) == line
  {
    match c {
      case Whitespace =>
      case Tabs => ExpandLeavesNoTabs(line, 0);
      case License =>
        var p, q := LicenseFixKeepsTheFrame(rules, line);
        if Uncommented(line) == rules.gpl[0] && p + rules.spdx + q == p + Uncommented(line) + q {
          SameMiddle(p, rules.spdx, Uncommented(line), q);
          SpdxIsNoLicenseLine(rules);
        }
    }
  }

  lemma SameMiddle(p: string, s: string, t: string, q: string)
    requires p + s + q == p + t + q
    ensures s == t
  {
    assert |s| == |t|;
    assert s == (p + s + q)[|p|..|p| + |s|] && t == (p + t + q)[|p|..|p| + |t|];
  }

  lemma SpdxIsNoLicenseLine(rules: Rules)
    requires Compatible(rules)
    ensures rules.spdx !in rules.gpl
  {
    var x :| x in rules.spdx && !IsSpace(x) && !IsCommentMark(x) && Lacks(x, rules.guardOn + rules.guardOff + rules.gpl);
    assert forall t | t in rules.gpl :: t in rules.guardOn + rules.guardOff + rules.gpl;
  }

  lemma {:induction false} AllCompliantExactlyIfUnchanged(rules: Rules, c: Check, lines: seq<string>, enabled: bool)
    requires Compatible(rules) && forall i | 0 <= i < |lines| :: lines[i] != []
    ensures AllCompliant(rules, c, lines, enabled) <==> FixLines(rules, c, lines, enabled) == lines
  {
    if lines != [] {
      var e := Enabled(rules, c, enabled, lines[0]);
      CompliantExactlyIfUnchanged(rules, c, lines[0]);
      AllCompliantExactlyIfUnchanged(rules, c, lines[1..], e);
      SameHeadAndTail(Fixed(rules, c, e, lines[0]), FixLines(rules, c, lines[1..], e), lines);
    }
  }

  lemma SameHeadAndTail(x: string, xs: seq<string>, lines: seq<string>)
    requires lines != []
    ensures [x] + xs == lines <==> x == lines[0] && xs == lines[1..]
  {
    assert ([x] + xs)[0] == x && ([x] + xs)[1..] == xs;
    assert lines == [lines[0]] + lines[1..];
  }

  /** A file is compliant exactly if the fix would change none of its lines. */
  lemma FileCompliantExactlyIfUnchanged(rules: Rules, c: Check, raw: string)
    requires Compatible(rules)
    ensures FileCompliant(rules, c, raw) <==> FixLines(rules, c, ReadLines(raw), true) == ReadLines(raw)
  {
    TranslateRemovesReturns(raw);
    SplitGivesRawLines(Translate(raw));
    AllCompliantExactlyIfUnchanged(rules, c, ReadLines(raw), true);
  }

  // ---------- Tabs ----------

  /** The fix leaves no tab, keeps the end of the line, and moves no other character. */
  lemma TabsFixKeepsColumns(rules: Rules, s: string, end: string) returns (e: string)
    requires OneLineText(s) && (end == "" || end == "\n")
    ensures FixLine(rules, Tabs, s + end) == e + end && '\t' !in e && |e| == Column(s)
    ensures forall i | 0 <= i < |s| && s[i] != '\t' :: Column(s[..i]) < |e| && e[Column(s[..i])] == s[i]
    ensures forall k | 0 <= k < |e| :: e[k] == ' ' || HasCharacterAt(s, k)
  {
    e := ExpandTabs(s, 0);
    ExpandTabsKeepsColumns(s);
    ExpandLeavesNoTabs(s, 0);
    if '\t' in s + end {
      var next := ExpandConcat(s, end, 0);
      ExpandNothing(end, next);
    } else {
      ExpandNothing(s, 0);
    }
  }

  // ---------- The text of a line ----------

  /** The text between spaces, then comment marks, then spaces, on either side, and as many of
      each as there are. */
  lemma UncommentedExactly(s: string) returns (a: string, a': string, a'': string, b'': string, b': string, b: string)
    ensures s == a + (a' + (a'' + Uncommented(s) + b'') + b') + b
    ensures AllOf(a, IsSpace) && AllOf(b, IsSpace) && AllOf(a'', IsSpace) && AllOf(b'', IsSpace)
    ensures AllOf(a', IsCommentMark) && AllOf(b', IsCommentMark)
    ensures Bare(Uncommented(s), IsSpace) && Bare(a'' + Uncommented(s) + b'', IsCommentMark)
    ensures Bare(a' + (a'' + Uncommented(s) + b'') + b', IsSpace)
  {
    a, b := StripShape(s, IsSpace);
    a', b' := StripShape(Strip(s), IsCommentMark);
    a'', b'' := StripShape(StripAll(Strip(s), IsCommentMark), IsSpace);
  }

  // ---------- Reading ----------

  /** Each of the line ends "\r\n", "\r" and "\n" is read as "\n". */
  lemma {:induction false} LineEndsAreRead(line: string, rest: string)
    requires OneLineText(line)
    ensures Translate(line + "\r\n" + rest) == line + "\n" + Translate(rest)
    ensures Translate(line + "\n" + rest) == line + "\n" + Translate(rest)
    ensures (rest == "" || rest[0] != '\n') ==> Translate(line + "\r" + rest) == line + "\n" + Translate(rest)
  {
    TranslatePrefix(line, "\r\n" + rest);
    TranslatePrefix(line, "\n" + rest);
    TranslatePrefix(line, "\r" + rest);
    assert ("\r\n" + rest)[2..] == rest && ("\n" + rest)[1..] == rest && ("\r" + rest)[1..] == rest;
    assert line + ("\r\n" + rest) == line + "\r\n" + rest;
    assert line + ("\n" + rest) == line + "\n" + rest;
    assert line + ("\r" + rest) == line + "\r" + rest;
    assert line + ("\n" + Translate(rest)) == line + "\n" + Translate(rest);
    TranslateEnds(rest);
  }

  lemma TranslateEnds(rest: string)
    ensures Translate("\r\n" + rest) == "\n" + Translate(rest)
    ensures Translate("\n" + rest) == "\n" + Translate(rest)
    ensures (rest == "" || rest[0] != '\n') ==> Translate("\r" + rest) == "\n" + Translate(rest)
  {
    assert ("\r\n" + rest)[2..] == rest && ("\n" + rest)[1..] == rest && ("\r" + rest)[1..] == rest;
  }

  lemma {:induction false} TranslatePrefix(line: string, rest: string)
    requires OneLineText(line)
    ensures Translate(line + rest) == line + Translate(rest)
  {
    if line == [] {
      assert line + rest == rest;
    } else {
      assert (line + rest)[0] == line[0] && (line + rest)[1..] == line[1..] + rest;
      TranslatePrefix(line[1..], rest);
    }
  }

  /** Splitting loses nothing: the lines make up the text. */
  lemma {:induction false} JoinSplit(text: string)
    ensures Join(SplitLines(text)) == text
  {
    if text != [] {
      JoinSplit(text[1..]);
      var rest := SplitLines(text[1..]);
      if text[0] == '\n' || rest == [] {
        assert ([[text[0]]] + rest)[1..] == rest;
      } else {
        assert ([[text[0]] + rest[0]] + rest[1..])[1..] == rest[1..];
      }
      assert text == [text[0]] + text[1..];
    }
  }
}
