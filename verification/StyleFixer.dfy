/** The manual checks of utils/check-style-clang-format.py: trailing whitespace, tabs and
    license text, each run over a whole file in check or fix mode, the last two respecting
    the formatting guards.

    A file is the text on disk.  Reading it translates the line ends and splits it; writing
    joins the lines. */
module StyleFixer {

  datatype Check = Whitespace | Tabs | License

  /** The strings the checks look for. */
  datatype Rules = Rules(guardOn: seq<string>, guardOff: seq<string>, gpl: seq<string>, spdx: string)

  const TAB_SIZE := 4

  const NS3 := Rules(
    ["// clang-format on", "# cmake-format: on", "# fmt: on"],
    ["// clang-format off", "# cmake-format: off", "# fmt: off"],
    [GPL_0, GPL_1, GPL_2, GPL_3, GPL_4, GPL_5, GPL_6, GPL_7, GPL_8, GPL_9],
    SPDX_LICENSE)

  // The license text, in literals short enough for the verifier to look into.

  const SPDX_LICENSE := "SPDX-License-" + "Identifier: GPL-2.0-only"

  const GPL_0 := "This program is free software; " + "you can redistribute it and/or modify"
  const GPL_1 := "it under the terms of the GNU " + "General Public License version 2 as"
  const GPL_2 := "published by the Free " + "Software Foundation;"
  const GPL_3 := "This program is distributed in " + "the hope that it will be useful,"
  const GPL_4 := "but WITHOUT ANY WARRANTY; without " + "even the implied warranty of"
  const GPL_5 := "MERCHANTABILITY or FITNESS FOR A " + "PARTICULAR PURPOSE.  See the"
  const GPL_6 := "GNU General Public License " + "for more details."
  const GPL_7 := "You should have received a copy " + "of the GNU General Public License"
  const GPL_8 := "along with this program; if not, " + "write to the Free Software"
  const GPL_9 := "Foundation, Inc., 59 Temple Place, " + "Suite 330, Boston, MA  02111-1307  USA"

  // ---------- Strings ----------

  /** The characters that `strip` without argument removes. */
  predicate IsSpace(c: char) {
    var n := c as int;
    9 <= n <= 13 || 28 <= n <= 32 || n == 0x85 || n == 0xa0 || n == 0x1680 || 0x2000 <= n <= 0x200a
    || n == 0x2028 || n == 0x2029 || n == 0x202f || n == 0x205f || n == 0x3000
  }

  predicate IsCommentMark(c: char) { c == '*' || c == '#' || c == '/' }

  function LStrip(s: string, drop: char -> bool): string {
    if s != [] && drop(s[0]) then LStrip(s[1..], drop) else s
  }

  function RStrip(s: string, drop: char -> bool): string {
    if s != [] && drop(s[|s| - 1]) then RStrip(s[..|s| - 1], drop) else s
  }

  function StripAll(s: string, drop: char -> bool): string { LStrip(RStrip(s, drop), drop) }

  function Strip(s: string): string { StripAll(s, IsSpace) }

  function Spaces(n: nat): string { seq(n, _ => ' ') }

  /** The distance to the next tab stop. */
  function TabWidth(column: nat): (n: nat)
    ensures 0 < n <= TAB_SIZE
  {
    TAB_SIZE - column % TAB_SIZE
  }

  function Expanded(c: char, column: nat): string {
    if c == '\t' then Spaces(TabWidth(column)) else [c]
  }

  function NextColumn(c: char, column: nat): nat {
    if c == '\t' then column + TabWidth(column) else if c == '\n' || c == '\r' then 0 else column + 1
  }

  function ExpandTabs(s: string, column: nat): string {
    if s == [] then [] else Expanded(s[0], column) + ExpandTabs(s[1..], NextColumn(s[0], column))
  }

  /** Every occurrence from the left, without overlaps. */
  function Replace(s: string, what: string, with: string): string
    requires what != []
  {
    if |s| < |what| then s
    else if what <= s then with + Replace(s[|what|..], what, with)
    else [s[0]] + Replace(s[1..], what, with)
  }

  // ---------- One line ----------

  /** The text of a line without comment marks at its ends. */
  function Uncommented(line: string): string { Strip(StripAll(Strip(line), IsCommentMark)) }

  predicate IsGuard(rules: Rules, line: string) { Strip(line) in rules.guardOn || Strip(line) in rules.guardOff }

  predicate LineCompliant(rules: Rules, c: Check, line: string) {
    match c
    case Whitespace => RStrip(line, IsSpace) + "\n" == line
    case Tabs => '\t' !in line
    case License => Uncommented(line) !in rules.gpl
  }

  function FixLine(rules: Rules, c: Check, line: string): string {
    match c
    case Whitespace => RStrip(line, IsSpace) + "\n"
    case Tabs => if '\t' in line then ExpandTabs(line, 0) else line
    case License =>
      var text := Uncommented(line);
      if text !in rules.gpl then line
      else if text == rules.gpl[0] && text != [] then Replace(line, text, rules.spdx)
      else ""
  }

  // ---------- All lines of a file ----------

  /** Whether formatting is enabled after a line; trailing whitespace ignores the guards. */
  function Enabled(rules: Rules, c: Check, before: bool, line: string): bool {
    if c.Whitespace? then before
    else if Strip(line) in rules.guardOn then true
    else if Strip(line) in rules.guardOff then false
    else before
  }

  /** A check looks at the lines that are enabled and at the guards themselves. */
  predicate LooksAt(rules: Rules, enabled: bool, line: string) {
    enabled || IsGuard(rules, line)
  }

  /** The line after a fix, given whether formatting is enabled there. */
  function Fixed(rules: Rules, c: Check, enabled: bool, line: string): string {
    if LooksAt(rules, enabled, line) then FixLine(rules, c, line) else line
  }

  predicate Passes(rules: Rules, c: Check, enabled: bool, line: string) {
    LooksAt(rules, enabled, line) ==> LineCompliant(rules, c, line)
  }

  predicate AllCompliant(rules: Rules, c: Check, lines: seq<string>, enabled: bool) {
    lines == []
    || var e := Enabled(rules, c, enabled, lines[0]);
       Passes(rules, c, e, lines[0]) && AllCompliant(rules, c, lines[1..], e)
  }

  function FixLines(rules: Rules, c: Check, lines: seq<string>, enabled: bool): seq<string> {
    if lines == [] then []
    else
      var e := Enabled(rules, c, enabled, lines[0]);
      [Fixed(rules, c, e, lines[0])] + FixLines(rules, c, lines[1..], e)
  }

  // ---------- Files ----------

  /** Universal newlines: "\r\n" and "\r" are read as "\n". */
  function Translate(raw: string): string {
    if raw == [] then []
    else if raw[0] == '\r' then
      ['\n'] + Translate(if |raw| > 1 && raw[1] == '\n' then raw[2..] else raw[1..])
    else [raw[0]] + Translate(raw[1..])
  }

  /** Each line keeps its "\n"; the last one may have none. */
  function SplitLines(text: string): seq<string> {
    if text == [] then []
    else
      var rest := SplitLines(text[1..]);
      if text[0] == '\n' || rest == [] then [[text[0]]] + rest
      else [[text[0]] + rest[0]] + rest[1..]
  }

  function ReadLines(raw: string): seq<string> { SplitLines(Translate(raw)) }

  function Join(lines: seq<string>): string {
    if lines == [] then [] else lines[0] + Join(lines[1..])
  }

  predicate FileCompliant(rules: Rules, c: Check, raw: string) {
    AllCompliant(rules, c, ReadLines(raw), true)
  }

  /** The file after a fix: a compliant file is not written at all. */
  function FixFile(rules: Rules, c: Check, raw: string): string {
    if FileCompliant(rules, c, raw) then raw else Join(FixLines(rules, c, ReadLines(raw), true))
  }

  /** `check_manually_file`: the loop changes the list of lines in place and, when it only
      has to find out whether the file is compliant, stops at the first bad line. */
  method CheckManuallyFile(rules: Rules, c: Check, raw: string, fix: bool, verbose: bool)
    returns (content: string, compliant: bool)
    ensures compliant <==> FileCompliant(rules, c, raw)
    ensures content == if fix then FixFile(rules, c, raw) else raw
  {
    compliant := true;
    var enabled := true;
    var fileLines := ReadLines(raw);
    ghost var lines := fileLines;
    assert lines[0..] == lines;
    var i := 0;
    while i < |fileLines|
      invariant 0 <= i <= |fileLines|
      invariant Progress(rules, c, lines, fileLines, i, enabled, compliant)
    {
      var line := fileLines[i];
      ProgressStep(rules, c, lines, fileLines, i, enabled, compliant);
      if !c.Whitespace? {
        if Strip(line) in rules.guardOn {
          enabled := true;
        } else if Strip(line) in rules.guardOff {
          enabled := false;
        }
      }
      if enabled || IsGuard(rules, line) {
        if !LineCompliant(rules, c, line) {
          compliant := false;
          fileLines := fileLines[i := FixLine(rules, c, line)];
          if !fix && !verbose {
            break;
          }
        }
      }
      i := i + 1;
    }
    content := raw;
    if fix && !compliant {
      ProgressEnd(rules, c, lines, fileLines, enabled, compliant);
      content := Join(fileLines);
    }
  }

  /** The lines before i are as they will be after the fix, the others as they were read. */
  ghost predicate Progress(rules: Rules, c: Check, lines: seq<string>, fileLines: seq<string>, i: nat,
                           enabled: bool, compliant: bool)
  {
    i <= |fileLines| == |lines| && fileLines[i..] == lines[i..]
    && FixLines(rules, c, lines, true) == fileLines[..i] + FixLines(rules, c, lines[i..], enabled)
    && (AllCompliant(rules, c, lines, true) <==> compliant && AllCompliant(rules, c, lines[i..], enabled))
  }

  lemma ProgressStep(rules: Rules, c: Check, lines: seq<string>, fileLines: seq<string>, i: nat,
                     enabled: bool, compliant: bool)
    requires i < |fileLines| && Progress(rules, c, lines, fileLines, i, enabled, compliant)
    ensures var line := fileLines[i];
      var e := Enabled(rules, c, enabled, line);
      Progress(rules, c, lines, fileLines[i := Fixed(rules, c, e, line)], i + 1, e,
               compliant && Passes(rules, c, e, line))
      && (Passes(rules, c, e, line) ==> fileLines[i := Fixed(rules, c, e, line)] == fileLines)
      && (!Passes(rules, c, e, line) ==> !AllCompliant(rules, c, lines, true))
  {
    assert fileLines[i..][0] == lines[i..][0];
    OneLine(rules, c, lines, i, enabled);
    var fixed := Fixed(rules, c, Enabled(rules, c, enabled, lines[i]), lines[i]);
    OneLineOn(lines, fileLines, i, fixed);
  }

  lemma OneLineOn(lines: seq<string>, fileLines: seq<string>, i: nat, fixed: string)
    requires i < |fileLines| == |lines| && fileLines[i..] == lines[i..]
    ensures var next := fileLines[i := fixed];
      next[..i + 1] == fileLines[..i] + [fixed] && next[i + 1..] == lines[i + 1..]
    ensures forall rest: seq<string> :: fileLines[..i] + ([fixed] + rest) == fileLines[i := fixed][..i + 1] + rest
    ensures fixed == lines[i] ==> fileLines[i := fixed] == fileLines
  {
    var next := fileLines[i := fixed];
    assert next[..i + 1] == fileLines[..i] + [fixed];
    assert next[i + 1..] == fileLines[i..][1..] == lines[i..][1..] == lines[i + 1..];
    assert fileLines[i] == fileLines[i..][0] == lines[i..][0];
  }

  lemma ProgressEnd(rules: Rules, c: Check, lines: seq<string>, fileLines: seq<string>, enabled: bool, compliant: bool)
    requires Progress(rules, c, lines, fileLines, |fileLines|, enabled, compliant)
    ensures FixLines(rules, c, lines, true) == fileLines
  {
    assert fileLines[..|fileLines|] == fileLines && lines[|fileLines|..] == [];
  }

  lemma OneLine(rules: Rules, c: Check, lines: seq<string>, i: nat, enabled: bool)
    requires i < |lines|
    ensures var e := Enabled(rules, c, enabled, lines[i]);
      FixLines(rules, c, lines[i..], enabled)
      == [Fixed(rules, c, e, lines[i])] + FixLines(rules, c, lines[i + 1..], e)
    ensures var e := Enabled(rules, c, enabled, lines[i]);
      AllCompliant(rules, c, lines[i..], enabled)
      <==> Passes(rules, c, e, lines[i]) && AllCompliant(rules, c, lines[i + 1..], e)
    ensures LineCompliant(rules, c, lines[i]) ==> FixLine(rules, c, lines[i]) == lines[i]
  {
    assert lines[i..][0] == lines[i] && lines[i..][1..] == lines[i + 1..];
  }

  // ---------- What makes the strings fit together ----------

  ghost predicate PlainText(s: string) {
    s != [] && !IsSpace(s[0]) && !IsSpace(s[|s| - 1]) && '\t' !in s && '\n' !in s && '\r' !in s
  }

  ghost predicate Lacks(x: char, ss: seq<string>) {
    forall s | s in ss :: x !in s
  }

  /** Guards have no tabs and are shorter than license lines; the first license line starts
      with text; the replacement has a character by which it cannot be mistaken for a guard
      or a license line. */
  ghost predicate Compatible(rules: Rules) {
    var guards := rules.guardOn + rules.guardOff;
    && rules.gpl != [] && PlainText(rules.spdx)
    && rules.gpl[0] != [] && !IsSpace(rules.gpl[0][0]) && !IsCommentMark(rules.gpl[0][0])
    && Lacks('\t', guards)
    && (forall g, s | g in guards && s in rules.gpl :: |g| < |s|)
    && (exists x :: x in rules.spdx && !IsSpace(x) && !IsCommentMark(x) && Lacks(x, guards + rules.gpl))
  }

  lemma CompatibleBy(rules: Rules, x: char, bound: nat)
    requires rules.gpl != [] && PlainText(rules.spdx)
    requires rules.gpl[0] != [] && !IsSpace(rules.gpl[0][0]) && !IsCommentMark(rules.gpl[0][0])
    requires forall g | g in rules.guardOn + rules.guardOff :: '\t' !in g && x !in g && |g| <= bound
    requires forall s | s in rules.gpl :: x !in s && |s| > bound
    requires x in rules.spdx && !IsSpace(x) && !IsCommentMark(x)
    ensures Compatible(rules)
  {
    assert Lacks(x, rules.guardOn + rules.guardOff + rules.gpl);
  }

  lemma Ns3IsCompatible()
    ensures Compatible(NS3)
  {
    Ns3Guards();
    Ns3Lines();
    Ns3Spdx();
    Ns3FirstLine();
    CompatibleBy(NS3, 'X', 21);
  }

  lemma Ns3FirstLine()
    ensures GPL_0 != [] && !IsSpace(GPL_0[0]) && !IsCommentMark(GPL_0[0])
  {
    assert GPL_0[0] == 'T';
  }

  lemma Ns3Guards()
    ensures forall g | g in NS3.guardOn + NS3.guardOff :: '\t' !in g && 'X' !in g && |g| <= 21
  {
    GuardsOn();
    GuardsOff();
  }

  lemma GuardsOn()
    ensures forall g | g in NS3.guardOn :: '\t' !in g && 'X' !in g && |g| <= 21
  {
  }

  lemma GuardsOff()
    ensures forall g | g in NS3.guardOff :: '\t' !in g && 'X' !in g && |g| <= 21
  {
  }

  lemma Ns3Lines()
    ensures forall s | s in NS3.gpl :: 'X' !in s && |s| > 21
  {
    NoX0(); NoX1(); NoX2(); NoX3(); NoX4(); NoX5(); NoX6(); NoX7(); NoX8(); NoX9();
  }

  lemma NoX0() ensures 'X' !in GPL_0 { }
  lemma NoX1() ensures 'X' !in GPL_1 { }
  lemma NoX2() ensures 'X' !in GPL_2 { }
  lemma NoX3() ensures 'X' !in GPL_3 { }
  lemma NoX4() ensures 'X' !in GPL_4 { }
  lemma NoX5() ensures 'X' !in GPL_5 { }
  lemma NoX6() ensures 'X' !in GPL_6 { }
  lemma NoX7() ensures 'X' !in GPL_7 { }
  lemma NoX8() ensures 'X' !in GPL_8 { }
  lemma NoX9() ensures 'X' !in GPL_9 { }

  lemma Ns3Spdx()
    ensures PlainText(NS3.spdx) && 'X' in NS3.spdx && !IsSpace('X') && !IsCommentMark('X')
  {
    assert NS3.spdx[3] == 'X';
    NoTabInSpdx();
    NoNewlineInSpdx();
    NoReturnInSpdx();
  }

  lemma NoTabInSpdx() ensures '\t' !in SPDX_LICENSE { }
  lemma NoNewlineInSpdx() ensures '\n' !in SPDX_LICENSE { }
  lemma NoReturnInSpdx() ensures '\r' !in SPDX_LICENSE { }
}
