/** The lines of an INI file: how they are written, and what the two parsers take them for. */
module IniLines {

  /** A line as the parsers take it; empty lines and comments are `Blank`. */
  datatype Line = If(expr: string) | Else | Endif | Text(content: string) | Blank

  // --- Recognising a line

  /** `isspace`. */
  predicate IsSpace(c: char) {
    c == ' ' || c == '\t' || c == '\n' || c == '\r' || c == '\U{B}' || c == '\U{C}'
  }

  function TrimLeft(s: string): string {
    if s != "" && IsSpace(s[0]) then TrimLeft(s[1..]) else s
  }

  function TrimRight(s: string): string {
    if s != "" && IsSpace(s[|s| - 1]) then TrimRight(s[..|s| - 1]) else s
  }

  /** `trim_whitespace`, and Python's `strip` on the same characters. */
  function Trim(s: string): string {
    TrimRight(TrimLeft(s))
  }

  /** `#` and two capitals before a bar, as TunerStudio marks lines. */
  predicate Marked(s: string) {
    |s| >= 4 && s[0] == '#' && 'A' <= s[1] <= 'Z' && 'A' <= s[2] <= 'Z' && s[3] == '|'
  }

  /** `strip_xx_prefix`, and the dashboard's substitution. */
  function StripMark(s: string): string {
    if Marked(s) then s[4..] else s
  }

  predicate Ignored(t: string) {
    t == "" || t[0] == ';'
  }

  function Remaining(t: string): Line {
    if t == "#else" then Else else if t == "#endif" then Endif else Text(t)
  }

  /** The daemon takes any white space after `#if`. */
  predicate OpensForDaemon(t: string) {
    |t| > 3 && t[..3] == "#if" && IsSpace(t[3])
  }

  function DaemonLine(raw: string): Line {
    var t := Trim(StripMark(raw));
    if Ignored(t) then Blank
    else if OpensForDaemon(t) then If(Trim(t[3..]))
    else Remaining(t)
  }

  /** The dashboard takes one blank; it has stripped the marks from the whole text before. */
  function DashLine(raw: string): Line {
    var t := Trim(StripMark(raw));
    if Ignored(t) then Blank
    else if |t| > 3 && t[..4] == "#if " then If(Trim(t[4..]))
    else Remaining(t)
  }

  /** Both parsers take a line alike exactly when no white space but a blank follows its `#if`. */
  lemma SameLineExactly(raw: string)
    ensures var t := Trim(StripMark(raw));
      DaemonLine(raw) == DashLine(raw) <==> !(OpensForDaemon(t) && t[3] != ' ')
  {
    var t := Trim(StripMark(raw));
    hide Trim, StripMark;
    FourthIsBlank(t);
    if OpensForDaemon(t) && t[3] == ' ' {
      BlankFirst(t[3..]);
      assert t[3..][1..] == t[4..];
    }
  }

  lemma FourthIsBlank(t: string)
    ensures |t| > 3 ==> (t[..4] == "#if " <==> t[..3] == "#if" && t[3] == ' ')
  {
    if |t| > 3 {
      assert t[..4] == t[..3] + [t[3]];
      assert "#if " == "#if" + [' '];
    }
  }

  lemma BlankFirst(s: string)
    requires s != "" && s[0] == ' '
    ensures Trim(s) == Trim(s[1..])
  {
  }

  // --- The lines as they are written

  /** A blank, or one of the five controls from the horizontal tab to the carriage return. */
  predicate White(c: char) {
    c as int == 32 || 9 <= c as int <= 13
  }

  lemma SpaceIsWhite(c: char)
    ensures IsSpace(c) <==> White(c)
  {
    assert '\t' as int == 9 && '\n' as int == 10 && '\r' as int == 13;
    assert '\U{B}' as int == 11 && '\U{C}' as int == 12 && ' ' as int == 32;
    assert (c as int) as char == c;
  }

  predicate AllSpace(s: string) {
    forall i :: 0 <= i < |s| ==> White(s[i])
  }

  /** No white space at either end, and something in between. */
  predicate Trimmed(s: string) {
    s != "" && !White(s[0]) && !White(s[|s| - 1])
  }

  predicate IsMark(s: string) {
    s == "" || (|s| == 4 && s[0] == '#' && 'A' <= s[1] <= 'Z' && 'A' <= s[2] <= 'Z' && s[3] == '|')
  }

  predicate LooksMarked(raw: string) {
    |raw| >= 4 && IsMark(raw[..4])
  }

  lemma MarkedLooks(raw: string)
    ensures Marked(raw) <==> LooksMarked(raw)
  {
    if |raw| >= 4 {
      assert raw[..4][0] == raw[0] && raw[..4][1] == raw[1] && raw[..4][2] == raw[2] && raw[..4][3] == raw[3];
    }
  }

  /** This text, without surrounding white space, is how the line is written: a directive by its word, an ignored line
      as nothing or behind a semicolon, and any other text as it is. */
  ghost predicate Spells(core: string, line: Line) {
    match line
    case If(expr) => Trimmed(expr) && exists gap :: AllSpace(gap) && core == "#if " + gap + expr
    case Else => core == "#else"
    case Endif => core == "#endif"
    case Text(content) =>
      && core == content && Trimmed(content) && content[0] != ';' && content != "#else" && content != "#endif"
      && !(|content| > 3 && content[..3] == "#if" && IsSpace(content[3]))
    case Blank => core == "" || (Trimmed(core) && core[0] == ';')
  }

  /** A raw line: perhaps a mark, and white space around the text; without a mark it does not look marked. */
  ghost predicate Writes(raw: string, line: Line) {
    exists mark, left, core, right ::
      && raw == mark + (left + core + right)
      && IsMark(mark) && (mark == "" ==> !LooksMarked(raw)) && AllSpace(left) && AllSpace(right) && Spells(core, line)
  }

  lemma {:induction false} TrimLeftAround(left: string, s: string)
    requires AllSpace(left) && (s == "" || !White(s[0]))
    ensures TrimLeft(left + s) == s
    decreases |left|
  {
    forall c: char
      ensures IsSpace(c) <==> White(c)
    {
      SpaceIsWhite(c);
    }
    hide IsSpace, White;
    if left == "" {
      assert left + s == s;
    } else {
      assert (left + s)[1..] == left[1..] + s;
      TrimLeftAround(left[1..], s);
    }
  }

  lemma {:induction false} TrimRightAround(s: string, right: string)
    requires AllSpace(right) && (s == "" || !White(s[|s| - 1]))
    ensures TrimRight(s + right) == s
    decreases |right|
  {
    forall c: char
      ensures IsSpace(c) <==> White(c)
    {
      SpaceIsWhite(c);
    }
    hide IsSpace, White;
    if right == "" {
      assert s + right == s;
    } else {
      assert (s + right)[..|s + right| - 1] == s + right[..|right| - 1];
      TrimRightAround(s, right[..|right| - 1]);
    }
  }

  lemma TrimAround(left: string, core: string, right: string)
    requires AllSpace(left) && AllSpace(right) && (core == "" || Trimmed(core))
    ensures Trim(left + core + right) == core
  {
    if core == "" {
      assert left + core + right == (left + right) + "";
      TrimLeftAround(left + right, "");
      assert TrimRight("") == "";
    } else {
      assert left + core + right == left + (core + right);
      assert (core + right)[0] == core[0];
      TrimLeftAround(left, core + right);
      TrimRightAround(core, right);
    }
  }

  lemma SpelledIsTrimmed(core: string, line: Line)
    requires Spells(core, line)
    ensures core == "" || Trimmed(core)
  {
    if line.If? {
      var gap :| AllSpace(gap) && core == "#if " + gap + line.expr;
      assert core[0] == "#if "[0] == '#' && core[|core| - 1] == line.expr[|line.expr| - 1];
    }
  }

  /** The text of a line is recognised as that line. */
  lemma SpelledIsRecognised(core: string, line: Line)
    requires Spells(core, line)
    ensures line ==
      if Ignored(core) then Blank else if OpensForDaemon(core) then If(Trim(core[3..])) else Remaining(core)
    ensures OpensForDaemon(core) ==> core[3] == ' '
  {
    match line
    case If(expr) =>
      var gap :| AllSpace(gap) && core == "#if " + gap + expr;
      assert "#if "[..3] == "#if" && core[..3] == "#if " [..3] && core[3] == "#if "[3] && core[0] == "#if "[0];
      assert core[3..] == (" " + gap) + expr + "";
      TrimAround(" " + gap, expr, "");
    case Else => WordsDiffer(core);
    case Endif => WordsDiffer(core);
    case Text(content) =>
    case Blank =>
      if core != "" {
        assert core[0] == ';';
      }
  }

  /** For the daemon any white space may follow `#if`; the dashboard takes the line as text unless it is a blank. */
  lemma AnyWhiteOpens(white: char, gap: string, expr: string)
    requires White(white) && AllSpace(gap) && Trimmed(expr)
    ensures var raw := "#if" + [white] + gap + expr;
      DaemonLine(raw) == If(expr) && (white != ' ' ==> DashLine(raw) == Text(raw))
  {
    var raw := "#if" + [white] + gap + expr;
    assert raw[0] == '#' && raw[1] == 'i' && raw[3] == white && raw[|raw| - 1] == expr[|expr| - 1];
    assert raw[..3] == "#if" && raw[3..] == ([white] + gap) + expr + "";
    assert !Marked(raw) && "" + raw + "" == raw;
    SpaceIsWhite(white);
    TrimAround("", raw, "");
    TrimAround([white] + gap, expr, "");
    WordsAre(raw);
    FourthIsBlank(raw);
    hide Trim, AllSpace, Trimmed;
  }

  lemma WordsAre(raw: string)
    requires |raw| > 1 && raw[1] == 'i'
    ensures raw != "#else" && raw != "#endif"
  {
    assert "#else"[1] == 'e' && "#endif"[1] == 'e';
  }

  lemma WordsDiffer(core: string)
    requires core == "#else" || core == "#endif"
    ensures !Ignored(core) && !OpensForDaemon(core) && "#else" != "#endif"
  {
    assert "#else"[1] == 'e' && "#endif"[1] == 'e' && "#if"[1] == 'i';
    assert |"#else"| == 5 && |"#endif"| == 6;
    assert |core| > 3 ==> core[..3][1] == core[1];
  }

  /** Both parsers take a written line as the line it writes. */
  lemma WrittenIsTaken(raw: string, line: Line)
    requires Writes(raw, line)
    ensures DaemonLine(raw) == line && DashLine(raw) == line
  {
    var mark, left, core, right :|
      && raw == mark + (left + core + right)
      && IsMark(mark) && (mark == "" ==> !LooksMarked(raw)) && AllSpace(left) && AllSpace(right) && Spells(core, line);
    MarkedLooks(raw);
    MarkIsStripped(mark, left + core + right, raw);
    SpelledIsTrimmed(core, line);
    TrimAround(left, core, right);
    SpelledIsRecognised(core, line);
    hide Trim, StripMark, Spells, Ignored, Remaining;
    assert Trim(StripMark(raw)) == core;
    SameLineExactly(raw);
  }

  lemma MarkIsStripped(mark: string, rest: string, raw: string)
    requires raw == mark + rest && IsMark(mark) && (mark == "" ==> !Marked(raw))
    ensures StripMark(raw) == rest
  {
    if mark == "" {
      assert raw == rest;
    } else {
      assert raw[0] == mark[0] && raw[1] == mark[1] && raw[2] == mark[2] && raw[3] == mark[3];
      assert raw[4..] == rest;
    }
  }

  function DaemonLines(raws: seq<string>): (lines: seq<Line>)
    ensures |lines| == |raws| && forall i :: 0 <= i < |raws| ==> lines[i] == DaemonLine(raws[i])
  {
    seq(|raws|, i requires 0 <= i < |raws| => DaemonLine(raws[i]))
  }

  function DashLines(raws: seq<string>): (lines: seq<Line>)
    ensures |lines| == |raws| && forall i :: 0 <= i < |raws| ==> lines[i] == DashLine(raws[i])
  {
    seq(|raws|, i requires 0 <= i < |raws| => DashLine(raws[i]))
  }
}
