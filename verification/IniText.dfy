/** Conditional sections from the raw text on. */
module IniText {
  import opened IniLines
  import opened Conditions

  /** The raw lines write these lines. */
  ghost predicate WritesAll(raws: seq<string>, lines: seq<Line>) {
    |raws| == |lines| && forall i :: 0 <= i < |raws| ==> Writes(raws[i], lines[i])
  }

  lemma WrittenFile(raws: seq<string>, lines: seq<Line>)
    requires WritesAll(raws, lines)
    ensures DaemonLines(raws) == lines && DashLines(raws) == lines
  {
    hide Writes, DaemonLine, DashLine;
    forall i | 0 <= i < |raws|
      ensures DaemonLine(raws[i]) == lines[i] && DashLine(raws[i]) == lines[i]
    {
      WrittenIsTaken(raws[i], lines[i]);
    }
  }

  /** From the raw text: however a well-nested document is written, the daemon's loop marks the lines its blocks mean if
      it nests within the bound, and the dashboard's loop always. */
  lemma WrittenDocIsMeaning(raws: seq<string>, d: Doc, cfg: Settings)
    requires WritesAll(raws, Lines(d))
    ensures Depth(d) <= 64 ==> Active(DAEMON, [], DaemonLines(raws), cfg) == Select(d, true, cfg)
    ensures DashActive([], DashLines(raws)) == Select(d, true, DASH_SETTINGS)
  {
    hide WritesAll, Active, DashActive, Lines, Select, Depth;
    WrittenFile(raws, Lines(d));
    DashIsMeaning(d);
    if Depth(d) <= 64 {
      MachineIsMeaning(d, cfg);
    }
  }

  /** Five lines as they stand in a file: the first of two sections is read. */
  lemma FirstSectionRead()
    ensures var raws := ["#if FAHRENHEIT", "a", "#else", "b", "#endif"];
      && Active(DAEMON, [], DaemonLines(raws), Settings(true, false)) == [false, true, false, false, false]
      && DashActive([], DashLines(raws)) == [false, true, false, false, false]
  {
    var raws := ["#if FAHRENHEIT", "a", "#else", "b", "#endif"];
    FiveLinesWritten(raws);
    hide *;
    WrittenDocIsMeaning(raws, TwoSections(), Settings(true, false));
    TwoSectionsMean();
  }

  function TwoSections(): Doc {
    Block("FAHRENHEIT", More(Leaf("a", Empty), Last(Leaf("b", Empty))), Empty)
  }

  lemma TwoSectionsMean()
    ensures Select(TwoSections(), true, DASH_SETTINGS) == [false, true, false, false, false]
    ensures DASH_SETTINGS == Settings(true, false) && Depth(TwoSections()) <= 64
  {
    assert Select(Empty, true, DASH_SETTINGS) == [];
    assert Select(Leaf("a", Empty), true, DASH_SETTINGS) == [true];
    assert Select(Leaf("b", Empty), false, DASH_SETTINGS) == [false];
    assert EvalCondition("FAHRENHEIT", DASH_SETTINGS);
    assert Depth(Leaf("a", Empty)) == 0 && Depth(Leaf("b", Empty)) == 0;
  }

  lemma WrittenPlain(core: string, line: Line)
    requires Spells(core, line) && !Marked(core)
    ensures Writes(core, line)
  {
    MarkedLooks(core);
    var none := "";
    assert core == none + (none + core + none);
    assert IsMark(none) && AllSpace(none);
  }

  lemma FiveLinesWritten(raws: seq<string>)
    requires raws == ["#if FAHRENHEIT", "a", "#else", "b", "#endif"]
    ensures WritesAll(raws, Lines(TwoSections()))
  {
    TwoSectionsLines();
    WordsWritten();
    hide Writes, Lines, TwoSections;
  }

  lemma TwoSectionsLines()
    ensures Lines(TwoSections()) == [If("FAHRENHEIT"), Text("a"), Else, Text("b"), Endif]
  {
    assert Lines(Empty) == [] && Lines(Leaf("a", Empty)) == [Text("a")] && Lines(Leaf("b", Empty)) == [Text("b")];
  }

  lemma WordsWritten()
    ensures Writes("#if FAHRENHEIT", If("FAHRENHEIT")) && Writes("#else", Else) && Writes("#endif", Endif)
    ensures Writes("a", Text("a")) && Writes("b", Text("b"))
  {
    hide Writes;
    IfWritten();
    SectionWordsWritten();
    LetterWritten("a");
    LetterWritten("b");
  }

  lemma IfWritten()
    ensures Writes("#if FAHRENHEIT", If("FAHRENHEIT"))
  {
    var expr := "FAHRENHEIT";
    assert Trimmed(expr);
    assert "#if FAHRENHEIT" == "#if " + expr;
    hide Writes, Spells, Trimmed;
    IfSpelled(expr);
    WrittenPlain("#if " + expr, If(expr));
  }

  lemma SectionWordsWritten()
    ensures Writes("#else", Else) && Writes("#endif", Endif)
  {
    hide Writes;
    ElseWritten("#else");
    EndifWritten("#endif");
  }

  lemma ElseWritten(word: string)
    requires word == "#else"
    ensures Writes(word, Else)
  {
    assert word[1] == 'e';
    hide Writes;
    WrittenPlain(word, Else);
  }

  lemma EndifWritten(word: string)
    requires word == "#endif"
    ensures Writes(word, Endif)
  {
    assert word[1] == 'e';
    hide Writes;
    WrittenPlain(word, Endif);
  }

  lemma LetterWritten(s: string)
    requires s == "a" || s == "b"
    ensures Writes(s, Text(s))
  {
    assert |s| == 1 && Spells(s, Text(s)) && !Marked(s);
    hide Writes, Spells, Marked;
    WrittenPlain(s, Text(s));
  }

  lemma IfSpelled(expr: string)
    requires Trimmed(expr)
    ensures Spells("#if " + expr, If(expr))
  {
    var none := "";
    assert AllSpace(none) && "#if " + expr == "#if " + none + expr;
  }

  /** The four conditions by name; any other holds. */
  lemma ConditionNames(cfg: Settings, expr: string)
    ensures EvalCondition("FAHRENHEIT", cfg) == cfg.fahrenheit && EvalCondition("CELSIUS", cfg) == !cfg.fahrenheit
    ensures EvalCondition("CAN_COMMANDS", cfg) == cfg.canCommands
    ensures EvalCondition("NOT_CAN_COMMANDS", cfg) == !cfg.canCommands
    ensures expr != "FAHRENHEIT" && expr != "CELSIUS" && expr != "CAN_COMMANDS" && expr != "NOT_CAN_COMMANDS" ==>
      EvalCondition(expr, cfg)
  {
    assert |"FAHRENHEIT"| == 10 && |"CELSIUS"| == 7 && |"CAN_COMMANDS"| == 12 && |"NOT_CAN_COMMANDS"| == 16;
  }
}
