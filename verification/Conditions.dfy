/** Conditional sections of an INI file: the daemon's bounded stack, the dashboard's unbounded one, and what blocks
    mean. */
module Conditions {
  import opened IniLines

  // --- The stacks

  datatype Settings = Settings(fahrenheit: bool, canCommands: bool)

  const STACK_MAX: nat := 64

  /** How many entries a stack may hold: the daemon's array has 64, the dashboard's list grows. */
  datatype Bound = AtMost(n: nat) | Unbounded

  const DAEMON := AtMost(STACK_MAX)

  predicate Room(bound: Bound, height: nat) {
    bound.Unbounded? || height <= bound.n
  }

  /** `eval_condition`. */
  function EvalCondition(expr: string, cfg: Settings): bool {
    if expr == "FAHRENHEIT" then cfg.fahrenheit
    else if expr == "CELSIUS" then !cfg.fahrenheit
    else if expr == "CAN_COMMANDS" then cfg.canCommands
    else if expr == "NOT_CAN_COMMANDS" then !cfg.canCommands
    else true
  }

  /** The dashboard's fixed choice. */
  function DashCondition(expr: string): bool {
    expr != "CELSIUS" && expr != "CAN_COMMANDS"
  }

  predicate AllTrue(stack: seq<bool>) {
    forall i :: 0 <= i < |stack| ==> stack[i]
  }

  function Toggled(stack: seq<bool>): (r: seq<bool>)
    ensures |r| == |stack|
  {
    if stack == [] then [] else stack[..|stack| - 1] + [!stack[|stack| - 1]]
  }

  function Popped(stack: seq<bool>): seq<bool> {
    if stack == [] then [] else stack[..|stack| - 1]
  }

  /** The stack after one line; a full stack ignores further `#if`s. */
  function StepStack(bound: Bound, stack: seq<bool>, line: Line, cfg: Settings): seq<bool> {
    match line
    case If(expr) => if Room(bound, |stack| + 1) then stack + [EvalCondition(expr, cfg)] else stack
    case Else => Toggled(stack)
    case Endif => Popped(stack)
    case Text(_) | Blank => stack
  }

  /** For each line, whether it is a text line that is read. */
  function Active(bound: Bound, stack: seq<bool>, lines: seq<Line>, cfg: Settings): (flags: seq<bool>)
    ensures |flags| == |lines|
    decreases |lines|
  {
    if lines == [] then []
    else [lines[0].Text? && AllTrue(stack)] + Active(bound, StepStack(bound, stack, lines[0], cfg), lines[1..], cfg)
  }

  /** The dashboard's list has no bound. */
  function DashStep(stack: seq<bool>, line: Line): seq<bool> {
    match line
    case If(expr) => stack + [DashCondition(expr)]
    case Else => Toggled(stack)
    case Endif => Popped(stack)
    case Text(_) | Blank => stack
  }

  function DashActive(stack: seq<bool>, lines: seq<Line>): (flags: seq<bool>)
    ensures |flags| == |lines|
    decreases |lines|
  {
    if lines == [] then []
    else [lines[0].Text? && AllTrue(stack)] + DashActive(DashStep(stack, lines[0]), lines[1..])
  }

  // --- The loops

  /** `conditionally_active`. */
  method ConditionallyActive(stack: array<bool>, depth: nat) returns (active: bool)
    requires depth <= stack.Length
    ensures active == AllTrue(stack[..depth])
  {
    var i := 0;
    while i < depth
      invariant 0 <= i <= depth
      invariant AllTrue(stack[..i])
    {
      if !stack[i] {
        assert !stack[..depth][i];
        return false;
      }
      i := i + 1;
    }
    active := true;
  }

  /** What one directive does to the fixed array and its depth. */
  method StepInPlace(stack: array<bool>, depth: nat, line: Line, cfg: Settings) returns (newDepth: nat)
    requires depth <= stack.Length == STACK_MAX
    modifies stack
    ensures newDepth <= STACK_MAX
    ensures stack[..newDepth] == StepStack(DAEMON, old(stack[..depth]), line, cfg)
  {
    newDepth := depth;
    match line {
      case If(expr) =>
        if depth < STACK_MAX {
          stack[depth] := EvalCondition(expr, cfg);
          newDepth := depth + 1;
        }
      case Else =>
        if depth > 0 {
          stack[depth - 1] := !stack[depth - 1];
        }
      case Endif =>
        if depth > 0 {
          newDepth := depth - 1;
        }
      case _ =>
    }
  }

  /** The conditional part of `ms2d_ini_parse`'s loop. */
  method SelectLines(raws: seq<string>, cfg: Settings) returns (flags: seq<bool>)
    ensures flags == Active(DAEMON, [], DaemonLines(raws), cfg)
  {
    hide Active, StepStack, DaemonLine, AllTrue;
    var stack := new bool[STACK_MAX];
    var depth := 0;
    flags := [];
    var i := 0;
    ghost var lines := DaemonLines(raws);
    ghost var whole := Active(DAEMON, [], lines, cfg);
    assert stack[..depth] == [];
    while i < |raws|
      invariant 0 <= i <= |raws| && 0 <= depth <= STACK_MAX
      invariant flags + Active(DAEMON, stack[..depth], lines[i..], cfg) == whole
    {
      hide *;
      NextFlag(flags, stack[..depth], lines, i, cfg);
      var line := DaemonLine(raws[i]);
      var active := ConditionallyActive(stack, depth);
      depth := StepInPlace(stack, depth, line, cfg);
      flags := flags + [line.Text? && active];
      i := i + 1;
    }
  }

  /** The same part of `parse_ini_output_channels`. */
  method DashSelectLines(raws: seq<string>) returns (flags: seq<bool>)
    ensures flags == DashActive([], DashLines(raws))
  {
    hide DashActive, DashStep, DashLine, AllTrue;
    var stack: seq<bool> := [];
    flags := [];
    var i := 0;
    ghost var lines := DashLines(raws);
    ghost var whole := DashActive([], lines);
    while i < |raws|
      invariant 0 <= i <= |raws|
      invariant flags + DashActive(stack, lines[i..]) == whole
    {
      hide *;
      NextDashFlag(flags, stack, lines, i);
      var line := DashLine(raws[i]);
      flags := flags + [line.Text? && AllTrue(stack)];
      stack := DashStep(stack, line);
      i := i + 1;
    }
  }

  lemma NextDashFlag(flags: seq<bool>, stack: seq<bool>, lines: seq<Line>, i: nat)
    requires i < |lines|
    ensures flags + DashActive(stack, lines[i..]) ==
      (flags + [lines[i].Text? && AllTrue(stack)]) + DashActive(DashStep(stack, lines[i]), lines[i + 1..])
  {
    hide DashStep, AllTrue;
    assert lines[i..][1..] == lines[i + 1..];
  }

  lemma NextFlag(flags: seq<bool>, stack: seq<bool>, lines: seq<Line>, i: nat, cfg: Settings)
    requires i < |lines|
    ensures flags + Active(DAEMON, stack, lines[i..], cfg) ==
      (flags + [lines[i].Text? && AllTrue(stack)])
      + Active(DAEMON, StepStack(DAEMON, stack, lines[i], cfg), lines[i + 1..], cfg)
  {
    hide StepStack, AllTrue;
    assert lines[i..][1..] == lines[i + 1..];
  }

  // --- What blocks mean

  /** A well-nested document: text lines, ignored lines, and blocks whose sections are separated by `#else`. */
  datatype Doc =
    | Empty
    | Leaf(content: string, rest: Doc)
    | Gap(rest: Doc)
    | Block(expr: string, body: Sections, after: Doc)

  datatype Sections = Last(doc: Doc) | More(first: Doc, others: Sections)

  function Lines(d: Doc): seq<Line> {
    match d
    case Empty => []
    case Leaf(content, rest) => [Text(content)] + Lines(rest)
    case Gap(rest) => [Blank] + Lines(rest)
    case Block(expr, body, after) => [If(expr)] + (SectionLines(body) + ([Endif] + Lines(after)))
  }

  function SectionLines(b: Sections): seq<Line> {
    match b
    case Last(d) => Lines(d)
    case More(d, others) => Lines(d) + ([Else] + SectionLines(others))
  }

  /** A text line counts when every block around it selects the section it is in; sections alternate. */
  function Select(d: Doc, active: bool, cfg: Settings): seq<bool> {
    match d
    case Empty => []
    case Leaf(_, rest) => [active] + Select(rest, active, cfg)
    case Gap(rest) => [false] + Select(rest, active, cfg)
    case Block(expr, body, after) =>
      [false] + (SelectSections(body, active, EvalCondition(expr, cfg), cfg) + ([false] + Select(after, active, cfg)))
  }

  function SelectSections(b: Sections, active: bool, chosen: bool, cfg: Settings): seq<bool> {
    match b
    case Last(d) => Select(d, active && chosen, cfg)
    case More(d, others) =>
      Select(d, active && chosen, cfg) + ([false] + SelectSections(others, active, !chosen, cfg))
  }

  function Depth(d: Doc): nat {
    match d
    case Empty => 0
    case Leaf(_, rest) => Depth(rest)
    case Gap(rest) => Depth(rest)
    case Block(_, body, after) => Max(1 + SectionDepth(body), Depth(after))
  }

  function SectionDepth(b: Sections): nat {
    match b
    case Last(d) => Depth(d)
    case More(d, others) => Max(Depth(d), SectionDepth(others))
  }

  function Max(a: nat, b: nat): nat {
    if a < b then b else a
  }

  lemma AllTruePush(stack: seq<bool>, c: bool)
    ensures AllTrue(stack + [c]) == (AllTrue(stack) && c)
  {
    if AllTrue(stack + [c]) {
      forall i | 0 <= i < |stack|
        ensures stack[i]
      {
        assert (stack + [c])[i];
      }
      assert (stack + [c])[|stack|];
    }
  }

  lemma ActiveCons(bound: Bound, stack: seq<bool>, line: Line, tail: seq<Line>, cfg: Settings)
    ensures Active(bound, stack, [line] + tail, cfg) ==
      [line.Text? && AllTrue(stack)] + Active(bound, StepStack(bound, stack, line, cfg), tail, cfg)
  {
    assert ([line] + tail)[1..] == tail;
  }

  lemma Assoc<T>(a: seq<T>, b: seq<T>, c: seq<T>)
    ensures (a + b) + c == a + (b + c)
  {
  }

  /** With room for its depth, the machine run over a document selects what its blocks mean and leaves the stack as
      it found it. */
  lemma {:induction false} DocSelected(bound: Bound, stack: seq<bool>, d: Doc, later: seq<Line>, cfg: Settings)
    requires Room(bound, |stack| + Depth(d))
    ensures Active(bound, stack, Lines(d) + later, cfg) ==
      Select(d, AllTrue(stack), cfg) + Active(bound, stack, later, cfg)
    decreases d, 1
  {
    BlankStep(bound, stack, cfg);
    hide Active, AllTrue, StepStack, EvalCondition;
    var on, final := AllTrue(stack), Active(bound, stack, later, cfg);
    match d
    case Empty =>
      assert Lines(d) + later == later;
      assert Select(d, on, cfg) + final == final;
    case Leaf(content, rest) =>
      Assoc([Text(content)], Lines(rest), later);
      ActiveText(bound, stack, content, Lines(rest) + later, cfg);
      DocSelected(bound, stack, rest, later, cfg);
      Assoc([on], Select(rest, on, cfg), final);
    case Gap(rest) =>
      Assoc([Blank], Lines(rest), later);
      ActiveDirective(bound, stack, Blank, stack, Lines(rest) + later, cfg);
      DocSelected(bound, stack, rest, later, cfg);
      Assoc([false], Select(rest, on, cfg), final);
    case Block(expr, body, after) =>
      BlockSelected(bound, stack, d, later, cfg);
  }

  lemma BlankStep(bound: Bound, stack: seq<bool>, cfg: Settings)
    ensures StepStack(bound, stack, Blank, cfg) == stack
  {
  }

  lemma ActiveText(bound: Bound, stack: seq<bool>, content: string, tail: seq<Line>, cfg: Settings)
    ensures Active(bound, stack, [Text(content)] + tail, cfg) == [AllTrue(stack)] + Active(bound, stack, tail, cfg)
  {
    ActiveCons(bound, stack, Text(content), tail, cfg);
  }

  lemma ActiveDirective(bound: Bound, stack: seq<bool>, line: Line, next: seq<bool>, tail: seq<Line>, cfg: Settings)
    requires !line.Text? && StepStack(bound, stack, line, cfg) == next
    ensures Active(bound, stack, [line] + tail, cfg) == [false] + Active(bound, next, tail, cfg)
  {
    ActiveCons(bound, stack, line, tail, cfg);
  }

  lemma StackMoves(bound: Bound, stack: seq<bool>, expr: string, c: bool, cfg: Settings)
    requires Room(bound, |stack| + 1)
    ensures StepStack(bound, stack, If(expr), cfg) == stack + [EvalCondition(expr, cfg)]
    ensures StepStack(bound, stack + [c], Else, cfg) == stack + [!c]
    ensures StepStack(bound, stack + [c], Endif, cfg) == stack
  {
    assert (stack + [c])[..|stack|] == stack;
  }

  lemma BlockSelected(bound: Bound, stack: seq<bool>, d: Doc, later: seq<Line>, cfg: Settings)
    requires d.Block? && Room(bound, |stack| + Depth(d))
    ensures Active(bound, stack, Lines(d) + later, cfg) ==
      Select(d, AllTrue(stack), cfg) + Active(bound, stack, later, cfg)
    decreases d, 0
  {
    hide *;
    BlockUnfolds(d, later, AllTrue(stack), cfg);
    BlockHasRoom(bound, |stack|, d);
    var c := EvalCondition(d.expr, cfg);
    var on, final := AllTrue(stack), Active(bound, stack, later, cfg);
    var rest := Lines(d.after) + later;
    StackMoves(bound, stack, d.expr, c, cfg);
    ActiveDirective(bound, stack, If(d.expr), stack + [c], SectionLines(d.body) + ([Endif] + rest), cfg);
    SectionsSelected(bound, stack, c, d.body, rest, cfg);
    DocSelected(bound, stack, d.after, later, cfg);
    Around(SelectSections(d.body, on, c, cfg), Select(d.after, on, cfg), final);
  }

  lemma BlockHasRoom(bound: Bound, height: nat, d: Doc)
    requires d.Block? && Room(bound, height + Depth(d))
    ensures Room(bound, height + 1 + SectionDepth(d.body)) && Room(bound, height + Depth(d.after))
    ensures Room(bound, height + 1)
  {
  }

  lemma BlockUnfolds(d: Doc, later: seq<Line>, on: bool, cfg: Settings)
    requires d.Block?
    ensures Lines(d) + later == [If(d.expr)] + (SectionLines(d.body) + ([Endif] + (Lines(d.after) + later)))
    ensures Select(d, on, cfg) ==
      [false] + (SelectSections(d.body, on, EvalCondition(d.expr, cfg), cfg) + ([false] + Select(d.after, on, cfg)))
  {
    hide EvalCondition;
  }

  lemma Around(inner: seq<bool>, tail: seq<bool>, final: seq<bool>)
    ensures [false] + (inner + ([false] + (tail + final))) == ([false] + (inner + ([false] + tail))) + final
  {
  }

  lemma {:induction false} SectionsSelected(bound: Bound, stack: seq<bool>, c: bool, b: Sections, later: seq<Line>,
                                            cfg: Settings)
    requires Room(bound, |stack| + 1 + SectionDepth(b))
    ensures Active(bound, stack + [c], SectionLines(b) + ([Endif] + later), cfg) ==
      SelectSections(b, AllTrue(stack), c, cfg) + ([false] + Active(bound, stack, later, cfg))
    decreases b, 1
  {
    AllTruePush(stack, c);
    hide Active, AllTrue, StepStack, Lines, Select, Depth;
    var pushed := stack + [c];
    StackMoves(bound, stack, "", c, cfg);
    match b
    case Last(d) =>
      DocSelected(bound, pushed, d, [Endif] + later, cfg);
      ActiveDirective(bound, pushed, Endif, stack, later, cfg);
    case More(d, others) =>
      MoreSelected(bound, stack, c, b, later, cfg);
  }

  lemma MoreSelected(bound: Bound, stack: seq<bool>, c: bool, b: Sections, later: seq<Line>, cfg: Settings)
    requires b.More? && Room(bound, |stack| + 1 + SectionDepth(b))
    ensures Active(bound, stack + [c], SectionLines(b) + ([Endif] + later), cfg) ==
      SelectSections(b, AllTrue(stack), c, cfg) + ([false] + Active(bound, stack, later, cfg))
    decreases b, 0
  {
    hide *;
    var on, pushed := AllTrue(stack), stack + [c];
    var tail := SectionLines(b.others) + ([Endif] + later);
    MoreUnfolds(bound, |stack|, b, later, on, c, cfg);
    AllTruePush(stack, c);
    StackMoves(bound, stack, "", c, cfg);
    DocSelected(bound, pushed, b.first, [Else] + tail, cfg);
    ActiveDirective(bound, pushed, Else, stack + [!c], tail, cfg);
    SectionsSelected(bound, stack, !c, b.others, later, cfg);
    Between(Select(b.first, on && c, cfg), SelectSections(b.others, on, !c, cfg),
            [false] + Active(bound, stack, later, cfg));
  }

  lemma MoreUnfolds(bound: Bound, height: nat, b: Sections, later: seq<Line>, on: bool, c: bool, cfg: Settings)
    requires b.More? && Room(bound, height + 1 + SectionDepth(b))
    ensures Room(bound, height + 1) && Room(bound, height + 1 + Depth(b.first))
    ensures Room(bound, height + 1 + SectionDepth(b.others))
    ensures SectionLines(b) + ([Endif] + later) ==
      Lines(b.first) + ([Else] + (SectionLines(b.others) + ([Endif] + later)))
    ensures SelectSections(b, on, c, cfg) ==
      Select(b.first, on && c, cfg) + ([false] + SelectSections(b.others, on, !c, cfg))
  {
    hide Lines, Select, Depth;
  }

  lemma Between(x: seq<bool>, y: seq<bool>, z: seq<bool>)
    ensures x + ([false] + (y + z)) == (x + ([false] + y)) + z
  {
  }

  /** The daemon reads every file within its bound as the file's blocks mean it. */
  lemma MachineIsMeaning(d: Doc, cfg: Settings)
    requires Depth(d) <= 64
    ensures Active(DAEMON, [], Lines(d), cfg) == Select(d, true, cfg)
  {
    WholeFile(DAEMON, d, cfg);
  }

  lemma WholeFile(bound: Bound, d: Doc, cfg: Settings)
    requires Room(bound, Depth(d))
    ensures Active(bound, [], Lines(d), cfg) == Select(d, true, cfg)
  {
    DocSelected(bound, [], d, [], cfg);
    assert Lines(d) + [] == Lines(d);
    assert Select(d, true, cfg) + [] == Select(d, true, cfg);
  }

  // --- The dashboard's parser

  /** The daemon's settings under which it answers every condition as the dashboard does. */
  const DASH_SETTINGS := Settings(true, false)

  lemma DashStepIsUnbounded(stack: seq<bool>, line: Line)
    ensures DashStep(stack, line) == StepStack(Unbounded, stack, line, DASH_SETTINGS)
  {
  }

  lemma {:induction false} DashIsUnbounded(stack: seq<bool>, lines: seq<Line>)
    ensures DashActive(stack, lines) == Active(Unbounded, stack, lines, DASH_SETTINGS)
    decreases |lines|
  {
    if lines != [] {
      DashStepIsUnbounded(stack, lines[0]);
      hide StepStack, DashStep, AllTrue;
      DashIsUnbounded(DashStep(stack, lines[0]), lines[1..]);
    }
  }

  /** The dashboard reads every file as its blocks mean it, however deep. */
  lemma DashIsMeaning(d: Doc)
    ensures DashActive([], Lines(d)) == Select(d, true, DASH_SETTINGS)
  {
    DashIsUnbounded([], Lines(d));
    WholeFile(Unbounded, d, DASH_SETTINGS);
  }

  /** With the dashboard's settings the daemon selects the dashboard's lines, in every document within the bound. */
  lemma ParsersAgree(d: Doc)
    requires Depth(d) <= 64
    ensures Active(DAEMON, [], Lines(d), DASH_SETTINGS) == DashActive([], Lines(d))
  {
    DashIsMeaning(d);
    MachineIsMeaning(d, DASH_SETTINGS);
  }

  /** So do their loops over a file whose lines both take alike and that nests within the bound. */
  lemma FilesAgree(raws: seq<string>, d: Doc)
    requires DaemonLines(raws) == Lines(d) && Depth(d) <= 64
    requires forall i :: 0 <= i < |raws| ==>
      var t := Trim(StripMark(raws[i])); !(OpensForDaemon(t) && t[3] != ' ')
    ensures Active(DAEMON, [], DaemonLines(raws), DASH_SETTINGS) == DashActive([], DashLines(raws))
  {
    forall i | 0 <= i < |raws|
      ensures DaemonLine(raws[i]) == DashLine(raws[i])
    {
      SameLineExactly(raws[i]);
    }
    hide DaemonLine, DashLine;
    assert DaemonLines(raws) == DashLines(raws);
    ParsersAgree(d);
  }

  // --- The bound

  function StackAfter(bound: Bound, stack: seq<bool>, lines: seq<Line>, cfg: Settings): seq<bool>
    decreases |lines|
  {
    if lines == [] then stack else StackAfter(bound, StepStack(bound, stack, lines[0], cfg), lines[1..], cfg)
  }

  /** The two stacks are the same before the first line and after every line. */
  ghost predicate AgreeThroughout(stack: seq<bool>, free: seq<bool>, lines: seq<Line>, cfg: Settings) {
    forall n :: 0 <= n <= |lines| ==>
      StackAfter(DAEMON, stack, lines[..n], cfg) == StackAfter(Unbounded, free, lines[..n], cfg)
  }

  /** How high a stack without bound would grow: what a line does to its height does not depend on conditions. */
  function Peak(height: nat, lines: seq<Line>): nat
    decreases |lines|
  {
    if lines == [] then height else Max(height, Peak(Moved(height, lines[0]), lines[1..]))
  }

  function Moved(height: nat, line: Line): nat {
    if line.If? then height + 1 else if line.Endif? && height > 0 then height - 1 else height
  }

  lemma AgreeStep(stack: seq<bool>, free: seq<bool>, lines: seq<Line>, cfg: Settings)
    requires lines != []
    ensures AgreeThroughout(stack, free, lines, cfg) <==>
      stack == free
      && AgreeThroughout(StepStack(DAEMON, stack, lines[0], cfg), StepStack(Unbounded, free, lines[0], cfg),
                         lines[1..], cfg)
  {
    hide StepStack;
    var stack', free' := StepStack(DAEMON, stack, lines[0], cfg), StepStack(Unbounded, free, lines[0], cfg);
    assert lines[..0] == [];
    forall n | 1 <= n <= |lines|
      ensures StackAfter(DAEMON, stack, lines[..n], cfg) == StackAfter(DAEMON, stack', lines[1..][..n - 1], cfg)
      ensures StackAfter(Unbounded, free, lines[..n], cfg) == StackAfter(Unbounded, free', lines[1..][..n - 1], cfg)
    {
      assert lines[..n][1..] == lines[1..][..n - 1];
    }
    if AgreeThroughout(stack, free, lines, cfg) {
      assert StackAfter(DAEMON, stack, lines[..0], cfg) == StackAfter(Unbounded, free, lines[..0], cfg);
      forall m | 0 <= m <= |lines[1..]|
        ensures StackAfter(DAEMON, stack', lines[1..][..m], cfg) == StackAfter(Unbounded, free', lines[1..][..m], cfg)
      {
        assert StackAfter(DAEMON, stack, lines[..m + 1], cfg) == StackAfter(Unbounded, free, lines[..m + 1], cfg);
      }
    }
    if stack == free && AgreeThroughout(stack', free', lines[1..], cfg) {
      forall n | 0 <= n <= |lines|
        ensures StackAfter(DAEMON, stack, lines[..n], cfg) == StackAfter(Unbounded, free, lines[..n], cfg)
      {
        if n > 0 {
          var tail := lines[1..][..n - 1];
          assert StackAfter(DAEMON, stack', tail, cfg) == StackAfter(Unbounded, free', tail, cfg);
        }
      }
    }
  }

  lemma AgreeNow(stack: seq<bool>, free: seq<bool>, lines: seq<Line>, cfg: Settings)
    requires AgreeThroughout(stack, free, lines, cfg)
    ensures stack == free
  {
    assert lines[..0] == [];
    assert StackAfter(DAEMON, stack, lines[..0], cfg) == StackAfter(Unbounded, free, lines[..0], cfg);
  }

  /** Over any lines, well nested or not, and under any settings, the daemon's stack and an unbounded one agree
      throughout exactly when the unbounded one never holds more than 64 entries. */
  lemma {:induction false} StacksAgreeExactly(stack: seq<bool>, lines: seq<Line>, cfg: Settings)
    requires |stack| <= STACK_MAX
    ensures AgreeThroughout(stack, stack, lines, cfg) <==> Peak(|stack|, lines) <= 64
    decreases |lines|
  {
    if lines == [] {
      assert AgreeThroughout(stack, stack, lines, cfg);
    } else {
      AgreeStep(stack, stack, lines, cfg);
      hide AgreeThroughout;
      var stack', free' := StepStack(DAEMON, stack, lines[0], cfg), StepStack(Unbounded, stack, lines[0], cfg);
      assert |free'| == Moved(|stack|, lines[0]);
      if stack' == free' {
        StacksAgreeExactly(stack', lines[1..], cfg);
      } else {
        assert |free'| == STACK_MAX + 1;
        PeakIsHigh(|free'|, lines[1..]);
        if AgreeThroughout(stack', free', lines[1..], cfg) {
          AgreeNow(stack', free', lines[1..], cfg);
        }
      }
    }
  }

  lemma PeakIsHigh(height: nat, lines: seq<Line>)
    ensures Peak(height, lines) >= height
  {
  }

  lemma PeakCons(height: nat, line: Line, tail: seq<Line>)
    ensures Peak(height, [line] + tail) == Max(height, Peak(Moved(height, line), tail))
  {
    assert ([line] + tail)[1..] == tail;
  }

  /** A document raises the stack by exactly its depth. */
  lemma {:induction false} DocPeak(height: nat, d: Doc, later: seq<Line>)
    ensures Peak(height, Lines(d) + later) == Max(height + Depth(d), Peak(height, later))
    decreases d, 1
  {
    hide Peak;
    PeakIsHigh(height, later);
    match d
    case Empty =>
      assert Lines(d) + later == later;
    case Leaf(content, rest) =>
      DocPeak(height, rest, later);
      PeakCons(height, Text(content), Lines(rest) + later);
      Assoc([Text(content)], Lines(rest), later);
    case Gap(rest) =>
      DocPeak(height, rest, later);
      PeakCons(height, Blank, Lines(rest) + later);
      Assoc([Blank], Lines(rest), later);
    case Block(expr, body, after) =>
      BlockPeak(height, d, later);
  }

  lemma BlockPeak(height: nat, d: Doc, later: seq<Line>)
    requires d.Block?
    ensures Peak(height, Lines(d) + later) == Max(height + Depth(d), Peak(height, later))
    decreases d, 0
  {
    hide *;
    BlockHeights(height, d);
    BlockUnfolds(d, later, true, DASH_SETTINGS);
    var tail := Lines(d.after) + later;
    DocPeak(height, d.after, later);
    SectionsPeak(height, d.body, tail);
    PeakCons(height, If(d.expr), SectionLines(d.body) + ([Endif] + tail));
    BlockMax(height, SectionDepth(d.body), Depth(d.after), Peak(height, later));
  }

  lemma BlockHeights(height: nat, d: Doc)
    requires d.Block?
    ensures Depth(d) == Max(1 + SectionDepth(d.body), Depth(d.after)) && Moved(height, If(d.expr)) == height + 1
  {
  }

  lemma BlockMax(height: nat, body: nat, after: nat, later: nat)
    ensures Max(height, Max(height + 1 + body, Max(height + after, later))) ==
      Max(height + Max(1 + body, after), later)
  {
  }

  lemma {:induction false} SectionsPeak(height: nat, b: Sections, later: seq<Line>)
    ensures Peak(height + 1, SectionLines(b) + ([Endif] + later)) ==
      Max(height + 1 + SectionDepth(b), Peak(height, later))
    decreases b, 1
  {
    hide Peak, Lines, Depth;
    match b
    case Last(d) =>
      PeakCons(height + 1, Endif, later);
      DocPeak(height + 1, d, [Endif] + later);
    case More(d, others) =>
      var tail := SectionLines(others) + ([Endif] + later);
      SectionsPeak(height, others, later);
      PeakCons(height + 1, Else, tail);
      DocPeak(height + 1, d, [Else] + tail);
      assert SectionLines(b) + ([Endif] + later) == Lines(d) + ([Else] + tail);
  }

  /** In a well-nested document, under any settings, the two stacks agree throughout exactly up to depth 64. */
  lemma DepthIsExact(d: Doc, cfg: Settings)
    ensures AgreeThroughout([], [], Lines(d), cfg) <==> Depth(d) <= 64
  {
    hide AgreeThroughout;
    StacksAgreeExactly([], Lines(d), cfg);
    DocPeak(0, d, []);
    assert Lines(d) + [] == Lines(d);
    assert Peak(0, []) == 0;
  }
}
