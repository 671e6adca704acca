/** Conditional sections nested deeper than the daemon's stack: what goes wrong, and when nothing does. */
module DeepNesting {
  import opened IniLines
  import opened Conditions

  // --- Past the bound

  /** A document nested k deep around another, every condition true. */
  function Nested(k: nat, inner: Doc): Doc
    decreases k
  {
    if k == 0 then inner else Block("ON", Last(Nested(k - 1, inner)), Empty)
  }

  /** A line no Fahrenheit daemon should read. */
  const CELSIUS_LINE: Doc := Block("CELSIUS", Last(Leaf("x", Empty)), Empty)

  /** The daemon reads this line. */
  ghost predicate ReadsAt(stack: seq<bool>, lines: seq<Line>, i: nat) {
    i < |lines| && Active(DAEMON, stack, lines, DASH_SETTINGS)[i]
  }

  lemma FullStackReads(stack: seq<bool>, later: seq<Line>)
    requires AllTrue(stack) && |stack| == STACK_MAX
    ensures ReadsAt(stack, Lines(CELSIUS_LINE) + later, 1)
  {
    hide Active, AllTrue;
    var tail := [Endif] + later;
    assert Lines(Empty) == [];
    assert Lines(Leaf("x", Empty)) == [Text("x")];
    assert Lines(CELSIUS_LINE) + later == [If("CELSIUS")] + ([Text("x")] + tail);
    ActiveDirective(DAEMON, stack, If("CELSIUS"), stack, [Text("x")] + tail, DASH_SETTINGS);
    ActiveText(DAEMON, stack, "x", tail, DASH_SETTINGS);
  }

  lemma ReadsBehindIf(stack: seq<bool>, tail: seq<Line>, i: nat)
    requires |stack| < STACK_MAX && ReadsAt(stack + [true], tail, i)
    ensures ReadsAt(stack, [If("ON")] + tail, i + 1)
  {
    assert StepStack(DAEMON, stack, If("ON"), DASH_SETTINGS) == stack + [true];
    hide Active, AllTrue, StepStack;
    ActiveDirective(DAEMON, stack, If("ON"), stack + [true], tail, DASH_SETTINGS);
  }

  lemma {:induction false} PastBoundActive(stack: seq<bool>, k: nat, later: seq<Line>)
    requires AllTrue(stack) && |stack| + k == STACK_MAX
    ensures ReadsAt(stack, Lines(Nested(k, CELSIUS_LINE)) + later, k + 1)
    decreases k
  {
    hide AllTrue, ReadsAt, Lines;
    if k == 0 {
      FullStackReads(stack, later);
    } else {
      AllTruePush(stack, true);
      NestedUnfolds(k, later);
      PastBoundActive(stack + [true], k - 1, [Endif] + later);
      ReadsBehindIf(stack, Lines(Nested(k - 1, CELSIUS_LINE)) + ([Endif] + later), k);
    }
  }

  lemma NestedUnfolds(k: nat, later: seq<Line>)
    requires k > 0
    ensures Lines(Nested(k, CELSIUS_LINE)) + later ==
      [If("ON")] + (Lines(Nested(k - 1, CELSIUS_LINE)) + ([Endif] + later))
  {
    assert Lines(Nested(k, CELSIUS_LINE)) == [If("ON")] + (Lines(Nested(k - 1, CELSIUS_LINE)) + ([Endif] + []));
  }

  lemma {:induction false} PastBoundSelect(k: nat)
    ensures |Select(Nested(k, CELSIUS_LINE), true, DASH_SETTINGS)| > k + 1
    ensures !Select(Nested(k, CELSIUS_LINE), true, DASH_SETTINGS)[k + 1]
    ensures Depth(Nested(k, CELSIUS_LINE)) == k + 1
    decreases k
  {
    if k > 0 {
      PastBoundSelect(k - 1);
    }
  }

  /** One level past the bound the machine can be wrong: it reads a line its condition excludes. */
  lemma DeepNestingDiffers()
    ensures var d := Nested(STACK_MAX, CELSIUS_LINE);
      Depth(d) == 65 && Active(DAEMON, [], Lines(d), DASH_SETTINGS) != Select(d, true, DASH_SETTINGS)
  {
    assert STACK_MAX == 64;
    hide *;
    PastBoundSelect(STACK_MAX);
    assert AllTrue([]) by {
      EmptyAllTrue();
    }
    PastBoundActive([], STACK_MAX, []);
    var d := Nested(STACK_MAX, CELSIUS_LINE);
    assert Lines(d) + [] == Lines(d);
    ReadMeans(Lines(d), STACK_MAX + 1);
  }

  /** 64 is the largest depth up to which every document is read right. */
  lemma BoundIsExact(depth: nat)
    ensures (forall d, cfg :: Depth(d) <= depth ==> Active(DAEMON, [], Lines(d), cfg) == Select(d, true, cfg))
       <==> depth <= 64
  {
    assert STACK_MAX == 64;
    hide *;
    if depth <= STACK_MAX {
      forall d, cfg | Depth(d) <= depth
        ensures Active(DAEMON, [], Lines(d), cfg) == Select(d, true, cfg)
      {
        MachineIsMeaning(d, cfg);
      }
    } else {
      DeepNestingDiffers();
      assert Depth(Nested(STACK_MAX, CELSIUS_LINE)) <= depth;
    }
  }

  lemma ReadMeans(lines: seq<Line>, i: nat)
    requires ReadsAt([], lines, i)
    ensures i < |lines| && Active(DAEMON, [], lines, DASH_SETTINGS)[i]
  {
  }

  lemma EmptyAllTrue()
    ensures AllTrue([])
  {
  }

  // --- Which deep documents are read right, if they have no `#else`

  predicate NoElse(d: Doc) {
    match d
    case Empty => true
    case Leaf(_, rest) => NoElse(rest)
    case Gap(rest) => NoElse(rest)
    case Block(_, body, after) => body.Last? && NoElse(body.doc) && NoElse(after)
  }

  function Dropped(height: nat): nat {
    if height > 0 then height - 1 else 0
  }

  /** How many entries of a stack of this height are left behind a document: an ignored `#if` costs the entry that its
      `#endif` removes. Conditions do not matter. */
  function Kept(height: nat, d: Doc): (kept: nat)
    requires NoElse(d)
    ensures kept <= height
    decreases d, 0
  {
    match d
    case Empty => height
    case Leaf(_, rest) => Kept(height, rest)
    case Gap(rest) => Kept(height, rest)
    case Block(_, body, after) => Kept(Inside(height, body.doc), after)
  }

  /** The same behind a block's own `#endif`. */
  function Inside(height: nat, body: Doc): (kept: nat)
    requires NoElse(body)
    ensures kept <= height
    decreases body, 1
  {
    if height < STACK_MAX then Dropped(Kept(height + 1, body)) else Dropped(Kept(height, body))
  }

  function Min(a: nat, b: nat): nat {
    if a < b then a else b
  }

  /** How many entries from the bottom are true. */
  function Leading(stack: seq<bool>): (n: nat)
    ensures n <= |stack|
  {
    if stack == [] || !stack[0] then 0 else 1 + Leading(stack[1..])
  }

  /** A document met at this height, with so many leading true entries, where its text is wanted or not: every text line
      is read just when it is wanted. One pass over the blocks decides it, with two numbers for the stack. */
  predicate ReadRight(height: nat, leading: nat, wanted: bool, d: Doc, cfg: Settings)
    requires NoElse(d)
    decreases d
  {
    match d
    case Empty => true
    case Leaf(_, rest) => wanted == (leading == height) && ReadRight(height, leading, wanted, rest, cfg)
    case Gap(rest) => ReadRight(height, leading, wanted, rest, cfg)
    case Block(expr, body, after) =>
      var c := EvalCondition(expr, cfg);
      && (if height < STACK_MAX then
            ReadRight(height + 1, if leading == height && c then height + 1 else leading, wanted && c, body.doc, cfg)
          else ReadRight(height, leading, wanted && c, body.doc, cfg))
      && var left := Inside(height, body.doc);
      ReadRight(left, Min(leading, left), wanted, after, cfg)
  }

  /** What the daemon makes of a document, block by block. */
  function Marks(stack: seq<bool>, d: Doc, cfg: Settings): seq<bool>
    requires NoElse(d)
    decreases d
  {
    match d
    case Empty => []
    case Leaf(_, rest) => [AllTrue(stack)] + Marks(stack, rest, cfg)
    case Gap(rest) => [false] + Marks(stack, rest, cfg)
    case Block(expr, body, after) =>
      [false] + (Marks(Entered(stack, expr, cfg), body.doc, cfg)
                 + ([false] + Marks(stack[..Inside(|stack|, body.doc)], after, cfg)))
  }

  function Entered(stack: seq<bool>, expr: string, cfg: Settings): seq<bool> {
    StepStack(DAEMON, stack, If(expr), cfg)
  }

  lemma LeadingIsTrue(stack: seq<bool>)
    ensures AllTrue(stack) <==> Leading(stack) == |stack|
  {
    if stack != [] {
      LeadingIsTrue(stack[1..]);
      assert forall i :: 1 <= i < |stack| ==> stack[i] == stack[1..][i - 1];
    }
  }

  lemma {:induction false} LeadingOfFront(stack: seq<bool>, n: nat)
    requires n <= |stack|
    ensures Leading(stack[..n]) == Min(Leading(stack), n)
    decreases n
  {
    if n > 0 && stack[0] {
      assert stack[..n][1..] == stack[1..][..n - 1];
      LeadingOfFront(stack[1..], n - 1);
    }
  }

  lemma {:induction false} LeadingPush(stack: seq<bool>, c: bool)
    ensures Leading(stack + [c]) == if Leading(stack) == |stack| && c then |stack| + 1 else Leading(stack)
  {
    if stack == [] {
      assert [c][1..] == [];
    } else {
      assert (stack + [c])[1..] == stack[1..] + [c];
      LeadingPush(stack[1..], c);
    }
  }

  lemma {:induction false} MarksLength(stack: seq<bool>, d: Doc, wanted: bool, cfg: Settings)
    requires NoElse(d)
    ensures |Marks(stack, d, cfg)| == |Select(d, wanted, cfg)|
    decreases d
  {
    match d
    case Empty =>
    case Leaf(_, rest) => MarksLength(stack, rest, wanted, cfg);
    case Gap(rest) => MarksLength(stack, rest, wanted, cfg);
    case Block(expr, body, after) =>
      MarksLength(Entered(stack, expr, cfg), body.doc, wanted && EvalCondition(expr, cfg), cfg);
      MarksLength(stack[..Inside(|stack|, body.doc)], after, wanted, cfg);
  }

  /** The stack machine marks just that, and leaves the entries that are kept. */
  lemma {:induction false} MachineMarks(stack: seq<bool>, d: Doc, later: seq<Line>, cfg: Settings)
    requires NoElse(d) && |stack| <= STACK_MAX
    ensures Active(DAEMON, stack, Lines(d) + later, cfg) ==
      Marks(stack, d, cfg) + Active(DAEMON, stack[..Kept(|stack|, d)], later, cfg)
    decreases d
  {
    BlankStep(DAEMON, stack, cfg);
    hide Active, AllTrue, StepStack, EvalCondition;
    var final := Active(DAEMON, stack[..Kept(|stack|, d)], later, cfg);
    match d
    case Empty =>
      assert Lines(d) + later == later && stack[..|stack|] == stack;
    case Leaf(content, rest) =>
      Assoc([Text(content)], Lines(rest), later);
      ActiveText(DAEMON, stack, content, Lines(rest) + later, cfg);
      MachineMarks(stack, rest, later, cfg);
      Assoc([AllTrue(stack)], Marks(stack, rest, cfg), final);
    case Gap(rest) =>
      Assoc([Blank], Lines(rest), later);
      ActiveDirective(DAEMON, stack, Blank, stack, Lines(rest) + later, cfg);
      MachineMarks(stack, rest, later, cfg);
      Assoc([false], Marks(stack, rest, cfg), final);
    case Block(expr, body, after) =>
      BlockUnfolds(d, later, true, cfg);
      var rest := Lines(after) + later;
      var entered, left := Entered(stack, expr, cfg), stack[..Inside(|stack|, body.doc)];
      EnteredParts(stack, expr, body.doc, cfg);
      ActiveDirective(DAEMON, stack, If(expr), entered, Lines(body.doc) + ([Endif] + rest), cfg);
      MachineMarks(entered, body.doc, [Endif] + rest, cfg);
      ActiveDirective(DAEMON, entered[..Kept(|entered|, body.doc)], Endif, left, rest, cfg);
      MachineMarks(left, after, later, cfg);
      assert left[..Kept(|left|, after)] == stack[..Kept(|stack|, d)];
      Around(Marks(entered, body.doc, cfg), Marks(left, after, cfg), final);
  }

  lemma EnteredParts(stack: seq<bool>, expr: string, body: Doc, cfg: Settings)
    requires NoElse(body) && |stack| <= STACK_MAX
    ensures var entered := Entered(stack, expr, cfg);
      && StepStack(DAEMON, stack, If(expr), cfg) == entered
      && |entered| == (if |stack| < STACK_MAX then |stack| + 1 else |stack|)
      && StepStack(DAEMON, entered[..Kept(|entered|, body)], Endif, cfg) == stack[..Inside(|stack|, body)]
  {
  }

  /** Its marks are the wanted lines exactly when the pass says so. */
  lemma {:induction false} RightExactly(stack: seq<bool>, d: Doc, wanted: bool, cfg: Settings)
    requires NoElse(d) && |stack| <= STACK_MAX
    ensures Marks(stack, d, cfg) == Select(d, wanted, cfg) <==> ReadRight(|stack|, Leading(stack), wanted, d, cfg)
    decreases d, 1
  {
    LeadingIsTrue(stack);
    hide AllTrue, Leading, EvalCondition, StepStack;
    match d
    case Empty =>
    case Leaf(_, rest) =>
      RightExactly(stack, rest, wanted, cfg);
      SamePair([AllTrue(stack)], [wanted], Marks(stack, rest, cfg), Select(rest, wanted, cfg));
    case Gap(rest) =>
      RightExactly(stack, rest, wanted, cfg);
      SamePair([false], [false], Marks(stack, rest, cfg), Select(rest, wanted, cfg));
    case Block(expr, body, after) =>
      BlockRight(stack, d, wanted, cfg);
  }

  lemma BlockRight(stack: seq<bool>, d: Doc, wanted: bool, cfg: Settings)
    requires d.Block? && NoElse(d) && |stack| <= STACK_MAX
    ensures Marks(stack, d, cfg) == Select(d, wanted, cfg) <==> ReadRight(|stack|, Leading(stack), wanted, d, cfg)
    decreases d, 0
  {
    hide *;
    BlockPieces(stack, d, wanted, cfg);
    BlockPass(stack, d, wanted, cfg);
    var c := EvalCondition(d.expr, cfg);
    var entered, left := Entered(stack, d.expr, cfg), stack[..Inside(|stack|, d.body.doc)];
    RightExactly(entered, d.body.doc, wanted && c, cfg);
    RightExactly(left, d.after, wanted, cfg);
    MarksLength(entered, d.body.doc, wanted && c, cfg);
    SamePieces(Marks(entered, d.body.doc, cfg), Select(d.body.doc, wanted && c, cfg),
               Marks(left, d.after, cfg), Select(d.after, wanted, cfg));
  }

  /** A block's marks and its wanted lines, in terms of its body and of what follows. */
  lemma BlockPieces(stack: seq<bool>, d: Doc, wanted: bool, cfg: Settings)
    requires d.Block? && NoElse(d)
    ensures d.body.Last? && NoElse(d.body.doc) && NoElse(d.after)
    ensures Marks(stack, d, cfg) ==
      [false] + (Marks(Entered(stack, d.expr, cfg), d.body.doc, cfg)
                 + ([false] + Marks(stack[..Inside(|stack|, d.body.doc)], d.after, cfg)))
    ensures Select(d, wanted, cfg) ==
      [false] + (Select(d.body.doc, wanted && EvalCondition(d.expr, cfg), cfg)
                 + ([false] + Select(d.after, wanted, cfg)))
  {
    hide Entered, Inside, EvalCondition;
  }

  lemma EnteredLeads(stack: seq<bool>, expr: string, cfg: Settings)
    requires |stack| <= STACK_MAX
    ensures var entered, c := Entered(stack, expr, cfg), EvalCondition(expr, cfg);
      if |stack| < STACK_MAX then
        && |entered| == |stack| + 1
        && Leading(entered) == if Leading(stack) == |stack| && c then |stack| + 1 else Leading(stack)
      else entered == stack
  {
    LeadingPush(stack, EvalCondition(expr, cfg));
    hide Leading, EvalCondition;
  }

  /** The pass over a block is the pass over its body and over what follows. */
  lemma BlockPass(stack: seq<bool>, d: Doc, wanted: bool, cfg: Settings)
    requires d.Block? && NoElse(d) && |stack| <= STACK_MAX
    ensures d.body.Last? && NoElse(d.body.doc) && NoElse(d.after)
    ensures var entered, left := Entered(stack, d.expr, cfg), stack[..Inside(|stack|, d.body.doc)];
      && |entered| <= STACK_MAX && |left| <= STACK_MAX
      && (ReadRight(|stack|, Leading(stack), wanted, d, cfg) <==>
            && ReadRight(|entered|, Leading(entered), wanted && EvalCondition(d.expr, cfg), d.body.doc, cfg)
            && ReadRight(|left|, Leading(left), wanted, d.after, cfg))
  {
    hide Leading, Inside, EvalCondition, Entered, Min;
    LeadingOfFront(stack, Inside(|stack|, d.body.doc));
    EnteredLeads(stack, d.expr, cfg);
  }

  lemma SamePieces(x: seq<bool>, y: seq<bool>, u: seq<bool>, v: seq<bool>)
    requires |x| == |y|
    ensures [false] + (x + ([false] + u)) == [false] + (y + ([false] + v)) <==> x == y && u == v
  {
    SamePair([false], [false], x + ([false] + u), y + ([false] + v));
    SamePair(x, y, [false] + u, [false] + v);
    SamePair([false], [false], u, v);
  }

  lemma SamePair(a: seq<bool>, b: seq<bool>, x: seq<bool>, y: seq<bool>)
    requires |a| == |b|
    ensures a + x == b + y <==> a == b && x == y
  {
    if a + x == b + y {
      assert (a + x)[..|a|] == a && (b + y)[..|b|] == b;
      assert (a + x)[|a|..] == x && (b + y)[|b|..] == y;
    }
  }

  /** A document without `#else`, however deep, is read right exactly when that pass over its blocks succeeds. */
  lemma ReadRightExactly(d: Doc, cfg: Settings)
    requires NoElse(d)
    ensures Active(DAEMON, [], Lines(d), cfg) == Select(d, true, cfg) <==> ReadRight(0, 0, true, d, cfg)
  {
    MachineMarks([], d, [], cfg);
    RightExactly([], d, true, cfg);
    assert Lines(d) + [] == Lines(d);
    assert Marks([], d, cfg) + [] == Marks([], d, cfg);
  }

  predicate AllHold(d: Doc, cfg: Settings)
    requires NoElse(d)
    decreases d
  {
    match d
    case Empty => true
    case Leaf(_, rest) => AllHold(rest, cfg)
    case Gap(rest) => AllHold(rest, cfg)
    case Block(expr, body, after) => EvalCondition(expr, cfg) && AllHold(body.doc, cfg) && AllHold(after, cfg)
  }

  lemma {:induction false} TruePasses(height: nat, d: Doc, cfg: Settings)
    requires NoElse(d) && AllHold(d, cfg)
    ensures ReadRight(height, height, true, d, cfg)
    decreases d
  {
    hide EvalCondition, Inside;
    match d
    case Empty =>
    case Leaf(_, rest) => TruePasses(height, rest, cfg);
    case Gap(rest) => TruePasses(height, rest, cfg);
    case Block(expr, body, after) =>
      TruePasses(if height < STACK_MAX then height + 1 else height, body.doc, cfg);
      TruePasses(Inside(height, body.doc), after, cfg);
  }

  /** Where all conditions hold, no depth is too much. */
  lemma TrueConditionsReadRight(d: Doc, cfg: Settings)
    requires NoElse(d) && AllHold(d, cfg)
    ensures Active(DAEMON, [], Lines(d), cfg) == Select(d, true, cfg)
  {
    TruePasses(0, d, cfg);
    ReadRightExactly(d, cfg);
  }

  /** The marks cover the wanted lines. */
  ghost predicate Includes(marks: seq<bool>, wanted: seq<bool>) {
    |marks| == |wanted| && forall i :: 0 <= i < |wanted| && wanted[i] ==> marks[i]
  }

  lemma IncludesConcat(a: seq<bool>, b: seq<bool>, x: seq<bool>, y: seq<bool>)
    requires Includes(a, b) && Includes(x, y)
    ensures Includes(a + x, b + y)
  {
  }

  lemma OneIncluded(a: bool, b: bool)
    requires b ==> a
    ensures Includes([a], [b])
  {
  }

  /** Nothing wanted is ever missed in such a document: the daemon can only read too much. */
  lemma {:induction false} NothingMissed(stack: seq<bool>, d: Doc, wanted: bool, cfg: Settings)
    requires NoElse(d) && (wanted ==> AllTrue(stack))
    ensures Includes(Marks(stack, d, cfg), Select(d, wanted, cfg))
    decreases d
  {
    hide Includes, AllTrue, EvalCondition, Inside, Entered;
    OneIncluded(false, false);
    match d
    case Empty =>
      NothingIncluded();
    case Leaf(_, rest) =>
      NothingMissed(stack, rest, wanted, cfg);
      OneIncluded(AllTrue(stack), wanted);
      IncludesConcat([AllTrue(stack)], [wanted], Marks(stack, rest, cfg), Select(rest, wanted, cfg));
    case Gap(rest) =>
      NothingMissed(stack, rest, wanted, cfg);
      IncludesConcat([false], [false], Marks(stack, rest, cfg), Select(rest, wanted, cfg));
    case Block(expr, body, after) =>
      var c := EvalCondition(expr, cfg);
      var entered, left := Entered(stack, expr, cfg), stack[..Inside(|stack|, body.doc)];
      StillTrue(stack, expr, body.doc, wanted, cfg);
      NothingMissed(entered, body.doc, wanted && c, cfg);
      NothingMissed(left, after, wanted, cfg);
      IncludesConcat([false], [false], Marks(left, after, cfg), Select(after, wanted, cfg));
      IncludesConcat(Marks(entered, body.doc, cfg), Select(body.doc, wanted && c, cfg),
                     [false] + Marks(left, after, cfg), [false] + Select(after, wanted, cfg));
      BlockPieces(stack, d, wanted, cfg);
      IncludesConcat([false], [false],
                     Marks(entered, body.doc, cfg) + ([false] + Marks(left, after, cfg)),
                     Select(body.doc, wanted && c, cfg) + ([false] + Select(after, wanted, cfg)));
  }

  lemma NothingIncluded()
    ensures Includes([], [])
  {
  }

  lemma StillTrue(stack: seq<bool>, expr: string, body: Doc, wanted: bool, cfg: Settings)
    requires NoElse(body) && (wanted ==> AllTrue(stack))
    ensures wanted && EvalCondition(expr, cfg) ==> AllTrue(Entered(stack, expr, cfg))
    ensures wanted ==> AllTrue(stack[..Inside(|stack|, body)])
  {
    AllTruePush(stack, EvalCondition(expr, cfg));
    hide Inside, EvalCondition;
  }

  /** In the whole file, at any depth, every wanted line is read. */
  lemma ReadsAtLeast(d: Doc, cfg: Settings)
    requires NoElse(d)
    ensures |Select(d, true, cfg)| == |Lines(d)|
    ensures forall i :: 0 <= i < |Lines(d)| && Select(d, true, cfg)[i] ==> Active(DAEMON, [], Lines(d), cfg)[i]
  {
    MachineMarks([], d, [], cfg);
    NothingMissed([], d, true, cfg);
    assert Lines(d) + [] == Lines(d);
    assert Marks([], d, cfg) + [] == Marks([], d, cfg);
  }
}
