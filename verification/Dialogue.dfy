/** Commands sent one after the other over the same two pipes, each after the reply to the one before. */
module Dialogue {
  import opened Bytes
  import opened Framing
  import opened PageStore
  import opened Protocol
  import opened Exchange

  /** The client's caller keeps the replies; there are as many of them as commands that are done with. */
  datatype Link = Link(system: System, replies: seq<seq<byte>>)

  datatype Move = Inner(step: Step) | Proceed

  /** A step of the exchange in progress, or its reply taken and the next command begun on the pipes as they are. */
  function NextLink(cfg: Config, capacity: nat, cmds: seq<seq<byte>>, l: Link, move: Move): Link {
    match move
    case Inner(step) => l.(system := Next(cfg, capacity, l.system, step))
    case Proceed =>
      if |l.replies| < |cmds| && l.system.client.Finished? && l.system.client.reply.Some? then
        var replies := l.replies + [l.system.client.reply.value];
        Link(if |replies| < |cmds| then Restart(capacity, l.system, cmds[|replies|]) else l.system, replies)
      else l
  }

  /** The client begins a command; server and pipes stay as they are. */
  function Restart(capacity: nat, s: System, cmd: seq<byte>): System {
    s.(client := Begin(capacity, s.server, cmd).client)
  }

  function Open(capacity: nat, store: Store, cmds: seq<seq<byte>>): Link
    requires cmds != []
  {
    Link(Begin(capacity, Start(store), cmds[0]), [])
  }

  function RunLink(cfg: Config, capacity: nat, store: Store, cmds: seq<seq<byte>>, moves: seq<Move>): Link
    requires cmds != []
  {
    if moves == [] then Open(capacity, store, cmds)
    else NextLink(cfg, capacity, cmds, RunLink(cfg, capacity, store, cmds, moves[..|moves| - 1]), moves[|moves| - 1])
  }

  predicate Short(xs: seq<seq<byte>>) {
    forall i :: 0 <= i < |xs| ==> |xs[i]| < 0x1_0000
  }

  /** The outcomes that are these replies. */
  function RepliesOf(datas: seq<seq<byte>>): (out: seq<Outcome>)
    requires Short(datas)
    ensures |out| == |datas|
  {
    seq(|datas|, i requires 0 <= i < |datas| => Reply(Frame(datas[i])))
  }

  /** The server after the first n commands, were they simply handled one after the other. */
  function ServerAfter(cfg: Config, store: Store, cmds: seq<seq<byte>>, datas: seq<seq<byte>>, n: nat): Session
    requires n <= |cmds| == |datas| && Short(cmds) && Short(datas)
  {
    if n == 0 then Start(store)
    else AfterExchange(cfg, ServerAfter(cfg, store, cmds, datas, n - 1), cmds[n - 1], datas[n - 1])
  }

  /** Each command in its turn is one the exchange is about, with this reply. */
  ghost predicate AllAnswerable(cfg: Config, capacity: nat, store: Store, cmds: seq<seq<byte>>, datas: seq<seq<byte>>) {
    && |cmds| == |datas| && Short(cmds) && Short(datas)
    && forall i :: 0 <= i < |cmds| ==>
         Answerable(cfg, capacity, ServerAfter(cfg, store, cmds, datas, i).store, cmds[i], datas[i])
  }

  /** So many commands are behind: their replies are at the caller's, in order, and the rest is the next exchange in
      progress, or nothing. */
  ghost predicate InTurn(cfg: Config, l: Link, store: Store, cmds: seq<seq<byte>>, datas: seq<seq<byte>>)
    requires |cmds| == |datas| && Short(cmds) && Short(datas)
  {
    var n := |l.replies|;
    && n <= |cmds| && l.replies == datas[..n]
    && if n < |cmds| then Sound(cfg, l.system, ServerAfter(cfg, store, cmds, datas, n), cmds[n], datas[n])
       else AtRest(l.system, ServerAfter(cfg, store, cmds, datas, n))
  }

  predicate AtRest(s: System, server: Session) {
    s.server == server && server.buffer == [] && s.toServer == [] && s.toClient == [] && s.client.Finished?
  }

  lemma RestStays(cfg: Config, capacity: nat, s: System, server: Session, step: Step)
    requires AtRest(s, server)
    ensures Next(cfg, capacity, s, step) == s
  {
    hide TakeNext, Respond, Wanted, Judge;
    EmptyTaken();
    if step.ServerCalls? {
      IdleCall(cfg, s.server);
      hide Act;
      assert s.toClient + [] == s.toClient;
    }
  }

  lemma SoundMoves(cfg: Config, capacity: nat, s: System, base: Session, cmd: seq<byte>, data: seq<byte>, step: Step)
    requires Answerable(cfg, capacity, base.store, cmd, data) && Sound(cfg, s, base, cmd, data)
    ensures Sound(cfg, Next(cfg, capacity, s, step), base, cmd, data)
  {
    hide Next, Sending, Answering;
    if Sending(s, base, Frame(cmd)) {
      SendingNext(cfg, capacity, s, base, cmd, data, step);
    } else {
      AnsweringNext(cfg, capacity, s, base, cmd, data, step);
    }
  }

  /** A finished exchange leaves server and pipes ready for the next. */
  lemma SoundFinishes(cfg: Config, s: System, base: Session, cmd: seq<byte>, data: seq<byte>)
    requires |cmd| < 0x1_0000 && |data| < 0x1_0000
    requires Sound(cfg, s, base, cmd, data) && s.client.Finished?
    ensures s.client.reply == Some(data) && AtRest(s, AfterExchange(cfg, base, cmd, data))
  {
    hide Frame, Respond;
  }

  lemma RestartIsSending(cfg: Config, capacity: nat, s: System, base: Session, cmd: seq<byte>, data: seq<byte>)
    requires AtRest(s, base) && Answerable(cfg, capacity, base.store, cmd, data)
    ensures Sound(cfg, Restart(capacity, s, cmd), base, cmd, data)
  {
    hide Respond;
    assert [] + [] + Frame(cmd) == Frame(cmd);
  }

  lemma InTurnMoves(cfg: Config, capacity: nat, l: Link, store: Store, cmds: seq<seq<byte>>, datas: seq<seq<byte>>,
                    move: Move)
    requires AllAnswerable(cfg, capacity, store, cmds, datas) && InTurn(cfg, l, store, cmds, datas)
    ensures InTurn(cfg, NextLink(cfg, capacity, cmds, l, move), store, cmds, datas)
  {
    hide Next, Sound, AtRest, Answerable, AfterExchange, Restart;
    var n := |l.replies|;
    var base := ServerAfter(cfg, store, cmds, datas, n);
    match move
    case Inner(step) =>
      if n < |cmds| {
        SoundMoves(cfg, capacity, l.system, base, cmds[n], datas[n], step);
      } else {
        RestStays(cfg, capacity, l.system, base, step);
      }
    case Proceed =>
      if n < |cmds| && l.system.client.Finished? {
        SoundFinishes(cfg, l.system, base, cmds[n], datas[n]);
        assert datas[..n] + [datas[n]] == datas[..n + 1];
        if n + 1 < |cmds| {
          RestartIsSending(cfg, capacity, l.system, ServerAfter(cfg, store, cmds, datas, n + 1),
                           cmds[n + 1], datas[n + 1]);
        }
      }
  }

  /** In every reachable state of every schedule the replies so far are those of the commands so far, in order, and
      the server has served exactly these, besides the one in progress. */
  lemma {:induction false} DialogueSafe(cfg: Config, capacity: nat, store: Store, cmds: seq<seq<byte>>,
                                        datas: seq<seq<byte>>, moves: seq<Move>)
    requires cmds != [] && AllAnswerable(cfg, capacity, store, cmds, datas)
    ensures InTurn(cfg, RunLink(cfg, capacity, store, cmds, moves), store, cmds, datas)
  {
    if moves == [] {
      hide Respond;
      assert [] + [] + Frame(cmds[0]) == Frame(cmds[0]);
      assert Answerable(cfg, capacity, ServerAfter(cfg, store, cmds, datas, 0).store, cmds[0], datas[0]);
    } else {
      hide NextLink, InTurn, AllAnswerable;
      var front := moves[..|moves| - 1];
      DialogueSafe(cfg, capacity, store, cmds, datas, front);
      InTurnMoves(cfg, capacity, RunLink(cfg, capacity, store, cmds, front), store, cmds, datas, moves[|moves| - 1]);
    }
  }

  /** The server has served these commands and no others, as if there were no link, and these were its replies. */
  ghost predicate ServedInOrder(cfg: Config, server: Session, store: Store, cmds: seq<seq<byte>>, datas: seq<seq<byte>>)
    requires Short(datas)
  {
    && server.commands == Requests(cmds)
    && Served(server.store, server.outcomes) == Serve(cfg, store, Requests(cmds))
    && server.outcomes == RepliesOf(datas)
  }

  lemma {:induction false} ServerAfterServes(cfg: Config, capacity: nat, store: Store, cmds: seq<seq<byte>>,
                                             datas: seq<seq<byte>>, n: nat)
    requires AllAnswerable(cfg, capacity, store, cmds, datas) && n <= |cmds|
    ensures ServedInOrder(cfg, ServerAfter(cfg, store, cmds, datas, n), store, cmds[..n], datas[..n])
    decreases n
  {
    hide *;
    AnswerableIsShort(cfg, capacity, store, cmds, datas);
    if n == 0 {
      NothingServed(cfg, store, cmds, datas);
    } else {
      ServerAfterServes(cfg, capacity, store, cmds, datas, n - 1);
      TurnAnswerable(cfg, capacity, store, cmds, datas, n - 1);
      AfterOneMore(cfg, store, cmds, datas, n);
      OneMoreInOrder(cfg, capacity, ServerAfter(cfg, store, cmds, datas, n - 1), store,
                     cmds[..n - 1], datas[..n - 1], cmds[n - 1], datas[n - 1]);
      assert cmds[..n] == cmds[..n - 1] + [cmds[n - 1]] && datas[..n] == datas[..n - 1] + [datas[n - 1]];
    }
  }

  lemma AnswerableIsShort(cfg: Config, capacity: nat, store: Store, cmds: seq<seq<byte>>, datas: seq<seq<byte>>)
    requires AllAnswerable(cfg, capacity, store, cmds, datas)
    ensures |cmds| == |datas| && Short(cmds) && Short(datas)
  {
    hide Answerable, ServerAfter, Short;
  }

  lemma NothingServed(cfg: Config, store: Store, cmds: seq<seq<byte>>, datas: seq<seq<byte>>)
    requires |cmds| == |datas| && Short(cmds) && Short(datas)
    ensures ServedInOrder(cfg, ServerAfter(cfg, store, cmds, datas, 0), store, cmds[..0], datas[..0])
  {
    hide Respond, Frame;
  }

  lemma TurnAnswerable(cfg: Config, capacity: nat, store: Store, cmds: seq<seq<byte>>, datas: seq<seq<byte>>, i: nat)
    requires AllAnswerable(cfg, capacity, store, cmds, datas) && i < |cmds|
    ensures |cmds| == |datas| && Short(cmds) && Short(datas)
    ensures |cmds[i]| < 0x1_0000 && |datas[i]| < 0x1_0000 && Short(datas[..i])
    ensures Answerable(cfg, capacity, ServerAfter(cfg, store, cmds, datas, i).store, cmds[i], datas[i])
  {
    hide Answerable, ServerAfter;
  }

  lemma AfterOneMore(cfg: Config, store: Store, cmds: seq<seq<byte>>, datas: seq<seq<byte>>, n: nat)
    requires 0 < n <= |cmds| == |datas| && Short(cmds) && Short(datas)
    ensures |cmds[n - 1]| < 0x1_0000 && |datas[n - 1]| < 0x1_0000
    ensures ServerAfter(cfg, store, cmds, datas, n) ==
      AfterExchange(cfg, ServerAfter(cfg, store, cmds, datas, n - 1), cmds[n - 1], datas[n - 1])
  {
  }

  lemma OneMoreInOrder(cfg: Config, capacity: nat, before: Session, store: Store, cmds: seq<seq<byte>>,
                       datas: seq<seq<byte>>, cmd: seq<byte>, data: seq<byte>)
    requires Short(datas) && |data| < 0x1_0000 && |cmd| < 0x1_0000
    requires Answerable(cfg, capacity, before.store, cmd, data) && ServedInOrder(cfg, before, store, cmds, datas)
    ensures Short(datas + [data])
    ensures ServedInOrder(cfg, AfterExchange(cfg, before, cmd, data), store, cmds + [cmd], datas + [data])
  {
    ServeOneMore(cfg, store, Requests(cmds), Request(cmd));
    hide Respond, Frame, Serve;
    assert Requests(cmds + [cmd]) == Requests(cmds) + [Request(cmd)];
    assert RepliesOf(datas + [data]) == RepliesOf(datas) + [Reply(Frame(data))];
  }

  /** When the caller has all its replies, they are exactly the commands' replies in order; the server has served
      exactly the commands, and no byte remains anywhere. */
  lemma DialogueExactly(cfg: Config, capacity: nat, store: Store, cmds: seq<seq<byte>>, datas: seq<seq<byte>>,
                        moves: seq<Move>)
    requires cmds != [] && AllAnswerable(cfg, capacity, store, cmds, datas)
    requires |RunLink(cfg, capacity, store, cmds, moves).replies| == |cmds|
    ensures var l := RunLink(cfg, capacity, store, cmds, moves);
      && l.replies == datas
      && ServedInOrder(cfg, l.system.server, store, cmds, datas)
      && l.system.server.buffer == [] && l.system.toServer == [] && l.system.toClient == []
  {
    DialogueSafe(cfg, capacity, store, cmds, datas, moves);
    ServerAfterServes(cfg, capacity, store, cmds, datas, |cmds|);
    hide RunLink, ServerAfter, ServedInOrder;
    assert cmds[..|cmds|] == cmds && datas[..|datas|] == datas;
  }

  /** Until then some move always changes the state. */
  lemma SomeMoveWorks(cfg: Config, capacity: nat, l: Link, store: Store, cmds: seq<seq<byte>>, datas: seq<seq<byte>>)
    returns (move: Move)
    requires AllAnswerable(cfg, capacity, store, cmds, datas) && InTurn(cfg, l, store, cmds, datas)
    requires |l.replies| < |cmds|
    ensures NextLink(cfg, capacity, cmds, l, move) != l
  {
    hide Next, Sound, AtRest, Answerable, AfterExchange, Restart;
    var n := |l.replies|;
    var base := ServerAfter(cfg, store, cmds, datas, n);
    if l.system.client.Finished? {
      SoundFinishes(cfg, l.system, base, cmds[n], datas[n]);
      move := Proceed;
    } else {
      var step := SomeStepWorks(cfg, capacity, l.system, base, cmds[n], datas[n]);
      move := Inner(step);
    }
  }

  // --- Completion

  /** All the byte moves of one exchange, and the move that takes its reply. */
  function Cost(cmd: seq<byte>, data: seq<byte>): nat {
    3 * (|cmd| + 6) + (|data| + 6) + 1
  }

  function CostFrom(cmds: seq<seq<byte>>, datas: seq<seq<byte>>, n: nat): nat
    requires |cmds| == |datas|
    decreases |cmds| - n
  {
    if n >= |cmds| then 0 else Cost(cmds[n], datas[n]) + CostFrom(cmds, datas, n + 1)
  }

  /** The moves still to come. */
  function LinkWork(cfg: Config, l: Link, store: Store, cmds: seq<seq<byte>>, datas: seq<seq<byte>>): nat
    requires |cmds| == |datas| && Short(cmds) && Short(datas)
  {
    var n := |l.replies|;
    if n >= |cmds| then 0
    else Work(l.system, ServerAfter(cfg, store, cmds, datas, n), datas[n]) + 1 + CostFrom(cmds, datas, n + 1)
  }

  lemma RestartWork(capacity: nat, s: System, base: Session, cmd: seq<byte>, data: seq<byte>)
    requires AtRest(s, base) && 1 <= |cmd| <= MAX_REQUEST && |data| < 0x1_0000 && capacity >= 2
    ensures Work(Restart(capacity, s, cmd), base, data) + 1 == Cost(cmd, data)
  {
  }

  /** Every move that changes a reachable state is one of them. */
  lemma MovesWork(cfg: Config, capacity: nat, l: Link, store: Store, cmds: seq<seq<byte>>, datas: seq<seq<byte>>,
                  move: Move)
    requires AllAnswerable(cfg, capacity, store, cmds, datas) && InTurn(cfg, l, store, cmds, datas)
    ensures var l' := NextLink(cfg, capacity, cmds, l, move);
      l' == l || LinkWork(cfg, l', store, cmds, datas) < LinkWork(cfg, l, store, cmds, datas)
  {
    hide Next, Sound, AtRest, Answerable, AfterExchange, Restart, Work, Cost;
    var n := |l.replies|;
    var base := ServerAfter(cfg, store, cmds, datas, n);
    match move
    case Inner(step) =>
      if n < |cmds| {
        StepsWork(cfg, capacity, l.system, base, cmds[n], datas[n], step);
      } else {
        RestStays(cfg, capacity, l.system, base, step);
      }
    case Proceed =>
      if n < |cmds| && l.system.client.Finished? {
        SoundFinishes(cfg, l.system, base, cmds[n], datas[n]);
        if n + 1 < |cmds| {
          TurnAnswerable(cfg, capacity, store, cmds, datas, n + 1);
          AnswerableLimits(cfg, capacity, ServerAfter(cfg, store, cmds, datas, n + 1).store, cmds[n + 1], datas[n + 1]);
          RestartWork(capacity, l.system, ServerAfter(cfg, store, cmds, datas, n + 1), cmds[n + 1], datas[n + 1]);
        }
      }
  }

  lemma AnswerableLimits(cfg: Config, capacity: nat, store: Store, cmd: seq<byte>, data: seq<byte>)
    requires Answerable(cfg, capacity, store, cmd, data)
    ensures 1 <= |cmd| <= MAX_REQUEST && |data| < 0x1_0000 && capacity >= 2
  {
    hide Respond, Frame;
  }

  /** How many moves of the run change the state. */
  function EffectiveMoves(cfg: Config, capacity: nat, store: Store, cmds: seq<seq<byte>>, moves: seq<Move>): nat
    requires cmds != []
  {
    if moves == [] then 0
    else
      var front := moves[..|moves| - 1];
      EffectiveMoves(cfg, capacity, store, cmds, front)
      + (if RunLink(cfg, capacity, store, cmds, moves) != RunLink(cfg, capacity, store, cmds, front) then 1 else 0)
  }

  lemma {:induction false} MovesAreWork(cfg: Config, capacity: nat, store: Store, cmds: seq<seq<byte>>,
                                        datas: seq<seq<byte>>, moves: seq<Move>)
    requires cmds != [] && AllAnswerable(cfg, capacity, store, cmds, datas)
    ensures |cmds| == |datas| && Short(cmds) && Short(datas)
    ensures EffectiveMoves(cfg, capacity, store, cmds, moves)
      + LinkWork(cfg, RunLink(cfg, capacity, store, cmds, moves), store, cmds, datas) <= CostFrom(cmds, datas, 0)
  {
    AnswerableIsShort(cfg, capacity, store, cmds, datas);
    hide NextLink, AllAnswerable, LinkWork, CostFrom, ServerAfter, InTurn, Short;
    if moves == [] {
      OpenWork(cfg, capacity, store, cmds, datas);
    } else {
      var front := moves[..|moves| - 1];
      MovesAreWork(cfg, capacity, store, cmds, datas, front);
      DialogueSafe(cfg, capacity, store, cmds, datas, front);
      MovesWork(cfg, capacity, RunLink(cfg, capacity, store, cmds, front), store, cmds, datas, moves[|moves| - 1]);
    }
  }

  lemma OpenWork(cfg: Config, capacity: nat, store: Store, cmds: seq<seq<byte>>, datas: seq<seq<byte>>)
    requires cmds != [] && AllAnswerable(cfg, capacity, store, cmds, datas)
    ensures |cmds| == |datas| && Short(cmds) && Short(datas)
    ensures LinkWork(cfg, Open(capacity, store, cmds), store, cmds, datas) == CostFrom(cmds, datas, 0)
  {
    TurnAnswerable(cfg, capacity, store, cmds, datas, 0);
    AnswerableLimits(cfg, capacity, store, cmds[0], datas[0]);
    hide Answerable, AllAnswerable;
    assert ServerAfter(cfg, store, cmds, datas, 0) == Start(store);
  }

  /** Whatever the schedule, a dialogue in which this many moves have taken effect is over: every command has its
      reply. */
  lemma DialogueCompletes(cfg: Config, capacity: nat, store: Store, cmds: seq<seq<byte>>, datas: seq<seq<byte>>,
                          moves: seq<Move>)
    requires cmds != [] && AllAnswerable(cfg, capacity, store, cmds, datas)
    requires |cmds| == |datas| && EffectiveMoves(cfg, capacity, store, cmds, moves) >= CostFrom(cmds, datas, 0)
    ensures RunLink(cfg, capacity, store, cmds, moves).replies == datas
  {
    MovesAreWork(cfg, capacity, store, cmds, datas, moves);
    DialogueSafe(cfg, capacity, store, cmds, datas, moves);
    hide AllAnswerable, CostFrom, RunLink, ServerAfter, Work, Sound;
    assert datas[..|datas|] == datas;
  }
}
