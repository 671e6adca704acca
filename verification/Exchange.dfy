/** The daemon's client and the simulated ECU joined by two byte pipes, stepping in any order. */
module Exchange {
  import opened Bytes
  import opened Crc32
  import opened Framing
  import opened PageStore
  import opened Protocol
  import SerialComm

  datatype Client = Writing(left: seq<byte>) | Reading(got: seq<byte>) | Finished(reply: Option<seq<byte>>)

  datatype System = System(client: Client, toServer: seq<byte>, server: Session, toClient: seq<byte>)

  /** The client writes, and both sides read, in portions of any size; a call of the server hands its whole reply to
      the pipe, as the one `os.write` does. All in any order. */
  datatype Step = ClientWrites(n: nat) | ServerReads(n: nat) | ServerCalls | ClientReads(n: nat)

  /** How many bytes the client's current exact read still waits for, and those after it. */
  function Wanted(got: seq<byte>): int {
    if |got| < 2 then 2 - |got|
    else
      var size := FromBe16(got[..2]);
      if size == 0 || size > SerialComm.MAX_FRAME then 0 else 2 + size + 4 - |got|
  }

  /** The client's verdict on the bytes it waited for. */
  function Judge(got: seq<byte>, capacity: nat): Option<seq<byte>> {
    if |got| < 2 then None
    else
      var size := FromBe16(got[..2]);
      if size == 0 || size > SerialComm.MAX_FRAME || |got| < 2 + size + 4 then None
      else if FromBe32(got[2 + size..2 + size + 4]) != Checksum(got[2..2 + size]) then None
      else if capacity < size then None
      else Some(got[2..2 + size])
  }

  function NewReply(before: Session, after: Session): seq<byte> {
    if |after.outcomes| > |before.outcomes| && after.outcomes[|after.outcomes| - 1].Reply?
    then after.outcomes[|after.outcomes| - 1].data else []
  }

  /** One step; a step that is not possible changes nothing. */
  function Next(cfg: Config, capacity: nat, s: System, step: Step): System {
    match step
    case ClientWrites(n) =>
      if s.client.Writing? && 1 <= n <= |s.client.left| then
        s.(toServer := s.toServer + s.client.left[..n],
           client := if n == |s.client.left| then Reading([]) else Writing(s.client.left[n..]))
      else s
    case ServerReads(n) =>
      if 1 <= n <= |s.toServer| then
        s.(server := Act(cfg, s.server, Arrive(s.toServer[..n])), toServer := s.toServer[n..])
      else s
    case ServerCalls =>
      var after := Act(cfg, s.server, Call);
      s.(server := after, toClient := s.toClient + NewReply(s.server, after))
    case ClientReads(n) =>
      if s.client.Reading? && 1 <= n <= |s.toClient| && n <= Wanted(s.client.got) then
        var got := s.client.got + s.toClient[..n];
        s.(toClient := s.toClient[n..],
           client := if Wanted(got) == 0 then Finished(Judge(got, capacity)) else Reading(got))
      else s
  }

  /** The client refuses bad arguments before it writes anything. */
  function Begin(capacity: nat, base: Session, cmd: seq<byte>): System {
    var refused := cmd == [] || |cmd| > SerialComm.MAX_FRAME || capacity < 2;
    System(if refused then Finished(None) else Writing(Frame(cmd)), [], base, [])
  }

  function Reached(cfg: Config, capacity: nat, base: Session, cmd: seq<byte>, steps: seq<Step>): System {
    if steps == [] then Begin(capacity, base, cmd)
    else Next(cfg, capacity, Reached(cfg, capacity, base, cmd, steps[..|steps| - 1]), steps[|steps| - 1])
  }

  /** The exchange this module is about: a command the server takes, answered by a frame the client can hold. */
  predicate Answerable(cfg: Config, capacity: nat, store: Store, cmd: seq<byte>, data: seq<byte>) {
    && 1 <= |cmd| <= MAX_REQUEST
    && 1 <= |data| <= SerialComm.MAX_FRAME && |data| <= capacity && 2 <= capacity
    && Respond(cfg, store, Request(cmd)).outcome == Reply(Frame(data))
  }

  ghost predicate Framed(out: Outcome) {
    out.Raised? || exists data: seq<byte> :: 1 <= |data| < 0x1_0000 && out == Reply(Frame(data))
  }

  lemma ResponseFramed(flag: byte, payload: seq<byte>)
    ensures Framed(BuildResponse(flag, payload))
  {
    var data := [flag] + payload;
    hide Frame;
    if |data| < 0x1_0000 {
      assert BuildResponse(flag, payload) == Reply(Frame(data));
    }
  }

  /** Every command is answered by one frame, unless an error escapes. */
  lemma EveryCommandFramed(cfg: Config, store: Store, cmd: seq<byte>)
    requires cmd != []
    ensures Framed(Respond(cfg, store, Request(cmd)).outcome)
  {
    hide Framed, BuildResponse, Slice, Padded, Zeros, CanWrite, Checksum;
    forall flag: byte, payload: seq<byte>
      ensures Framed(BuildResponse(flag, payload))
    {
      ResponseFramed(flag, payload);
    }
  }

  /** A command the server takes makes the exchange one of these exactly when the client and its caller can hold
      the reply and the caller's buffer passes the client's check. */
  lemma AnswerableExactly(cfg: Config, capacity: nat, store: Store, cmd: seq<byte>, data: seq<byte>)
    requires 1 <= |cmd| <= MAX_REQUEST && |data| < 0x1_0000
    requires Respond(cfg, store, Request(cmd)).outcome == Reply(Frame(data))
    ensures Answerable(cfg, capacity, store, cmd, data) <==> |data| <= 4096 && |data| <= capacity && 2 <= capacity
  {
    hide Respond, Frame, Framed;
    EveryCommandFramed(cfg, store, cmd);
    FramedLength(data);
  }

  lemma FramedLength(data: seq<byte>)
    requires |data| < 0x1_0000 && Framed(Reply(Frame(data)))
    ensures |data| >= 1
  {
    hide Frame;
    var sent: seq<byte> :| 1 <= |sent| < 0x1_0000 && Reply(Frame(sent)) == Reply(Frame(data));
    assert |Frame(sent)| == |Frame(data)|;
  }

  function Left(c: Client): seq<byte> {
    if c.Writing? then c.left else []
  }

  /** Before the command is accepted: its frame is spread over the client, the pipe and the server's buffer. */
  predicate Sending(s: System, base: Session, request: seq<byte>) {
    && s.server == base.(buffer := s.server.buffer)
    && s.server.buffer + s.toServer + Left(s.client) == request
    && s.toClient == []
    && (s.client.Writing? ==> s.client.left != [])
    && !s.client.Finished?
    && (s.client.Reading? ==> s.client.got == [])
  }

  /** The server once it has served the command and nothing else. */
  function AfterExchange(cfg: Config, base: Session, cmd: seq<byte>, data: seq<byte>): Session
    requires |data| < 0x1_0000 && |cmd| < 0x1_0000
  {
    Session(base.consumed + Frame(cmd), [], Respond(cfg, base.store, Request(cmd)).store,
            base.commands + [Request(cmd)], base.outcomes + [Reply(Frame(data))])
  }

  /** After it: the server did exactly that command once, and the reply is spread over the pipe and the client. */
  predicate Answering(cfg: Config, s: System, base: Session, cmd: seq<byte>, data: seq<byte>)
    requires |data| < 0x1_0000 && |cmd| < 0x1_0000
  {
    && s.server == AfterExchange(cfg, base, cmd, data)
    && s.toServer == []
    && match s.client
       case Writing(_) => false
       case Reading(got) => got + s.toClient == Frame(data) && Wanted(got) > 0
       case Finished(reply) => reply == Some(data) && s.toClient == []
  }

  predicate Sound(cfg: Config, s: System, base: Session, cmd: seq<byte>, data: seq<byte>)
    requires |data| < 0x1_0000 && |cmd| < 0x1_0000
  {
    Sending(s, base, Frame(cmd)) || Answering(cfg, s, base, cmd, data)
  }

  // --- Frames and their prefixes

  /** The server leaves an unfinished frame alone and takes a finished one whole. */
  lemma PrefixWaits(cmd: seq<byte>, b: seq<byte>)
    requires 1 <= |cmd| <= MAX_REQUEST && b <= Frame(cmd)
    ensures TakeNext(b) == if b == Frame(cmd) then Taken(Some(Request(cmd)), []) else Taken(None, b)
  {
    if b == Frame(cmd) {
      TakeEncoded(Request(cmd), []);
      assert b + [] == b;
    } else {
      Be16RoundTrip(|cmd|);
      assert Frame(cmd)[..2] == Be16(|cmd|);
      if |b| >= 2 {
        assert b[..2] == Frame(cmd)[..2];
      }
      assert |b| > 0 ==> b[0] == |cmd| / 256;
    }
  }

  /** The client waits for the whole frame and accepts it. */
  lemma PrefixWanted(data: seq<byte>, got: seq<byte>, capacity: nat)
    requires 1 <= |data| <= SerialComm.MAX_FRAME && |data| <= capacity && got <= Frame(data)
    ensures 0 <= Wanted(got) <= |Frame(data)| - |got|
    ensures Wanted(got) == 0 <==> got == Frame(data)
    ensures Judge(Frame(data), capacity) == Some(data)
  {
    var f := Frame(data);
    Be16RoundTrip(|data|);
    Be32RoundTrip(Checksum(data));
    FrameParts(data, []);
    assert f + [] == f;
    if |got| >= 2 {
      assert got[..2] == f[..2];
    }
  }

  // --- Safety

  lemma SendingMoves(cfg: Config, capacity: nat, s: System, base: Session, request: seq<byte>, step: Step)
    requires Sending(s, base, request) && !step.ServerCalls?
    ensures Sending(Next(cfg, capacity, s, step), base, request)
  {
    hide TakeNext, Respond, Wanted, Judge;
    var b, p, l := s.server.buffer, s.toServer, Left(s.client);
    match step
    case ClientWrites(n) =>
      if s.client.Writing? && 1 <= n <= |l| {
        Reassociate(b, p, l[..n], l[n..]);
        assert l == l[..n] + l[n..];
      }
    case ServerReads(n) =>
      if 1 <= n <= |p| {
        assert b + p == b + p[..n] + p[n..];
      }
    case ClientReads(n) =>
  }

  lemma Reassociate(a: seq<byte>, b: seq<byte>, c: seq<byte>, d: seq<byte>)
    ensures a + (b + c) + d == a + b + (c + d)
  {
  }

  lemma IdleCall(cfg: Config, s: Session)
    requires TakeNext(s.buffer) == Taken(None, s.buffer)
    ensures Act(cfg, s, Call) == s
  {
    hide TakeNext, Respond;
    assert s.consumed + s.buffer[..0] == s.consumed;
  }

  lemma AcceptingCall(cfg: Config, base: Session, c: Command, b: seq<byte>)
    requires TakeNext(b) == Taken(Some(c), [])
    ensures var h := Respond(cfg, base.store, c);
      Act(cfg, base.(buffer := b), Call) ==
        Session(base.consumed + b, [], h.store, base.commands + [c], base.outcomes + [h.outcome])
  {
    hide TakeNext, Respond;
    assert b[..|b|] == b;
  }

  lemma SendingCall(cfg: Config, capacity: nat, s: System, base: Session, cmd: seq<byte>, data: seq<byte>)
    requires Answerable(cfg, capacity, base.store, cmd, data) && Sending(s, base, Frame(cmd))
    ensures Next(cfg, capacity, s, ServerCalls) == s
      || Answering(cfg, Next(cfg, capacity, s, ServerCalls), base, cmd, data)
  {
    hide Frame, TakeNext, Respond, Judge, Act, Wanted;
    var b := s.server.buffer;
    PrefixWaits(cmd, b);
    if b == Frame(cmd) {
      PrefixWanted(data, [], capacity);
      AcceptingCall(cfg, base, Request(cmd), b);
      assert Act(cfg, s.server, Call) == AfterExchange(cfg, base, cmd, data);
      assert NewReply(s.server, AfterExchange(cfg, base, cmd, data)) == Frame(data);
      assert |s.toServer| == 0 && |Left(s.client)| == 0;
      assert [] + Frame(data) == Frame(data);
    } else {
      IdleCall(cfg, s.server);
      assert s.toClient + [] == s.toClient;
    }
  }

  lemma SendingNext(cfg: Config, capacity: nat, s: System, base: Session, cmd: seq<byte>, data: seq<byte>, step: Step)
    requires Answerable(cfg, capacity, base.store, cmd, data) && Sending(s, base, Frame(cmd))
    ensures Sound(cfg, Next(cfg, capacity, s, step), base, cmd, data)
  {
    hide Frame, Next, Answering, Sending;
    if step.ServerCalls? {
      SendingCall(cfg, capacity, s, base, cmd, data);
    } else {
      SendingMoves(cfg, capacity, s, base, Frame(cmd), step);
    }
  }

  lemma AnsweringNext(cfg: Config, capacity: nat, s: System, base: Session, cmd: seq<byte>, data: seq<byte>, step: Step)
    requires Answerable(cfg, capacity, base.store, cmd, data) && Answering(cfg, s, base, cmd, data)
    ensures Answering(cfg, Next(cfg, capacity, s, step), base, cmd, data)
  {
    hide Frame, TakeNext, Respond, Wanted, Judge;
    match step
    case ClientReads(n) =>
      if s.client.Reading? && 1 <= n <= |s.toClient| {
        var got := s.client.got + s.toClient[..n];
        assert got + s.toClient[n..] == s.client.got + s.toClient;
        PrefixWanted(data, got, capacity);
        PrefixWanted(data, s.client.got, capacity);
      }
    case ServerCalls =>
      EmptyTaken();
      IdleCall(cfg, s.server);
      assert s.toClient + [] == s.toClient;
    case _ =>
  }

  /** In every reachable state of every schedule the server has accepted nothing or exactly the command, no byte
      is lost or left over, and a client that has finished holds exactly the reply. */
  lemma {:induction false} ExchangeSafe(cfg: Config, capacity: nat, base: Session, cmd: seq<byte>, data: seq<byte>,
                                        steps: seq<Step>)
    requires Answerable(cfg, capacity, base.store, cmd, data) && base.buffer == []
    ensures Sound(cfg, Reached(cfg, capacity, base, cmd, steps), base, cmd, data)
  {
    hide Respond, Act, TakeNext, Wanted, Judge;
    if steps == [] {
      assert [] + [] + Frame(cmd) == Frame(cmd);
    } else {
      var n := |steps| - 1;
      var s := Reached(cfg, capacity, base, cmd, steps[..n]);
      ExchangeSafe(cfg, capacity, base, cmd, data, steps[..n]);
      hide Sending, Answering, Next;
      if Sending(s, base, Frame(cmd)) {
        SendingNext(cfg, capacity, s, base, cmd, data, steps[n]);
      } else {
        AnsweringNext(cfg, capacity, s, base, cmd, data, steps[n]);
      }
    }
  }

  /** When the client has finished it returns exactly the reply, the server has accepted exactly the command
      once more than before, and neither pipe nor its buffer holds a byte. */
  lemma FinishedExactly(cfg: Config, capacity: nat, base: Session, cmd: seq<byte>, data: seq<byte>, steps: seq<Step>)
    requires Answerable(cfg, capacity, base.store, cmd, data) && base.buffer == []
    requires Reached(cfg, capacity, base, cmd, steps).client.Finished?
    ensures var s := Reached(cfg, capacity, base, cmd, steps);
      && s.client.reply == Some(data)
      && s.server == AfterExchange(cfg, base, cmd, data)
      && s.toServer == [] && s.toClient == []
  {
    ExchangeSafe(cfg, capacity, base, cmd, data, steps);
    hide Reached, Frame, Respond;
  }

  // --- Completion

  /** Byte moves still to come. */
  function Work(s: System, base: Session, data: seq<byte>): nat
    requires |data| < 0x1_0000
  {
    3 * |Left(s.client)| + 2 * |s.toServer| + |s.server.buffer|
    + (if s.server.commands == base.commands then |Frame(data)| else |s.toClient|)
  }

  /** Every step that changes a reachable state brings it closer to the end. */
  lemma StepsWork(cfg: Config, capacity: nat, s: System, base: Session, cmd: seq<byte>, data: seq<byte>, step: Step)
    requires Answerable(cfg, capacity, base.store, cmd, data) && Sound(cfg, s, base, cmd, data)
    ensures Next(cfg, capacity, s, step) == s || Work(Next(cfg, capacity, s, step), base, data) < Work(s, base, data)
  {
    hide Frame, TakeNext, Respond, Wanted, Judge;
    if step.ServerCalls? {
      hide Act;
      if Sending(s, base, Frame(cmd)) {
        SendingCall(cfg, capacity, s, base, cmd, data);
      } else {
        EmptyTaken();
        IdleCall(cfg, s.server);
        assert s.toClient + [] == s.toClient;
      }
    }
  }

  lemma EmptyTaken()
    ensures TakeNext([]) == Taken(None, [])
  {
  }

  /** A reachable state that is not the end always has such a step: nobody deadlocks. */
  lemma SomeStepWorks(cfg: Config, capacity: nat, s: System, base: Session, cmd: seq<byte>, data: seq<byte>)
    returns (step: Step)
    requires Answerable(cfg, capacity, base.store, cmd, data) && Sound(cfg, s, base, cmd, data)
    requires !s.client.Finished?
    ensures Next(cfg, capacity, s, step) != s
  {
    hide Frame, TakeNext, Respond, Judge;
    if s.client.Writing? {
      step := ClientWrites(1);
    } else if |s.toServer| > 0 {
      step := ServerReads(1);
    } else if Sending(s, base, Frame(cmd)) {
      assert s.server.buffer + [] + [] == s.server.buffer;
      PrefixWaits(cmd, s.server.buffer);
      step := ServerCalls;
    } else {
      PrefixWanted(data, s.client.got, capacity);
      step := ClientReads(1);
    }
  }

  /** How many steps of the run change the state. */
  function Effective(cfg: Config, capacity: nat, base: Session, cmd: seq<byte>, steps: seq<Step>): nat {
    if steps == [] then 0
    else
      var n := |steps| - 1;
      Effective(cfg, capacity, base, cmd, steps[..n])
      + (if Reached(cfg, capacity, base, cmd, steps) != Reached(cfg, capacity, base, cmd, steps[..n]) then 1 else 0)
  }

  lemma {:induction false} EffectiveWork(cfg: Config, capacity: nat, base: Session, cmd: seq<byte>, data: seq<byte>,
                                         steps: seq<Step>)
    requires Answerable(cfg, capacity, base.store, cmd, data) && base.buffer == []
    ensures Effective(cfg, capacity, base, cmd, steps) + Work(Reached(cfg, capacity, base, cmd, steps), base, data)
         <= Work(Begin(capacity, base, cmd), base, data)
  {
    hide Work, Begin, Next, Sound, Answerable;
    if steps != [] {
      var n := |steps| - 1;
      EffectiveWork(cfg, capacity, base, cmd, data, steps[..n]);
      ExchangeSafe(cfg, capacity, base, cmd, data, steps[..n]);
      StepsWork(cfg, capacity, Reached(cfg, capacity, base, cmd, steps[..n]), base, cmd, data, steps[n]);
    }
  }

  /** Whatever the schedule, an exchange in which this many steps have taken effect is over, with its reply. */
  lemma ExchangeCompletes(cfg: Config, capacity: nat, base: Session, cmd: seq<byte>, data: seq<byte>, steps: seq<Step>)
    requires Answerable(cfg, capacity, base.store, cmd, data) && base.buffer == []
    requires Effective(cfg, capacity, base, cmd, steps) >= 3 * (|cmd| + 6) + |data| + 6
    ensures Reached(cfg, capacity, base, cmd, steps).client == Finished(Some(data))
  {
    hide Reached, Effective, Frame, Respond, Wanted;
    EffectiveWork(cfg, capacity, base, cmd, data, steps);
    ExchangeSafe(cfg, capacity, base, cmd, data, steps);
    var s := Reached(cfg, capacity, base, cmd, steps);
    assert Work(s, base, data) == 0;
    if s.client.Reading? && s.server.commands != base.commands {
      assert s.client.got + s.toClient == s.client.got;
      PrefixWanted(data, s.client.got, capacity);
    }
  }

  // --- The client machine is the client

  /** It starts exactly when `ms2d_serial_send` gets past its argument check. */
  lemma BeginIsSend(script: seq<SerialComm.Io>, incoming: seq<byte>, base: Session, cmd: seq<byte>, capacity: nat)
    ensures var s := SerialComm.Send(script, incoming, cmd, capacity);
      && (Begin(capacity, base, cmd).client.Finished? <==> s.err == SerialComm.InvalidArg)
      && (s.err == SerialComm.InvalidArg ==> s.request == [] && s.taken == 0 && s.script == script)
  {
    hide Frame;
    SendErrors(script, incoming, cmd, capacity);
  }

  lemma SendErrors(script: seq<SerialComm.Io>, incoming: seq<byte>, cmd: seq<byte>, capacity: nat)
    ensures SerialComm.Send(script, incoming, cmd, capacity).err == SerialComm.InvalidArg
       <==> cmd == [] || |cmd| > SerialComm.MAX_FRAME || capacity < 2
  {
    if 1 <= |cmd| <= SerialComm.MAX_FRAME && capacity >= 2 {
      var n := |cmd| + 6;
      SerialComm.TransferErrors(script, 0, n, n);
      var w := SerialComm.Transfer(script, 0, n, n);
      hide SerialComm.Transfer, SerialComm.Receive, Frame;
      SerialComm.TransferBounds(script, 0, n, n);
      VerdictIsReceive(w.script, incoming, Frame(cmd), capacity);
    }
  }

  /** Having written, it ends exactly where the C function does: while that is short of bytes the machine waits, and
      otherwise its verdict is the reply, or none for a bad size, a bad checksum or a reply too large. */
  lemma VerdictIsReceive(script: seq<SerialComm.Io>, incoming: seq<byte>, request: seq<byte>, capacity: nat)
    ensures var r := SerialComm.Receive(script, incoming, request, capacity);
      && r.taken <= |incoming| && r.err != SerialComm.InvalidArg
      && var got := incoming[..r.taken];
      && (Wanted(got) > 0 <==> r.err == SerialComm.TimeoutError || r.err == SerialComm.IoError)
      && Wanted(got) >= 0
      && (Wanted(got) == 0 ==> Judge(got, capacity) == if r.err == SerialComm.Success then Some(r.reply) else None)
  {
    SerialComm.TransferErrors(script, 0, 2, |incoming|);
    SerialComm.TransferBounds(script, 0, 2, |incoming|);
    var h := SerialComm.Transfer(script, 0, 2, |incoming|);
    if h.err == SerialComm.Success {
      var size := FromBe16(incoming[..2]);
      BodyVerdict(h.script, incoming, size, request, capacity);
    }
    hide SerialComm.Transfer, SerialComm.ReceiveBody, FromBe16, Checksum, FromBe32;
  }

  lemma BodyVerdict(script: seq<SerialComm.Io>, incoming: seq<byte>, size: nat, request: seq<byte>, capacity: nat)
    requires |incoming| >= 2 && size == FromBe16(incoming[..2])
    ensures 0 < size <= SerialComm.MAX_FRAME ==>
      var r := SerialComm.ReceiveBody(script, incoming[2..], size, request, capacity);
      && 2 + r.taken <= |incoming| && r.err != SerialComm.InvalidArg
      && var got := incoming[..2 + r.taken];
      && (Wanted(got) > 0 <==> r.err == SerialComm.TimeoutError || r.err == SerialComm.IoError)
      && Wanted(got) >= 0
      && (Wanted(got) == 0 ==> Judge(got, capacity) == if r.err == SerialComm.Success then Some(r.reply) else None)
  {
    hide SerialComm.Transfer, FromBe16, Checksum, FromBe32;
    var body := incoming[2..];
    SerialComm.TransferErrors(script, 0, size, |body|);
    SerialComm.TransferBounds(script, 0, size, |body|);
    var f := SerialComm.Transfer(script, 0, size, |body|);
    if f.err == SerialComm.Success {
      SerialComm.TransferErrors(f.script, 0, 4, |body| - size);
      SerialComm.TransferBounds(f.script, 0, 4, |body| - size);
    }
    var r := SerialComm.ReceiveBody(script, body, size, request, capacity);
    var got := incoming[..2 + r.taken];
    assert got[..2] == incoming[..2];
    if r.taken == size + 4 {
      FrameSlices(incoming, size);
    }
  }

  lemma FrameSlices(incoming: seq<byte>, size: nat)
    requires |incoming| >= 2 + size + 4
    ensures var got, body := incoming[..2 + size + 4], incoming[2..];
      && got[..2] == incoming[..2]
      && got[2..2 + size] == body[..size]
      && got[2 + size..2 + size + 4] == body[size..size + 4]
  {
    var got, body := incoming[..2 + size + 4], incoming[2..];
    assert forall k :: 0 <= k < size + 4 ==> body[k] == got[2 + k];
    SlicesShift(got, body, 0, size);
    SlicesShift(got, body, size, size + 4);
  }

  lemma SlicesShift(got: seq<byte>, body: seq<byte>, lo: nat, hi: nat)
    requires lo <= hi <= |body| && 2 + hi <= |got|
    requires forall k :: lo <= k < hi ==> body[k] == got[2 + k]
    ensures got[2 + lo..2 + hi] == body[lo..hi]
  {
    var a, b := got[2 + lo..2 + hi], body[lo..hi];
    forall i | 0 <= i < |a|
      ensures a[i] == b[i]
    {
      assert b[i] == body[lo + i] && a[i] == got[2 + (lo + i)];
    }
  }
}
