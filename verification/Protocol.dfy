/** The ECU side of the link: the protocol object, the request buffer in front of it, and whole sessions. */
module Protocol {
  import opened Bytes
  import opened Crc32
  import opened Framing
  import opened PageStore

  class SerialProtocol {
    const config: Config
    var pageData: pages
    var pagesModified: bool

    ghost function State(): Store
      reads this
    {
      Store(pageData, pagesModified)
    }

    constructor (config: Config)
      ensures this.config == config && State() == Store(map[], false)
    {
      this.config := config;
      pageData := map[];
      pagesModified := false;
    }

    method SetPageData(table: byte, data: seq<byte>)
      modifies this
      ensures State() == old(State()).(pages := old(pageData)[table := data])
    {
      pageData := pageData[table := data];
    }

    method HandleCanRead(request: seq<byte>) returns (out: Outcome)
      requires |request| >= 7
      ensures out == CanRead(config, State(), request)
    {
      hide BuildResponse, Slice, Padded, Zeros, FromBe16;
      var table := request[2];
      var offset := FromBe16(request[3..5]);
      var count := FromBe16(request[5..7]);
      if table == TABLE_SIGNATURE {
        out := BuildResponse(FLAG_OK, Slice(Padded(config.signature + [0], 20), offset, offset + count));
      } else if table == TABLE_VERSION {
        out := BuildResponse(FLAG_OK, Slice(Padded(config.signature + [0], 60), offset, offset + count));
      } else if table == TABLE_OUTPC {
        out := BuildResponse(FLAG_REALTIME, Slice(config.outpc, offset, offset + count));
      } else if table in pageData {
        out := BuildResponse(FLAG_OK, Slice(pageData[table], offset, offset + count));
      } else {
        out := BuildResponse(FLAG_OK, Zeros(count));
      }
    }

    method HandleCanWrite(request: seq<byte>) returns (out: Outcome)
      requires |request| >= 7
      modifies this
      ensures State() == CanWrite(old(State()), request)
      ensures out == BuildResponse(FLAG_OK, [])
    {
      hide BuildResponse, Slice, Zeros, FromBe16;
      var table := request[2];
      var offset := FromBe16(request[3..5]);
      var count := FromBe16(request[5..7]);
      var data := Slice(request, 7, 7 + count);
      var end := offset + |data|;
      if table in pageData {
        var page := pageData[table];
        if end <= |page| {
          pageData := pageData[table := page[..offset] + data + page[end..]];
          pagesModified := true;
        } else {
          assert pageData[table := page] == pageData;
        }
      } else {
        var page := Zeros(DEFAULT_PAGE);
        if end <= |page| {
          page := page[..offset] + data + page[end..];
        }
        pageData := pageData[table := page];
        pagesModified := true;
      }
      out := BuildResponse(FLAG_OK, []);
    }

    method HandleCrcCheck(request: seq<byte>) returns (out: Outcome)
      requires |request| >= 7
      ensures out == CrcCheck(State(), request)
    {
      hide BuildResponse, Slice, Zeros, FromBe16, Checksum, Be32;
      var table := request[2];
      var offset := FromBe16(request[3..5]);
      var count := FromBe16(request[5..7]);
      var data := if table in pageData then Slice(pageData[table], offset, offset + count) else Zeros(count);
      out := BuildResponse(FLAG_OK, Be32(Checksum(data)));
    }

    method HandleRequest(request: seq<byte>) returns (out: Outcome)
      modifies this
      ensures Handled(State(), out) == PageStore.HandleRequest(config, old(State()), request)
    {
      hide BuildResponse, CanRead, CanWrite, CrcCheck;
      if request == [] {
        return NoReply;
      }
      var cmd := request[0];
      if cmd == SIGNATURE_QUERY {
        out := BuildResponse(FLAG_OK, config.signature + [0]);
      } else if cmd == REALTIME_QUERY {
        out := BuildResponse(FLAG_REALTIME, config.outpc);
      } else if cmd == INFO_QUERY {
        out := BuildResponse(FLAG_OK, config.signature + [0]);
      } else if cmd == READ && |request| >= 7 {
        out := HandleCanRead(request);
      } else if cmd == WRITE && |request| >= 7 {
        out := HandleCanWrite(request);
      } else if cmd == CHECK && |request| >= 7 {
        out := HandleCrcCheck(request);
      } else if cmd == BURN && |request| >= 3 {
        out := BuildResponse(FLAG_OK, []);
      } else {
        out := BuildResponse(FLAG_UNRECOGNIZED, []);
      }
    }
  }

  /** What the ECU does with one accepted command. */
  function Respond(cfg: Config, store: Store, command: Command): Handled {
    match command
    case Version => Handled(store, Reply(cfg.version))
    case Request(payload) => PageStore.HandleRequest(cfg, store, payload)
  }

  class RequestBuffer {
    const protocol: SerialProtocol
    var buffer: seq<byte>

    constructor (protocol: SerialProtocol)
      ensures this.protocol == protocol && buffer == []
    {
      this.protocol := protocol;
      buffer := [];
    }

    method AddData(data: seq<byte>)
      modifies this
      ensures buffer == old(buffer) + data
    {
      buffer := buffer + data;
    }

    /** The buffer moves on before the request is handled, so a reply that raises does not bring it back. */
    method GetNextResponse() returns (out: Outcome)
      modifies this, protocol
      ensures buffer == TakeNext(old(buffer)).rest
      ensures match TakeNext(old(buffer)).command
        case None => out == NoReply && protocol.State() == old(protocol.State())
        case Some(c) => Handled(protocol.State(), out) == Respond(protocol.config, old(protocol.State()), c)
    {
      if buffer == [] {
        return NoReply;
      }
      if buffer[0] == VERSION_QUERY {
        buffer := buffer[1..];
        return Reply(protocol.config.version);
      }
      var parsed := ParseFramedRequest(buffer);
      buffer := parsed.rest;
      if parsed.payload.Some? {
        out := protocol.HandleRequest(parsed.payload.value);
      } else {
        out := NoReply;
      }
    }
  }

  // --- Sessions: any interleaving of arriving data and calls

  datatype Action = Arrive(data: seq<byte>) | Call

  datatype Session = Session(consumed: seq<byte>, buffer: seq<byte>, store: Store,
                             commands: seq<Command>, outcomes: seq<Outcome>)

  function Start(store: Store): Session {
    Session([], [], store, [], [])
  }

  function Act(cfg: Config, s: Session, action: Action): Session {
    match action
    case Arrive(data) => s.(buffer := s.buffer + data)
    case Call =>
      var t := TakeNext(s.buffer);
      var consumed := s.consumed + s.buffer[..|s.buffer| - |t.rest|];
      match t.command
      case None => s.(consumed := consumed, buffer := t.rest)
      case Some(c) =>
        var h := Respond(cfg, s.store, c);
        Session(consumed, t.rest, h.store, s.commands + [c], s.outcomes + [h.outcome])
  }

  /** The session after a run of actions on a fresh buffer. */
  function After(cfg: Config, store: Store, actions: seq<Action>): Session {
    if actions == [] then Start(store)
    else Act(cfg, After(cfg, store, actions[..|actions| - 1]), actions[|actions| - 1])
  }

  function Data(action: Action): seq<byte> {
    if action.Arrive? then action.data else []
  }

  /** All the bytes that arrived, in order. */
  function Received(actions: seq<Action>): seq<byte> {
    if actions == [] then [] else Received(actions[..|actions| - 1]) + Data(actions[|actions| - 1])
  }

  datatype Served = Served(store: Store, outcomes: seq<Outcome>)

  /** The commands handled one after the other, with no byte stream in between. */
  function Serve(cfg: Config, store: Store, commands: seq<Command>): Served {
    if commands == [] then Served(store, [])
    else
      var before := Serve(cfg, store, commands[..|commands| - 1]);
      var h := Respond(cfg, before.store, commands[|commands| - 1]);
      Served(h.store, before.outcomes + [h.outcome])
  }

  /** At every moment: nothing is lost, and what was done plus what waits is a parse of all that arrived. */
  ghost predicate Faithful(cfg: Config, store: Store, s: Session, received: seq<byte>) {
    && s.consumed + s.buffer == received
    && s.commands + ParseStream(s.buffer).commands == ParseStream(received).commands
    && ParseStream(s.buffer).rest == ParseStream(received).rest
    && Serve(cfg, store, s.commands) == Served(s.store, s.outcomes)
  }

  lemma ArriveFaithful(cfg: Config, store: Store, s: Session, received: seq<byte>, data: seq<byte>)
    requires Faithful(cfg, store, s, received)
    ensures Faithful(cfg, store, Act(cfg, s, Arrive(data)), received + data)
  {
    StreamResumes(received, data);
    StreamResumes(s.buffer, data);
    hide ParseStream, Serve;
    assert s.consumed + (s.buffer + data) == received + data;
    var later := ParseStream(ParseStream(s.buffer).rest + data).commands;
    assert s.commands + (ParseStream(s.buffer).commands + later)
        == (s.commands + ParseStream(s.buffer).commands) + later;
  }

  lemma CallFaithful(cfg: Config, store: Store, s: Session, received: seq<byte>)
    requires Faithful(cfg, store, s, received)
    ensures Faithful(cfg, store, Act(cfg, s, Call), received)
  {
    CallKeepsBytes(cfg, s);
    CallKeepsParse(cfg, s);
    CallServes(cfg, store, s);
    hide Act, ParseStream, Serve;
  }

  lemma CallKeepsBytes(cfg: Config, s: Session)
    ensures var after := Act(cfg, s, Call); after.consumed + after.buffer == s.consumed + s.buffer
  {
    hide TakeNext, Respond;
    var t := TakeNext(s.buffer);
    FrontKept(s.buffer);
    Regroup(s.consumed, s.buffer[..|s.buffer| - |t.rest|], t.rest);
  }

  lemma Regroup<T>(a: seq<T>, b: seq<T>, c: seq<T>)
    ensures (a + b) + c == a + (b + c)
  {
  }

  lemma CallKeepsParse(cfg: Config, s: Session)
    ensures var after := Act(cfg, s, Call);
      && after.commands + ParseStream(after.buffer).commands == s.commands + ParseStream(s.buffer).commands
      && ParseStream(after.buffer).rest == ParseStream(s.buffer).rest
  {
    hide TakeNext, Respond, ParseStream;
    var t := TakeNext(s.buffer);
    CallParses(s.buffer, t);
    if t.command.Some? {
      Regroup(s.commands, [t.command.value], ParseStream(t.rest).commands);
    }
  }

  lemma CallServes(cfg: Config, store: Store, s: Session)
    requires Serve(cfg, store, s.commands) == Served(s.store, s.outcomes)
    ensures var after := Act(cfg, s, Call); Serve(cfg, store, after.commands) == Served(after.store, after.outcomes)
  {
    hide TakeNext, Respond, Serve;
    var t := TakeNext(s.buffer);
    if t.command.Some? {
      ServeOneMore(cfg, store, s.commands, t.command.value);
    }
  }

  lemma CallParses(buffer: seq<byte>, t: Taken)
    requires t == TakeNext(buffer)
    ensures ParseStream(buffer) == Stream(Prepend(t.command, ParseStream(t.rest).commands), ParseStream(t.rest).rest)
  {
    hide TakeNext;
    if t.rest != buffer {
      ParseStep(buffer, t);
    } else {
      QuiescentIsShort(buffer);
    }
  }

  lemma FrontKept(buffer: seq<byte>)
    ensures var t := TakeNext(buffer);
      buffer == buffer[..|buffer| - |t.rest|] + t.rest
  {
    TakesFromFront(buffer);
  }

  lemma {:induction false} SessionFaithful(cfg: Config, store: Store, actions: seq<Action>)
    ensures Faithful(cfg, store, After(cfg, store, actions), Received(actions))
  {
    if actions == [] {
      assert Received(actions) == [];
    } else {
      hide Faithful, Act;
      var n := |actions| - 1;
      var s, received := After(cfg, store, actions[..n]), Received(actions[..n]);
      SessionFaithful(cfg, store, actions[..n]);
      if actions[n].Arrive? {
        ArriveFaithful(cfg, store, s, received, actions[n].data);
      } else {
        CallFaithful(cfg, store, s, received);
        assert received + [] == received;
      }
    }
  }

  /** However the stream was cut up and calls interleaved, a session no call changes any more has served exactly
      the commands of the whole stream, in order, and holds exactly the bytes that are no command yet. */
  lemma ChunkingIndependence(cfg: Config, store: Store, actions: seq<Action>)
    requires Quiescent(After(cfg, store, actions).buffer)
    ensures var s := After(cfg, store, actions);
      var whole := ParseStream(Received(actions));
      && s.commands == whole.commands
      && s.buffer == whole.rest
      && Served(s.store, s.outcomes) == Serve(cfg, store, whole.commands)
  {
    var s := After(cfg, store, actions);
    SessionFaithful(cfg, store, actions);
    assert ParseStream(s.buffer) == Stream([], s.buffer);
    hide ParseStream, After, Received, Serve, TakeNext;
  }

  /** Whatever arrives, only payloads of 1 to 1024 bytes are ever accepted: a longer command never is. */
  lemma {:induction false} AcceptedAreSendable(cfg: Config, store: Store, actions: seq<Action>)
    ensures forall c :: c in After(cfg, store, actions).commands ==> Sendable(c)
  {
    hide ParseFramedRequest, Respond, Sendable;
    if actions != [] {
      AcceptedAreSendable(cfg, store, actions[..|actions| - 1]);
    }
  }

  // --- A page uploaded over the wire

  function Requests(rs: seq<seq<byte>>): (cs: seq<Command>)
    ensures |cs| == |rs| && forall i :: 0 <= i < |rs| ==> cs[i] == Request(rs[i])
  {
    seq(|rs|, i requires 0 <= i < |rs| => Request(rs[i]))
  }

  lemma {:induction false} ServeIsRun(cfg: Config, store: Store, rs: seq<seq<byte>>)
    ensures Serve(cfg, store, Requests(rs)).store == Run(cfg, store, rs)
  {
    if rs != [] {
      hide PageStore.HandleRequest;
      var n := |rs| - 1;
      ServeIsRun(cfg, store, rs[..n]);
      assert Requests(rs)[..n] == Requests(rs[..n]);
    }
  }

  lemma ServeOneMore(cfg: Config, store: Store, cs: seq<Command>, c: Command)
    ensures var before := Serve(cfg, store, cs);
      var h := Respond(cfg, before.store, c);
      Serve(cfg, store, cs + [c]) == Served(h.store, before.outcomes + [h.outcome])
  {
    assert (cs + [c])[..|cs|] == cs;
  }

  lemma {:induction false} UploadSendable(can: byte, table: byte, offset: nat, chunks: seq<seq<byte>>)
    requires offset + |Joined(chunks)| < 0x1_0000
    requires forall i :: 0 <= i < |chunks| ==> |chunks[i]| <= MAX_REQUEST - 7
    ensures forall r :: r in Upload(can, table, offset, chunks) ==> 1 <= |r| <= MAX_REQUEST
    decreases |chunks|
  {
    if chunks != [] {
      UploadSendable(can, table, offset + |chunks[0]|, chunks[1..]);
    }
  }

  /** Write every chunk, then read the page back and ask for its checksum. */
  function SynchroniseCommands(can: byte, table: byte, chunks: seq<seq<byte>>): (cs: seq<Command>)
    requires |Joined(chunks)| < 0x1_0000
    requires forall i :: 0 <= i < |chunks| ==> |chunks[i]| <= MAX_REQUEST - 7
    ensures forall c :: c in cs ==> Sendable(c)
  {
    UploadSendable(can, table, 0, chunks);
    var size := |Joined(chunks)|;
    Requests(Upload(can, table, 0, chunks))
    + [Request(RangeRequest(READ, can, table, 0, size))]
    + [Request(RangeRequest(CHECK, can, table, 0, size))]
  }

  /** An image sent in chunks that fit the frame limit, then read back and checked, all over one byte stream:
      however the stream is cut up, the last two replies are the image and its checksum. */
  lemma UploadOverTheWire(cfg: Config, store: Store, can: byte, table: byte, chunks: seq<seq<byte>>,
                          actions: seq<Action>)
    requires table in store.pages && !Shadowed(table)
    requires |Joined(chunks)| == |store.pages[table]| <= 65534
    requires forall i :: 0 <= i < |chunks| ==> |chunks[i]| <= MAX_REQUEST - 7
    requires Received(actions) == EncodeAll(SynchroniseCommands(can, table, chunks))
    requires Quiescent(After(cfg, store, actions).buffer)
    ensures var s := After(cfg, store, actions);
      var image := Joined(chunks);
      var n := |s.outcomes|;
      && s.buffer == [] && n >= 2
      && s.outcomes[n - 2] == Reply(Frame([FLAG_OK] + image))
      && s.outcomes[n - 1] == Reply(Frame([FLAG_OK] + Be32(Checksum(image))))
  {
    var image := Joined(chunks);
    var uploads := Upload(can, table, 0, chunks);
    var writes := Requests(uploads);
    var read, check := RangeRequest(READ, can, table, 0, |image|), RangeRequest(CHECK, can, table, 0, |image|);
    var all := writes + [Request(read)] + [Request(check)];
    assert all == SynchroniseCommands(can, table, chunks);
    assert forall st :: Respond(cfg, st, Request(read)) == PageStore.HandleRequest(cfg, st, read);
    assert forall st :: Respond(cfg, st, Request(check)) == PageStore.HandleRequest(cfg, st, check);
    assert read[0] == READ;
    hide *;
    ChunkingIndependence(cfg, store, actions);
    RoundTripAlone(all);
    ServeIsRun(cfg, store, uploads);
    ServeOneMore(cfg, store, writes, Request(read));
    ServeOneMore(cfg, store, writes + [Request(read)], Request(check));
    OnlyWritesChange(cfg, Run(cfg, store, uploads), read);
    PageSynchronised(cfg, store, can, table, chunks);
  }

  lemma OnlyWritesChange(cfg: Config, store: Store, request: seq<byte>)
    requires |request| > 0 && request[0] == READ
    ensures PageStore.HandleRequest(cfg, store, request).store == store
  {
    OnlyWritesMatter(cfg, store, request);
  }
}
