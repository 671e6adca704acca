/** One poll of the realtime data: the exchange, the check of its flag, and the block it leaves behind. */
module Poll {
  import opened Bytes
  import opened Framing
  import opened SerialComm
  import PageStore
  import Protocol

  const COMMAND: seq<byte> := [PageStore.REALTIME_QUERY]

  datatype Fetched = Fetched(err: Error, frame: seq<byte>)

  /** What a poll obtains: the reply without its flag. */
  function Fetch(script: seq<Io>, incoming: seq<byte>): Fetched {
    var s := Send(script, incoming, COMMAND, MAX_FRAME);
    if s.err != Success then Fetched(s.err, [])
    else if |s.reply| < 1 || s.reply[0] != PageStore.FLAG_REALTIME then Fetched(ParseError, [])
    else Fetched(Success, s.reply[1..])
  }

  /** The daemon's block: null before the first poll, then memory of which `len` bytes count. */
  class OutpcBlock {
    var buffer: array?<byte>
    var len: nat

    ghost predicate Valid()
      reads this
    {
      if buffer == null then len == 0 else len <= buffer.Length
    }

    ghost function Contents(): seq<byte>
      requires Valid()
      reads this, buffer
    {
      if buffer == null then [] else buffer[..len]
    }

    constructor ()
      ensures Valid() && Contents() == [] && buffer == null
    {
      buffer := null;
      len := 0;
    }

    /** `ms2d_serial_poll_outpc` between its lock and unlock: the frame becomes the block, unless memory is short. */
    method Install(frame: seq<byte>, granted: bool) returns (err: Error)
      requires Valid()
      modifies this, buffer
      ensures Valid()
      ensures var grows := old(buffer) == null || old(buffer.Length) < |frame|;
        if grows && !granted then err == MemoryError && Contents() == old(Contents())
        else err == Success && Contents() == frame
    {
      if buffer == null || buffer.Length < |frame| {
        if !granted {
          return MemoryError;
        }
        buffer := new byte[|frame|];
      }
      CopyInto(buffer, 0, frame);
      len := |frame|;
      err := Success;
    }

    /** `ms2d_serial_poll_outpc`: a poll that fails in any way leaves the block as it was. The port is left as the one
        exchange leaves it. */
    method PollOutpc(port: Port, granted: bool) returns (err: Error)
      requires Valid()
      modifies this, buffer, port
      ensures Valid()
      ensures var f := Fetch(old(port.script), old(port.incoming));
        var grows := old(buffer) == null || old(buffer.Length) < |f.frame|;
        if f.err != Success then err == f.err && Contents() == old(Contents())
        else if grows && !granted then err == MemoryError && Contents() == old(Contents())
        else err == Success && Contents() == f.frame
      ensures var s := Send(old(port.script), old(port.incoming), COMMAND, MAX_FRAME);
        && port.script == s.script
        && port.sent == old(port.sent) + s.request
        && s.taken <= |old(port.incoming)|
        && port.incoming == old(port.incoming)[s.taken..]
    {
      hide Send;
      var cmd := new byte[1];
      cmd[0] := PageStore.REALTIME_QUERY;
      assert cmd[..1] == COMMAND;
      var response := new byte[MAX_FRAME];
      var respLen;
      err, respLen := SerialSend(port, cmd, 1, response, MAX_FRAME);
      if err != Success {
        return;
      }
      if respLen < 1 || response[0] != PageStore.FLAG_REALTIME {
        return ParseError;
      }
      assert response[1..respLen] == response[..respLen][1..];
      err := Install(response[1..respLen], granted);
    }
  }

  /** A header that announces more than the client's limit is refused, however the bytes come. */
  lemma OversizeRefused(script: seq<Io>, data: seq<byte>, later: seq<byte>)
    requires Patient(script) && Offers(script) >= |COMMAND| + 6 + 2
    requires MAX_FRAME < |data| < 0x1_0000
    ensures Send(script, Frame(data) + later, COMMAND, MAX_FRAME).err == ParseError
  {
    var n := |COMMAND| + 6;
    PatienceSuffices(script, 0, n, n);
    var w := Transfer(script, 0, n, n);
    PatienceSuffices(w.script, 0, 2, |Frame(data) + later|);
    Be16RoundTrip(|data|);
    FrameParts(data, later);
    hide Transfer, ReceiveBody, Frame, FromBe16, Be16;
  }

  /** The ECU answers with its realtime block and keeps its pages. */
  lemma BlockFramed(cfg: PageStore.Config, store: PageStore.Store)
    requires |cfg.outpc| <= 65534
    ensures Protocol.Respond(cfg, store, Request(COMMAND))
         == PageStore.Handled(store, PageStore.Reply(Frame([PageStore.FLAG_REALTIME] + cfg.outpc)))
  {
    hide Frame, PageStore.CanRead, PageStore.CanWrite, PageStore.CrcCheck;
  }

  /** Polling the simulated ECU over a link that only cuts transfers short yields exactly its realtime block, up to
      4095 bytes; a longer block the ECU frames without complaint and the daemon always refuses. */
  lemma PollFetchesBlock(cfg: PageStore.Config, store: PageStore.Store, script: seq<Io>, later: seq<byte>)
    requires Patient(script) && Offers(script) >= |COMMAND| + 6 + |cfg.outpc| + 7
    requires |cfg.outpc| <= 65534
    ensures var h := Protocol.Respond(cfg, store, Request(COMMAND));
      && h == PageStore.Handled(store, PageStore.Reply(Frame([PageStore.FLAG_REALTIME] + cfg.outpc)))
      && Fetch(script, h.outcome.data + later) ==
         if |cfg.outpc| <= 4095 then Fetched(Success, cfg.outpc) else Fetched(ParseError, [])
  {
    var data := [PageStore.FLAG_REALTIME] + cfg.outpc;
    assert data[1..] == cfg.outpc;
    BlockFramed(cfg, store);
    hide Send, Frame, Patient, Offers, Protocol.Respond;
    if |data| <= MAX_FRAME {
      PatientExchange(script, COMMAND, data, later, MAX_FRAME);
    } else {
      OversizeRefused(script, data, later);
    }
  }

  /** A block of 4096 bytes, sent without any trouble, is refused. */
  lemma LongBlockRefused(store: PageStore.Store)
    ensures var cfg := PageStore.Config([], [], Zeros(4096));
      var h := Protocol.Respond(cfg, store, Request(COMMAND));
      h.outcome.Reply? && Fetch(seq(5000, _ => Moved(1)), h.outcome.data) == Fetched(ParseError, [])
  {
    var cfg := PageStore.Config([], [], Zeros(4096));
    hide Fetch, Patient, Offers, Protocol.Respond, Frame;
    SteadyOffers(5000);
    PollFetchesBlock(cfg, store, seq(5000, _ => Moved(1)), []);
    var data := Protocol.Respond(cfg, store, Request(COMMAND)).outcome.data;
    assert data + [] == data;
  }

  /** Over a link that only cuts transfers short, with any legal reply first and whatever follows: the poll yields the
      reply behind its first byte if that is 1, and is a parse error otherwise. */
  lemma PollExactly(script: seq<Io>, data: seq<byte>, later: seq<byte>)
    requires Patient(script) && Offers(script) >= 1 + 6 + |data| + 6 && 1 <= |data| <= 4096
    ensures Fetch(script, Frame(data) + later) ==
      if data[0] == 0x01 then Fetched(Success, data[1..]) else Fetched(ParseError, [])
  {
    hide Send, Frame, Patient, Offers;
    PatientExchange(script, COMMAND, data, later, MAX_FRAME);
  }
}
