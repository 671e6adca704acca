/** The daemon's serial client: exact reads and writes over a port that moves bytes as it pleases, and one exchange. */
module SerialComm {
  import opened Bytes
  import opened Crc32
  import opened Framing

  const MAX_FRAME := 4096

  datatype Error = Success | IoError | ParseError | InvalidArg | MemoryError | TimeoutError

  /** What the operating system does with one wait and the transfer after it. `Moved(n)` offers n bytes;
      at least one and never more than asked for and available are moved. */
  datatype Io = WaitTimeout | WaitFailed | Interrupted | Failed | Ended | Moved(n: nat)

  datatype Transferred = Transferred(err: Error, count: nat, script: seq<Io>)

  /** A loop that moves `len` bytes of which `available` can be had, following the script; at the script's end
      nothing comes. */
  function Transfer(script: seq<Io>, done: nat, len: nat, available: nat): Transferred
    decreases |script|
  {
    if done >= len then Transferred(Success, done, script)
    else if script == [] then Transferred(TimeoutError, done, script)
    else
      var rest := script[1..];
      match script[0]
      case WaitTimeout => Transferred(TimeoutError, done, rest)
      case WaitFailed => Transferred(IoError, done, rest)
      case Interrupted => Transfer(rest, done, len, available)
      case Failed => Transferred(IoError, done, rest)
      case Ended => Transferred(IoError, done, rest)
      case Moved(n) =>
        if done >= available then Transferred(TimeoutError, done, rest)
        else Transfer(rest, done + Portion(n, len - done, available - done), len, available)
  }

  function Portion(n: nat, wanted: nat, available: nat): (m: nat)
    requires wanted > 0 && available > 0
    ensures 1 <= m <= wanted && m <= available
  {
    var k := if n < 1 then 1 else n;
    var k' := if k < wanted then k else wanted;
    if k' < available then k' else available
  }

  /** A transfer succeeds exactly when everything was moved, and never moves more than there is. */
  lemma {:induction false} TransferBounds(script: seq<Io>, done: nat, len: nat, available: nat)
    requires done <= len && done <= available
    ensures var t := Transfer(script, done, len, available);
      && done <= t.count <= len && t.count <= available
      && (t.err == Success <==> t.count == len)
      && |t.script| <= |script|
    decreases |script|
  {
    if done < len && script != [] {
      match script[0]
      case Interrupted => TransferBounds(script[1..], done, len, available);
      case Moved(n) =>
        if done < available {
          TransferBounds(script[1..], done + Portion(n, len - done, available - done), len, available);
        }
      case _ =>
    }
  }

  lemma {:induction false} TransferErrors(script: seq<Io>, done: nat, len: nat, available: nat)
    requires done <= available
    ensures var err := Transfer(script, done, len, available).err;
      err == Success || err == TimeoutError || err == IoError
    decreases |script|
  {
    if done < len && script != [] {
      match script[0]
      case Interrupted => TransferErrors(script[1..], done, len, available);
      case Moved(n) =>
        if done < available {
          TransferErrors(script[1..], done + Portion(n, len - done, available - done), len, available);
        }
      case _ =>
    }
  }

  /** One turn of the loop. */
  lemma TransferStep(script: seq<Io>, done: nat, len: nat, available: nat)
    requires done < len && done <= available && script != []
    ensures Transfer(script, done, len, available) ==
      match script[0]
      case WaitTimeout => Transferred(TimeoutError, done, script[1..])
      case Interrupted => Transfer(script[1..], done, len, available)
      case Moved(n) =>
        if done == available then Transferred(TimeoutError, done, script[1..])
        else Transfer(script[1..], done + Portion(n, len - done, available - done), len, available)
      case _ => Transferred(IoError, done, script[1..])
  {
  }

  lemma TransferEnds(script: seq<Io>, done: nat, len: nat, available: nat)
    ensures done >= len ==> Transfer(script, done, len, available) == Transferred(Success, done, script)
    ensures done < len && script == [] ==>
      Transfer(script, done, len, available) == Transferred(TimeoutError, done, script)
  {
  }

  lemma Halves(a: seq<byte>, b: seq<byte>)
    ensures (a + b)[..|a|] == a && (a + b)[|a|..] == b
  {
  }

  lemma SliceTwice(s: seq<byte>, at: nat, n: nat)
    requires at + n <= |s|
    ensures s[..at] + s[at..][..n] == s[..at + n]
    ensures s[at..][..n] == s[at..at + n]
    ensures s[at..][n..] == s[at + n..]
  {
  }

  /** The serial port: what was written to it, what the device has sent, and how the transfers will go. */
  class Port {
    var script: seq<Io>
    var sent: seq<byte>
    var incoming: seq<byte>

    constructor (script: seq<Io>, incoming: seq<byte>)
      ensures this.script == script && this.incoming == incoming && sent == []
    {
      this.script := script;
      this.incoming := incoming;
      sent := [];
    }

    /** `ms2d_write_exact`. */
    method WriteExact(buf: array<byte>, len: nat) returns (err: Error)
      requires len <= buf.Length
      modifies this
      ensures var t := Transfer(old(script), 0, len, len);
        && t.count <= len
        && err == t.err && script == t.script
        && (err == Success ==> t.count == len)
        && sent == old(sent) + buf[..t.count]
        && incoming == old(incoming)
    {
      hide *;
      TransferBounds(script, 0, len, len);
      ghost var whole := Transfer(script, 0, len, len);
      var written := 0;
      assert buf[..written] == [];
      while written < len
        invariant 0 <= written <= len
        invariant Transfer(script, written, len, len) == whole
        invariant sent == old(sent) + buf[..written]
        invariant incoming == old(incoming)
        decreases |script|
      {
        TransferEnds(script, written, len, len);
        if script == [] {
          return TimeoutError;
        }
        TransferStep(script, written, len, len);
        var io := script[0];
        script := script[1..];
        match io {
          case WaitTimeout => return TimeoutError;
          case WaitFailed => return IoError;
          case Interrupted =>
          case Failed => return IoError;
          case Ended => return IoError;
          case Moved(n) =>
            var rc := Portion(n, len - written, len - written);
            sent := sent + buf[written..written + rc];
            assert buf[..written] + buf[written..written + rc] == buf[..written + rc];
            written := written + rc;
        }
      }
      TransferEnds(script, written, len, len);
      err := Success;
    }

    /** One `read`: bytes move from the device to the buffer. */
    method Read(buf: array<byte>, at: nat, rc: nat)
      requires at + rc <= buf.Length && rc <= |incoming|
      modifies this`incoming, buf
      ensures buf[..at + rc] + incoming == old(buf[..at]) + old(incoming)
      ensures |incoming| == |old(incoming)| - rc
    {
      CopyInto(buf, at, incoming[..rc]);
      incoming := incoming[rc..];
      assert buf[..at + rc] + incoming == old(buf[..at]) + (old(incoming)[..rc] + old(incoming)[rc..]);
    }

    /** `ms2d_read_exact`. */
    method ReadExact(buf: array<byte>, len: nat) returns (err: Error)
      requires len <= buf.Length
      modifies this, buf
      ensures var t := Transfer(old(script), 0, len, |old(incoming)|);
        && t.count <= len && t.count <= |old(incoming)|
        && err == t.err && script == t.script
        && (err == Success ==> t.count == len)
        && buf[..t.count] == old(incoming)[..t.count]
        && incoming == old(incoming)[t.count..]
        && sent == old(sent)
    {
      hide *;
      ghost var available := |incoming|;
      TransferBounds(script, 0, len, available);
      ghost var whole := Transfer(script, 0, len, available);
      err := Success;
      var total := 0;
      assert buf[..total] + incoming == old(incoming);
      while total < len
        invariant 0 <= total <= len
        invariant Transfer(script, total, len, available) == whole
        invariant buf[..total] + incoming == old(incoming)
        invariant |incoming| == available - total
        invariant sent == old(sent) && err == Success
        decreases |script|
      {
        TransferEnds(script, total, len, available);
        if script == [] {
          err := TimeoutError; break;
        }
        TransferStep(script, total, len, available);
        var io := script[0];
        script := script[1..];
        match io {
          case WaitTimeout => err := TimeoutError; break;
          case WaitFailed => err := IoError; break;
          case Interrupted =>
          case Failed => err := IoError; break;
          case Ended => err := IoError; break;
          case Moved(n) =>
            if incoming == [] {
              err := TimeoutError; break;
            }
            var rc := Portion(n, len - total, |incoming|);
            Read(buf, total, rc);
            total := total + rc;
        }
      }
      TransferEnds(script, total, len, available);
      Halves(buf[..total], incoming);
    }
  }

  // --- One exchange

  /** How an exchange ends: the bytes written, how many incoming bytes were taken, and the reply if there is one. */
  datatype Sent = Sent(err: Error, request: seq<byte>, taken: nat, script: seq<Io>, reply: seq<byte>)

  function Send(script: seq<Io>, incoming: seq<byte>, cmd: seq<byte>, capacity: nat): Sent {
    if cmd == [] || |cmd| > MAX_FRAME || capacity < 2 then Sent(InvalidArg, [], 0, script, [])
    else
      TransferBounds(script, 0, |cmd| + 6, |cmd| + 6);
      var w := Transfer(script, 0, |cmd| + 6, |cmd| + 6);
      if w.err != Success then Sent(w.err, Frame(cmd)[..w.count], 0, w.script, [])
      else Receive(w.script, incoming, Frame(cmd), capacity)
  }

  function Receive(script: seq<Io>, incoming: seq<byte>, request: seq<byte>, capacity: nat): Sent {
    TransferBounds(script, 0, 2, |incoming|);
    var h := Transfer(script, 0, 2, |incoming|);
    if h.err != Success then Sent(h.err, request, h.count, h.script, [])
    else
      var size := FromBe16(incoming[..2]);
      if size == 0 || size > MAX_FRAME then Sent(ParseError, request, 2, h.script, [])
      else
        var s := ReceiveBody(h.script, incoming[2..], size, request, capacity);
        s.(taken := 2 + s.taken)
  }

  /** The data and its checksum, after the header has announced the size. */
  function ReceiveBody(script: seq<Io>, incoming: seq<byte>, size: nat, request: seq<byte>, capacity: nat): Sent {
    TransferBounds(script, 0, size, |incoming|);
    var f := Transfer(script, 0, size, |incoming|);
    if f.err != Success then Sent(f.err, request, f.count, f.script, [])
    else
      TransferBounds(f.script, 0, 4, |incoming| - size);
      var c := Transfer(f.script, 0, 4, |incoming| - size);
      if c.err != Success then Sent(c.err, request, size + c.count, c.script, [])
      else if FromBe32(incoming[size..size + 4]) != Checksum(incoming[..size]) then
        Sent(ParseError, request, size + 4, c.script, [])
      else if capacity < size then Sent(MemoryError, request, size + 4, c.script, [])
      else Sent(Success, request, size + 4, c.script, incoming[..size])
  }

  /** `ms2d_serial_send` on an open port: `capacity` is what the caller's buffer holds. */
  method SerialSend(port: Port, cmd: array<byte>, len: nat, response: array<byte>, capacity: nat)
    returns (err: Error, respLen: nat)
    requires len <= cmd.Length && capacity <= response.Length && cmd != response
    modifies port, response
    ensures var s := Send(old(port.script), old(port.incoming), old(cmd[..len]), capacity);
      && err == s.err
      && port.script == s.script
      && port.sent == old(port.sent) + s.request
      && s.taken <= |old(port.incoming)|
      && port.incoming == old(port.incoming)[s.taken..]
      && (err == Success ==> respLen <= capacity && response[..respLen] == s.reply)
      && (err != Success ==> response[..] == old(response[..]))
  {
    respLen := 0;
    if len == 0 || capacity < 2 || len > MAX_FRAME {
      return InvalidArg, 0;
    }
    hide Transfer, Receive, Frame;
    err := WriteRequest(port, cmd, len);
    if err != Success {
      return err, 0;
    }
    err, respLen := ReceiveReply(port, response, capacity, Frame(cmd[..len]));
  }

  method WriteRequest(port: Port, cmd: array<byte>, len: nat) returns (err: Error)
    requires len <= cmd.Length && len <= MAX_FRAME
    modifies port
    ensures var w := Transfer(old(port.script), 0, len + 6, len + 6);
      && w.count <= len + 6 && (err == Success ==> w.count == len + 6)
      && err == w.err && port.script == w.script
      && port.sent == old(port.sent) + Frame(cmd[..len])[..w.count]
      && port.incoming == old(port.incoming)
  {
    hide Transfer, Frame;
    var request := new byte[2 + MAX_FRAME + 4];
    BuildRequest(request, cmd, len);
    err := port.WriteExact(request, 2 + len + 4);
    ghost var n := Transfer(old(port.script), 0, len + 6, len + 6).count;
    assert request[..2 + len + 4][..n] == request[..n];
  }

  method BuildRequest(request: array<byte>, cmd: array<byte>, len: nat)
    requires len <= cmd.Length && len <= MAX_FRAME && request.Length == 2 + MAX_FRAME + 4 && request != cmd
    modifies request
    ensures request[..2 + len + 4] == Frame(cmd[..len])
  {
    request[0] := len / 256;
    request[1] := len % 256;
    assert request[..2] == Be16(len);
    CopyInto(request, 2, cmd[..len]);
    var crc := ComputeCrc32(cmd, len);
    CopyInto(request, 2 + len, Be32(crc));
  }

  method ReceiveReply(port: Port, response: array<byte>, capacity: nat, ghost request: seq<byte>)
    returns (err: Error, respLen: nat)
    requires capacity <= response.Length
    modifies port, response
    ensures var s := Receive(old(port.script), old(port.incoming), request, capacity);
      && err == s.err
      && port.script == s.script
      && port.sent == old(port.sent)
      && s.taken <= |old(port.incoming)|
      && port.incoming == old(port.incoming)[s.taken..]
      && (err == Success ==> respLen <= capacity && response[..respLen] == s.reply)
      && (err != Success ==> response[..] == old(response[..]))
  {
    hide Transfer, ReceiveBody, FromBe16;
    respLen := 0;
    var header := new byte[2];
    err := port.ReadExact(header, 2);
    if err != Success {
      return;
    }
    var size := FromBe16(header[..2]);
    if size == 0 || size > MAX_FRAME {
      return ParseError, 0;
    }
    err, respLen := ReceiveData(port, size, response, capacity, request);
  }

  method ReceiveData(port: Port, size: nat, response: array<byte>, capacity: nat, ghost request: seq<byte>)
    returns (err: Error, respLen: nat)
    requires capacity <= response.Length && size <= MAX_FRAME
    modifies port, response
    ensures var s := ReceiveBody(old(port.script), old(port.incoming), size, request, capacity);
      && err == s.err
      && port.script == s.script
      && port.sent == old(port.sent)
      && s.taken <= |old(port.incoming)|
      && port.incoming == old(port.incoming)[s.taken..]
      && (err == Success ==> respLen <= capacity && response[..respLen] == s.reply)
      && (err != Success ==> response[..] == old(response[..]))
  {
    hide Transfer, Checksum, FromBe32;
    respLen := 0;
    ghost var incoming := port.incoming;
    var frame := new byte[MAX_FRAME];
    err := port.ReadExact(frame, size);
    if err != Success {
      return;
    }
    var crcBytes := new byte[4];
    err := port.ReadExact(crcBytes, 4);
    SliceTwice(incoming, size, if err == Success then 4 else |incoming| - |port.incoming| - size);
    if err != Success {
      return;
    }
    var crc := ComputeCrc32(frame, size);
    if FromBe32(crcBytes[..4]) != crc {
      return ParseError, 0;
    }
    if capacity < size {
      return MemoryError, 0;
    }
    CopyInto(response, 0, frame[..size]);
    respLen := size;
  }

  // --- When an exchange succeeds

  /** The three reads of a reply of this size all complete. */
  predicate Delivers(script: seq<Io>, available: nat, size: nat) {
    var h := Transfer(script, 0, 2, available);
    && h.err == Success && 2 + size + 4 <= available
    && var f := Transfer(h.script, 0, size, available - 2);
    && f.err == Success
    && Transfer(f.script, 0, 4, available - 2 - size).err == Success
  }

  /** A reply is accepted exactly when its reads complete, it is a frame within both limits, and it comes first. */
  lemma ReceivesExactly(script: seq<Io>, incoming: seq<byte>, request: seq<byte>, capacity: nat, data: seq<byte>)
    ensures var s := Receive(script, incoming, request, capacity);
      && (s.err == Success && s.reply == data <==>
            && 1 <= |data| <= MAX_FRAME && |data| <= capacity
            && Frame(data) <= incoming
            && Delivers(script, |incoming|, |data|))
      && (s.err == Success ==> s.taken == |s.reply| + 6)
  {
    hide Transfer, Frame, ReceiveBody, FromBe16, Checksum, Be32;
    TransferBounds(script, 0, 2, |incoming|);
    if |incoming| >= 2 {
      var h := Transfer(script, 0, 2, |incoming|);
      var size := FromBe16(incoming[..2]);
      BodyExactly(h.script, incoming[2..], size, request, capacity, data);
      if 1 <= |data| <= MAX_FRAME {
        PrefixParts(data, incoming);
      }
    }
  }

  lemma PrefixParts(data: seq<byte>, incoming: seq<byte>)
    requires |data| < 0x1_0000 && |incoming| >= 2
    ensures Frame(data) <= incoming <==>
      FromBe16(incoming[..2]) == |data| && data + Be32(Checksum(data)) <= incoming[2..]
  {
    Be16RoundTrip(|data|);
    FromBe16Inverse(incoming[..2]);
    hide FromBe16, Be32, Checksum, Be16;
    var tail := data + Be32(Checksum(data));
    assert Frame(data) == Be16(|data|) + tail;
    assert incoming == incoming[..2] + incoming[2..];
    if Frame(data) <= incoming {
      assert Frame(data)[..2] == Be16(|data|);
      assert Frame(data)[2..] == tail;
    }
  }

  lemma BodyExactly(script: seq<Io>, incoming: seq<byte>, size: nat, request: seq<byte>, capacity: nat, data: seq<byte>)
    ensures var s := ReceiveBody(script, incoming, size, request, capacity);
      && (s.err == Success && s.reply == data <==>
            && |data| == size && size <= capacity
            && data + Be32(Checksum(data)) <= incoming
            && size + 4 <= |incoming|
            && Transfer(script, 0, size, |incoming|).err == Success
            && Transfer(Transfer(script, 0, size, |incoming|).script, 0, 4, |incoming| - size).err == Success)
      && (s.err == Success ==> s.taken == |s.reply| + 4)
  {
    TransferBounds(script, 0, size, |incoming|);
    var f := Transfer(script, 0, size, |incoming|);
    if f.err == Success {
      TransferBounds(f.script, 0, 4, |incoming| - size);
      if size + 4 <= |incoming| {
        ChecksumField(incoming, size);
      }
    }
    hide Transfer, Checksum, FromBe32, Be32;
    if |data| == size && size + 4 <= |incoming| {
      assert data + Be32(Checksum(data)) <= incoming <==>
        data == incoming[..size] && Be32(Checksum(data)) == incoming[size..size + 4];
    }
  }

  lemma ChecksumField(incoming: seq<byte>, size: nat)
    requires size + 4 <= |incoming|
    ensures FromBe32(incoming[size..size + 4]) == Checksum(incoming[..size]) <==>
      incoming[size..size + 4] == Be32(Checksum(incoming[..size]))
  {
    Be32RoundTrip(Checksum(incoming[..size]));
    FromBe32Inverse(incoming[size..size + 4]);
  }

  // --- Patient schedules

  /** No timeout and no error, however small the pieces. */
  predicate Patient(script: seq<Io>) {
    forall io :: io in script ==> io.Interrupted? || io.Moved?
  }

  function Offers(script: seq<Io>): nat {
    if script == [] then 0 else (if script[0].Moved? then 1 else 0) + Offers(script[1..])
  }

  lemma {:induction false} SteadyOffers(n: nat)
    ensures var script := seq(n, _ => Moved(1)); Patient(script) && Offers(script) == n
  {
    var script := seq(n, _ => Moved(1));
    if n > 0 {
      SteadyOffers(n - 1);
      assert script[1..] == seq(n - 1, _ => Moved(1));
    }
  }

  /** A patient schedule moves everything there is, one byte or more per offer. */
  lemma {:induction false} PatienceSuffices(script: seq<Io>, done: nat, len: nat, available: nat)
    requires Patient(script) && done <= len <= available && Offers(script) >= len - done
    ensures var t := Transfer(script, done, len, available);
      && t.err == Success && Patient(t.script)
      && Offers(t.script) >= Offers(script) - (len - done)
    decreases |script|
  {
    hide Portion, Transfer;
    TransferEnds(script, done, len, available);
    if done < len {
      TransferStep(script, done, len, available);
      assert script[0] in script;
      if script[0].Moved? {
        PatienceSuffices(script[1..], done + Portion(script[0].n, len - done, available - done), len, available);
      } else {
        PatienceSuffices(script[1..], done, len, available);
      }
    }
  }

  lemma PatientDelivers(script: seq<Io>, available: nat, size: nat)
    requires Patient(script) && Offers(script) >= size + 6 && available >= size + 6
    ensures Delivers(script, available, size)
  {
    hide Transfer, Offers, Patient;
    PatienceSuffices(script, 0, 2, available);
    var h := Transfer(script, 0, 2, available);
    PatienceSuffices(h.script, 0, size, available - 2);
    var f := Transfer(h.script, 0, size, available - 2);
    PatienceSuffices(f.script, 0, 4, available - 2 - size);
  }

  /** With a patient schedule the client writes exactly the framed command and returns exactly the framed reply. */
  lemma PatientExchange(script: seq<Io>, cmd: seq<byte>, data: seq<byte>, later: seq<byte>, capacity: nat)
    requires Patient(script) && Offers(script) >= |cmd| + 6 + |data| + 6
    requires 1 <= |cmd| <= MAX_FRAME && 1 <= |data| <= MAX_FRAME && 2 <= capacity && |data| <= capacity
    ensures var s := Send(script, Frame(data) + later, cmd, capacity);
      && s.err == Success && s.request == Frame(cmd) && s.taken == |Frame(data)| && s.reply == data
  {
    var incoming := Frame(data) + later;
    var n := |cmd| + 6;
    hide Transfer, Offers, Patient, Send, Receive, Delivers, Frame, Checksum;
    PatienceSuffices(script, 0, n, n);
    var w := Transfer(script, 0, n, n);
    SendReaches(script, incoming, cmd, capacity, w);
    PatientDelivers(w.script, |incoming|, |data|);
    ReceivesExactly(w.script, incoming, Frame(cmd), capacity, data);
    ReceiveRequest(w.script, incoming, Frame(cmd), capacity);
  }

  lemma SendReaches(script: seq<Io>, incoming: seq<byte>, cmd: seq<byte>, capacity: nat, w: Transferred)
    requires 1 <= |cmd| <= MAX_FRAME && 2 <= capacity
    requires w == Transfer(script, 0, |cmd| + 6, |cmd| + 6) && w.err == Success
    ensures Send(script, incoming, cmd, capacity) == Receive(w.script, incoming, Frame(cmd), capacity)
  {
    hide Transfer, Receive, Frame;
  }

  /** Whichever of the four transfers fails, its own error is the exchange's; what went out and came in by then is
      gone. */
  lemma FailureIsReported(script: seq<Io>, incoming: seq<byte>, cmd: seq<byte>, capacity: nat)
    requires 1 <= |cmd| <= 4096 && 2 <= capacity
    ensures var s, n := Send(script, incoming, cmd, capacity), |cmd| + 6;
      var w := Transfer(script, 0, n, n);
      && (w.err != Success ==>
            s.err == w.err && w.count <= n && s.request == Frame(cmd)[..w.count] && s.taken == 0 && s.reply == [])
      && (w.err == Success ==>
            var h := Transfer(w.script, 0, 2, |incoming|);
            && (h.err != Success ==> s.err == h.err && s.request == Frame(cmd) && s.taken == h.count && s.reply == [])
            && (h.err == Success && |incoming| >= 2 && 1 <= FromBe16(incoming[..2]) <= 4096 ==>
                  BodyFailureReported(h.script, |incoming| - 2, FromBe16(incoming[..2]), s)))
  {
    var n := |cmd| + 6;
    TransferBounds(script, 0, n, n);
    var w := Transfer(script, 0, n, n);
    if w.err == Success {
      SendReaches(script, incoming, cmd, capacity, w);
      ReceiveFailure(w.script, incoming, Frame(cmd), capacity);
    }
    hide Transfer, Receive, Frame, FromBe16;
  }

  /** The data's and the checksum's transfers, when one of them fails. */
  predicate BodyFailureReported(script: seq<Io>, available: nat, size: nat, s: Sent) {
    var f := Transfer(script, 0, size, available);
    && (f.err != Success ==> s.err == f.err && s.taken == 2 + f.count && s.reply == [])
    && (f.err == Success && size <= available ==>
          var c := Transfer(f.script, 0, 4, available - size);
          c.err != Success ==> s.err == c.err && s.taken == 2 + size + c.count && s.reply == [])
  }

  lemma ReceiveFailure(script: seq<Io>, incoming: seq<byte>, request: seq<byte>, capacity: nat)
    ensures var s, h := Receive(script, incoming, request, capacity), Transfer(script, 0, 2, |incoming|);
      && (h.err != Success ==> s.err == h.err && s.request == request && s.taken == h.count && s.reply == [])
      && (h.err == Success && |incoming| >= 2 && 1 <= FromBe16(incoming[..2]) <= 4096 ==>
            BodyFailureReported(h.script, |incoming| - 2, FromBe16(incoming[..2]), s))
  {
    TransferBounds(script, 0, 2, |incoming|);
    hide Transfer, Checksum, FromBe16, FromBe32;
  }

  lemma ReceiveRequest(script: seq<Io>, incoming: seq<byte>, request: seq<byte>, capacity: nat)
    ensures Receive(script, incoming, request, capacity).request == request
  {
    hide Transfer, Checksum, FromBe32, FromBe16;
  }
}
