/** The byte stream between client and ECU: one-byte 'F' commands mixed with checksummed frames. */
module Framing {
  import opened Bytes
  import opened Crc32
  import CrcDetection

  const VERSION_QUERY: byte := 0x46  // 'F'
  const MAX_REQUEST := 1024

  /** `[size:2][data][crc:4]`. */
  function Frame(data: seq<byte>): (f: seq<byte>)
    requires |data| < 0x1_0000
    ensures |f| == |data| + 6
  {
    Be16(|data|) + data + Be32(Checksum(data))
  }

  datatype Parsed = Parsed(payload: Option<seq<byte>>, rest: seq<byte>)

  /** `parse_framed_request`: a bad size costs one byte, a bad checksum the whole frame. */
  function ParseFramedRequest(buffer: seq<byte>): Parsed {
    if |buffer| < 2 then Parsed(None, buffer)
    else
      var size := FromBe16(buffer[..2]);
      if size == 0 || size > MAX_REQUEST then Parsed(None, buffer[1..])
      else if |buffer| < 2 + size + 4 then Parsed(None, buffer)
      else
        var payload := buffer[2..2 + size];
        var rest := buffer[2 + size + 4..];
        if FromBe32(buffer[2 + size..2 + size + 4]) != Checksum(payload) then Parsed(None, rest)
        else Parsed(Some(payload), rest)
  }

  datatype Command = Version | Request(payload: seq<byte>)

  /** The commands a client may send. */
  predicate Sendable(c: Command) {
    c.Request? ==> 1 <= |c.payload| <= MAX_REQUEST
  }

  function Encode(c: Command): (s: seq<byte>)
    requires Sendable(c)
    ensures |s| > 0
  {
    match c
    case Version => [VERSION_QUERY]
    case Request(payload) => Frame(payload)
  }

  function EncodeAll(cs: seq<Command>): seq<byte>
    requires forall c :: c in cs ==> Sendable(c)
  {
    if cs == [] then [] else Encode(cs[0]) + EncodeAll(cs[1..])
  }

  datatype Taken = Taken(command: Option<Command>, rest: seq<byte>)

  /** What one call of `get_next_response` takes from the buffer. */
  function TakeNext(buffer: seq<byte>): (t: Taken)
    ensures |t.rest| <= |buffer|
    ensures t.command.Some? ==> |t.rest| < |buffer|
    ensures t.command.Some? ==> Sendable(t.command.value)
  {
    if buffer == [] then Taken(None, buffer)
    else if buffer[0] == VERSION_QUERY then Taken(Some(Version), buffer[1..])
    else
      var p := ParseFramedRequest(buffer);
      Taken(if p.payload.Some? then Some(Request(p.payload.value)) else None, p.rest)
  }

  /** A call only ever drops bytes from the front. */
  lemma TakesFromFront(buffer: seq<byte>)
    ensures exists n: nat :: n <= |buffer| && TakeNext(buffer).rest == buffer[n..]
  {
    var t := TakeNext(buffer);
    if t.rest == buffer {
      assert t.rest == buffer[0..];
    } else if buffer[0] != VERSION_QUERY {
      var size := FromBe16(buffer[..2]);
      var n := if size == 0 || size > MAX_REQUEST then 1 else 2 + size + 4;
      assert t.rest == buffer[n..];
    } else {
      assert t.rest == buffer[1..];
    }
  }

  /** A further call would change nothing. */
  predicate Quiescent(buffer: seq<byte>) {
    TakeNext(buffer).rest == buffer
  }

  datatype Stream = Stream(commands: seq<Command>, rest: seq<byte>)

  function Prepend(c: Option<Command>, cs: seq<Command>): seq<Command> {
    if c.Some? then [c.value] + cs else cs
  }

  lemma PrependConcat(c: Option<Command>, cs: seq<Command>, ds: seq<Command>)
    ensures Prepend(c, cs) + ds == Prepend(c, cs + ds)
  {
    if c.Some? {
      assert [c.value] + cs + ds == [c.value] + (cs + ds);
    }
  }

  /** The commands in a whole stream, and the bytes left waiting at its end. */
  function ParseStream(s: seq<byte>): Stream
    decreases |s|
  {
    var t := TakeNext(s);
    if t.rest == s then Stream([], s)
    else
      var r := ParseStream(t.rest);
      Stream(Prepend(t.command, r.commands), r.rest)
  }

  // --- What is taken, by the bytes

  /** A frame on the wire: the size's high byte first, the data, and the checksum's high byte first. */
  lemma FrameBytes(data: seq<byte>)
    requires |data| < 0x1_0000
    ensures var f, n := Frame(data), |data|;
      && |f| == n + 6 && f[0] as int * 256 + f[1] == n && f[2..2 + n] == data
      && ((f[n + 2] as int * 256 + f[n + 3]) * 256 + f[n + 4]) * 256 + f[n + 5] == Checksum(data)
  {
    Be32RoundTrip(Checksum(data));
    var f, s := Frame(data), Be32(Checksum(data));
    assert f[2 + |data|..] == s;
    hide Checksum;
    assert f[2 + |data|] == s[0] && f[3 + |data|] == s[1] && f[4 + |data|] == s[2] && f[5 + |data|] == s[3];
  }

  /** A call takes 'F' exactly when it comes first, and a payload exactly when it has 1 to 1024 bytes and its frame
      comes first; then the bytes behind are left. */
  lemma AcceptsExactly(buffer: seq<byte>, payload: seq<byte>)
    ensures TakeNext(buffer).command == Some(Version) <==> |buffer| > 0 && buffer[0] == 0x46
    ensures TakeNext(buffer).command == Some(Request(payload)) <==>
      1 <= |payload| <= 1024 && Frame(payload) <= buffer
    ensures TakeNext(buffer).command == Some(Request(payload)) ==> TakeNext(buffer).rest == buffer[|payload| + 6..]
    ensures TakeNext(buffer).command == Some(Version) ==> TakeNext(buffer).rest == buffer[1..]
  {
    if TakeNext(buffer).command == Some(Request(payload)) {
      TakenIsEncoded(buffer, TakeNext(buffer));
      assert buffer[|payload| + 6..] == TakeNext(buffer).rest;
    }
    if 1 <= |payload| <= 1024 && Frame(payload) <= buffer {
      TakeEncoded(Request(payload), buffer[|Frame(payload)|..]);
      assert buffer == Frame(payload) + buffer[|Frame(payload)|..];
    }
  }

  /** Without a command it waits exactly when more bytes could make a frame of 1 to 1024 bytes of what is there; else it
      drops one byte of a bad size, or the whole of a frame with a bad checksum. */
  lemma SkipsExactly(buffer: seq<byte>)
    requires TakeNext(buffer).command.None?
    ensures var size := if |buffer| < 2 then 1 else buffer[0] as int * 256 + buffer[1];
      TakeNext(buffer).rest ==
        if size < 1 || size > 1024 then buffer[1..]
        else if |buffer| < 2 || |buffer| < size + 6 then buffer
        else buffer[size + 6..]
  {
  }

  // --- Progress

  /** A call that changes the buffer shortens it; a buffer no call changes is short. */
  lemma QuiescentIsShort(buffer: seq<byte>)
    ensures Quiescent(buffer) <==> |TakeNext(buffer).rest| == |buffer|
    ensures Quiescent(buffer) ==> |buffer| <= 1029
    ensures Quiescent(buffer) ==> TakeNext(buffer).command.None?
  {
  }

  function Calls(buffer: seq<byte>, n: nat): seq<byte>
    decreases n
  {
    if n == 0 then buffer else Calls(TakeNext(buffer).rest, n - 1)
  }

  /** As many calls as there are bytes reach quiescence from any contents: what a parse of the whole leaves. */
  lemma {:induction false} CallsReachQuiescence(buffer: seq<byte>, n: nat)
    requires n >= |buffer|
    ensures Quiescent(Calls(buffer, n))
    ensures Calls(buffer, n) == ParseStream(buffer).rest
    decreases n
  {
    QuiescentIsShort(buffer);
    hide TakeNext;
    if n > 0 {
      if Quiescent(buffer) {
        CallsKeep(buffer, n);
      } else {
        CallsReachQuiescence(TakeNext(buffer).rest, n - 1);
      }
    }
  }

  lemma {:induction false} CallsKeep(buffer: seq<byte>, n: nat)
    requires Quiescent(buffer)
    ensures Calls(buffer, n) == buffer
    decreases n
  {
    if n > 0 {
      CallsKeep(buffer, n - 1);
    }
  }

  // --- Independence of chunking

  /** Once a call makes progress, bytes that arrive later cannot change what it took. */
  lemma TakeIsStable(s: seq<byte>, later: seq<byte>)
    requires !Quiescent(s)
    ensures TakeNext(s + later) == Taken(TakeNext(s).command, TakeNext(s).rest + later)
  {
    hide Checksum, FromBe32, FromBe16;
    if s[0] == VERSION_QUERY {
      Front(s, later, 0, 1);
    } else {
      Front(s, later, 0, 2);
      var size := FromBe16(s[..2]);
      assert (s + later)[..2] == s[..2];
      if 0 < size <= MAX_REQUEST {
        Front(s, later, 2, 2 + size);
        Front(s, later, 2 + size, 2 + size + 4);
      } else {
        Front(s, later, 0, 1);
      }
    }
  }

  /** Later bytes change neither a slice nor what comes first behind it. */
  lemma Front(s: seq<byte>, later: seq<byte>, lo: nat, hi: nat)
    requires lo <= hi <= |s|
    ensures (s + later)[lo..hi] == s[lo..hi]
    ensures (s + later)[hi..] == s[hi..] + later
  {
  }

  lemma ParseStep(s: seq<byte>, t: Taken)
    requires TakeNext(s) == t && t.rest != s
    ensures ParseStream(s) == Stream(Prepend(t.command, ParseStream(t.rest).commands), ParseStream(t.rest).rest)
  {
  }

  /** Parsing may stop at any point of the stream and go on from the waiting bytes. */
  lemma {:induction false} StreamResumes(s: seq<byte>, later: seq<byte>)
    ensures ParseStream(s + later).commands ==
      ParseStream(s).commands + ParseStream(ParseStream(s).rest + later).commands
    ensures ParseStream(s + later).rest == ParseStream(ParseStream(s).rest + later).rest
    decreases |s|
  {
    hide TakeNext;
    if Quiescent(s) {
      assert ParseStream(s) == Stream([], s);
    } else {
      var t := NextShrinks(s);
      TakeIsStable(s, later);
      StreamResumes(t.rest, later);
      ParseStep(s, t);
      ParseStep(s + later, Taken(t.command, t.rest + later));
      PrependConcat(t.command, ParseStream(t.rest).commands,
                    ParseStream(ParseStream(t.rest).rest + later).commands);
    }
  }

  lemma NextShrinks(s: seq<byte>) returns (t: Taken)
    requires !Quiescent(s)
    ensures t == TakeNext(s) && |t.rest| < |s|
  {
    t := TakeNext(s);
  }

  // --- Round trip

  lemma TakeEncoded(c: Command, later: seq<byte>)
    requires Sendable(c)
    ensures TakeNext(Encode(c) + later) == Taken(Some(c), later)
  {
    var s := Encode(c) + later;
    match c
    case Version =>
      assert s[1..] == later;
    case Request(payload) =>
      FrameParts(payload, later);
      Be16RoundTrip(|payload|);
      Be32RoundTrip(Checksum(payload));
      assert s[0] == |payload| / 256;
  }

  /** The converse: what a call takes as a command is that command's encoding. */
  lemma TakenIsEncoded(s: seq<byte>, t: Taken)
    requires t == TakeNext(s) && t.command.Some?
    ensures s == Encode(t.command.value) + t.rest
  {
    if t.command.value.Request? {
      var size := FromBe16(s[..2]);
      FromBe16Inverse(s[..2]);
      FromBe32Inverse(s[2 + size..2 + size + 4]);
      assert s == s[..2] + s[2..2 + size] + s[2 + size..2 + size + 4] + s[2 + size + 4..];
    }
  }

  lemma FrameParts(data: seq<byte>, later: seq<byte>)
    requires |data| < 0x1_0000
    ensures var s := Frame(data) + later;
      && s[..2] == Be16(|data|)
      && s[2..2 + |data|] == data
      && s[2 + |data|..2 + |data| + 4] == Be32(Checksum(data))
      && s[2 + |data| + 4..] == later
  {
  }

  lemma EncodeAllSplits(cs: seq<Command>, later: seq<byte>)
    requires cs != [] && forall c :: c in cs ==> Sendable(c)
    ensures EncodeAll(cs) + later == Encode(cs[0]) + (EncodeAll(cs[1..]) + later)
  {
  }

  /** Every list of commands is parsed back from its encoding, and what follows is parsed as if alone. */
  lemma {:induction false} RoundTrip(cs: seq<Command>, later: seq<byte>)
    requires forall c :: c in cs ==> Sendable(c)
    ensures ParseStream(EncodeAll(cs) + later).commands == cs + ParseStream(later).commands
    ensures ParseStream(EncodeAll(cs) + later).rest == ParseStream(later).rest
    decreases |cs|
  {
    hide TakeNext, Encode;
    if cs == [] {
      assert EncodeAll(cs) + later == later;
    } else {
      EncodeAllSplits(cs, later);
      RoundTripStep(cs[0], EncodeAll(cs[1..]) + later);
      RoundTrip(cs[1..], later);
    }
  }

  lemma RoundTripStep(c: Command, later: seq<byte>)
    requires Sendable(c)
    ensures ParseStream(Encode(c) + later) == Stream([c] + ParseStream(later).commands, ParseStream(later).rest)
  {
    TakeEncoded(c, later);
    ParseStep(Encode(c) + later, Taken(Some(c), later));
  }

  lemma RoundTripAlone(cs: seq<Command>)
    requires forall c :: c in cs ==> Sendable(c)
    ensures ParseStream(EncodeAll(cs)) == Stream(cs, [])
  {
    RoundTrip(cs, []);
    assert ParseStream([]) == Stream([], []);
    assert EncodeAll(cs) + [] == EncodeAll(cs);
    assert cs + [] == cs;
  }

  lemma EncodingInjective(cs: seq<Command>, ds: seq<Command>)
    requires forall c :: c in cs ==> Sendable(c)
    requires forall d :: d in ds ==> Sendable(d)
    requires EncodeAll(cs) == EncodeAll(ds)
    ensures cs == ds
  {
    RoundTripAlone(cs);
    RoundTripAlone(ds);
  }

  // --- Commands too long for the ECU

  /** What a byte that is the command 'F' adds to the commands. */
  function Lead(b: byte): seq<Command> {
    if b == VERSION_QUERY then [Version] else []
  }

  /** The command that a length byte before s makes of it, if the checksum matches. */
  function FrameAt(s: seq<byte>, size: nat): seq<Command>
    requires size + 5 <= |s|
  {
    if FromBe32(s[1 + size..5 + size]) == Checksum(s[1..1 + size]) then [Request(s[1..1 + size])] else []
  }

  /** A length byte in front of enough bytes to complete any frame. */
  lemma LengthInFront(b: byte, s: seq<byte>, size: int)
    requires |s| >= MAX_REQUEST + 5 && b != VERSION_QUERY && size == b as int * 256 + s[0]
    ensures TakeNext([b] + s) ==
      if 1 <= size <= MAX_REQUEST then
        Taken(if FrameAt(s, size) == [] then None else Some(FrameAt(s, size)[0]), s[size + 5..])
      else Taken(None, s)
  {
    hide Checksum, FromBe32;
    var f := [b] + s;
    assert f[1..] == s;
    assert f[..2] == [b, s[0]];
    assert FromBe16(f[..2]) == size;
    if 1 <= size <= MAX_REQUEST {
      assert f[2..2 + size] == s[1..1 + size];
      assert f[2 + size..2 + size + 4] == s[1 + size..5 + size];
      assert f[2 + size + 4..] == s[5 + size..];
    }
  }

  /** Parsing goes on with one more byte in front, where a length may now be read. */
  lemma ByteInFront(b: byte, s: seq<byte>)
    requires |s| >= MAX_REQUEST + 5
    ensures var size := b as int * 256 + s[0];
      ParseStream([b] + s) ==
        if b == VERSION_QUERY then Stream([Version] + ParseStream(s).commands, ParseStream(s).rest)
        else if 1 <= size <= MAX_REQUEST then
          var rest := ParseStream(s[size + 5..]);
          Stream(FrameAt(s, size) + rest.commands, rest.rest)
        else ParseStream(s)
  {
    var f, size := [b] + s, b as int * 256 + s[0];
    assert f[1..] == s;
    if b == VERSION_QUERY {
      ParseStep(f, Taken(Some(Version), s));
    } else {
      LengthInFront(b, s, size);
      hide TakeNext, ParseStream, Checksum, FromBe32;
      ParseStep(f, TakeNext(f));
      if 1 <= size <= MAX_REQUEST && FrameAt(s, size) == [] {
        assert [] + ParseStream(s[size + 5..]).commands == ParseStream(s[size + 5..]).commands;
      }
    }
  }

  /** A frame over 1024 bytes is not skipped: its first length byte goes alone, and the rest is read as a stream of its
      own, its second length byte together with what follows. */
  lemma OversizeUnwraps(data: seq<byte>, later: seq<byte>)
    requires 1024 < |data| < 0x1_0000
    ensures var high: byte, low: byte := |data| / 256, |data| % 256;
      var s := data + Be32(Checksum(data)) + later;
      ParseStream(Frame(data) + later) ==
        Stream(Lead(high) + ParseStream([low] + s).commands, ParseStream([low] + s).rest)
  {
    var high: byte, low: byte := |data| / 256, |data| % 256;
    var s := data + Be32(Checksum(data)) + later;
    var f := Frame(data) + later;
    assert f == Be16(|data|) + s;
    Be16RoundTrip(|data|);
    assert f[..2] == Be16(|data|) && f[1..] == [low] + s;
    ParseStep(f, Taken(if high == VERSION_QUERY then Some(Version) else None, [low] + s));
  }

  /** No command comes of a byte and what follows it: it is no 'F', no frame that matches its checksum begins at it, and
      what is left yields none. */
  predicate Silent(b: byte, s: seq<byte>)
    requires |s| >= MAX_REQUEST + 5
  {
    var size := b as int * 256 + s[0];
    && b != VERSION_QUERY
    && if 1 <= size <= MAX_REQUEST then FrameAt(s, size) == [] && ParseStream(s[size + 5..]).commands == []
       else ParseStream(s).commands == []
  }

  lemma SilentExactly(b: byte, s: seq<byte>)
    requires |s| >= MAX_REQUEST + 5
    ensures ParseStream([b] + s).commands == [] <==> Silent(b, s)
  {
    hide ParseStream, FrameAt;
    ByteInFront(b, s);
  }

  lemma OversizeLength(data: seq<byte>)
    ensures |data + Be32(Checksum(data))| == |data| + 4
  {
  }

  /** Such a frame yields no command exactly when its first length byte is no 'F' and none comes of its second and what
      follows it. */
  lemma OversizeSilentExactly(data: seq<byte>)
    requires 1024 < |data| < 0x1_0000
    ensures |data + Be32(Checksum(data))| == |data| + 4
    ensures ParseStream(Frame(data)).commands == [] <==>
      |data| / 256 != VERSION_QUERY && Silent(|data| % 256, data + Be32(Checksum(data)))
  {
    OversizeLength(data);
    hide ParseStream, Frame, FrameAt, Checksum, Be32, Silent;
    var s := data + Be32(Checksum(data));
    assert Frame(data) + [] == Frame(data) && s + [] == s;
    OversizeUnwraps(data, []);
    SilentExactly(|data| % 256, s);
  }

  /** Commands that stand at the front of such a frame's data are carried out, unless the second length byte makes a
      length of their first. */
  lemma OversizeExecutes(cs: seq<Command>, tail: seq<byte>, later: seq<byte>)
    requires forall c :: c in cs ==> Sendable(c)
    requires 1024 < |EncodeAll(cs) + tail| < 0x1_0000
    requires var data := EncodeAll(cs) + tail; !(1 <= |data| % 256 * 256 + data[0] <= MAX_REQUEST)
    ensures var data := EncodeAll(cs) + tail;
      var rest := ParseStream(tail + Be32(Checksum(data)) + later);
      ParseStream(Frame(data) + later) ==
        Stream(Lead(|data| / 256) + Lead(|data| % 256) + cs + rest.commands, rest.rest)
  {
    var data := EncodeAll(cs) + tail;
    hide ParseStream, Frame, EncodeAll, Checksum, Be32, FrameAt;
    var crc := Be32(Checksum(data));
    OversizeUnwraps(data, later);
    ByteInFront(|data| % 256, data + crc + later);
    Regroup(EncodeAll(cs), tail, crc, later);
    RoundTrip(cs, tail + crc + later);
    LeadGroup(Lead(|data| / 256), Lead(|data| % 256), cs, ParseStream(tail + crc + later).commands);
  }

  lemma Regroup(a: seq<byte>, b: seq<byte>, c: seq<byte>, d: seq<byte>)
    ensures (a + b) + c + d == a + (b + c + d)
  {
  }

  lemma LeadGroup(a: seq<Command>, b: seq<Command>, cs: seq<Command>, ds: seq<Command>)
    ensures a + (b + (cs + ds)) == a + b + cs + ds
    ensures b == [] ==> a + (cs + ds) == a + b + cs + ds
  {
  }

  /** A payload of 1030 'F's: every one of them is answered. */
  lemma OversizeOfQueries()
    ensures var data := seq<byte>(1030, _ => VERSION_QUERY);
      && |ParseStream(Frame(data)).commands| >= 1030
      && ParseStream(Frame(data)).commands[..1030] == seq(1030, _ => Version)
  {
    var cs := seq(1030, _ => Version);
    QueriesEncoded(1030);
    var data := EncodeAll(cs);
    assert data + [] == data && Frame(data) + [] == Frame(data);
    hide ParseStream, Frame, EncodeAll, Checksum, Be32;
    OversizeExecutes(cs, [], []);
    assert Lead(4) == [] && Lead(6) == [];
    var rest := ParseStream([] + Be32(Checksum(data)) + []).commands;
    assert [] + [] + cs + rest == cs + rest;
  }

  lemma {:induction false} QueriesEncoded(n: nat)
    ensures EncodeAll(seq(n, _ => Version)) == seq<byte>(n, _ => VERSION_QUERY)
  {
    if n > 0 {
      QueriesEncoded(n - 1);
      var cs := seq(n, _ => Version);
      assert cs[1..] == seq(n - 1, _ => Version);
      assert Encode(cs[0]) == [VERSION_QUERY];
    }
  }

  // --- What junk does to the commands behind it

  /** Nothing but the commands themselves is seen of any commands sent behind this. */
  ghost predicate Harmless(junk: seq<byte>) {
    forall ds :: ds != [] && (forall d :: d in ds ==> Sendable(d)) ==>
      ParseStream(junk + EncodeAll(ds)) == Stream(ds, [])
  }

  /** Any bytes are harmless to the commands behind them exactly when they yield no command and leave nothing waiting,
      or one byte too large to begin a length. */
  lemma HarmlessExactly(junk: seq<byte>)
    ensures var p := ParseStream(junk);
      Harmless(junk) <==> p.commands == [] && (p.rest == [] || (|p.rest| == 1 && p.rest[0] > 4))
  {
    var p := ParseStream(junk);
    CallsReachQuiescence(junk, |junk|);
    hide ParseStream, TakeNext, EncodeAll, Calls;
    if p.commands == [] && (p.rest == [] || (|p.rest| == 1 && p.rest[0] > 4)) {
      forall ds | ds != [] && (forall d :: d in ds ==> Sendable(d))
        ensures ParseStream(junk + EncodeAll(ds)) == Stream(ds, [])
      {
        PassesThrough(junk, ds);
      }
    }
    if p.commands != [] {
      CommandHarms(junk);
    } else if p.rest != [] && !(|p.rest| == 1 && p.rest[0] > 4) {
      RestHarms(junk);
    }
  }

  lemma CommandHarms(junk: seq<byte>)
    requires ParseStream(junk).commands != []
    ensures !Harmless(junk)
  {
    hide ParseStream, EncodeAll, Encode;
    var first := ParseStream(junk).commands[0];
    var ds := [if first == Version then Request([0]) else Version];
    StreamResumes(junk, EncodeAll(ds));
    assert ParseStream(junk + EncodeAll(ds)).commands[0] == first;
    assert ParseStream(junk + EncodeAll(ds)) != Stream(ds, []);
  }

  lemma RestHarms(junk: seq<byte>)
    requires var p := ParseStream(junk);
      p.commands == [] && Quiescent(p.rest) && p.rest != [] && !(|p.rest| == 1 && p.rest[0] > 4)
    ensures !Harmless(junk)
  {
    var r := ParseStream(junk).rest;
    var d := if r[0] == 4 && |r| == 1 then Request([0]) else Version;
    hide ParseStream, EncodeAll, TakeNext;
    StreamResumes(junk, EncodeAll([d]));
    if |r| == 1 {
      ByteSwallows(r[0], d);
      assert r == [r[0]];
    } else {
      FrameSwallows(r);
    }
    assert ParseStream(junk + EncodeAll([d])) != Stream([d], []);
  }

  lemma PassesThrough(junk: seq<byte>, ds: seq<Command>)
    requires ds != [] && forall d :: d in ds ==> Sendable(d)
    requires Quiescent(ParseStream(junk).rest) && ParseStream(junk).commands == []
    requires var r := ParseStream(junk).rest; r == [] || (|r| == 1 && r[0] > 4)
    ensures ParseStream(junk + EncodeAll(ds)) == Stream(ds, [])
  {
    var r, e := ParseStream(junk).rest, EncodeAll(ds);
    assert |e| > 0;
    RoundTripAlone(ds);
    StreamResumes(junk, e);
    hide ParseStream, EncodeAll;
    assert [] + ds == ds;
    if r == [] {
      assert r + e == e;
    } else {
      var s := r + e;
      assert s[1..] == e;
      assert FromBe16(s[..2]) > MAX_REQUEST;
      ParseStep(s, Taken(None, e));
    }
  }

  /** A single waiting byte and the first byte of one of these commands are a length the command cannot fill. */
  lemma ByteSwallows(b: byte, d: Command)
    requires b <= 4 && d == if b == 4 then Request([0]) else Version
    ensures ParseStream([b] + EncodeAll([d])).commands != [d]
  {
    var e := Encode(d);
    assert EncodeAll([d]) == e + [] == e;
    var s := [b] + e;
    if b == 4 {
      assert e[0] == Be16(1)[0];
    }
    assert s[..2] == [b, e[0]];
    hide Checksum;
    assert Quiescent(s);
  }

  /** A waiting frame takes an 'F' for one of its own bytes. */
  lemma FrameSwallows(r: seq<byte>)
    requires Quiescent(r) && |r| >= 2
    ensures ParseStream(r + EncodeAll([Version])).commands != [Version]
  {
    assert EncodeAll([Version]) == [VERSION_QUERY];
    var s := r + [VERSION_QUERY];
    OneByteMore(r, s);
    hide TakeNext, ParseStream, EncodeAll;
    if TakeNext(s).rest != s {
      ParseStep(s, TakeNext(s));
      NothingParsed();
    } else {
      QuiescentParse(s);
    }
  }

  lemma OneByteMore(r: seq<byte>, s: seq<byte>)
    requires Quiescent(r) && |r| >= 2 && s == r + [VERSION_QUERY]
    ensures TakeNext(s).rest == s || (TakeNext(s).rest == [] && TakeNext(s).command != Some(Version))
  {
    hide Checksum, FromBe32, FromBe16;
    var size := FromBe16(r[..2]);
    assert s[..2] == r[..2];
    if |s| >= 2 + size + 4 {
      assert s[2 + size + 4..] == [];
    }
  }

  lemma NothingParsed()
    ensures ParseStream([]) == Stream([], [])
  {
  }

  lemma QuiescentParse(s: seq<byte>)
    requires Quiescent(s)
    ensures ParseStream(s) == Stream([], s)
  {
    hide TakeNext;
  }

  // --- Corruption

  /** A frame whose payload was changed on the way; size and checksum arrive as sent. */
  function DamagedFrame(sent: seq<byte>, received: seq<byte>): seq<byte>
    requires |sent| == |received| < 0x1_0000
  {
    Be16(|sent|) + received + Be32(Checksum(sent))
  }

  lemma DamagedParts(sent: seq<byte>, received: seq<byte>, later: seq<byte>)
    requires |sent| == |received| < 0x1_0000
    ensures var s := DamagedFrame(sent, received) + later;
      && s[..2] == Be16(|sent|)
      && s[2..2 + |sent|] == received
      && s[2 + |sent|..2 + |sent| + 4] == Be32(Checksum(sent))
      && s[2 + |sent| + 4..] == later
  {
  }

  lemma DamageTaken(sent: seq<byte>, received: seq<byte>, later: seq<byte>)
    requires 1 <= |sent| == |received| <= MAX_REQUEST
    requires Checksum(sent) != Checksum(received)
    ensures TakeNext(DamagedFrame(sent, received) + later) == Taken(None, later)
  {
    Be16RoundTrip(|sent|);
    Be32RoundTrip(Checksum(sent));
    DamagedParts(sent, received, later);
  }

  /** A frame hit by an error burst within 32 consecutive payload bits is dropped whole: no command comes
      of it, and every command sent before or after it is still delivered. */
  lemma DamageIsContained(cs: seq<Command>, sent: seq<byte>, received: seq<byte>, ds: seq<Command>,
                          before: seq<bool>, v: seq<bool>, w: seq<bool>, after: seq<bool>)
    requires forall c :: c in cs ==> Sendable(c)
    requires forall d :: d in ds ==> Sendable(d)
    requires |sent| == |received| <= MAX_REQUEST && sent != received
    requires MessageBits(sent) == before + v + after
    requires MessageBits(received) == before + w + after
    requires |v| == |w| <= 32
    ensures ParseStream(EncodeAll(cs) + (DamagedFrame(sent, received) + EncodeAll(ds))) == Stream(cs + ds, [])
  {
    hide TakeNext, EncodeAll;
    var s := DamagedFrame(sent, received) + EncodeAll(ds);
    CrcDetection.BurstDetected(sent, received, before, v, w, after);
    DamageTaken(sent, received, EncodeAll(ds));
    ParseStep(s, Taken(None, EncodeAll(ds)));
    RoundTripAlone(ds);
    RoundTrip(cs, s);
  }
}
