/** The ECU's requests and its configuration pages: what each command answers and what it does to the pages. */
module PageStore {
  import opened Bytes
  import opened Crc32
  import opened Framing

  const DEFAULT_PAGE := 1024

  const TABLE_OUTPC: byte := 0x07
  const TABLE_VERSION: byte := 0x0E
  const TABLE_SIGNATURE: byte := 0x0F

  const FLAG_OK: byte := 0x00
  const FLAG_REALTIME: byte := 0x01
  const FLAG_UNRECOGNIZED: byte := 0x83

  const SIGNATURE_QUERY: byte := 0x51  // 'Q'
  const REALTIME_QUERY: byte := 0x41  // 'A'
  const INFO_QUERY: byte := 0x53  // 'S'
  const READ: byte := 0x72  // 'r'
  const WRITE: byte := 0x77  // 'w'
  const CHECK: byte := 0x6B  // 'k'
  const BURN: byte := 0x62  // 'b'

  /** What does not change while the simulator serves: the signature, the answer to 'F', one OUTPC block. */
  datatype Config = Config(signature: seq<byte>, version: seq<byte>, outpc: seq<byte>)

  type pages = map<byte, seq<byte>>

  datatype Store = Store(pages: pages, modified: bool)

  /** What a call leaves its caller with; `Raised` is an escaping `struct.error`. */
  datatype Outcome = NoReply | Reply(data: seq<byte>) | Raised

  /** `build_response`: the length of flag and payload has to fit the two-byte header. */
  function BuildResponse(flag: byte, payload: seq<byte>): Outcome {
    if |payload| + 1 < 0x1_0000 then Reply(Frame([flag] + payload)) else Raised
  }

  // --- Request fields: command, CAN id, table, offset(2), count(2), data

  function Table(request: seq<byte>): byte
    requires |request| >= 7
  {
    request[2]
  }

  function Offset(request: seq<byte>): nat
    requires |request| >= 7
  {
    FromBe16(request[3..5])
  }

  function Count(request: seq<byte>): nat
    requires |request| >= 7
  {
    FromBe16(request[5..7])
  }

  function Data(request: seq<byte>): seq<byte>
    requires |request| >= 7
  {
    Slice(request, 7, 7 + Count(request))
  }

  function Padded(s: seq<byte>, width: nat): seq<byte> {
    if |s| < width then s + Zeros(width - |s|) else s
  }

  // --- The commands

  function CanRead(cfg: Config, store: Store, request: seq<byte>): Outcome
    requires |request| >= 7
  {
    var table, offset, count := Table(request), Offset(request), Count(request);
    var signature := cfg.signature + [0];
    if table == TABLE_SIGNATURE then
      BuildResponse(FLAG_OK, Slice(Padded(signature, 20), offset, offset + count))
    else if table == TABLE_VERSION then
      BuildResponse(FLAG_OK, Slice(Padded(signature, 60), offset, offset + count))
    else if table == TABLE_OUTPC then
      BuildResponse(FLAG_REALTIME, Slice(cfg.outpc, offset, offset + count))
    else if table in store.pages then
      BuildResponse(FLAG_OK, Slice(store.pages[table], offset, offset + count))
    else
      BuildResponse(FLAG_OK, Zeros(count))
  }

  function CanWrite(store: Store, request: seq<byte>): Store
    requires |request| >= 7
  {
    var table, offset, data := Table(request), Offset(request), Data(request);
    if table in store.pages then
      var page := store.pages[table];
      Store(store.pages[table := Patch(page, offset, data)],
            store.modified || offset + |data| <= |page|)
    else
      Store(store.pages[table := Patch(Zeros(DEFAULT_PAGE), offset, data)], true)
  }

  function CrcCheck(store: Store, request: seq<byte>): Outcome
    requires |request| >= 7
  {
    var table, offset, count := Table(request), Offset(request), Count(request);
    var data := if table in store.pages then Slice(store.pages[table], offset, offset + count) else Zeros(count);
    BuildResponse(FLAG_OK, Be32(Checksum(data)))
  }

  datatype Handled = Handled(store: Store, outcome: Outcome)

  /** `handle_request`. */
  function HandleRequest(cfg: Config, store: Store, request: seq<byte>): Handled {
    if request == [] then Handled(store, NoReply)
    else
      var cmd := request[0];
      if cmd == SIGNATURE_QUERY then Handled(store, BuildResponse(FLAG_OK, cfg.signature + [0]))
      else if cmd == REALTIME_QUERY then Handled(store, BuildResponse(FLAG_REALTIME, cfg.outpc))
      else if cmd == INFO_QUERY then Handled(store, BuildResponse(FLAG_OK, cfg.signature + [0]))
      else if cmd == READ && |request| >= 7 then Handled(store, CanRead(cfg, store, request))
      else if cmd == WRITE && |request| >= 7 then Handled(CanWrite(store, request), BuildResponse(FLAG_OK, []))
      else if cmd == CHECK && |request| >= 7 then Handled(store, CrcCheck(store, request))
      else if cmd == BURN && |request| >= 3 then Handled(store, BuildResponse(FLAG_OK, []))
      else Handled(store, BuildResponse(FLAG_UNRECOGNIZED, []))
  }

  /** The store after a run of requests, whatever their replies. */
  function Run(cfg: Config, store: Store, requests: seq<seq<byte>>): Store {
    if requests == [] then store
    else
      var last := |requests| - 1;
      HandleRequest(cfg, Run(cfg, store, requests[..last]), requests[last]).store
  }

  // --- The simple memory

  /** One byte of the ECU's memory: zero wherever no page holds it. */
  function Peek(store: Store, table: byte, at: nat): byte {
    if table in store.pages && at < |store.pages[table]| then store.pages[table][at] else 0
  }

  function Capacity(store: Store, table: byte): nat {
    if table in store.pages then |store.pages[table]| else DEFAULT_PAGE
  }

  predicate IsWrite(request: seq<byte>) {
    |request| >= 7 && request[0] == WRITE
  }

  predicate Fits(store: Store, request: seq<byte>)
    requires |request| >= 7
  {
    Offset(request) + |Data(request)| <= Capacity(store, Table(request))
  }

  /** The request writes this byte. */
  predicate Covers(initial: Store, request: seq<byte>, table: byte, at: nat) {
    && IsWrite(request)
    && Table(request) == table
    && Fits(initial, request)
    && Offset(request) <= at < Offset(request) + |Data(request)|
  }

  /** What a plain memory would hold: the byte of the last write that covers it, else the initial byte. */
  function Recall(initial: Store, requests: seq<seq<byte>>, table: byte, at: nat): byte {
    if requests == [] then Peek(initial, table, at)
    else
      var last := requests[|requests| - 1];
      if Covers(initial, last, table, at) then Data(last)[at - Offset(last)]
      else Recall(initial, requests[..|requests| - 1], table, at)
  }

  lemma OnlyWritesMatter(cfg: Config, store: Store, request: seq<byte>)
    ensures HandleRequest(cfg, store, request).store ==
      if IsWrite(request) then CanWrite(store, request) else store
  {
    hide BuildResponse, CanRead, CrcCheck, CanWrite;
  }

  /** One request: only a write changes anything; it changes its own range of its own table or nothing. */
  lemma RequestEffect(cfg: Config, store: Store, request: seq<byte>, table: byte, at: nat)
    ensures var after := HandleRequest(cfg, store, request).store;
      && Peek(after, table, at) ==
         (if Covers(store, request, table, at) then Data(request)[at - Offset(request)] else Peek(store, table, at))
      && (table in after.pages <==> table in store.pages || (IsWrite(request) && Table(request) == table))
      && Capacity(after, table) == Capacity(store, table)
      && (after.modified <==> store.modified || Modifies(store, request))
      && (!IsWrite(request) ==> after == store)
  {
    OnlyWritesMatter(cfg, store, request);
    if IsWrite(request) {
      hide HandleRequest;
      WriteEffect(store, request, table, at);
    }
  }

  lemma WriteEffect(store: Store, request: seq<byte>, table: byte, at: nat)
    requires IsWrite(request)
    ensures var after := CanWrite(store, request);
      && Peek(after, table, at) ==
         (if Covers(store, request, table, at) then Data(request)[at - Offset(request)] else Peek(store, table, at))
      && (table in after.pages <==> table in store.pages || Table(request) == table)
      && Capacity(after, table) == Capacity(store, table)
      && (after.modified <==> store.modified || Modifies(store, request))
  {
    hide Patch, Data, Offset, Table;
    if Table(request) == table {
      var page := if table in store.pages then store.pages[table] else Zeros(DEFAULT_PAGE);
      assert CanWrite(store, request).pages[table] == Patch(page, Offset(request), Data(request));
      if at < |page| {
        PatchAt(page, Offset(request), Data(request), at);
      }
    }
  }

  predicate Modifies(store: Store, request: seq<byte>) {
    IsWrite(request) && (Fits(store, request) || Table(request) !in store.pages)
  }

  predicate WritesTable(requests: seq<seq<byte>>, table: byte) {
    exists i :: 0 <= i < |requests| && IsWrite(requests[i]) && Table(requests[i]) == table
  }

  lemma WritesTableSplits(front: seq<seq<byte>>, last: seq<byte>, table: byte)
    ensures WritesTable(front + [last], table) <==>
      WritesTable(front, table) || (IsWrite(last) && Table(last) == table)
  {
    var all := front + [last];
    assert all[|front|] == last;
    assert forall i :: 0 <= i < |front| ==> all[i] == front[i];
  }

  /** Over every run the store is the plain memory; pages appear only where written and never change size. */
  lemma {:induction false} StoreIsMemory(cfg: Config, initial: Store, requests: seq<seq<byte>>, table: byte, at: nat)
    ensures var final := Run(cfg, initial, requests);
      && Peek(final, table, at) == Recall(initial, requests, table, at)
      && Capacity(final, table) == Capacity(initial, table)
      && (table in final.pages <==> table in initial.pages || WritesTable(requests, table))
  {
    if requests != [] {
      var n := |requests| - 1;
      var front, last := requests[..n], requests[n];
      assert requests == front + [last];
      var before := Run(cfg, initial, front);
      StoreIsMemory(cfg, initial, front, table, at);
      assert Covers(before, last, table, at) == Covers(initial, last, table, at);
      assert Recall(initial, requests, table, at) ==
        if Covers(initial, last, table, at) then Data(last)[at - Offset(last)] else Recall(initial, front, table, at);
      hide HandleRequest, Recall, Peek, Capacity, Covers, IsWrite, Table, Data, Offset, WritesTable, Modifies;
      RequestEffect(cfg, before, last, table, at);
      WritesTableSplits(front, last, table);
    }
  }

  lemma {:induction false} RunSplits(cfg: Config, store: Store, a: seq<seq<byte>>, b: seq<seq<byte>>)
    ensures Run(cfg, store, a + b) == Run(cfg, Run(cfg, store, a), b)
    decreases |b|
  {
    hide HandleRequest;
    if b == [] {
      assert a + b == a;
    } else {
      var n := |b| - 1;
      assert (a + b)[..|a + b| - 1] == a + b[..n];
      RunSplits(cfg, store, a, b[..n]);
    }
  }

  // --- The modified flag

  lemma UnmodifiedRequest(cfg: Config, store: Store, request: seq<byte>)
    requires !Modifies(store, request)
    ensures HandleRequest(cfg, store, request).store == store
  {
    OnlyWritesMatter(cfg, store, request);
    hide HandleRequest;
    if IsWrite(request) {
      assert CanWrite(store, request).pages == store.pages;
    }
  }

  lemma FlagEffect(cfg: Config, store: Store, request: seq<byte>)
    ensures HandleRequest(cfg, store, request).store.modified <==> store.modified || Modifies(store, request)
  {
    RequestEffect(cfg, store, request, 0, 0);
  }

  ghost predicate AnyModifies(initial: Store, requests: seq<seq<byte>>) {
    exists i :: 0 <= i < |requests| && Modifies(initial, requests[i])
  }

  lemma AnyModifiesSplits(initial: Store, front: seq<seq<byte>>, last: seq<byte>)
    ensures AnyModifies(initial, front + [last]) <==> AnyModifies(initial, front) || Modifies(initial, last)
  {
    hide Modifies;
    var all := front + [last];
    assert all[|front|] == last;
    assert forall i :: 0 <= i < |front| ==> all[i] == front[i];
  }

  /** The flag is up exactly when some request of the run was a write that fits its page or named a new table;
      while it is down the store is the initial store. */
  lemma {:induction false} ModifiedExactly(cfg: Config, initial: Store, requests: seq<seq<byte>>)
    ensures var final := Run(cfg, initial, requests);
      && (final.modified <==> initial.modified || AnyModifies(initial, requests))
      && (!final.modified ==> final == initial)
    decreases |requests|
  {
    if requests != [] {
      hide HandleRequest, Modifies, AnyModifies;
      var n := |requests| - 1;
      var front, last := requests[..n], requests[n];
      assert requests == front + [last];
      var before := Run(cfg, initial, front);
      ModifiedExactly(cfg, initial, front);
      if !Modifies(before, last) {
        UnmodifiedRequest(cfg, before, last);
      }
      FlagEffect(cfg, before, last);
      ModifiesAlike(cfg, initial, front, last);
      AnyModifiesSplits(initial, front, last);
    } else {
      assert !AnyModifies(initial, []);
    }
  }

  /** Until something is modified, a write modifies the current store just when it would have the initial one. */
  lemma ModifiesAlike(cfg: Config, initial: Store, front: seq<seq<byte>>, last: seq<byte>)
    ensures Modifies(initial, last) && !AnyModifies(initial, front) ==> Modifies(Run(cfg, initial, front), last)
    ensures Modifies(Run(cfg, initial, front), last) ==> Modifies(initial, last)
  {
    hide HandleRequest;
    if IsWrite(last) {
      var table := Table(last);
      StoreIsMemory(cfg, initial, front, table, 0);
      if WritesTable(front, table) && table !in initial.pages {
        var i :| 0 <= i < |front| && IsWrite(front[i]) && Table(front[i]) == table;
        assert Modifies(initial, front[i]);
      }
    }
  }

  // --- Reading back

  predicate Shadowed(table: byte) {
    table == TABLE_SIGNATURE || table == TABLE_VERSION || table == TABLE_OUTPC
  }

  function MemoryBytes(store: Store, table: byte, offset: nat, count: nat): (s: seq<byte>)
    ensures |s| == count && forall i :: 0 <= i < count ==> s[i] == Peek(store, table, offset + i)
  {
    seq<byte>(count, i requires 0 <= i < count => Peek(store, table, offset + i))
  }

  /** How many bytes a read of this range yields: pages cut it short, a table without a page does not. */
  function ReadLength(store: Store, table: byte, offset: nat, count: nat): nat {
    if table !in store.pages then count
    else if offset + count <= |store.pages[table]| then count
    else if offset <= |store.pages[table]| then |store.pages[table]| - offset
    else 0
  }

  /** 'r' and 'k' both speak of the same memory bytes; 'k' never fails, 'r' exactly when they do not fit a frame. */
  lemma ReadAndCheckAgree(cfg: Config, store: Store, request: seq<byte>)
    requires |request| >= 7 && !Shadowed(Table(request))
    ensures var table, offset := Table(request), Offset(request);
      var data := MemoryBytes(store, table, offset, ReadLength(store, table, offset, Count(request)));
      && CrcCheck(store, request) == Reply(Frame([FLAG_OK] + Be32(Checksum(data))))
      && CanRead(cfg, store, request) == if |data| <= 65534 then Reply(Frame([FLAG_OK] + data)) else Raised
  {
    hide Frame, Checksum, Offset, Count, Peek;
    var table, offset, count := Table(request), Offset(request), Count(request);
    var data := MemoryBytes(store, table, offset, ReadLength(store, table, offset, count));
    StoredBytes(store, table, offset, count);
  }

  lemma StoredBytes(store: Store, table: byte, offset: nat, count: nat)
    ensures MemoryBytes(store, table, offset, ReadLength(store, table, offset, count)) ==
      if table in store.pages then Slice(store.pages[table], offset, offset + count) else Zeros(count)
  {
  }

  // --- Uploading a page

  function RangeRequest(cmd: byte, can: byte, table: byte, offset: nat, count: nat): (r: seq<byte>)
    requires offset < 0x1_0000 && count < 0x1_0000
    ensures |r| == 7
  {
    var head: seq<byte> := [cmd, can, table];
    head + Be16(offset) + Be16(count)
  }

  function WriteRequest(can: byte, table: byte, offset: nat, data: seq<byte>): (r: seq<byte>)
    requires offset < 0x1_0000 && |data| < 0x1_0000
    ensures |r| == 7 + |data|
  {
    RangeRequest(WRITE, can, table, offset, |data|) + data
  }

  lemma RequestFields(cmd: byte, can: byte, table: byte, offset: nat, count: nat, data: seq<byte>)
    requires offset < 0x1_0000 && count < 0x1_0000
    ensures var r := RangeRequest(cmd, can, table, offset, count) + data;
      && r[0] == cmd && Table(r) == table && Offset(r) == offset && Count(r) == count
      && (|data| == count ==> Data(r) == data)
  {
    var r := RangeRequest(cmd, can, table, offset, count) + data;
    assert r[3..5] == Be16(offset);
    assert r[5..7] == Be16(count);
    Be16RoundTrip(offset);
    Be16RoundTrip(count);
    if |data| == count {
      assert r[7..7 + count] == data;
    }
  }

  function Joined(chunks: seq<seq<byte>>): seq<byte> {
    if chunks == [] then [] else chunks[0] + Joined(chunks[1..])
  }

  /** Consecutive writes of the chunks, starting at an offset. */
  function Upload(can: byte, table: byte, offset: nat, chunks: seq<seq<byte>>): (rs: seq<seq<byte>>)
    requires offset + |Joined(chunks)| < 0x1_0000
    ensures |rs| == |chunks|
    decreases |chunks|
  {
    if chunks == [] then []
    else [WriteRequest(can, table, offset, chunks[0])] + Upload(can, table, offset + |chunks[0]|, chunks[1..])
  }

  predicate PageIs(store: Store, table: byte, page: seq<byte>) {
    table in store.pages && store.pages[table] == page
  }

  lemma WriteLands(cfg: Config, store: Store, can: byte, table: byte, page: seq<byte>, offset: nat, data: seq<byte>)
    requires PageIs(store, table, page) && offset + |data| <= |page| < 0x1_0000
    ensures PageIs(HandleRequest(cfg, store, WriteRequest(can, table, offset, data)).store,
                   table, Patch(page, offset, data))
  {
    var r := WriteRequest(can, table, offset, data);
    RequestFields(WRITE, can, table, offset, |data|, data);
    OnlyWritesMatter(cfg, store, r);
    hide HandleRequest, Patch;
  }

  lemma {:induction false} UploadLands(cfg: Config, store: Store, can: byte, table: byte, page: seq<byte>,
                                       offset: nat, chunks: seq<seq<byte>>)
    requires PageIs(store, table, page) && offset + |Joined(chunks)| <= |page| < 0x1_0000
    ensures PageIs(Run(cfg, store, Upload(can, table, offset, chunks)), table, Patch(page, offset, Joined(chunks)))
    decreases |chunks|
  {
    hide *;
    if chunks == [] {
      EmptyUpload(cfg, store, can, table, page, offset);
    } else {
      var data, tail := chunks[0], chunks[1..];
      JoinedPatch(page, offset, chunks);
      WriteLands(cfg, store, can, table, page, offset, data);
      var next := HandleRequest(cfg, store, WriteRequest(can, table, offset, data)).store;
      UploadLands(cfg, next, can, table, Patch(page, offset, data), offset + |data|, tail);
      UploadStep(cfg, store, can, table, offset, chunks);
    }
  }

  lemma EmptyUpload(cfg: Config, store: Store, can: byte, table: byte, page: seq<byte>, offset: nat)
    requires PageIs(store, table, page) && offset <= |page| < 0x1_0000
    ensures |Joined([])| == 0
    ensures PageIs(Run(cfg, store, Upload(can, table, offset, [])), table, Patch(page, offset, Joined([])))
  {
    assert Patch(page, offset, []) == page;
  }

  lemma JoinedPatch(page: seq<byte>, offset: nat, chunks: seq<seq<byte>>)
    requires chunks != [] && offset + |Joined(chunks)| <= |page|
    ensures |Joined(chunks)| == |chunks[0]| + |Joined(chunks[1..])|
    ensures Patch(Patch(page, offset, chunks[0]), offset + |chunks[0]|, Joined(chunks[1..])) ==
      Patch(page, offset, Joined(chunks))
  {
    PatchTwice(page, offset, chunks[0], Joined(chunks[1..]));
  }

  lemma UploadStep(cfg: Config, store: Store, can: byte, table: byte, offset: nat, chunks: seq<seq<byte>>)
    requires chunks != [] && offset + |Joined(chunks)| < 0x1_0000
    ensures Run(cfg, store, Upload(can, table, offset, chunks)) ==
      Run(cfg, HandleRequest(cfg, store, WriteRequest(can, table, offset, chunks[0])).store,
          Upload(can, table, offset + |chunks[0]|, chunks[1..]))
  {
    hide HandleRequest;
    var r := WriteRequest(can, table, offset, chunks[0]);
    RunSplits(cfg, store, [r], Upload(can, table, offset + |chunks[0]|, chunks[1..]));
    RunOne(cfg, store, r);
  }

  lemma RunOne(cfg: Config, store: Store, r: seq<byte>)
    ensures Run(cfg, store, [r]) == HandleRequest(cfg, store, r).store
  {
    assert Run(cfg, store, [r][..0]) == store;
  }

  /** Writing any image of a page in any consecutive chunks makes a full read return it and a full check confirm it. */
  lemma PageSynchronised(cfg: Config, store: Store, can: byte, table: byte, chunks: seq<seq<byte>>)
    requires table in store.pages && !Shadowed(table)
    requires |Joined(chunks)| == |store.pages[table]| <= 65534
    ensures var image := Joined(chunks);
      var final := Run(cfg, store, Upload(can, table, 0, chunks));
      && HandleRequest(cfg, final, RangeRequest(READ, can, table, 0, |image|)).outcome
         == Reply(Frame([FLAG_OK] + image))
      && HandleRequest(cfg, final, RangeRequest(CHECK, can, table, 0, |image|)).outcome
         == Reply(Frame([FLAG_OK] + Be32(Checksum(image))))
  {
    var image := Joined(chunks);
    var final := Run(cfg, store, Upload(can, table, 0, chunks));
    UploadLands(cfg, store, can, table, store.pages[table], 0, chunks);
    assert final.pages[table] == image;
    FullRange(cfg, final, can, table, image);
  }

  lemma FullRange(cfg: Config, store: Store, can: byte, table: byte, image: seq<byte>)
    requires table in store.pages && !Shadowed(table) && store.pages[table] == image && |image| <= 65534
    ensures HandleRequest(cfg, store, RangeRequest(READ, can, table, 0, |image|)).outcome
         == Reply(Frame([FLAG_OK] + image))
    ensures HandleRequest(cfg, store, RangeRequest(CHECK, can, table, 0, |image|)).outcome
         == Reply(Frame([FLAG_OK] + Be32(Checksum(image))))
  {
    hide Frame, Checksum, BuildResponse;
    var n := |image|;
    assert MemoryBytes(store, table, 0, ReadLength(store, table, 0, n)) == image;
    RangeReply(cfg, store, READ, can, table, 0, n);
    RangeReply(cfg, store, CHECK, can, table, 0, n);
  }

  lemma RangeReply(cfg: Config, store: Store, cmd: byte, can: byte, table: byte, offset: nat, count: nat)
    requires cmd == READ || cmd == CHECK
    requires offset < 0x1_0000 && count < 0x1_0000 && !Shadowed(table)
    ensures var data := MemoryBytes(store, table, offset, ReadLength(store, table, offset, count));
      HandleRequest(cfg, store, RangeRequest(cmd, can, table, offset, count)).outcome ==
        if cmd == CHECK then Reply(Frame([FLAG_OK] + Be32(Checksum(data))))
        else if |data| <= 65534 then Reply(Frame([FLAG_OK] + data)) else Raised
  {
    var r := RangeRequest(cmd, can, table, offset, count);
    RequestFields(cmd, can, table, offset, count, []);
    assert r + [] == r;
    RangeHandled(cfg, store, r);
    hide *;
    ReadAndCheckAgree(cfg, store, r);
  }

  lemma RangeHandled(cfg: Config, store: Store, r: seq<byte>)
    requires |r| >= 7 && (r[0] == READ || r[0] == CHECK)
    ensures HandleRequest(cfg, store, r).outcome ==
      if r[0] == READ then CanRead(cfg, store, r) else CrcCheck(store, r)
  {
    hide CanRead, CrcCheck, BuildResponse;
  }

  /** Asking an absent table for 65535 bytes: the read raises, the check of the same range answers. */
  lemma LongReadRaises(cfg: Config)
    ensures var store := Store(map[], false);
      && HandleRequest(cfg, store, RangeRequest(READ, 0, 0x20, 0, 65535)) == Handled(store, Raised)
      && HandleRequest(cfg, store, RangeRequest(CHECK, 0, 0x20, 0, 65535)).outcome.Reply?
  {
    var store := Store(map[], false);
    RangeReply(cfg, store, READ, 0, 0x20, 0, 65535);
    RangeReply(cfg, store, CHECK, 0, 0x20, 0, 65535);
    OnlyWritesMatter(cfg, store, RangeRequest(READ, 0, 0x20, 0, 65535));
    hide HandleRequest, Frame, Checksum;
  }
}
