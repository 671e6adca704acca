/** The ECU's commands by the bytes of request and reply. */
module WireCommands {
  import opened Bytes
  import opened Crc32
  import opened Framing
  import opened PageStore
  import Protocol

  /** These are the bytes a range of a source selects: past its end there are none. */
  predicate Window(source: seq<byte>, offset: nat, count: nat, data: seq<byte>) {
    && |data| == (if offset + count <= |source| then count else if offset <= |source| then |source| - offset else 0)
    && forall i :: 0 <= i < |data| ==> data[i] == source[offset + i]
  }

  /** A reply of a flag and data, if the length fits the frame. */
  function Answer(flag: byte, data: seq<byte>): Outcome {
    if |data| <= 65534 then Reply(Frame([flag] + data)) else Raised
  }

  /** The request reads a range of this table: the letter, the table, and two numbers, high byte first. */
  predicate Reads(r: seq<byte>, table: byte, offset: nat, count: nat) {
    && |r| >= 7 && r[0] == 0x72 && r[2] == table
    && offset == r[3] as int * 256 + r[4] && count == r[5] as int * 256 + r[6]
  }

  lemma SliceIsWindow(source: seq<byte>, offset: nat, count: nat)
    ensures Window(source, offset, count, Slice(source, offset, offset + count))
  {
  }

  lemma RangeFields(r: seq<byte>)
    requires |r| >= 7
    ensures Offset(r) == r[3] as int * 256 + r[4] && Count(r) == r[5] as int * 256 + r[6]
  {
  }

  lemma ReadHandled(cfg: Config, store: Store, r: seq<byte>)
    requires |r| >= 7 && r[0] == 0x72
    ensures HandleRequest(cfg, store, r) == Handled(store, CanRead(cfg, store, r))
  {
    hide CanRead, CanWrite, CrcCheck, BuildResponse;
  }

  lemma BuildAnswers(flag: byte, data: seq<byte>)
    ensures BuildResponse(flag, data) == Answer(flag, data)
  {
    hide Frame;
  }

  /** A read's flag and data, table by table. */
  lemma ReadAnswers(cfg: Config, store: Store, r: seq<byte>, table: byte, offset: nat, count: nat)
    requires Reads(r, table, offset, count)
    ensures HandleRequest(cfg, store, r).store == store
    ensures HandleRequest(cfg, store, r).outcome ==
      if table == 0x0F then Answer(0x00, Slice(Padded(cfg.signature + [0], 20), offset, offset + count))
      else if table == 0x0E then Answer(0x00, Slice(Padded(cfg.signature + [0], 60), offset, offset + count))
      else if table == 0x07 then Answer(0x01, Slice(cfg.outpc, offset, offset + count))
      else
        Answer(0x00, if table in store.pages then Slice(store.pages[table], offset, offset + count) else Zeros(count))
  {
    assert |r| >= 7 && r[0] == 0x72 && r[2] == table;
    ReadFields(r, table, offset, count);
    hide *;
    ReadHandled(cfg, store, r);
    ReadByTable(cfg, store, r, table, offset, count);
  }

  lemma ReadFields(r: seq<byte>, table: byte, offset: nat, count: nat)
    requires Reads(r, table, offset, count)
    ensures Table(r) == table && Offset(r) == offset && Count(r) == count
  {
    RangeFields(r);
  }

  lemma ReadByTable(cfg: Config, store: Store, r: seq<byte>, table: byte, offset: nat, count: nat)
    requires |r| >= 7 && Table(r) == table && Offset(r) == offset && Count(r) == count
    ensures CanRead(cfg, store, r) ==
      if table == 0x0F then Answer(0x00, Slice(Padded(cfg.signature + [0], 20), offset, offset + count))
      else if table == 0x0E then Answer(0x00, Slice(Padded(cfg.signature + [0], 60), offset, offset + count))
      else if table == 0x07 then Answer(0x01, Slice(cfg.outpc, offset, offset + count))
      else
        Answer(0x00, if table in store.pages then Slice(store.pages[table], offset, offset + count) else Zeros(count))
  {
    hide Slice, Padded, Zeros, Answer, BuildResponse, Table, Offset, Count;
    forall flag, data
      ensures BuildResponse(flag, data) == Answer(flag, data)
    {
      BuildAnswers(flag, data);
    }
  }

  /** Table 0x07 is the realtime block, whatever the pages hold. */
  lemma RealtimeRead(cfg: Config, r: seq<byte>, offset: nat, count: nat) returns (data: seq<byte>)
    requires Reads(r, 0x07, offset, count)
    ensures Window(cfg.outpc, offset, count, data)
    ensures forall store :: HandleRequest(cfg, store, r) == Handled(store, Answer(0x01, data))
  {
    data := Slice(cfg.outpc, offset, offset + count);
    SliceIsWindow(cfg.outpc, offset, count);
    forall store
      ensures HandleRequest(cfg, store, r) == Handled(store, Answer(0x01, data))
    {
      hide *;
      ReadAnswers(cfg, store, r, 0x07, offset, count);
    }
  }

  /** The signature, a zero, and zeros up to a width. */
  predicate IsText(cfg: Config, width: nat, text: seq<byte>) {
    && |text| == (if |cfg.signature| + 1 < width then width else |cfg.signature| + 1)
    && forall i :: 0 <= i < |text| ==> text[i] == if i < |cfg.signature| then cfg.signature[i] else 0
  }

  lemma PaddedIsText(cfg: Config, width: nat)
    ensures IsText(cfg, width, Padded(cfg.signature + [0], width))
  {
  }

  /** Tables 0x0F and 0x0E are the signature in 20 and 60 bytes, whatever the pages hold. */
  lemma SignatureRead(cfg: Config, r: seq<byte>, offset: nat, count: nat) returns (text: seq<byte>, data: seq<byte>)
    requires Reads(r, 0x0F, offset, count) || Reads(r, 0x0E, offset, count)
    ensures IsText(cfg, if r[2] == 0x0F then 20 else 60, text) && Window(text, offset, count, data)
    ensures forall store :: HandleRequest(cfg, store, r) == Handled(store, Answer(0x00, data))
  {
    var width := if r[2] == 0x0F then 20 else 60;
    text := Padded(cfg.signature + [0], width);
    data := Slice(text, offset, offset + count);
    PaddedIsText(cfg, width);
    SliceIsWindow(text, offset, count);
    forall store
      ensures HandleRequest(cfg, store, r) == Handled(store, Answer(0x00, data))
    {
      hide *;
      ReadAnswers(cfg, store, r, r[2], offset, count);
    }
  }

  /** Any other table is its page, or zeros if it has none. */
  lemma PageRead(cfg: Config, store: Store, r: seq<byte>, table: byte, offset: nat, count: nat)
    returns (data: seq<byte>)
    requires Reads(r, table, offset, count) && table != 0x07 && table != 0x0E && table != 0x0F
    ensures if table in store.pages then Window(store.pages[table], offset, count, data)
            else |data| == count && forall i :: 0 <= i < count ==> data[i] == 0
    ensures HandleRequest(cfg, store, r) == Handled(store, Answer(0x00, data))
  {
    data := if table in store.pages then Slice(store.pages[table], offset, offset + count) else Zeros(count);
    if table in store.pages {
      SliceIsWindow(store.pages[table], offset, count);
    }
    hide *;
    ReadAnswers(cfg, store, r, table, offset, count);
  }

  /** So a write is never seen by a read of one of the three tables. */
  lemma ShadowedIgnoresWrites(cfg: Config, store: Store, requests: seq<seq<byte>>, r: seq<byte>)
    requires |r| >= 7 && r[0] == 0x72 && (r[2] == 0x07 || r[2] == 0x0E || r[2] == 0x0F)
    ensures HandleRequest(cfg, Run(cfg, store, requests), r).outcome == HandleRequest(cfg, store, r).outcome
  {
    hide HandleRequest, Run;
    var offset, count := r[3] as int * 256 + r[4], r[5] as int * 256 + r[6];
    if r[2] == 0x07 {
      var data := RealtimeRead(cfg, r, offset, count);
    } else {
      var text, data := SignatureRead(cfg, r, offset, count);
    }
  }

  /** The bytes a write carries: those behind the seventh, up to its count. */
  function Carried(r: seq<byte>): (n: nat)
    requires |r| >= 7
  {
    var count := r[5] as int * 256 + r[6];
    if count <= |r| - 7 then count else |r| - 7
  }

  /** The request writes so many bytes at this offset. */
  predicate IsWriteOf(r: seq<byte>, offset: nat, n: nat) {
    |r| >= 7 && r[0] == 0x77 && offset == r[3] as int * 256 + r[4] && n == Carried(r)
  }

  /** A write puts its bytes at its offset of its table, a new page having 1024 zeros, or nothing if they do not fit;
      the reply is empty all the same. */
  lemma Writes(cfg: Config, store: Store, r: seq<byte>, offset: nat, n: nat, table: byte, at: nat)
    requires IsWriteOf(r, offset, n)
    ensures 7 + n <= |r| && HandleRequest(cfg, store, r).outcome == Reply(Frame([0x00]))
    ensures var after := HandleRequest(cfg, store, r).store;
      var size := if r[2] in store.pages then |store.pages[r[2]]| else 1024;
      && after.pages.Keys == store.pages.Keys + {r[2]} && |after.pages[r[2]]| == size
      && (table in store.pages && table != r[2] ==> after.pages[table] == store.pages[table])
      && (at < size ==>
            after.pages[r[2]][at] ==
              if offset + n <= size && offset <= at < offset + n then r[7 + (at - offset)]
              else if r[2] in store.pages then store.pages[r[2]][at] else 0)
      && (after.modified <==> store.modified || r[2] !in store.pages || offset + n <= size)
  {
    WriteFields(r, offset, n);
    hide *;
    WriteAnswered(cfg, store, r);
    WriteStores(store, r, table, at, offset, n);
  }

  lemma WriteFields(r: seq<byte>, offset: nat, n: nat)
    requires IsWriteOf(r, offset, n)
    ensures |r| >= 7 && r[0] == 0x77 && 7 + n <= |r|
    ensures Offset(r) == offset && |Data(r)| == n && forall i :: 0 <= i < n ==> Data(r)[i] == r[7 + i]
  {
    RangeFields(r);
    CarriedData(r);
    hide Data, Offset;
  }

  lemma WriteStores(store: Store, r: seq<byte>, table: byte, at: nat, offset: nat, n: nat)
    requires |r| >= 7 && Offset(r) == offset && |Data(r)| == n && 7 + n <= |r|
    requires forall i :: 0 <= i < n ==> Data(r)[i] == r[7 + i]
    ensures var after := CanWrite(store, r);
      var size := if r[2] in store.pages then |store.pages[r[2]]| else 1024;
      && after.pages.Keys == store.pages.Keys + {r[2]} && |after.pages[r[2]]| == size
      && (table in store.pages && table != r[2] ==> after.pages[table] == store.pages[table])
      && (at < size ==>
            after.pages[r[2]][at] ==
              if offset + n <= size && offset <= at < offset + n then r[7 + (at - offset)]
              else if r[2] in store.pages then store.pages[r[2]][at] else 0)
      && (after.modified <==> store.modified || r[2] !in store.pages || offset + n <= size)
  {
    var page := if r[2] in store.pages then store.pages[r[2]] else Zeros(1024);
    hide Patch, Data, Offset, Zeros;
    WriteKeys(store, r, page);
    if at < |page| {
      PatchAt(page, offset, Data(r), at);
    }
  }

  lemma WriteKeys(store: Store, r: seq<byte>, page: seq<byte>)
    requires |r| >= 7 && page == if r[2] in store.pages then store.pages[r[2]] else Zeros(1024)
    ensures var after := CanWrite(store, r);
      && after.pages == store.pages[r[2] := Patch(page, Offset(r), Data(r))]
      && after.pages.Keys == store.pages.Keys + {r[2]}
      && (after.modified <==> store.modified || r[2] !in store.pages || Offset(r) + |Data(r)| <= |page|)
  {
    hide Patch, Data, Offset, Zeros;
  }

  lemma WriteAnswered(cfg: Config, store: Store, r: seq<byte>)
    requires |r| >= 7 && r[0] == 0x77
    ensures HandleRequest(cfg, store, r) == Handled(CanWrite(store, r), Reply(Frame([0x00])))
  {
    hide Frame, CanRead, CanWrite, CrcCheck;
    var none: seq<byte> := [];
    assert [FLAG_OK] + none == [0x00];
  }

  lemma CarriedData(r: seq<byte>)
    requires |r| >= 7
    ensures |Data(r)| == Carried(r) && forall i :: 0 <= i < Carried(r) ==> Data(r)[i] == r[7 + i]
  {
    RangeFields(r);
    hide FromBe16;
  }

  /** A check answers with the checksum, high byte first, of the bytes its range selects of the page, or of so many
      zeros. */
  lemma Checks(cfg: Config, store: Store, r: seq<byte>, offset: nat, count: nat) returns (data: seq<byte>)
    requires |r| >= 7 && r[0] == 0x6B
    requires offset == r[3] as int * 256 + r[4] && count == r[5] as int * 256 + r[6]
    ensures if r[2] in store.pages then Window(store.pages[r[2]], offset, count, data)
            else |data| == count && forall i :: 0 <= i < count ==> data[i] == 0
    ensures HandleRequest(cfg, store, r) == Handled(store, Reply(Frame([0x00] + Be32(Checksum(data)))))
  {
    data := if r[2] in store.pages then Slice(store.pages[r[2]], offset, offset + count) else Zeros(count);
    if r[2] in store.pages {
      SliceIsWindow(store.pages[r[2]], offset, count);
    }
    RangeFields(r);
    hide *;
    CheckHandled(cfg, store, r);
    CheckAnswered(store, r, offset, count);
  }

  lemma CheckHandled(cfg: Config, store: Store, r: seq<byte>)
    requires |r| >= 7 && r[0] == 0x6B
    ensures HandleRequest(cfg, store, r) == Handled(store, CrcCheck(store, r))
  {
    hide CanRead, CanWrite, CrcCheck, BuildResponse;
  }

  lemma CheckAnswered(store: Store, r: seq<byte>, offset: nat, count: nat)
    requires |r| >= 7 && Offset(r) == offset && Count(r) == count
    ensures var data := if r[2] in store.pages then Slice(store.pages[r[2]], offset, offset + count) else Zeros(count);
      CrcCheck(store, r) == Reply(Frame([0x00] + Be32(Checksum(data))))
  {
    hide Slice, Zeros, Frame, Checksum, Offset, Count;
  }

  /** The queries, the burn command, and everything else. */
  lemma OtherCommands(cfg: Config, store: Store, r: seq<byte>)
    requires r != []
    ensures r[0] == 0x51 || r[0] == 0x53 ==>
      HandleRequest(cfg, store, r) == Handled(store, Answer(0x00, cfg.signature + [0]))
    ensures r[0] == 0x41 ==> HandleRequest(cfg, store, r) == Handled(store, Answer(0x01, cfg.outpc))
    ensures r[0] == 0x62 && |r| >= 3 ==> HandleRequest(cfg, store, r) == Handled(store, Answer(0x00, []))
    ensures (r[0] == 0x62 && |r| < 3) || ((r[0] == 0x72 || r[0] == 0x77 || r[0] == 0x6B) && |r| < 7)
            || (r[0] != 0x51 && r[0] != 0x53 && r[0] != 0x41 && r[0] != 0x62
                && r[0] != 0x72 && r[0] != 0x77 && r[0] != 0x6B)
         ==> HandleRequest(cfg, store, r) == Handled(store, Answer(0x83, []))
  {
    hide Frame, CanRead, CanWrite, CrcCheck;
  }

  /** Reading two bytes of the realtime block. */
  lemma RealtimeReadOfTwo(store: Store)
    ensures HandleRequest(Config([0x4D], [], [7, 8]), store, [0x72, 0, 7, 0, 0, 0, 2]).outcome ==
      Reply(Frame([1, 7, 8]))
  {
    var cfg, r: seq<byte> := Config([0x4D], [], [7, 8]), [0x72, 0, 7, 0, 0, 0, 2];
    hide HandleRequest, Frame;
    var data := RealtimeRead(cfg, r, 0, 2);
    assert data == [7, 8];
    assert [1] + data == [1, 7, 8];
  }

  /** An unframed 'F' is answered with the version's bytes as they are, and a payload as the request it is. */
  lemma CommandsAnswered(cfg: Config, store: Store, payload: seq<byte>)
    ensures Protocol.Respond(cfg, store, Version) == Handled(store, Reply(cfg.version))
    ensures Protocol.Respond(cfg, store, Request(payload)) == HandleRequest(cfg, store, payload)
  {
    hide HandleRequest;
  }
}
