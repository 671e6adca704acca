/** The file that keeps the configuration pages between two runs of the simulator. */
module PageFile {
  import opened Bytes
  import opened PageStore

  const MAGIC: seq<byte> := [0x4D, 0x53, 0x32, 0x50]  // "MS2P"
  const FORMAT_VERSION := 1

  // --- Writing

  function EncodePage(id: byte, data: seq<byte>): (s: seq<byte>)
    requires |data| < 0x1_0000
    ensures |s| == 3 + |data|
  {
    [id] + Be16(|data|) + data
  }

  predicate Storable(m: pages) {
    forall id :: id in m ==> |m[id]| < 0x1_0000
  }

  /** The table ids from k up, in the order `sorted` gives them. */
  function IdsFrom(m: pages, k: nat): (ids: seq<byte>)
    requires k <= 256
    decreases 256 - k
  {
    if k == 256 then []
    else if k in m then [k] + IdsFrom(m, k + 1)
    else IdsFrom(m, k + 1)
  }

  predicate Listed(m: pages, ids: seq<byte>) {
    forall id :: id in ids ==> id in m
  }

  lemma {:induction false} IdsListed(m: pages, k: nat)
    requires k <= 256
    ensures forall id :: id in IdsFrom(m, k) <==> id in m && k <= id
    decreases 256 - k
  {
    if k < 256 {
      IdsListed(m, k + 1);
    }
  }

  /** They are all the ids, ascending. */
  lemma {:induction false} IdsAscend(m: pages, k: nat)
    requires k <= 256
    ensures forall id :: id in IdsFrom(m, k) <==> id in m && k <= id
    ensures forall i, j :: 0 <= i < j < |IdsFrom(m, k)| ==> IdsFrom(m, k)[i] < IdsFrom(m, k)[j]
    decreases 256 - k
  {
    IdsListed(m, k);
    if k < 256 {
      IdsAscend(m, k + 1);
      IdsListed(m, k + 1);
      var rest := IdsFrom(m, k + 1);
      assert forall j :: 0 <= j < |rest| ==> rest[j] in rest;
    }
  }

  function EncodePages(m: pages, ids: seq<byte>): seq<byte>
    requires Storable(m) && Listed(m, ids)
  {
    if ids == [] then [] else EncodePage(ids[0], m[ids[0]]) + EncodePages(m, ids[1..])
  }

  function KeysFrom(m: pages, k: int): set<byte> {
    set id | id in m && k <= id
  }

  lemma {:induction false} IdsCount(m: pages, k: nat)
    requires k <= 256
    ensures |IdsFrom(m, k)| == |KeysFrom(m, k)|
    decreases 256 - k
  {
    if k == 256 {
      assert KeysFrom(m, k) == {};
    } else {
      IdsCount(m, k + 1);
      if k in m {
        var id: byte := k;
        assert KeysFrom(m, k) == KeysFrom(m, k + 1) + {id};
        assert id !in KeysFrom(m, k + 1);
      } else {
        assert KeysFrom(m, k) == KeysFrom(m, k + 1);
      }
    }
  }

  lemma AllIds(m: pages)
    ensures |IdsFrom(m, 0)| == |m| <= 256
    ensures Listed(m, IdsFrom(m, 0))
  {
    IdsListed(m, 0);
    IdsCount(m, 0);
    assert KeysFrom(m, 0) == m.Keys;
    IdsBounded(m, 0);
  }

  lemma {:induction false} IdsBounded(m: pages, k: nat)
    requires k <= 256
    ensures |IdsFrom(m, k)| <= 256 - k
    decreases 256 - k
  {
    if k < 256 {
      IdsBounded(m, k + 1);
    }
  }

  function Header(n: nat): (s: seq<byte>)
    requires n <= 256
    ensures |s| == 12
  {
    MAGIC + Be32(FORMAT_VERSION) + Be32(n)
  }

  /** The file's contents; a page too long for its two-byte size raises `struct.error` instead. */
  function Save(m: pages): Option<seq<byte>> {
    if Storable(m) then
      AllIds(m);
      Some(Header(|m|) + EncodePages(m, IdsFrom(m, 0)))
    else None
  }

  // --- Reading

  function DecodePages(s: seq<byte>, n: nat, acc: pages): Option<pages> {
    if n == 0 then Some(acc)
    else if |s| < 3 then None
    else
      var size := FromBe16(s[1..3]);
      if |s| < 3 + size then None
      else DecodePages(s[3 + size..], n - 1, acc[s[0] := s[3..3 + size]])
  }

  /** `load_pages_from_file`; bytes after the last page are not looked at. */
  function Load(file: seq<byte>): Option<pages> {
    if |file| < 4 || file[..4] != MAGIC then None
    else if |file| < 8 || FromBe32(file[4..8]) != FORMAT_VERSION then None
    else if |file| < 12 then None
    else DecodePages(file[12..], FromBe32(file[8..12]), map[])
  }

  // --- The loops

  lemma {:induction false} EncodeOneMore(m: pages, ids: seq<byte>, id: byte)
    requires Storable(m) && id in m && Listed(m, ids)
    ensures EncodePages(m, ids + [id]) == EncodePages(m, ids) + EncodePage(id, m[id])
    decreases |ids|
  {
    if ids == [] {
      assert ids + [id] == [id];
      assert EncodePages(m, [id]) == EncodePage(id, m[id]) + EncodePages(m, []);
    } else {
      assert (ids + [id])[1..] == ids[1..] + [id];
      EncodeOneMore(m, ids[1..], id);
    }
  }

  /** `save_pages_to_file`; `None` when `struct.error` escapes at the first page that is too long. */
  method SavePagesToFile(m: pages) returns (saved: Option<seq<byte>>)
    ensures saved == Save(m)
  {
    var ids := IdsFrom(m, 0);
    var file := SaveStart(m, ids);
    hide *;
    var i := 0;
    while i < |ids|
      invariant 0 <= i <= |ids|
      invariant Written(m, ids, i, file)
    {
      PageListed(m, ids, i, file);
      var data := m[ids[i]];
      if |data| >= 0x1_0000 {
        PageTooLong(m, ids[i]);
        return None;
      }
      PageWritten(m, ids, i, file);
      file := file + [ids[i]];
      file := file + Be16(|data|);
      file := file + data;
      i := i + 1;
    }
    AllWritten(m, ids, file);
    saved := Some(file);
  }

  /** The pages before the i-th fit and, if all do, are in the file. */
  ghost predicate Written(m: pages, ids: seq<byte>, i: nat, file: seq<byte>) {
    && ids == IdsFrom(m, 0) && Listed(m, ids) && |ids| == |m| <= 256 && i <= |ids|
    && (forall j :: 0 <= j < i ==> |m[ids[j]]| < 0x1_0000)
    && (Storable(m) ==> file == Header(|m|) + EncodePages(m, ids[..i]))
  }

  method SaveStart(m: pages, ids: seq<byte>) returns (file: seq<byte>)
    requires ids == IdsFrom(m, 0)
    ensures Written(m, ids, 0, file)
  {
    AllIds(m);
    file := Header(|m|);
    hide IdsFrom, Header;
    assert file + [] == file;
  }

  lemma PageListed(m: pages, ids: seq<byte>, i: nat, file: seq<byte>)
    requires Written(m, ids, i, file) && i < |ids|
    ensures ids[i] in m
  {
    hide EncodePages, Header, IdsFrom;
  }

  lemma PageTooLong(m: pages, id: byte)
    requires id in m && |m[id]| >= 0x1_0000
    ensures Save(m) == None
  {
  }

  lemma PageWritten(m: pages, ids: seq<byte>, i: nat, file: seq<byte>)
    requires Written(m, ids, i, file) && i < |ids| && ids[i] in m && |m[ids[i]]| < 0x1_0000
    ensures Written(m, ids, i + 1, file + [ids[i]] + Be16(|m[ids[i]]|) + m[ids[i]])
  {
    hide IdsFrom, Header, EncodePages;
    if Storable(m) {
      assert ids[..i + 1] == ids[..i] + [ids[i]];
      EncodeOneMore(m, ids[..i], ids[i]);
    }
  }

  lemma AllWritten(m: pages, ids: seq<byte>, file: seq<byte>)
    requires Written(m, ids, |ids|, file)
    ensures Save(m) == Some(file)
  {
    IdsListed(m, 0);
    hide IdsFrom, Header, EncodePages;
    assert ids[..|ids|] == ids;
    forall id | id in m
      ensures |m[id]| < 0x1_0000
    {
      assert id in ids;
    }
  }

  method LoadPagesFromFile(file: seq<byte>) returns (r: Option<pages>)
    ensures r == Load(file)
  {
    if Slice(file, 0, 4) != MAGIC {
      return None;
    }
    var version := Slice(file, 4, 8);
    if |version| < 4 || FromBe32(version) != FORMAT_VERSION {
      return None;
    }
    var count := Slice(file, 8, 12);
    if |count| < 4 {
      return None;
    }
    LoadHeader(file);
    r := ReadPages(file, 12, FromBe32(count));
  }

  method ReadPages(file: seq<byte>, start: nat, count: nat) returns (r: Option<pages>)
    requires start <= |file|
    ensures r == DecodePages(file[start..], count, map[])
  {
    hide *;
    var at, n := start, count;
    var found: pages := map[];
    ghost var wanted := DecodePages(file[start..], count, map[]);
    while n > 0
      invariant start <= at <= |file| && n >= 0
      invariant wanted == DecodePages(file[at..], n, found)
      decreases n
    {
      DecodeAt(file, at, n, found);
      if |file| - at < 3 {
        return None;
      }
      var size := FromBe16(file[at + 1..at + 3]);
      var data := Slice(file, at + 3, at + 3 + size);
      if |data| != size {
        return None;
      }
      found := found[file[at] := data];
      at, n := at + 3 + size, n - 1;
    }
    DecodeDone(file[at..], found);
    r := Some(found);
  }

  lemma DecodeDone(s: seq<byte>, acc: pages)
    ensures DecodePages(s, 0, acc) == Some(acc)
  {
  }

  lemma LoadHeader(file: seq<byte>)
    requires |file| >= 12 && file[..4] == MAGIC && FromBe32(file[4..8]) == FORMAT_VERSION
    ensures Load(file) == DecodePages(file[12..], FromBe32(file[8..12]), map[])
  {
    hide DecodePages;
  }

  lemma DecodeAt(file: seq<byte>, at: nat, n: nat, acc: pages)
    requires at <= |file| && n > 0
    ensures |file| - at < 3 ==> DecodePages(file[at..], n, acc) == None
    ensures |file| - at >= 3 ==>
      var size := FromBe16(file[at + 1..at + 3]);
      var data := Slice(file, at + 3, at + 3 + size);
      && (|data| == size <==> at + 3 + size <= |file|)
      && DecodePages(file[at..], n, acc) ==
         if |data| == size then DecodePages(file[at + 3 + size..], n - 1, acc[file[at] := data]) else None
  {
    if |file| - at >= 3 {
      var s := file[at..];
      var size := FromBe16(file[at + 1..at + 3]);
      assert s[1..3] == file[at + 1..at + 3];
      if at + 3 + size <= |file| {
        assert s[3..3 + size] == Slice(file, at + 3, at + 3 + size);
        assert s[3 + size..] == file[at + 3 + size..];
      }
    }
  }

  // --- Round trip and truncation

  lemma DecodeStep(id: byte, data: seq<byte>, later: seq<byte>, n: nat, acc: pages)
    requires |data| < 0x1_0000 && n > 0
    ensures DecodePages(EncodePage(id, data) + later, n, acc) == DecodePages(later, n - 1, acc[id := data])
  {
    var s := EncodePage(id, data) + later;
    Be16RoundTrip(|data|);
    assert s[1..3] == Be16(|data|);
    assert s[3..3 + |data|] == data;
    assert s[3 + |data|..] == later;
  }

  function Part(m: pages, ids: seq<byte>): pages
    requires Listed(m, ids)
  {
    map id | id in ids :: m[id]
  }

  lemma {:induction false} DecodeInverts(m: pages, ids: seq<byte>, later: seq<byte>, acc: pages)
    requires Storable(m) && Listed(m, ids)
    ensures DecodePages(EncodePages(m, ids) + later, |ids|, acc) == Some(acc + Part(m, ids))
    decreases |ids|
  {
    if ids == [] {
      assert acc + Part(m, ids) == acc;
    } else {
      var id := ids[0];
      var tail := EncodePages(m, ids[1..]) + later;
      assert EncodePages(m, ids) + later == EncodePage(id, m[id]) + tail;
      PartStep(m, ids, acc);
      hide *;
      DecodeStep(id, m[id], tail, |ids|, acc);
      DecodeInverts(m, ids[1..], later, acc[id := m[id]]);
    }
  }

  lemma PartStep(m: pages, ids: seq<byte>, acc: pages)
    requires ids != [] && Storable(m) && Listed(m, ids)
    ensures Listed(m, ids[1..]) && ids[0] in m && |m[ids[0]]| < 0x1_0000
    ensures acc[ids[0] := m[ids[0]]] + Part(m, ids[1..]) == acc + Part(m, ids)
  {
  }

  lemma HeaderAccepted(n: nat, body: seq<byte>)
    requires n <= 256
    ensures Load(Header(n) + body) == DecodePages(body, n, map[])
  {
    hide DecodePages;
    var file := Header(n) + body;
    assert file[..4] == MAGIC;
    assert file[4..8] == Be32(FORMAT_VERSION);
    assert file[8..12] == Be32(n);
    assert file[12..] == body;
    Be32RoundTrip(FORMAT_VERSION);
    Be32RoundTrip(n);
  }

  lemma PartIsAll(m: pages)
    requires Listed(m, IdsFrom(m, 0))
    ensures map[] + Part(m, IdsFrom(m, 0)) == m
  {
    IdsListed(m, 0);
  }

  /** Saving succeeds exactly when every page fits, and loading then gives the same pages whatever follows. */
  lemma SaveLoads(m: pages, later: seq<byte>)
    ensures Save(m).Some? <==> Storable(m)
    ensures Storable(m) ==> Load(Save(m).value + later) == Some(m)
  {
    if Storable(m) {
      LoadsWhatWasSaved(m, later);
    }
  }

  lemma SavedParts(m: pages)
    requires Storable(m)
    ensures Listed(m, IdsFrom(m, 0)) && |IdsFrom(m, 0)| == |m| <= 256
    ensures Save(m) == Some(Header(|m|) + EncodePages(m, IdsFrom(m, 0)))
  {
    AllIds(m);
    hide EncodePages, Header, IdsFrom;
  }

  lemma LoadsWhatWasSaved(m: pages, later: seq<byte>)
    requires Storable(m)
    ensures Load(Save(m).value + later) == Some(m)
  {
    SavedParts(m);
    hide *;
    var ids := IdsFrom(m, 0);
    var body := EncodePages(m, ids);
    assert Save(m).value + later == Header(|m|) + (body + later);
    HeaderAccepted(|m|, body + later);
    DecodeInverts(m, ids, later, map[]);
    PartIsAll(m);
  }

  lemma CutPage(id: byte, page: seq<byte>, s: seq<byte>, count: nat, acc: pages)
    requires |page| < 0x1_0000 && count > 0
    requires s < EncodePage(id, page)
    ensures DecodePages(s, count, acc) == None
  {
    if |s| >= 3 {
      Be16RoundTrip(|page|);
      assert s[1..3] == Be16(|page|);
    }
  }

  /** A body cut short yields nothing. */
  lemma {:induction false} TruncatedBody(m: pages, ids: seq<byte>, cut: nat, acc: pages)
    requires Storable(m) && Listed(m, ids)
    requires cut < |EncodePages(m, ids)|
    ensures DecodePages(EncodePages(m, ids)[..cut], |ids|, acc) == None
    decreases |ids|
  {
    var id := ids[0];
    var first, tail := EncodePage(id, m[id]), EncodePages(m, ids[1..]);
    var s := EncodePages(m, ids)[..cut];
    if cut < |first| {
      CutPage(id, m[id], s, |ids|, acc);
    } else {
      hide EncodePage;
      assert s == first + tail[..cut - |first|];
      DecodeStep(id, m[id], tail[..cut - |first|], |ids|, acc);
      TruncatedBody(m, ids[1..], cut - |first|, acc[id := m[id]]);
    }
  }

  /** No strict prefix of a saved file loads. */
  lemma PrefixFails(m: pages, cut: nat)
    requires Storable(m) && cut < |Save(m).value|
    ensures Load(Save(m).value[..cut]) == None
  {
    SavedParts(m);
    var body := EncodePages(m, IdsFrom(m, 0));
    var file := Save(m).value;
    hide Save, EncodePages, DecodePages, IdsFrom;
    if cut < 12 {
      assert |file[..cut]| < 12;
    } else {
      hide Load, Header;
      assert file[..cut] == Header(|m|) + body[..cut - 12];
      HeaderAccepted(|m|, body[..cut - 12]);
      TruncatedBody(m, IdsFrom(m, 0), cut - 12, map[]);
    }
  }

  // --- Which files load

  datatype Record = Record(id: byte, data: seq<byte>)

  ghost predicate AllShort(rs: seq<Record>) {
    forall i :: 0 <= i < |rs| ==> |rs[i].data| < 0x1_0000
  }

  /** The records one after the other: an id, a length of two bytes, and as many bytes. */
  ghost function Body(rs: seq<Record>): seq<byte>
    requires AllShort(rs)
  {
    if rs == [] then [] else [rs[0].id] + Be16(|rs[0].data|) + rs[0].data + Body(rs[1..])
  }

  /** Later records replace earlier ones of the same id. */
  function Pages(acc: pages, rs: seq<Record>): pages
    decreases |rs|
  {
    if rs == [] then acc else Pages(acc[rs[0].id := rs[0].data], rs[1..])
  }

  lemma {:induction false} BodyDecodes(rs: seq<Record>, later: seq<byte>, acc: pages)
    requires AllShort(rs)
    ensures DecodePages(Body(rs) + later, |rs|, acc) == Some(Pages(acc, rs))
    decreases |rs|
  {
    if rs != [] {
      var id, data := rs[0].id, rs[0].data;
      var tail := Body(rs[1..]) + later;
      assert Body(rs) + later == EncodePage(id, data) + tail;
      assert AllShort(rs[1..]);
      hide DecodePages, Body, EncodePage, AllShort;
      DecodeStep(id, data, tail, |rs|, acc);
      BodyDecodes(rs[1..], later, acc[id := data]);
    }
  }

  lemma {:induction false} DecodedIsBody(s: seq<byte>, n: nat, acc: pages) returns (rs: seq<Record>, later: seq<byte>)
    requires DecodePages(s, n, acc).Some?
    ensures |rs| == n && AllShort(rs) && s == Body(rs) + later && DecodePages(s, n, acc) == Some(Pages(acc, rs))
    decreases n
  {
    if n == 0 {
      rs, later := [], s;
    } else {
      var size := FromBe16(s[1..3]);
      var first := Record(s[0], s[3..3 + size]);
      var others: seq<Record>;
      others, later := DecodedIsBody(s[3 + size..], n - 1, acc[first.id := first.data]);
      rs := [first] + others;
      assert rs[1..] == others;
      FromBe16Inverse(s[1..3]);
      hide Body, DecodePages, FromBe16, Be16;
      BodyStep(first, others);
      RecordInFront(s, size);
      Regroup(s[..3 + size], Body(others), later);
    }
  }

  lemma BodyStep(first: Record, others: seq<Record>)
    requires |first.data| < 0x1_0000 && AllShort(others)
    ensures AllShort([first] + others)
    ensures Body([first] + others) == [first.id] + Be16(|first.data|) + first.data + Body(others)
  {
    assert ([first] + others)[1..] == others;
  }

  lemma RecordInFront(s: seq<byte>, size: nat)
    requires 3 + size <= |s|
    ensures s[..3 + size] == [s[0]] + s[1..3] + s[3..3 + size] && s == s[..3 + size] + s[3 + size..]
  {
  }

  lemma Regroup(a: seq<byte>, b: seq<byte>, c: seq<byte>)
    ensures (a + b) + c == a + (b + c)
  {
  }

  /** "MS2P", version 1, the number of records, the records, and anything. */
  ghost predicate IsPagesFile(file: seq<byte>, rs: seq<Record>, later: seq<byte>) {
    && AllShort(rs) && |rs| < 0x1_0000_0000
    && file == [0x4D, 0x53, 0x32, 0x50] + [0, 0, 0, 1] + Be32(|rs|) + (Body(rs) + later)
  }

  lemma PagesFileLoads(file: seq<byte>, rs: seq<Record>, later: seq<byte>)
    requires IsPagesFile(file, rs, later)
    ensures Load(file) == Some(Pages(map[], rs))
  {
    var body := Body(rs) + later;
    Be32RoundTrip(|rs|);
    BodyDecodes(rs, later, map[]);
    hide Body, DecodePages, Be32;
    HeaderBytes(file, Be32(|rs|), body);
  }

  lemma HeaderBytes(file: seq<byte>, count: seq<byte>, body: seq<byte>)
    requires |count| == 4 && file == [0x4D, 0x53, 0x32, 0x50] + [0, 0, 0, 1] + count + body
    ensures Load(file) == DecodePages(body, FromBe32(count), map[])
  {
    hide DecodePages;
    assert file[..4] == MAGIC && file[4..8] == [0, 0, 0, 1] && file[8..12] == count && file[12..] == body;
    assert FromBe32([0, 0, 0, 1]) == FORMAT_VERSION;
  }

  /** A file loads exactly when it is one of these, and then as the pages of its records. */
  lemma LoadsExactly(file: seq<byte>, m: pages)
    ensures Load(file) == Some(m) <==> exists rs, later :: IsPagesFile(file, rs, later) && Pages(map[], rs) == m
  {
    if rs, later :| IsPagesFile(file, rs, later) && Pages(map[], rs) == m {
      PagesFileLoads(file, rs, later);
    }
    if Load(file) == Some(m) {
      var n := FromBe32(file[8..12]);
      var rs, later := DecodedIsBody(file[12..], n, map[]);
      hide Body, DecodePages, AllShort, Pages;
      HeaderParts(file);
      assert file == [0x4D, 0x53, 0x32, 0x50] + [0, 0, 0, 1] + Be32(|rs|) + (Body(rs) + later);
      assert IsPagesFile(file, rs, later);
    }
  }

  lemma HeaderParts(file: seq<byte>)
    requires |file| >= 12 && file[..4] == MAGIC && FromBe32(file[4..8]) == FORMAT_VERSION
    ensures file == [0x4D, 0x53, 0x32, 0x50] + [0, 0, 0, 1] + Be32(FromBe32(file[8..12])) + file[12..]
  {
    FromBe32Inverse(file[4..8]);
    FromBe32Inverse(file[8..12]);
    VersionBytes();
    hide FromBe32, Be32;
    assert file == file[..4] + file[4..8] + file[8..12] + file[12..];
  }

  lemma VersionBytes()
    ensures Be32(FORMAT_VERSION) == [0, 0, 0, 1] && MAGIC == [0x4D, 0x53, 0x32, 0x50]
  {
  }
}
