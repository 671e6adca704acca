/** Capture files: OUTPC frames appended while polling, and what a reader makes of a file cut off anywhere. */
module Capture {
  import opened Bytes

  const MAGIC: seq<byte> := [0x4D, 0x53, 0x32, 0x43, 0x41, 0x50, 0x30, 0x32]  // "MS2CAP02"
  const OLD_MAGIC: seq<byte> := [0x4D, 0x53, 0x32, 0x43, 0x41, 0x50, 0x30, 0x31]  // "MS2CAP01"

  /** Little-endian, the given number of bytes. */
  function Le(n: nat, width: nat): (s: seq<byte>)
    ensures |s| == width
    decreases width
  {
    if width == 0 then [] else [n % 256] + Le(n / 256, width - 1)
  }

  function FromLe(s: seq<byte>): nat {
    if s == [] then 0 else s[0] as int + 256 * FromLe(s[1..])
  }

  function Limit(width: nat): nat {
    if width == 0 then 1 else 256 * Limit(width - 1)
  }

  lemma {:induction false} LeRoundTrip(n: nat, width: nat)
    requires n < Limit(width)
    ensures FromLe(Le(n, width)) == n
    decreases width
  {
    if width > 0 {
      LeRoundTrip(n / 256, width - 1);
    }
  }

  datatype CaptureFrame = CaptureFrame(timestamp: nat, data: seq<byte>)

  predicate Recordable(f: CaptureFrame) {
    f.timestamp < Limit(8) && |f.data| < Limit(2)
  }

  predicate AllRecordable(fs: seq<CaptureFrame>) {
    forall f :: f in fs ==> Recordable(f)
  }

  // --- Writing

  function Header(signature: seq<byte>): (s: seq<byte>)
    ensures |s| == 12 + |signature|
  {
    MAGIC + Le(|signature|, 4) + signature
  }

  function EncodeFrame(f: CaptureFrame): (s: seq<byte>)
    ensures |s| == 10 + |f.data|
  {
    Le(f.timestamp, 8) + Le(|f.data|, 2) + f.data
  }

  function EncodeFrames(fs: seq<CaptureFrame>): seq<byte> {
    if fs == [] then [] else EncodeFrame(fs[0]) + EncodeFrames(fs[1..])
  }

  function File(signature: seq<byte>, fs: seq<CaptureFrame>): seq<byte> {
    Header(signature) + EncodeFrames(fs)
  }

  // --- Reading

  /** What `load_capture` does: `Raised` for an unknown magic or a header cut inside a number. */
  datatype Loaded = Raised | Loaded(signature: seq<byte>, frames: seq<CaptureFrame>)

  /** The reading loop: it stops quietly at the first frame that is not all there. */
  function DecodeFrames(s: seq<byte>): seq<CaptureFrame>
    decreases |s|
  {
    if |s| < 10 then []
    else
      var n := FromLe(s[8..10]);
      if |s| < 10 + n then []
      else [CaptureFrame(FromLe(s[..8]), s[10..10 + n])] + DecodeFrames(s[10 + n..])
  }

  function Load(file: seq<byte>, defaultSignature: seq<byte>): Loaded {
    var magic := Slice(file, 0, 8);
    if magic == MAGIC then
      if |file| < 12 then Raised
      else
        var n := FromLe(file[8..12]);
        var end := if 12 + n <= |file| then 12 + n else |file|;
        Loaded(file[12..end], DecodeFrames(file[end..]))
    else if magic == OLD_MAGIC then
      if |file| < 12 then Raised else Loaded(defaultSignature, DecodeFrames(file[12..]))
    else Raised
  }

  method LoadCapture(file: seq<byte>, defaultSignature: seq<byte>) returns (r: Loaded)
    ensures r == Load(file, defaultSignature)
  {
    var magic := Slice(file, 0, 8);
    var signature: seq<byte>;
    var at: nat;
    if magic == MAGIC {
      if |file| < 12 {
        return Raised;
      }
      var n := FromLe(file[8..12]);
      at := if 12 + n <= |file| then 12 + n else |file|;
      signature := file[12..at];
    } else if magic == OLD_MAGIC {
      if |file| < 12 {
        return Raised;
      }
      signature, at := defaultSignature, 12;
    } else {
      return Raised;
    }
    var frames := ReadFrames(file, at);
    r := Loaded(signature, frames);
  }

  method ReadFrames(file: seq<byte>, start: nat) returns (frames: seq<CaptureFrame>)
    requires start <= |file|
    ensures frames == DecodeFrames(file[start..])
  {
    hide *;
    var at := start;
    frames := [];
    ghost var whole := DecodeFrames(file[start..]);
    while true
      invariant start <= at <= |file|
      invariant whole == frames + DecodeFrames(file[at..])
      decreases |file| - at
    {
      DecodeAt(file, at);
      if |file| - at < 10 {
        assert frames + [] == frames;
        return;
      }
      var n := FromLe(file[at + 8..at + 10]);
      if |file| - at < 10 + n {
        assert frames + [] == frames;
        return;
      }
      var f := CaptureFrame(FromLe(file[at..at + 8]), file[at + 10..at + 10 + n]);
      assert frames + ([f] + DecodeFrames(file[at + 10 + n..])) == (frames + [f]) + DecodeFrames(file[at + 10 + n..]);
      frames := frames + [f];
      at := at + 10 + n;
    }
  }

  lemma DecodeAt(file: seq<byte>, at: nat)
    requires at <= |file|
    ensures |file| - at < 10 ==> DecodeFrames(file[at..]) == []
    ensures |file| - at >= 10 ==>
      var n := FromLe(file[at + 8..at + 10]);
      DecodeFrames(file[at..]) ==
        if |file| - at < 10 + n then []
        else [CaptureFrame(FromLe(file[at..at + 8]), file[at + 10..at + 10 + n])] + DecodeFrames(file[at + 10 + n..])
  {
    hide FromLe;
    var s := file[at..];
    if |s| >= 10 {
      assert s[8..10] == file[at + 8..at + 10] && s[..8] == file[at..at + 8];
      var n := FromLe(file[at + 8..at + 10]);
      if |s| >= 10 + n {
        assert s[10..10 + n] == file[at + 10..at + 10 + n] && s[10 + n..] == file[at + 10 + n..];
      }
    }
  }

  // --- Any prefix

  lemma DecodeStep(f: CaptureFrame, later: seq<byte>)
    requires Recordable(f)
    ensures DecodeFrames(EncodeFrame(f) + later) == [f] + DecodeFrames(later)
  {
    LeRoundTrip(f.timestamp, 8);
    LeRoundTrip(|f.data|, 2);
    hide Le, FromLe, Limit;
    var s := EncodeFrame(f) + later;
    assert s[..8] == Le(f.timestamp, 8);
    assert s[8..10] == Le(|f.data|, 2);
    assert s[10..10 + |f.data|] == f.data;
    assert s[10 + |f.data|..] == later;
  }

  lemma CutFrame(f: CaptureFrame, cut: nat)
    requires Recordable(f) && cut < |EncodeFrame(f)|
    ensures DecodeFrames(EncodeFrame(f)[..cut]) == []
  {
    LeRoundTrip(|f.data|, 2);
    hide Le, FromLe, Limit;
    if cut >= 10 {
      assert EncodeFrame(f)[..cut][8..10] == Le(|f.data|, 2);
    }
  }

  /** The first n frames lie within the cut, the next one does not. */
  ghost predicate CutsAfter(fs: seq<CaptureFrame>, n: nat, cut: nat) {
    && n <= |fs|
    && |EncodeFrames(fs[..n])| <= cut <= |EncodeFrames(fs)|
    && (n < |fs| ==> cut < |EncodeFrames(fs[..n + 1])|)
  }

  /** Cutting encoded frames anywhere leaves exactly the frames that are wholly there. */
  lemma {:induction false} CutFrames(fs: seq<CaptureFrame>, n: nat, cut: nat)
    requires AllRecordable(fs) && CutsAfter(fs, n, cut)
    ensures cut <= |EncodeFrames(fs)| && n <= |fs| && DecodeFrames(EncodeFrames(fs)[..cut]) == fs[..n]
    decreases n
  {
    if n == 0 {
      if fs != [] {
        CutFirst(fs, cut);
      }
    } else {
      var first, tail := EncodeFrame(fs[0]), EncodeFrames(fs[1..]);
      var rest := cut - |first|;
      assert EncodeFrames(fs) == first + tail;
      CutMoves(fs, n, cut);
      hide *;
      CutFrames(fs[1..], n - 1, rest);
      CutLater(first, tail, cut);
      RecordableParts(fs);
      DecodeStep(fs[0], tail[..rest]);
      assert fs[..n] == [fs[0]] + fs[1..][..n - 1];
    }
  }

  /** How many frames lie wholly within the first cut bytes. */
  function WholeFrames(fs: seq<CaptureFrame>, cut: int): (n: nat)
    ensures n <= |fs|
  {
    if fs == [] || cut < |EncodeFrame(fs[0])| then 0
    else 1 + WholeFrames(fs[1..], cut - |EncodeFrame(fs[0])|)
  }

  /** Every cut has its number of whole frames, and it is this one. */
  lemma {:induction false} CutsAfterWhole(fs: seq<CaptureFrame>, cut: nat)
    requires cut <= |EncodeFrames(fs)|
    ensures CutsAfter(fs, WholeFrames(fs, cut), cut)
    decreases |fs|
  {
    hide EncodeFrame;
    if fs == [] {
      assert fs[..0] == [];
    } else if cut < |EncodeFrame(fs[0])| {
      assert fs[..1][1..] == [];
      assert EncodeFrames(fs[..1]) == EncodeFrame(fs[0]) + [];
    } else {
      var rest := cut - |EncodeFrame(fs[0])|;
      var n := WholeFrames(fs[1..], rest);
      CutsAfterWhole(fs[1..], rest);
      FrontLength(fs, n + 1);
      if n < |fs| - 1 {
        FrontLength(fs, n + 2);
      }
    }
  }

  lemma RecordableParts(fs: seq<CaptureFrame>)
    requires AllRecordable(fs) && fs != []
    ensures Recordable(fs[0]) && AllRecordable(fs[1..])
  {
  }

  lemma CutMoves(fs: seq<CaptureFrame>, n: nat, cut: nat)
    requires CutsAfter(fs, n, cut) && n > 0 && AllRecordable(fs)
    ensures |EncodeFrame(fs[0])| <= cut <= |EncodeFrame(fs[0]) + EncodeFrames(fs[1..])|
    ensures CutsAfter(fs[1..], n - 1, cut - |EncodeFrame(fs[0])|)
    ensures AllRecordable(fs[1..])
  {
    FrontLength(fs, n);
    if n < |fs| {
      FrontLength(fs, n + 1);
    }
    hide EncodeFrame;
  }

  lemma CutFirst(fs: seq<CaptureFrame>, cut: nat)
    requires fs != [] && Recordable(fs[0]) && CutsAfter(fs, 0, cut)
    ensures DecodeFrames(EncodeFrames(fs)[..cut]) == []
  {
    assert fs[..1][1..] == [];
    assert EncodeFrames(fs[..1]) == EncodeFrame(fs[0]) + [];
    assert EncodeFrames(fs)[..cut] == EncodeFrame(fs[0])[..cut];
    CutFrame(fs[0], cut);
  }

  lemma CutLater(first: seq<byte>, tail: seq<byte>, cut: nat)
    requires |first| <= cut <= |first + tail|
    ensures (first + tail)[..cut] == first + tail[..cut - |first|]
  {
  }

  lemma FrontLength(fs: seq<CaptureFrame>, n: nat)
    requires 0 < n <= |fs|
    ensures |EncodeFrames(fs[..n])| == |EncodeFrame(fs[0])| + |EncodeFrames(fs[1..][..n - 1])|
  {
    assert fs[..n][1..] == fs[1..][..n - 1];
  }

  /** Every prefix of a capture file that holds the whole header loads to the signature and exactly the frames wholly
      inside the prefix. */
  lemma PrefixLoads(signature: seq<byte>, fs: seq<CaptureFrame>, cut: nat, defaultSignature: seq<byte>)
    requires AllRecordable(fs) && |signature| < Limit(4)
    requires |Header(signature)| <= cut <= |File(signature, fs)|
    ensures var n := WholeFrames(fs, cut - |Header(signature)|);
      && |File(signature, fs[..n])| <= cut && (n < |fs| ==> cut < |File(signature, fs[..n + 1])|)
      && Load(File(signature, fs)[..cut], defaultSignature) == Loaded(signature, fs[..n])
  {
    hide *;
    var header, body := Header(signature), EncodeFrames(fs);
    var rest := cut - |header|;
    FileParts(signature, fs, cut);
    CutsAfterWhole(fs, rest);
    WholeInFile(signature, fs, WholeFrames(fs, rest), cut);
    CutFrames(fs, WholeFrames(fs, rest), rest);
    HeaderAccepted(signature, body[..rest], defaultSignature);
  }

  lemma FileParts(signature: seq<byte>, fs: seq<CaptureFrame>, cut: nat)
    requires |Header(signature)| <= cut <= |File(signature, fs)|
    ensures cut - |Header(signature)| <= |EncodeFrames(fs)|
    ensures File(signature, fs)[..cut] == Header(signature) + EncodeFrames(fs)[..cut - |Header(signature)|]
  {
    hide Header, EncodeFrames;
  }

  lemma WholeInFile(signature: seq<byte>, fs: seq<CaptureFrame>, n: nat, cut: nat)
    requires |Header(signature)| <= cut && CutsAfter(fs, n, cut - |Header(signature)|)
    ensures n <= |fs| && |File(signature, fs[..n])| <= cut
    ensures n < |fs| ==> cut < |File(signature, fs[..n + 1])|
  {
    hide Header, EncodeFrames;
  }

  lemma HeaderAccepted(signature: seq<byte>, rest: seq<byte>, defaultSignature: seq<byte>)
    requires |signature| < Limit(4)
    ensures Load(Header(signature) + rest, defaultSignature) == Loaded(signature, DecodeFrames(rest))
  {
    LeRoundTrip(|signature|, 4);
    hide Le, FromLe, DecodeFrames, Limit;
    var file := Header(signature) + rest;
    assert Slice(file, 0, 8) == MAGIC;
    assert file[8..12] == Le(|signature|, 4);
    assert file[12..12 + |signature|] == signature;
    assert file[12 + |signature|..] == rest;
  }

  /** The whole file loads to all of its frames. */
  lemma WholeFileLoads(signature: seq<byte>, fs: seq<CaptureFrame>, defaultSignature: seq<byte>)
    requires AllRecordable(fs) && |signature| < Limit(4)
    ensures Load(File(signature, fs), defaultSignature) == Loaded(signature, fs)
  {
    var n := |fs|;
    assert fs[..n] == fs;
    CutFrames(fs, n, |EncodeFrames(fs)|);
    hide EncodeFrames, DecodeFrames, Limit, Load, Header, AllRecordable;
    HeaderAccepted(signature, EncodeFrames(fs), defaultSignature);
    assert EncodeFrames(fs)[..|EncodeFrames(fs)|] == EncodeFrames(fs);
  }

  // --- Other files, and the bytes of this one

  /** The old format has four bytes of no interest and no signature; its frames are the same. */
  lemma OldFileLoads(baud: seq<byte>, fs: seq<CaptureFrame>, defaultSignature: seq<byte>)
    requires |baud| == 4 && AllRecordable(fs)
    ensures Load([0x4D, 0x53, 0x32, 0x43, 0x41, 0x50, 0x30, 0x31] + baud + EncodeFrames(fs), defaultSignature)
         == Loaded(defaultSignature, fs)
  {
    var file := [0x4D, 0x53, 0x32, 0x43, 0x41, 0x50, 0x30, 0x31] + baud + EncodeFrames(fs);
    var n := |fs|;
    assert fs[..n] == fs;
    CutFrames(fs, n, |EncodeFrames(fs)|);
    hide EncodeFrames, DecodeFrames;
    assert file[12..] == EncodeFrames(fs) == EncodeFrames(fs)[..|EncodeFrames(fs)|];
    assert Slice(file, 0, 8) == OLD_MAGIC && OLD_MAGIC[7] != MAGIC[7];
  }

  /** Any other beginning, and a file that ends within twelve bytes, is an error. */
  lemma OtherFilesRaise(file: seq<byte>, defaultSignature: seq<byte>)
    requires |file| < 12 || (file[..8] != [0x4D, 0x53, 0x32, 0x43, 0x41, 0x50, 0x30, 0x31]
                             && file[..8] != [0x4D, 0x53, 0x32, 0x43, 0x41, 0x50, 0x30, 0x32])
    ensures Load(file, defaultSignature) == Raised
  {
    hide DecodeFrames;
  }

  /** Numbers are written low byte first. */
  lemma LowByteFirst(f: CaptureFrame)
    requires Recordable(f)
    ensures var s := EncodeFrame(f);
      && s[8] as int + 256 * s[9] as int == |f.data| && s[0] as int == f.timestamp % 256
      && s[10..] == f.data
  {
    assert Limit(2) == 65536;
    assert Le(|f.data|, 2) == [|f.data| % 256, |f.data| / 256 % 256];
    hide Limit;
    assert EncodeFrame(f)[8..10] == Le(|f.data|, 2);
    assert EncodeFrame(f)[0] == Le(f.timestamp, 8)[0];
  }

  lemma HeaderBytes(signature: seq<byte>)
    ensures Header(signature)[..8] == [0x4D, 0x53, 0x32, 0x43, 0x41, 0x50, 0x30, 0x32]
    ensures Header(signature)[12..] == signature && Header(signature)[8] as int == |signature| % 256
  {
    assert Header(signature)[8] == Le(|signature|, 4)[0];
  }

  /** A file cut inside its signature loads as what is there of it, without a frame; one cut before that is an error. */
  lemma EarlyCutLoads(signature: seq<byte>, cut: nat, defaultSignature: seq<byte>)
    requires |signature| < Limit(4) && cut <= 12 + |signature|
    ensures Load(Header(signature)[..cut], defaultSignature) ==
      if cut < 12 then Raised else Loaded(signature[..cut - 12], [])
  {
    var file := Header(signature)[..cut];
    if cut < 12 {
      assert |file| < 12;
    } else {
      LeRoundTrip(|signature|, 4);
      CutHeaderParts(signature, cut);
      hide Le, FromLe, Limit, Header;
    }
  }

  lemma CutHeaderParts(signature: seq<byte>, cut: nat)
    requires 12 <= cut <= 12 + |signature|
    ensures var file := Header(signature)[..cut];
      && |file| == cut && Slice(file, 0, 8) == MAGIC && file[8..12] == Le(|signature|, 4)
      && file[12..] == signature[..cut - 12] && file[cut..] == []
  {
    hide Le;
    var file := Header(signature)[..cut];
    assert file[..8] == MAGIC;
    assert file[8..12] == Le(|signature|, 4);
    assert file[12..] == signature[..cut - 12];
  }
}
