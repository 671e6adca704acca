/** Exchanges that fail: a reply that comes after its client gave up, and a reply that was cut short. */
module LateReplies {
  import opened Bytes
  import opened Crc32
  import opened Framing
  import opened SerialComm
  import PageStore
  import Poll
  import Protocol

  // --- One exchange behind bytes that were waiting

  /** A schedule without timeouts that is long enough for this command and any reply. */
  predicate Ample(script: seq<Io>, cmd: seq<byte>) {
    Patient(script) && Offers(script) >= |cmd| + 6 + MAX_FRAME + 6
  }

  predicate Legal(data: seq<byte>, capacity: nat) {
    1 <= |data| <= MAX_FRAME && |data| <= capacity && 2 <= capacity
  }

  /** Behind any waiting bytes the client returns its own reply exactly when they and it together begin as it does. */
  lemma ReplyBehindExactly(script: seq<Io>, stale: seq<byte>, cmd: seq<byte>, data: seq<byte>, capacity: nat)
    requires Ample(script, cmd) && 1 <= |cmd| <= MAX_FRAME && Legal(data, capacity)
    ensures var s := Send(script, stale + Frame(data), cmd, capacity);
      s.err == Success && s.reply == data <==> Frame(data) <= stale + Frame(data)
  {
    hide Transfer, Offers, Patient, Send, Receive, Delivers, Frame, Checksum;
    var n := |cmd| + 6;
    PatienceSuffices(script, 0, n, n);
    var w := Transfer(script, 0, n, n);
    SendReaches(script, stale + Frame(data), cmd, capacity, w);
    PatientDelivers(w.script, |stale + Frame(data)|, |data|);
    ReceivesExactly(w.script, stale + Frame(data), Frame(cmd), capacity, data);
  }

  /** Whatever is asked and answered, the client gets its own reply. */
  ghost predicate AlwaysMatched(stale: seq<byte>, capacity: nat) {
    forall script, cmd: seq<byte>, data ::
      Ample(script, cmd) && 1 <= |cmd| <= MAX_FRAME && Legal(data, capacity) ==>
        var s := Send(script, stale + Frame(data), cmd, capacity); s.err == Success && s.reply == data
  }

  /** Two replies that cannot both begin behind the same bytes. */
  lemma SomeReplyDiffers(stale: seq<byte>)
    requires stale != []
    ensures !(Frame([0]) <= stale + Frame([0])) || !(Frame([0, 0]) <= stale + Frame([0, 0]))
  {
    var one, two := Frame([0]), Frame([0, 0]);
    ShortFrames();
    hide Frame;
    if |stale| == 1 {
      assert (stale + one)[1] == one[0];
    } else {
      assert (stale + one)[1] == stale[1] && (stale + two)[1] == stale[1];
    }
  }

  lemma ShortFrames()
    ensures Frame([0])[0] == 0 && Frame([0])[1] == 1 && Frame([0, 0])[1] == 2
  {
    hide Checksum;
  }

  /** Replies are matched to their commands, whatever these are, exactly when nothing is waiting. */
  lemma AlwaysMatchedExactly(stale: seq<byte>, capacity: nat)
    requires capacity >= 2
    ensures AlwaysMatched(stale, capacity) <==> stale == []
  {
    hide Send, Frame, Patient, Offers;
    if stale == [] {
      forall script, cmd: seq<byte>, data | Ample(script, cmd) && 1 <= |cmd| <= MAX_FRAME && Legal(data, capacity)
        ensures var s := Send(script, stale + Frame(data), cmd, capacity); s.err == Success && s.reply == data
      {
        ReplyBehindExactly(script, stale, cmd, data, capacity);
        assert stale + Frame(data) == Frame(data);
      }
    } else {
      var script := seq(5000, _ => Moved(1));
      AmpleSchedule([0]);
      SomeReplyDiffers(stale);
      var data: seq<byte> := if Frame([0]) <= stale + Frame([0]) then [0, 0] else [0];
      ReplyBehindExactly(script, stale, [0], data, capacity);
      assert Ample(script, [0]) && Legal(data, capacity);
    }
  }

  // --- Many exchanges behind replies that were waiting

  type reply = d: seq<byte> | |d| < 0x1_0000

  datatype Call = Call(script: seq<Io>, cmd: seq<byte>, data: reply)

  predicate Callable(c: Call, capacity: nat) {
    Ample(c.script, c.cmd) && 1 <= |c.cmd| <= MAX_FRAME && Legal(c.data, capacity)
  }

  predicate AllCallable(calls: seq<Call>, capacity: nat) {
    forall i :: 0 <= i < |calls| ==> Callable(calls[i], capacity)
  }

  predicate AllLegal(datas: seq<reply>, capacity: nat) {
    forall i :: 0 <= i < |datas| ==> Legal(datas[i], capacity)
  }

  function FramesOf(datas: seq<reply>): seq<byte> {
    if datas == [] then [] else Frame(datas[0]) + FramesOf(datas[1..])
  }

  /** The results of the calls in turn, each answered behind whatever is waiting, and what waits in the end. */
  datatype Called = Called(results: seq<Sent>, left: seq<byte>)

  function CallAll(waiting: seq<byte>, calls: seq<Call>, capacity: nat): Called
    decreases |calls|
  {
    if calls == [] then Called([], waiting)
    else
      var pipe := waiting + Frame(calls[0].data);
      var s := Send(calls[0].script, pipe, calls[0].cmd, capacity);
      var later := CallAll(if s.taken <= |pipe| then pipe[s.taken..] else [], calls[1..], capacity);
      Called([s] + later.results, later.left)
  }

  function Datas(calls: seq<Call>): (ds: seq<reply>)
    ensures |ds| == |calls| && forall i :: 0 <= i < |calls| ==> ds[i] == calls[i].data
  {
    seq(|calls|, i requires 0 <= i < |calls| => calls[i].data)
  }

  /** These exchanges all succeeded, with these replies. */
  predicate Returned(results: seq<Sent>, datas: seq<reply>) {
    |results| == |datas| && forall i :: 0 <= i < |datas| ==> results[i].err == Success && results[i].reply == datas[i]
  }

  lemma {:induction false} FramesAppend(datas: seq<reply>, d: reply)
    ensures FramesOf(datas + [d]) == FramesOf(datas) + Frame(d)
  {
    hide Frame;
    if datas == [] {
      assert datas + [d] == [d] && [d][1..] == [];
    } else {
      assert (datas + [d])[1..] == datas[1..] + [d];
      FramesAppend(datas[1..], d);
    }
  }

  /** One call takes the oldest reply. */
  lemma OldestFirst(oldest: reply, later: seq<byte>, c: Call, capacity: nat)
    requires Legal(oldest, capacity) && Callable(c, capacity)
    ensures var pipe := Frame(oldest) + later;
      var s := Send(c.script, pipe, c.cmd, capacity);
      s.err == Success && s.reply == oldest && s.taken <= |pipe| && pipe[s.taken..] == later
  {
    hide Send, Frame, Patient, Offers;
    PatientExchange(c.script, c.cmd, oldest, later, capacity);
  }

  /** What one call makes of a queue of replies. */
  lemma QueueStep(queue: seq<reply>, calls: seq<Call>, capacity: nat)
    requires calls != [] && AllLegal(queue, capacity) && AllCallable(calls, capacity)
    ensures var now := queue + [calls[0].data];
      var r, later := CallAll(FramesOf(queue), calls, capacity), CallAll(FramesOf(now[1..]), calls[1..], capacity);
      && AllLegal(now[1..], capacity) && AllCallable(calls[1..], capacity)
      && r.left == later.left
      && |r.results| == 1 + |later.results| && r.results[1..] == later.results
      && r.results[0].err == Success && r.results[0].reply == now[0]
  {
    var c := calls[0];
    var now := queue + [c.data];
    assert Callable(c, capacity);
    assert Legal(now[0], capacity);
    FramesAppend(queue, c.data);
    assert FramesOf(now) == Frame(now[0]) + FramesOf(now[1..]);
    hide Frame, FramesOf, Send, Callable, Legal;
    OldestFirst(now[0], FramesOf(now[1..]), c, capacity);
    assert forall i :: 0 <= i < |calls[1..]| ==> calls[1..][i] == calls[i + 1];
  }

  /** Replies that were waiting shift all later ones: no call fails, every call returns the reply that is oldest then,
      and as many replies as were waiting at first are waiting in the end. */
  lemma {:induction false} RepliesAreAQueue(olds: seq<reply>, calls: seq<Call>, capacity: nat)
    requires AllLegal(olds, capacity) && AllCallable(calls, capacity)
    ensures var r := CallAll(FramesOf(olds), calls, capacity);
      var queue := olds + Datas(calls);
      Returned(r.results, queue[..|calls|]) && r.left == FramesOf(queue[|calls|..])
    decreases |calls|
  {
    hide *;
    if calls == [] {
      NoCalls(olds, calls, capacity);
    } else {
      var now, rest := olds + [calls[0].data], calls[1..];
      QueueStep(olds, calls, capacity);
      RepliesAreAQueue(now[1..], rest, capacity);
      var behind := now[1..] + Datas(rest);
      QueueSplits(olds, calls);
      ReturnedStep(CallAll(FramesOf(olds), calls, capacity).results, now[0], behind[..|rest|]);
    }
  }

  lemma NoCalls(olds: seq<reply>, calls: seq<Call>, capacity: nat)
    requires calls == []
    ensures var r := CallAll(FramesOf(olds), calls, capacity);
      var queue := olds + Datas(calls);
      Returned(r.results, queue[..|calls|]) && r.left == FramesOf(queue[|calls|..])
  {
    hide FramesOf;
    var queue := olds + Datas(calls);
    assert queue[0..] == olds;
  }

  lemma QueueSplits(olds: seq<reply>, calls: seq<Call>)
    requires calls != []
    ensures var queue, now := olds + Datas(calls), olds + [calls[0].data];
      var behind := now[1..] + Datas(calls[1..]);
      queue[|calls|..] == behind[|calls| - 1..] && queue[..|calls|] == [now[0]] + behind[..|calls| - 1]
  {
    assert Datas(calls) == [calls[0].data] + Datas(calls[1..]);
    QueueRotates(olds, calls[0].data, Datas(calls[1..]), |calls|);
  }

  lemma QueueRotates(olds: seq<reply>, d: reply, later: seq<reply>, n: nat)
    requires 1 <= n <= |olds| + 1 + |later|
    ensures var queue, now := olds + ([d] + later), olds + [d];
      var behind := now[1..] + later;
      queue[n..] == behind[n - 1..] && queue[..n] == [now[0]] + behind[..n - 1]
  {
    var queue, now := olds + ([d] + later), olds + [d];
    assert queue == now + later;
    assert queue == [now[0]] + (now[1..] + later);
  }

  lemma ReturnedStep(results: seq<Sent>, first: reply, others: seq<reply>)
    requires results != [] && results[0].err == Success && results[0].reply == first
    requires Returned(results[1..], others)
    ensures Returned(results, [first] + others)
  {
    assert forall i :: 1 <= i < |results| ==> results[i] == results[1..][i - 1];
  }

  /** So every call gets its own reply exactly when the queue repeats itself so far: always, if nothing was waiting. */
  lemma MatchedExactly(olds: seq<reply>, calls: seq<Call>, capacity: nat)
    requires AllLegal(olds, capacity) && AllCallable(calls, capacity)
    ensures Returned(CallAll(FramesOf(olds), calls, capacity).results, Datas(calls)) <==>
      forall i :: 0 <= i < |Datas(calls)| ==> (olds + Datas(calls))[i] == Datas(calls)[i]
  {
    hide *;
    RepliesAreAQueue(olds, calls, capacity);
    ReturnedOwn(CallAll(FramesOf(olds), calls, capacity).results, olds + Datas(calls), Datas(calls));
  }

  lemma ReturnedOwn(results: seq<Sent>, queue: seq<reply>, datas: seq<reply>)
    requires |datas| <= |queue| && Returned(results, queue[..|datas|])
    ensures Returned(results, datas) <==> forall i :: 0 <= i < |datas| ==> queue[i] == datas[i]
  {
    assert forall i :: 0 <= i < |datas| ==> queue[..|datas|][i] == queue[i];
  }

  // --- How replies come to wait, and how they do not

  /** A client that has written its command and waits in vain takes nothing: its reply, when it comes, is not its own
      any more. */
  lemma GivesUp(script: seq<Io>, cmd: seq<byte>, capacity: nat)
    requires 1 <= |cmd| <= MAX_FRAME && 2 <= capacity
    requires var w := Transfer(script, 0, |cmd| + 6, |cmd| + 6);
      w.err == Success && w.script != [] && w.script[0] == WaitTimeout
    ensures var s := Send(script, [], cmd, capacity);
      s.err == TimeoutError && s.request == Frame(cmd) && s.taken == 0
  {
    var w := Transfer(script, 0, |cmd| + 6, |cmd| + 6);
    SendReaches(script, [], cmd, capacity, w);
    WaitsInVain(w.script, Frame(cmd), capacity);
  }

  lemma WaitsInVain(script: seq<Io>, request: seq<byte>, capacity: nat)
    requires script != [] && script[0] == WaitTimeout
    ensures var s := Receive(script, [], request, capacity);
      s.err == TimeoutError && s.request == request && s.taken == 0
  {
    hide ReceiveBody;
  }

  /** The ECU answers both of two commands, the first reply after its client gave up and reopened the port: the second
      command returns the first one's reply, and its own goes on waiting. */
  lemma LateReplyAnswersNext(cfg: PageStore.Config, store: PageStore.Store, late: Call, next: Call, script: seq<Io>,
                             capacity: nat)
    requires Callable(late, capacity) && Callable(next, capacity)
    requires var w := Transfer(script, 0, |late.cmd| + 6, |late.cmd| + 6);
      w.err == Success && w.script != [] && w.script[0] == WaitTimeout
    requires var h := Protocol.Respond(cfg, store, Request(late.cmd));
      && h.outcome == PageStore.Reply(Frame(late.data))
      && Protocol.Respond(cfg, h.store, Request(next.cmd)).outcome == PageStore.Reply(Frame(next.data))
    ensures var h := Protocol.Respond(cfg, store, Request(late.cmd));
      var after := Protocol.Respond(cfg, h.store, Request(next.cmd));
      && Send(script, [], late.cmd, capacity).err == TimeoutError
      && var pipe := h.outcome.data + after.outcome.data;
      var s := Send(next.script, pipe, next.cmd, capacity);
      s.err == Success && s.reply == late.data && s.taken <= |pipe| && pipe[s.taken..] == Frame(next.data)
  {
    hide Frame, Transfer, Protocol.Respond, Send, Patient, Offers;
    GivesUp(script, late.cmd, capacity);
    OldestFirst(late.data, Frame(next.data), next, capacity);
  }

  /** The signature asked for in vain, then the realtime block: the client takes the signature for the block. */
  lemma LateSignature()
    ensures var cfg, store := PageStore.Config([0x4D], [], [7]), PageStore.Store(map[], false);
      var late, next := Protocol.Respond(cfg, store, Request([0x51])), Protocol.Respond(cfg, store, Request([0x41]));
      && late.outcome == PageStore.Reply(Frame([0, 0x4D, 0])) && next.outcome == PageStore.Reply(Frame([1, 7]))
      && Send(seq(5000, _ => Moved(1)), late.outcome.data + next.outcome.data, [0x41], 16).reply == [0, 0x4D, 0]
  {
    ShortReplies();
    hide Frame, Send, Ample, Protocol.Respond;
    AmpleSchedule([0x41]);
    OldestFirst([0, 0x4D, 0], Frame([1, 7]), Call(seq(5000, _ => Moved(1)), [0x41], [1, 7]), 16);
  }

  lemma AmpleSchedule(cmd: seq<byte>)
    requires |cmd| == 1
    ensures Ample(seq(5000, _ => Moved(1)), cmd)
  {
    hide Patient, Offers;
    SteadyOffers(5000);
  }

  lemma ShortReplies()
    ensures var cfg, store := PageStore.Config([0x4D], [], [7]), PageStore.Store(map[], false);
      && Protocol.Respond(cfg, store, Request([0x51])).outcome == PageStore.Reply(Frame([0, 0x4D, 0]))
      && Protocol.Respond(cfg, store, Request([0x41])).outcome == PageStore.Reply(Frame([1, 7]))
  {
    var signature, outpc: seq<byte> := [0x4D], [7];
    var queried, polled: seq<byte> := [0x51], [0x41];
    assert [PageStore.FLAG_OK] + (signature + [0]) == [0, 0x4D, 0];
    assert [PageStore.FLAG_REALTIME] + outpc == [1, 7];
    hide Frame;
    assert queried[0] == PageStore.SIGNATURE_QUERY && polled[0] == PageStore.REALTIME_QUERY;
  }

  lemma {:induction false} PatienceExhausts(script: seq<Io>, done: nat, len: nat, available: nat)
    requires Patient(script) && done <= available < len && Offers(script) >= available - done
    ensures var t := Transfer(script, done, len, available); t.err == TimeoutError && t.count == available
    decreases |script|
  {
    hide Portion, Transfer;
    TransferEnds(script, done, len, available);
    if script != [] {
      TransferStep(script, done, len, available);
      assert script[0] in script;
      if script[0].Interrupted? {
        PatienceExhausts(script[1..], done, len, available);
      } else if done < available {
        PatienceExhausts(script[1..], done + Portion(script[0].n, len - done, available - done), len, available);
      }
    }
  }

  /** A reply cut short by its writer times out, but nothing of it is left waiting. */
  lemma CutReplyLeavesNothing(script: seq<Io>, cmd: seq<byte>, data: seq<byte>, k: nat, capacity: nat)
    requires Ample(script, cmd) && 1 <= |cmd| <= MAX_FRAME && Legal(data, capacity) && k < |Frame(data)|
    ensures var s := Send(script, Frame(data)[..k], cmd, capacity); s.err == TimeoutError && s.taken == k
  {
    hide Transfer, Offers, Patient, Send, Receive, Frame, Checksum;
    var n := |cmd| + 6;
    PatienceSuffices(script, 0, n, n);
    var w := Transfer(script, 0, n, n);
    SendReaches(script, Frame(data)[..k], cmd, capacity, w);
    CutReceive(w.script, Frame(cmd), data, k, capacity);
  }

  lemma CutReceive(script: seq<Io>, request: seq<byte>, data: seq<byte>, k: nat, capacity: nat)
    requires Patient(script) && Offers(script) >= MAX_FRAME + 6 && 1 <= |data| <= MAX_FRAME && k < |data| + 6
    ensures var s := Receive(script, Frame(data)[..k], request, capacity); s.err == TimeoutError && s.taken == k
  {
    hide Transfer, Offers, Patient, Frame, FromBe16, ReceiveBody;
    var incoming := Frame(data)[..k];
    if k < 2 {
      PatienceExhausts(script, 0, 2, k);
    } else {
      CutHeader(data, k);
      PatienceSuffices(script, 0, 2, k);
      var h := Transfer(script, 0, 2, k);
      CutBody(h.script, incoming[2..], |data|, request, capacity);
    }
  }

  lemma CutHeader(data: seq<byte>, k: nat)
    requires |data| < 0x1_0000 && 2 <= k <= |Frame(data)|
    ensures FromBe16(Frame(data)[..k][..2]) == |data|
  {
    Be16RoundTrip(|data|);
    hide Be16, FromBe16, Be32, Checksum;
    var f := Frame(data);
    assert f == Be16(|data|) + (data + Be32(Checksum(data)));
    assert f[..2] == Be16(|data|);
    FrontOfFront(f, 2, k);
  }

  lemma FrontOfFront(f: seq<byte>, n: nat, k: nat)
    requires n <= k <= |f|
    ensures f[..k][..n] == f[..n]
  {
  }

  lemma CutBody(script: seq<Io>, body: seq<byte>, size: nat, request: seq<byte>, capacity: nat)
    requires Patient(script) && Offers(script) >= size + 4 && |body| < size + 4
    ensures var s := ReceiveBody(script, body, size, request, capacity); s.err == TimeoutError && s.taken == |body|
  {
    hide Transfer, Offers, Patient, FromBe32, Checksum;
    if |body| < size {
      PatienceExhausts(script, 0, size, |body|);
    } else {
      PatienceSuffices(script, 0, size, |body|);
      var f := Transfer(script, 0, size, |body|);
      PatienceExhausts(f.script, 0, 4, |body| - size);
    }
  }

  // --- Polls behind replies that were waiting

  /** The block after each of these polls, each answered behind whatever is waiting: a poll that fails leaves it. */
  function BlocksAfter(block: seq<byte>, waiting: seq<byte>, polls: seq<Call>): seq<seq<byte>>
    decreases |polls|
  {
    if polls == [] then []
    else
      var pipe := waiting + Frame(polls[0].data);
      var f := Poll.Fetch(polls[0].script, pipe);
      var taken := Send(polls[0].script, pipe, Poll.COMMAND, MAX_FRAME).taken;
      var next := if f.err == Success then f.frame else block;
      [next] + BlocksAfter(next, if taken <= |pipe| then pipe[taken..] else [], polls[1..])
  }

  /** The block after each of these replies: those whose first byte is 1 become it, the others change nothing. */
  function BlocksOf(block: seq<byte>, datas: seq<reply>): seq<seq<byte>>
    decreases |datas|
  {
    if datas == [] then []
    else
      var next := if |datas[0]| > 0 && datas[0][0] == 0x01 then datas[0][1..] else block;
      [next] + BlocksOf(next, datas[1..])
  }

  predicate AllPolls(polls: seq<Call>) {
    forall i :: 0 <= i < |polls| ==> Callable(polls[i], 4096) && polls[i].cmd == [0x41]
  }

  /** One poll takes the oldest reply, realtime or not. */
  lemma OldestPolled(oldest: reply, later: seq<byte>, c: Call)
    requires Legal(oldest, 4096) && Callable(c, 4096) && c.cmd == [0x41]
    ensures var pipe := Frame(oldest) + later;
      var taken := Send(c.script, pipe, Poll.COMMAND, MAX_FRAME).taken;
      && taken <= |pipe| && pipe[taken..] == later
      && Poll.Fetch(c.script, pipe) ==
         if oldest[0] == 0x01 then Poll.Fetched(Success, oldest[1..]) else Poll.Fetched(ParseError, [])
  {
    assert Poll.COMMAND == [0x41] && Patient(c.script) && Offers(c.script) >= 1 + 6 + |oldest| + 6;
    hide Send, Frame, Patient, Offers, Poll.Fetch;
    OldestFirst(oldest, later, c, 4096);
    Poll.PollExactly(c.script, oldest, later);
  }

  lemma PollStep(block: seq<byte>, queue: seq<reply>, polls: seq<Call>)
    requires polls != [] && AllLegal(queue, 4096) && AllPolls(polls)
    ensures var now := queue + [polls[0].data];
      var next := if |now[0]| > 0 && now[0][0] == 0x01 then now[0][1..] else block;
      && AllLegal(now[1..], 4096) && AllPolls(polls[1..])
      && BlocksAfter(block, FramesOf(queue), polls) == [next] + BlocksAfter(next, FramesOf(now[1..]), polls[1..])
  {
    var c := polls[0];
    var now := queue + [c.data];
    PollParts(queue, polls);
    hide *;
    FramesAppend(queue, c.data);
    FramesFront(now);
    OldestPolled(now[0], FramesOf(now[1..]), c);
    BlocksUnfold(block, FramesOf(queue), polls, FramesOf(now[1..]), now[0]);
  }

  lemma PollParts(queue: seq<reply>, polls: seq<Call>)
    requires polls != [] && AllLegal(queue, 4096) && AllPolls(polls)
    ensures var now := queue + [polls[0].data];
      && Callable(polls[0], 4096) && polls[0].cmd == [0x41] && Legal(now[0], 4096) && |now[0]| > 0
      && AllLegal(now[1..], 4096) && AllPolls(polls[1..])
  {
    hide Ample;
    assert Callable(polls[0], 4096);
    assert forall i :: 0 <= i < |polls[1..]| ==> polls[1..][i] == polls[i + 1];
  }

  lemma FramesFront(datas: seq<reply>)
    requires datas != []
    ensures FramesOf(datas) == Frame(datas[0]) + FramesOf(datas[1..])
  {
    hide Frame;
  }

  lemma BlocksUnfold(block: seq<byte>, waiting: seq<byte>, polls: seq<Call>, left: seq<byte>, oldest: reply)
    requires polls != [] && |oldest| > 0
    requires var pipe := waiting + Frame(polls[0].data);
      var taken := Send(polls[0].script, pipe, Poll.COMMAND, MAX_FRAME).taken;
      && taken <= |pipe| && pipe[taken..] == left
      && Poll.Fetch(polls[0].script, pipe) ==
         if oldest[0] == 0x01 then Poll.Fetched(Success, oldest[1..]) else Poll.Fetched(ParseError, [])
    ensures var next := if oldest[0] == 0x01 then oldest[1..] else block;
      BlocksAfter(block, waiting, polls) == [next] + BlocksAfter(next, left, polls[1..])
  {
    hide Send, Frame, Poll.Fetch;
  }

  /** Behind any queue of waiting replies the polls install the realtime blocks among the oldest replies, one reply a
      poll and in order; the others, a late signature say, are refused and leave the block. */
  lemma {:induction false} PollsInstallTheQueue(block: seq<byte>, olds: seq<reply>, polls: seq<Call>)
    requires AllLegal(olds, 4096) && AllPolls(polls)
    ensures BlocksAfter(block, FramesOf(olds), polls) == BlocksOf(block, (olds + Datas(polls))[..|polls|])
    decreases |polls|
  {
    hide *;
    if polls == [] {
      NoPolls(block, olds, polls);
    } else {
      var now, rest := olds + [polls[0].data], polls[1..];
      PollStep(block, olds, polls);
      var next := if |now[0]| > 0 && now[0][0] == 0x01 then now[0][1..] else block;
      PollsInstallTheQueue(next, now[1..], rest);
      QueueSplits(olds, polls);
      BlocksStep(block, now[0], (now[1..] + Datas(rest))[..|rest|]);
    }
  }

  lemma NoPolls(block: seq<byte>, olds: seq<reply>, polls: seq<Call>)
    requires polls == []
    ensures BlocksAfter(block, FramesOf(olds), polls) == BlocksOf(block, (olds + Datas(polls))[..|polls|])
  {
  }

  lemma BlocksStep(block: seq<byte>, first: reply, others: seq<reply>)
    ensures var next := if |first| > 0 && first[0] == 0x01 then first[1..] else block;
      BlocksOf(block, [first] + others) == [next] + BlocksOf(next, others)
  {
    assert ([first] + others)[1..] == others;
  }

  /** The late signature is refused, and the poll after it installs the block that was polled before. */
  lemma LateSignatureRefused(block: seq<byte>)
    ensures var poll := Call(seq(5000, _ => Moved(1)), [0x41], [1, 7]);
      BlocksAfter(block, FramesOf([[0, 0x4D, 0]]), [poll, poll]) == [block, [7]]
  {
    var poll := Call(seq(5000, _ => Moved(1)), [0x41], [1, 7]);
    SteadyPolls(poll);
    hide *;
    PollsInstallTheQueue(block, [[0, 0x4D, 0]], [poll, poll]);
    TwoReplies(block, poll);
  }

  lemma SteadyPolls(poll: Call)
    requires poll == Call(seq(5000, _ => Moved(1)), [0x41], [1, 7])
    ensures AllPolls([poll, poll]) && AllLegal([[0, 0x4D, 0]], 4096)
  {
    AmpleSchedule([0x41]);
    hide Ample;
  }

  lemma TwoReplies(block: seq<byte>, poll: Call)
    requires poll.data == [1, 7]
    ensures |[poll, poll]| == 2
    ensures BlocksOf(block, ([[0, 0x4D, 0]] + Datas([poll, poll]))[..2]) == [block, [7]]
  {
    var first, second: reply := [0, 0x4D, 0], [1, 7];
    assert ([first] + Datas([poll, poll]))[..2] == [first] + [second];
    BlocksStep(block, first, [second]);
    assert [second] == [second] + [];
    BlocksStep(block, second, []);
    assert second[1..] == [7];
  }

  // --- The verdict on any bytes

  /** With all transfers done in time, what the client makes of the bytes that come: a bad size and a bad checksum are
      parse errors, too few bytes time out, and a reply too large for the caller is out of memory. */
  lemma VerdictByBytes(script: seq<Io>, incoming: seq<byte>, cmd: seq<byte>, capacity: nat, n: nat)
    requires Ample(script, cmd) && 1 <= |cmd| <= MAX_FRAME && 2 <= capacity
    requires |incoming| >= 2 && n == incoming[0] as int * 256 + incoming[1]
    ensures var s := Send(script, incoming, cmd, capacity);
      if n == 0 || n > 4096 then s.err == ParseError
      else if |incoming| < n + 6 then s.err == TimeoutError
      else if FromBe32(incoming[n + 2..n + 6]) != Checksum(incoming[2..n + 2]) then s.err == ParseError
      else if n > capacity then s.err == MemoryError
      else s.err == Success && s.reply == incoming[2..n + 2]
  {
    assert FromBe16(incoming[..2]) == n;
    hide Transfer, Offers, Patient, Send, Receive, Frame, Checksum, FromBe16, FromBe32;
    PatienceSuffices(script, 0, |cmd| + 6, |cmd| + 6);
    var w := Transfer(script, 0, |cmd| + 6, |cmd| + 6);
    SendReaches(script, incoming, cmd, capacity, w);
    VerdictOfReceive(w.script, incoming, Frame(cmd), capacity, n);
  }

  lemma VerdictOfReceive(script: seq<Io>, incoming: seq<byte>, request: seq<byte>, capacity: nat, n: nat)
    requires Patient(script) && Offers(script) >= MAX_FRAME + 6
    requires |incoming| >= 2 && n == FromBe16(incoming[..2])
    ensures var s := Receive(script, incoming, request, capacity);
      if n == 0 || n > 4096 then s.err == ParseError
      else if |incoming| < n + 6 then s.err == TimeoutError
      else if FromBe32(incoming[n + 2..n + 6]) != Checksum(incoming[2..n + 2]) then s.err == ParseError
      else if n > capacity then s.err == MemoryError
      else s.err == Success && s.reply == incoming[2..n + 2]
  {
    hide Transfer, Offers, Patient, ReceiveBody, FromBe16, FromBe32, Checksum;
    PatienceSuffices(script, 0, 2, |incoming|);
    var h := Transfer(script, 0, 2, |incoming|);
    if 0 < n <= 4096 {
      VerdictOfBody(h.script, incoming[2..], n, request, capacity);
      if |incoming| >= n + 6 {
        BodySlices(incoming, n);
      }
    }
  }

  lemma BodySlices(incoming: seq<byte>, n: nat)
    requires |incoming| >= n + 6
    ensures incoming[2..][..n] == incoming[2..n + 2] && incoming[2..][n..n + 4] == incoming[n + 2..n + 6]
  {
  }

  lemma VerdictOfBody(script: seq<Io>, body: seq<byte>, n: nat, request: seq<byte>, capacity: nat)
    requires Patient(script) && Offers(script) >= n + 4
    ensures var s := ReceiveBody(script, body, n, request, capacity);
      if |body| < n + 4 then s.err == TimeoutError
      else if FromBe32(body[n..n + 4]) != Checksum(body[..n]) then s.err == ParseError
      else if n > capacity then s.err == MemoryError
      else s.err == Success && s.reply == body[..n]
  {
    if |body| < n + 4 {
      CutBody(script, body, n, request, capacity);
    } else {
      hide Transfer, Offers, Patient, FromBe32, Checksum;
      PatienceSuffices(script, 0, n, |body|);
      var f := Transfer(script, 0, n, |body|);
      PatienceSuffices(f.script, 0, 4, |body| - n);
    }
  }
}
