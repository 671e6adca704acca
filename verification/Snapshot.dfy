/** The daemon's shared OUTPC block: one polling thread and any number of RPC readers under one mutex. */
module Snapshot {
  import opened Bytes
  import opened Decoder

  datatype Owner = Free | HeldByPoller | HeldByReader(id: nat)

  /** The poll thread, one memory operation at a time. `Measured` holds the mutex and has not touched the block;
      `Noting` is the worker's own lock after a successful poll. */
  datatype Poller =
    | Idle
    | Fetched(frame: seq<byte>)
    | Measured(frame: seq<byte>)
    | Copying(frame: seq<byte>, done: nat)
    | Installed
    | Polled
    | Noting

  /** A reader: waiting with its list of looked-up fields, or inside with those decoded so far.
      `seen` counts the frames installed before it took the mutex. */
  datatype Reader =
    | Out
    | Waiting(items: seq<Option<FieldDef>>)
    | Inside(items: seq<Option<FieldDef>>, values: seq<Value>, seen: nat)

  datatype RpcReply = RpcReply(items: seq<Option<FieldDef>>, values: Option<seq<Value>>, seen: nat)

  /** `buffer` is the allocated memory (`outpc_size` bytes), `len` is `outpc_len`; `frames` and `replies` are the
      log. */
  datatype State = State(
    owner: Owner, buffer: seq<byte>, len: nat,
    poller: Poller, readers: seq<Reader>,
    frames: seq<seq<byte>>, replies: seq<RpcReply>)

  datatype Step =
    | PollArrives(frame: seq<byte>)  // a valid realtime reply, flag removed
    | PollFails  // any serial, checksum, flag or lock error
    | PollLocks
    | PollGrows(junk: seq<byte>)  // realloc when the block is too small
    | PollCannotGrow  // realloc fails
    | PollCopies  // one byte of memcpy
    | PollSetsLength
    | PollUnlocks
    | WorkerLocks
    | WorkerUnlocks
    | Asks(id: nat, items: seq<Option<FieldDef>>)
    | Locks(id: nat)
    | Decodes(id: nat)  // one field
    | Answers(id: nat)  // the reply, or the error for an unknown field, then unlock
    | GivesUp(id: nat)  // out of memory while building the reply, then unlock

  function Block(s: State): seq<byte> {
    Slice(s.buffer, 0, s.len)
  }

  function Leave(s: State, id: nat, values: Option<seq<Value>>): State
    requires id < |s.readers| && s.readers[id].Inside?
  {
    var r := s.readers[id];
    s.(owner := Free, readers := s.readers[id := Out],
       replies := s.replies + [RpcReply(r.items, values, r.seen)])
  }

  /** One step of one thread; a step that is not enabled changes nothing. */
  function NextPoll(s: State, step: Step): State {
    match step
    case PollArrives(frame) => if s.poller.Idle? then s.(poller := Fetched(frame)) else s
    case PollFails => if s.poller.Idle? || s.poller.Fetched? then s.(poller := Idle) else s
    case PollLocks =>
      if s.poller.Fetched? && s.owner.Free? then s.(owner := HeldByPoller, poller := Measured(s.poller.frame)) else s
    case PollGrows(junk) =>
      if !s.poller.Measured? then s
      else if |s.buffer| >= |s.poller.frame| then s.(poller := Copying(s.poller.frame, 0))
      else if |s.buffer| + |junk| == |s.poller.frame| then
        s.(buffer := s.buffer + junk, poller := Copying(s.poller.frame, 0))
      else s
    case PollCannotGrow => if s.poller.Measured? then s.(owner := Free, poller := Idle) else s
    case PollCopies =>
      if s.poller.Copying? && s.poller.done < |s.poller.frame| && s.poller.done < |s.buffer| then
        s.(buffer := s.buffer[s.poller.done := s.poller.frame[s.poller.done]],
           poller := Copying(s.poller.frame, s.poller.done + 1))
      else s
    case PollSetsLength =>
      if s.poller.Copying? && s.poller.done == |s.poller.frame| then
        s.(len := |s.poller.frame|, poller := Installed, frames := s.frames + [s.poller.frame])
      else s
    case PollUnlocks => if s.poller.Installed? then s.(owner := Free, poller := Polled) else s
    case WorkerLocks => if s.poller.Polled? && s.owner.Free? then s.(owner := HeldByPoller, poller := Noting) else s
    case WorkerUnlocks => if s.poller.Noting? then s.(owner := Free, poller := Idle) else s
    case _ => s
  }

  function NextRead(s: State, step: Step): State {
    match step
    case Asks(id, items) =>
      if id < |s.readers| && s.readers[id].Out? then s.(readers := s.readers[id := Waiting(items)]) else s
    case Locks(id) =>
      if id < |s.readers| && s.readers[id].Waiting? && s.owner.Free? then
        s.(owner := HeldByReader(id), readers := s.readers[id := Inside(s.readers[id].items, [], |s.frames|)])
      else s
    case Decodes(id) =>
      if id < |s.readers| && s.readers[id].Inside? && |s.readers[id].values| < |s.readers[id].items|
         && s.readers[id].items[|s.readers[id].values|].Some? then
        var r := s.readers[id];
        s.(readers := s.readers[id := r.(values := r.values + [DecodeValue(Block(s), r.items[|r.values|].value)])])
      else s
    case Answers(id) =>
      if id < |s.readers| && s.readers[id].Inside? then
        var r := s.readers[id];
        if |r.values| == |r.items| then Leave(s, id, Some(r.values))
        else if |r.values| < |r.items| && r.items[|r.values|].None? then Leave(s, id, None)
        else s
      else s
    case GivesUp(id) =>
      if id < |s.readers| && s.readers[id].Inside? then Leave(s, id, None) else s
    case _ => s
  }

  function Next(s: State, step: Step): State {
    match step
    case Asks(_, _) | Locks(_) | Decodes(_) | Answers(_) | GivesUp(_) => NextRead(s, step)
    case _ => NextPoll(s, step)
  }

  function Initial(readers: nat): State {
    State(Free, [], 0, Idle, seq(readers, _ => Out), [], [])
  }

  function Run(readers: nat, steps: seq<Step>): State {
    if steps == [] then Initial(readers) else Next(Run(readers, steps[..|steps| - 1]), steps[|steps| - 1])
  }

  /** The block after n installed frames; nothing before the first. */
  function FrameAt(frames: seq<seq<byte>>, n: nat): seq<byte>
    requires n <= |frames|
  {
    if n == 0 then [] else frames[n - 1]
  }

  // --- Invariant

  predicate InCriticalSection(p: Poller) {
    p.Measured? || p.Copying? || p.Installed? || p.Noting?
  }

  /** The mutex excludes: its owner, and only its owner, is in a critical section. */
  ghost predicate Exclusive(s: State) {
    && (s.owner.HeldByPoller? <==> InCriticalSection(s.poller))
    && forall id :: 0 <= id < |s.readers| ==> (s.readers[id].Inside? <==> s.owner == HeldByReader(id))
  }

  /** Outside the copy the block is exactly the last installed frame; during it a prefix is in place. */
  predicate BlockOk(s: State) {
    if s.poller.Copying? then
      && s.poller.done <= |s.poller.frame| <= |s.buffer|
      && s.buffer[..s.poller.done] == s.poller.frame[..s.poller.done]
    else s.len <= |s.buffer| && Block(s) == FrameAt(s.frames, |s.frames|)
  }

  /** These are the first values of the items, all decoded from this one block. */
  predicate DecodedFrom(block: seq<byte>, items: seq<Option<FieldDef>>, values: seq<Value>) {
    |values| <= |items|
    && forall i :: 0 <= i < |values| ==> items[i].Some? && values[i] == DecodeValue(block, items[i].value)
  }

  predicate ReaderOk(r: Reader, frames: seq<seq<byte>>) {
    r.Inside? ==> r.seen == |frames| && DecodedFrom(FrameAt(frames, |frames|), r.items, r.values)
  }

  /** A reply is a full decode of the frame that was last when its reader took the mutex. */
  predicate ReplyOk(r: RpcReply, frames: seq<seq<byte>>) {
    r.seen <= |frames|
    && (r.values.Some? ==>
          |r.values.value| == |r.items| && DecodedFrom(FrameAt(frames, r.seen), r.items, r.values.value))
  }

  ghost predicate LogOk(s: State) {
    && (forall i :: 0 <= i < |s.replies| ==> ReplyOk(s.replies[i], s.frames))
    && (forall i, j :: 0 <= i < j < |s.replies| ==> s.replies[i].seen <= s.replies[j].seen)
  }

  ghost predicate Inv(s: State) {
    && Exclusive(s)
    && BlockOk(s)
    && (forall id :: 0 <= id < |s.readers| ==> ReaderOk(s.readers[id], s.frames))
    && LogOk(s)
  }

  lemma PollKeepsInv(s: State, step: Step)
    requires Inv(s)
    ensures Inv(NextPoll(s, step))
  {
    hide DecodedFrom;
    var s' := NextPoll(s, step);
    if step.PollSetsLength? && s' != s {
      var frame := s.poller.frame;
      assert s'.buffer[..|frame|] == frame[..|frame|] == frame;
      assert forall id :: 0 <= id < |s.readers| ==> !s.readers[id].Inside?;
      forall i | 0 <= i < |s.replies|
        ensures ReplyOk(s.replies[i], s'.frames)
      {
        assert ReplyOk(s.replies[i], s.frames);
      }
    }
  }

  lemma ReadKeepsInv(s: State, step: Step)
    requires Inv(s)
    ensures Inv(NextRead(s, step))
  {
    if step.Answers? || step.GivesUp? {
      hide DecodeValue;
    }
  }

  lemma {:induction false} Reachable(readers: nat, steps: seq<Step>)
    ensures Inv(Run(readers, steps))
  {
    if steps == [] {
      assert Block(Initial(readers)) == [];
    } else {
      var n := |steps| - 1;
      Reachable(readers, steps[..n]);
      hide Inv, NextPoll, NextRead;
      PollKeepsInv(Run(readers, steps[..n]), steps[n]);
      ReadKeepsInv(Run(readers, steps[..n]), steps[n]);
    }
  }

  // --- What the readers get

  /** What `get_all` asks for, and what `get_value` and `get_values` ask for. */
  function AllItems(fs: seq<FieldDef>): (items: seq<Option<FieldDef>>)
    ensures |items| == |fs| && forall i :: 0 <= i < |fs| ==> items[i] == Some(fs[i])
  {
    seq(|fs|, i requires 0 <= i < |fs| => Some(fs[i]))
  }

  function NamedItems(fs: seq<FieldDef>, names: seq<string>): (items: seq<Option<FieldDef>>)
    ensures |items| == |names| && forall i :: 0 <= i < |names| ==> items[i] == Find(fs, names[i])
  {
    seq(|names|, i requires 0 <= i < |names| => Find(fs, names[i]))
  }

  /** In every interleaving, all values of one reply come from one frame: the last one installed before the reader
      took the mutex. Later replies never go back to an earlier frame. */
  lemma NoTornReply(readers: nat, steps: seq<Step>, k: nat)
    requires k < |Run(readers, steps).replies| && Run(readers, steps).replies[k].values.Some?
    ensures var s := Run(readers, steps);
      var r := s.replies[k];
      && r.seen <= |s.frames| && |r.values.value| == |r.items|
      && (forall i :: 0 <= i < |r.items| ==>
            r.items[i].Some? && r.values.value[i] == DecodeValue(FrameAt(s.frames, r.seen), r.items[i].value))
      && (forall j :: k < j < |s.replies| ==> r.seen <= s.replies[j].seen)
  {
    Reachable(readers, steps);
    hide Run, DecodeValue;
    assert ReplyOk(Run(readers, steps).replies[k], Run(readers, steps).frames);
  }

  /** A successful `get_all` is the whole field table decoded from one frame. */
  lemma GetAllIsOneFrame(readers: nat, steps: seq<Step>, k: nat, fs: seq<FieldDef>)
    requires k < |Run(readers, steps).replies| && Run(readers, steps).replies[k].values.Some?
    requires Run(readers, steps).replies[k].items == AllItems(fs)
    ensures var s := Run(readers, steps);
      s.replies[k].seen <= |s.frames|
      && s.replies[k].values == Some(DecodeValues(FrameAt(s.frames, s.replies[k].seen), fs))
  {
    NoTornReply(readers, steps, k);
    hide Run, DecodeValue;
    var s := Run(readers, steps);
    var frame := FrameAt(s.frames, s.replies[k].seen);
    var values := s.replies[k].values.value;
    forall i | 0 <= i < |fs|
      ensures values[i] == DecodeValues(frame, fs)[i]
    {
      assert s.replies[k].items[i] == Some(fs[i]);
    }
    assert values == DecodeValues(frame, fs);
  }

  /** A successful `get_values` found every name, and its entries are those fields decoded from one frame. */
  lemma GetValuesIsOneFrame(readers: nat, steps: seq<Step>, k: nat, fs: seq<FieldDef>, names: seq<string>)
    requires k < |Run(readers, steps).replies| && Run(readers, steps).replies[k].values.Some?
    requires Run(readers, steps).replies[k].items == NamedItems(fs, names)
    ensures var s := Run(readers, steps);
      var r := s.replies[k];
      && r.seen <= |s.frames| && |r.values.value| == |names|
      && forall i :: 0 <= i < |names| ==>
           Find(fs, names[i]).Some?
           && r.values.value[i] == DecodeValue(FrameAt(s.frames, r.seen), Find(fs, names[i]).value)
  {
    NoTornReply(readers, steps, k);
    hide Run, DecodeValue, Find;
  }

  /** While a reader is inside, and after any poll that fails or cannot grow the block, the block is still the last
      installed frame; a poll that completes makes it exactly its own frame. */
  lemma BlockIsLastFrame(readers: nat, steps: seq<Step>)
    ensures var s := Run(readers, steps);
      && (!s.poller.Copying? ==> Block(s) == FrameAt(s.frames, |s.frames|))
      && (s.owner.HeldByReader? ==> !s.poller.Copying?)
      && (forall step :: step == PollFails || step == PollCannotGrow ==>
            Block(Next(s, step)) == Block(s) && Next(s, step).frames == s.frames)
      && (Next(s, PollSetsLength) != s ==>
            Block(Next(s, PollSetsLength)) == s.poller.frame
            && Next(s, PollSetsLength).frames == s.frames + [s.poller.frame])
  {
    Reachable(readers, steps);
    hide Run;
    var s := Run(readers, steps);
    if Next(s, PollSetsLength) != s {
      var frame := s.poller.frame;
      assert s.buffer[..|frame|] == frame[..|frame|] == frame;
    }
  }

  // --- What runs through does arrive

  /** Steps taken from a state on. */
  function Onward(s: State, steps: seq<Step>): State
    decreases |steps|
  {
    if steps == [] then s else Onward(Next(s, steps[0]), steps[1..])
  }

  lemma OnwardStep(s: State, steps: seq<Step>)
    requires steps != []
    ensures Onward(s, steps) == Onward(Next(s, steps[0]), steps[1..])
  {
  }

  lemma {:induction false} OnwardSplits(s: State, a: seq<Step>, b: seq<Step>)
    ensures Onward(s, a + b) == Onward(Onward(s, a), b)
    decreases |a|
  {
    hide Next;
    if a == [] {
      assert a + b == b;
    } else {
      assert (a + b)[1..] == a[1..] + b;
      OnwardSplits(Next(s, a[0]), a[1..], b);
    }
  }

  lemma {:induction false} RunIsOnward(readers: nat, steps: seq<Step>)
    ensures Run(readers, steps) == Onward(Initial(readers), steps)
  {
    hide Next;
    if steps != [] {
      var front, last := steps[..|steps| - 1], steps[|steps| - 1];
      RunIsOnward(readers, front);
      OnwardSplits(Initial(readers), front, [last]);
      assert steps == front + [last];
      assert [last][1..] == [];
    }
  }

  function Repeated(step: Step, n: nat): (steps: seq<Step>)
    ensures |steps| == n && forall i :: 0 <= i < n ==> steps[i] == step
  {
    seq(n, _ => step)
  }

  lemma RepeatedSplits(step: Step, n: nat)
    requires n > 0
    ensures Repeated(step, n)[0] == step && Repeated(step, n)[1..] == Repeated(step, n - 1)
  {
  }

  /** The reader is inside and has decoded these values of its items. */
  predicate DecodedSoFar(s: State, id: nat, items: seq<Option<FieldDef>>, values: seq<Value>, block: seq<byte>) {
    && id < |s.readers| && Block(s) == block && DecodedFrom(block, items, values)
    && s.readers[id].Inside? && s.readers[id].items == items && s.readers[id].values == values
  }

  /** One decode adds the next item's value; at an item that was not found, or behind the last, it does nothing. */
  lemma DecodeOnce(s: State, id: nat, items: seq<Option<FieldDef>>, values: seq<Value>, block: seq<byte>)
    requires DecodedSoFar(s, id, items, values, block)
    ensures var t := Next(s, Decodes(id));
      if |values| < |items| && items[|values|].Some? then
        && t == s.(readers := t.readers) && |t.readers| == |s.readers|
        && t.readers == s.readers[id := t.readers[id]]
        && t.readers[id].Inside? && t.readers[id].seen == s.readers[id].seen
        && |t.readers[id].values| == |values| + 1
        && DecodedSoFar(t, id, items, t.readers[id].values, block)
      else t == s
  {
    hide DecodeValue;
  }

  /** So many decodes decode every item up to the first that was not found. */
  lemma {:induction false} DecodeAllItems(s: State, id: nat, items: seq<Option<FieldDef>>, values: seq<Value>,
                                          block: seq<byte>, n: nat)
    requires DecodedSoFar(s, id, items, values, block) && n >= |items| - |values|
    ensures var t := Onward(s, Repeated(Decodes(id), n));
      && t == s.(readers := t.readers) && |t.readers| == |s.readers| && t.readers == s.readers[id := t.readers[id]]
      && t.readers[id].Inside? && t.readers[id].seen == s.readers[id].seen
      && DecodedSoFar(t, id, items, t.readers[id].values, block)
      && (|t.readers[id].values| < |items| ==> items[|t.readers[id].values|].None?)
    decreases n
  {
    hide Next, DecodedFrom, Block;
    ItemsDone(block, items, values);
    if |values| == |items| || items[|values|].None? {
      DecodesIdle(s, id, items, values, block, n);
    } else {
      RepeatedSplits(Decodes(id), n);
      DecodeOnce(s, id, items, values, block);
      var t := Next(s, Decodes(id));
      DecodeAllItems(t, id, items, t.readers[id].values, block, n - 1);
    }
  }

  lemma {:induction false} DecodesIdle(s: State, id: nat, items: seq<Option<FieldDef>>, values: seq<Value>,
                                       block: seq<byte>, n: nat)
    requires DecodedSoFar(s, id, items, values, block) && (|values| < |items| ==> items[|values|].None?)
    ensures Onward(s, Repeated(Decodes(id), n)) == s
    decreases n
  {
    hide Next, DecodedSoFar;
    if n > 0 {
      RepeatedSplits(Decodes(id), n);
      DecodeOnce(s, id, items, values, block);
      DecodesIdle(s, id, items, values, block, n - 1);
    }
  }

  lemma ItemsDone(block: seq<byte>, items: seq<Option<FieldDef>>, values: seq<Value>)
    requires DecodedFrom(block, items, values)
    ensures |values| <= |items|
  {
  }

  /** One request from its arrival to its reply, nobody else moving. */
  function ReaderRun(id: nat, items: seq<Option<FieldDef>>): seq<Step> {
    [Asks(id, items), Locks(id)] + (Repeated(Decodes(id), |items|) + [Answers(id)])
  }

  /** A reader that finds the mutex free gets its answer: every item decoded from the last installed frame if all were
      found, and the error if one was not. Nothing else changes. */
  lemma ReaderIsAnswered(s: State, id: nat, items: seq<Option<FieldDef>>) returns (reply: RpcReply)
    requires Inv(s) && s.owner.Free? && id < |s.readers| && s.readers[id].Out?
    ensures Onward(s, ReaderRun(id, items)) == s.(replies := s.replies + [reply])
    ensures reply.items == items && reply.seen == |s.frames|
    ensures reply.values.Some? <==> forall i :: 0 <= i < |items| ==> items[i].Some?
    ensures reply.values.Some? ==>
      && |reply.values.value| == |items|
      && forall i :: 0 <= i < |items| ==>
           reply.values.value[i] == DecodeValue(FrameAt(s.frames, |s.frames|), items[i].value)
  {
    var block := FrameAt(s.frames, |s.frames|);
    var entered := ReaderEnters(s, id, items);
    hide Next, DecodeValue;
    DecodeAllItems(entered, id, items, [], block, |items|);
    var decoded := Onward(entered, Repeated(Decodes(id), |items|));
    reply := ReaderLeaves(decoded, id, items, decoded.readers[id].values, block);
    ReaderSteps(s, id, items);
    assert s.readers[id := entered.readers[id]][id := decoded.readers[id]][id := Out] == s.readers;
  }

  lemma ReaderEnters(s: State, id: nat, items: seq<Option<FieldDef>>) returns (entered: State)
    requires Inv(s) && s.owner.Free? && id < |s.readers| && s.readers[id].Out?
    ensures entered == Next(Next(s, Asks(id, items)), Locks(id))
    ensures entered == s.(owner := HeldByReader(id), readers := entered.readers)
    ensures |entered.readers| == |s.readers| && entered.readers == s.readers[id := Inside(items, [], |s.frames|)]
    ensures DecodedSoFar(entered, id, items, [], FrameAt(s.frames, |s.frames|))
  {
    entered := Next(Next(s, Asks(id, items)), Locks(id));
    hide DecodeValue;
    var inside := Inside(items, [], |s.frames|);
    assert s.readers[id := Waiting(items)][id := inside] == s.readers[id := inside];
  }

  lemma ReaderLeaves(s: State, id: nat, items: seq<Option<FieldDef>>, values: seq<Value>, block: seq<byte>)
    returns (reply: RpcReply)
    requires DecodedSoFar(s, id, items, values, block)
    requires |values| < |items| ==> items[|values|].None?
    ensures reply.items == items && reply.seen == s.readers[id].seen
    ensures Next(s, Answers(id)) == s.(owner := Free, readers := s.readers[id := Out], replies := s.replies + [reply])
    ensures reply.values.Some? <==> forall i :: 0 <= i < |items| ==> items[i].Some?
    ensures reply.values.Some? ==> |reply.values.value| == |items| && DecodedFrom(block, items, reply.values.value)
  {
    hide DecodeValue;
    reply := RpcReply(items, if |values| == |items| then Some(values) else None, s.readers[id].seen);
  }

  lemma ReaderSteps(s: State, id: nat, items: seq<Option<FieldDef>>)
    ensures var entered := Next(Next(s, Asks(id, items)), Locks(id));
      Onward(s, ReaderRun(id, items)) == Next(Onward(entered, Repeated(Decodes(id), |items|)), Answers(id))
  {
    hide Next;
    var decodes := Repeated(Decodes(id), |items|);
    var run := ReaderRun(id, items);
    assert run[1..] == [Locks(id)] + (decodes + [Answers(id)]);
    assert run[1..][1..] == decodes + [Answers(id)];
    OnwardSplits(Next(Next(s, Asks(id, items)), Locks(id)), decodes, [Answers(id)]);
    assert [Answers(id)][1..] == [];
  }

  /** One poll from its frame's arrival to the end of the worker's turn, nobody else moving. */
  function PollRun(frame: seq<byte>, junk: seq<byte>): seq<Step> {
    [PollArrives(frame), PollLocks, PollGrows(junk)]
    + (Repeated(PollCopies, |frame|) + [PollSetsLength, PollUnlocks, WorkerLocks, WorkerUnlocks])
  }

  /** Copying to the end puts the whole frame in front of the buffer. */
  lemma {:induction false} CopyAll(s: State, frame: seq<byte>, done: nat)
    requires s.poller == Copying(frame, done) && done <= |frame| <= |s.buffer| && s.buffer[..done] == frame[..done]
    ensures var t := Onward(s, Repeated(PollCopies, |frame| - done));
      && t == s.(buffer := t.buffer, poller := Copying(frame, |frame|))
      && |t.buffer| == |s.buffer| && t.buffer[..|frame|] == frame
    decreases |frame| - done
  {
    if done < |frame| {
      RepeatedSplits(PollCopies, |frame| - done);
      var t := Next(s, PollCopies);
      assert t.buffer[..done + 1] == s.buffer[..done] + [frame[done]] == frame[..done + 1];
      hide Next;
      CopyAll(t, frame, done + 1);
    } else {
      assert frame[..done] == frame;
    }
  }

  /** A frame that arrives while the mutex is free becomes the block and the last of the installed frames. */
  lemma PollIsInstalled(s: State, frame: seq<byte>, junk: seq<byte>)
    requires s.poller.Idle? && s.owner.Free?
    requires |junk| == if |frame| > |s.buffer| then |frame| - |s.buffer| else 0
    ensures var t := Onward(s, PollRun(frame, junk));
      && Block(t) == frame && t.frames == s.frames + [frame]
      && t.owner.Free? && t.poller.Idle? && t.readers == s.readers && t.replies == s.replies
  {
    var grown := Next(Next(Next(s, PollArrives(frame)), PollLocks), PollGrows(junk));
    assert junk == [] ==> s.buffer + junk == s.buffer;
    assert grown == s.(owner := HeldByPoller, buffer := s.buffer + junk, poller := Copying(frame, 0));
    hide Next;
    CopyAll(grown, frame, 0);
    var copied := Onward(grown, Repeated(PollCopies, |frame|));
    PollEnds(copied, frame);
    PollSteps(s, frame, junk);
  }

  lemma PollEnds(s: State, frame: seq<byte>)
    requires s.poller == Copying(frame, |frame|) && |frame| <= |s.buffer| && s.buffer[..|frame|] == frame
    ensures var t := Next(Next(Next(Next(s, PollSetsLength), PollUnlocks), WorkerLocks), WorkerUnlocks);
      && Block(t) == frame && t == s.(owner := Free, poller := Idle, len := |frame|, frames := s.frames + [frame])
  {
  }

  lemma PollSteps(s: State, frame: seq<byte>, junk: seq<byte>)
    ensures var grown := Next(Next(Next(s, PollArrives(frame)), PollLocks), PollGrows(junk));
      var copied := Onward(grown, Repeated(PollCopies, |frame|));
      Onward(s, PollRun(frame, junk)) ==
        Next(Next(Next(Next(copied, PollSetsLength), PollUnlocks), WorkerLocks), WorkerUnlocks)
  {
    hide Next;
    var copies, ends := Repeated(PollCopies, |frame|), [PollSetsLength, PollUnlocks, WorkerLocks, WorkerUnlocks];
    var run := PollRun(frame, junk);
    assert run[1..] == [PollLocks, PollGrows(junk)] + (copies + ends);
    assert run[1..][1..] == [PollGrows(junk)] + (copies + ends);
    assert run[1..][1..][1..] == copies + ends;
    var grown := Next(Next(Next(s, PollArrives(frame)), PollLocks), PollGrows(junk));
    OnwardStep(s, run);
    OnwardStep(Next(s, PollArrives(frame)), run[1..]);
    OnwardStep(Next(Next(s, PollArrives(frame)), PollLocks), run[1..][1..]);
    OnwardSplits(grown, copies, ends);
    FourSteps(Onward(grown, copies), ends);
  }

  lemma FourSteps(s: State, steps: seq<Step>)
    requires |steps| == 4
    ensures Onward(s, steps) == Next(Next(Next(Next(s, steps[0]), steps[1]), steps[2]), steps[3])
  {
    hide Next;
    assert steps[1..][1..] == steps[2..] && steps[2..][1..] == steps[3..] && steps[3..][1..] == [];
    OnwardStep(s, steps);
    OnwardStep(Next(s, steps[0]), steps[1..]);
    OnwardStep(Next(Next(s, steps[0]), steps[1]), steps[2..]);
    OnwardStep(Next(Next(Next(s, steps[0]), steps[1]), steps[2]), steps[3..]);
  }

  /** After any run, a frame polled and then a request for fields that were all found, each while the mutex is free: the
      request is answered with these fields decoded from this frame. */
  lemma FreshFrameIsServed(readers: nat, steps: seq<Step>, frame: seq<byte>, junk: seq<byte>, id: nat,
                           fs: seq<FieldDef>)
    requires var s := Run(readers, steps);
      && s.poller.Idle? && s.owner.Free? && id < |s.readers| && s.readers[id].Out?
      && |junk| == if |frame| > |s.buffer| then |frame| - |s.buffer| else 0
    ensures var s := Run(readers, steps);
      var t := Run(readers, steps + (PollRun(frame, junk) + ReaderRun(id, AllItems(fs))));
      && t.frames == s.frames + [frame] && Block(t) == frame
      && t.replies == s.replies + [RpcReply(AllItems(fs), Some(DecodeValues(frame, fs)), |s.frames| + 1)]
  {
    hide Next, DecodeValue, Inv, ReaderRun, PollRun, Run;
    var s := Run(readers, steps);
    var polled := Onward(s, PollRun(frame, junk));
    PollIsInstalled(s, frame, junk);
    RunThen(readers, steps, PollRun(frame, junk));
    Reachable(readers, steps + PollRun(frame, junk));
    var reply := ReaderIsAnswered(polled, id, AllItems(fs));
    RunThen(readers, steps, PollRun(frame, junk) + ReaderRun(id, AllItems(fs)));
    OnwardSplits(s, PollRun(frame, junk), ReaderRun(id, AllItems(fs)));
    assert reply.values.value == DecodeValues(frame, fs);
  }

  lemma RunThen(readers: nat, steps: seq<Step>, more: seq<Step>)
    ensures Run(readers, steps + more) == Onward(Run(readers, steps), more)
  {
    hide Next;
    RunIsOnward(readers, steps);
    RunIsOnward(readers, steps + more);
    OnwardSplits(Initial(readers), steps, more);
  }

  /** A poll or a request that fails ends, with block and frames as they were and the mutex free; the request's reply is
      the error. */
  lemma FailuresEnd(s: State, id: nat)
    requires Inv(s)
    ensures s.poller.Idle? || s.poller.Fetched? ==> Next(s, PollFails) == s.(poller := Idle)
    ensures s.poller.Measured? ==> Next(s, PollCannotGrow) == s.(poller := Idle, owner := Free)
    ensures id < |s.readers| && s.readers[id].Inside? ==>
      Next(s, GivesUp(id)) ==
        s.(owner := Free, readers := s.readers[id := Out],
           replies := s.replies + [RpcReply(s.readers[id].items, None, s.readers[id].seen)])
  {
    hide Inv;
  }
}
