/** The simulator around the protocol: where pages come from, how the buffer is drained, what is kept on exit. */
module Simulator {
  import opened Bytes
  import opened Framing
  import opened PageStore
  import opened PageFile
  import opened Protocol

  // --- Initial pages

  /** The table ids of `MS2_PAGES`. */
  const MS2_TABLES: set<byte> := {0x04, 0x05, 0x0A, 0x08, 0x09, 0x0B, 0x0C}

  datatype Initial = Initial(pages: pages, fromFile: bool)

  /** What a `PageBuilder` holds: every page of `MS2_PAGES` at its size, whatever was loaded into them. */
  predicate IsTune(builder: pages) {
    builder.Keys == MS2_TABLES && forall t :: t in builder ==> |builder[t]| == DEFAULT_PAGE
  }

  /** `PageBuilder.get_page_data`. */
  function BuilderPage(builder: pages, table: byte): seq<byte> {
    if table in builder then builder[table] else Zeros(DEFAULT_PAGE)
  }

  /** `_init_pages`: a saved file with at least one page, else the tune, else empty pages. */
  function InitPages(file: Option<seq<byte>>, builder: Option<pages>): Initial {
    var saved := if file.Some? then Load(file.value) else None;
    if saved.Some? && saved.value != map[] then Initial(saved.value, true)
    else if builder.Some? then Initial(map t | t in MS2_TABLES :: BuilderPage(builder.value, t), false)
    else Initial(map t | t in MS2_TABLES :: Zeros(DEFAULT_PAGE), false)
  }

  /** `_cleanup` with a pages file configured. */
  function Cleanup(file: Option<seq<byte>>, store: Store): Option<seq<byte>> {
    if store.modified then Save(store.pages) else file
  }

  /** `_init_pages` on a protocol that has no pages yet. */
  method InitialisePages(protocol: SerialProtocol, file: Option<seq<byte>>, builder: Option<pages>)
    requires protocol.State() == Store(map[], false)
    modifies protocol
    ensures protocol.State() == Store(InitPages(file, builder).pages, false)
  {
    hide Load;
    if file.Some? {
      var saved := LoadPagesFromFile(file.value);
      if saved.Some? && saved.value != map[] {
        SetPages(protocol, saved.value, saved.value.Keys);
        return;
      }
    }
    if builder.Some? {
      SetPages(protocol, map t | t in MS2_TABLES :: BuilderPage(builder.value, t), MS2_TABLES);
    } else {
      SetPages(protocol, map t | t in MS2_TABLES :: Zeros(DEFAULT_PAGE), MS2_TABLES);
    }
  }

  method SetPages(protocol: SerialProtocol, m: pages, tables: set<byte>)
    requires protocol.State() == Store(map[], false) && m.Keys == tables
    modifies protocol
    ensures protocol.State() == Store(m, false)
  {
    var left := tables;
    while left != {}
      invariant left <= m.Keys && !protocol.pagesModified
      invariant protocol.pageData == m - left
      decreases |left|
    {
      var t :| t in left;
      protocol.SetPageData(t, m[t]);
      left := left - {t};
    }
    assert m - {} == m;
  }

  /** `_cleanup`: what the pages file holds afterwards. */
  method SaveIfModified(protocol: SerialProtocol, file: Option<seq<byte>>) returns (kept: Option<seq<byte>>)
    ensures kept == Cleanup(file, protocol.State())
  {
    hide Save;
    if !protocol.pagesModified {
      return file;
    }
    kept := SavePagesToFile(protocol.pageData);
  }

  lemma {:induction false} DecodedStorable(s: seq<byte>, n: nat, acc: pages)
    requires Storable(acc)
    ensures DecodePages(s, n, acc).Some? ==> Storable(DecodePages(s, n, acc).value)
    decreases n
  {
    if n > 0 && |s| >= 3 {
      var size := FromBe16(s[1..3]);
      if |s| >= 3 + size {
        DecodedStorable(s[3 + size..], n - 1, acc[s[0] := s[3..3 + size]]);
      }
    }
  }

  lemma InitialStorable(file: Option<seq<byte>>, builder: Option<pages>)
    requires builder.Some? ==> Storable(builder.value)
    ensures Storable(InitPages(file, builder).pages)
    ensures InitPages(file, builder).pages != map[]
  {
    if file.Some? && |file.value| >= 12 {
      DecodedStorable(file.value[12..], FromBe32(file.value[8..12]), map[]);
    }
    var p := InitPages(file, builder);
    if !p.fromFile {
      assert 0x04 in p.pages;
    }
  }

  /** Serving never makes a page unstorable and never empties the store. */
  lemma FinalStorable(cfg: Config, initial: Store, requests: seq<seq<byte>>)
    requires Storable(initial.pages) && initial.pages != map[]
    ensures Storable(Run(cfg, initial, requests).pages)
    ensures Run(cfg, initial, requests).pages != map[]
  {
    var final := Run(cfg, initial, requests);
    forall t | t in final.pages
      ensures |final.pages[t]| < 0x1_0000
    {
      StoreIsMemory(cfg, initial, requests, t, 0);
    }
    var t :| t in initial.pages;
    StoreIsMemory(cfg, initial, requests, t, 0);
  }

  // --- Restart

  function Payloads(cs: seq<Command>): seq<seq<byte>> {
    if cs == [] then []
    else
      var last := cs[|cs| - 1];
      Payloads(cs[..|cs| - 1]) + (if last.Request? then [last.payload] else [])
  }

  lemma {:induction false} ServeRunsPayloads(cfg: Config, store: Store, cs: seq<Command>)
    ensures Serve(cfg, store, cs).store == Run(cfg, store, Payloads(cs))
  {
    if cs != [] {
      hide PageStore.HandleRequest;
      var front, last := cs[..|cs| - 1], cs[|cs| - 1];
      ServeRunsPayloads(cfg, store, front);
      if last.Request? {
        assert (Payloads(front) + [last.payload])[..|Payloads(front)|] == Payloads(front);
      } else {
        assert Payloads(front) + [] == Payloads(front);
      }
    }
  }

  /** Every session on freshly initialised pages ends in a store some run of requests leads to. */
  lemma SessionRuns(cfg: Config, initial: Store, actions: seq<Action>) returns (requests: seq<seq<byte>>)
    ensures After(cfg, initial, actions).store == Run(cfg, initial, requests)
  {
    var s := After(cfg, initial, actions);
    requests := Payloads(s.commands);
    SessionFaithful(cfg, initial, actions);
    ServeRunsPayloads(cfg, initial, s.commands);
    hide After, Run, Payloads, ParseStream;
  }

  ghost predicate SameWithEveryTune(file: Option<seq<byte>>, final: Store) {
    forall other: Option<pages> :: (other.Some? ==> IsTune(other.value)) ==> InitPages(file, other).pages == final.pages
  }

  /** After any session and a clean exit, every restart comes up with the same pages, whatever tune it is given,
      exactly when the pages came from the file or were modified; with the old tune it always does. */
  lemma RestartPreservesTune(cfg: Config, file: Option<seq<byte>>, builder: Option<pages>, actions: seq<Action>)
    requires builder.Some? ==> Storable(builder.value)
    ensures var first := InitPages(file, builder);
      var final := After(cfg, Store(first.pages, false), actions).store;
      var kept := Cleanup(file, final);
      && InitPages(kept, builder).pages == final.pages
      && (SameWithEveryTune(kept, final) <==> first.fromFile || final.modified)
  {
    var first := InitPages(file, builder);
    var initial := Store(first.pages, false);
    var requests := SessionRuns(cfg, initial, actions);
    InitialStorable(file, builder);
    FinalStorable(cfg, initial, requests);
    ModifiedExactly(cfg, initial, requests);
    hide After, Run;
    RestartFrom(file, builder, After(cfg, initial, actions).store);
  }

  lemma RestartFrom(file: Option<seq<byte>>, builder: Option<pages>, final: Store)
    requires Storable(final.pages) && final.pages != map[]
    requires !final.modified ==> final.pages == InitPages(file, builder).pages
    ensures var kept := Cleanup(file, final);
      && InitPages(kept, builder).pages == final.pages
      && (SameWithEveryTune(kept, final) <==> InitPages(file, builder).fromFile || final.modified)
  {
    if final.modified {
      SaveLoads(final.pages, []);
      assert Save(final.pages).value + [] == Save(final.pages).value;
      hide Load, Save;
    } else if !InitPages(file, builder).fromFile {
      hide Load, Save;
      var one, two := FilledTune(1), FilledTune(2);
      assert one[0x04][0] == 1 && two[0x04][0] == 2;
      assert InitPages(file, Some(one)).pages[0x04][0] == 1;
      assert InitPages(file, Some(two)).pages[0x04][0] == 2;
      assert !SameWithEveryTune(file, final);
    }
  }

  /** A tune every byte of which is b. */
  function FilledTune(b: byte): (m: pages)
    ensures IsTune(m)
  {
    map t | t in MS2_TABLES :: seq(DEFAULT_PAGE, _ => b)
  }

  // --- The serving loop

  /** What draining leaves: the buffer, the store, what was written back, and whether an error escaped. */
  datatype Drained = Drained(buffer: seq<byte>, store: Store, sent: seq<seq<byte>>, raised: bool)

  /** The inner loop of `_run_loop`: call until a call returns nothing, even if bytes remain. */
  function Drain(cfg: Config, store: Store, buffer: seq<byte>): Drained
    decreases |buffer|
  {
    var t := TakeNext(buffer);
    if t.command.None? then Drained(t.rest, store, [], false)
    else
      var h := Respond(cfg, store, t.command.value);
      match h.outcome
      case NoReply => Drained(t.rest, h.store, [], false)
      case Raised => Drained(t.rest, h.store, [], true)
      case Reply(data) =>
        var d := Drain(cfg, h.store, t.rest);
        d.(sent := [data] + d.sent)
  }

  /** Turns of the outer loop in which nothing new arrives. */
  function Turns(cfg: Config, store: Store, buffer: seq<byte>, n: nat): Drained
    decreases n
  {
    if n == 0 then Drained(buffer, store, [], false)
    else
      var d := Drain(cfg, store, buffer);
      if d.raised then d
      else
        var e := Turns(cfg, d.store, d.buffer, n - 1);
        e.(sent := d.sent + e.sent)
  }

  /** Commands served in order until one raises. */
  datatype Answered = Answered(store: Store, sent: seq<seq<byte>>, raised: bool)

  function Answer(cfg: Config, store: Store, cs: seq<Command>): Answered
    decreases |cs|
  {
    if cs == [] then Answered(store, [], false)
    else
      var h := Respond(cfg, store, cs[0]);
      match h.outcome
      case NoReply => Answer(cfg, h.store, cs[1..])
      case Raised => Answered(h.store, [], true)
      case Reply(data) =>
        var a := Answer(cfg, h.store, cs[1..]);
        a.(sent := [data] + a.sent)
  }

  method DrainBuffer(rb: RequestBuffer) returns (sent: seq<seq<byte>>, raised: bool)
    modifies rb, rb.protocol
    ensures Drained(rb.buffer, rb.protocol.State(), sent, raised)
         == Drain(rb.protocol.config, old(rb.protocol.State()), old(rb.buffer))
  {
    hide TakeNext, Respond;
    sent, raised := [], false;
    ghost var cfg := rb.protocol.config;
    ghost var whole := Drain(cfg, rb.protocol.State(), rb.buffer);
    while true
      invariant !raised
      invariant var d := Drain(cfg, rb.protocol.State(), rb.buffer); whole == d.(sent := sent + d.sent)
      decreases |rb.buffer|
    {
      ghost var before := rb.buffer;
      var response := rb.GetNextResponse();
      match response {
        case NoReply =>
          assert sent + [] == sent;
          return;
        case Raised =>
          raised := true;
          assert sent + [] == sent;
          return;
        case Reply(data) =>
          assert |rb.buffer| < |before|;
          ghost var d := Drain(cfg, rb.protocol.State(), rb.buffer);
          assert sent + ([data] + d.sent) == (sent + [data]) + d.sent;
          sent := sent + [data];
      }
    }
  }

  lemma RespondIsNotSilent(cfg: Config, store: Store, c: Command)
    requires Sendable(c)
    ensures Respond(cfg, store, c).outcome != NoReply
  {
    hide Frame, Slice, Padded, Zeros, CanWrite;
  }

  predicate IsPartial(d: Drained, later: Answered, a: Answered) {
    if d.raised then a == Answered(d.store, d.sent, true)
    else a == later.(sent := d.sent + later.sent)
  }

  lemma AnswerFront(cfg: Config, store: Store, c: Command, cs: seq<Command>)
    ensures var h := Respond(cfg, store, c);
      var later := Answer(cfg, h.store, cs);
      Answer(cfg, store, [c] + cs) ==
        match h.outcome
        case NoReply => later
        case Raised => Answered(h.store, [], true)
        case Reply(data) => later.(sent := [data] + later.sent)
  {
    hide Respond;
    assert ([c] + cs)[1..] == cs;
  }

  lemma DrainFront(cfg: Config, store: Store, buffer: seq<byte>, t: Taken)
    requires TakeNext(buffer) == t && t.command.Some?
    ensures var h := Respond(cfg, store, t.command.value);
      var d := Drain(cfg, h.store, t.rest);
      Drain(cfg, store, buffer) ==
        match h.outcome
        case NoReply => Drained(t.rest, h.store, [], false)
        case Raised => Drained(t.rest, h.store, [], true)
        case Reply(data) => d.(sent := [data] + d.sent)
  {
    hide Respond;
  }

  /** A drain served a first part of the waiting commands; it took bytes unless there was nothing to take. */
  predicate ServedPart(cfg: Config, store: Store, buffer: seq<byte>, d: Drained) {
    && (d.raised || ParseStream(d.buffer).rest == ParseStream(buffer).rest)
    && IsPartial(d, Answer(cfg, d.store, ParseStream(d.buffer).commands),
                 Answer(cfg, store, ParseStream(buffer).commands))
    && (|d.buffer| < |buffer| || (Quiescent(buffer) && d == Drained(buffer, store, [], false)))
  }

  lemma DrainNothing(cfg: Config, store: Store, buffer: seq<byte>, t: Taken)
    requires TakeNext(buffer) == t && t.command.None?
    ensures ServedPart(cfg, store, buffer, Drain(cfg, store, buffer))
  {
    QuiescentIsShort(buffer);
    if t.rest != buffer {
      ParseStep(buffer, t);
    }
    hide TakeNext, ParseStream, Respond, Answer;
    var later := Answer(cfg, store, ParseStream(t.rest).commands);
    assert [] + later.sent == later.sent;
  }

  lemma DrainSomething(cfg: Config, store: Store, buffer: seq<byte>, t: Taken)
    requires TakeNext(buffer) == t && t.command.Some? && t.rest != buffer
    requires ServedPart(cfg, Respond(cfg, store, t.command.value).store, t.rest,
                        Drain(cfg, Respond(cfg, store, t.command.value).store, t.rest))
    requires |t.rest| < |buffer| && Sendable(t.command.value)
    ensures ServedPart(cfg, store, buffer, Drain(cfg, store, buffer))
  {
    hide TakeNext, ParseStream, Respond, Answer, Drain, Quiescent, Sendable, IsPartial;
    var c := t.command.value;
    var h := Respond(cfg, store, c);
    var d := Drain(cfg, h.store, t.rest);
    RespondIsNotSilent(cfg, store, c);
    DrainFront(cfg, store, buffer, t);
    AnswerFront(cfg, store, c, ParseStream(t.rest).commands);
    ParseStep(buffer, t);
    PartialFront(h, t.rest, d, Answer(cfg, d.store, ParseStream(d.buffer).commands),
                 Answer(cfg, h.store, ParseStream(t.rest).commands));
  }

  lemma PartialFront(h: Handled, rest: seq<byte>, d: Drained, later: Answered, a: Answered)
    requires IsPartial(d, later, a)
    ensures h.outcome.Reply? ==>
      IsPartial(d.(sent := [h.outcome.data] + d.sent), later, a.(sent := [h.outcome.data] + a.sent))
    ensures h.outcome.Raised? ==>
      forall l :: IsPartial(Drained(rest, h.store, [], true), l, Answered(h.store, [], true))
  {
    if h.outcome.Reply? {
      assert [h.outcome.data] + (d.sent + later.sent) == [h.outcome.data] + d.sent + later.sent;
    }
  }

  lemma {:induction false} DrainServesPart(cfg: Config, store: Store, buffer: seq<byte>)
    ensures ServedPart(cfg, store, buffer, Drain(cfg, store, buffer))
    decreases |buffer|
  {
    hide *;
    var t := TakeNext(buffer);
    if t.command.None? {
      DrainNothing(cfg, store, buffer, t);
    } else {
      DrainServesPart(cfg, Respond(cfg, store, t.command.value).store, t.rest);
      DrainSomething(cfg, store, buffer, t);
    }
  }

  lemma {:induction false} TurnsRest(cfg: Config, store: Store, buffer: seq<byte>, n: nat)
    requires Drain(cfg, store, buffer) == Drained(buffer, store, [], false)
    ensures Turns(cfg, store, buffer, n) == Drained(buffer, store, [], false)
    decreases n
  {
    hide Drain;
    if n > 0 {
      TurnsRest(cfg, store, buffer, n - 1);
    }
  }

  lemma TurnsUnfold(cfg: Config, store: Store, buffer: seq<byte>, n: nat)
    requires n > 0
    ensures var d := Drain(cfg, store, buffer);
      var e := Turns(cfg, d.store, d.buffer, n - 1);
      Turns(cfg, store, buffer, n) == if d.raised then d else e.(sent := d.sent + e.sent)
  {
  }

  predicate ServedAll(cfg: Config, store: Store, buffer: seq<byte>, r: Drained) {
    && Answered(r.store, r.sent, r.raised) == Answer(cfg, store, ParseStream(buffer).commands)
    && (r.raised || r.buffer == ParseStream(buffer).rest)
  }

  lemma NothingToServe(cfg: Config, store: Store, buffer: seq<byte>)
    requires Quiescent(buffer)
    ensures ServedAll(cfg, store, buffer, Drained(buffer, store, [], false))
    ensures Drain(cfg, store, buffer) == Drained(buffer, store, [], false)
  {
    QuiescentIsShort(buffer);
    assert ParseStream(buffer) == Stream([], buffer);
  }

  lemma PartThenAll(cfg: Config, store: Store, buffer: seq<byte>, d: Drained, e: Drained)
    requires ServedPart(cfg, store, buffer, d)
    requires !d.raised ==> ServedAll(cfg, d.store, d.buffer, e)
    ensures ServedAll(cfg, store, buffer, if d.raised then d else e.(sent := d.sent + e.sent))
  {
    hide ParseStream, Answer, Quiescent;
  }

  /** Junk only delays: as many turns as there are waiting bytes answer every waiting command, in order. */
  lemma {:induction false} TurnsServeEverything(cfg: Config, store: Store, buffer: seq<byte>, n: nat)
    requires n >= |buffer|
    ensures ServedAll(cfg, store, buffer, Turns(cfg, store, buffer, n))
    decreases n
  {
    if n == 0 || Quiescent(buffer) {
      NothingToServe(cfg, store, buffer);
      hide Drain, ServedAll;
      TurnsRest(cfg, store, buffer, n);
    } else {
      hide *;
      var d := Drain(cfg, store, buffer);
      DrainServesPart(cfg, store, buffer);
      PartShrinks(cfg, store, buffer, d);
      TurnsUnfold(cfg, store, buffer, n);
      if !d.raised {
        TurnsServeEverything(cfg, d.store, d.buffer, n - 1);
      }
      PartThenAll(cfg, store, buffer, d, Turns(cfg, d.store, d.buffer, n - 1));
    }
  }

  lemma PartShrinks(cfg: Config, store: Store, buffer: seq<byte>, d: Drained)
    requires ServedPart(cfg, store, buffer, d) && !Quiescent(buffer)
    ensures |d.buffer| < |buffer|
  {
    hide ParseStream, Answer, Quiescent;
  }

  // --- When one drain is enough

  lemma {:induction false} ParsedSendable(s: seq<byte>)
    ensures forall c :: c in ParseStream(s).commands ==> Sendable(c)
    decreases |s|
  {
    hide TakeNext, Sendable;
    if !Quiescent(s) {
      var t := NextShrinks(s);
      ParsedSendable(t.rest);
    }
  }

  /** Every waiting command stands at the front of the buffer, with no junk before or between. */
  ghost predicate Unmixed(buffer: seq<byte>) {
    && (forall c :: c in ParseStream(buffer).commands ==> Sendable(c))
    && EncodeAll(ParseStream(buffer).commands) <= buffer
  }

  /** A drain that raises nothing leaves no command waiting exactly when no junk precedes the last one. */
  lemma {:induction false} DrainServesAllExactly(cfg: Config, store: Store, buffer: seq<byte>)
    ensures var d := Drain(cfg, store, buffer);
      d.raised || (ParseStream(d.buffer).commands == [] <==> Unmixed(buffer))
    decreases |buffer|
  {
    hide *;
    var t := TakeNext(buffer);
    if t.command.None? {
      JunkStops(cfg, store, buffer, t);
    } else {
      var h := Respond(cfg, store, t.command.value);
      CommandTaken(buffer, t);
      DrainServesAllExactly(cfg, h.store, t.rest);
      RespondIsNotSilent(cfg, store, t.command.value);
      DrainFront(cfg, store, buffer, t);
      UnmixedStep(buffer, t);
    }
  }

  lemma CommandTaken(buffer: seq<byte>, t: Taken)
    requires t == TakeNext(buffer) && t.command.Some?
    ensures |t.rest| < |buffer| && Sendable(t.command.value)
    ensures buffer == Encode(t.command.value) + t.rest
  {
    TakenIsEncoded(buffer, t);
  }

  lemma JunkStops(cfg: Config, store: Store, buffer: seq<byte>, t: Taken)
    requires t == TakeNext(buffer) && t.command.None?
    ensures Drain(cfg, store, buffer) == Drained(t.rest, store, [], false)
    ensures ParseStream(t.rest).commands == [] <==> Unmixed(buffer)
  {
    ParsedSendable(buffer);
    CallParses(buffer, t);
    var cs := ParseStream(buffer).commands;
    if cs != [] && EncodeAll(cs) <= buffer {
      var later := buffer[|EncodeAll(cs)|..];
      assert buffer == EncodeAll(cs) + later;
      EncodeAllSplits(cs, later);
      TakeEncoded(cs[0], EncodeAll(cs[1..]) + later);
    }
  }

  lemma UnmixedStep(buffer: seq<byte>, t: Taken)
    requires t == TakeNext(buffer) && t.command.Some? && Sendable(t.command.value)
    requires buffer == Encode(t.command.value) + t.rest
    ensures Unmixed(buffer) <==> Unmixed(t.rest)
  {
    ParsedSendable(buffer);
    ParsedSendable(t.rest);
    CallParses(buffer, t);
    hide TakeNext, ParseStream, Encode, Sendable;
    var c, cs := t.command.value, ParseStream(t.rest).commands;
    assert ([c] + cs)[1..] == cs;
    assert EncodeAll([c] + cs) == Encode(c) + EncodeAll(cs);
    PrefixAfter(Encode(c), EncodeAll(cs), t.rest);
  }

  lemma PrefixAfter(a: seq<byte>, b: seq<byte>, c: seq<byte>)
    ensures a + b <= a + c <==> b <= c
  {
    if a + b <= a + c {
      assert (a + b)[|a|..] == b && (a + c)[|a|..] == c;
      assert (a + c)[|a|..|a + b|] == b;
    }
  }

  /** One junk byte before an 'F': the drain drops the byte and leaves the command waiting. */
  lemma JunkDelays(cfg: Config, store: Store)
    ensures ParseStream([0xFF, VERSION_QUERY]) == Stream([Version], [])
    ensures Drain(cfg, store, [0xFF, VERSION_QUERY]) == Drained([VERSION_QUERY], store, [], false)
  {
    var s: seq<byte> := [0xFF, VERSION_QUERY];
    assert s[..2] == s && s[1..] == [VERSION_QUERY];
    ParseStep(s, Taken(None, [VERSION_QUERY]));
    RoundTripAlone([Version]);
    assert EncodeAll([Version]) == [VERSION_QUERY];
  }

  // --- Where the first pages come from

  /** A tune is taken table by table; without one there are seven zero pages. A file counts only if it loads and holds a
      page; then its pages are taken as they are. */
  lemma FirstPages(builder: pages, file: Option<seq<byte>>)
    requires IsTune(builder)
    requires file.None? || Load(file.value) == None || Load(file.value) == Some(map[])
    ensures InitPages(file, Some(builder)) == Initial(builder, false)
    ensures var zero := Zeros(1024);
      InitPages(file, None) ==
        Initial(map[0x04 := zero, 0x05 := zero, 0x0A := zero, 0x08 := zero, 0x09 := zero, 0x0B := zero, 0x0C := zero],
                false)
  {
    hide Load;
    var zero := Zeros(1024);
    var seven: pages :=
      map[0x04 := zero, 0x05 := zero, 0x0A := zero, 0x08 := zero, 0x09 := zero, 0x0B := zero, 0x0C := zero];
    assert seven.Keys == MS2_TABLES;
    assert InitPages(file, None).pages == seven;
    assert InitPages(file, Some(builder)).pages == builder;
  }

  lemma SavedPagesFirst(m: pages, builder: Option<pages>)
    requires Storable(m) && m != map[]
    ensures InitPages(Some(Save(m).value), builder) == Initial(m, true)
  {
    SaveLoads(m, []);
    assert Save(m).value + [] == Save(m).value;
    hide Load, Save;
  }
}
