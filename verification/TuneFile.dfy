/** A whole tune file loaded over the configuration pages: which constant goes to which page. */
module TuneFile {
  import opened Bytes
  import opened PageBuilder
  import Codec
  import PageStore
  import Simulator

  datatype Kind = BitsKind(range: Option<BitRange>) | ScalarKind | ArrayKind | OtherKind

  /** A constant's definition in the INI file; pages count from 1 there. */
  datatype Definition = Definition(page: int, field: Field, kind: Kind, scale: real, translate: real)

  type Definitions = map<string, Definition>

  /** What a constant's text says under each reading of it. */
  datatype Entry = Entry(name: Option<string>, number: int, user: Option<real>, values: seq<real>)

  /** One page element of the file; pages count from 0 there. */
  datatype Element = Element(number: int, entries: seq<Entry>)

  /** The table of `MS2_PAGES` with this page number. */
  function TableOf(number: int): (t: Option<byte>)
    ensures t.Some? ==> t.value in Simulator.MS2_TABLES
  {
    if number == 0 then Some(0x04)
    else if number == 1 then Some(0x05)
    else if number == 2 then Some(0x0A)
    else if number == 3 then Some(0x08)
    else if number == 4 then Some(0x09)
    else if number == 5 then Some(0x0B)
    else if number == 6 then Some(0x0C)
    else None
  }

  function ContentOf(d: Definition, e: Entry): Content {
    match d.kind
    case BitsKind(range) => BitsContent(range, e.number)
    case ScalarKind => ScalarContent(d.scale, d.translate, e.user)
    case ArrayKind => ArrayContent(d.scale, d.translate, e.values)
    case OtherKind => ScalarContent(d.scale, d.translate, None)
  }

  /** The constant an entry stands for: named, defined, and on this page. */
  function ConstantOf(defs: Definitions, number: int, e: Entry): Option<Constant> {
    if e.name.None? || e.name.value == "" || e.name.value !in defs then None
    else
      var d := defs[e.name.value];
      if d.page != number + 1 then None else Some(Constant(d.field, ContentOf(d, e)))
  }

  function ElementConstants(defs: Definitions, number: int, entries: seq<Entry>): seq<Constant> {
    if entries == [] then []
    else
      var c := ConstantOf(defs, number, entries[0]);
      (if c.Some? then [c.value] else []) + ElementConstants(defs, number, entries[1..])
  }

  /** All constants of the file that go to this table, in file order. */
  function ConstantsFor(defs: Definitions, table: byte, file: seq<Element>): seq<Constant> {
    if file == [] then []
    else
      (if TableOf(file[0].number) == Some(table) then ElementConstants(defs, file[0].number, file[0].entries) else [])
      + ConstantsFor(defs, table, file[1..])
  }

  predicate HasTables(m: PageStore.pages) {
    m.Keys == Simulator.MS2_TABLES
  }

  /** One element loaded over its table's page; elements of unknown pages change nothing. `None` when a constant
      raises. */
  function LoadElement(m: PageStore.pages, defs: Definitions, e: Element): (r: Option<PageStore.pages>)
    requires HasTables(m)
    ensures r.Some? ==> HasTables(r.value)
  {
    var table := TableOf(e.number);
    if table.None? then Some(m)
    else
      match Load(m[table.value], ElementConstants(defs, e.number, e.entries))
      case None => None
      case Some(page) => Some(m[table.value := page])
  }

  /** The elements one after the other. */
  function LoadElements(m: PageStore.pages, defs: Definitions, file: seq<Element>): Option<PageStore.pages>
    requires HasTables(m)
    decreases |file|
  {
    if file == [] then Some(m)
    else
      match LoadElement(m, defs, file[0])
      case None => None
      case Some(m') => LoadElements(m', defs, file[1..])
  }

  /** The pages when one element's loading ends, be it at its last constant or at the first that raises. */
  function ElementPart(m: PageStore.pages, defs: Definitions, e: Element): (r: PageStore.pages)
    requires HasTables(m)
    ensures HasTables(r)
  {
    var table := TableOf(e.number);
    if table.None? then m
    else m[table.value := LoadedPart(m[table.value], ElementConstants(defs, e.number, e.entries))]
  }

  /** The pages when the file's loading ends. */
  function LoadedPages(m: PageStore.pages, defs: Definitions, file: seq<Element>): PageStore.pages
    requires HasTables(m)
    decreases |file|
  {
    if file == [] then m
    else if LoadElement(m, defs, file[0]) == None then ElementPart(m, defs, file[0])
    else LoadedPages(ElementPart(m, defs, file[0]), defs, file[1..])
  }

  lemma ElementPartIsAll(m: PageStore.pages, defs: Definitions, e: Element)
    requires HasTables(m) && LoadElement(m, defs, e).Some?
    ensures LoadElement(m, defs, e) == Some(ElementPart(m, defs, e))
  {
    var table := TableOf(e.number);
    if table.Some? {
      LoadedPartIsAll(m[table.value], ElementConstants(defs, e.number, e.entries));
    }
    hide Load, LoadedPart, ElementConstants, TableOf;
  }

  /** When nothing raises, these are the loaded pages. */
  lemma {:induction false} LoadedPagesAreAll(m: PageStore.pages, defs: Definitions, file: seq<Element>)
    requires HasTables(m)
    ensures LoadElements(m, defs, file).Some? ==> LoadElements(m, defs, file) == Some(LoadedPages(m, defs, file))
    decreases |file|
  {
    hide LoadElement, ElementPart;
    if file != [] && LoadElement(m, defs, file[0]).Some? {
      ElementPartIsAll(m, defs, file[0]);
      LoadedPagesAreAll(ElementPart(m, defs, file[0]), defs, file[1..]);
    }
  }

  // --- In place

  /** The tables in the order of `MS2_PAGES`. */
  const MS2_PAGES: seq<byte> := [0x04, 0x05, 0x0A, 0x08, 0x09, 0x0B, 0x0C]

  ghost predicate Separate(m: map<byte, array<byte>>) {
    forall s, t :: s in m && t in m && s != t ==> m[s] != m[t]
  }

  class Builder {
    var pages: map<byte, array<byte>>

    /** One bytearray for each table. */
    ghost predicate Valid()
      reads this
    {
      pages.Keys == Simulator.MS2_TABLES && Separate(pages)
    }

    ghost function Contents(): (m: PageStore.pages)
      requires Valid()
      reads this, pages.Values
      ensures HasTables(m)
    {
      map t | t in pages :: pages[t][..]
    }

    constructor ()
      ensures Valid() && (forall t :: t in pages ==> fresh(pages[t])) && Contents() == FreshTune()
    {
      var zeros := ZeroPages(MS2_PAGES);
      assert zeros.Keys == Simulator.MS2_TABLES;
      pages := zeros;
      new;
      hide Simulator.MS2_TABLES;
      IsFresh(this);
    }

    /** The constants of one element, written into its table's page. */
    method LoadTable(table: byte, defs: Definitions, e: Element) returns (ok: bool)
      requires Valid() && table in pages
      modifies pages[table]
      ensures Valid() && pages == old(pages)
      ensures var constants, page := ElementConstants(defs, e.number, e.entries), old(Contents())[table];
        && (ok <==> Load(page, constants).Some?)
        && Contents() == old(Contents())[table := LoadedPart(page, constants)]
    {
      hide Load, LoadedPart, ElementConstants;
      var buffer := pages[table];
      ok := LoadElementInto(buffer, defs, e.number, e.entries);
    }

    method LoadElementInPlace(defs: Definitions, e: Element) returns (ok: bool)
      requires Valid()
      modifies pages.Values
      ensures Valid() && pages == old(pages)
      ensures ok <==> LoadElement(old(Contents()), defs, e).Some?
      ensures Contents() == ElementPart(old(Contents()), defs, e)
    {
      hide Load, LoadedPart, ElementConstants, TableOf;
      var table := TableOf(e.number);
      ok := true;
      if table.Some? {
        ok := LoadTable(table.value, defs, e);
      }
    }

    /** `load_from_msq`, once the file is parsed; what was written before a constant raises stays. */
    method LoadFromMsq(defs: Definitions, file: seq<Element>) returns (ok: bool)
      requires Valid()
      modifies pages.Values
      ensures Valid() && pages == old(pages)
      ensures ok <==> LoadElements(old(Contents()), defs, file).Some?
      ensures Contents() == LoadedPages(old(Contents()), defs, file)
    {
      hide LoadElement, LoadElements, LoadedPages, ElementPart;
      ghost var whole := LoadElements(Contents(), defs, file);
      ghost var part := LoadedPages(Contents(), defs, file);
      var i := 0;
      assert file[0..] == file;
      while i < |file|
        invariant 0 <= i <= |file| && Valid() && pages == old(pages)
        invariant whole == LoadElements(Contents(), defs, file[i..])
        invariant part == LoadedPages(Contents(), defs, file[i..])
      {
        ElementStep(Contents(), defs, file, i);
        ok := LoadElementInPlace(defs, file[i]);
        if !ok {
          return;
        }
        i := i + 1;
      }
      NoElements(Contents(), defs, file);
      ok := true;
    }
  }

  /** A zero page of its own for each table. */
  method ZeroPages(tables: seq<byte>) returns (m: map<byte, array<byte>>)
    ensures forall t :: t in m <==> t in tables
    ensures Separate(m) && forall t :: t in m ==> fresh(m[t])
    ensures forall t :: t in m ==> m[t][..] == Zeros(PageStore.DEFAULT_PAGE)
  {
    m := map[];
    var i := 0;
    while i < |tables|
      invariant 0 <= i <= |tables|
      invariant forall t :: t in m <==> t in tables[..i]
      invariant Separate(m) && forall t :: t in m ==> fresh(m[t])
      invariant forall t :: t in m ==> m[t][..] == Zeros(PageStore.DEFAULT_PAGE)
    {
      var page := ZeroPage();
      assert forall t :: t in m ==> m[t] != page;
      assert tables[..i + 1] == tables[..i] + [tables[i]];
      m := m[tables[i] := page];
      i := i + 1;
    }
    assert tables[..i] == tables;
  }

  method ZeroPage() returns (page: array<byte>)
    ensures fresh(page) && page[..] == Zeros(PageStore.DEFAULT_PAGE)
  {
    page := new byte[PageStore.DEFAULT_PAGE](_ => 0);
    assert page[..] == Zeros(PageStore.DEFAULT_PAGE);
  }

  /** What a new builder holds. */
  function FreshTune(): (m: PageStore.pages)
    ensures Simulator.IsTune(m)
  {
    map t | t in Simulator.MS2_TABLES :: Zeros(PageStore.DEFAULT_PAGE)
  }

  lemma IsFresh(b: Builder)
    requires b.pages.Keys == Simulator.MS2_TABLES && Separate(b.pages)
    requires forall t :: t in b.pages ==> b.pages[t][..] == Zeros(PageStore.DEFAULT_PAGE)
    ensures b.Valid() && b.Contents() == FreshTune()
  {
    hide Simulator.MS2_TABLES;
  }

  lemma ElementStep(m: PageStore.pages, defs: Definitions, file: seq<Element>, i: nat)
    requires HasTables(m) && i < |file|
    ensures var part := ElementPart(m, defs, file[i]);
      if LoadElement(m, defs, file[i]) == None then
        LoadElements(m, defs, file[i..]) == None && LoadedPages(m, defs, file[i..]) == part
      else
        && LoadElements(m, defs, file[i..]) == LoadElements(part, defs, file[i + 1..])
        && LoadedPages(m, defs, file[i..]) == LoadedPages(part, defs, file[i + 1..])
  {
    if LoadElement(m, defs, file[i]).Some? {
      ElementPartIsAll(m, defs, file[i]);
    }
    hide LoadElement, ElementPart;
    assert file[i..][1..] == file[i + 1..];
  }

  lemma NoElements(m: PageStore.pages, defs: Definitions, file: seq<Element>)
    requires HasTables(m)
    ensures LoadElements(m, defs, file[|file|..]) == Some(m) && LoadedPages(m, defs, file[|file|..]) == m
  {
  }

  /** The constants of one element, in order, until one raises. */
  method LoadElementInto(buffer: array<byte>, defs: Definitions, number: int, entries: seq<Entry>) returns (ok: bool)
    modifies buffer
    ensures ok <==> Load(old(buffer[..]), ElementConstants(defs, number, entries)).Some?
    ensures buffer[..] == LoadedPart(old(buffer[..]), ElementConstants(defs, number, entries))
  {
    hide Encode, ConstantOf;
    ghost var whole := Load(buffer[..], ElementConstants(defs, number, entries));
    ghost var part := LoadedPart(buffer[..], ElementConstants(defs, number, entries));
    var i := 0;
    while i < |entries|
      invariant 0 <= i <= |entries|
      invariant whole == Load(buffer[..], ElementConstants(defs, number, entries[i..]))
      invariant part == LoadedPart(buffer[..], ElementConstants(defs, number, entries[i..]))
    {
      var c := ConstantOf(defs, number, entries[i]);
      ghost var rest := ElementConstants(defs, number, entries[i + 1..]);
      assert entries[i..][1..] == entries[i + 1..];
      assert ElementConstants(defs, number, entries[i..]) == (if c.Some? then [c.value] else []) + rest;
      if c.None? {
        assert [] + rest == rest;
      } else {
        assert ([c.value] + rest)[1..] == rest;
        ok := EncodeConstantInto(buffer, c.value);
        if !ok {
          return;
        }
      }
      i := i + 1;
    }
    ok := true;
  }

  // --- Pages are independent

  lemma {:induction false} LoadConcat(page: seq<byte>, a: seq<Constant>, b: seq<Constant>)
    ensures Load(page, a + b) == match Load(page, a) { case None => None case Some(p) => Load(p, b) }
    decreases |a|
  {
    hide Encode;
    if a == [] {
      assert a + b == b;
    } else {
      assert (a + b)[1..] == a[1..] + b;
      match Encode(page, a[0])
      case None =>
      case Some(p) => LoadConcat(p, a[1..], b);
    }
  }

  /** There is a result exactly when each table's own constants load, and each page is what they alone make of it. */
  ghost predicate EachAlone(m: PageStore.pages, defs: Definitions, file: seq<Element>, r: Option<PageStore.pages>) {
    && (r.Some? <==> forall t :: t in m ==> Load(m[t], ConstantsFor(defs, t, file)).Some?)
    && (r.Some? ==>
          r.value.Keys == m.Keys && forall t :: t in m ==> Some(r.value[t]) == Load(m[t], ConstantsFor(defs, t, file)))
  }

  /** However the elements of different pages are mixed, each page is loaded as if alone. */
  lemma {:induction false} PagesIndependent(m: PageStore.pages, defs: Definitions, file: seq<Element>)
    requires HasTables(m)
    ensures EachAlone(m, defs, file, LoadElements(m, defs, file))
    decreases |file|
  {
    hide Load, ElementConstants, TableOf, EachAlone, ConstantsFor;
    if file == [] {
      AloneNothing(m, defs);
    } else {
      var table := TableOf(file[0].number);
      if table.None? {
        PagesIndependent(m, defs, file[1..]);
        AloneSkips(m, defs, file, LoadElements(m, defs, file));
      } else {
        match Load(m[table.value], ElementConstants(defs, file[0].number, file[0].entries))
        case None =>
          AloneFails(m, defs, file, table.value);
        case Some(page) =>
          PagesIndependent(m[table.value := page], defs, file[1..]);
          AloneLoads(m, defs, file, table.value, page, LoadElements(m, defs, file));
      }
    }
  }

  lemma AloneNothing(m: PageStore.pages, defs: Definitions)
    ensures EachAlone(m, defs, [], Some(m))
  {
    hide Encode;
  }

  lemma AloneSkips(m: PageStore.pages, defs: Definitions, file: seq<Element>, r: Option<PageStore.pages>)
    requires file != [] && TableOf(file[0].number) == None && EachAlone(m, defs, file[1..], r)
    ensures EachAlone(m, defs, file, r)
  {
    hide Load, TableOf, ElementConstants;
    assert forall t :: t in m ==> ConstantsFor(defs, t, file) == ConstantsFor(defs, t, file[1..]);
  }

  lemma AloneFails(m: PageStore.pages, defs: Definitions, file: seq<Element>, table: byte)
    requires file != [] && TableOf(file[0].number) == Some(table) && table in m
    requires Load(m[table], ElementConstants(defs, file[0].number, file[0].entries)) == None
    ensures EachAlone(m, defs, file, None)
  {
    ConstantsSplit(m[table], defs, table, file);
    hide Load, TableOf, ElementConstants;
    assert Load(m[table], ConstantsFor(defs, table, file)) == None;
  }

  lemma AloneLoads(m: PageStore.pages, defs: Definitions, file: seq<Element>, table: byte, page: seq<byte>,
                   r: Option<PageStore.pages>)
    requires file != [] && TableOf(file[0].number) == Some(table) && table in m
    requires Load(m[table], ElementConstants(defs, file[0].number, file[0].entries)) == Some(page)
    requires EachAlone(m[table := page], defs, file[1..], r)
    ensures EachAlone(m, defs, file, r)
  {
    hide *;
    var m' := m[table := page];
    assert m'.Keys == m.Keys;
    forall t | t in m
      ensures Load(m[t], ConstantsFor(defs, t, file)) == Load(m'[t], ConstantsFor(defs, t, file[1..]))
    {
      ConstantsSplit(m[t], defs, t, file);
    }
    AloneMoves(m, m', defs, file, r);
  }

  /** The first element's constants come first, if they are this table's. */
  lemma ConstantsSplit(page: seq<byte>, defs: Definitions, t: byte, file: seq<Element>)
    requires file != []
    ensures Load(page, ConstantsFor(defs, t, file)) ==
      if TableOf(file[0].number) != Some(t) then Load(page, ConstantsFor(defs, t, file[1..]))
      else
        match Load(page, ElementConstants(defs, file[0].number, file[0].entries))
        case None => None
        case Some(p) => Load(p, ConstantsFor(defs, t, file[1..]))
  {
    var later := ConstantsFor(defs, t, file[1..]);
    LoadConcat(page, ElementConstants(defs, file[0].number, file[0].entries), later);
    hide Load, TableOf, ElementConstants;
    assert [] + later == later;
  }

  lemma AloneMoves(m: PageStore.pages, m': PageStore.pages, defs: Definitions, file: seq<Element>,
                   r: Option<PageStore.pages>)
    requires file != [] && m.Keys == m'.Keys && EachAlone(m', defs, file[1..], r)
    requires forall t :: t in m ==>
      Load(m[t], ConstantsFor(defs, t, file)) == Load(m'[t], ConstantsFor(defs, t, file[1..]))
    ensures EachAlone(m, defs, file, r)
  {
    hide Load, ConstantsFor;
    assert forall t :: t in m <==> t in m';
  }

  /** A loaded tune is one: the seven tables, each at its size. */
  lemma LoadedIsTune(m: PageStore.pages, defs: Definitions, file: seq<Element>)
    requires Simulator.IsTune(m) && LoadElements(m, defs, file).Some?
    ensures Simulator.IsTune(LoadElements(m, defs, file).value)
  {
    PagesIndependent(m, defs, file);
    var r := LoadElements(m, defs, file).value;
    forall t | t in r
      ensures |r[t]| == |m[t]|
    {
      LoadKeepsLength(m[t], ConstantsFor(defs, t, file), r[t]);
    }
  }

  // --- Where an entry goes

  /** What a constant of this definition writes of an entry, kind by kind; `None` when it raises. */
  function Written(page: seq<byte>, d: Definition, e: Entry): Option<seq<byte>> {
    match d.kind
    case BitsKind(range) => Encode(page, Constant(d.field, BitsContent(range, e.number)))
    case ScalarKind => Encode(page, Constant(d.field, ScalarContent(d.scale, d.translate, e.user)))
    case ArrayKind => Encode(page, Constant(d.field, ArrayContent(d.scale, d.translate, e.values)))
    case OtherKind => Some(page)
  }

  /** The entry means this constant of the INI page that goes with the element's number. */
  predicate Means(defs: Definitions, number: int, e: Entry, d: Definition) {
    && e.name.Some? && e.name.value != "" && e.name.value in defs && defs[e.name.value] == d
    && d.page == number + 1
  }

  lemma OneConstant(defs: Definitions, number: int, e: Entry)
    ensures ElementConstants(defs, number, [e]) ==
      if ConstantOf(defs, number, e).Some? then [ConstantOf(defs, number, e).value] else []
  {
    hide ConstantOf;
    assert [e][1..] == [];
  }

  lemma LoadOne(page: seq<byte>, c: Constant)
    ensures Load(page, [c]) == Encode(page, c)
  {
    hide Encode;
    assert [c][1..] == [];
  }

  lemma OneElement(m: PageStore.pages, defs: Definitions, e: Element)
    requires HasTables(m)
    ensures LoadElements(m, defs, [e]) == LoadElement(m, defs, e)
  {
    hide LoadElement;
    assert [e][1..] == [];
  }

  lemma NothingToLoad(page: seq<byte>)
    ensures Load(page, []) == Some(page)
  {
  }

  lemma OtherKindKeeps(page: seq<byte>, d: Definition)
    ensures Encode(page, Constant(d.field, ScalarContent(d.scale, d.translate, None))) == Some(page)
  {
  }

  lemma ElementWrites(m: PageStore.pages, defs: Definitions, number: int, table: byte, e: Entry, d: Definition)
    requires HasTables(m) && TableOf(number) == Some(table) && table in m && Means(defs, number, e, d)
    ensures LoadElements(m, defs, [Element(number, [e])]) ==
      match Written(m[table], d, e) { case None => None case Some(page) => Some(m[table := page]) }
  {
    OneElement(m, defs, Element(number, [e]));
    OneConstant(defs, number, e);
    LoadOne(m[table], Constant(d.field, ContentOf(d, e)));
    OtherKindKeeps(m[table], d);
    hide Encode, Load, ElementConstants, TableOf;
  }

  /** For the seven MSQ pages 0 to 6, an entry that means a constant of INI page 1 to 7 changes only the table 0x04,
      0x05, 0x0A, 0x08, 0x09, 0x0B or 0x0C, and there what its kind says. */
  lemma EntryGoesToTable(m: PageStore.pages, defs: Definitions, number: int, e: Entry, d: Definition)
    requires HasTables(m) && 0 <= number <= 6 && Means(defs, number, e, d)
    ensures var table: byte := [0x04, 0x05, 0x0A, 0x08, 0x09, 0x0B, 0x0C][number];
      && table in m
      && LoadElements(m, defs, [Element(number, [e])]) ==
         match Written(m[table], d, e) { case None => None case Some(page) => Some(m[table := page]) }
  {
    hide Written, LoadElements, Means;
    var table: byte := [0x04, 0x05, 0x0A, 0x08, 0x09, 0x0B, 0x0C][number];
    assert TableOf(number) == Some(table);
    ElementWrites(m, defs, number, table, e, d);
  }

  /** Elements of other numbers, and entries without a name, unknown ones and those of other INI pages, change
      nothing. */
  lemma OtherEntriesIgnored(m: PageStore.pages, defs: Definitions, number: int, e: Entry)
    requires HasTables(m)
    requires number < 0 || number > 6 || e.name.None? || e.name.value == "" || e.name.value !in defs
             || defs[e.name.value].page != number + 1
    ensures LoadElements(m, defs, [Element(number, [e])]) == Some(m)
  {
    OneElement(m, defs, Element(number, [e]));
    OneConstant(defs, number, e);
    if TableOf(number).Some? {
      var page := m[TableOf(number).value];
      NothingToLoad(page);
      assert m[TableOf(number).value := page] == m;
    }
    hide Load, ElementConstants;
  }

  lemma {:induction false} ElementConstantsConcat(defs: Definitions, number: int, a: seq<Entry>, b: seq<Entry>)
    ensures ElementConstants(defs, number, a + b) ==
      ElementConstants(defs, number, a) + ElementConstants(defs, number, b)
  {
    if a == [] {
      assert a + b == b;
    } else {
      var c := ConstantOf(defs, number, a[0]);
      var first := if c.Some? then [c.value] else [];
      FirstConstant(defs, number, a);
      FirstConstant(defs, number, a + b);
      assert (a + b)[1..] == a[1..] + b && (a + b)[0] == a[0];
      hide ConstantOf, ElementConstants;
      ElementConstantsConcat(defs, number, a[1..], b);
      Joined(first, ElementConstants(defs, number, a[1..]), ElementConstants(defs, number, b));
    }
  }

  lemma FirstConstant(defs: Definitions, number: int, entries: seq<Entry>)
    requires entries != []
    ensures var c := ConstantOf(defs, number, entries[0]);
      ElementConstants(defs, number, entries) ==
        (if c.Some? then [c.value] else []) + ElementConstants(defs, number, entries[1..])
  {
    hide ConstantOf;
  }

  lemma Joined(a: seq<Constant>, b: seq<Constant>, c: seq<Constant>)
    ensures (a + b) + c == a + (b + c)
  {
  }

  /** An element is loaded entry by entry, so that every file is a list of single entries. */
  lemma EntryByEntry(m: PageStore.pages, defs: Definitions, number: int, a: seq<Entry>, b: seq<Entry>,
                     file: seq<Element>)
    requires HasTables(m)
    ensures LoadElements(m, defs, [Element(number, a + b)] + file) ==
      LoadElements(m, defs, [Element(number, a), Element(number, b)] + file)
  {
    var both, one, two := Element(number, a + b), Element(number, a), Element(number, b);
    hide LoadElements, LoadElement;
    assert [one, two] + file == [one] + ([two] + file);
    LoadElementsCons(m, defs, both, file);
    LoadElementsCons(m, defs, one, [two] + file);
    TwoHalves(m, defs, number, a, b);
    if LoadElement(m, defs, one).Some? {
      LoadElementsCons(LoadElement(m, defs, one).value, defs, two, file);
    }
  }

  lemma LoadElementsCons(m: PageStore.pages, defs: Definitions, e: Element, file: seq<Element>)
    requires HasTables(m)
    ensures LoadElements(m, defs, [e] + file) ==
      match LoadElement(m, defs, e) { case None => None case Some(m') => LoadElements(m', defs, file) }
  {
    hide LoadElement;
    assert ([e] + file)[1..] == file;
  }

  lemma TwoHalves(m: PageStore.pages, defs: Definitions, number: int, a: seq<Entry>, b: seq<Entry>)
    requires HasTables(m)
    ensures LoadElement(m, defs, Element(number, a + b)) ==
      match LoadElement(m, defs, Element(number, a)) {
        case None => None
        case Some(m') => LoadElement(m', defs, Element(number, b))
      }
  {
    ElementConstantsConcat(defs, number, a, b);
    var table := TableOf(number);
    if table.Some? {
      var t, page := table.value, m[table.value];
      var first := Load(page, ElementConstants(defs, number, a));
      LoadConcat(page, ElementConstants(defs, number, a), ElementConstants(defs, number, b));
      hide Load, ElementConstants, TableOf;
      if first.Some? {
        assert m[t := first.value][t] == first.value;
        var second := Load(first.value, ElementConstants(defs, number, b));
        if second.Some? {
          assert m[t := first.value][t := second.value] == m[t := second.value];
        }
      }
    }
  }

  /** A byte on INI page 3: MSQ page 2 writes it into table 0x0A and into no other. */
  lemma ThirdPageIsTableTen(m: PageStore.pages)
    requires HasTables(m) && |m[0x0A]| == 1024
    ensures var d := Definition(3, Field(0, Codec.U08, 0), ScalarKind, 1.0, 0.0);
      LoadElements(m, map["x" := d], [Element(2, [Entry(Some("x"), 0, Some(7.0), [])])]) ==
        Some(m[0x0A := m[0x0A][0 := 7]])
  {
    var d := Definition(3, Field(0, Codec.U08, 0), ScalarKind, 1.0, 0.0);
    var e := Entry(Some("x"), 0, Some(7.0), []);
    ByteWritten(m[0x0A], d, e);
    hide LoadElements, Written;
    EntryGoesToTable(m, map["x" := d], 2, e, d);
  }

  lemma ByteWritten(page: seq<byte>, d: Definition, e: Entry)
    requires |page| == 1024 && e.user == Some(7.0)
    requires d.field == Field(0, Codec.U08, 0) && d.kind == ScalarKind && d.scale == 1.0 && d.translate == 0.0
    ensures Written(page, d, e) == Some(page[0 := 7])
  {
    assert Codec.RawOf(Codec.U08, 1.0, 0.0, 7.0) == 7 by {
      assert 7.0.Floor == 7;
    }
    assert Patch(page, 0, [7]) == page[0 := 7];
  }

  /** The first element in which a constant raises ends the load; the elements before it and its own constants before
      that one stay written. */
  lemma {:induction false} RaiseStopsFile(m: PageStore.pages, defs: Definitions, before: seq<Element>, e: Element,
                                          after: seq<Element>, r: PageStore.pages)
    requires HasTables(m) && HasTables(r) && LoadElements(m, defs, before) == Some(r) && LoadElement(r, defs, e) == None
    ensures TableOf(e.number).Some?
    ensures var table := TableOf(e.number).value;
      LoadedPages(m, defs, before + [e] + after) ==
        r[table := LoadedPart(r[table], ElementConstants(defs, e.number, e.entries))]
    decreases |before|
  {
    var file := before + [e] + after;
    if before == [] {
      assert file[0] == e;
      hide LoadedPart, ElementConstants, TableOf;
    } else {
      assert file[0] == before[0] && file[1..] == before[1..] + [e] + after;
      ElementPartIsAll(m, defs, before[0]);
      hide LoadElement, ElementPart, LoadedPart, ElementConstants, TableOf;
      RaiseStopsFile(ElementPart(m, defs, before[0]), defs, before[1..], e, after, r);
    }
  }
}
