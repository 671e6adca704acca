/** Custom field definitions merged into the field table in place. */
module CustomFields {
  import opened Bytes
  import opened Decoder

  const MAX_FIELDS := 65535
  const INITIAL_CAPACITY := 200

  datatype Error = Success | ParseError | MemoryError

  // --- Meaning

  /** The first field of a name replaced, or the field appended when there is none. */
  function Put(fs: seq<FieldDef>, f: FieldDef): (r: seq<FieldDef>)
    ensures |fs| <= |r| <= |fs| + 1
  {
    if fs == [] then [f]
    else if fs[0].name == f.name then [f] + fs[1..]
    else [fs[0]] + Put(fs[1..], f)
  }

  function Merge(fs: seq<FieldDef>, custom: seq<FieldDef>): (r: seq<FieldDef>)
    ensures |fs| <= |r| <= |fs| + |custom|
    decreases |custom|
  {
    if custom == [] then fs
    else Put(Merge(fs, custom[..|custom| - 1]), custom[|custom| - 1])
  }

  /** The last definition of a name. */
  function FindLast(fs: seq<FieldDef>, name: string): Option<FieldDef> {
    if fs == [] then None
    else if fs[|fs| - 1].name == name then Some(fs[|fs| - 1])
    else FindLast(fs[..|fs| - 1], name)
  }

  lemma {:induction false} FindAfterPut(fs: seq<FieldDef>, f: FieldDef, name: string)
    ensures Find(Put(fs, f), name) == if name == f.name then Some(f) else Find(fs, name)
  {
    if fs != [] {
      var tail := fs[1..];
      FindAfterPut(tail, f, name);
      if fs[0].name == f.name {
        assert ([f] + tail)[1..] == tail;
      } else {
        assert ([fs[0]] + Put(tail, f))[1..] == Put(tail, f);
      }
    }
  }

  /** After a merge a name finds its last custom definition if it has one, else what the base table gave;
      duplicate names in either list make no difference to this. */
  lemma {:induction false} MergeLookup(fs: seq<FieldDef>, custom: seq<FieldDef>, name: string)
    ensures Find(Merge(fs, custom), name) ==
      if FindLast(custom, name).Some? then FindLast(custom, name) else Find(fs, name)
    decreases |custom|
  {
    if custom != [] {
      var front, last := custom[..|custom| - 1], custom[|custom| - 1];
      MergeLookup(fs, front, name);
      FindAfterPut(Merge(fs, front), last, name);
    }
  }

  predicate Distinct(fs: seq<FieldDef>) {
    forall i, j :: 0 <= i < j < |fs| ==> fs[i].name != fs[j].name
  }

  /** Replacing keeps every position's name; appending adds a name that was not there. */
  lemma {:induction false} PutKeepsNames(fs: seq<FieldDef>, f: FieldDef)
    ensures var r := Put(fs, f);
      && (forall i :: 0 <= i < |fs| ==> r[i].name == fs[i].name)
      && (|r| == |fs| + 1 ==> r[|fs|] == f && forall i :: 0 <= i < |fs| ==> fs[i].name != f.name)
  {
    if fs != [] {
      PutKeepsNames(fs[1..], f);
      assert forall i :: 1 <= i < |fs| ==> fs[i] == fs[1..][i - 1];
    }
  }

  /** Base positions keep their names, and a table of distinct names stays one. */
  lemma {:induction false} MergeKeepsNames(fs: seq<FieldDef>, custom: seq<FieldDef>)
    ensures forall i :: 0 <= i < |fs| ==> Merge(fs, custom)[i].name == fs[i].name
    ensures Distinct(fs) ==> Distinct(Merge(fs, custom))
    decreases |custom|
  {
    if custom != [] {
      var front, last := custom[..|custom| - 1], custom[|custom| - 1];
      MergeKeepsNames(fs, front);
      PutKeepsNames(Merge(fs, front), last);
    }
  }

  // --- What a refused merge leaves

  /** No earlier definition has this one's name. */
  predicate IsFirst(fs: seq<FieldDef>, i: nat)
    requires i < |fs|
  {
    forall j :: 0 <= j < i ==> fs[j].name != fs[i].name
  }

  lemma {:induction false} PutAt(fs: seq<FieldDef>, f: FieldDef, i: nat)
    requires i < |fs|
    ensures Put(fs, f)[i] == if fs[i].name == f.name && IsFirst(fs, i) then f else fs[i]
  {
    if i == 0 {
      assert IsFirst(fs, 0);
    } else if fs[0].name == f.name {
      assert fs[i].name == f.name ==> !IsFirst(fs, i);
    } else {
      PutAt(fs[1..], f, i - 1);
      assert forall j :: 1 <= j < |fs| ==> fs[j] == fs[1..][j - 1];
      assert fs[i].name == f.name ==> (IsFirst(fs, i) <==> IsFirst(fs[1..], i - 1)) by {
        if fs[i].name == f.name && IsFirst(fs[1..], i - 1) {
          forall j | 0 <= j < i
            ensures fs[j].name != fs[i].name
          {
            assert j > 0 ==> fs[1..][j - 1].name != fs[1..][i - 1].name;
          }
        }
      }
    }
  }

  /** A base position changes only where its name occurs first, and then to the last custom definition of the name. */
  lemma {:induction false} MergeAt(fs: seq<FieldDef>, custom: seq<FieldDef>, i: nat)
    requires i < |fs|
    ensures Merge(fs, custom)[i] ==
      if IsFirst(fs, i) && FindLast(custom, fs[i].name).Some? then FindLast(custom, fs[i].name).value else fs[i]
    decreases |custom|
  {
    if custom != [] {
      var front, last := custom[..|custom| - 1], custom[|custom| - 1];
      var before := Merge(fs, front);
      MergeAt(fs, front, i);
      MergeKeepsNames(fs, front);
      PutAt(before, last, i);
      assert IsFirst(before, i) <==> IsFirst(fs, i);
    }
  }

  /** When too many definitions result, the table is as before exactly when every name's first definition in it has
      no custom definition or is itself the last one. */
  lemma RefusedMergeKeepsExactly(fs: seq<FieldDef>, custom: seq<FieldDef>)
    ensures Merge(fs, custom)[..|fs|] == fs <==>
      forall i :: 0 <= i < |fs| && IsFirst(fs, i) ==>
        FindLast(custom, fs[i].name) == None || FindLast(custom, fs[i].name) == Some(fs[i])
  {
    hide Merge, IsFirst, FindLast;
    var merged := Merge(fs, custom);
    forall i | 0 <= i < |fs|
      ensures merged[i] ==
        if IsFirst(fs, i) && FindLast(custom, fs[i].name).Some? then FindLast(custom, fs[i].name).value else fs[i]
    {
      MergeAt(fs, custom, i);
    }
    if merged[..|fs|] == fs {
      assert forall i :: 0 <= i < |fs| ==> merged[i] == merged[..|fs|][i];
    }
  }

  function SampleField(name: string, offset: nat): FieldDef {
    FieldDef(name, BitsType, offset, 1.0, 0.0, "")
  }

  /** A full table, one replacement and one field too many: the merge is refused and the replacement stays. */
  lemma RefusedMergeReplaces()
    ensures var fs := seq(MAX_FIELDS, _ => SampleField("a", 0));
      var custom := [SampleField("a", 1), SampleField("b", 0)];
      && |Merge(fs, custom)| == 65536
      && Merge(fs, custom)[..MAX_FIELDS] == fs[0 := SampleField("a", 1)] != fs
  {
    var fs := seq(MAX_FIELDS, _ => SampleField("a", 0));
    var x, y := SampleField("a", 1), SampleField("b", 0);
    var once := fs[0 := x];
    PutReplaces(fs, x, 0);
    PutAppends(once, y);
    hide Put;
    assert [x, y][..1] == [x] && [x][..0] == [];
    assert Merge(fs, []) == fs;
    assert Merge(fs, [x]) == once;
    assert Merge(fs, [x, y]) == once + [y];
    assert once[0] != fs[0];
  }

  // --- The table

  class FieldTable {
    var fields: array<FieldDef>
    var numFields: nat

    ghost predicate Valid()
      reads this
    {
      numFields <= fields.Length && numFields <= MAX_FIELDS
    }

    /** The definitions in use; the array may be longer. */
    ghost function Fields(): seq<FieldDef>
      requires Valid()
      reads this, fields
    {
      fields[..numFields]
    }

    constructor ()
      ensures Valid() && Fields() == []
    {
      fields := new FieldDef[0];
      numFields := 0;
    }

    /** `ms2d_ini_merge_custom`: `granted` says whether realloc succeeds. When more than 65535 definitions result the
        count stays as it was, but definitions replaced in place stay replaced. */
    method MergeCustom(custom: seq<FieldDef>, granted: bool) returns (err: Error)
      requires Valid()
      modifies this, fields
      ensures Valid()
      ensures custom == [] ==> err == Success && Fields() == old(Fields())
      ensures custom != [] && !granted ==> err == MemoryError && Fields() == old(Fields())
      ensures custom != [] && granted ==>
        var merged := Merge(old(Fields()), custom);
        if |merged| <= 65535 then err == Success && Fields() == merged
        else err == ParseError && Fields() == merged[..old(numFields)]
    {
      if custom == [] {
        return Success;
      }
      var capacity := GrownCapacity(numFields, |custom|);
      if !granted {
        return MemoryError;
      }
      var merged := Regrown(fields, numFields, capacity, custom[0]);
      var count := MergeInto(merged, numFields, custom);
      fields := merged;
      if count > MAX_FIELDS {
        assert merged[..numFields] == merged[..count][..numFields];
        return ParseError;
      }
      numFields := count;
      err := Success;
    }
  }

  /** `realloc`: the definitions in use, in a larger array. */
  method Regrown(fields: array<FieldDef>, count: nat, capacity: nat, filler: FieldDef) returns (merged: array<FieldDef>)
    requires count <= fields.Length && count <= capacity
    ensures fresh(merged) && merged.Length == capacity && merged[..count] == fields[..count]
  {
    merged := new FieldDef[capacity](i requires 0 <= i < capacity reads fields =>
      if i < fields.Length then fields[i] else filler);
  }

  /** The custom definitions put into the array one after the other. */
  method MergeInto(merged: array<FieldDef>, base: nat, custom: seq<FieldDef>) returns (count: nat)
    requires base + |custom| <= merged.Length
    modifies merged
    ensures base <= count <= merged.Length && merged[..count] == Merge(old(merged[..base]), custom)
  {
    hide Put;
    count := base;
    ghost var before := merged[..base];
    var i := 0;
    while i < |custom|
      invariant 0 <= i <= |custom| && base <= count <= base + i
      invariant merged[..count] == Merge(before, custom[..i])
    {
      count := PutInPlace(merged, count, custom[i]);
      assert custom[..i + 1][..i] == custom[..i];
      i := i + 1;
    }
    assert custom[..i] == custom;
  }

  /** Doubling from the present size until everything may fit. */
  method GrownCapacity(count: nat, extra: nat) returns (capacity: nat)
    ensures capacity >= count + extra
  {
    capacity := if count > 0 then count else INITIAL_CAPACITY;
    while capacity < count + extra
      invariant capacity > 0
      decreases count + extra - capacity
    {
      capacity := capacity * 2;
    }
  }

  /** One custom definition: overwrite the first field of its name, or append it. */
  method PutInPlace(merged: array<FieldDef>, count: nat, f: FieldDef) returns (newCount: nat)
    requires count < merged.Length
    modifies merged
    ensures count <= newCount <= count + 1 && newCount <= merged.Length
    ensures merged[..newCount] == Put(old(merged[..count]), f)
  {
    ghost var base := merged[..count];
    var j := 0;
    while j < count
      invariant 0 <= j <= count
      invariant merged[..count] == base
      invariant forall i :: 0 <= i < j ==> base[i].name != f.name
    {
      if merged[j].name == f.name {
        PutReplaces(base, f, j);
        merged[j] := f;
        assert merged[..count] == base[j := f];
        return count;
      }
      j := j + 1;
    }
    PutAppends(base, f);
    merged[count] := f;
    newCount := count + 1;
    assert merged[..newCount] == base + [f];
  }

  lemma {:induction false} PutReplaces(fs: seq<FieldDef>, f: FieldDef, j: nat)
    requires j < |fs| && fs[j].name == f.name
    requires forall i :: 0 <= i < j ==> fs[i].name != f.name
    ensures Put(fs, f) == fs[j := f]
    decreases j
  {
    if j > 0 {
      assert forall i :: 0 <= i < j - 1 ==> fs[1..][i] == fs[i + 1];
      PutReplaces(fs[1..], f, j - 1);
    }
  }

  lemma {:induction false} PutAppends(fs: seq<FieldDef>, f: FieldDef)
    requires forall i :: 0 <= i < |fs| ==> fs[i].name != f.name
    ensures Put(fs, f) == fs + [f]
  {
    if fs != [] {
      assert forall i :: 0 <= i < |fs| - 1 ==> fs[1..][i] == fs[i + 1];
      PutAppends(fs[1..], f);
    }
  }
}
