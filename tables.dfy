/**
 * A table: its name, the uid of the next table in the catalogue and its
 * columns. Its record is `[TableName][NextTable][Field1Uid]...[FieldNUid]`.
 * A row (an entry) maps column names to cells and is stored as the cells'
 * bytes in column order.
 *
 * The version layer and the B+ trees are collaborators: the uids they hand
 * back are parameters, and what the table asks of them (the bytes to store,
 * the key ranges to scan, the keys to index) is the result.
 */
module Tables {
  import opened Wrappers
  import opened Bytes
  import opened Codec
  import opened SqlParser
  import opened Fields

  /** `Table`: the uid of its record, its name, the next table's uid and its columns. */
  datatype Table = Table(uid: int, name: string, nextUid: int, fields: seq<Field>)

  /** A row: `HashMap<String, Object>`; a missing key reads as `null`. */
  type Entry = map<string, Option<Value>>

  function Get(e: Entry, name: string): Option<Value>
  {
    if name in e then e[name] else None
  }

  // ---------------------------------------------------------------
  // createTable

  /** The inner loop of `createTable`: is the column named in the index list? */
  method IsIndexedName(name: string, index: seq<string>) returns (indexed: bool)
    ensures indexed <==> name in index
  {
    indexed := false;
    var j := 0;
    while j < |index|
      invariant 0 <= j <= |index|
      invariant !indexed && name !in index[..j]
    {
      if name == index[j] {
        indexed := true;
        return;
      }
      j := j + 1;
    }
  }

  /** The column `createField` makes for position `i` of a `create table` statement. */
  function NewColumn(create: Statement, roots: seq<int>, uids: seq<int>, i: nat): (r: Field)
    requires create.Create? && i < |create.fieldNames| == |roots| == |uids| == |create.fieldTypes|
    ensures r.uid == uids[i] && r.fieldName == create.fieldNames[i] && r.fieldType == create.fieldTypes[i]
    ensures roots[i] != 0 ==> (IsIndexed(r) <==> create.fieldNames[i] in create.index)
    ensures !IsIndexed(r) || r.index == roots[i]
  {
    var name := create.fieldNames[i];
    Field(uids[i], name, create.fieldTypes[i], if name in create.index then roots[i] else 0)
  }

  /**
   * `createTable`: one column per name, indexed when the name is in the
   * index list; the first column whose type fails the check stops it. The
   * table gets `nextUid` as it was passed (the post-increment changes only
   * the local copy). `roots[i]` is the root of the B+ tree made for column
   * `i` when it is indexed, `uids[i]` the uid its record got, `uid` the
   * uid of the table's own record.
   */
  method CreateTable(nextUid: int, create: Statement, roots: seq<int>, uids: seq<int>, uid: int)
      returns (r: Result<Table>)
    requires create.Create? && |create.fieldNames| == |create.fieldTypes| == |roots| == |uids|
    requires forall i :: 0 <= i < |roots| ==> roots[i] != 0
    ensures r.Ok? <==> forall i :: 0 <= i < |create.fieldTypes| ==> IsType(create.fieldTypes[i])
    ensures r.Err? ==> r.error == InvalidField
    ensures r.Ok? ==> (r.value.uid == uid && r.value.name == create.tableName && r.value.nextUid == nextUid
      && |r.value.fields| == |create.fieldNames|
      && forall i :: 0 <= i < |create.fieldNames| ==> r.value.fields[i] == NewColumn(create, roots, uids, i))
    ensures r.Ok? ==> forall i :: 0 <= i < |create.fieldNames| ==>
      (IsIndexed(r.value.fields[i]) <==> create.fieldNames[i] in create.index)
  {
    var fields: seq<Field> := [];
    var i := 0;
    while i < |create.fieldNames|
      invariant 0 <= i <= |create.fieldNames| && |fields| == i
      invariant forall k :: 0 <= k < i ==> IsType(create.fieldTypes[k])
      invariant forall k :: 0 <= k < i ==> fields[k] == NewColumn(create, roots, uids, k)
    {
      var indexed := IsIndexedName(create.fieldNames[i], create.index);
      var f := CreateField(uids[i], create.fieldNames[i], create.fieldTypes[i], indexed, roots[i]);
      if f.Err? {
        return Err(f.error);
      }
      fields := fields + [f.value];
      i := i + 1;
    }
    r := Ok(Table(uid, create.tableName, nextUid, fields));
  }

  // ---------------------------------------------------------------
  // The table's record

  /** The columns' uids, 8 bytes each, in column order. */
  function UidsRaw(uids: seq<int>): (r: seq<byte>)
    requires forall i :: 0 <= i < |uids| ==> IsInt64(uids[i])
    ensures |r| == 8 * |uids|
  {
    if uids == [] then []
    else
      LongRoundTrip(uids[0], []);
      Long2Byte(uids[0]) + UidsRaw(uids[1..])
  }

  function FieldUids(fields: seq<Field>): (r: seq<int>)
  {
    seq(|fields|, i requires 0 <= i < |fields| => fields[i].uid)
  }

  predicate Storable(t: Table)
  {
    JavaString(t.name) && IsInt64(t.nextUid) && forall i :: 0 <= i < |t.fields| ==> IsInt64(t.fields[i].uid)
  }

  /**
   * The bytes `persistSelf` hands to the version layer: read back (with
   * the loop moving on after each uid) they give the name, the next
   * table's uid and the columns' uids, when the name is ASCII.
   */
  function TableRaw(t: Table): (r: seq<byte>)
    requires Storable(t)
    ensures |r| == |String2Byte(t.name)| + 8 + 8 * |t.fields|
    ensures IsAscii(t.name) && |t.name| < TWO_31 - 16 ==>
      HeadOf(r) == Ok(TableHead(t.name, t.nextUid, FieldUids(t.fields)))
  {
    LongRoundTrip(t.nextUid, []);
    var raw := String2Byte(t.name) + Long2Byte(t.nextUid) + UidsRaw(FieldUids(t.fields));
    if IsAscii(t.name) && |t.name| < TWO_31 - 16 then
      TableRoundTrip(t);
      raw
    else raw
  }

  /** `persistSelf`: the name, the next table's uid, then the columns' uids appended one by one. */
  method PersistSelf(t: Table) returns (raw: seq<byte>)
    requires Storable(t)
    ensures raw == TableRaw(t)
  {
    var nameRaw := String2Byte(t.name);
    var nextRaw := Long2Byte(t.nextUid);
    ghost var uids := FieldUids(t.fields);
    var fieldRaw: seq<byte> := [];
    var i := 0;
    while i < |t.fields|
      invariant 0 <= i <= |t.fields|
      invariant fieldRaw + UidsRaw(uids[i..]) == UidsRaw(uids)
    {
      assert uids[i..][1..] == uids[i + 1..];
      fieldRaw := fieldRaw + Long2Byte(t.fields[i].uid);
      i := i + 1;
    }
    assert fieldRaw + [] == fieldRaw;
    raw := nameRaw + nextRaw + fieldRaw;
  }

  /** What `parSelf` reads: the name, the next table's uid, and the uids of the columns to load. */
  datatype TableHead = TableHead(name: string, nextUid: int, fieldUids: seq<int>)

  /**
   * `parSelf`'s loop as written, with `fuel` bounding its rounds: while the
   * position is inside the record it reads the uid there and loads that
   * column, but never moves the position. `None` is "still running".
   */
  function UidLoopAsWritten(raw: seq<byte>, position: nat, uids: seq<int>, fuel: nat): (r: Option<seq<int>>)
    ensures r.Some? ==> position >= |raw| && r.value == uids
    decreases fuel
  {
    if position >= |raw| then Some(uids)
    else if fuel == 0 then None
    else UidLoopAsWritten(raw, position, uids + [ParseLong(ReadAt(raw, position, 8))], fuel - 1)
  }

  /** The loop moving 8 bytes on after each uid. */
  function UidLoop(raw: seq<byte>, position: nat): (r: seq<int>)
    ensures |r| == 0 <==> position >= |raw|
    ensures position < |raw| ==> |raw| - position <= 8 * |r| < |raw| - position + 8
    decreases |raw| - position
  {
    if position >= |raw| then [] else [ParseLong(ReadAt(raw, position, 8))] + UidLoop(raw, position + 8)
  }

  /**
   * `parSelf`'s header: the name, then the next table's uid from the 8
   * bytes after it (zero-padded past the end); the loop starts after them.
   */
  function ParHead(raw: seq<byte>): (r: Result<(string, int, nat)>)
    ensures ParseString(raw).Err? ==> r == Err(ParseString(raw).error)
    ensures r.Ok? ==> (ParseString(raw).Ok? && r.value.0 == ParseString(raw).value.str
                       && r.value.2 == ParseString(raw).value.next + 8 && r.value.2 >= 12 && IsInt64(r.value.1))
    ensures r.Err? ==> r.error == IllegalArgument || r.error == IndexOutOfBounds
  {
    var res :- ParseString(raw);
    var position := res.next;
    var nextRaw :- CopyOfRange(raw, position, Wrap32(position + 8));
    if |nextRaw| < 8 then Err(IndexOutOfBounds)
    else Ok((res.str, ParseLong(nextRaw), position + 8))
  }

  /** `parSelf` as written; `None` when the loop has not finished within `fuel` rounds. */
  function ParSelfAsWritten(raw: seq<byte>, fuel: nat): (r: Option<Result<TableHead>>)
    ensures ParHead(raw).Err? ==> r == Some(Err(ParHead(raw).error))
    ensures r.Some? && r.value.Ok? ==> r.value.value.fieldUids == [] && ParHead(raw).value.2 >= |raw|
  {
    match ParHead(raw)
    case Err(e) => Some(Err(e))
    case Ok((name, next, position)) =>
      match UidLoopAsWritten(raw, position, [], fuel)
      case None => None
      case Some(uids) => Some(Ok(TableHead(name, next, uids)))
  }

  /** What `parSelf` reads when its loop moves 8 bytes on after each uid. */
  function HeadOf(raw: seq<byte>): (r: Result<TableHead>)
    ensures r.Ok? <==> ParHead(raw).Ok?
    ensures r.Err? ==> r.error == ParHead(raw).error
    ensures r.Ok? ==> (r.value.name == ParHead(raw).value.0 && r.value.nextUid == ParHead(raw).value.1
                       && 8 * |r.value.fieldUids| >= |raw| - ParHead(raw).value.2)
  {
    var h :- ParHead(raw);
    Ok(TableHead(h.0, h.1, UidLoop(raw, h.2)))
  }

  /** `parSelf` with the loop moving on: the uids read 8 bytes at a time to the end of the record. */
  method ParSelf(raw: seq<byte>) returns (r: Result<TableHead>)
    ensures r == HeadOf(raw)
  {
    var head := ParHead(raw);
    if head.Err? {
      return Err(head.error);
    }
    var (name, next, position) := head.value;
    var uids: seq<int> := [];
    var pos: nat := position;
    while pos < |raw|
      invariant uids + UidLoop(raw, pos) == UidLoop(raw, position)
      decreases |raw| - pos
    {
      assert UidLoop(raw, pos) == [ParseLong(ReadAt(raw, pos, 8))] + UidLoop(raw, pos + 8);
      uids := uids + [ParseLong(ReadAt(raw, pos, 8))];
      pos := pos + 8;
    }
    assert uids + [] == uids;
    r := Ok(TableHead(name, next, uids));
  }

  /** Reading 8 bytes at a time from where `UidsRaw` wrote the uids gives them back. */
  lemma {:induction false} UidLoopReads(raw: seq<byte>, p: nat, uids: seq<int>)
    requires forall i :: 0 <= i < |uids| ==> IsInt64(uids[i])
    requires p <= |raw| && raw[p..] == UidsRaw(uids)
    ensures UidLoop(raw, p) == uids
    decreases |uids|
  {
    if uids != [] {
      var head := Long2Byte(uids[0]);
      LongRoundTrip(uids[0], []);
      assert raw[p..] == head + UidsRaw(uids[1..]);
      assert ReadAt(raw, p, 8) == head + [];
      assert raw[p + 8..] == UidsRaw(uids[1..]);
      UidLoopReads(raw, p + 8, uids[1..]);
      assert [uids[0]] + uids[1..] == uids;
    }
  }

  /** `parHead` over a record cut into the name's bytes, the next table's 8 bytes and the rest. */
  lemma {:induction false} ParHeadPieces(a: seq<byte>, b: seq<byte>, c: seq<byte>, name: string, next: int)
    requires |a| + 8 < TWO_31 && |b| == 8
    requires ParseString(a + (b + c)) == Ok(ParseStringRes(name, |a|))
    requires ParseLong(b) == next
    ensures ParHead(a + b + c) == Ok((name, next, |a| + 8))
  {
    var raw := a + b + c;
    assert raw == a + (b + c);
    var p := |a|;
    WrapModId(p + 8, TWO_32);
    assert ReadAt(raw, p, 8) == b;
  }

  /** A table's record, laid out as `persistSelf` lays it out, read back: its name, the next table's uid and its columns' uids. */
  lemma {:induction false} TableRoundTrip(t: Table)
    requires Storable(t) && IsAscii(t.name) && |t.name| < TWO_31 - 16
    ensures var raw := String2Byte(t.name) + Long2Byte(t.nextUid) + UidsRaw(FieldUids(t.fields));
      && |raw| == 12 + |t.name| + 8 * |t.fields|
      && ParHead(raw) == Ok((t.name, t.nextUid, 12 + |t.name|))
      && HeadOf(raw) == Ok(TableHead(t.name, t.nextUid, FieldUids(t.fields)))
  {
    AsciiBytes(t.name);
    IntRoundTrip(|t.name|, []);
    var a := String2Byte(t.name);
    var b := Long2Byte(t.nextUid);
    var c := UidsRaw(FieldUids(t.fields));
    LongRoundTrip(t.nextUid, []);
    assert b + [] == b;
    ParseStringRoundTrip(t.name, b + c);
    ParHeadPieces(a, b, c, t.name, t.nextUid);
    var raw := a + b + c;
    assert raw[|a| + 8..] == c;
    UidLoopReads(raw, |a| + 8, FieldUids(t.fields));
  }

  /** As written, the loop never ends while the position is inside the record. */
  lemma {:induction false} UidLoopStuck(raw: seq<byte>, position: nat, uids: seq<int>, fuel: nat)
    requires position < |raw|
    ensures UidLoopAsWritten(raw, position, uids, fuel) == None
    decreases fuel
  {
    if fuel > 0 {
      UidLoopStuck(raw, position, uids + [ParseLong(ReadAt(raw, position, 8))], fuel - 1);
    }
  }

  /**
   * As written, loading a table that has a column never finishes, however
   * many rounds are allowed; a table without columns loads as intended.
   */
  lemma {:induction false} ParSelfNeverEnds(t: Table, fuel: nat)
    requires Storable(t) && IsAscii(t.name) && |t.name| < TWO_31 - 16
    ensures t.fields != [] ==> ParSelfAsWritten(TableRaw(t), fuel) == None
    ensures t.fields == [] ==> ParSelfAsWritten(TableRaw(t), fuel) == Some(HeadOf(TableRaw(t)))
  {
    TableRoundTrip(t);
    if t.fields != [] {
      UidLoopStuck(TableRaw(t), 12 + |t.name|, [], fuel);
    }
  }

  // ---------------------------------------------------------------
  // Rows

  function Names(fields: seq<Field>): (r: seq<string>)
    ensures |r| == |fields|
  {
    seq(|fields|, i requires 0 <= i < |fields| => fields[i].fieldName)
  }

  /** The map that putting `vs[i]` under `names[i]`, in order, builds from an empty one. */
  function Puts(names: seq<string>, vs: seq<Option<Value>>): Entry
    requires |names| == |vs|
  {
    if names == [] then map[]
    else Puts(names[..|names| - 1], vs[..|vs| - 1])[names[|names| - 1] := vs[|vs| - 1]]
  }

  /** Putting one more column's value into the map built from the earlier ones. */
  lemma {:induction false} PutsSnoc(names: seq<string>, vs: seq<Option<Value>>, v: Option<Value>)
    requires |vs| < |names|
    ensures Puts(names[..|vs| + 1], vs + [v]) == Puts(names[..|vs|], vs)[names[|vs|] := v]
  {
    var i := |vs|;
    assert names[..i + 1][..i] == names[..i];
    assert (vs + [v])[..i] == vs;
  }

  predicate Distinct(names: seq<string>)
  {
    forall i, j :: 0 <= i < j < |names| ==> names[i] != names[j]
  }

  predicate JavaTexts(values: seq<string>)
  {
    forall i :: 0 <= i < |values| ==> JavaString(values[i])
  }

  /** `string2Value` on the first `n` columns in turn; the first failure stops it. */
  function Cells(fields: seq<Field>, values: seq<string>, n: nat): (r: Result<seq<Option<Value>>>)
    requires n <= |fields| == |values| && JavaTexts(values)
    ensures r.Ok? ==> |r.value| == n
    ensures r.Err? ==> r.error == NumberFormat
  {
    if n == 0 then Ok([])
    else
      var vs :- Cells(fields, values, n - 1);
      var v :- String2Value(fields[n - 1].fieldType, values[n - 1]);
      Ok(vs + [v])
  }

  /** What `string2Entry` builds. */
  function EntryOf(fields: seq<Field>, values: seq<string>): (r: Result<Entry>)
    requires JavaTexts(values)
    ensures r.Err? ==> r.error == if |values| != |fields| then InvalidValues else NumberFormat
    ensures r.Ok? ==> |values| == |fields| && forall k :: k in r.value <==> k in Names(fields)
  {
    if |values| != |fields| then Err(InvalidValues)
    else
      var vs :- Cells(fields, values, |fields|);
      PutsDomain(Names(fields), vs);
      Ok(Puts(Names(fields), vs))
  }

  /** Once a column fails, the later ones are not looked at. */
  lemma {:induction false} CellsErrStays(fields: seq<Field>, values: seq<string>, i: nat, n: nat)
    requires i <= n <= |fields| == |values| && JavaTexts(values)
    requires Cells(fields, values, i).Err?
    ensures Cells(fields, values, n) == Cells(fields, values, i)
    decreases n - i
  {
    if i < n {
      CellsErrStays(fields, values, i, n - 1);
    }
  }

  /**
   * `string2Entry`: InvalidValues unless there is one value per column;
   * then each column's value converted by its type and put under its name.
   */
  method String2Entry(fields: seq<Field>, values: seq<string>) returns (r: Result<Entry>)
    requires JavaTexts(values)
    ensures r == EntryOf(fields, values)
  {
    if |values| != |fields| {
      return Err(InvalidValues);
    }
    var entry: Entry := map[];
    ghost var vs: seq<Option<Value>> := [];
    var i := 0;
    while i < |fields|
      invariant 0 <= i <= |fields|
      invariant Cells(fields, values, i) == Ok(vs)
      invariant entry == Puts(Names(fields)[..i], vs)
    {
      var v := String2Value(fields[i].fieldType, values[i]);
      if v.Err? {
        CellsErrStays(fields, values, i + 1, |fields|);
        return Err(v.error);
      }
      PutsSnoc(Names(fields), vs, v.value);
      entry := entry[fields[i].fieldName := v.value];
      vs := vs + [v.value];
      i := i + 1;
    }
    assert Names(fields)[..|fields|] == Names(fields);
    r := Ok(entry);
  }

  lemma {:induction false} PutsGet(names: seq<string>, vs: seq<Option<Value>>, i: nat)
    requires |names| == |vs| && Distinct(names) && i < |names|
    ensures Get(Puts(names, vs), names[i]) == vs[i]
    decreases |names|
  {
    var k := |names| - 1;
    if i < k {
      PutsGet(names[..k], vs[..k], i);
    }
  }

  /** The map's keys are exactly the names. */
  lemma {:induction false} PutsDomain(names: seq<string>, vs: seq<Option<Value>>)
    requires |names| == |vs|
    ensures forall k :: k in Puts(names, vs) <==> k in names
  {
    forall k
      ensures k in Puts(names, vs) <==> k in names
    {
      PutsKeys(names, vs, k);
    }
  }

  lemma {:induction false} PutsKeys(names: seq<string>, vs: seq<Option<Value>>, key: string)
    requires |names| == |vs|
    ensures key in Puts(names, vs) <==> key in names
    decreases |names|
  {
    if names != [] {
      var k := |names| - 1;
      PutsKeys(names[..k], vs[..k], key);
      assert names == names[..k] + [names[k]];
    }
  }

  lemma {:induction false} CellsMeaning(fields: seq<Field>, values: seq<string>, n: nat)
    requires n <= |fields| == |values| && JavaTexts(values)
    ensures Cells(fields, values, n).Ok? <==>
      forall i :: 0 <= i < n ==> String2Value(fields[i].fieldType, values[i]).Ok?
    ensures Cells(fields, values, n).Ok? ==>
      forall i :: 0 <= i < n ==> Cells(fields, values, n).value[i] == String2Value(fields[i].fieldType, values[i]).value
    decreases n
  {
    if n > 0 {
      CellsMeaning(fields, values, n - 1);
      var front := Cells(fields, values, n - 1);
      var last := String2Value(fields[n - 1].fieldType, values[n - 1]);
      if front.Ok? && last.Ok? {
        var r := Cells(fields, values, n);
        assert r == Ok(front.value + [last.value]);
        forall i | 0 <= i < n
          ensures r.value[i] == String2Value(fields[i].fieldType, values[i]).value
        {
          if i < n - 1 {
            assert r.value[i] == front.value[i];
          }
        }
      } else if front.Ok? {
        assert Cells(fields, values, n).Err?;
      } else {
        assert Cells(fields, values, n).Err?;
        var j :| 0 <= j < n - 1 && !String2Value(fields[j].fieldType, values[j]).Ok?;
      }
    }
  }

  /**
   * `string2Entry` in the source's terms: one value per column or
   * InvalidValues; each value converted by its column's type, the first
   * that does not convert failing the insert; with distinct column names,
   * the row holds exactly the columns, each with its converted value.
   */
  lemma {:induction false} EntryOfMeaning(fields: seq<Field>, values: seq<string>)
    requires JavaTexts(values)
    ensures EntryOf(fields, values) == Err(InvalidValues) <== |values| != |fields|
    ensures |values| == |fields| ==>
      (EntryOf(fields, values).Ok? <==> forall i :: 0 <= i < |fields| ==> String2Value(fields[i].fieldType, values[i]).Ok?)
    ensures EntryOf(fields, values).Ok? && Distinct(Names(fields)) ==>
      (forall i :: 0 <= i < |fields| ==>
        Get(EntryOf(fields, values).value, fields[i].fieldName) == String2Value(fields[i].fieldType, values[i]).value)
      && (forall key :: key in EntryOf(fields, values).value <==> key in Names(fields))
  {
    if |values| == |fields| {
      CellsMeaning(fields, values, |fields|);
      if EntryOf(fields, values).Ok? && Distinct(Names(fields)) {
        var vs := Cells(fields, values, |fields|).value;
        forall i | 0 <= i < |fields|
          ensures Get(EntryOf(fields, values).value, fields[i].fieldName) == String2Value(fields[i].fieldType, values[i]).value
        {
          PutsGet(Names(fields), vs, i);
        }
        forall key
          ensures key in EntryOf(fields, values).value <==> key in Names(fields)
        {
          PutsKeys(Names(fields), vs, key);
        }
      }
    }
  }

  predicate JavaEntry(e: Entry)
  {
    forall k :: k in e ==> JavaCell(e[k])
  }

  /**
   * How a column writes a cell (`Field.value2Raw`) and how it reads the
   * cell at a position of a record (`Field.parserValue` on the copy of the
   * record from that position). `entry2Raw` and `parseEntry` call them
   * column by column; here they are parameters, and a table's own are
   * `Value2Raw` and `ReadColumn`.
   */
  type CellWriter = (string, Option<Value>) --> Result<seq<byte>>
  type CellReader = (string, seq<byte>, int) -> Result<ParseValueRes>

  /** The writer accepts every cell Java can hold. */
  ghost predicate WritesJavaCells(write: CellWriter)
  {
    forall t: string, v: Option<Value> :: JavaCell(v) ==> write.requires(t, v)
  }

  lemma {:induction false} Value2RawWritesJavaCells()
    ensures WritesJavaCells(Value2Raw)
  {
    forall t: string, v: Option<Value> | JavaCell(v)
      ensures Value2Raw.requires(t, v)
    {
    }
  }

  /** `entry2Raw` over the first `n` columns: each column's cell as the writer writes it, in column order. */
  function EntryRaw(write: CellWriter, fields: seq<Field>, e: Entry, n: nat): (r: Result<seq<byte>>)
    requires n <= |fields| && WritesJavaCells(write) && JavaEntry(e)
    ensures r.Ok? ==> forall i :: 0 <= i < n ==> write(fields[i].fieldType, Get(e, fields[i].fieldName)).Ok?
    ensures r.Err? ==> exists i :: 0 <= i < n && write(fields[i].fieldType, Get(e, fields[i].fieldName)) == Err(r.error)
    decreases n
  {
    if n == 0 then Ok([])
    else
      match EntryRaw(write, fields, e, n - 1)
      case Err(err) => Err(err)
      case Ok(pre) =>
        match write(fields[n - 1].fieldType, Get(e, fields[n - 1].fieldName))
        case Err(err) => Err(err)
        case Ok(cell) => Ok(pre + cell)
  }

  lemma {:induction false} EntryRawErrStays(write: CellWriter, fields: seq<Field>, e: Entry, i: nat, n: nat)
    requires i <= n <= |fields| && WritesJavaCells(write) && JavaEntry(e)
    requires EntryRaw(write, fields, e, i).Err?
    ensures EntryRaw(write, fields, e, n) == EntryRaw(write, fields, e, i)
    decreases n - i
  {
    if i < n {
      EntryRawErrStays(write, fields, e, i, n - 1);
    }
  }

  lemma {:induction false} EntryRawStep(write: CellWriter, fields: seq<Field>, e: Entry, n: nat, pre: seq<byte>, cell: Result<seq<byte>>)
    requires n < |fields| && WritesJavaCells(write) && JavaEntry(e) && EntryRaw(write, fields, e, n) == Ok(pre)
    requires JavaCell(Get(e, fields[n].fieldName))
    requires cell == write(fields[n].fieldType, Get(e, fields[n].fieldName))
    ensures cell.Err? ==> EntryRaw(write, fields, e, n + 1) == Err(cell.error)
    ensures cell.Ok? ==> EntryRaw(write, fields, e, n + 1) == Ok(pre + cell.value)
  {
  }

  /** `entry2Raw`: the cells concatenated; the first cell the writer refuses fails the row. */
  method Entry2Raw(write: CellWriter, fields: seq<Field>, e: Entry) returns (r: Result<seq<byte>>)
    requires WritesJavaCells(write) && JavaEntry(e)
    ensures r == EntryRaw(write, fields, e, |fields|)
  {
    var raw: seq<byte> := [];
    var i := 0;
    while i < |fields|
      invariant 0 <= i <= |fields|
      invariant EntryRaw(write, fields, e, i) == Ok(raw)
    {
      var v := Get(e, fields[i].fieldName);
      assert JavaCell(v);
      var cell := write(fields[i].fieldType, v);
      EntryRawStep(write, fields, e, i, raw, cell);
      if cell.Err? {
        EntryRawErrStays(write, fields, e, i + 1, |fields|);
        return Err(cell.error);
      }
      raw := raw + cell.value;
      i := i + 1;
    }
    r := Ok(raw);
  }

  /** How far `parseEntry` has got: the values read so far and the `int` position in the record. */
  datatype Cursor = Cursor(vals: seq<Option<Value>>, pos: int)

  /** A table's own reader: `parserValue` on a copy of the record from `pos` to its end. */
  function ReadColumn(t: string, raw: seq<byte>, pos: int): (r: Result<ParseValueRes>)
    ensures pos > |raw| ==> r == Err(IllegalArgument)
    ensures pos < 0 ==> r == Err(IndexOutOfBounds)
    ensures 0 <= pos <= |raw| ==> r == ParserValue(t, raw[pos..])
  {
    match CopyOfRange(raw, pos, |raw|)
    case Err(err) => Err(err)
    case Ok(rest) =>
      assert rest == raw[pos..];
      ParserValue(t, rest)
  }

  /**
   * The same reader as written: `parserValue` whose `long` case is spelled
   * "int62". On every type a column can have but `int64` it is the
   * corrected one.
   */
  function ReadColumnAsWritten(t: string, raw: seq<byte>, pos: int): (r: Result<ParseValueRes>)
    ensures pos > |raw| ==> r == Err(IllegalArgument)
    ensures pos < 0 ==> r == Err(IndexOutOfBounds)
    ensures 0 <= pos <= |raw| ==> r == ParserValueAsWritten(t, raw[pos..])
    ensures t != "int64" && t != "int62" ==> r == ReadColumn(t, raw, pos)
  {
    match CopyOfRange(raw, pos, |raw|)
    case Err(err) => Err(err)
    case Ok(rest) =>
      assert rest == raw[pos..];
      if t != "int64" && t != "int62" then
        ParserValueAgrees(t, rest);
        ParserValueAsWritten(t, rest)
      else ParserValueAsWritten(t, rest)
  }

  /**
   * `parseEntry` over the first `n` columns: each column reads from where
   * the previous one stopped, and the `int` position moves on by what it
   * consumed.
   */
  function Decoded(read: CellReader, fields: seq<Field>, raw: seq<byte>, n: nat): (r: Result<Cursor>)
    requires n <= |fields|
    ensures r.Ok? ==> |r.value.vals| == n
  {
    if n == 0 then Ok(Cursor([], 0))
    else
      match Decoded(read, fields, raw, n - 1)
      case Err(err) => Err(err)
      case Ok(c) =>
        match read(fields[n - 1].fieldType, raw, c.pos)
        case Err(err) => Err(err)
        case Ok(res) => Ok(Cursor(c.vals + [res.v], Wrap32(c.pos + res.shift)))
  }

  lemma {:induction false} DecodedStep(read: CellReader, fields: seq<Field>, raw: seq<byte>, n: nat, c: Cursor, res: ParseValueRes)
    requires n < |fields| && Decoded(read, fields, raw, n) == Ok(c)
    requires read(fields[n].fieldType, raw, c.pos) == Ok(res)
    ensures Decoded(read, fields, raw, n + 1) == Ok(Cursor(c.vals + [res.v], Wrap32(c.pos + res.shift)))
  {
  }

  lemma {:induction false} DecodedFails(read: CellReader, fields: seq<Field>, raw: seq<byte>, n: nat, c: Cursor,
                                        res: Result<ParseValueRes>)
    requires n < |fields| && Decoded(read, fields, raw, n) == Ok(c)
    requires res == read(fields[n].fieldType, raw, c.pos) && res.Err?
    ensures Decoded(read, fields, raw, n + 1) == Err(res.error)
  {
  }

  lemma {:induction false} DecodedErrStays(read: CellReader, fields: seq<Field>, raw: seq<byte>, i: nat, n: nat)
    requires i <= n <= |fields|
    requires Decoded(read, fields, raw, i).Err?
    ensures Decoded(read, fields, raw, n) == Decoded(read, fields, raw, i)
    decreases n - i
  {
    if i < n {
      DecodedErrStays(read, fields, raw, i, n - 1);
    }
  }

  /** What `parseEntry` returns: each column's value put under its name. */
  function EntryFrom(read: CellReader, fields: seq<Field>, raw: seq<byte>): (r: Result<Entry>)
    ensures r.Ok? <==> Decoded(read, fields, raw, |fields|).Ok?
    ensures r.Ok? ==> forall k :: k in r.value <==> k in Names(fields)
  {
    match Decoded(read, fields, raw, |fields|)
    case Err(err) => Err(err)
    case Ok(c) =>
      PutsDomain(Names(fields), c.vals);
      Ok(Puts(Names(fields), c.vals))
  }

  /** `parseEntry`. */
  method ParseEntry(read: CellReader, fields: seq<Field>, raw: seq<byte>) returns (r: Result<Entry>)
    ensures r == EntryFrom(read, fields, raw)
  {
    var pos := 0;
    var entry: Entry := map[];
    ghost var vs: seq<Option<Value>> := [];
    var i := 0;
    while i < |fields|
      invariant 0 <= i <= |fields|
      invariant Decoded(read, fields, raw, i) == Ok(Cursor(vs, pos))
      invariant entry == Puts(Names(fields)[..i], vs)
    {
      var res := read(fields[i].fieldType, raw, pos);
      if res.Err? {
        DecodedFails(read, fields, raw, i, Cursor(vs, pos), res);
        DecodedErrStays(read, fields, raw, i + 1, |fields|);
        return Err(res.error);
      }
      DecodedStep(read, fields, raw, i, Cursor(vs, pos), res.value);
      assert |vs| == i && Names(fields)[i] == fields[i].fieldName;
      PutsSnoc(Names(fields), vs, res.value.v);
      entry := entry[fields[i].fieldName := res.value.v];
      vs := vs + [res.value.v];
      pos := Wrap32(pos + res.value.shift);
      assert Decoded(read, fields, raw, i + 1) == Ok(Cursor(vs, pos));
      i := i + 1;
    }
    assert Names(fields)[..|fields|] == Names(fields);
    r := Ok(entry);
  }

  /** The row's cells in column order. */
  function CellsOf(fields: seq<Field>, e: Entry, n: nat): (r: seq<Option<Value>>)
    requires n <= |fields|
    ensures |r| == n
  {
    if n == 0 then [] else CellsOf(fields, e, n - 1) + [Get(e, fields[n - 1].fieldName)]
  }

  lemma {:induction false} CellsOfAt(fields: seq<Field>, e: Entry, n: nat, i: nat)
    requires i < n <= |fields|
    ensures CellsOf(fields, e, n)[i] == Get(e, fields[i].fieldName)
    decreases n
  {
    if i < n - 1 {
      CellsOfAt(fields, e, n - 1, i);
    }
  }

  /**
   * The reader gets back the cell the writer wrote, wherever in a record it
   * was written, and consumes exactly its bytes.
   */
  ghost predicate ReadsBack(write: CellWriter, read: CellReader, t: string, v: Option<Value>)
  {
    write.requires(t, v) && write(t, v).Ok?
    && forall before: seq<byte>, tail: seq<byte> ::
         read(t, before + write(t, v).value + tail, |before|) == Ok(ParseValueRes(v, |write(t, v).value|))
  }

  ghost predicate RowReadsBack(write: CellWriter, read: CellReader, fields: seq<Field>, e: Entry)
  {
    forall i :: 0 <= i < |fields| ==> ReadsBack(write, read, fields[i].fieldType, Get(e, fields[i].fieldName))
  }

  /** A cell of the column's type that `value2Raw` can write and `parserValue` read back. */
  predicate StorableCell(t: string, v: Option<Value>)
  {
    IsType(t) && v.Some? && OfType(t, v.value) && JavaValue(v.value)
    && (v.value.StrVal? ==> IsAscii(v.value.s) && |v.value.s| < TWO_31 - 4)
  }

  predicate StorableRow(fields: seq<Field>, e: Entry)
  {
    JavaEntry(e) && forall i :: 0 <= i < |fields| ==> StorableCell(fields[i].fieldType, Get(e, fields[i].fieldName))
  }

  /** A column's cell read at its position of a record is the cell `value2Raw` wrote there. */
  lemma {:induction false} ReadColumnWritten(t: string, v: Option<Value>, before: seq<byte>, tail: seq<byte>)
    requires StorableCell(t, v)
    ensures Value2Raw(t, v).Ok?
    ensures ReadColumn(t, before + Value2Raw(t, v).value + tail, |before|)
      == Ok(ParseValueRes(v, |Value2Raw(t, v).value|))
  {
    var cell := Value2Raw(t, v).value;
    var raw := before + cell + tail;
    assert raw[|before|..] == cell + tail;
    assert ReadColumn(t, raw, |before|) == ParserValue(t, cell + tail);
    ValueRoundTrip(t, v.value, tail);
  }

  /** A table's own cell codec reads back every storable cell. */
  lemma {:induction false} CodecReadsBack(t: string, v: Option<Value>)
    requires StorableCell(t, v)
    ensures ReadsBack(Value2Raw, ReadColumn, t, v)
  {
    ValueRoundTrip(t, v.value, []);
    forall before: seq<byte>, tail: seq<byte>
      ensures ReadColumn(t, before + Value2Raw(t, v).value + tail, |before|)
        == Ok(ParseValueRes(v, |Value2Raw(t, v).value|))
    {
      ReadColumnWritten(t, v, before, tail);
    }
  }

  lemma {:induction false} EntryRawPrefix(write: CellWriter, read: CellReader, fields: seq<Field>, e: Entry, n: nat)
    requires n <= |fields| && WritesJavaCells(write) && JavaEntry(e) && RowReadsBack(write, read, fields, e)
    ensures EntryRaw(write, fields, e, n).Ok?
    ensures n > 0 ==> (EntryRaw(write, fields, e, n).value
      == EntryRaw(write, fields, e, n - 1).value + write(fields[n - 1].fieldType, Get(e, fields[n - 1].fieldName)).value)
    decreases n
  {
    if n > 0 {
      EntryRawPrefix(write, read, fields, e, n - 1);
      assert ReadsBack(write, read, fields[n - 1].fieldType, Get(e, fields[n - 1].fieldName));
    }
  }

  /** After the first `n - 1` cells, the `n`th column reads its own cell and moves past it. */
  lemma {:induction false} DecodeOneMore(write: CellWriter, read: CellReader, fields: seq<Field>, n: nat, v: Option<Value>,
                                         vals: seq<Option<Value>>, pre: seq<byte>, tail: seq<byte>)
    requires 0 < n <= |fields| && ReadsBack(write, read, fields[n - 1].fieldType, v)
    requires |pre| + |write(fields[n - 1].fieldType, v).value| + |tail| < TWO_31
    requires Decoded(read, fields, pre + write(fields[n - 1].fieldType, v).value + tail, n - 1) == Ok(Cursor(vals, |pre|))
    ensures var cell := write(fields[n - 1].fieldType, v).value;
      Decoded(read, fields, pre + cell + tail, n) == Ok(Cursor(vals + [v], |pre| + |cell|))
  {
    var cell := write(fields[n - 1].fieldType, v).value;
    assert read(fields[n - 1].fieldType, pre + cell + tail, |pre|) == Ok(ParseValueRes(v, |cell|));
    Wrap32Id(|pre| + |cell|);
    DecodedStep(read, fields, pre + cell + tail, n - 1, Cursor(vals, |pre|), ParseValueRes(v, |cell|));
  }

  /** Reading a record that starts with the first `n` cells gets their values and stops after them. */
  lemma {:induction false} DecodeWritten(write: CellWriter, read: CellReader, fields: seq<Field>, e: Entry,
                                         raw: seq<byte>, tail: seq<byte>, n: nat)
    requires n <= |fields| && WritesJavaCells(write) && JavaEntry(e) && RowReadsBack(write, read, fields, e)
    requires |raw| < TWO_31
    requires EntryRaw(write, fields, e, n).Ok? && raw == EntryRaw(write, fields, e, n).value + tail
    ensures Decoded(read, fields, raw, n) == Ok(Cursor(CellsOf(fields, e, n), |EntryRaw(write, fields, e, n).value|))
    decreases n
  {
    if n > 0 {
      EntryRawPrefix(write, read, fields, e, n);
      var pre := EntryRaw(write, fields, e, n - 1).value;
      var v := Get(e, fields[n - 1].fieldName);
      assert ReadsBack(write, read, fields[n - 1].fieldType, v);
      var cell := write(fields[n - 1].fieldType, v).value;
      assert raw == pre + (cell + tail) == pre + cell + tail;
      DecodeWritten(write, read, fields, e, raw, cell + tail, n - 1);
      DecodeOneMore(write, read, fields, n, v, CellsOf(fields, e, n - 1), pre, tail);
      assert CellsOf(fields, e, n) == CellsOf(fields, e, n - 1) + [v];
    }
  }

  /**
   * A row written column by column is read back column by column: each
   * column holds the value it was written with.
   */
  lemma {:induction false} RowRoundTrip(write: CellWriter, read: CellReader, fields: seq<Field>, e: Entry)
    requires WritesJavaCells(write) && JavaEntry(e) && RowReadsBack(write, read, fields, e) && Distinct(Names(fields))
    ensures EntryRaw(write, fields, e, |fields|).Ok?
    ensures |EntryRaw(write, fields, e, |fields|).value| < TWO_31 ==>
      var back := EntryFrom(read, fields, EntryRaw(write, fields, e, |fields|).value);
      back == Ok(Puts(Names(fields), CellsOf(fields, e, |fields|)))
      && forall i :: 0 <= i < |fields| ==> Get(back.value, fields[i].fieldName) == Get(e, fields[i].fieldName)
  {
    EntryRawPrefix(write, read, fields, e, |fields|);
    var raw := EntryRaw(write, fields, e, |fields|).value;
    if |raw| < TWO_31 {
      assert raw == raw + [];
      DecodeWritten(write, read, fields, e, raw, [], |fields|);
      forall i | 0 <= i < |fields|
        ensures Get(Puts(Names(fields), CellsOf(fields, e, |fields|)), fields[i].fieldName) == Get(e, fields[i].fieldName)
      {
        PutsGet(Names(fields), CellsOf(fields, e, |fields|), i);
        CellsOfAt(fields, e, |fields|, i);
      }
    }
  }

  /**
   * With the table's own codec: a row whose every column holds a value of
   * its type (strings in ASCII) is written by `entry2Raw` and read back by
   * `parseEntry` unchanged.
   */
  lemma {:induction false} StoredRowRoundTrip(fields: seq<Field>, e: Entry)
    requires StorableRow(fields, e) && Distinct(Names(fields))
    ensures WritesJavaCells(Value2Raw)
    ensures EntryRaw(Value2Raw, fields, e, |fields|).Ok?
    ensures |EntryRaw(Value2Raw, fields, e, |fields|).value| < TWO_31 ==>
      var back := EntryFrom(ReadColumn, fields, EntryRaw(Value2Raw, fields, e, |fields|).value);
      back.Ok? && forall i :: 0 <= i < |fields| ==> Get(back.value, fields[i].fieldName) == Get(e, fields[i].fieldName)
  {
    Value2RawWritesJavaCells();
    forall i | 0 <= i < |fields|
      ensures ReadsBack(Value2Raw, ReadColumn, fields[i].fieldType, Get(e, fields[i].fieldName))
    {
      CodecReadsBack(fields[i].fieldType, Get(e, fields[i].fieldName));
    }
    RowRoundTrip(Value2Raw, ReadColumn, fields, e);
  }

  /**
   * As written, a table without `int64` columns still reads its stored rows
   * back unchanged: the as-written reader differs from the corrected one
   * only there.
   */
  lemma {:induction false} StoredRowRoundTripAsWritten(fields: seq<Field>, e: Entry)
    requires StorableRow(fields, e) && Distinct(Names(fields))
    requires forall i :: 0 <= i < |fields| ==> fields[i].fieldType != "int64"
    ensures WritesJavaCells(Value2Raw)
    ensures EntryRaw(Value2Raw, fields, e, |fields|).Ok?
    ensures |EntryRaw(Value2Raw, fields, e, |fields|).value| < TWO_31 ==>
      var back := EntryFrom(ReadColumnAsWritten, fields, EntryRaw(Value2Raw, fields, e, |fields|).value);
      back.Ok? && forall i :: 0 <= i < |fields| ==> Get(back.value, fields[i].fieldName) == Get(e, fields[i].fieldName)
  {
    Value2RawWritesJavaCells();
    forall i | 0 <= i < |fields|
      ensures ReadsBack(Value2Raw, ReadColumnAsWritten, fields[i].fieldType, Get(e, fields[i].fieldName))
    {
      var t, v := fields[i].fieldType, Get(e, fields[i].fieldName);
      CodecReadsBack(t, v);
      assert t != "int62";
      forall before: seq<byte>, tail: seq<byte>
        ensures ReadColumnAsWritten(t, before + Value2Raw(t, v).value + tail, |before|)
          == ReadColumn(t, before + Value2Raw(t, v).value + tail, |before|)
      {
      }
    }
    RowRoundTrip(Value2Raw, ReadColumnAsWritten, fields, e);
  }

  /**
   * As written, a stored row whose one column is `int64` reads back with
   * that column null; the corrected reader gets its value back.
   */
  lemma {:induction false} Int64RowReadsNull(f: Field, l: int)
    requires f.fieldType == "int64" && IsInt64(l)
    ensures Value2Raw("int64", Some(Int64Val(l))) == Ok(Long2Byte(l))
    ensures EntryFrom(ReadColumnAsWritten, [f], Long2Byte(l)) == Ok(map[f.fieldName := None])
    ensures EntryFrom(ReadColumn, [f], Long2Byte(l)) == Ok(map[f.fieldName := Some(Int64Val(l))])
  {
    Int64RowAsWritten(f, l);
    Int64RowCorrected(f, l);
  }

  /** The as-written half of `Int64RowReadsNull`: the one `int64` column reads back null. */
  lemma {:induction false} Int64RowAsWritten(f: Field, l: int)
    requires f.fieldType == "int64" && IsInt64(l)
    ensures Value2Raw("int64", Some(Int64Val(l))) == Ok(Long2Byte(l))
    ensures EntryFrom(ReadColumnAsWritten, [f], Long2Byte(l)) == Ok(map[f.fieldName := None])
  {
    var raw := Long2Byte(l);
    Int64NeverDecoded(l, []);
    assert raw + [] == raw && raw[0..] == raw;
    assert Names([f]) == [f.fieldName] && [f][0].fieldType == "int64";
    assert ReadColumnAsWritten("int64", raw, 0) == Ok(ParseValueRes(None, 0));
    Wrap32Id(0);
    DecodedStep(ReadColumnAsWritten, [f], raw, 0, Cursor([], 0), ParseValueRes(None, 0));
    var none: Option<Value> := None;
    assert [f.fieldName][..0] == [] && [none][..0] == [];
    assert Puts([f.fieldName], [none]) == map[f.fieldName := None];
  }

  /** The corrected half of `Int64RowReadsNull`: the one `int64` column reads back as its value. */
  lemma {:induction false} Int64RowCorrected(f: Field, l: int)
    requires f.fieldType == "int64" && IsInt64(l)
    ensures EntryFrom(ReadColumn, [f], Long2Byte(l)) == Ok(map[f.fieldName := Some(Int64Val(l))])
  {
    var raw := Long2Byte(l);
    Int64NeverDecoded(l, []);
    assert raw + [] == raw && raw[0..] == raw;
    assert Names([f]) == [f.fieldName] && [f][0].fieldType == "int64";
    assert ReadColumn("int64", raw, 0) == Ok(ParseValueRes(Some(Int64Val(l)), 8));
    Wrap32Id(8);
    DecodedStep(ReadColumn, [f], raw, 0, Cursor([], 0), ParseValueRes(Some(Int64Val(l)), 8));
    assert [f.fieldName][..0] == [] && [Some(Int64Val(l))][..0] == [];
    assert Puts([f.fieldName], [Some(Int64Val(l))]) == map[f.fieldName := Some(Int64Val(l))];
  }

  // ---------------------------------------------------------------
  // printEntry

  /** Each column's `printValue` text, in column order; the first column that fails stops it. */
  function Texts(fields: seq<Field>, e: Entry, n: nat): (r: Result<seq<string>>)
    requires n <= |fields|
    ensures r.Ok? ==> |r.value| == n
    ensures r.Err? ==> r.error == ClassCast
  {
    if n == 0 then Ok([])
    else
      match Texts(fields, e, n - 1)
      case Err(err) => Err(err)
      case Ok(ts) =>
        match PrintValue(fields[n - 1].fieldType, Get(e, fields[n - 1].fieldName))
        case Err(err) => Err(err)
        case Ok(s) => Ok(ts + [s])
  }

  /** The texts with ", " between neighbours. */
  function Join(ts: seq<string>): string
  {
    if |ts| == 0 then ""
    else if |ts| == 1 then ts[0]
    else Join(ts[..|ts| - 1]) + ", " + ts[|ts| - 1]
  }

  /** The row as `printEntry` shows it: "[", the column texts joined, "]"; a table without columns gives "[" alone. */
  function EntryText(fields: seq<Field>, e: Entry): (r: Result<string>)
    ensures r.Ok? ==> |r.value| >= 1 && r.value[0] == '['
    ensures r.Ok? && fields != [] ==> |r.value| >= 2 && r.value[|r.value| - 1] == ']'
    ensures r.Err? ==> r.error == ClassCast
  {
    match Texts(fields, e, |fields|)
    case Err(err) => Err(err)
    case Ok(ts) => Ok(if |fields| == 0 then "[" else "[" + Join(ts) + "]")
  }

  lemma {:induction false} TextsErrStays(fields: seq<Field>, e: Entry, i: nat, n: nat)
    requires i <= n <= |fields| && Texts(fields, e, i).Err?
    ensures Texts(fields, e, n) == Texts(fields, e, i)
    decreases n - i
  {
    if i < n {
      TextsErrStays(fields, e, i, n - 1);
    }
  }

  /** One more column's turn in `printEntry`. */
  lemma {:induction false} TextsStep(fields: seq<Field>, e: Entry, n: nat, ts: seq<string>, s: Result<string>)
    requires n < |fields| && Texts(fields, e, n) == Ok(ts)
    requires s == PrintValue(fields[n].fieldType, Get(e, fields[n].fieldName))
    ensures Texts(fields, e, n + 1) == if s.Err? then Err(s.error) else Ok(ts + [s.value])
  {
  }

  /** The text `printEntry` has built after the columns with texts `ts`, closed after the last column. */
  function Printed(ts: seq<string>, closed: bool): string
  {
    if ts == [] then "[" else "[" + Join(ts) + (if closed then "]" else ", ")
  }

  lemma {:induction false} PrintedSnoc(ts: seq<string>, s: string, closed: bool)
    ensures Printed(ts + [s], closed) == Printed(ts, false) + s + (if closed then "]" else ", ")
  {
    var close := if closed then "]" else ", ";
    var all := ts + [s];
    assert all != [];
    assert Printed(all, closed) == "[" + Join(all) + close;
    assert all[..|ts|] == ts;
    if ts == [] {
      assert Join(all) == s;
    } else {
      assert Join(all) == Join(ts) + ", " + s;
      assert "[" + (Join(ts) + ", " + s) + close == "[" + Join(ts) + ", " + s + close;
    }
  }

  /**
   * `printEntry`: "[" then, column by column, the column's `printValue`
   * text followed by "]" after the last column and ", " after the others.
   */
  method PrintEntry(fields: seq<Field>, e: Entry) returns (r: Result<string>)
    ensures r == EntryText(fields, e)
  {
    var sb := "[";
    ghost var ts: seq<string> := [];
    for i := 0 to |fields|
      invariant Texts(fields, e, i) == Ok(ts)
      invariant sb == Printed(ts, i == |fields|)
    {
      var s := PrintValue(fields[i].fieldType, Get(e, fields[i].fieldName));
      TextsStep(fields, e, i, ts, s);
      if s.Err? {
        TextsErrStays(fields, e, i + 1, |fields|);
        return Err(s.error);
      }
      PrintedSnoc(ts, s.value, i == |fields| - 1);
      sb := sb + s.value;
      if i == |fields| - 1 {
        sb := sb + "]";
      } else {
        sb := sb + ", ";
      }
      ts := ts + [s.value];
    }
    r := Ok(sb);
  }

  /**
   * The texts `printEntry` shows for a row whose every cell holds a value of
   * its column's type are the values `insert` takes back: `string2Value`
   * turns each into the cell it was printed from.
   */
  lemma {:induction false} PrintedCells(fields: seq<Field>, e: Entry, n: nat)
    requires n <= |fields| && StorableRow(fields, e)
    ensures Texts(fields, e, n).Ok?
    ensures JavaTexts(Texts(fields, e, n).value)
    ensures forall i :: 0 <= i < n ==>
      String2Value(fields[i].fieldType, Texts(fields, e, n).value[i]) == Ok(Get(e, fields[i].fieldName))
    decreases n
  {
    if n > 0 {
      PrintedCells(fields, e, n - 1);
      var ts := Texts(fields, e, n - 1).value;
      var t := fields[n - 1].fieldType;
      var v := Get(e, fields[n - 1].fieldName);
      assert StorableCell(t, v);
      PrintedCell(t, v);
      TextsStep(fields, e, n - 1, ts, PrintValue(t, v));
      var all := ts + [PrintValue(t, v).value];
      assert Texts(fields, e, n) == Ok(all);
      forall i | 0 <= i < n
        ensures JavaString(all[i]) && String2Value(fields[i].fieldType, all[i]) == Ok(Get(e, fields[i].fieldName))
      {
        if i < n - 1 {
          assert all[i] == ts[i];
        }
      }
    }
  }

  /** A storable cell's text is read back by `string2Value` as the cell. */
  lemma {:induction false} PrintedCell(t: string, v: Option<Value>)
    requires StorableCell(t, v)
    ensures PrintValue(t, v).Ok? && JavaString(PrintValue(t, v).value)
    ensures String2Value(t, PrintValue(t, v).value) == Ok(v)
  {
    PrintThenParse(t, v.value);
  }

  /**
   * What `printEntry` shows of a row, given back to `insert` as its values,
   * makes a row with the same cells.
   */
  lemma {:induction false} PrintThenInsert(fields: seq<Field>, e: Entry)
    requires StorableRow(fields, e) && Distinct(Names(fields))
    ensures Texts(fields, e, |fields|).Ok? && JavaTexts(Texts(fields, e, |fields|).value)
    ensures var back := EntryOf(fields, Texts(fields, e, |fields|).value);
      back.Ok? && forall i :: 0 <= i < |fields| ==> Get(back.value, fields[i].fieldName) == Get(e, fields[i].fieldName)
  {
    PrintedCells(fields, e, |fields|);
    EntryOfMeaning(fields, Texts(fields, e, |fields|).value);
  }

  // ---------------------------------------------------------------
  // Where clauses

  /** `CalWhereRes`: the range `[l0, r0]`, and `[l1, r1]` too when `single` is false. */
  datatype WhereRes = WhereRes(l0: int, r0: int, l1: int, r1: int, single: bool)

  predicate JavaWhere(w: Where)
  {
    JavaString(w.singleExp1.value) && (w.singleExp2.Some? ==> JavaString(w.singleExp2.value.value))
  }

  function Max(a: int, b: int): int
  {
    if a < b then b else a
  }

  function Min(a: int, b: int): int
  {
    if a < b then a else b
  }

  /** Each comparison's range: `calExp` as written, or the `corrected` one. */
  function RangeOf(t: string, exp: SingleExpression, corrected: bool): Result<Range>
    requires JavaString(exp.value)
  {
    if corrected then CalExp(t, exp) else CalExpAsWritten(t, exp)
  }

  /**
   * `calWhere` on a column of type `t`, each comparison's range taken by
   * `calExp` as written (`corrected` false) or corrected: "" scans the
   * first comparison's range; "or" scans both ranges; "and" scans their
   * intersection; any other operator is InvalidLogOp. A missing second
   * comparison faults where it is used.
   */
  function CalWhere(t: string, w: Where, corrected: bool): (r: Result<WhereRes>)
    requires JavaWhere(w)
    ensures r.Ok? ==> r.value.single == (w.logicOp != "or")
    ensures w.logicOp !in {"", "and", "or"} ==> r == Err(InvalidLogOp)
    ensures r.Err? ==> r.error in {NumberFormat, NullPointer, InvalidLogOp}
  {
    if w.logicOp == "" then
      var rg :- RangeOf(t, w.singleExp1, corrected);
      Ok(WhereRes(rg.left, rg.right, 0, 0, true))
    else if w.logicOp == "or" || w.logicOp == "and" then
      var rg0 :- RangeOf(t, w.singleExp1, corrected);
      if w.singleExp2.None? then Err(NullPointer)
      else
        var rg1 :- RangeOf(t, w.singleExp2.value, corrected);
        if w.logicOp == "or" then Ok(WhereRes(rg0.left, rg0.right, rg1.left, rg1.right, false))
        else Ok(WhereRes(Max(rg0.left, rg1.left), Min(rg0.right, rg1.right), rg1.left, rg1.right, true))
    else Err(InvalidLogOp)
  }

  /** The key `x` lies in a range the scan searches. */
  predicate Selected(res: WhereRes, x: int)
  {
    InRange(x, Range(res.l0, res.r0)) || (!res.single && InRange(x, Range(res.l1, res.r1)))
  }

  /** Both comparisons' values are keys of the column's type. */
  predicate KeysParse(t: string, w: Where)
    requires JavaWhere(w)
  {
    KeyOf(t, w.singleExp1.value).Ok? && (w.singleExp2.Some? ==> KeyOf(t, w.singleExp2.value.value).Ok?)
  }

  /**
   * On a where clause the grammar accepts, `calWhere` fails exactly when a
   * comparison's value is not a key of the column's type; otherwise a key is
   * scanned exactly when it satisfies the first comparison, both, or either,
   * as the logical operator says (the second comparison is taken on the
   * same column).
   */
  lemma {:induction false} CalWhereMeaning(t: string, w: Where, x: int)
    requires JavaWhere(w) && WfWhere(w) && IsInt64(x)
    ensures CalWhere(t, w, true).Ok? <==> KeysParse(t, w)
    ensures CalWhere(t, w, true).Err? ==> CalWhere(t, w, true).error == NumberFormat
    ensures KeysParse(t, w) ==>
      var e1 := w.singleExp1;
      var m1 := Holds(e1.compareOp, x, KeyOf(t, e1.value).value);
      var res := CalWhere(t, w, true).value;
      (w.logicOp == "" ==> (Selected(res, x) <==> m1))
      && (w.singleExp2.Some? ==>
        var e2 := w.singleExp2.value;
        var m2 := Holds(e2.compareOp, x, KeyOf(t, e2.value).value);
        (w.logicOp == "and" ==> (Selected(res, x) <==> m1 && m2))
        && (w.logicOp == "or" ==> (Selected(res, x) <==> m1 || m2)))
  {
    if KeysParse(t, w) {
      CalExpMeaning(t, w.singleExp1, x);
      if w.singleExp2.Some? {
        CalExpMeaning(t, w.singleExp2.value, x);
      }
    }
  }

  /**
   * The ranges as written fail exactly where the corrected ones do, with
   * the same error, so `calWhere` as written fails exactly when a value is
   * not a key of the column's type; on equality comparisons the two agree.
   */
  lemma {:induction false} CalWhereAgree(t: string, w: Where)
    requires JavaWhere(w)
    ensures CalWhere(t, w, false).Err? <==> CalWhere(t, w, true).Err?
    ensures CalWhere(t, w, false).Err? ==> CalWhere(t, w, false).error == CalWhere(t, w, true).error
    ensures w.singleExp1.compareOp == "=" && (w.singleExp2.Some? ==> w.singleExp2.value.compareOp == "=") ==>
      CalWhere(t, w, false) == CalWhere(t, w, true)
  {
    RangesAgree(t, w.singleExp1);
    if w.singleExp2.Some? {
      RangesAgree(t, w.singleExp2.value);
    }
  }

  /** The first column at or after `from` that has an index. */
  function FirstIndexed(fields: seq<Field>, from: nat): (r: Option<nat>)
    requires from <= |fields|
    ensures r.Some? ==> from <= r.value < |fields| && IsIndexed(fields[r.value])
    ensures forall j :: from <= j < |fields| && (r.None? || j < r.value) ==> !IsIndexed(fields[j])
    decreases |fields| - from
  {
    if from == |fields| then None
    else if IsIndexed(fields[from]) then Some(from)
    else FirstIndexed(fields, from + 1)
  }

  /** The first column at or after `from` with the given name. */
  function FirstNamed(fields: seq<Field>, name: string, from: nat): (r: Option<nat>)
    requires from <= |fields|
    ensures r.Some? ==> from <= r.value < |fields| && fields[r.value].fieldName == name
    ensures forall j :: from <= j < |fields| && (r.None? || j < r.value) ==> fields[j].fieldName != name
    decreases |fields| - from
  {
    if from == |fields| then None
    else if fields[from].fieldName == name then Some(from)
    else FirstNamed(fields, name, from + 1)
  }

  /** The index `parseWhere` searches and the key ranges it searches it with. */
  datatype Scan = Scan(fd: Field, res: WhereRes)

  /**
   * `parseWhere` without a where clause: the first indexed column, over the
   * one range from `low` to `Long.MAX_VALUE`; a table without an indexed
   * column leaves the column `null`, and the search on it faults.
   */
  function ScanAll(fields: seq<Field>, low: int): (r: Result<Scan>)
    ensures r.Err? <==> forall j :: 0 <= j < |fields| ==> !IsIndexed(fields[j])
    ensures r.Err? ==> r.error == NullPointer
    ensures r.Ok? ==> IsIndexed(r.value.fd) && r.value.fd in fields && r.value.res.single
    ensures r.Ok? ==> forall x :: Selected(r.value.res, x) <==> low <= x <= LONG_MAX
  {
    match FirstIndexed(fields, 0)
    case None => Err(NullPointer)
    case Some(i) => Ok(Scan(fields[i], WhereRes(low, LONG_MAX, 0, 0, true)))
  }

  /**
   * `parseWhere` with a where clause: the first column named by its first
   * comparison, which must have an index, and the ranges `calWhere` gives.
   */
  function ScanWhere(fields: seq<Field>, w: Where, corrected: bool): (r: Result<Scan>)
    requires JavaWhere(w)
    ensures r.Ok? ==> IsIndexed(r.value.fd) && r.value.fd in fields && r.value.fd.fieldName == w.singleExp1.field
    ensures r.Err? ==> r.error in {FieldNotFound, FieldNotIndexed, NumberFormat, NullPointer, InvalidLogOp}
  {
    match FirstNamed(fields, w.singleExp1.field, 0)
    case None => Err(FieldNotFound)
    case Some(i) =>
      if !IsIndexed(fields[i]) then Err(FieldNotIndexed)
      else
        var res :- CalWhere(fields[i].fieldType, w, corrected);
        Ok(Scan(fields[i], res))
  }

  /**
   * `parseWhere` as written: the scan without a where clause starts at key
   * 0, and the comparisons' ranges are `calExp`'s as written.
   */
  function WherePlanAsWritten(fields: seq<Field>, where: Option<Where>): (r: Result<Scan>)
    requires where.Some? ==> JavaWhere(where.value)
    ensures r.Ok? ==> IsIndexed(r.value.fd) && r.value.fd in fields
    ensures where.None? && r.Ok? ==> forall x :: Selected(r.value.res, x) <==> 0 <= x <= LONG_MAX
  {
    if where.None? then ScanAll(fields, 0) else ScanWhere(fields, where.value, false)
  }

  /**
   * `parseWhere` corrected: the scan without a where clause covers the
   * whole `long` key space, and the comparisons' ranges are the corrected ones.
   */
  function WherePlan(fields: seq<Field>, where: Option<Where>): (r: Result<Scan>)
    requires where.Some? ==> JavaWhere(where.value)
    ensures r.Ok? ==> IsIndexed(r.value.fd) && r.value.fd in fields
    ensures where.None? && r.Ok? ==> forall x :: IsInt64(x) ==> Selected(r.value.res, x)
  {
    if where.None? then ScanAll(fields, LONG_MIN) else ScanWhere(fields, where.value, true)
  }

  /**
   * Without a where clause, every row is selected through the first indexed
   * column: corrected, every key a cell can have lies in the scanned range;
   * as written, the same column is scanned over the keys from 0 up. A table
   * without an indexed column faults.
   */
  lemma {:induction false} ScanAllSelects(fields: seq<Field>, x: int)
    requires IsInt64(x)
    ensures WherePlan(fields, None).Err? <==> forall j :: 0 <= j < |fields| ==> !IsIndexed(fields[j])
    ensures WherePlan(fields, None).Err? ==> WherePlan(fields, None).error == NullPointer
    ensures WherePlan(fields, None).Ok? ==>
      var i := FirstIndexed(fields, 0).value;
      WherePlan(fields, None).value.fd == fields[i]
      && (forall j :: 0 <= j < i ==> !IsIndexed(fields[j]))
      && Selected(WherePlan(fields, None).value.res, x)
    ensures WherePlanAsWritten(fields, None).Err? <==> WherePlan(fields, None).Err?
    ensures WherePlanAsWritten(fields, None).Ok? ==>
      WherePlanAsWritten(fields, None).value.fd == WherePlan(fields, None).value.fd
      && (Selected(WherePlanAsWritten(fields, None).value.res, x) <==> 0 <= x)
  {
  }

  /** As written, the scan without a where clause misses every negative key (an `int` cell of -1, say). */
  lemma {:induction false} ScanAllMissesNegative(fields: seq<Field>, x: int)
    requires x < 0 && exists j :: 0 <= j < |fields| && IsIndexed(fields[j])
    ensures WherePlanAsWritten(fields, None).Ok? && !Selected(WherePlanAsWritten(fields, None).value.res, x)
    ensures Value2Uid("int32", Some(Int32Val(-1))) == Ok(-1)
  {
  }

  /**
   * With a where clause, as written: a first comparison on a column the
   * table does not have is FieldNotFound; on a column without an index,
   * FieldNotIndexed; otherwise the scan searches that column's index with
   * the ranges of `calWhere`, or fails as it does.
   */
  lemma {:induction false} ScanWhereErrors(fields: seq<Field>, w: Where)
    requires JavaWhere(w)
    ensures var name := w.singleExp1.field;
      ((forall j :: 0 <= j < |fields| ==> fields[j].fieldName != name) <==> WherePlanAsWritten(fields, Some(w)) == Err(FieldNotFound))
      && forall i :: 0 <= i < |fields| && fields[i].fieldName == name
                     && (forall j :: 0 <= j < i ==> fields[j].fieldName != name) ==>
        (!IsIndexed(fields[i]) ==> WherePlanAsWritten(fields, Some(w)) == Err(FieldNotIndexed))
        && (IsIndexed(fields[i]) ==>
          WherePlanAsWritten(fields, Some(w)) == (match CalWhere(fields[i].fieldType, w, false)
                                          case Ok(res) => Ok(Scan(fields[i], res))
                                          case Err(err) => Err(err)))
  {
    var name := w.singleExp1.field;
    match FirstNamed(fields, name, 0)
    case None =>
    case Some(k) =>
      assert fields[k].fieldName == name;
      assert WherePlanAsWritten(fields, Some(w)) == ScanWhere(fields, w, false);
      forall i | 0 <= i < |fields| && fields[i].fieldName == name && (forall j :: 0 <= j < i ==> fields[j].fieldName != name)
        ensures i == k
      {
      }
  }

  // ---------------------------------------------------------------
  // update and the index keys of a new row version

  /** What `update` sets in each row it selects: the column and its new cell. */
  datatype UpdatePlan = UpdatePlan(scan: Scan, column: Field, value: Option<Value>)

  /**
   * `update` before its row loop: the scan `parseWhere` plans, then the
   * first column with the statement's field name (FieldNotFound when there
   * is none), then that column's `string2Value` of the new value.
   */
  function UpdateTarget(fields: seq<Field>, where: Option<Where>, fieldName: string, value: string): (r: Result<UpdatePlan>)
    requires (where.Some? ==> JavaWhere(where.value)) && JavaString(value)
    ensures WherePlanAsWritten(fields, where).Err? ==> r == Err(WherePlanAsWritten(fields, where).error)
    ensures r.Ok? ==> (r.value.scan == WherePlanAsWritten(fields, where).value
                       && r.value.column in fields && r.value.column.fieldName == fieldName)
    ensures r.Ok? ==> JavaCell(r.value.value) && (r.value.value.Some? <==> IsType(r.value.column.fieldType))
  {
    var scan :- WherePlanAsWritten(fields, where);
    match FirstNamed(fields, fieldName, 0)
    case None => Err(FieldNotFound)
    case Some(i) =>
      var v :- String2Value(fields[i].fieldType, value);
      Ok(UpdatePlan(scan, fields[i], v))
  }

  /** Once the scan is planned, an update of a column the table does not have is FieldNotFound. */
  lemma {:induction false} UpdateUnknownColumn(fields: seq<Field>, where: Option<Where>, fieldName: string, value: string)
    requires (where.Some? ==> JavaWhere(where.value)) && JavaString(value)
    requires WherePlanAsWritten(fields, where).Ok?
    ensures (forall j :: 0 <= j < |fields| ==> fields[j].fieldName != fieldName) <==>
      UpdateTarget(fields, where, fieldName, value) == Err(FieldNotFound)
  {
    match FirstNamed(fields, fieldName, 0)
    case None =>
    case Some(k) =>
      assert fields[k].fieldName == fieldName;
      assert String2Value(fields[k].fieldType, value) != Err(FieldNotFound);
  }

  /**
   * Once the scan is planned, an update sets the first column with the
   * statement's field name to the converted value, or fails as the
   * conversion does.
   */
  lemma {:induction false} UpdateColumn(fields: seq<Field>, where: Option<Where>, fieldName: string, value: string, i: nat)
    requires (where.Some? ==> JavaWhere(where.value)) && JavaString(value)
    requires WherePlanAsWritten(fields, where).Ok?
    requires i < |fields| && fields[i].fieldName == fieldName
    requires forall j :: 0 <= j < i ==> fields[j].fieldName != fieldName
    ensures UpdateTarget(fields, where, fieldName, value)
      == match String2Value(fields[i].fieldType, value)
         case Ok(v) => Ok(UpdatePlan(WherePlanAsWritten(fields, where).value, fields[i], v))
         case Err(err) => Err(err)
  {
    assert FirstNamed(fields, fieldName, 0) == Some(i);
  }

  /**
   * The keys a new row version gets in the table's indexes, column by
   * column (`insert`): an indexed column's key is `value2Uid` of that
   * column's own cell; a column without an index gets none.
   */
  function IndexKeys(fields: seq<Field>, e: Entry, n: nat): (r: Result<seq<Option<int>>>)
    requires n <= |fields| && JavaEntry(e)
    ensures r.Ok? ==> |r.value| == n
  {
    if n == 0 then Ok([])
    else
      match IndexKeys(fields, e, n - 1)
      case Err(err) => Err(err)
      case Ok(ks) =>
        var f := fields[n - 1];
        if !IsIndexed(f) then Ok(ks + [None])
        else
          match Value2Uid(f.fieldType, Get(e, f.fieldName))
          case Err(err) => Err(err)
          case Ok(k) => Ok(ks + [Some(k)])
  }

  /**
   * The keys `update` as written gives a new row version: every indexed
   * column's index gets `value2Uid` of the updated column's cell.
   */
  function UpdateKeysAsWritten(fields: seq<Field>, e: Entry, name: string, n: nat): (r: Result<seq<Option<int>>>)
    requires n <= |fields| && JavaEntry(e)
    ensures r.Ok? ==> |r.value| == n
  {
    if n == 0 then Ok([])
    else
      match UpdateKeysAsWritten(fields, e, name, n - 1)
      case Err(err) => Err(err)
      case Ok(ks) =>
        var f := fields[n - 1];
        if !IsIndexed(f) then Ok(ks + [None])
        else
          match Value2Uid(f.fieldType, Get(e, name))
          case Err(err) => Err(err)
          case Ok(k) => Ok(ks + [Some(k)])
  }

  /** The key column `i` gets, or the error its `value2Uid` raises. */
  function ColumnKey(f: Field, e: Entry): (r: Result<Option<int>>)
    requires JavaEntry(e)
    ensures r.Err? ==> IsIndexed(f)
  {
    if !IsIndexed(f) then Ok(None)
    else
      match Value2Uid(f.fieldType, Get(e, f.fieldName))
      case Err(err) => Err(err)
      case Ok(k) => Ok(Some(k))
  }

  /**
   * The keys are found exactly when every indexed column's cell has a key,
   * and then each column's entry is that column's own key.
   */
  lemma {:induction false} IndexKeysMeaning(fields: seq<Field>, e: Entry, n: nat)
    requires n <= |fields| && JavaEntry(e)
    ensures IndexKeys(fields, e, n).Ok? <==> forall i :: 0 <= i < n ==> ColumnKey(fields[i], e).Ok?
    ensures IndexKeys(fields, e, n).Ok? ==>
      forall i :: 0 <= i < n ==> IndexKeys(fields, e, n).value[i] == ColumnKey(fields[i], e).value
    decreases n
  {
    if n > 0 {
      IndexKeysMeaning(fields, e, n - 1);
      var f := fields[n - 1];
      assert IndexKeys(fields, e, n) == match IndexKeys(fields, e, n - 1)
        case Err(err) => Err(err)
        case Ok(ks) => match ColumnKey(f, e)
          case Err(err) => Err(err)
          case Ok(k) => Ok(ks + [k]);
    }
  }

  /**
   * After `update` sets column `name` to `v`, each indexed column should get
   * its own key: the new cell's key for the updated column, the old cell's
   * key for the others.
   */
  lemma {:induction false} UpdatedKeys(fields: seq<Field>, e: Entry, name: string, v: Option<Value>)
    requires JavaEntry(e) && JavaCell(v)
    ensures JavaEntry(e[name := v])
    ensures IndexKeys(fields, e[name := v], |fields|).Ok? ==>
      forall i :: 0 <= i < |fields| && IsIndexed(fields[i]) ==>
        var cell := if fields[i].fieldName == name then v else Get(e, fields[i].fieldName);
        Value2Uid(fields[i].fieldType, cell).Ok?
        && IndexKeys(fields, e[name := v], |fields|).value[i] == Some(Value2Uid(fields[i].fieldType, cell).value)
  {
    var e' := e[name := v];
    assert JavaEntry(e');
    IndexKeysMeaning(fields, e', |fields|);
  }

  /**
   * As written, `update` puts the new row version into every index under
   * the updated column's key: with `int` columns `a` and `b` both indexed
   * and the row a = 5, b = 7 after the update of `a`, both indexes get
   * key 5, where `b`'s index should get 7.
   */
  lemma {:induction false} UpdateKeysCollide()
    ensures var fields := [Field(1, "a", "int32", 3), Field(2, "b", "int32", 4)];
      var e := map["a" := Some(Int32Val(5)), "b" := Some(Int32Val(7))];
      JavaEntry(e)
      && UpdateKeysAsWritten(fields, e, "a", 2) == Ok([Some(5), Some(5)])
      && IndexKeys(fields, e, 2) == Ok([Some(5), Some(7)])
  {
    var fields := [Field(1, "a", "int32", 3), Field(2, "b", "int32", 4)];
    var e := map["a" := Some(Int32Val(5)), "b" := Some(Int32Val(7))];
    assert JavaEntry(e) by {
      assert forall k :: k in e ==> k == "a" || k == "b";
    }
    assert Get(e, "a") == Some(Int32Val(5)) && Get(e, "b") == Some(Int32Val(7));
    assert IsIndexed(fields[0]) && IsIndexed(fields[1]);
    assert fields[0].fieldType == "int32" && fields[1].fieldType == "int32";
    assert fields[0].fieldName == "a" && fields[1].fieldName == "b";
    assert Value2Uid(fields[0].fieldType, Get(e, "a")) == Ok(5);
    assert Value2Uid(fields[1].fieldType, Get(e, "a")) == Ok(5);
    assert Value2Uid(fields[1].fieldType, Get(e, "b")) == Ok(7);
    var k1: seq<Option<int>> := [Some(5)];
    assert [] + [Some(5)] == k1 && k1 + [Some(5)] == [Some(5), Some(5)] && k1 + [Some(7)] == [Some(5), Some(7)];
    assert UpdateKeysAsWritten(fields, e, "a", 0) == Ok([]);
    assert UpdateKeysAsWritten(fields, e, "a", 1) == Ok(k1);
    assert IndexKeys(fields, e, 0) == Ok([]);
    assert IndexKeys(fields, e, 1) == Ok(k1);
  }
}
