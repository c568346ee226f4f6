/**
 * A table column: its name, its type (`int32`, `int64` or `string`) and the
 * root of its B+ tree index, 0 when it has none. A column is built once,
 * when its table is created or loaded, and is not changed afterwards, so it
 * is a value here.
 *
 * Its record is `[FieldName][TypeName][IndexUid]`: two length-prefixed
 * strings and an 8-byte root.
 */
module Fields {
  import opened Wrappers
  import opened Bytes
  import opened Codec
  import opened Decimal
  import opened SqlParser

  const LONG_MAX: int := TWO_63 - 1
  const LONG_MIN: int := -TWO_63

  /** A cell: an `Integer`, a `Long` or a `String`. A `null` cell is `None`. */
  datatype Value = Int32Val(i: int) | Int64Val(l: int) | StrVal(s: string)

  /** `Field`: the uid of its record, its name, its type and its index root. */
  datatype Field = Field(uid: int, fieldName: string, fieldType: string, index: int)

  /** Text that fits in a Java `String`. */
  predicate JavaString(s: string)
  {
    JavaLength(s) < TWO_31
  }

  /** A cell Java can hold: an `int`, a `long` or a `String` within their ranges. */
  predicate JavaValue(v: Value)
  {
    match v
    case Int32Val(i) => IsInt32(i)
    case Int64Val(l) => IsInt64(l)
    case StrVal(s) => JavaString(s)
  }

  predicate JavaCell(v: Option<Value>)
  {
    v.Some? ==> JavaValue(v.value)
  }

  /** The cell is of the class the column type names. */
  predicate OfType(t: string, v: Value)
  {
    match v
    case Int32Val(_) => t == "int32"
    case Int64Val(_) => t == "int64"
    case StrVal(_) => t == "string"
  }

  /** `typeCheck`: the types of `VALID_FIELD_TYPE`, which are exactly those the parser accepts. */
  function TypeCheck(t: string): (r: Outcome)
    ensures r.Pass? <==> IsType(t)
    ensures r.Fail? ==> r.error == InvalidField
  {
    if t in {"int32", "int64", "string"} then Pass else Fail(InvalidField)
  }

  /** `isIndexed`. */
  predicate IsIndexed(f: Field)
  {
    f.index != 0
  }

  /**
   * `createField`: the type is checked first; an indexed column takes the
   * root of the B+ tree created for it (`root`, never 0) and the column's
   * record gets the uid `uid` from the version layer.
   */
  function CreateField(uid: int, name: string, t: string, indexed: bool, root: int): (r: Result<Field>)
    requires root != 0
    ensures r.Ok? <==> IsType(t)
    ensures r.Err? ==> r.error == InvalidField
    ensures r.Ok? ==> (r.value.uid == uid && r.value.fieldName == name && r.value.fieldType == t
      && (IsIndexed(r.value) <==> indexed))
  {
    if TypeCheck(t).Fail? then Err(TypeCheck(t).error)
    else Ok(Field(uid, name, t, if indexed then root else 0))
  }

  // ---------------------------------------------------------------
  // The column's record

  /**
   * `persistSelf`: the bytes handed to the version layer, which `parseSelf`
   * loads back as the same column when its name and type are ASCII.
   */
  function FieldRaw(f: Field): (r: seq<byte>)
    requires JavaString(f.fieldName) && JavaString(f.fieldType) && IsInt64(f.index)
    ensures |r| == |String2Byte(f.fieldName)| + |String2Byte(f.fieldType)| + 8
    ensures IsAscii(f.fieldName) && IsAscii(f.fieldType) && |f.fieldName| + |f.fieldType| < TWO_31 - 16 ==>
      ParseSelf(f.uid, r) == Ok(f)
  {
    LongRoundTrip(f.index, []);
    var raw := String2Byte(f.fieldName) + String2Byte(f.fieldType) + Long2Byte(f.index);
    if IsAscii(f.fieldName) && IsAscii(f.fieldType) && |f.fieldName| + |f.fieldType| < TWO_31 - 16 then
      FieldRoundTrip(f);
      raw
    else raw
  }

  /**
   * `parseSelf`: the name, then the type from the bytes after it, then the
   * index root from the 8 bytes after that. The positions are `int` sums;
   * `parseLong` faults on fewer than 8 bytes.
   */
  function ParseSelf(uid: int, raw: seq<byte>): (r: Result<Field>)
    ensures r.Ok? ==> r.value.uid == uid && IsInt64(r.value.index) && |raw| >= 8
    ensures r.Ok? ==> ParseString(raw).Ok? && r.value.fieldName == ParseString(raw).value.str
    ensures r.Err? ==> r.error == IllegalArgument || r.error == IndexOutOfBounds
    ensures |raw| < 4 ==> r.Err?
  {
    var name :- ParseString(raw);
    var position := name.next;
    var rest :- CopyOfRange(raw, position, |raw|);
    var t :- ParseString(rest);
    var position2 := Wrap32(position + t.next);
    var indexRaw :- CopyOfRange(raw, position2, Wrap32(position2 + 8));
    if |indexRaw| < 8 then Err(IndexOutOfBounds)
    else Ok(Field(uid, name.str, t.str, ParseLong(indexRaw)))
  }

  /** `parseSelf` in terms of what its two string reads and its `long` read find. */
  lemma {:induction false} ParseSelfSteps(uid: int, raw: seq<byte>, name: ParseStringRes, t: ParseStringRes, index: int)
    requires |raw| < TWO_31 && 0 <= name.next && 0 <= t.next && name.next + t.next + 8 <= |raw|
    requires ParseString(raw) == Ok(name)
    requires ParseString(raw[name.next..]) == Ok(t)
    requires ParseLong(raw[name.next + t.next..name.next + t.next + 8]) == index
    ensures ParseSelf(uid, raw) == Ok(Field(uid, name.str, t.str, index))
  {
    ParseSelfCuts(raw, name.next, name.next + t.next);
  }

  /** The two copies `parseSelf` makes, at positions inside the record, copy exactly the bytes there. */
  lemma {:induction false} ParseSelfCuts(raw: seq<byte>, p: int, p2: int)
    requires |raw| < TWO_31 && 0 <= p <= p2 && p2 + 8 <= |raw|
    ensures CopyOfRange(raw, p, |raw|) == Ok(raw[p..])
    ensures Wrap32(p2) == p2 && Wrap32(p2 + 8) == p2 + 8
    ensures CopyOfRange(raw, p2, p2 + 8) == Ok(raw[p2..p2 + 8])
  {
    assert ReadAt(raw, p, |raw| - p) == raw[p..];
    WrapModId(p2, TWO_32);
    WrapModId(p2 + 8, TWO_32);
    assert ReadAt(raw, p2, 8) == raw[p2..p2 + 8];
  }

  /** `parseSelf` over a record cut into the name's bytes, the type's bytes and the root's 8 bytes. */
  lemma {:induction false} ParseSelfPieces(uid: int, a: seq<byte>, b: seq<byte>, c: seq<byte>, name: string, t: string, index: int)
    requires |a| + |b| + |c| < TWO_31 && |c| == 8
    requires ParseString(a + (b + c)) == Ok(ParseStringRes(name, |a|))
    requires ParseString(b + c) == Ok(ParseStringRes(t, |b|))
    requires ParseLong(c) == index
    ensures ParseSelf(uid, a + b + c) == Ok(Field(uid, name, t, index))
  {
    var raw := a + b + c;
    assert raw == a + (b + c);
    assert raw[|a|..] == b + c;
    assert raw[|a| + |b|..|a| + |b| + 8] == c;
    ParseSelfSteps(uid, raw, ParseStringRes(name, |a|), ParseStringRes(t, |b|), index);
  }

  /** A column laid out as `persistSelf` lays it out is loaded back as it was. */
  lemma {:induction false} FieldRoundTrip(f: Field)
    requires IsAscii(f.fieldName) && IsAscii(f.fieldType) && IsInt64(f.index)
    requires |f.fieldName| + |f.fieldType| < TWO_31 - 16
    ensures JavaString(f.fieldName) && JavaString(f.fieldType)
    ensures ParseSelf(f.uid, String2Byte(f.fieldName) + String2Byte(f.fieldType) + Long2Byte(f.index)) == Ok(f)
  {
    AsciiBytes(f.fieldName);
    AsciiBytes(f.fieldType);
    IntRoundTrip(|f.fieldName|, []);
    IntRoundTrip(|f.fieldType|, []);
    var nameRaw := String2Byte(f.fieldName);
    var typeRaw := String2Byte(f.fieldType);
    var indexRaw := Long2Byte(f.index);
    LongRoundTrip(f.index, []);
    assert indexRaw + [] == indexRaw;
    ParseStringRoundTrip(f.fieldName, typeRaw + indexRaw);
    ParseStringRoundTrip(f.fieldType, indexRaw);
    ParseSelfPieces(f.uid, nameRaw, typeRaw, indexRaw, f.fieldName, f.fieldType, f.index);
  }

  /** A column made by `createField` and stored is loaded back with its name, type and index flag. */
  lemma {:induction false} CreateThenLoad(uid: int, name: string, t: string, indexed: bool, root: int)
    requires root != 0 && IsInt64(root) && IsType(t)
    requires IsAscii(name) && |name| < TWO_31 - 32
    ensures var f := CreateField(uid, name, t, indexed, root).value;
      && JavaString(name) && JavaString(t)
      && ParseSelf(uid, FieldRaw(f)) == Ok(f)
      && f.fieldName == name && f.fieldType == t && (IsIndexed(f) <==> indexed)
  {
    var f := CreateField(uid, name, t, indexed, root).value;
    FieldRoundTrip(f);
  }

  // ---------------------------------------------------------------
  // Cells

  /**
   * `string2Value`: `Integer.parseInt`, `Long.parseLong`, the text itself,
   * or `null` for a type the switch does not name.
   */
  function String2Value(t: string, str: string): (r: Result<Option<Value>>)
    requires JavaString(str)
    ensures r.Ok? ==> (JavaCell(r.value) && (r.value.Some? <==> IsType(t))
      && (r.value.Some? ==> OfType(t, r.value.value)))
    ensures r.Err? ==> r.error == NumberFormat && (t == "int32" || t == "int64")
  {
    if t == "int32" then
      var i :- ParseIntText(str);
      Ok(Some(Int32Val(i)))
    else if t == "int64" then
      var l :- ParseLongText(str);
      Ok(Some(Int64Val(l)))
    else if t == "string" then Ok(Some(StrVal(str)))
    else Ok(None)
  }

  /**
   * `value2Uid`: the key a cell has in the column's index. A `null` cell
   * faults on unboxing or in `str2Uid`; a cell of another class fails its
   * cast; a type the switch does not name gives 0.
   */
  function Value2Uid(t: string, v: Option<Value>): (r: Result<int>)
    requires JavaCell(v)
    ensures r.Ok? ==> IsInt64(r.value)
    ensures r.Ok? <==> !IsType(t) || (v.Some? && OfType(t, v.value))
    ensures r.Err? ==> r.error == (if v.None? then NullPointer else ClassCast)
  {
    if t == "string" then
      if v.None? then Err(NullPointer)
      else if v.value.StrVal? then Ok(StrUid(v.value.s))
      else Err(ClassCast)
    else if t == "int32" then
      if v.None? then Err(NullPointer)
      else if v.value.Int32Val? then Ok(v.value.i)
      else Err(ClassCast)
    else if t == "int64" then
      if v.None? then Err(NullPointer)
      else if v.value.Int64Val? then Ok(v.value.l)
      else Err(ClassCast)
    else Ok(0)
  }

  /**
   * `value2Raw`: 4 bytes for an `int`, 8 for a `long`, a length-prefixed
   * string. For a type the switch does not name it returns `null`, which the
   * only caller (`entry2Raw`) dereferences: that fault is reported here.
   */
  function Value2Raw(t: string, v: Option<Value>): (r: Result<seq<byte>>)
    requires JavaCell(v)
    ensures r.Ok? <==> IsType(t) && v.Some? && OfType(t, v.value)
    ensures r.Err? ==> r.error == (if v.Some? && IsType(t) then ClassCast else NullPointer)
    ensures r.Ok? ==> |r.value| == (if t == "int32" then 4 else if t == "int64" then 8 else 4 + |GetBytes(v.value.s)|)
  {
    if t == "int32" then
      if v.None? then Err(NullPointer)
      else if v.value.Int32Val? then Ok(Int2Byte(v.value.i))
      else Err(ClassCast)
    else if t == "int64" then
      if v.None? then Err(NullPointer)
      else if v.value.Int64Val? then Ok(Long2Byte(v.value.l))
      else Err(ClassCast)
    else if t == "string" then
      if v.None? then Err(NullPointer)
      else if v.value.StrVal? then Ok(String2Byte(v.value.s))
      else Err(ClassCast)
    else Err(NullPointer)
  }

  datatype ParseValueRes = ParseValueRes(v: Option<Value>, shift: int)

  /**
   * `parserValue`'s switch, with the spelling of its `long` case as a
   * parameter: an `int` from the first 4 bytes (`copyOf` pads with zeros),
   * a `long` from the first 8, a length-prefixed string; any other type
   * gives `null` and a shift of 0.
   */
  function DecodeValue(t: string, longType: string, raw: seq<byte>): (r: Result<ParseValueRes>)
    requires longType in {"int62", "int64"}
    ensures r.Ok? ==> (JavaCell(r.value.v) && r.value.shift >= 0
      && (r.value.v.Some? ==> OfType(if t == longType then "int64" else t, r.value.v.value)))
  {
    if t == "int32" then Ok(ParseValueRes(Some(Int32Val(ParseInt(ReadAt(raw, 0, 4)))), 4))
    else if t == longType then Ok(ParseValueRes(Some(Int64Val(ParseLong(ReadAt(raw, 0, 8)))), 8))
    else if t == "string" then
      var res :- ParseString(raw);
      NewStringJavaLength(ReadAt(raw, 4, res.next - 4));
      Ok(ParseValueRes(Some(StrVal(res.str)), res.next))
    else Ok(ParseValueRes(None, 0))
  }

  /** `parserValue` as written: its `long` case is spelled "int62", a type no column has. */
  function ParserValueAsWritten(t: string, raw: seq<byte>): (r: Result<ParseValueRes>)
    ensures t == "int64" ==> r == Ok(ParseValueRes(None, 0))
  {
    DecodeValue(t, "int62", raw)
  }

  /** `parserValue` with its `long` case spelled "int64". */
  function ParserValue(t: string, raw: seq<byte>): (r: Result<ParseValueRes>)
    ensures r.Ok? ==> JavaCell(r.value.v) && (r.value.v.Some? ==> OfType(t, r.value.v.value))
  {
    DecodeValue(t, "int64", raw)
  }

  /** The two agree on every type but `int64` (and the type no column has, "int62"). */
  lemma {:induction false} ParserValueAgrees(t: string, raw: seq<byte>)
    requires t != "int64" && t != "int62"
    ensures ParserValueAsWritten(t, raw) == ParserValue(t, raw)
  {
  }

  /**
   * The cell `value2Raw` writes is read back by `parserValue`, which
   * advances over exactly its bytes, whatever follows them. Strings must be
   * ASCII: the length prefix counts UTF-16 units.
   */
  lemma {:induction false} ValueRoundTrip(t: string, v: Value, rest: seq<byte>)
    requires IsType(t) && OfType(t, v) && JavaValue(v)
    requires v.StrVal? ==> IsAscii(v.s) && |v.s| < TWO_31 - 4
    ensures Value2Raw(t, Some(v)).Ok?
    ensures var raw := Value2Raw(t, Some(v)).value;
      ParserValue(t, raw + rest) == Ok(ParseValueRes(Some(v), |raw|))
  {
    var raw := Value2Raw(t, Some(v)).value;
    match v
    case Int32Val(i) =>
      IntRoundTrip(i, []);
      assert ReadAt(raw + rest, 0, 4) == raw + [];
    case Int64Val(l) =>
      LongRoundTrip(l, []);
      assert ReadAt(raw + rest, 0, 8) == raw + [];
    case StrVal(s) =>
      AsciiBytes(s);
      ParseStringRoundTrip(s, rest);
  }

  /** As written, an `int64` cell is read as `null` and its 8 bytes are not skipped. */
  lemma {:induction false} Int64NeverDecoded(l: int, rest: seq<byte>)
    requires IsInt64(l)
    ensures ParserValueAsWritten("int64", Value2Raw("int64", Some(Int64Val(l))).value + rest)
      == Ok(ParseValueRes(None, 0))
    ensures ParserValue("int64", Value2Raw("int64", Some(Int64Val(l))).value + rest)
      == Ok(ParseValueRes(Some(Int64Val(l)), 8))
  {
    ValueRoundTrip("int64", Int64Val(l), rest);
  }

  /**
   * `printValue`: `String.valueOf` for the integer types (a `String` cell is
   * printed as itself), a cast for `string`; a `null` string is appended as
   * "null", as is the `null` a type the switch does not name gives.
   */
  function PrintValue(t: string, v: Option<Value>): (r: Result<string>)
    ensures r.Err? <==> t == "string" && v.Some? && !v.value.StrVal?
    ensures r.Err? ==> r.error == ClassCast
  {
    if v.None? then Ok("null")
    else if t == "int32" || t == "int64" then
      match v.value
      case Int32Val(i) => Ok(ShowInt(i))
      case Int64Val(l) => Ok(ShowInt(l))
      case StrVal(s) => Ok(s)
    else if t == "string" then
      if v.value.StrVal? then Ok(v.value.s) else Err(ClassCast)
    else Ok("null")
  }

  /** The text `printValue` shows for a cell is read back by `string2Value` as the same cell. */
  lemma {:induction false} PrintThenParse(t: string, v: Value)
    requires IsType(t) && OfType(t, v) && JavaValue(v)
    ensures PrintValue(t, Some(v)).Ok?
    ensures var text := PrintValue(t, Some(v)).value;
      JavaString(text) && String2Value(t, text) == Ok(Some(v))
  {
    match v
    case Int32Val(i) =>
      ShowIntAscii(i);
      IntTextRoundTrip(i);
    case Int64Val(l) =>
      ShowIntAscii(l);
      LongTextRoundTrip(l);
    case StrVal(s) =>
  }

  lemma {:induction false} ShowIntAscii(v: int)
    requires IsInt64(v)
    ensures IsAscii(ShowInt(v)) && JavaString(ShowInt(v))
  {
    ShowIntShape(v);
    AsciiBytes(ShowInt(v));
  }

  // ---------------------------------------------------------------
  // Key ranges

  /** `FieldCalRes`: the closed key range `[left, right]` a comparison scans. */
  datatype Range = Range(left: int, right: int)

  predicate InRange(x: int, rg: Range)
  {
    rg.left <= x <= rg.right
  }

  /** The comparison `x op k` a where clause asks for. */
  predicate Holds(op: string, x: int, k: int)
  {
    (op == "<" && x < k) || (op == "=" && x == k) || (op == ">" && x > k)
  }

  /** The index key of the comparison's value: `string2Value`, then `value2Uid`. */
  function KeyOf(t: string, text: string): (r: Result<int>)
    requires JavaString(text)
    ensures r.Ok? ==> IsInt64(r.value)
    ensures r.Err? ==> r.error == NumberFormat
  {
    var v :- String2Value(t, text);
    Value2Uid(t, v)
  }

  /**
   * `calExp` as written: `<` scans from 0 and stops one below the key when
   * the key is positive, `=` scans the key alone, `>` scans from one above
   * the key (a `long` sum that wraps) to `Long.MAX_VALUE`; any other
   * operator gives `[0, 0]`.
   */
  function CalExpAsWritten(t: string, exp: SingleExpression): (r: Result<Range>)
    requires JavaString(exp.value)
    ensures r.Err? <==> IsCmpOp(exp.compareOp) && KeyOf(t, exp.value).Err?
    ensures r.Err? ==> r.error == NumberFormat
    ensures r.Ok? ==> IsInt64(r.value.left) && IsInt64(r.value.right)
    ensures r.Ok? && exp.compareOp == "<" ==> r.value.left == 0
    ensures r.Ok? && exp.compareOp == ">" ==> r.value.right == LONG_MAX
  {
    if exp.compareOp == "<" then
      var k :- KeyOf(t, exp.value);
      Ok(Range(0, if k > 0 then k - 1 else k))
    else if exp.compareOp == "=" then
      var k :- KeyOf(t, exp.value);
      Ok(Range(k, k))
    else if exp.compareOp == ">" then
      var k :- KeyOf(t, exp.value);
      Ok(Range(Wrap64(k + 1), LONG_MAX))
    else Ok(Range(0, 0))
  }

  /** A range no key lies in. */
  const EMPTY: Range := Range(0, -1)

  /**
   * `calExp` with the ranges the comparisons mean over the whole `long`
   * key space: `<` from `Long.MIN_VALUE`, and an empty range where no key
   * can satisfy the comparison.
   */
  function CalExp(t: string, exp: SingleExpression): (r: Result<Range>)
    requires JavaString(exp.value)
    ensures r.Err? <==> IsCmpOp(exp.compareOp) && KeyOf(t, exp.value).Err?
  {
    if exp.compareOp == "<" then
      var k :- KeyOf(t, exp.value);
      Ok(if k > LONG_MIN then Range(LONG_MIN, k - 1) else EMPTY)
    else if exp.compareOp == "=" then
      var k :- KeyOf(t, exp.value);
      Ok(Range(k, k))
    else if exp.compareOp == ">" then
      var k :- KeyOf(t, exp.value);
      Ok(if k < LONG_MAX then Range(k + 1, LONG_MAX) else EMPTY)
    else Ok(Range(0, 0))
  }

  /** `calExp` as written fails exactly where the corrected one does, and agrees with it on `=`. */
  lemma {:induction false} RangesAgree(t: string, exp: SingleExpression)
    requires JavaString(exp.value)
    ensures CalExpAsWritten(t, exp).Err? <==> CalExp(t, exp).Err?
    ensures CalExpAsWritten(t, exp).Err? ==> CalExpAsWritten(t, exp).error == CalExp(t, exp).error
    ensures exp.compareOp == "=" ==> CalExpAsWritten(t, exp) == CalExp(t, exp)
  {
  }

  /** A key lies in the range `calExp` gives exactly when it satisfies the comparison. */
  lemma {:induction false} CalExpMeaning(t: string, exp: SingleExpression, x: int)
    requires JavaString(exp.value) && IsCmpOp(exp.compareOp) && KeyOf(t, exp.value).Ok?
    requires IsInt64(x)
    ensures CalExp(t, exp).Ok?
    ensures InRange(x, CalExp(t, exp).value) <==> Holds(exp.compareOp, x, KeyOf(t, exp.value).value)
  {
  }

  /**
   * The keys `calExp` as written scans: for `< k` those from 0 below `k`
   * (the key 0 alone when `k` is 0, none when `k` is negative), for `= k`
   * the key `k`, for `> k` those above `k`, and every key when `k` is
   * `Long.MAX_VALUE`.
   */
  lemma {:induction false} CalExpAsWrittenMeaning(t: string, exp: SingleExpression, x: int)
    requires JavaString(exp.value) && IsCmpOp(exp.compareOp) && KeyOf(t, exp.value).Ok?
    requires IsInt64(x)
    ensures CalExpAsWritten(t, exp).Ok?
    ensures var k := KeyOf(t, exp.value).value;
      InRange(x, CalExpAsWritten(t, exp).value) <==>
        if exp.compareOp == "<" then 0 <= x < k || (x == 0 && k == 0)
        else if exp.compareOp == "=" then x == k
        else k < x || k == LONG_MAX
  {
  }

  /** An integer cell's key is the integer itself. */
  lemma {:induction false} IntegerKey(t: string, n: int)
    requires (t == "int32" && IsInt32(n)) || (t == "int64" && IsInt64(n))
    ensures JavaString(ShowInt(n))
    ensures KeyOf(t, ShowInt(n)) == Ok(n)
  {
    ShowIntAscii(n);
    if t == "int32" {
      IntTextRoundTrip(n);
    } else {
      LongTextRoundTrip(n);
    }
  }

  /**
   * As written, `< n` on an integer column never scans a negative key, and
   * `< 0` scans the key 0, which is not below 0.
   */
  lemma {:induction false} LessThanAsWritten(t: string, n: int, x: int)
    requires (t == "int32" && IsInt32(n)) || (t == "int64" && IsInt64(n))
    requires JavaString(ShowInt(n))
    ensures var rg := CalExpAsWritten(t, SingleExpression("a", "<", ShowInt(n)));
      && rg.Ok?
      && (x < 0 ==> !InRange(x, rg.value))
      && (n == 0 ==> InRange(0, rg.value))
  {
    IntegerKey(t, n);
  }

  /** As written, `> Long.MAX_VALUE` wraps to the whole key space, though no key is above it. */
  lemma {:induction false} GreaterThanMaxAsWritten(x: int)
    requires IsInt64(x)
    ensures JavaString(ShowInt(LONG_MAX))
    ensures var rg := CalExpAsWritten("int64", SingleExpression("a", ">", ShowInt(LONG_MAX)));
      rg.Ok? && InRange(x, rg.value) && !Holds(">", x, LONG_MAX)
  {
    IntegerKey("int64", LONG_MAX);
    assert Wrap64(LONG_MAX + 1) == LONG_MIN by {
      WrapModId(LONG_MIN, TWO_64);
      WrapModCongruent(LONG_MAX + 1, LONG_MIN, TWO_64);
    }
  }
}
