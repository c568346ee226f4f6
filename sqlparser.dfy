/**
 * The statement grammar: a recursive-descent parser over the tokenizer's
 * output.
 *
 * The tokenizer is represented by the token sequence it produces; peeking
 * past the last token yields the empty token, which is how every rule
 * recognises the end of input. Each sub-parser returns what it built and
 * the position of the token it stopped at (the one it peeked last without
 * popping).
 */
module SqlParser {
  import opened Wrappers
  import Codec

  type Tokens = seq<string>

  datatype SingleExpression = SingleExpression(field: string, compareOp: string, value: string)

  /** A where clause; `logicOp` is "" when there is a single comparison. */
  datatype Where = Where(singleExp1: SingleExpression, logicOp: string, singleExp2: Option<SingleExpression>)

  datatype Statement =
    | Begin(isRepeatableRead: bool)
    | Commit
    | Abort
    | Show
    | Create(tableName: string, fieldNames: seq<string>, fieldTypes: seq<string>, index: seq<string>)
    | Drop(tableName: string)
    | Select(tableName: string, fields: seq<string>, where: Option<Where>)
    | Insert(tableName: string, values: seq<string>)
    | Delete(tableName: string, cond: Where)
    | Update(tableName: string, fieldName: string, value: string, where: Option<Where>)

  /** What a rule built, and the position of the token it stopped at. */
  datatype Parsed<T> = Parsed(value: T, pos: nat)

  /** `peek` at position `i`: the token there, or "" past the end. */
  function Peek(toks: Tokens, i: nat): string
  {
    if i < |toks| then toks[i] else ""
  }

  /** The tokenizer's `isAlphaBeta`, taken as the ASCII letters. */
  predicate IsAlphaBeta(c: char)
  {
    'a' <= c <= 'z' || 'A' <= c <= 'Z'
  }

  /**
   * `isName`: anything but one UTF-16 unit that is not a letter. The
   * letter test looks at the first UTF-8 byte, which for a character
   * outside ASCII is never a letter's byte, so testing the character is
   * the same. A single character above U+FFFF is two units, so it is a name.
   */
  predicate IsName(s: string)
  {
    !(Codec.JavaLength(s) == 1 && !IsAlphaBeta(s[0]))
  }

  /** A one-character token of one UTF-16 unit is a name exactly when it is a letter. */
  lemma {:induction false} SingleUnitName(c: char)
    requires c as int < 0x1_0000
    ensures IsName([c]) <==> IsAlphaBeta(c)
  {
    assert [c][1..] == [];
    assert Codec.JavaLength([c]) == 1 + Codec.JavaLength([]);
  }

  predicate IsType(s: string)
  {
    s == "int32" || s == "int64" || s == "string"
  }

  predicate IsCmpOp(s: string)
  {
    s == "=" || s == ">" || s == "<"
  }

  predicate IsLogicOp(s: string)
  {
    s == "and" || s == "or"
  }

  /** A comparison the grammar accepts. */
  predicate WfExp(e: SingleExpression)
  {
    IsName(e.field) && IsCmpOp(e.compareOp)
  }

  /** A where clause the grammar accepts: one comparison, or two joined by `and`/`or`. */
  predicate WfWhere(w: Where)
  {
    WfExp(w.singleExp1)
    && match w.singleExp2
       case None => w.logicOp == ""
       case Some(e2) => IsLogicOp(w.logicOp) && WfExp(e2)
  }

  /** Field names with their types, as `create table` lists them. */
  predicate FieldsOk(ns: seq<string>, ts: seq<string>)
  {
    |ns| == |ts| && forall k :: 0 <= k < |ns| ==> IsName(ns[k]) && IsType(ts[k])
  }

  /** The statements the grammar can produce. */
  predicate WellFormed(s: Statement)
  {
    match s
    case Create(t, ns, ts, ix) =>
      IsName(t) && FieldsOk(ns, ts)
      && (forall k :: 0 <= k < |ix| ==> IsName(ix[k]) && ix[k] != "")
    case Drop(t) => IsName(t)
    case Select(t, fs, w) =>
      (fs == ["*"] || (|fs| > 0 && forall k :: 0 <= k < |fs| ==> IsName(fs[k])))
      && IsName(t) && (w.Some? ==> WfWhere(w.value))
    case Insert(t, vs) => IsName(t) && forall k :: 0 <= k < |vs| ==> vs[k] != ""
    case Delete(t, w) => IsName(t) && WfWhere(w)
    case Update(_, _, _, w) => w.Some? ==> WfWhere(w.value)
    case _ => true
  }

  // ---------------------------------------------------------------
  // The rules without loops

  /** `parseSingleExp`: a name, a comparison operator, and any value token. */
  function ParseSingleExp(toks: Tokens, i: nat): (r: Result<Parsed<SingleExpression>>)
    ensures r.Ok? ==> IsName(r.value.value.field) && IsCmpOp(r.value.value.compareOp) && r.value.pos == i + 3
  {
    var field := Peek(toks, i);
    if !IsName(field) then Err(InvalidCommand)
    else
      var op := Peek(toks, i + 1);
      if !IsCmpOp(op) then Err(InvalidCommand)
      else Ok(Parsed(SingleExpression(field, op, Peek(toks, i + 2)), i + 3))
  }

  /**
   * `parseWhere`: `where`, a comparison, then either the end of input or
   * `and`/`or`, a second comparison and the end of input.
   */
  function ParseWhere(toks: Tokens, i: nat): (r: Result<Parsed<Where>>)
    ensures r.Ok? ==> Peek(toks, r.value.pos) == ""
    ensures r.Ok? ==> WfWhere(r.value.value)
  {
    if Peek(toks, i) != "where" then Err(InvalidCommand)
    else
      var e1 :- ParseSingleExp(toks, i + 1);
      var logicOp := Peek(toks, e1.pos);
      if logicOp == "" then Ok(Parsed(Where(e1.value, logicOp, None), e1.pos))
      else if !IsLogicOp(logicOp) then Err(InvalidCommand)
      else
        var e2 :- ParseSingleExp(toks, e1.pos + 1);
        if Peek(toks, e2.pos) != "" then Err(InvalidCommand)
        else Ok(Parsed(Where(e1.value, logicOp, Some(e2.value)), e2.pos))
  }

  /** `parseShow`, `parseCommit`, `parseAbort`: nothing may follow the keyword. */
  function ParseAlone(toks: Tokens, i: nat, s: Statement): Result<Parsed<Statement>>
  {
    if Peek(toks, i) != "" then Err(InvalidCommand) else Ok(Parsed(s, i))
  }

  /** `parseBegin`. */
  function ParseBegin(toks: Tokens, i: nat): Result<Parsed<Statement>>
  {
    if Peek(toks, i) == "" then Ok(Parsed(Begin(false), i))
    else if Peek(toks, i) != "isolation" || Peek(toks, i + 1) != "level" then Err(InvalidCommand)
    else if Peek(toks, i + 2) == "read" then
      if Peek(toks, i + 3) != "committed" || Peek(toks, i + 4) != "" then Err(InvalidCommand)
      else Ok(Parsed(Begin(false), i + 4))
    else if Peek(toks, i + 2) == "repeatable" then
      if Peek(toks, i + 3) != "read" || Peek(toks, i + 4) != "" then Err(InvalidCommand)
      else Ok(Parsed(Begin(true), i + 4))
    else Err(InvalidCommand)
  }

  /** `parseUpdate`: the table name is taken without checking it. */
  function ParseUpdate(toks: Tokens, i: nat): (r: Result<Parsed<Statement>>)
    ensures r.Ok? ==> WellFormed(r.value.value)
  {
    var tableName := Peek(toks, i);
    if Peek(toks, i + 1) != "set" then Err(InvalidCommand)
    else
      var fieldName := Peek(toks, i + 2);
      if Peek(toks, i + 3) != "=" then Err(InvalidCommand)
      else
        var value := Peek(toks, i + 4);
        if Peek(toks, i + 5) == "" then Ok(Parsed(Update(tableName, fieldName, value, None), i + 5))
        else
          var w :- ParseWhere(toks, i + 5);
          Ok(Parsed(Update(tableName, fieldName, value, Some(w.value)), w.pos))
  }

  /** `parseDelete`: `from`, a name, and a where clause that must be there. */
  function ParseDelete(toks: Tokens, i: nat): (r: Result<Parsed<Statement>>)
    ensures r.Ok? ==> WellFormed(r.value.value)
  {
    if Peek(toks, i) != "from" then Err(InvalidCommand)
    else
      var tableName := Peek(toks, i + 1);
      if !IsName(tableName) then Err(InvalidCommand)
      else
        var w :- ParseWhere(toks, i + 2);
        Ok(Parsed(Delete(tableName, w.value), w.pos))
  }

  /** `parseDrop`: `table`, a name, and the end of input. */
  function ParseDrop(toks: Tokens, i: nat): (r: Result<Parsed<Statement>>)
    ensures r.Ok? ==> WellFormed(r.value.value)
  {
    if Peek(toks, i) != "table" then Err(InvalidCommand)
    else
      var tableName := Peek(toks, i + 1);
      if !IsName(tableName) then Err(InvalidCommand)
      else if Peek(toks, i + 2) != "" then Err(InvalidCommand)
      else Ok(Parsed(Drop(tableName), i + 2))
  }

  // ---------------------------------------------------------------
  // The loops, as recursive definitions

  /** The field list of `select` from `i`: names separated by commas. */
  function SelectNames(toks: Tokens, i: nat): (r: Result<Parsed<seq<string>>>)
    ensures r.Ok? ==> |r.value.value| > 0 && forall k :: 0 <= k < |r.value.value| ==> IsName(r.value.value[k])
    decreases |toks| - i
  {
    var field := Peek(toks, i);
    if !IsName(field) then Err(InvalidCommand)
    else if Peek(toks, i + 1) == "," then
      var rest :- SelectNames(toks, i + 2);
      Ok(Parsed([field] + rest.value, rest.pos))
    else Ok(Parsed([field], i + 1))
  }

  /** The values of `insert`: every token after position `j` up to the end. */
  function ValuesAfter(toks: Tokens, j: nat): (r: Parsed<seq<string>>)
    ensures r.pos > j && Peek(toks, r.pos) == ""
    decreases |toks| - j
  {
    if Peek(toks, j + 1) == "" then Parsed([], j + 1)
    else
      var rest := ValuesAfter(toks, j + 1);
      Parsed([Peek(toks, j + 1)] + rest.value, rest.pos)
  }

  /** Every value is a token the tokenizer produced: none is empty. */
  lemma {:induction false} ValuesNonEmpty(toks: Tokens, j: nat)
    ensures forall k :: 0 <= k < |ValuesAfter(toks, j).value| ==> ValuesAfter(toks, j).value[k] != ""
    decreases |toks| - j
  {
    if Peek(toks, j + 1) != "" {
      ValuesNonEmpty(toks, j + 1);
      var rest := ValuesAfter(toks, j + 1).value;
      forall k | 0 <= k < |ValuesAfter(toks, j).value|
        ensures ValuesAfter(toks, j).value[k] != ""
      {
        if k > 0 {
          assert ValuesAfter(toks, j).value[k] == rest[k - 1];
        }
      }
    }
  }

  /**
   * The field list of `create table` after position `j`: name/type pairs
   * separated by commas and closed by "(". The end of input right after a
   * type means the index list is missing.
   */
  function CreateFields(toks: Tokens, j: nat): (r: Result<Parsed<(seq<string>, seq<string>)>>)
    ensures r.Ok? ==> |r.value.value.0| == |r.value.value.1| && Peek(toks, r.value.pos) == "("
    decreases |toks| - j
  {
    var field := Peek(toks, j + 1);
    if field == "(" then Ok(Parsed(([], []), j + 1))
    else if !IsName(field) then Err(InvalidCommand)
    else
      var fieldType := Peek(toks, j + 2);
      if !IsType(fieldType) then Err(InvalidCommand)
      else
        var next := Peek(toks, j + 3);
        if next == "," then
          var rest :- CreateFields(toks, j + 3);
          Ok(Parsed(([field] + rest.value.0, [fieldType] + rest.value.1), rest.pos))
        else if next == "" then Err(TableNoIndex)
        else if next == "(" then Ok(Parsed(([field], [fieldType]), j + 3))
        else Err(InvalidCommand)
  }

  lemma {:induction false} CreateFieldsOk(toks: Tokens, j: nat)
    ensures CreateFields(toks, j).Ok? ==> FieldsOk(CreateFields(toks, j).value.value.0, CreateFields(toks, j).value.value.1)
    decreases |toks| - j
  {
    var r := CreateFields(toks, j);
    if r.Ok? && Peek(toks, j + 1) != "(" && Peek(toks, j + 3) == "," {
      CreateFieldsOk(toks, j + 3);
      var rest := CreateFields(toks, j + 3).value.value;
      var ns := r.value.value.0;
      var ts := r.value.value.1;
      forall k | 0 <= k < |ns|
        ensures IsName(ns[k]) && IsType(ts[k])
      {
        if k > 0 {
          assert ns[k] == rest.0[k - 1] && ts[k] == rest.1[k - 1];
        }
      }
    }
  }

  /**
   * The index list of `create table` after position `j`, closed by ")".
   * Any token that is not a name is rejected; so is the end of input
   * (see `IndexLoopAsWritten` for what the source does there).
   */
  function IndexNames(toks: Tokens, j: nat): (r: Result<Parsed<seq<string>>>)
    ensures r.Ok? ==> Peek(toks, r.value.pos) == ")"
    ensures r.Ok? ==> forall k :: 0 <= k < |r.value.value| ==> IsName(r.value.value[k]) && r.value.value[k] != ""
    decreases |toks| - j
  {
    var field := Peek(toks, j + 1);
    if field == ")" then Ok(Parsed([], j + 1))
    else if field == "" then Err(InvalidCommand)
    else if !IsName(field) then Err(InvalidLogOp)
    else
      var rest :- IndexNames(toks, j + 1);
      Ok(Parsed([field] + rest.value, rest.pos))
  }

  // ---------------------------------------------------------------
  // The rules with loops, after their loops

  /** `parseSelect` once its field list has been read. */
  function SelectRest(toks: Tokens, fs: Parsed<seq<string>>): (r: Result<Parsed<Statement>>)
    ensures r.Ok? ==> Peek(toks, r.value.pos) == ""
  {
    if Peek(toks, fs.pos) != "from" then Err(InvalidCommand)
    else
      var tableName := Peek(toks, fs.pos + 1);
      if !IsName(tableName) then Err(InvalidCommand)
      else if Peek(toks, fs.pos + 2) == "" then Ok(Parsed(Select(tableName, fs.value, None), fs.pos + 2))
      else
        var w :- ParseWhere(toks, fs.pos + 2);
        Ok(Parsed(Select(tableName, fs.value, Some(w.value)), w.pos))
  }

  /** `parseSelect`: `*` alone, or a list of names. */
  function ParseSelect(toks: Tokens, i: nat): (r: Result<Parsed<Statement>>)
    ensures r.Ok? ==> WellFormed(r.value.value)
  {
    var fs :- if Peek(toks, i) == "*" then Ok(Parsed(["*"], i + 1)) else SelectNames(toks, i);
    SelectRest(toks, fs)
  }

  /** `parseInsert` up to the values: `into`, a name, `values`. */
  function InsertHead(toks: Tokens, i: nat): Result<string>
  {
    if Peek(toks, i) != "into" then Err(InvalidCommand)
    else if !IsName(Peek(toks, i + 1)) then Err(InvalidCommand)
    else if Peek(toks, i + 2) != "values" then Err(InvalidCommand)
    else Ok(Peek(toks, i + 1))
  }

  function ParseInsert(toks: Tokens, i: nat): (r: Result<Parsed<Statement>>)
    ensures r.Ok? ==> WellFormed(r.value.value)
  {
    var tableName :- InsertHead(toks, i);
    var vs := ValuesAfter(toks, i + 2);
    ValuesNonEmpty(toks, i + 2);
    Ok(Parsed(Insert(tableName, vs.value), vs.pos))
  }

  /** `parseCreate` up to the field list: `table` and a name. */
  function CreateHead(toks: Tokens, i: nat): Result<string>
  {
    if Peek(toks, i) != "table" then Err(InvalidCommand)
    else if !IsName(Peek(toks, i + 1)) then Err(InvalidCommand)
    else Ok(Peek(toks, i + 1))
  }


  /** `parseCreate` after both lists: ")" must end the input. */
  function CreateRest(toks: Tokens, tableName: string, fs: Parsed<(seq<string>, seq<string>)>, ix: Parsed<seq<string>>): Result<Parsed<Statement>>
  {
    if Peek(toks, ix.pos + 1) != "" then Err(InvalidCommand)
    else Ok(Parsed(Create(tableName, fs.value.0, fs.value.1, ix.value), ix.pos + 1))
  }

  /** `parseCreate` after the field list: `index`, the index list, and the end of input. */
  function CreateTail(toks: Tokens, tableName: string, fs: Parsed<(seq<string>, seq<string>)>): (r: Result<Parsed<Statement>>)
  {
    if Peek(toks, fs.pos + 1) != "index" then Err(InvalidCommand)
    else
      var ix :- IndexNames(toks, fs.pos + 1);
      CreateRest(toks, tableName, fs, ix)
  }

  function ParseCreate(toks: Tokens, i: nat): (r: Result<Parsed<Statement>>)
    ensures r.Ok? ==> WellFormed(r.value.value)
  {
    var tableName :- CreateHead(toks, i);
    var fs :- CreateFields(toks, i + 1);
    CreateFieldsOk(toks, i + 1);
    CreateTail(toks, tableName, fs)
  }

  /** The first token chooses the rule; any other first token is an invalid command. */
  function Dispatch(toks: Tokens): (r: Result<Parsed<Statement>>)
    ensures r.Ok? ==> Peek(toks, r.value.pos) == "" && WellFormed(r.value.value)
  {
    var token := Peek(toks, 0);
    if token == "begin" then ParseBegin(toks, 1)
    else if token == "commit" then ParseAlone(toks, 1, Commit)
    else if token == "abort" then ParseAlone(toks, 1, Abort)
    else if token == "create" then ParseCreate(toks, 1)
    else if token == "drop" then ParseDrop(toks, 1)
    else if token == "select" then ParseSelect(toks, 1)
    else if token == "insert" then ParseInsert(toks, 1)
    else if token == "delete" then ParseDelete(toks, 1)
    else if token == "update" then ParseUpdate(toks, 1)
    else if token == "show" then ParseAlone(toks, 1, Show)
    else Err(InvalidCommand)
  }

  /**
   * `Parse`: the statement the chosen rule built, or None when it failed.
   * The error is recorded and dropped, never thrown.
   */
  function ParseStat(toks: Tokens): Option<Statement>
  {
    match Dispatch(toks)
    case Ok(p) => Some(p.value)
    case Err(_) => None
  }

  // ---------------------------------------------------------------
  // The loops as the source runs them

  /** `fs` in front of what a rule built. */
  function Prefixed<T>(fs: seq<T>, r: Result<Parsed<seq<T>>>): Result<Parsed<seq<T>>>
  {
    match r
    case Ok(p) => Ok(Parsed(fs + p.value, p.pos))
    case Err(e) => Err(e)
  }

  lemma {:induction false} PrefixedNone<T>(r: Result<Parsed<seq<T>>>)
    ensures Prefixed([], r) == r
  {
    if r.Ok? {
      assert [] + r.value.value == r.value.value;
    }
  }

  lemma {:induction false} PrefixedAppend<T>(fs: seq<T>, x: T, r: Result<Parsed<seq<T>>>)
    ensures Prefixed(fs, Prefixed([x], r)) == Prefixed(fs + [x], r)
  {
    if r.Ok? {
      assert fs + ([x] + r.value.value) == fs + [x] + r.value.value;
    }
  }

  /** The `select` field loop, proved against `SelectNames`. */
  method ParseSelectFields(toks: Tokens, i: nat) returns (r: Result<Parsed<seq<string>>>)
    ensures r == SelectNames(toks, i)
  {
    var fields: seq<string> := [];
    var pos := i;
    PrefixedNone(SelectNames(toks, i));
    while true
      invariant SelectNames(toks, i) == Prefixed(fields, SelectNames(toks, pos))
      decreases |toks| - pos
    {
      var field := Peek(toks, pos);
      if !IsName(field) {
        return Err(InvalidCommand);
      }
      PrefixedAppend(fields, field, SelectNames(toks, pos + 2));
      fields := fields + [field];
      pos := pos + 1;
      if Peek(toks, pos) == "," {
        pos := pos + 1;
      } else {
        break;
      }
    }
    r := Ok(Parsed(fields, pos));
  }

  /** The `insert` value loop, proved against `ValuesAfter`. */
  method ParseInsertValues(toks: Tokens, j: nat) returns (r: Parsed<seq<string>>)
    ensures r == ValuesAfter(toks, j)
  {
    var values: seq<string> := [];
    var pos := j;
    assert [] + ValuesAfter(toks, j).value == ValuesAfter(toks, j).value;
    while true
      invariant ValuesAfter(toks, j) == Parsed(values + ValuesAfter(toks, pos).value, ValuesAfter(toks, pos).pos)
      decreases |toks| - pos
    {
      ValuesRound(toks, pos, values);
      pos := pos + 1;
      var value := Peek(toks, pos);
      if value == "" {
        break;
      }
      values := values + [value];
    }
    r := Parsed(values, pos);
  }

  /** One round of the value loop, seen from the values read so far. */
  lemma {:induction false} ValuesRound(toks: Tokens, at: nat, values: seq<string>)
    ensures var r := ValuesAfter(toks, at);
      if Peek(toks, at + 1) == "" then values + r.value == values && r.pos == at + 1
      else (values + r.value == (values + [Peek(toks, at + 1)]) + ValuesAfter(toks, at + 1).value
            && r.pos == ValuesAfter(toks, at + 1).pos)
  {
    var rest := ValuesAfter(toks, at + 1);
    assert values + [] == values;
    assert values + ([Peek(toks, at + 1)] + rest.value) == values + [Peek(toks, at + 1)] + rest.value;
  }

  /** `names` and `types` in front of what the field rule built. */
  function PrefixedFields(names: seq<string>, types: seq<string>, r: Result<Parsed<(seq<string>, seq<string>)>>): Result<Parsed<(seq<string>, seq<string>)>>
  {
    match r
    case Ok(p) => Ok(Parsed((names + p.value.0, types + p.value.1), p.pos))
    case Err(e) => Err(e)
  }

  /** The `create table` field loop, proved against `CreateFields`. */
  method ParseCreateFields(toks: Tokens, j: nat) returns (r: Result<Parsed<(seq<string>, seq<string>)>>)
    ensures r == CreateFields(toks, j)
  {
    var names: seq<string> := [];
    var types: seq<string> := [];
    var pos := j;
    FieldsNone(CreateFields(toks, j));
    while true
      invariant CreateFields(toks, j) == PrefixedFields(names, types, CreateFields(toks, pos))
      decreases |toks| - pos
    {
      FieldsRound(toks, pos, names, types);
      var field := Peek(toks, pos + 1);
      if field == "(" {
        pos := pos + 1;
        break;
      }
      if !IsName(field) {
        return Err(InvalidCommand);
      }
      var fieldType := Peek(toks, pos + 2);
      if !IsType(fieldType) {
        return Err(InvalidCommand);
      }
      names := names + [field];
      types := types + [fieldType];
      var next := Peek(toks, pos + 3);
      pos := pos + 3;
      if next == "," {
        continue;
      } else if next == "" {
        return Err(TableNoIndex);
      } else if next == "(" {
        break;
      } else {
        return Err(InvalidCommand);
      }
    }
    r := Ok(Parsed((names, types), pos));
  }

  lemma {:induction false} FieldsNone(r: Result<Parsed<(seq<string>, seq<string>)>>)
    ensures PrefixedFields([], [], r) == r
  {
    if r.Ok? {
      assert [] + r.value.value.0 == r.value.value.0;
      assert [] + r.value.value.1 == r.value.value.1;
    }
  }

  /** One round of the field loop, seen from the fields read so far. */
  lemma {:induction false} FieldsRound(toks: Tokens, at: nat, names: seq<string>, types: seq<string>)
    ensures var field := Peek(toks, at + 1);
      var ty := Peek(toks, at + 2);
      var next := Peek(toks, at + 3);
      PrefixedFields(names, types, CreateFields(toks, at)) ==
        if field == "(" then Ok(Parsed((names, types), at + 1))
        else if !IsName(field) || !IsType(ty) then Err(InvalidCommand)
        else if next == "," then PrefixedFields(names + [field], types + [ty], CreateFields(toks, at + 3))
        else if next == "" then Err(TableNoIndex)
        else if next == "(" then Ok(Parsed((names + [field], types + [ty]), at + 3))
        else Err(InvalidCommand)
  {
    var field := Peek(toks, at + 1);
    var ty := Peek(toks, at + 2);
    assert names + [] == names && types + [] == types;
    var r := CreateFields(toks, at + 3);
    if r.Ok? {
      assert names + ([field] + r.value.value.0) == names + [field] + r.value.value.0;
      assert types + ([ty] + r.value.value.1) == types + [ty] + r.value.value.1;
    }
  }

  /** The `create table` index loop, proved against `IndexNames`. */
  method ParseIndexList(toks: Tokens, j: nat) returns (r: Result<Parsed<seq<string>>>)
    ensures r == IndexNames(toks, j)
  {
    var index: seq<string> := [];
    var pos := j;
    PrefixedNone(IndexNames(toks, j));
    while true
      invariant IndexNames(toks, j) == Prefixed(index, IndexNames(toks, pos))
      decreases |toks| - pos
    {
      PrefixedAppend(index, Peek(toks, pos + 1), IndexNames(toks, pos + 1));
      pos := pos + 1;
      var field := Peek(toks, pos);
      if field == ")" {
        assert index + [] == index;
        break;
      }
      if field == "" {
        return Err(InvalidCommand);
      }
      if !IsName(field) {
        return Err(InvalidLogOp);
      }
      index := index + [field];
    }
    r := Ok(Parsed(index, pos));
  }

  /** `parseSelect`, proved against `ParseSelect`. */
  method ParseSelectStatement(toks: Tokens, i: nat) returns (r: Result<Parsed<Statement>>)
    ensures r == ParseSelect(toks, i)
  {
    var fs: Result<Parsed<seq<string>>>;
    if Peek(toks, i) == "*" {
      fs := Ok(Parsed(["*"], i + 1));
    } else {
      fs := ParseSelectFields(toks, i);
    }
    if fs.Err? {
      return Err(fs.error);
    }
    r := SelectRest(toks, fs.value);
  }

  /** `parseInsert`, proved against `ParseInsert`. */
  method ParseInsertStatement(toks: Tokens, i: nat) returns (r: Result<Parsed<Statement>>)
    ensures r == ParseInsert(toks, i)
  {
    var tableName := InsertHead(toks, i);
    if tableName.Err? {
      return Err(tableName.error);
    }
    var vs := ParseInsertValues(toks, i + 2);
    r := Ok(Parsed(Insert(tableName.value, vs.value), vs.pos));
  }

  /** `parseCreate`, proved against `ParseCreate`. */
  method ParseCreateStatement(toks: Tokens, i: nat) returns (r: Result<Parsed<Statement>>)
    ensures r == ParseCreate(toks, i)
  {
    var tableName := CreateHead(toks, i);
    if tableName.Err? {
      return Err(tableName.error);
    }
    var fs := ParseCreateFields(toks, i + 1);
    if fs.Err? {
      return Err(fs.error);
    }
    r := ParseCreateTail(toks, tableName.value, fs.value);
  }

  /** `parseCreate` from `index` on, proved against `CreateTail`. */
  method ParseCreateTail(toks: Tokens, tableName: string, fs: Parsed<(seq<string>, seq<string>)>) returns (r: Result<Parsed<Statement>>)
    ensures r == CreateTail(toks, tableName, fs)
  {
    if Peek(toks, fs.pos + 1) != "index" {
      return Err(InvalidCommand);
    }
    var ix := ParseIndexList(toks, fs.pos + 1);
    if ix.Err? {
      return Err(ix.error);
    }
    r := CreateRest(toks, tableName, fs, ix.value);
  }

  /**
   * `Parse`: the first token chooses the rule; the statement comes back,
   * or None when the rule failed.
   */
  method Parse(toks: Tokens) returns (stat: Option<Statement>)
    ensures stat == ParseStat(toks)
  {
    var token := Peek(toks, 0);
    var r: Result<Parsed<Statement>>;
    if token == "begin" {
      r := ParseBegin(toks, 1);
    } else if token == "commit" {
      r := ParseAlone(toks, 1, Commit);
    } else if token == "abort" {
      r := ParseAlone(toks, 1, Abort);
    } else if token == "create" {
      r := ParseCreateStatement(toks, 1);
    } else if token == "drop" {
      r := ParseDrop(toks, 1);
    } else if token == "select" {
      r := ParseSelectStatement(toks, 1);
    } else if token == "insert" {
      r := ParseInsertStatement(toks, 1);
    } else if token == "delete" {
      r := ParseDelete(toks, 1);
    } else if token == "update" {
      r := ParseUpdate(toks, 1);
    } else if token == "show" {
      r := ParseAlone(toks, 1, Show);
    } else {
      r := Err(InvalidCommand);
    }
    stat := if r.Ok? then Some(r.value.value) else None;
  }

  // ---------------------------------------------------------------
  // Statements written back as tokens, and the round trip

  /** Names separated by commas. */
  function NameList(fs: seq<string>): (r: Tokens)
    ensures |fs| > 0 ==> |r| == 2 * |fs| - 1
  {
    if |fs| <= 1 then fs else [fs[0], ","] + NameList(fs[1..])
  }

  /** Name/type pairs separated by commas. */
  function FieldList(ns: seq<string>, ts: seq<string>): Tokens
  {
    if |ns| == 0 || |ts| == 0 then []
    else if |ns| == 1 || |ts| == 1 then [ns[0], ts[0]]
    else [ns[0], ts[0], ","] + FieldList(ns[1..], ts[1..])
  }

  function ExpTokens(e: SingleExpression): Tokens
  {
    [e.field, e.compareOp, e.value]
  }

  function WhereTokens(w: Where): Tokens
  {
    ["where"] + ExpTokens(w.singleExp1)
    + match w.singleExp2
      case None => []
      case Some(e2) => [w.logicOp] + ExpTokens(e2)
  }

  function OptWhereTokens(w: Option<Where>): Tokens
  {
    match w
    case None => []
    case Some(w) => WhereTokens(w)
  }

  /** The canonical token sequence of a statement. */
  function Render(s: Statement): Tokens
  {
    match s
    case Begin(rr) => if rr then ["begin", "isolation", "level", "repeatable", "read"] else ["begin"]
    case Commit => ["commit"]
    case Abort => ["abort"]
    case Show => ["show"]
    case Create(t, ns, ts, ix) => ["create", "table", t] + FieldList(ns, ts) + ["(", "index"] + ix + [")"]
    case Drop(t) => ["drop", "table", t]
    case Select(t, fs, w) => ["select"] + NameList(fs) + ["from", t] + OptWhereTokens(w)
    case Insert(t, vs) => ["insert", "into", t, "values"] + vs
    case Delete(t, w) => ["delete", "from", t] + WhereTokens(w)
    case Update(t, f, v, w) => ["update", t, "set", f, "=", v] + OptWhereTokens(w)
  }

  /** The token at offset `k` of a part `x` set between `pre` and `post`. */
  lemma {:induction false} PeekIn(pre: Tokens, x: Tokens, post: Tokens, k: nat)
    requires k < |x|
    ensures Peek(pre + x + post, |pre| + k) == x[k]
  {
  }

  /** The token just after a part `x` set between `pre` and `post`. */
  lemma {:induction false} PeekAfter(pre: Tokens, x: Tokens, post: Tokens)
    ensures Peek(pre + x + post, |pre| + |x|) == Peek(post, 0)
  {
  }

  lemma {:induction false} Regroup(pre: Tokens, head: Tokens, x: Tokens, post: Tokens)
    ensures pre + (head + x) + post == (pre + head) + x + post
  {
  }

  lemma {:induction false} RegroupTail(pre: Tokens, x: Tokens, mid: Tokens, post: Tokens)
    ensures pre + x + (mid + post) == (pre + x) + mid + post
  {
  }

  lemma {:induction false} NameListParses(pre: Tokens, fs: seq<string>, post: Tokens)
    requires |fs| > 0 && forall k :: 0 <= k < |fs| ==> IsName(fs[k])
    requires Peek(post, 0) != ","
    ensures SelectNames(pre + NameList(fs) + post, |pre|) == Ok(Parsed(fs, |pre| + |NameList(fs)|))
    decreases |fs|
  {
    var x := NameList(fs);
    assert IsName(fs[0]);
    PeekIn(pre, x, post, 0);
    if |fs| == 1 {
      PeekAfter(pre, x, post);
      assert fs == [fs[0]];
    } else {
      PeekIn(pre, x, post, 1);
      Regroup(pre, [fs[0], ","], NameList(fs[1..]), post);
      NameListParses(pre + [fs[0], ","], fs[1..], post);
      assert [fs[0]] + fs[1..] == fs;
    }
  }

  lemma {:induction false} ValuesParse(pre: Tokens, vs: seq<string>)
    requires |pre| > 0 && forall k :: 0 <= k < |vs| ==> vs[k] != ""
    ensures ValuesAfter(pre + vs, |pre| - 1) == Parsed(vs, |pre| + |vs|)
    decreases |vs|
  {
    if |vs| == 0 {
      assert pre + vs == pre;
    } else {
      PeekIn(pre, vs, [], 0);
      assert pre + vs + [] == pre + vs;
      Regroup(pre, [vs[0]], vs[1..], []);
      assert [vs[0]] + vs[1..] == vs;
      assert pre + [vs[0]] + vs[1..] + [] == pre + [vs[0]] + vs[1..];
      ValuesParse(pre + [vs[0]], vs[1..]);
    }
  }

  lemma {:induction false} FieldsParse(pre: Tokens, ns: seq<string>, ts: seq<string>, post: Tokens)
    requires |pre| > 0 && FieldsOk(ns, ts)
    requires Peek(post, 0) == "("
    ensures CreateFields(pre + FieldList(ns, ts) + post, |pre| - 1) == Ok(Parsed((ns, ts), |pre| + |FieldList(ns, ts)|))
    decreases |ns|
  {
    if |ns| == 0 {
      PeekAfter(pre, [], post);
    } else {
      var x := FieldList(ns, ts);
      assert IsName(ns[0]) && IsType(ts[0]);
      SingleUnitName('(');
      PeekIn(pre, x, post, 0);
      PeekIn(pre, x, post, 1);
      if |ns| == 1 {
        PeekAfter(pre, x, post);
        assert ns == [ns[0]] && ts == [ts[0]];
      } else {
        PeekIn(pre, x, post, 2);
        Regroup(pre, [ns[0], ts[0], ","], FieldList(ns[1..], ts[1..]), post);
        FieldsParse(pre + [ns[0], ts[0], ","], ns[1..], ts[1..], post);
        assert [ns[0]] + ns[1..] == ns && [ts[0]] + ts[1..] == ts;
      }
    }
  }

  lemma {:induction false} IndexParse(pre: Tokens, ix: seq<string>, post: Tokens)
    requires |pre| > 0 && forall k :: 0 <= k < |ix| ==> IsName(ix[k]) && ix[k] != ""
    requires Peek(post, 0) == ")"
    ensures IndexNames(pre + ix + post, |pre| - 1) == Ok(Parsed(ix, |pre| + |ix|))
    decreases |ix|
  {
    if |ix| == 0 {
      PeekAfter(pre, ix, post);
    } else {
      assert IsName(ix[0]) && ix[0] != "";
      SingleUnitName(')');
      PeekIn(pre, ix, post, 0);
      assert [ix[0]] + ix[1..] == ix;
      Regroup(pre, [ix[0]], ix[1..], post);
      IndexParse(pre + [ix[0]], ix[1..], post);
    }
  }

  lemma {:induction false} WhereParse(pre: Tokens, w: Where)
    requires WfWhere(w)
    ensures ParseWhere(pre + WhereTokens(w), |pre|) == Ok(Parsed(w, |pre| + |WhereTokens(w)|))
  {
    var toks := pre + WhereTokens(w);
    var i := |pre|;
    var e1 := w.singleExp1;
    assert Peek(toks, i) == "where";
    assert Peek(toks, i + 1) == e1.field && Peek(toks, i + 2) == e1.compareOp && Peek(toks, i + 3) == e1.value;
    assert ParseSingleExp(toks, i + 1) == Ok(Parsed(e1, i + 4));
    match w.singleExp2
    case None =>
      assert Peek(toks, i + 4) == "";
    case Some(e2) =>
      assert Peek(toks, i + 4) == w.logicOp;
      assert Peek(toks, i + 5) == e2.field && Peek(toks, i + 6) == e2.compareOp && Peek(toks, i + 7) == e2.value;
      assert ParseSingleExp(toks, i + 5) == Ok(Parsed(e2, i + 8));
      assert Peek(toks, i + 8) == "";
  }

  lemma {:induction false} SelectRestParses(pre: Tokens, t: string, fs: seq<string>, w: Option<Where>)
    requires IsName(t) && (w.Some? ==> WfWhere(w.value))
    ensures var toks := pre + ["from", t] + OptWhereTokens(w);
      SelectRest(toks, Parsed(fs, |pre|)) == Ok(Parsed(Select(t, fs, w), |toks|))
  {
    var rest := OptWhereTokens(w);
    PeekIn(pre, ["from", t], rest, 0);
    PeekIn(pre, ["from", t], rest, 1);
    PeekAfter(pre, ["from", t], rest);
    if w.Some? {
      WhereParse(pre + ["from", t], w.value);
    }
  }

  lemma {:induction false} RenderSelectParses(t: string, fs: seq<string>, w: Option<Where>)
    requires fs == ["*"] || (|fs| > 0 && forall k :: 0 <= k < |fs| ==> IsName(fs[k]))
    requires IsName(t) && (w.Some? ==> WfWhere(w.value))
    ensures var toks := ["select"] + NameList(fs) + ["from", t] + OptWhereTokens(w);
      ParseSelect(toks, 1) == Ok(Parsed(Select(t, fs, w), |toks|))
  {
    var x := NameList(fs);
    var toks := ["select"] + x + ["from", t] + OptWhereTokens(w);
    SelectFieldsParse(t, fs, w);
    SelectSteps(toks, Parsed(fs, 1 + |x|));
    SelectRestParses(["select"] + x, t, fs, w);
  }

  /** The field list of a rendered `select`: `*`, or the names. */
  lemma {:induction false} SelectFieldsParse(t: string, fs: seq<string>, w: Option<Where>)
    requires fs == ["*"] || (|fs| > 0 && forall k :: 0 <= k < |fs| ==> IsName(fs[k]))
    ensures var x := NameList(fs);
      var toks := ["select"] + x + ["from", t] + OptWhereTokens(w);
      && (Peek(toks, 1) == "*" ==> fs == ["*"] && |x| == 1)
      && (Peek(toks, 1) != "*" ==> SelectNames(toks, 1) == Ok(Parsed(fs, 1 + |x|)))
  {
    var x := NameList(fs);
    var rest := ["from", t] + OptWhereTokens(w);
    RegroupTail(["select"], x, ["from", t], OptWhereTokens(w));
    PeekIn(["select"], x, rest, 0);
    if fs != ["*"] {
      assert IsName(fs[0]);
      NameListParses(["select"], fs, rest);
    }
  }

  /** `parseSelect` put together from its parts. */
  lemma {:induction false} SelectSteps(toks: Tokens, fs: Parsed<seq<string>>)
    requires Peek(toks, 1) == "*" ==> fs == Parsed(["*"], 2)
    requires Peek(toks, 1) != "*" ==> SelectNames(toks, 1) == Ok(fs)
    ensures ParseSelect(toks, 1) == SelectRest(toks, fs)
  {
  }

  lemma {:induction false} RegroupCreate(head: Tokens, fl: Tokens, open: Tokens, ix: Tokens, close: Tokens)
    ensures head + fl + open + ix + close == head + fl + (open + ix + close)
    ensures head + fl + open + ix + close == head + fl + open + (ix + close)
  {
  }

  lemma {:induction false} RenderCreateParses(t: string, ns: seq<string>, ts: seq<string>, ix: seq<string>)
    requires WellFormed(Create(t, ns, ts, ix))
    ensures var toks := Render(Create(t, ns, ts, ix));
      ParseCreate(toks, 1) == Ok(Parsed(Create(t, ns, ts, ix), |toks|))
  {
    var head := ["create", "table", t];
    var fl := FieldList(ns, ts);
    var open := ["(", "index"];
    var toks := head + fl + open + ix + [")"];
    assert toks == Render(Create(t, ns, ts, ix));
    RegroupCreate(head, fl, open, ix, [")"]);
    PeekIn([], head, fl + open + ix + [")"], 1);
    PeekIn([], head, fl + open + ix + [")"], 2);
    assert CreateHead(toks, 1) == Ok(t);
    FieldsParse(head, ns, ts, open + ix + [")"]);
    var p := |head| + |fl|;
    assert CreateFields(toks, 2) == Ok(Parsed((ns, ts), p));
    PeekIn(head + fl, open, ix + [")"], 1);
    assert Peek(toks, p + 1) == "index";
    var pre := head + fl + open;
    IndexParse(pre, ix, [")"]);
    var ixp := Parsed(ix, |pre| + |ix|);
    assert IndexNames(toks, p + 1) == Ok(ixp);
    assert Peek(toks, |pre| + |ix| + 1) == "";
    assert CreateRest(toks, t, Parsed((ns, ts), p), ixp) == Ok(Parsed(Create(t, ns, ts, ix), |toks|));
    CreateSteps(toks, t, Parsed((ns, ts), p), ixp);
  }

  /** `parseCreate` put together from its parts. */
  lemma {:induction false} CreateSteps(toks: Tokens, t: string, fs: Parsed<(seq<string>, seq<string>)>, ix: Parsed<seq<string>>)
    requires CreateHead(toks, 1) == Ok(t) && CreateFields(toks, 2) == Ok(fs)
    requires Peek(toks, fs.pos + 1) == "index" && IndexNames(toks, fs.pos + 1) == Ok(ix)
    ensures ParseCreate(toks, 1) == CreateRest(toks, t, fs, ix)
  {
  }

  lemma {:induction false} RenderUpdateParses(t: string, f: string, v: string, w: Option<Where>)
    requires WellFormed(Update(t, f, v, w))
    ensures var toks := Render(Update(t, f, v, w));
      ParseUpdate(toks, 1) == Ok(Parsed(Update(t, f, v, w), |toks|))
  {
    var pre := ["update", t, "set", f, "=", v];
    var rest := OptWhereTokens(w);
    var toks := pre + rest;
    assert toks == Render(Update(t, f, v, w));
    assert [] + pre + rest == toks;
    PeekIn([], pre, rest, 1);
    PeekIn([], pre, rest, 2);
    PeekIn([], pre, rest, 3);
    PeekIn([], pre, rest, 4);
    PeekIn([], pre, rest, 5);
    if w.None? {
      assert toks == pre;
      assert Peek(toks, 6) == "";
    } else {
      assert rest == WhereTokens(w.value);
      assert Peek(toks, 6) == "where";
      WhereParse(pre, w.value);
    }
  }

  /** Every statement the grammar can produce is read back from its canonical tokens. */
  lemma {:induction false} RenderParses(s: Statement)
    requires WellFormed(s)
    ensures ParseStat(Render(s)) == Some(s)
  {
    if s.Create? {
      RenderCreateStat(s);
    } else if s.Select? {
      RenderSelectStat(s);
    } else if s.Insert? {
      RenderInsertStat(s);
    } else if s.Delete? {
      RenderDeleteStat(s);
    } else if s.Update? {
      RenderUpdateStat(s);
    } else {
      RenderKeywordParses(s);
    }
  }

  lemma {:induction false} RenderCreateStat(s: Statement)
    requires s.Create? && WellFormed(s)
    ensures ParseStat(Render(s)) == Some(s)
  {
    assert Peek(Render(s), 0) == "create";
    RenderCreateParses(s.tableName, s.fieldNames, s.fieldTypes, s.index);
  }

  lemma {:induction false} RenderSelectStat(s: Statement)
    requires s.Select? && WellFormed(s)
    ensures ParseStat(Render(s)) == Some(s)
  {
    assert Peek(Render(s), 0) == "select";
    RenderSelectParses(s.tableName, s.fields, s.where);
  }

  lemma {:induction false} RenderInsertStat(s: Statement)
    requires s.Insert? && WellFormed(s)
    ensures ParseStat(Render(s)) == Some(s)
  {
    assert Peek(Render(s), 0) == "insert";
    ValuesParse(["insert", "into", s.tableName, "values"], s.values);
  }

  lemma {:induction false} RenderDeleteStat(s: Statement)
    requires s.Delete? && WellFormed(s)
    ensures ParseStat(Render(s)) == Some(s)
  {
    assert Peek(Render(s), 0) == "delete";
    RenderDeleteParses(s.tableName, s.cond);
  }

  lemma {:induction false} RenderDeleteParses(t: string, w: Where)
    requires WellFormed(Delete(t, w))
    ensures var toks := Render(Delete(t, w));
      ParseDelete(toks, 1) == Ok(Parsed(Delete(t, w), |toks|))
  {
    var pre := ["delete", "from", t];
    var toks := pre + WhereTokens(w);
    assert toks == Render(Delete(t, w));
    PeekIn([], pre, WhereTokens(w), 1);
    PeekIn([], pre, WhereTokens(w), 2);
    WhereParse(pre, w);
  }

  lemma {:induction false} RenderUpdateStat(s: Statement)
    requires s.Update? && WellFormed(s)
    ensures ParseStat(Render(s)) == Some(s)
  {
    assert Peek(Render(s), 0) == "update";
    RenderUpdateParses(s.tableName, s.fieldName, s.value, s.where);
  }

  /** The statements without a where clause or a list. */
  lemma {:induction false} RenderKeywordParses(s: Statement)
    requires s.Begin? || s.Commit? || s.Abort? || s.Show? || (s.Drop? && IsName(s.tableName))
    ensures ParseStat(Render(s)) == Some(s)
  {
  }

  // ---------------------------------------------------------------
  // The index loop as written

  /**
   * The index-list loop of `parseCreate` as the source writes it, run for
   * at most `fuel` rounds; None when it has not stopped by then. Unlike
   * `IndexNames` it has no case for the end of input: the empty token
   * passes `isName`, so the loop pops and peeks again forever.
   */
  function IndexLoopAsWritten(toks: Tokens, j: nat, fuel: nat): Option<Result<Parsed<seq<string>>>>
    decreases fuel
  {
    if fuel == 0 then None
    else
      var field := Peek(toks, j + 1);
      if field == ")" then Some(Ok(Parsed([], j + 1)))
      else if !IsName(field) then Some(Err(InvalidLogOp))
      else
        match IndexLoopAsWritten(toks, j + 1, fuel - 1)
        case None => None
        case Some(Err(e)) => Some(Err(e))
        case Some(Ok(rest)) => Some(Ok(Parsed([field] + rest.value, rest.pos)))
  }

  /**
   * Wherever the loop as written stops, `IndexNames` gives the same
   * answer; where `IndexNames` reports the missing ")", the loop as
   * written never stops, however many rounds it is given.
   */
  lemma {:induction false} IndexLoopCorrected(toks: Tokens, j: nat, fuel: nat)
    requires forall k :: 0 <= k < |toks| ==> toks[k] != ""
    ensures IndexLoopAsWritten(toks, j, fuel).Some? ==> IndexLoopAsWritten(toks, j, fuel) == Some(IndexNames(toks, j))
    ensures IndexNames(toks, j) == Err(InvalidCommand) ==> IndexLoopAsWritten(toks, j, fuel) == None
    decreases fuel
  {
    if fuel > 0 {
      var field := Peek(toks, j + 1);
      if field != ")" && IsName(field) {
        IndexLoopCorrected(toks, j + 1, fuel - 1);
      }
    }
  }

  /** `create table t a int32 ( index a`: the statement without ")" that hangs the loop. */
  lemma {:induction false} UnclosedIndexNeverEnds(fuel: nat)
    ensures var toks := ["create", "table", "t", "a", "int32", "(", "index", "a"];
      && CreateFields(toks, 2) == Ok(Parsed((["a"], ["int32"]), 5))
      && Peek(toks, 6) == "index"
      && IndexLoopAsWritten(toks, 5, fuel) == None
      && IndexNames(toks, 5) == Err(InvalidCommand)
  {
    var toks := ["create", "table", "t", "a", "int32", "(", "index", "a"];
    assert IndexNames(toks, 7) == Err(InvalidCommand);
    assert IndexNames(toks, 6) == Err(InvalidCommand);
    IndexLoopCorrected(toks, 5, fuel);
  }
}
