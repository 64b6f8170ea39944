/** The parser of tests/fixtures/lua/json.lua: json_parse with its helpers. */
module Json {
  import opened Wrappers
  import opened LuaText
  import opened JsonNumber

  /**
   * A Lua value as far as the library knows one. A table holds its fields under the keys that
   * are compared by value; `refs` are the fields whose key is itself a table, which is equal to
   * no other key.
   */
  datatype Value =
    | Str(s: string)
    | Num(n: real)
    | Bool(b: bool)
    | Null
    | Table(fields: map<Key, Value>, refs: seq<(Value, Value)>)

  /** A key; KNull is the one table json.null. */
  datatype Key = KStr(s: string) | KNum(n: real) | KBool(b: bool) | KNull

  const EMPTY := Table(map[], [])

  // obj[key] = val
  function Put(obj: Value, key: Value, val: Value): (r: Value)
    requires obj.Table?
    ensures r.Table?
  {
    match key
    case Str(s) => obj.(fields := obj.fields[KStr(s) := val])
    case Num(n) => obj.(fields := obj.fields[KNum(n) := val])
    case Bool(b) => obj.(fields := obj.fields[KBool(b) := val])
    case Null => obj.(fields := obj.fields[KNull := val])
    case Table(_, _) => obj.(refs := obj.refs + [(key, val)])
  }

  // The key of the i-th item of an array, counted from 1.
  function Index(i: nat): Key {
    KNum(i as real)
  }

  // The table of a sequence, with the keys 1 to n.
  function ArrayFields(items: seq<Value>): map<Key, Value> {
    if items == [] then map[]
    else ArrayFields(items[..|items| - 1])[Index(|items|) := items[|items| - 1]]
  }

  function ArrayTable(items: seq<Value>): Value {
    Table(ArrayFields(items), [])
  }

  // ---------------------------------------------------------------------------
  // Results

  datatype ParseError =
    | EndOfInput
    | EndInString
    | Expected(delim: char, pos: nat)
    | BadNumber(pos: nat)
    | CommaMissing(opener: char)
    | BadSyntax(pos: nat)

  /** A value with the position behind it, or the closing delimiter with the position behind it. */
  datatype Parsed = Item(v: Value, pos: nat) | Closed(pos: nat)

  type ParseResult = Result<Parsed, ParseError>

  // ---------------------------------------------------------------------------
  // Helpers of the parser

  // skip_delim: the position behind leading space and the delimiter, if that is there.
  function SkipDelim(str: string, pos: nat, delim: char): (r: (nat, bool))
    requires pos <= |str|
    ensures pos <= r.0 <= |str|
  {
    var p := SkipSpaces(str, pos);
    if p < |str| && str[p] == delim then (p + 1, true) else (p, false)
  }

  function Unescape(c: char): char {
    match c
    case 'b' => 8 as char
    case 'f' => 12 as char
    case 'n' => '\n'
    case 'r' => '\r'
    case 't' => '\t'
    case _ => c
  }

  // parse_str_val
  function ParseString(str: string, pos: nat, val: string): (r: ParseResult)
    ensures r.Ok? ==> r.value.Item? && pos < r.value.pos <= |str|
    decreases |str| - pos
  {
    if pos >= |str| then Err(EndInString)
    else if str[pos] == '"' then Ok(Item(Str(val), pos + 1))
    else if str[pos] != '\\' then ParseString(str, pos + 1, val + [str[pos]])
    else if pos + 1 < |str| then ParseString(str, pos + 2, val + [Unescape(str[pos + 1])])
    else Err(EndInString)
  }

  // parse_num_val
  function ParseNumber(str: string, pos: nat): (r: ParseResult)
    requires pos <= |str|
    ensures r.Ok? ==> r.value.Item? && pos < r.value.pos <= |str|
  {
    var tok := Scan(str, pos);
    if tok.None? || !Valid(tok.value) then Err(BadNumber(pos))
    else
      ScanSound(str, pos);
      Ok(Item(Num(NumValue(tok.value)), pos + |TokText(tok.value)|))
  }

  // No text starts with two of the literals, so the order in which they are tried is immaterial.
  function ParseLiteral(str: string, pos: nat): (r: ParseResult)
    ensures r.Ok? ==> r.value.Item? && pos < r.value.pos <= |str|
  {
    if At(str, pos, "true") then Ok(Item(Bool(true), pos + 4))
    else if At(str, pos, "false") then Ok(Item(Bool(false), pos + 5))
    else if At(str, pos, "null") then Ok(Item(Null, pos + 4))
    else Err(BadSyntax(pos))
  }

  // ---------------------------------------------------------------------------
  // json_parse as a function; its loops are the two functions behind it

  function Left(str: string, pos: nat): nat {
    if pos < |str| then |str| - pos else 0
  }

  function Parse(str: string, pos: nat, closer: Option<char>): (r: ParseResult)
    ensures r.Ok? ==> pos < r.value.pos <= |str|
    ensures r.Ok? && closer.None? ==> r.value.Item?
    decreases Left(str, pos), 0
  {
    if pos >= |str| then Err(EndOfInput) else
    var p := SkipSpaces(str, pos);
    if p == |str| then Err(BadSyntax(p)) else
    var first := str[p];
    if first == '{' then ParseMembers(str, p + 1, EMPTY, true)
    else if first == '[' then ParseElements(str, p + 1, [], true)
    else if first == '"' then ParseString(str, p + 1, "")
    else if first == '-' || IsDigit(first) then ParseNumber(str, p)
    else if closer == Some(first) then Ok(Closed(p + 1))
    else ParseLiteral(str, p)
  }

  function ParseMembers(str: string, pos: nat, obj: Value, delimFound: bool): (r: ParseResult)
    requires obj.Table?
    ensures r.Ok? ==> r.value.Item? && pos < r.value.pos <= |str|
    decreases Left(str, pos), 1
  {
    var key := Parse(str, pos, Some('}'));
    if key.Err? then key
    else if key.value.Closed? then Ok(Item(obj, key.value.pos))
    else if !delimFound then Err(CommaMissing('{')) else
    var (p, found) := SkipDelim(str, key.value.pos, ':');
    if !found then Err(Expected(':', p)) else
    var val := Parse(str, p, None);
    if val.Err? then val else
    var (q, more) := SkipDelim(str, val.value.pos, ',');
    ParseMembers(str, q, Put(obj, key.value.v, val.value.v), more)
  }

  function ParseElements(str: string, pos: nat, items: seq<Value>, delimFound: bool): (r: ParseResult)
    ensures r.Ok? ==> r.value.Item? && pos < r.value.pos <= |str|
    decreases Left(str, pos), 1
  {
    var val := Parse(str, pos, Some(']'));
    if val.Err? then val
    else if val.value.Closed? then Ok(Item(ArrayTable(items), val.value.pos))
    else if !delimFound then Err(CommaMissing('[')) else
    var (q, more) := SkipDelim(str, val.value.pos, ',');
    ParseElements(str, q, items + [val.value.v], more)
  }

  // ---------------------------------------------------------------------------
  // json_parse itself: one method, with a loop for objects and a loop for arrays

  method JsonParse(str: string, start: nat, closer: Option<char>) returns (r: ParseResult)
    ensures r == Parse(str, start, closer)
    decreases Left(str, start)
  {
    hide SkipSpaces, SkipDelim, ParseString, ParseNumber, ParseLiteral, Put, ArrayFields, Index;
    if start >= |str| {
      return Err(EndOfInput);
    }
    var pos := SkipSpaces(str, start);
    if pos == |str| {
      return Err(BadSyntax(pos));
    }
    var first := str[pos];
    if first == '{' {
      var obj, delimFound := EMPTY, true;
      pos := pos + 1;
      while true
        invariant start < pos <= |str| && obj.Table?
        invariant ParseMembers(str, pos, obj, delimFound) == Parse(str, start, closer)
        decreases |str| - pos
      {
        var key := JsonParse(str, pos, Some('}'));
        if key.Err? {
          return key;
        }
        if key.value.Closed? {
          return Ok(Item(obj, key.value.pos));
        }
        if !delimFound {
          return Err(CommaMissing('{'));
        }
        var (p, found) := SkipDelim(str, key.value.pos, ':');
        if !found {
          return Err(Expected(':', p));
        }
        var val := JsonParse(str, p, None);
        if val.Err? {
          return val;
        }
        obj := Put(obj, key.value.v, val.value.v);
        var (q, more) := SkipDelim(str, val.value.pos, ',');
        pos, delimFound := q, more;
      }
    } else if first == '[' {
      var arr: map<Key, Value>, delimFound := map[], true;
      ghost var items := [];
      ArrayFieldsNone();
      pos := pos + 1;
      while true
        invariant start < pos <= |str|
        invariant arr == ArrayFields(items) && |arr| == |items|
        invariant ParseElements(str, pos, items, delimFound) == Parse(str, start, closer)
        decreases |str| - pos
      {
        var val := JsonParse(str, pos, Some(']'));
        if val.Err? {
          return val;
        }
        if val.value.Closed? {
          return Ok(Item(Table(arr, []), val.value.pos));
        }
        if !delimFound {
          return Err(CommaMissing('['));
        }
        ArrayFieldsSnoc(items, val.value.v);
        arr := arr[Index(|arr| + 1) := val.value.v];
        items := items + [val.value.v];
        var (q, more) := SkipDelim(str, val.value.pos, ',');
        pos, delimFound := q, more;
      }
    } else if first == '"' {
      r := ParseString(str, pos + 1, "");
    } else if first == '-' || IsDigit(first) {
      r := ParseNumber(str, pos);
    } else if closer == Some(first) {
      r := Ok(Closed(pos + 1));
    } else {
      r := ParseLiteral(str, pos);
    }
  }

  // The keys of an array table are 1 to n, so that #arr is n.
  lemma {:induction false} ArrayFieldsKeys(items: seq<Value>)
    ensures |ArrayFields(items)| == |items|
    ensures forall i: nat :: Index(i) in ArrayFields(items) <==> 1 <= i <= |items|
    ensures forall i: nat :: 1 <= i <= |items| ==> ArrayFields(items)[Index(i)] == items[i - 1]
    ensures forall k :: k in ArrayFields(items) ==> exists i: nat :: 1 <= i <= |items| && k == Index(i)
  {
    if items != [] {
      var front := items[..|items| - 1];
      ArrayFieldsKeys(front);
      assert Index(|items|) !in ArrayFields(front);
      assert forall i: nat :: Index(i) == Index(|items|) ==> i == |items|;
      hide Index;
      forall k | k in ArrayFields(items) ensures exists i: nat :: 1 <= i <= |items| && k == Index(i) {
        if k != Index(|items|) {
          assert k in ArrayFields(front);
        }
      }
    }
  }

  lemma {:induction false} ArrayFieldsNone()
    ensures ArrayFields([]) == map[]
  {}

  lemma {:induction false} ArrayFieldsSnoc(items: seq<Value>, v: Value)
    ensures ArrayFields(items + [v]) == ArrayFields(items)[Index(|items| + 1) := v]
    ensures |ArrayFields(items + [v])| == |items| + 1
  {
    ArrayFieldsKeys(items + [v]);
    assert (items + [v])[..|items|] == items;
  }
}
