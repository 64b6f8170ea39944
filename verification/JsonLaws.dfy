/** What follows for json_parse from its grammar. */
module JsonLaws {
  import opened Wrappers
  import opened LuaText
  import opened JsonNumber
  import opened Json
  import opened JsonGrammar

  // ---------------------------------------------------------------------------
  // What the helpers of the parser accept

  // skip_delim: space, then the delimiter or something else.
  lemma {:induction false} DelimIff(str: string, pos: nat, delim: char, end: nat, found: bool)
    requires pos <= |str| && !IsSpace(delim)
    ensures SkipDelim(str, pos, delim) == (end, found)
       <==> exists ws :: AllSpace(ws) && At(str, pos, ws + if found then [delim] else "")
                         && end == pos + |ws| + (if found then 1 else 0)
                         && (!found && end < |str| ==> !IsSpace(str[end]) && str[end] != delim)
  {
    hide At, AllSpace, SkipSpaces, IsSpace;
    if SkipDelim(str, pos, delim) == (end, found) {
      var ws := DelimSound(str, pos, delim);
    }
    forall ws | AllSpace(ws) && At(str, pos, ws + if found then [delim] else "")
                && end == pos + |ws| + (if found then 1 else 0)
                && (!found && end < |str| ==> !IsSpace(str[end]) && str[end] != delim)
      ensures SkipDelim(str, pos, delim) == (end, found)
    {
      AtConcat(str, pos, ws, if found then [delim] else "");
      AtFits(str, pos + |ws|, if found then [delim] else "");
      if found {
        AtFirst(str, pos + |ws|, [delim]);
      }
      SkipsExactly(str, pos, ws);
    }
  }

  // parse_str_val, behind the opening quote: plain and escaped characters up to the first quote.
  lemma {:induction false} StringIff(str: string, pos: nat, s: string, end: nat)
    ensures ParseString(str, pos, "") == Ok(Item(Str(s), end))
       <==> exists items :: (forall i :: 0 <= i < |items| ==> ItemOk(items[i]))
                            && At(str, pos, ItemsText(items) + "\"")
                            && s == ItemsValue(items) && end == pos + |ItemsText(items)| + 1
  {
    hide *;
    if ParseString(str, pos, "") == Ok(Item(Str(s), end)) {
      var items := StringSound(str, pos, "");
      assert "" + ItemsValue(items) == ItemsValue(items);
    }
    forall items | (forall i :: 0 <= i < |items| ==> ItemOk(items[i])) && At(str, pos, ItemsText(items) + "\"")
      ensures ParseString(str, pos, "") == Ok(Item(Str(ItemsValue(items)), pos + |ItemsText(items)| + 1))
    {
      StringComplete(str, pos, items, "");
      assert "" + ItemsValue(items) == ItemsValue(items);
    }
  }

  /** A number in parts: minus, digits, dot, digits, and a mark, a sign and digits for the exponent. */
  datatype Spelling = Spelling(minus: bool, a: string, dot: bool, b: string, mark: string, sign: string, d: string)

  predicate Numeral(p: Spelling) {
    && p.a != "" && AllDigits(p.a) && AllDigits(p.b) && AllDigits(p.d) && (p.dot || p.b == "")
    && if p.mark == "" then p.sign == "" && p.d == ""
       else (p.mark == "e" || p.mark == "E") && (p.sign == "" || p.sign == "+" || p.sign == "-") && p.d != ""
  }

  function Written(p: Spelling): string {
    (if p.minus then "-" else "") + p.a + (if p.dot then "." else "") + p.b + p.mark + p.sign + p.d
  }

  ghost predicate Spells(p: Spelling, n: real)
    requires Numeral(p)
  {
    var m := NatOf(p.a + p.b) as real;
    Scaled(n, if p.minus then -m else m, |p.b|, p.sign == "-", NatOf(p.d))
  }

  // The characters that the number pattern would take in behind a number.
  predicate CarriedOnBy(p: Spelling, c: char) {
    c in "0123456789" || (p.mark == "" && (c in "eE+-" || (c == '.' && !p.dot)))
  }

  function TokOf(p: Spelling): NumTok {
    NumTok(p.minus, p.a, Fraction(p.dot, p.b), Exponent(p.mark, p.sign, p.d))
  }

  function PartsOf(t: NumTok): Spelling {
    Spelling(t.neg, t.ints, t.fraction.dot, t.fraction.digits, t.exponent.mark, t.exponent.sign, t.exponent.digits)
  }

  lemma {:induction false} TokParts(t: NumTok)
    ensures TokOf(PartsOf(t)) == t
    ensures Valid(t) <==> Numeral(PartsOf(t))
    ensures TokText(t) == Written(PartsOf(t))
  {
    var p := PartsOf(t);
    MarkParts(p.mark, p.sign);
    WrittenParts(Minus(p.minus), p.a, DotText(p.dot), p.b, p.mark, p.sign, p.d);
  }

  lemma {:induction false} MarkParts(mark: string, sign: string)
    ensures |mark| == 1 && IsMark(mark[0]) <==> mark == "e" || mark == "E"
    ensures |sign| == 1 && IsSign(sign[0]) <==> sign == "+" || sign == "-"
  {
    assert |mark| == 1 ==> mark == [mark[0]];
    assert |sign| == 1 ==> sign == [sign[0]];
  }

  lemma {:induction false} WrittenParts(x: string, a: string, y: string, b: string, e: string, s: string, d: string)
    ensures x + (a + ((y + b) + (e + (s + d)))) == x + a + y + b + e + s + d
  {}

  lemma {:induction false} CarriedOnIs(t: NumTok, c: char)
    ensures Extends(t, c) <==> CarriedOnBy(PartsOf(t), c)
  {
    DigitIs(c);
  }

  lemma {:induction false} SpellsValue(t: NumTok, n: real)
    requires Valid(t) && Numeral(PartsOf(t))
    ensures Spells(PartsOf(t), n) <==> n == NumValue(t)
  {
    hide NatOf, NumValue, Scaled;
    var p := PartsOf(t);
    DecimalValue(t);
    var m := NatOf(p.a + p.b) as real;
    ScaledOnce(n, NumValue(t), if p.minus then -m else m, |p.b|, p.sign == "-", NatOf(p.d));
  }

  // parse_num_val: the longest number that stands there, and its exact value.
  lemma {:induction false} NumberIff(str: string, pos: nat, n: real, end: nat)
    requires pos <= |str|
    ensures ParseNumber(str, pos) == Ok(Item(Num(n), end))
       <==> exists p :: Numeral(p) && At(str, pos, Written(p)) && end == pos + |Written(p)|
                        && (end < |str| ==> !CarriedOnBy(p, str[end])) && Spells(p, n)
  {
    hide Scan, Valid, At, TokText, NumValue, Numeral, Written, Spells, CarriedOnBy, Extends;
    if ParseNumber(str, pos) == Ok(Item(Num(n), end)) {
      ScanSound(str, pos);
      NumberParts(Scan(str, pos).value, str, end, n);
    }
    forall p | Numeral(p) && At(str, pos, Written(p)) && end == pos + |Written(p)|
               && (end < |str| ==> !CarriedOnBy(p, str[end])) && Spells(p, n)
      ensures ParseNumber(str, pos) == Ok(Item(Num(n), end))
    {
      var tok := TokOf(p);
      NumberParts(tok, str, end, n);
      ScanComplete(str, pos, tok);
    }
  }

  lemma {:induction false} NumberParts(t: NumTok, str: string, end: nat, n: real)
    ensures TokOf(PartsOf(t)) == t
    ensures Valid(t) <==> Numeral(PartsOf(t))
    ensures TokText(t) == Written(PartsOf(t))
    ensures end < |str| ==> (Extends(t, str[end]) <==> CarriedOnBy(PartsOf(t), str[end]))
    ensures Valid(t) && Numeral(PartsOf(t)) ==> (Spells(PartsOf(t), n) <==> n == NumValue(t))
  {
    hide Valid, Numeral, TokText, Written, Extends, CarriedOnBy, Spells, NumValue;
    TokParts(t);
    if end < |str| {
      CarriedOnIs(t, str[end]);
    }
    if Valid(t) {
      SpellsValue(t, n);
    }
  }

  // ---------------------------------------------------------------------------
  // Documents

  // json_parse succeeds exactly on the documents of the grammar, and returns what they mean.
  lemma {:induction false} ParseIff(str: string, pos: nat, v: Value, end: nat)
    ensures Parse(str, pos, None) == Ok(Item(v, end))
        <==> exists ws, doc :: Spelled(str, pos, ws, doc, v, end)
  {
    hide Parse, Meaning, At, WellFormed, Text, Ends;
    if Parse(str, pos, None) == Ok(Item(v, end)) {
      var ws, doc := Sound(str, pos, None);
    }
    forall ws, doc | Spelled(str, pos, ws, doc, v, end) ensures Parse(str, pos, None) == Ok(Item(v, end)) {
      Complete(str, pos, ws, doc, None);
    }
  }

  // A text has at most one reading: the grammar is not ambiguous.
  lemma {:induction false} OneReading(str: string, pos: nat, ws: string, doc: Doc, v: Value, end: nat, ws': string, doc': Doc, v': Value, end': nat)
    requires Spelled(str, pos, ws, doc, v, end) && Spelled(str, pos, ws', doc', v', end')
    ensures v == v' && end == end'
  {
    hide Parse, Meaning, At, WellFormed, Text;
    Complete(str, pos, ws, doc, None);
    Complete(str, pos, ws', doc', None);
  }

  // ---------------------------------------------------------------------------
  // Text behind a document

  // The number that a parse at pos read last, when it read a number.
  function LastNumber(str: string, pos: nat): Option<NumTok>
    requires pos <= |str|
  {
    Scan(str, SkipSpaces(str, pos))
  }

  // `more` carries on a number that ends with the text.
  predicate CarriesOn(str: string, pos: nat, v: Value, end: nat, more: string)
    requires pos <= |str|
  {
    v.Num? && end == |str| && more != ""
    && LastNumber(str, pos).Some? && Extends(LastNumber(str, pos).value, more[0])
  }

  lemma {:induction false} SpelledNumber(str: string, pos: nat, ws: string, doc: Doc, v: Value, end: nat)
    requires pos <= |str| && Spelled(str, pos, ws, doc, v, end)
    ensures v.Num? <==> doc.NumDoc?
    ensures doc.NumDoc? ==> LastNumber(str, pos) == Some(doc.tok)
  {
    hide At, Text, Scan, SkipSpaces, Valid, Meaning, WellFormed, NumberEnds;
    MeaningKind(doc);
    if doc.NumDoc? {
      SkipsToDoc(str, pos, ws, doc);
      NumberText(doc);
      ScanComplete(str, pos + |ws|, doc.tok);
    }
  }

  lemma {:induction false} MeaningKind(doc: Doc)
    requires WellFormed(doc)
    ensures Meaning(doc).Num? <==> doc.NumDoc?
  {}

  lemma {:induction false} NumberText(doc: Doc)
    requires doc.NumDoc?
    ensures Text(doc) == TokText(doc.tok) && (WellFormed(doc) ==> Valid(doc.tok) && Meaning(doc).Num?)
  {}

  // What is parsed does not depend on the text behind it, except that a number may be carried
  // on by the very next character.
  lemma {:induction false} SuffixIndependent(str: string, more: string, pos: nat, v: Value, end: nat)
    requires pos <= |str| && Parse(str, pos, None) == Ok(Item(v, end))
    ensures Parse(str + more, pos, None) == Ok(Item(v, end)) <==> !CarriesOn(str, pos, v, end, more)
  {
    hide Parse, At, Text, WellFormed, Meaning, NumberEnds, LastNumber;
    var ws, doc := Sound(str, pos, None);
    SpelledNumber(str, pos, ws, doc, v, end);
    AtExtend(str, more, pos, ws + Text(doc));
    if !CarriesOn(str, pos, v, end, more) {
      EndsBefore(str, more, doc, end);
      Complete(str + more, pos, ws, doc, None);
    } else if Parse(str + more, pos, None) == Ok(Item(v, end)) {
      var ws', doc' := Sound(str + more, pos, None);
      SpelledNumber(str + more, pos, ws', doc', v, end);
      AtExtend(str, more, pos, ws' + Text(doc'));
      EndsAtEnd(str, doc', end);
      assert Spelled(str, pos, ws', doc', v, end);
      SpelledNumber(str, pos, ws', doc', v, end);
      CarriedOn(str, more, doc'.tok, end);
    }
  }

  lemma {:induction false} EndsBefore(str: string, more: string, doc: Doc, end: nat)
    requires end <= |str| && Ends(doc, str, end)
    requires doc.NumDoc? && end == |str| && more != "" ==> !Extends(doc.tok, more[0])
    ensures Ends(doc, str + more, end)
  {}

  lemma {:induction false} EndsAtEnd(str: string, doc: Doc, end: nat)
    requires end == |str|
    ensures Ends(doc, str, end)
  {}

  lemma {:induction false} CarriedOn(str: string, more: string, tok: NumTok, end: nat)
    requires end == |str| && more != "" && Extends(tok, more[0])
    ensures !NumberEnds(tok, str + more, end)
  {}

  // ---------------------------------------------------------------------------
  // A zero byte behind a text

  // The last character of a document is none that could be a stray byte.
  lemma {:induction false} TextCloses(doc: Doc)
    requires WellFormed(doc)
    ensures Text(doc) != "" && Text(doc)[|Text(doc)| - 1] != 0 as char
  {
    if doc.NumDoc? {
      NumberCloses(doc.tok);
    }
  }

  lemma {:induction false} NumberCloses(t: NumTok)
    requires Valid(t)
    ensures TokText(t) != "" && TokText(t)[|TokText(t)| - 1] != 0 as char
  {
    var x := t.exponent.digits;
    if x != "" {
      assert TokText(t)[|TokText(t)| - 1] == x[|x| - 1];
    } else if t.fraction.digits != "" {
      assert TokText(t)[|TokText(t)| - 1] == t.fraction.digits[|t.fraction.digits| - 1];
    } else if t.fraction.dot {
      assert TokText(t)[|TokText(t)| - 1] == '.';
    } else {
      assert TokText(t)[|TokText(t)| - 1] == t.ints[|t.ints| - 1];
    }
  }

  // A zero byte at the end of the text changes no successful parse, and makes none succeed.
  lemma {:induction false} StrayZero(str: string, pos: nat, v: Value, end: nat)
    requires pos <= |str|
    ensures Parse(str + [0 as char], pos, None) == Ok(Item(v, end)) <==> Parse(str, pos, None) == Ok(Item(v, end))
  {
    hide Parse, At, Text, WellFormed, Meaning, NumberEnds;
    var zero := [0 as char];
    if Parse(str, pos, None) == Ok(Item(v, end)) {
      SuffixIndependent(str, zero, pos, v, end);
    }
    if Parse(str + zero, pos, None) == Ok(Item(v, end)) {
      var ws, doc := Sound(str + zero, pos, None);
      EndsInside(str, pos, ws, doc, v, end);
      AtExtend(str, zero, pos, ws + Text(doc));
      EndsPrefix(str, zero, doc, end);
      Complete(str, pos, ws, doc, None);
    }
  }

  lemma {:induction false} EndsInside(str: string, pos: nat, ws: string, doc: Doc, v: Value, end: nat)
    requires Spelled(str + [0 as char], pos, ws, doc, v, end)
    ensures end <= |str|
  {
    hide Text, WellFormed, Meaning;
    TextCloses(doc);
    var t := ws + Text(doc);
    var all := str + [0 as char];
    assert t[|t| - 1] == Text(doc)[|Text(doc)| - 1];
    assert all[pos..pos + |t|][|t| - 1] == all[end - 1];
  }

  lemma {:induction false} EndsPrefix(str: string, more: string, doc: Doc, end: nat)
    requires end <= |str| && Ends(doc, str + more, end)
    ensures Ends(doc, str, end)
  {}

  // ---------------------------------------------------------------------------
  // White space and escapes, told from the characters

  // The white space of section 2 of RFC 8259 is skipped in front of every document.
  lemma {:induction false} BlankInFront(ws: string, doc: Doc, behind: string)
    requires WellFormed(doc) && forall i :: 0 <= i < |ws| ==> ws[i] in " \t\n\r"
    requires Ends(doc, ws + Text(doc) + behind, |ws| + |Text(doc)|)
    ensures Parse(ws + Text(doc) + behind, 0, None) == Ok(Item(Meaning(doc), |ws| + |Text(doc)|))
  {
    hide Parse, Text, WellFormed, Meaning, Ends, IsSpace;
    forall i | 0 <= i < |ws| ensures IsSpace(ws[i]) {
      SpaceIs(ws[i]);
    }
    var t := ws + Text(doc);
    assert (t + behind)[0..|t|] == t;
    Complete(t + behind, 0, ws, doc, None);
  }

  // Five escapes stand for control characters, every other escaped character for itself.
  lemma {:induction false} EscapeRead(c: char)
    ensures Parse(['"', '\\', c, '"'], 0, None) == Ok(Item(Str([
              if c == 'b' then 8 as char else if c == 't' then 9 as char else if c == 'n' then 10 as char
              else if c == 'f' then 12 as char else if c == 'r' then 13 as char else c]), 4))
  {
    var items := [Esc(c)];
    assert items[1..] == [];
    assert ItemsText(items) == ['\\', c] + "" == ['\\', c];
    assert ItemsValue(items) == [Unescape(c)];
    var doc := StrDoc(items);
    assert Text(doc) == ['"', '\\', c, '"'];
    hide Parse, Text;
    assert "" + Text(doc) + "" == Text(doc);
    BlankInFront("", doc, "");
  }

  // What the helpers report when they fail.
  lemma {:induction false} HelperErrors(str: string, pos: nat, val: string)
    ensures ParseString(str, pos, val).Err? ==> ParseString(str, pos, val) == Err(EndInString)
    ensures pos <= |str| && ParseNumber(str, pos).Err? ==> ParseNumber(str, pos) == Err(BadNumber(pos))
    ensures ParseLiteral(str, pos).Err? ==> ParseLiteral(str, pos) == Err(BadSyntax(pos))
    decreases |str| - pos
  {
    hide Scan, Valid, NumValue, TokText, Unescape;
    if pos < |str| && str[pos] != '"' {
      if str[pos] != '\\' {
        HelperErrors(str, pos + 1, val + [str[pos]]);
      } else if pos + 1 < |str| {
        HelperErrors(str, pos + 2, val + [Unescape(str[pos + 1])]);
      }
    }
  }

  // ---------------------------------------------------------------------------
  // Arrays and objects

  // Items stand under the numbers 1 to n, and nothing else does.
  lemma {:induction false} ArrayItems(items: seq<Value>, k: Key)
    ensures ArrayTable(items).refs == []
    ensures k in ArrayTable(items).fields
       <==> k.KNum? && k.n == k.n.Floor as real && 1 <= k.n.Floor <= |items|
    ensures k in ArrayTable(items).fields ==> ArrayTable(items).fields[k] == items[k.n.Floor - 1]
  {
    hide ArrayFields;
    ArrayFieldsKeys(items);
    if k in ArrayTable(items).fields {
      var i: nat :| 1 <= i <= |items| && k == Index(i);
      assert (i as real).Floor == i;
    }
    if k.KNum? && k.n == k.n.Floor as real && 1 <= k.n.Floor <= |items| {
      assert k == Index(k.n.Floor);
    }
  }

  // The key under which a value is stored; a table is only equal to itself.
  function KeyOf(v: Value): Option<Key> {
    match v
    case Str(s) => Some(KStr(s))
    case Num(n) => Some(KNum(n))
    case Bool(b) => Some(KBool(b))
    case Null => Some(KNull)
    case Table(_, _) => None
  }

  ghost predicate DocsOk(members: seq<Member>) {
    MembersOk(members) && forall j :: 0 <= j < |members| ==> WellFormed(members[j].key) && WellFormed(members[j].doc)
  }

  lemma {:induction false} DocsAreOk(members: seq<Member>)
    requires MembersOk(members)
    ensures DocsOk(members)
  {
    if members != [] {
      hide WellFormed;
      DocsAreOk(members[1..]);
      assert forall j :: 1 <= j < |members| ==> members[j] == members[1..][j - 1];
    }
  }

  // Of several members with one key the last one counts.
  lemma {:induction false} LastMemberWins(members: seq<Member>, i: nat, k: Key)
    requires DocsOk(members) && i < |members| && KeyOf(Meaning(members[i].key)) == Some(k)
    requires forall j :: i < j < |members| ==> KeyOf(Meaning(members[j].key)) != Some(k)
    ensures k in MembersTable(members).fields
    ensures MembersTable(members).fields[k] == Meaning(members[i].doc)
    decreases |members|
  {
    hide Meaning, WellFormed;
    var rest := members[1..];
    if i > 0 {
      LastMemberWins(rest, i - 1, k);
    } else {
      NoMember(rest, k);
    }
  }

  lemma {:induction false} NoMember(members: seq<Member>, k: Key)
    requires DocsOk(members)
    requires forall j :: 0 <= j < |members| ==> KeyOf(Meaning(members[j].key)) != Some(k)
    ensures k !in MembersTable(members).fields
    decreases |members|
  {
    hide Meaning, WellFormed;
    if members != [] {
      NoMember(members[1..], k);
    }
  }

  // The members whose keys are tables, in their order.
  function TableKeyed(members: seq<Member>): seq<(Value, Value)>
    requires DocsOk(members)
  {
    if members == [] then []
    else
      var m := members[0];
      (if Meaning(m.key).Table? then [(Meaning(m.key), Meaning(m.doc))] else []) + TableKeyed(members[1..])
  }

  lemma {:induction false} TableKeysKept(members: seq<Member>)
    requires DocsOk(members)
    ensures MembersTable(members).refs == TableKeyed(members)
  {
    hide Meaning, WellFormed;
    if members != [] {
      TableKeysKept(members[1..]);
    }
  }

  // The last member with a key, if there is one.
  ghost predicate LastMember(members: seq<Member>, i: nat, k: Key)
    requires DocsOk(members)
  {
    && i < |members| && KeyOf(Meaning(members[i].key)) == Some(k)
    && forall j :: i < j < |members| ==> KeyOf(Meaning(members[j].key)) != Some(k)
  }

  lemma {:induction false} FindLast(members: seq<Member>, n: nat, k: Key) returns (i: nat)
    requires DocsOk(members) && n <= |members|
    requires forall j :: n <= j < |members| ==> KeyOf(Meaning(members[j].key)) != Some(k)
    ensures i < |members| ==> LastMember(members, i, k)
    ensures i >= |members| ==> forall j :: 0 <= j < |members| ==> KeyOf(Meaning(members[j].key)) != Some(k)
  {
    hide Meaning, WellFormed, KeyOf, MembersOk;
    if n == 0 {
      i := |members|;
    } else if KeyOf(Meaning(members[n - 1].key)) == Some(k) {
      i := n - 1;
    } else {
      i := FindLast(members, n - 1, k);
    }
  }

  /**
   * The table of an object: under each key the value of its last member, nothing under other keys,
   * and every member whose key is a table.
   */
  lemma {:induction false} ObjectMeaning(members: seq<Member>, k: Key)
    requires DocsOk(members)
    ensures k in MembersTable(members).fields <==> exists i: nat :: LastMember(members, i, k)
    ensures forall i: nat :: LastMember(members, i, k) ==> MembersTable(members).fields[k] == Meaning(members[i].doc)
    ensures MembersTable(members).refs == TableKeyed(members)
  {
    hide Meaning, WellFormed, KeyOf, MembersOk, MembersTable, TableKeyed;
    TableKeysKept(members);
    var i := FindLast(members, |members|, k);
    forall i: nat | LastMember(members, i, k)
      ensures k in MembersTable(members).fields && MembersTable(members).fields[k] == Meaning(members[i].doc)
    {
      LastMemberWins(members, i, k);
    }
    if i >= |members| {
      NoMember(members, k);
    }
  }
}
