/**
 * The texts that json_parse accepts, as syntax trees with their white space, and the proof that
 * the parser accepts exactly these and returns what they mean.
 */
module JsonGrammar {
  import opened Wrappers
  import opened LuaText
  import opened JsonNumber
  import opened Json

  // ---------------------------------------------------------------------------
  // Documents

  datatype StrItem = Raw(c: char) | Esc(c: char)

  /**
   * The grammar is RFC 8259 made lenient: a comma may follow the last item, any document may be
   * a key, any character may be escaped, and control characters may stand in strings.
   */
  datatype Doc =
    | StrDoc(items: seq<StrItem>)
    | NumDoc(tok: NumTok)
    | BoolDoc(b: bool)
    | NullDoc
    | ArrDoc(elems: seq<Elem>, close: string)
    | ObjDoc(members: seq<Member>, close: string)

  /** An item with the white space before and after it, and perhaps a comma. */
  datatype Elem = Elem(before: string, doc: Doc, after: string, comma: bool)

  datatype Member = Member(before: string, key: Doc, gap: string, space: string, doc: Doc, after: string, comma: bool)

  function ItemText(item: StrItem): string {
    match item
    case Raw(c) => [c]
    case Esc(c) => ['\\', c]
  }

  function ItemsText(items: seq<StrItem>): string {
    if items == [] then "" else ItemText(items[0]) + ItemsText(items[1..])
  }

  function ItemValue(item: StrItem): char {
    match item
    case Raw(c) => c
    case Esc(c) => Unescape(c)
  }

  function ItemsValue(items: seq<StrItem>): (s: string)
    ensures |s| == |items|
  {
    if items == [] then "" else [ItemValue(items[0])] + ItemsValue(items[1..])
  }

  function Comma(comma: bool): string {
    if comma then "," else ""
  }

  function Text(doc: Doc): string
    decreases doc
  {
    match doc
    case StrDoc(items) => "\"" + (ItemsText(items) + "\"")
    case NumDoc(tok) => TokText(tok)
    case BoolDoc(b) => if b then "true" else "false"
    case NullDoc => "null"
    case ArrDoc(elems, close) => "[" + (ElemsText(elems) + (close + "]"))
    case ObjDoc(members, close) => "{" + (MembersText(members) + (close + "}"))
  }

  function ElemText(e: Elem): string
    decreases e
  {
    e.before + (Text(e.doc) + (e.after + Comma(e.comma)))
  }

  function ElemsText(elems: seq<Elem>): string
    decreases elems
  {
    if elems == [] then "" else ElemText(elems[0]) + ElemsText(elems[1..])
  }

  function MemberText(m: Member): string
    decreases m
  {
    m.before + (Text(m.key) + (m.gap + (":" + (m.space + (Text(m.doc) + (m.after + Comma(m.comma)))))))
  }

  function MembersText(members: seq<Member>): string
    decreases members
  {
    if members == [] then "" else MemberText(members[0]) + MembersText(members[1..])
  }

  predicate ItemOk(item: StrItem) {
    item.Raw? ==> item.c != '"' && item.c != '\\'
  }

  // Well-formed documents: only the last comma of a list may be missing.
  predicate WellFormed(doc: Doc)
    decreases doc
  {
    match doc
    case StrDoc(items) => forall i :: 0 <= i < |items| ==> ItemOk(items[i])
    case NumDoc(tok) => Valid(tok)
    case BoolDoc(_) => true
    case NullDoc => true
    case ArrDoc(elems, close) => AllSpace(close) && ElemsOk(elems)
    case ObjDoc(members, close) => AllSpace(close) && MembersOk(members)
  }

  predicate ElemsOk(elems: seq<Elem>)
    decreases elems
  {
    elems != [] ==>
      var e := elems[0];
      && AllSpace(e.before) && WellFormed(e.doc) && AllSpace(e.after)
      && (|elems| > 1 ==> e.comma)
      && ElemsOk(elems[1..])
  }

  predicate MembersOk(members: seq<Member>)
    decreases members
  {
    members != [] ==>
      var m := members[0];
      && AllSpace(m.before) && WellFormed(m.key) && AllSpace(m.gap)
      && AllSpace(m.space) && WellFormed(m.doc) && AllSpace(m.after)
      && (|members| > 1 ==> m.comma)
      && MembersOk(members[1..])
  }

  // ---------------------------------------------------------------------------
  // Meaning

  function Meaning(doc: Doc): Value
    requires WellFormed(doc)
    decreases doc
  {
    match doc
    case StrDoc(items) => Str(ItemsValue(items))
    case NumDoc(tok) => Num(NumValue(tok))
    case BoolDoc(b) => Bool(b)
    case NullDoc => Null
    case ArrDoc(elems, _) => ArrayTable(ElemValues(elems))
    case ObjDoc(members, _) => MembersTable(members)
  }

  function ElemValues(elems: seq<Elem>): (vs: seq<Value>)
    requires ElemsOk(elems)
    ensures |vs| == |elems|
    decreases elems
  {
    if elems == [] then [] else [Meaning(elems[0].doc)] + ElemValues(elems[1..])
  }

  // Two tables laid over each other: the second one wins.
  function Over(a: Value, b: Value): (r: Value)
    requires a.Table? && b.Table?
    ensures r.Table?
  {
    Table(a.fields + b.fields, a.refs + b.refs)
  }

  function MembersTable(members: seq<Member>): (r: Value)
    requires MembersOk(members)
    ensures r.Table?
    decreases members
  {
    if members == [] then EMPTY
    else Over(Put(EMPTY, Meaning(members[0].key), Meaning(members[0].doc)), MembersTable(members[1..]))
  }

  lemma {:induction false} PutThenOver(obj: Value, key: Value, val: Value, rest: Value)
    requires obj.Table? && rest.Table?
    ensures Over(Put(obj, key, val), rest) == Over(obj, Over(Put(EMPTY, key, val), rest))
  {
    var a, b := Over(Put(obj, key, val), rest), Over(obj, Over(Put(EMPTY, key, val), rest));
    assert a.fields == b.fields;
    assert a.refs == b.refs;
  }

  // ---------------------------------------------------------------------------
  // Every document is parsed to its meaning

  // The text behind a document does not carry it on; only a number can be carried on.
  predicate Ends(doc: Doc, str: string, q: nat) {
    doc.NumDoc? ==> NumberEnds(doc.tok, str, q)
  }

  predicate Closer(closer: Option<char>) {
    closer == None || closer == Some('}') || closer == Some(']')
  }

  // A document starts with a character that tells its kind.
  predicate Opens(doc: Doc, c: char) {
    match doc
    case StrDoc(_) => c == '"'
    case NumDoc(_) => c == '-' || IsDigit(c)
    case BoolDoc(b) => c == if b then 't' else 'f'
    case NullDoc => c == 'n'
    case ArrDoc(_, _) => c == '['
    case ObjDoc(_, _) => c == '{'
  }

  lemma {:induction false} TextOpens(doc: Doc)
    requires WellFormed(doc)
    ensures Text(doc) != "" && Opens(doc, Text(doc)[0])
    ensures !IsSpace(Text(doc)[0])
  {}

  lemma {:induction false} StringComplete(str: string, pos: nat, items: seq<StrItem>, val: string)
    requires forall i :: 0 <= i < |items| ==> ItemOk(items[i])
    requires At(str, pos, ItemsText(items) + "\"")
    ensures ParseString(str, pos, val) == Ok(Item(Str(val + ItemsValue(items)), pos + |ItemsText(items)| + 1))
    decreases |items|
  {
    hide *;
    if items == [] {
      StringEnd(str, pos, val);
    } else {
      var item, rest := items[0], items[1..];
      ItemsFront(items, val);
      AtConcat(str, pos, ItemText(item), ItemsText(rest) + "\"");
      AtItem(str, pos, item);
      StringComplete(str, pos + |ItemText(item)|, rest, val + [ItemValue(item)]);
      StringTurn(str, pos, item, val);
    }
  }

  lemma {:induction false} StringEnd(str: string, pos: nat, val: string)
    requires At(str, pos, ItemsText([]) + "\"")
    ensures ParseString(str, pos, val) == Ok(Item(Str(val + ItemsValue([])), pos + |ItemsText([])| + 1))
  {
    assert "" + "\"" == "\"" && val + "" == val;
    AtFirst(str, pos, "\"");
  }

  // One character or escape is read.
  lemma {:induction false} StringTurn(str: string, pos: nat, item: StrItem, val: string)
    requires ItemOk(item)
    requires item.Raw? ==> pos < |str| && str[pos] == item.c
    requires item.Esc? ==> pos + 1 < |str| && str[pos] == '\\' && str[pos + 1] == item.c
    ensures ParseString(str, pos, val) == ParseString(str, pos + |ItemText(item)|, val + [ItemValue(item)])
  {
    hide Unescape;
  }

  lemma {:induction false} ItemsFront(items: seq<StrItem>, val: string)
    requires items != []
    ensures ItemsText(items) + "\"" == ItemText(items[0]) + (ItemsText(items[1..]) + "\"")
    ensures |ItemsText(items)| == |ItemText(items[0])| + |ItemsText(items[1..])|
    ensures val + [ItemValue(items[0])] + ItemsValue(items[1..]) == val + ItemsValue(items)
  {
    hide ItemText, ItemValue;
    Assoc(ItemText(items[0]), ItemsText(items[1..]), "\"");
    Assoc(val, [ItemValue(items[0])], ItemsValue(items[1..]));
  }

  lemma {:induction false} AtItem(str: string, pos: nat, item: StrItem)
    requires At(str, pos, ItemText(item))
    ensures item.Raw? ==> pos < |str| && str[pos] == item.c
    ensures item.Esc? ==> pos + 1 < |str| && str[pos] == '\\' && str[pos + 1] == item.c
  {
    if item.Esc? {
      assert str[pos..pos + 2][0] == '\\' && str[pos..pos + 2][1] == item.c;
    } else {
      assert str[pos..pos + 1][0] == item.c;
    }
  }

  // Leading space is skipped up to the document.
  lemma {:induction false} SkipsToDoc(str: string, pos: nat, ws: string, doc: Doc)
    requires AllSpace(ws) && WellFormed(doc) && At(str, pos, ws + Text(doc))
    ensures var p := pos + |ws|;
            p < |str| && SkipSpaces(str, pos) == p && At(str, p, Text(doc)) && Opens(doc, str[p])
  {
    hide At, Text, Opens, SkipSpaces;
    AtConcat(str, pos, ws, Text(doc));
    TextOpens(doc);
    AtFirst(str, pos + |ws|, Text(doc));
    SkipsExactly(str, pos, ws);
  }

  // The characters that can stand behind an item, after space.
  predicate Punctuation(c: char) {
    c == ',' || c == ':' || c == ']' || c == '}'
  }

  // A document followed by space and punctuation is not carried on.
  lemma {:induction false} BehindItem(str: string, q: nat, ws: string, c: char, doc: Doc)
    requires AllSpace(ws) && Punctuation(c) && At(str, q, ws + [c])
    ensures Ends(doc, str, q)
  {
    hide At;
    AtFirst(str, q, ws + [c]);
  }

  lemma {:induction false} DelimFound(str: string, q: nat, ws: string, c: char)
    requires AllSpace(ws) && Punctuation(c) && At(str, q, ws + [c])
    ensures SkipDelim(str, q, c) == (q + |ws| + 1, true)
  {
    hide At, SkipSpaces;
    AtConcat(str, q, ws, [c]);
    AtFirst(str, q + |ws|, [c]);
    SkipsExactly(str, q, ws);
  }

  lemma {:induction false} DelimMissing(str: string, q: nat, ws: string, c: char, delim: char)
    requires AllSpace(ws) && Punctuation(c) && At(str, q, ws + [c]) && c != delim
    ensures SkipDelim(str, q, delim) == (q + |ws|, false)
    ensures At(str, q + |ws|, [c])
  {
    hide At, SkipSpaces;
    AtConcat(str, q, ws, [c]);
    AtFirst(str, q + |ws|, [c]);
    SkipsExactly(str, q, ws);
  }

  lemma {:induction false} ClosesAt(str: string, pos: nat, close: string, c: char)
    requires AllSpace(close) && (c == ']' || c == '}') && At(str, pos, close + [c])
    ensures Parse(str, pos, Some(c)) == Ok(Closed(pos + |close| + 1))
  {
    hide At, SkipSpaces;
    AtConcat(str, pos, close, [c]);
    AtFirst(str, pos + |close|, [c]);
    SkipsExactly(str, pos, close);
  }

  lemma {:induction false} AtThree(str: string, pos: nat, a: string, b: string, c: string)
    ensures At(str, pos, a + (b + c)) <==> At(str, pos, a + b) && At(str, pos + |a| + |b|, c)
  {
    hide At;
    assert a + (b + c) == (a + b) + c;
    AtConcat(str, pos, a + b, c);
  }

  // The parts of an item of an array, before the text `rest`.
  lemma {:induction false} ElemParts(str: string, pos: nat, e: Elem, rest: string)
    ensures var q := pos + |e.before| + |Text(e.doc)|;
            && (At(str, pos, ElemText(e) + rest) <==>
                 At(str, pos, e.before + Text(e.doc)) && At(str, q, e.after + Comma(e.comma))
                 && At(str, q + |e.after| + |Comma(e.comma)|, rest))
            && pos + |ElemText(e)| == q + |e.after| + |Comma(e.comma)|
  {
    hide At, Text, Comma;
    AtConcat(str, pos, ElemText(e), rest);
    AtThree(str, pos, e.before, Text(e.doc), e.after + Comma(e.comma));
  }

  lemma {:induction false} MemberParts(str: string, pos: nat, m: Member, rest: string)
    ensures var q := pos + |m.before| + |Text(m.key)|;
            var r := q + |m.gap| + 1;
            var t := r + |m.space| + |Text(m.doc)|;
            && (At(str, pos, MemberText(m) + rest) <==>
                 At(str, pos, m.before + Text(m.key)) && At(str, q, m.gap + ":")
                 && At(str, r, m.space + Text(m.doc)) && At(str, t, m.after + Comma(m.comma))
                 && At(str, t + |m.after| + |Comma(m.comma)|, rest))
            && pos + |MemberText(m)| == t + |m.after| + |Comma(m.comma)|
  {
    hide At, Text, Comma;
    var q := pos + |m.before| + |Text(m.key)|;
    var tail := m.space + (Text(m.doc) + (m.after + Comma(m.comma)));
    AtConcat(str, pos, MemberText(m), rest);
    AtThree(str, pos, m.before, Text(m.key), m.gap + (":" + tail));
    AtThree(str, q, m.gap, ":", tail);
    AtThree(str, q + |m.gap| + 1, m.space, Text(m.doc), m.after + Comma(m.comma));
  }

  // The first character selects the branch of the parser.
  lemma {:induction false} Dispatch(str: string, pos: nat, ws: string, doc: Doc, closer: Option<char>)
    requires Closer(closer) && AllSpace(ws) && WellFormed(doc) && At(str, pos, ws + Text(doc))
    ensures var p := pos + |ws|;
            && p < |str| && At(str, p, Text(doc))
            && Parse(str, pos, closer) == match doc
                 case StrDoc(_) => ParseString(str, p + 1, "")
                 case NumDoc(_) => ParseNumber(str, p)
                 case BoolDoc(_) => ParseLiteral(str, p)
                 case NullDoc => ParseLiteral(str, p)
                 case ArrDoc(_, _) => ParseElements(str, p + 1, [], true)
                 case ObjDoc(_, _) => ParseMembers(str, p + 1, EMPTY, true)
  {
    hide SkipSpaces, At, Text, WellFormed, ParseString, ParseNumber, ParseLiteral, ParseElements, ParseMembers;
    SkipsToDoc(str, pos, ws, doc);
    AtNonEmpty(str, pos, ws, doc);
  }

  lemma {:induction false} AtNonEmpty(str: string, pos: nat, ws: string, doc: Doc)
    requires WellFormed(doc) && At(str, pos, ws + Text(doc))
    ensures pos < |str|
  {
    TextOpens(doc);
  }

  lemma {:induction false} Complete(str: string, pos: nat, ws: string, doc: Doc, closer: Option<char>)
    requires Closer(closer) && AllSpace(ws) && WellFormed(doc)
    requires At(str, pos, ws + Text(doc)) && Ends(doc, str, pos + |ws| + |Text(doc)|)
    ensures Parse(str, pos, closer) == Ok(Item(Meaning(doc), pos + |ws| + |Text(doc)|))
    decreases doc
  {
    hide At, Parse, ParseString, ParseLiteral, ParseElements, ParseMembers,
         ItemsText, MembersText, ElemsText, ElemValues, MembersTable, ArrayTable, Scan, Valid, NumberEnds, TokText;
    Dispatch(str, pos, ws, doc, closer);
    var p := pos + |ws|;
    match doc
    case StrDoc(items) =>
      AtConcat(str, p, "\"", ItemsText(items) + "\"");
      StringComplete(str, p + 1, items, "");
      assert "" + ItemsValue(items) == ItemsValue(items);
    case NumDoc(tok) =>
      ScanComplete(str, p, tok);
    case BoolDoc(b) =>
      LiteralComplete(str, p, Text(doc));
    case NullDoc =>
      LiteralComplete(str, p, Text(doc));
    case ArrDoc(elems, close) =>
      AtConcat(str, p, "[", ElemsText(elems) + (close + "]"));
      ElementsComplete(str, p + 1, elems, close, [], true);
      assert [] + ElemValues(elems) == ElemValues(elems);
    case ObjDoc(members, close) =>
      AtConcat(str, p, "{", MembersText(members) + (close + "}"));
      MembersComplete(str, p + 1, members, close, EMPTY, true);
      OverEmpty(MembersTable(members));
  }

  lemma {:induction false} OverEmpty(obj: Value)
    requires obj.Table?
    ensures Over(EMPTY, obj) == obj && Over(obj, EMPTY) == obj
  {
    assert map[] + obj.fields == obj.fields == obj.fields + map[];
    assert [] + obj.refs == obj.refs == obj.refs + [];
  }

  lemma {:induction false} LiteralComplete(str: string, p: nat, t: string)
    requires At(str, p, t) && (t == "true" || t == "false" || t == "null")
    ensures ParseLiteral(str, p)
         == Ok(Item(if t == "null" then Null else Bool(t == "true"), p + |t|))
  {
    hide At;
    AtFirst(str, p, t);
    if At(str, p, "true") {
      AtFirst(str, p, "true");
    }
    if At(str, p, "false") {
      AtFirst(str, p, "false");
    }
  }

  // One turn of each loop.
  lemma {:induction false} ElementsStep(str: string, pos: nat, items: seq<Value>, v: Value, q: nat, next: nat, more: bool)
    requires q <= |str| && Parse(str, pos, Some(']')) == Ok(Item(v, q)) && SkipDelim(str, q, ',') == (next, more)
    ensures ParseElements(str, pos, items, true) == ParseElements(str, next, items + [v], more)
  {
    hide Parse, SkipDelim;
  }

  lemma {:induction false} ElementsClose(str: string, pos: nat, items: seq<Value>, delimFound: bool, end: nat)
    requires Parse(str, pos, Some(']')) == Ok(Closed(end))
    ensures ParseElements(str, pos, items, delimFound) == Ok(Item(ArrayTable(items), end))
  {
    hide Parse, ArrayTable;
  }

  lemma {:induction false} MembersStep(str: string, pos: nat, obj: Value, key: Value, q: nat, r: nat, v: Value, t: nat, next: nat, more: bool)
    requires obj.Table? && q <= |str| && t <= |str|
    requires Parse(str, pos, Some('}')) == Ok(Item(key, q)) && SkipDelim(str, q, ':') == (r, true)
    requires Parse(str, r, None) == Ok(Item(v, t)) && SkipDelim(str, t, ',') == (next, more)
    ensures ParseMembers(str, pos, obj, true) == ParseMembers(str, next, Put(obj, key, v), more)
  {
    hide Parse, SkipDelim, Put;
  }

  lemma {:induction false} MembersClose(str: string, pos: nat, obj: Value, delimFound: bool, end: nat)
    requires obj.Table? && Parse(str, pos, Some('}')) == Ok(Closed(end))
    ensures ParseMembers(str, pos, obj, delimFound) == Ok(Item(obj, end))
  {
    hide Parse;
  }

  lemma {:induction false} ElementsComplete(str: string, pos: nat, elems: seq<Elem>, close: string, items: seq<Value>, delimFound: bool)
    requires ElemsOk(elems) && AllSpace(close) && (elems != [] ==> delimFound)
    requires At(str, pos, ElemsText(elems) + (close + "]"))
    ensures ParseElements(str, pos, items, delimFound)
         == Ok(Item(ArrayTable(items + ElemValues(elems)), pos + |ElemsText(elems)| + |close| + 1))
    decreases elems
  {
    hide At, Text, SkipDelim, ArrayTable, Parse, ParseElements, Meaning, ElemValues, ElemText, AllSpace;
    if elems == [] {
      assert "" + (close + "]") == close + "]";
      ElemValuesNone(items);
      ClosesAt(str, pos, close, ']');
      ElementsClose(str, pos, items, delimFound, pos + |close| + 1);
    } else {
      var e, rest := elems[0], elems[1..];
      var more := ElemsText(rest) + (close + "]");
      assert ElemsText(elems) + (close + "]") == ElemText(e) + more;
      ElemParts(str, pos, e, more);
      var q := pos + |e.before| + |Text(e.doc)|;
      var v := Meaning(e.doc);
      ElemValuesStep(items, elems);
      if e.comma {
        BehindItem(str, q, e.after, ',', e.doc);
        Complete(str, pos, e.before, e.doc, Some(']'));
        DelimFound(str, q, e.after, ',');
        ElementsStep(str, pos, items, v, q, q + |e.after| + 1, true);
        ElementsComplete(str, q + |e.after| + 1, rest, close, items + [v], true);
      } else {
        LastItem(str, q, e.after, close, ']');
        BehindItem(str, q, e.after + close, ']', e.doc);
        Complete(str, pos, e.before, e.doc, Some(']'));
        DelimMissing(str, q, e.after + close, ']', ',');
        ElementsStep(str, pos, items, v, q, q + |e.after| + |close|, false);
        NoSpace(']');
        ElementsComplete(str, q + |e.after| + |close|, [], "", items + [v], false);
      }
    }
  }

  lemma {:induction false} ElemValuesNone(items: seq<Value>)
    ensures items + ElemValues([]) == items
  {}

  lemma {:induction false} ElemValuesStep(items: seq<Value>, elems: seq<Elem>)
    requires ElemsOk(elems) && elems != []
    ensures items + ElemValues(elems) == items + [Meaning(elems[0].doc)] + ElemValues(elems[1..])
  {
    hide Meaning;
  }

  lemma {:induction false} NoSpace(c: char)
    ensures AllSpace("") && "" + ("" + [c]) == [c]
  {}

  lemma {:induction false} LastItem(str: string, q: nat, after: string, close: string, c: char)
    requires AllSpace(after) && AllSpace(close)
    requires At(str, q, after + Comma(false)) && At(str, q + |after|, "" + (close + [c]))
    ensures AllSpace(after + close) && At(str, q, after + close + [c])
  {
    hide At;
    assert after + Comma(false) == after && "" + (close + [c]) == close + [c];
    AtConcat(str, q, after, close + [c]);
    assert after + (close + [c]) == after + close + [c];
  }

  lemma {:induction false} MembersComplete(str: string, pos: nat, members: seq<Member>, close: string, obj: Value, delimFound: bool)
    requires obj.Table? && MembersOk(members) && AllSpace(close) && (members != [] ==> delimFound)
    requires At(str, pos, MembersText(members) + (close + "}"))
    ensures ParseMembers(str, pos, obj, delimFound)
         == Ok(Item(Over(obj, MembersTable(members)), pos + |MembersText(members)| + |close| + 1))
    decreases members
  {
    hide At, Text, SkipDelim, Parse, ParseMembers, Meaning, Put, Over;
    if members == [] {
      assert "" + (close + "}") == close + "}";
      OverEmpty(obj);
      ClosesAt(str, pos, close, '}');
      MembersClose(str, pos, obj, delimFound, pos + |close| + 1);
    } else {
      var m, rest := members[0], members[1..];
      var more := MembersText(rest) + (close + "}");
      assert MembersText(members) + (close + "}") == MemberText(m) + more;
      MemberParts(str, pos, m, more);
      var q := pos + |m.before| + |Text(m.key)|;
      var r := q + |m.gap| + 1;
      var t := r + |m.space| + |Text(m.doc)|;
      BehindItem(str, q, m.gap, ':', m.key);
      Complete(str, pos, m.before, m.key, Some('}'));
      DelimFound(str, q, m.gap, ':');
      var next := Put(obj, Meaning(m.key), Meaning(m.doc));
      PutThenOver(obj, Meaning(m.key), Meaning(m.doc), MembersTable(rest));
      if m.comma {
        BehindItem(str, t, m.after, ',', m.doc);
        Complete(str, r, m.space, m.doc, None);
        DelimFound(str, t, m.after, ',');
        MembersStep(str, pos, obj, Meaning(m.key), q, r, Meaning(m.doc), t, t + |m.after| + 1, true);
        MembersComplete(str, t + |m.after| + 1, rest, close, next, true);
      } else {
        LastItem(str, t, m.after, close, '}');
        BehindItem(str, t, m.after + close, '}', m.doc);
        Complete(str, r, m.space, m.doc, None);
        DelimMissing(str, t, m.after + close, '}', ',');
        MembersStep(str, pos, obj, Meaning(m.key), q, r, Meaning(m.doc), t, t + |m.after| + |close|, false);
        NoSpace('}');
        MembersComplete(str, t + |m.after| + |close|, [], "", next, false);
      }
    }
  }

  // ---------------------------------------------------------------------------
  // Whatever is parsed was a document

  // From pos to end stands a document behind leading space, and it means v.
  ghost predicate Spelled(str: string, pos: nat, ws: string, doc: Doc, v: Value, end: nat) {
    && AllSpace(ws) && WellFormed(doc) && At(str, pos, ws + Text(doc))
    && end == pos + |ws| + |Text(doc)| && Ends(doc, str, end)
    && Meaning(doc) == v
  }

  lemma {:induction false} StringSound(str: string, pos: nat, val: string) returns (items: seq<StrItem>)
    requires ParseString(str, pos, val).Ok?
    ensures forall i :: 0 <= i < |items| ==> ItemOk(items[i])
    ensures At(str, pos, ItemsText(items) + "\"")
    ensures ParseString(str, pos, val) == Ok(Item(Str(val + ItemsValue(items)), pos + |ItemsText(items)| + 1))
    decreases |str| - pos
  {
    if str[pos] == '"' {
      items := [];
      assert val + "" == val;
    } else {
      hide Unescape;
      var item := if str[pos] == '\\' then Esc(str[pos + 1]) else Raw(str[pos]);
      var rest := StringSound(str, pos + |ItemText(item)|, val + [ItemValue(item)]);
      items := [item] + rest;
      StringFront(item, rest, val);
      AtConcat(str, pos, ItemText(item), ItemsText(rest) + "\"");
      assert ItemsText(items) + "\"" == ItemText(item) + (ItemsText(rest) + "\"");
    }
  }

  lemma {:induction false} StringFront(item: StrItem, rest: seq<StrItem>, val: string)
    ensures ItemsText([item] + rest) == ItemText(item) + ItemsText(rest)
    ensures val + [ItemValue(item)] + ItemsValue(rest) == val + ItemsValue([item] + rest)
  {
    assert ([item] + rest)[1..] == rest;
  }

  lemma {:induction false} LiteralSound(str: string, p: nat) returns (doc: Doc)
    requires ParseLiteral(str, p).Ok?
    ensures Spelled(str, p, "", doc, ParseLiteral(str, p).value.v, ParseLiteral(str, p).value.pos)
  {
    doc := if At(str, p, "true") then BoolDoc(true) else if At(str, p, "false") then BoolDoc(false) else NullDoc;
    assert "" + Text(doc) == Text(doc);
  }

  lemma {:induction false} NumberSound(str: string, p: nat) returns (doc: Doc)
    requires p <= |str| && ParseNumber(str, p).Ok?
    ensures Spelled(str, p, "", doc, ParseNumber(str, p).value.v, ParseNumber(str, p).value.pos)
  {
    hide Scan, Valid, TokText, NumberEnds, At;
    ScanSound(str, p);
    doc := NumDoc(Scan(str, p).value);
    assert "" + Text(doc) == Text(doc);
  }

  // The delimiter that was found, or the space in front of a missing one.
  lemma {:induction false} DelimSound(str: string, q: nat, delim: char) returns (ws: string)
    requires q <= |str|
    ensures AllSpace(ws)
    ensures var (next, found) := SkipDelim(str, q, delim);
            && At(str, q, ws + if found then [delim] else "")
            && next == q + |ws| + (if found then 1 else 0)
  {
    var p := SkipSpaces(str, q);
    ws := str[q..p];
    assert ws + "" == ws;
    if p < |str| && str[p] == delim {
      assert str[q..p + 1] == ws + [delim];
    }
  }

  lemma {:induction false} ClosedSound(str: string, pos: nat, c: char) returns (close: string)
    requires Parse(str, pos, Some(c)).Ok? && Parse(str, pos, Some(c)).value.Closed?
    ensures AllSpace(close) && At(str, pos, close + [c])
    ensures Parse(str, pos, Some(c)).value.pos == pos + |close| + 1
  {
    var p := SkipSpaces(str, pos);
    close := str[pos..p];
    assert str[pos..p + 1] == close + [c];
  }

  // Space in front of a document.
  lemma {:induction false} SpelledBehind(str: string, pos: nat, p: nat, doc: Doc, v: Value, end: nat)
    requires pos <= p <= |str| && AllSpace(str[pos..p]) && Spelled(str, p, "", doc, v, end)
    ensures Spelled(str, pos, str[pos..p], doc, v, end)
  {
    hide AllSpace, WellFormed, Text, At, Ends, Meaning;
    assert "" + Text(doc) == Text(doc);
    AtSlice(str, pos, p);
    AtConcat(str, pos, str[pos..p], Text(doc));
  }

  lemma {:induction false} Sound(str: string, pos: nat, closer: Option<char>) returns (ws: string, doc: Doc)
    requires Parse(str, pos, closer).Ok? && Parse(str, pos, closer).value.Item?
    ensures Spelled(str, pos, ws, doc, Parse(str, pos, closer).value.v, Parse(str, pos, closer).value.pos)
    decreases Left(str, pos), 0
  {
    hide ParseString, ParseNumber, ParseLiteral, ParseMembers, ParseElements, At,
         ItemsText, MembersText, ElemsText, ItemsValue, ElemValues, MembersTable, ArrayTable;
    var result := Parse(str, pos, closer).value;
    var p := SkipSpaces(str, pos);
    ws := str[pos..p];
    if str[p] == '{' {
      var members, close := MembersSound(str, p + 1, EMPTY, true);
      doc := ObjDoc(members, close);
      BracketSound(str, p, '{', MembersText(members) + (close + "}"));
      OverEmpty(MembersTable(members));
    } else if str[p] == '[' {
      var elems, close := ElementsSound(str, p + 1, [], true);
      doc := ArrDoc(elems, close);
      BracketSound(str, p, '[', ElemsText(elems) + (close + "]"));
      assert [] + ElemValues(elems) == ElemValues(elems);
    } else if str[p] == '"' {
      var items := StringSound(str, p + 1, "");
      doc := StrDoc(items);
      BracketSound(str, p, '"', ItemsText(items) + "\"");
      assert "" + ItemsValue(items) == ItemsValue(items);
    } else if str[p] == '-' || IsDigit(str[p]) {
      doc := NumberSound(str, p);
    } else {
      doc := LiteralSound(str, p);
    }
    assert Spelled(str, p, "", doc, result.v, result.pos);
    SpelledBehind(str, pos, p, doc, result.v, result.pos);
  }

  lemma {:induction false} BracketSound(str: string, p: nat, open: char, rest: string)
    requires p < |str| && str[p] == open && At(str, p + 1, rest)
    ensures At(str, p, "" + ([open] + rest))
  {
    AtConcat(str, p, [open], rest);
    assert "" + ([open] + rest) == [open] + rest;
  }

  // One turn of each loop, for a run that succeeds.
  lemma {:induction false} ElementsTurn(str: string, pos: nat, items: seq<Value>, delimFound: bool)
    requires ParseElements(str, pos, items, delimFound).Ok?
    ensures Parse(str, pos, Some(']')).Ok?
    ensures var val := Parse(str, pos, Some(']')).value;
            if val.Closed? then ParseElements(str, pos, items, delimFound) == Ok(Item(ArrayTable(items), val.pos))
            else
              var (next, more) := SkipDelim(str, val.pos, ',');
              && delimFound && pos < next <= |str|
              && ParseElements(str, pos, items, delimFound) == ParseElements(str, next, items + [val.v], more)
  {
    hide Parse, SkipDelim, ArrayTable;
  }

  lemma {:induction false} MembersTurn(str: string, pos: nat, obj: Value, delimFound: bool)
    requires obj.Table? && ParseMembers(str, pos, obj, delimFound).Ok?
    ensures Parse(str, pos, Some('}')).Ok?
    ensures var key := Parse(str, pos, Some('}')).value;
            if key.Closed? then ParseMembers(str, pos, obj, delimFound) == Ok(Item(obj, key.pos))
            else
              var (r, found) := SkipDelim(str, key.pos, ':');
              && delimFound && found && pos < r <= |str| && Parse(str, r, None).Ok?
              && var val := Parse(str, r, None).value;
                 var (next, more) := SkipDelim(str, val.pos, ',');
                 && r < next <= |str|
                 && ParseMembers(str, pos, obj, delimFound) == ParseMembers(str, next, Put(obj, key.v, val.v), more)
  {
    hide Parse, SkipDelim, Put;
  }

  lemma {:induction false} ElementsSound(str: string, pos: nat, items: seq<Value>, delimFound: bool) returns (elems: seq<Elem>, close: string)
    requires ParseElements(str, pos, items, delimFound).Ok?
    ensures ElemsOk(elems) && AllSpace(close) && (elems != [] ==> delimFound)
    ensures At(str, pos, ElemsText(elems) + (close + "]"))
    ensures ParseElements(str, pos, items, delimFound)
         == Ok(Item(ArrayTable(items + ElemValues(elems)), pos + |ElemsText(elems)| + |close| + 1))
    decreases Left(str, pos), 1
  {
    hide Parse, ParseElements, SkipDelim, At, Text, AllSpace, WellFormed, Meaning, ArrayTable, Ends;
    ElementsTurn(str, pos, items, delimFound);
    var val := Parse(str, pos, Some(']')).value;
    if val.Closed? {
      elems := [];
      close := ClosedSound(str, pos, ']');
      assert "" + (close + "]") == close + "]";
      ElemValuesNone(items);
    } else {
      hide ElemsText, ElemText, ElemValues, ElemsOk;
      var before, doc := Sound(str, pos, Some(']'));
      var (next, more) := SkipDelim(str, val.pos, ',');
      var after := DelimSound(str, val.pos, ',');
      var rest;
      rest, close := ElementsSound(str, next, items + [val.v], more);
      var e := Elem(before, doc, after, more);
      elems := [e] + rest;
      ElemsFront(e, rest);
      ElemValuesStep(items, elems);
      assert elems[1..] == rest;
      ElemParts(str, pos, e, ElemsText(rest) + (close + "]"));
      assert ElemsText(elems) + (close + "]") == ElemText(e) + (ElemsText(rest) + (close + "]"));
    }
  }

  lemma {:induction false} ElemsFront(e: Elem, rest: seq<Elem>)
    requires ElemsOk(rest) && AllSpace(e.before) && WellFormed(e.doc) && AllSpace(e.after) && (rest != [] ==> e.comma)
    ensures ElemsOk([e] + rest)
    ensures ElemsText([e] + rest) == ElemText(e) + ElemsText(rest)
  {
    hide AllSpace, WellFormed, ElemText;
    assert ([e] + rest)[1..] == rest;
  }

  lemma {:induction false} MembersSound(str: string, pos: nat, obj: Value, delimFound: bool) returns (members: seq<Member>, close: string)
    requires obj.Table? && ParseMembers(str, pos, obj, delimFound).Ok?
    ensures MembersOk(members) && AllSpace(close) && (members != [] ==> delimFound)
    ensures At(str, pos, MembersText(members) + (close + "}"))
    ensures ParseMembers(str, pos, obj, delimFound)
         == Ok(Item(Over(obj, MembersTable(members)), pos + |MembersText(members)| + |close| + 1))
    decreases Left(str, pos), 1
  {
    hide Parse, ParseMembers, SkipDelim, At, Text, AllSpace, WellFormed, Meaning, Put, Over, Ends;
    MembersTurn(str, pos, obj, delimFound);
    var key := Parse(str, pos, Some('}')).value;
    if key.Closed? {
      members := [];
      close := ClosedSound(str, pos, '}');
      assert "" + (close + "}") == close + "}";
      OverEmpty(obj);
    } else {
      hide MembersText, MemberText, MembersTable, MembersOk;
      var before, keyDoc := Sound(str, pos, Some('}'));
      var gap := DelimSound(str, key.pos, ':');
      var r := SkipDelim(str, key.pos, ':').0;
      var val := Parse(str, r, None).value;
      var space, doc := Sound(str, r, None);
      var (next, more) := SkipDelim(str, val.pos, ',');
      var after := DelimSound(str, val.pos, ',');
      var rest;
      rest, close := MembersSound(str, next, Put(obj, key.v, val.v), more);
      var m := Member(before, keyDoc, gap, space, doc, after, more);
      members := [m] + rest;
      MembersFront(m, rest);
      PutThenOver(obj, key.v, val.v, MembersTable(rest));
      MemberParts(str, pos, m, MembersText(rest) + (close + "}"));
      assert MembersText(members) + (close + "}") == MemberText(m) + (MembersText(rest) + (close + "}"));
    }
  }

  lemma {:induction false} MembersFront(m: Member, rest: seq<Member>)
    requires MembersOk(rest) && AllSpace(m.before) && WellFormed(m.key) && AllSpace(m.gap) && AllSpace(m.space)
    requires WellFormed(m.doc) && AllSpace(m.after) && (rest != [] ==> m.comma)
    ensures MembersOk([m] + rest)
    ensures MembersText([m] + rest) == MemberText(m) + MembersText(rest)
    ensures MembersTable([m] + rest) == Over(Put(EMPTY, Meaning(m.key), Meaning(m.doc)), MembersTable(rest))
  {
    hide AllSpace, WellFormed, MemberText, Put, Over, Meaning;
    assert ([m] + rest)[1..] == rest;
  }
}
