/** kind_of and json_stringify of tests/fixtures/lua/json.lua, and the round trip with the parser. */
module JsonPrinter {
  import opened Wrappers
  import opened LuaText
  import opened JsonNumber
  import opened Json
  import opened JsonGrammar
  import opened JsonEscape

  /** How the host writes a number: tostring. It may round, but it writes a number. */
  type Format = real -> NumTok

  ghost predicate WritesNumbers(fmt: Format) {
    forall r :: Valid(fmt(r))
  }

  // ---------------------------------------------------------------------------
  // kind_of

  function IndexKeys(n: nat): (keys: set<Key>) {
    set i: nat | 1 <= i <= n :: Index(i)
  }

  // Array tables have exactly the keys 1 to n, for an n of at least 1.
  predicate IsArray(fields: map<Key, Value>, refs: seq<(Value, Value)>) {
    refs == [] && fields != map[] && fields.Keys == IndexKeys(|fields|)
  }

  lemma {:induction false} IndexKeysCount(n: nat)
    ensures |IndexKeys(n)| == n
  {
    if n > 0 {
      IndexKeysCount(n - 1);
      assert Index(n) !in IndexKeys(n - 1);
      assert IndexKeys(n) == IndexKeys(n - 1) + {Index(n)};
    }
  }

  lemma {:induction false} SubsetCount<T>(a: set<T>, b: set<T>)
    requires a <= b
    ensures |a| <= |b|
    ensures |a| == |b| ==> a == b
  {
    if x :| x in a {
      SubsetCount(a - {x}, b - {x});
    } else if y :| y in b {
      assert |b| == |b - {y}| + 1;
    }
  }

  lemma {:induction false} MissingIndex(fields: map<Key, Value>, refs: seq<(Value, Value)>, i: nat)
    requires 1 <= i <= |fields| + |refs| && Index(i) !in fields
    ensures !IsArray(fields, refs)
  {
    assert refs == [] ==> Index(i) in IndexKeys(|fields|);
  }

  // kind_of on a table: as many turns as pairs makes, whatever the keys that it hands out.
  method KindOf(fields: map<Key, Value>, refs: seq<(Value, Value)>) returns (isArray: bool)
    ensures isArray <==> IsArray(fields, refs)
    ensures isArray <==> refs == [] && exists n: nat :: n >= 1 && fields.Keys == IndexKeys(n)
  {
    var i := 1;
    ArrayCount(fields, refs);
    assert |fields.Keys| == |fields|;
    for turn := 0 to |fields| + |refs|
      invariant i == turn + 1
      invariant forall j: nat :: 1 <= j <= turn ==> Index(j) in fields
    {
      if Index(i) in fields {
        i := i + 1;
      } else {
        MissingIndex(fields, refs, i);
        return false;
      }
    }
    isArray := i != 1;
    var n := |fields| + |refs|;
    assert IndexKeys(n) <= fields.Keys;
    IndexKeysCount(n);
    SubsetCount(IndexKeys(n), fields.Keys);
  }

  lemma {:induction false} ArrayCount(fields: map<Key, Value>, refs: seq<(Value, Value)>)
    ensures IsArray(fields, refs) <==> refs == [] && exists n: nat :: n >= 1 && fields.Keys == IndexKeys(n)
  {
    if n: nat :| n >= 1 && fields.Keys == IndexKeys(n) {
      IndexKeysCount(n);
      assert |fields.Keys| == |fields|;
    }
    if IsArray(fields, refs) {
      assert |fields| >= 1 && fields.Keys == IndexKeys(|fields|);
    }
  }

  // ---------------------------------------------------------------------------
  // What is printed: a value with the order in which pairs hands out the keys of each table

  datatype Walk =
    | Leaf(v: Value)
    | Items(walks: seq<Walk>)
    | Entries(entries: seq<Entry>)

  datatype Entry = Entry(key: Key, walk: Walk)

  function WalkValue(w: Walk): Value
    decreases w
  {
    match w
    case Leaf(v) => v
    case Items(walks) => ArrayTable(WalkValues(walks))
    case Entries(entries) => Table(EntryFields(entries), [])
  }

  function WalkValues(walks: seq<Walk>): (vs: seq<Value>)
    ensures |vs| == |walks|
    ensures forall i :: 0 <= i < |vs| ==> vs[i] == WalkValue(walks[i])
    decreases walks
  {
    if walks == [] then [] else [WalkValue(walks[0])] + WalkValues(walks[1..])
  }

  function EntryFields(entries: seq<Entry>): (fields: map<Key, Value>)
    ensures forall k :: k in fields ==> exists i :: 0 <= i < |entries| && k == entries[i].key
    decreases entries
  {
    if entries == [] then map[]
    else
      var e := entries[0];
      assert e in entries && e.walk < e;
      EntryFields(entries[1..])[e.key := WalkValue(e.walk)]
  }

  // The order of a table names every key once; json.null is no key that can be printed.
  ghost predicate Distinct(entries: seq<Entry>) {
    forall i, j :: 0 <= i < j < |entries| ==> entries[i].key != entries[j].key
  }

  ghost predicate ValidWalk(w: Walk)
    decreases w
  {
    match w
    case Leaf(v) => !v.Table?
    case Items(walks) => walks != [] && forall i :: 0 <= i < |walks| ==> ValidWalk(walks[i])
    case Entries(entries) =>
      && Distinct(entries) && !IsArray(EntryFields(entries), [])
      && forall i :: 0 <= i < |entries| ==> entries[i].key != KNull && ValidWalk(entries[i].walk)
  }

  // Tables that json_stringify can print: the keys of objects are no tables.
  ghost predicate Printable(v: Value)
    decreases v
  {
    v.Table? ==>
      && (IsArray(v.fields, v.refs) || (v.refs == [] && KNull !in v.fields))
      && forall k :: k in v.fields ==> Printable(v.fields[k])
  }

  // ---------------------------------------------------------------------------
  // The printed text, as a document

  function KeyDoc(key: Key, fmt: Format): Doc {
    match key
    case KStr(s) => StrDoc(EscapeItems(s))
    case KNum(n) => StrDoc(RawItems(TokText(fmt(n))))
    case KBool(b) => BoolDoc(b)
    case KNull => NullDoc
  }

  function RawItems(s: string): (items: seq<StrItem>)
    ensures |items| == |s| && forall i :: 0 <= i < |s| ==> items[i] == Raw(s[i])
  {
    seq(|s|, i requires 0 <= i < |s| => Raw(s[i]))
  }

  function WalkDoc(w: Walk, fmt: Format): Doc
    decreases w
  {
    match w
    case Leaf(Str(s)) => StrDoc(EscapeItems(s))
    case Leaf(Num(n)) => NumDoc(fmt(n))
    case Leaf(Bool(b)) => BoolDoc(b)
    case Leaf(_) => ObjDoc([], "")
    case Items(walks) => ArrDoc(WalkElems(walks, true, fmt), "")
    case Entries(entries) => ObjDoc(WalkMembers(entries, true, fmt), "")
  }

  // A comma and a space between the items.
  function WalkElems(walks: seq<Walk>, first: bool, fmt: Format): (elems: seq<Elem>)
    ensures |elems| == |walks|
    decreases walks
  {
    if walks == [] then []
    else [Elem(Gap(first), WalkDoc(walks[0], fmt), "", |walks| > 1)] + WalkElems(walks[1..], false, fmt)
  }

  function WalkMembers(entries: seq<Entry>, first: bool, fmt: Format): (members: seq<Member>)
    ensures |members| == |entries|
    decreases entries
  {
    if entries == [] then []
    else
      var e := entries[0];
      assert e in entries && e.walk < e;
      [Member(Gap(first), KeyDoc(e.key, fmt), "", "", WalkDoc(e.walk, fmt), "", |entries| > 1)]
      + WalkMembers(entries[1..], false, fmt)
  }

  function Gap(first: bool): string {
    if first then "" else " "
  }

  // table.concat of the items with ', ' between them
  function Join(cells: seq<string>): string {
    if cells == [] then ""
    else if |cells| == 1 then cells[0]
    else Join(cells[..|cells| - 1]) + ", " + cells[|cells| - 1]
  }

  function WalkText(w: Walk, fmt: Format): string {
    Text(WalkDoc(w, fmt))
  }

  function EntryText(e: Entry, fmt: Format): string {
    Text(KeyDoc(e.key, fmt)) + ":" + WalkText(e.walk, fmt)
  }

  function WalkTexts(walks: seq<Walk>, fmt: Format): (cells: seq<string>)
    ensures |cells| == |walks|
  {
    if walks == [] then [] else [WalkText(walks[0], fmt)] + WalkTexts(walks[1..], fmt)
  }

  function EntryTexts(entries: seq<Entry>, fmt: Format): (cells: seq<string>)
    ensures |cells| == |entries|
  {
    if entries == [] then [] else [EntryText(entries[0], fmt)] + EntryTexts(entries[1..], fmt)
  }

  lemma {:induction false} JoinSnoc(cells: seq<string>, cell: string)
    ensures Join(cells + [cell]) == (if cells == [] then "" else Join(cells) + ", ") + cell
  {
    assert (cells + [cell])[..|cells|] == cells;
  }

  lemma {:induction false} JoinFront(cell: string, cells: seq<string>)
    ensures Join([cell] + cells) == cell + (if cells == [] then "" else ", " + Join(cells))
  {
    if cells == [] {
      assert [cell] + cells == [cell] && cell + "" == cell;
    } else {
      hide Join;
      var front, last := cells[..|cells| - 1], cells[|cells| - 1];
      assert cells == front + [last] && [cell] + cells == ([cell] + front) + [last];
      JoinSnoc([cell] + front, last);
      JoinSnoc(front, last);
      JoinFront(cell, front);
      if front == [] {
        assert cell + "" == cell && "" + last == last;
      }
    }
  }

  // An item with its gap and comma, in front of the others.
  lemma {:induction false} JoinStep(gap: string, cell: string, cells: seq<string>, others: string)
    requires others == (if cells == [] then "" else " ") + Join(cells)
    ensures gap + cell + Comma(cells != []) + others == gap + Join([cell] + cells)
  {
    JoinFront(cell, cells);
    hide Join;
    if cells == [] {
      assert others == "" by { JoinNone(); }
      assert gap + cell + "" + "" == gap + cell;
    } else {
      assert "," + others == ", " + Join(cells);
      assert gap + cell + "," + others == gap + (cell + ("," + others));
    }
  }

  lemma {:induction false} JoinNone()
    ensures Join([]) == "" && "" + "" == ""
  {}

  lemma {:induction false} ElemsTextFront(walks: seq<Walk>, first: bool, fmt: Format)
    requires walks != []
    ensures ElemsText(WalkElems(walks, first, fmt))
         == Gap(first) + WalkText(walks[0], fmt) + Comma(|walks| > 1) + ElemsText(WalkElems(walks[1..], false, fmt))
  {
    hide WalkDoc, Gap, Text, Comma;
    var elems := WalkElems(walks, first, fmt);
    var gap, cell, comma := Gap(first), WalkText(walks[0], fmt), Comma(|walks| > 1);
    assert elems[1..] == WalkElems(walks[1..], false, fmt);
    assert ElemText(elems[0]) == gap + (cell + ("" + comma)) == gap + cell + comma;
  }

  lemma {:induction false} ElemsJoin(walks: seq<Walk>, first: bool, fmt: Format)
    ensures ElemsText(WalkElems(walks, first, fmt)) == (if walks == [] then "" else Gap(first)) + Join(WalkTexts(walks, fmt))
  {
    if walks == [] {
      JoinNone();
    } else {
      hide Join, WalkText, ElemsText, WalkElems, Comma;
      var rest := walks[1..];
      ElemsJoin(rest, false, fmt);
      ElemsTextFront(walks, first, fmt);
      JoinStep(Gap(first), WalkText(walks[0], fmt), WalkTexts(rest, fmt), ElemsText(WalkElems(rest, false, fmt)));
    }
  }

  lemma {:induction false} MemberGlue(gap: string, key: string, val: string, comma: string)
    ensures gap + (key + ("" + (":" + ("" + (val + ("" + comma)))))) == gap + (key + ":" + val) + comma
  {
    calc {
      gap + (key + ("" + (":" + ("" + (val + ("" + comma))))));
      { assert "" + comma == comma; assert "" + (val + comma) == val + comma; }
      gap + (key + ("" + (":" + (val + comma))));
      { assert "" + (":" + (val + comma)) == ":" + val + comma; }
      gap + (key + (":" + val + comma));
      { assert key + (":" + val + comma) == key + ":" + val + comma; }
      gap + (key + ":" + val + comma);
      { Assoc(gap, key + ":" + val, comma); }
      gap + (key + ":" + val) + comma;
    }
  }

  lemma {:induction false} MembersTextFront(entries: seq<Entry>, first: bool, fmt: Format)
    requires entries != []
    ensures MembersText(WalkMembers(entries, first, fmt))
         == Gap(first) + EntryText(entries[0], fmt) + Comma(|entries| > 1) + MembersText(WalkMembers(entries[1..], false, fmt))
  {
    hide WalkDoc, KeyDoc, Gap, Text, Comma;
    var members := WalkMembers(entries, first, fmt);
    var gap, comma := Gap(first), Comma(|entries| > 1);
    var key, val := Text(KeyDoc(entries[0].key, fmt)), WalkText(entries[0].walk, fmt);
    assert members[1..] == WalkMembers(entries[1..], false, fmt);
    assert MemberText(members[0]) == gap + (key + ("" + (":" + ("" + (val + ("" + comma))))));
    MemberGlue(gap, key, val, comma);
  }

  lemma {:induction false} MembersJoin(entries: seq<Entry>, first: bool, fmt: Format)
    ensures MembersText(WalkMembers(entries, first, fmt)) == (if entries == [] then "" else Gap(first)) + Join(EntryTexts(entries, fmt))
  {
    if entries == [] {
      JoinNone();
    } else {
      hide Join, EntryText, MembersText, WalkMembers, Comma;
      var rest := entries[1..];
      MembersJoin(rest, false, fmt);
      MembersTextFront(entries, first, fmt);
      JoinStep(Gap(first), EntryText(entries[0], fmt), EntryTexts(rest, fmt), MembersText(WalkMembers(rest, false, fmt)));
    }
  }

  // The text of an array or object is what the loops build up.
  lemma {:induction false} ArrayText(walks: seq<Walk>, fmt: Format)
    ensures WalkText(Items(walks), fmt) == "[" + Join(WalkTexts(walks, fmt)) + "]"
  {
    hide Join, WalkElems, ElemsText;
    ElemsJoin(walks, true, fmt);
    assert "" + Join(WalkTexts(walks, fmt)) == Join(WalkTexts(walks, fmt));
    assert "" + "]" == "]";
  }

  lemma {:induction false} ObjectText(entries: seq<Entry>, fmt: Format)
    ensures WalkText(Entries(entries), fmt) == "{" + Join(EntryTexts(entries, fmt)) + "}"
  {
    hide Join, WalkMembers, MembersText;
    MembersJoin(entries, true, fmt);
    assert "" + Join(EntryTexts(entries, fmt)) == Join(EntryTexts(entries, fmt));
    assert "" + "}" == "}";
  }

  lemma {:induction false} WalkTextsSnoc(walks: seq<Walk>, w: Walk, fmt: Format)
    ensures WalkTexts(walks + [w], fmt) == WalkTexts(walks, fmt) + [WalkText(w, fmt)]
  {
    if walks != [] {
      hide WalkText;
      WalkTextsSnoc(walks[1..], w, fmt);
      assert (walks + [w])[1..] == walks[1..] + [w];
    }
  }

  lemma {:induction false} EntryTextsSnoc(entries: seq<Entry>, e: Entry, fmt: Format)
    ensures EntryTexts(entries + [e], fmt) == EntryTexts(entries, fmt) + [EntryText(e, fmt)]
  {
    if entries != [] {
      hide EntryText;
      EntryTextsSnoc(entries[1..], e, fmt);
      assert (entries + [e])[1..] == entries[1..] + [e];
    }
  }

  lemma {:induction false} RawText(s: string)
    ensures ItemsText(RawItems(s)) == s && ItemsValue(RawItems(s)) == s
  {
    if s != "" {
      RawText(s[1..]);
      assert RawItems(s)[1..] == RawItems(s[1..]);
      assert [s[0]] + s[1..] == s;
    }
  }

  // json_stringify(k, true) for a key that is no table
  method KeyString(key: Key, fmt: Format) returns (s: string)
    requires key != KNull
    ensures s == Text(KeyDoc(key, fmt))
  {
    match key
    case KStr(str) =>
      var t := EscapeStr(str);
      EscapeItemsFacts(str);
      s := "\"" + (t + "\"");
    case KNum(n) =>
      RawText(TokText(fmt(n)));
      s := "\"" + (TokText(fmt(n)) + "\"");
    case KBool(b) =>
      s := if b then "true" else "false";
  }

  // ---------------------------------------------------------------------------
  // json_stringify; None stands for the error that a key cannot be encoded

  method JsonStringify(v: Value, fmt: Format) returns (r: Option<string>, ghost walk: Walk)
    requires WritesNumbers(fmt)
    ensures r.Some? <==> Printable(v)
    ensures r.Some? ==> ValidWalk(walk) && WalkValue(walk) == v && r.value == WalkText(walk, fmt)
    decreases v, 1
  {
    walk := Leaf(v);
    match v
    case Str(str) =>
      var t := EscapeStr(str);
      EscapeItemsFacts(str);
      r := Some("\"" + (t + "\""));
    case Num(n) =>
      r := Some(TokText(fmt(n)));
    case Bool(b) =>
      r := Some(if b then "true" else "false");
    case Null =>
      assert "{" + ("" + ("" + "}")) == "{}";
      r := Some("{}");
    case Table(fields, refs) =>
      var isArray := KindOf(fields, refs);
      if isArray {
        r, walk := StringifyArray(v, fmt);
      } else {
        r, walk := StringifyObject(v, fmt);
      }
  }

  lemma {:induction false} ArrayFromItems(fields: map<Key, Value>, items: seq<Value>)
    requires fields.Keys == IndexKeys(|items|)
    requires forall i :: 0 <= i < |items| ==> items[i] == fields[Index(i + 1)]
    ensures ArrayFields(items) == fields
  {
    ArrayFieldsKeys(items);
    hide ArrayFields, Index;
    IndexFacts();
    var a := ArrayFields(items);
    forall k | k in a ensures k in fields && a[k] == fields[k] {
      var i: nat :| 1 <= i <= |items| && k == Index(i);
      assert items[i - 1] == fields[Index(i - 1 + 1)];
    }
    assert forall k :: k in IndexKeys(|items|) ==> k in a;
  }

  ghost predicate PrintedItem(fields: map<Key, Value>, i: nat, w: Walk) {
    Index(i) in fields && Printable(fields[Index(i)]) && ValidWalk(w) && WalkValue(w) == fields[Index(i)]
  }

  ghost predicate PrintedItems(fields: map<Key, Value>, walks: seq<Walk>) {
    forall j :: 0 <= j < |walks| ==> PrintedItem(fields, j + 1, walks[j])
  }

  lemma {:induction false} PrintedItemsSnoc(fields: map<Key, Value>, walks: seq<Walk>, w: Walk)
    requires PrintedItems(fields, walks) && PrintedItem(fields, |walks| + 1, w)
    ensures PrintedItems(fields, walks + [w])
  {
    hide PrintedItem;
    var all := walks + [w];
    forall j | 0 <= j < |all| ensures PrintedItem(fields, j + 1, all[j]) {
      assert all[j] == if j < |walks| then walks[j] else w;
    }
  }

  lemma {:induction false} PrintedArray(v: Value, walks: seq<Walk>)
    requires v.Table? && IsArray(v.fields, v.refs) && |walks| == |v.fields| && PrintedItems(v.fields, walks)
    ensures Printable(v) && ValidWalk(Items(walks)) && WalkValue(Items(walks)) == v
  {
    hide Index;
    forall i | 0 <= i < |walks| ensures WalkValues(walks)[i] == v.fields[Index(i + 1)] && ValidWalk(walks[i]) {
      assert PrintedItem(v.fields, i + 1, walks[i]);
    }
    ArrayFromItems(v.fields, WalkValues(walks));
    forall k | k in v.fields ensures Printable(v.fields[k]) {
      assert k in IndexKeys(|v.fields|);
      var j: nat :| 1 <= j <= |v.fields| && k == Index(j);
      assert PrintedItem(v.fields, (j - 1) + 1, walks[j - 1]);
    }
  }

  method StringifyArray(v: Value, fmt: Format) returns (r: Option<string>, ghost walk: Walk)
    requires WritesNumbers(fmt) && v.Table? && IsArray(v.fields, v.refs)
    ensures r.Some? <==> Printable(v)
    ensures r.Some? ==> ValidWalk(walk) && WalkValue(walk) == v && r.value == WalkText(walk, fmt)
    decreases v, 0
  {
    hide Join, WalkText, WalkTexts, EntryTexts, Index;
    walk := Leaf(v);
    var s := "[";
    var i := 1;
    ghost var walks: seq<Walk> := [];
    IndexFacts();
    EmptyJoin(fmt);
    while Index(i) in v.fields
      invariant 1 <= i <= |v.fields| + 1 && |walks| == i - 1
      invariant PrintedItems(v.fields, walks)
      invariant s == "[" + Join(WalkTexts(walks, fmt))
      decreases |v.fields| + 1 - i
    {
      var item, w := JsonStringify(v.fields[Index(i)], fmt);
      if item.None? {
        return None, walk;
      }
      PrintedItemsSnoc(v.fields, walks, w);
      WalkTextsSnoc(walks, w, fmt);
      JoinSnoc(WalkTexts(walks, fmt), WalkText(w, fmt));
      if i > 1 {
        s := s + ", ";
      }
      s := s + item.value;
      walks := walks + [w];
      i := i + 1;
    }
    walk := Items(walks);
    AllIndexed(v, i);
    PrintedArray(v, walks);
    ArrayText(walks, fmt);
    r := Some(s + "]");
  }

  lemma {:induction false} IndexFacts()
    ensures forall i: nat, n: nat :: Index(i) in IndexKeys(n) <==> 1 <= i <= n
  {}

  lemma {:induction false} EmptyJoin(fmt: Format)
    ensures "[" + Join(WalkTexts([], fmt)) == "["
    ensures "{" + Join(EntryTexts([], fmt)) == "{"
  {}

  lemma {:induction false} AllIndexed(v: Value, i: nat)
    requires v.Table? && IsArray(v.fields, v.refs) && 1 <= i <= |v.fields| + 1 && Index(i) !in v.fields
    ensures i == |v.fields| + 1
    ensures forall k :: k in v.fields ==> exists j: nat :: 1 <= j < i && k == Index(j)
  {
    IndexFacts();
    forall k | k in v.fields ensures exists j: nat :: 1 <= j < i && k == Index(j) {
      assert k in IndexKeys(|v.fields|);
    }
  }

  // What the loop over pairs has printed so far.
  ghost predicate Printed(fields: map<Key, Value>, entries: seq<Entry>, pending: set<Key>) {
    && Distinct(entries)
    && (forall i :: 0 <= i < |entries| ==>
          entries[i].key in fields && entries[i].key !in pending && entries[i].key != KNull
          && ValidWalk(entries[i].walk) && WalkValue(entries[i].walk) == fields[entries[i].key])
    && forall k :: k in fields && k !in pending ==> exists i :: 0 <= i < |entries| && entries[i].key == k
  }

  lemma {:induction false} PrintedSnoc(fields: map<Key, Value>, entries: seq<Entry>, pending: set<Key>, e: Entry)
    requires Printed(fields, entries, pending) && pending <= fields.Keys && e.key in pending && e.key != KNull
    requires ValidWalk(e.walk) && WalkValue(e.walk) == fields[e.key]
    ensures Printed(fields, entries + [e], pending - {e.key})
  {
    var es := entries + [e];
    assert es[|entries|] == e;
    forall k | k in fields && k !in pending - {e.key} ensures exists i :: 0 <= i < |es| && es[i].key == k {
      if k != e.key {
        var i :| 0 <= i < |entries| && entries[i].key == k;
        assert es[i] == entries[i];
      }
    }
  }

  lemma {:induction false} EntryFieldsAt(entries: seq<Entry>, i: nat)
    requires Distinct(entries) && i < |entries|
    ensures entries[i].key in EntryFields(entries)
    ensures EntryFields(entries)[entries[i].key] == WalkValue(entries[i].walk)
  {
    if i > 0 {
      assert entries[i] == entries[1..][i - 1];
      EntryFieldsAt(entries[1..], i - 1);
    }
  }

  lemma {:induction false} PrintedAll(fields: map<Key, Value>, entries: seq<Entry>)
    requires Printed(fields, entries, {})
    ensures EntryFields(entries) == fields
  {
    var got := EntryFields(entries);
    hide EntryFields, WalkValue, ValidWalk;
    forall k | k in got ensures k in fields {
      var i :| 0 <= i < |entries| && k == entries[i].key;
    }
    forall k | k in fields ensures k in got && got[k] == fields[k] {
      var i :| 0 <= i < |entries| && entries[i].key == k;
      EntryFieldsAt(entries, i);
    }
  }

  // pairs hands out the keys in any order, and a key that is a table at any point.
  method StringifyObject(v: Value, fmt: Format) returns (r: Option<string>, ghost walk: Walk)
    requires WritesNumbers(fmt) && v.Table? && !IsArray(v.fields, v.refs)
    ensures r.Some? <==> Printable(v)
    ensures r.Some? ==> ValidWalk(walk) && WalkValue(walk) == v && r.value == WalkText(walk, fmt)
    decreases v, 0
  {
    hide Join, WalkText, EntryText, EntryTexts, EntryFields, WalkTexts, Printed, IsArray;
    walk := Leaf(v);
    var s := "{";
    var fields := v.fields;
    var pending := fields.Keys;
    ghost var entries: seq<Entry> := [];
    EmptyJoin(fmt);
    NothingPrinted(fields);
    while pending != {}
      invariant pending <= fields.Keys
      invariant Printed(fields, entries, pending)
      invariant forall k :: k in fields && k !in pending ==> k != KNull && Printable(fields[k])
      invariant s == "{" + Join(EntryTexts(entries, fmt))
      decreases pending
    {
      var tableKeyNext: bool := *;
      if v.refs != [] && tableKeyNext {
        return None, walk;
      }
      var key :| key in pending;
      if key == KNull {
        return None, walk;
      }
      var keyText := KeyString(key, fmt);
      var item, w := JsonStringify(fields[key], fmt);
      if item.None? {
        return None, walk;
      }
      var e := Entry(key, w);
      EntryTextsSnoc(entries, e, fmt);
      JoinSnoc(EntryTexts(entries, fmt), EntryText(e, fmt));
      EntryTextIs(e, fmt);
      CellsStarted(entries, fmt);
      if |s| > 1 {
        s := s + ", ";
      }
      s := s + (keyText + ":" + item.value);
      PrintedSnoc(fields, entries, pending, e);
      entries := entries + [e];
      pending := pending - {key};
    }
    if v.refs != [] {
      return None, walk;
    }
    walk := Entries(entries);
    PrintedAll(fields, entries);
    PrintedValid(fields, entries);
    ObjectText(entries, fmt);
    r := Some(s + "}");
  }

  lemma {:induction false} NothingPrinted(fields: map<Key, Value>)
    ensures Printed(fields, [], fields.Keys)
  {}

  lemma {:induction false} PrintedValid(fields: map<Key, Value>, entries: seq<Entry>)
    requires Printed(fields, entries, {}) && !IsArray(fields, []) && EntryFields(entries) == fields
    ensures ValidWalk(Entries(entries))
  {}

  lemma {:induction false} EntryTextIs(e: Entry, fmt: Format)
    ensures EntryText(e, fmt) == Text(KeyDoc(e.key, fmt)) + ":" + WalkText(e.walk, fmt)
  {}

  // The buffer holds more than the opening brace exactly when an entry was written.
  lemma {:induction false} CellsStarted(entries: seq<Entry>, fmt: Format)
    ensures Join(EntryTexts(entries, fmt)) != "" <==> entries != []
    ensures EntryTexts(entries, fmt) == [] <==> entries == []
  {
    if entries != [] {
      hide WalkText, KeyDoc, Join;
      JoinFront(EntryText(entries[0], fmt), EntryTexts(entries[1..], fmt));
      assert EntryText(entries[0], fmt) != "";
    }
  }
}
