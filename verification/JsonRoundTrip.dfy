/** What json_stringify prints and json_parse reads back: exactly when it is the same value. */
module JsonRoundTrip {
  import opened Wrappers
  import opened LuaText
  import opened JsonNumber
  import opened Json
  import opened JsonGrammar
  import opened JsonEscape
  import opened JsonPrinter

  /**
   * The values that survive: no json.null, no numeric key outside an array, and no number that
   * the host rounds when it writes it.
   */
  ghost predicate Faithful(v: Value, fmt: Format)
    requires WritesNumbers(fmt)
    decreases v
  {
    match v
    case Str(_) => true
    case Num(n) => NumValue(fmt(n)) == n
    case Bool(_) => true
    case Null => false
    case Table(fields, refs) =>
      && (IsArray(fields, refs) || forall k :: k in fields ==> !k.KNum?)
      && forall k :: k in fields ==> Faithful(fields[k], fmt)
  }

  // ---------------------------------------------------------------------------
  // Values without fractions

  /** A host that writes integers in decimal, whatever it makes of fractions. */
  ghost predicate WritesIntegers(fmt: Format) {
    WritesNumbers(fmt) && forall n: int :: fmt(n as real) == IntTok(n)
  }

  // There is such a host.
  function IntegerFormat(r: real): NumTok {
    IntTok(r.Floor)
  }

  lemma {:induction false} IntegerFormatWrites()
    ensures WritesIntegers(IntegerFormat)
  {
    forall n: int ensures IntegerFormat(n as real) == IntTok(n) {
      assert (n as real).Floor == n;
    }
  }

  // Strings, booleans, integers, and tables of these without numeric keys outside arrays.
  ghost predicate IntegersOnly(v: Value)
    decreases v
  {
    match v
    case Str(_) => true
    case Num(n) => n == n.Floor as real
    case Bool(_) => true
    case Null => false
    case Table(fields, refs) =>
      && (IsArray(fields, refs) || forall k :: k in fields ==> !k.KNum?)
      && forall k :: k in fields ==> IntegersOnly(fields[k])
  }

  // They all survive.
  lemma {:induction false} IntegersFaithful(v: Value, fmt: Format)
    requires WritesIntegers(fmt) && IntegersOnly(v)
    ensures Faithful(v, fmt)
    decreases v
  {
    match v
    case Num(n) =>
      IntTokValue(n.Floor);
    case Table(fields, _) =>
      hide IsArray, WritesIntegers;
      forall k | k in fields ensures Faithful(fields[k], fmt) {
        IntegersFaithful(fields[k], fmt);
      }
    case _ =>
  }

  // ---------------------------------------------------------------------------
  // Arrays

  lemma {:induction false} ArrayIsArray(items: seq<Value>)
    requires items != []
    ensures IsArray(ArrayFields(items), [])
  {
    ArrayFieldsKeys(items);
    hide ArrayFields, Index;
    IndexFacts();
    var a := ArrayFields(items);
    assert a.Keys == IndexKeys(|items|) by {
      forall k | k in IndexKeys(|items|) ensures k in a {
        var i: nat :| 1 <= i <= |items| && k == Index(i);
      }
    }
  }

  lemma {:induction false} ArrayInjective(a: seq<Value>, b: seq<Value>)
    requires |a| == |b|
    ensures ArrayTable(a) == ArrayTable(b) <==> a == b
  {
    ArrayFieldsKeys(a);
    ArrayFieldsKeys(b);
    if ArrayTable(a) == ArrayTable(b) {
      hide ArrayFields, Index;
      forall i | 0 <= i < |a| ensures a[i] == b[i] {
        assert ArrayFields(a)[Index(i + 1)] == ArrayFields(b)[Index(i + 1)];
      }
    }
  }

  lemma {:induction false} FaithfulArray(items: seq<Value>, fmt: Format)
    requires items != [] && WritesNumbers(fmt)
    ensures Faithful(ArrayTable(items), fmt) <==> forall i :: 0 <= i < |items| ==> Faithful(items[i], fmt)
  {
    ArrayIsArray(items);
    ArrayFieldsKeys(items);
    hide ArrayFields, Index, IsArray, WritesNumbers;
    var fields := ArrayFields(items);
    if Faithful(ArrayTable(items), fmt) {
      forall i | 0 <= i < |items| ensures Faithful(items[i], fmt) {
        assert Index(i + 1) in fields && fields[Index(i + 1)] == items[i];
      }
    }
    if forall i :: 0 <= i < |items| ==> Faithful(items[i], fmt) {
      forall k | k in fields ensures Faithful(fields[k], fmt) {
        var i: nat :| 1 <= i <= |items| && k == Index(i);
        assert fields[k] == items[i - 1];
      }
    }
  }

  lemma {:induction false} ElemMeanings(walks: seq<Walk>, first: bool, fmt: Format)
    requires forall i :: 0 <= i < |walks| ==> WellFormed(WalkDoc(walks[i], fmt))
    ensures var elems := WalkElems(walks, first, fmt);
            ElemsOk(elems) && forall i :: 0 <= i < |walks| ==> ElemValues(elems)[i] == Meaning(WalkDoc(walks[i], fmt))
  {
    if walks != [] {
      hide WalkDoc, WellFormed, Meaning;
      var rest := walks[1..];
      assert forall i :: 0 <= i < |rest| ==> rest[i] == walks[i + 1];
      ElemMeanings(rest, false, fmt);
      assert WalkElems(walks, first, fmt)[1..] == WalkElems(rest, false, fmt);
    }
  }

  // ---------------------------------------------------------------------------
  // Objects

  // The key that comes back for a printed key.
  function KeyBack(key: Key, fmt: Format): Key {
    match key
    case KNum(n) => KStr(TokText(fmt(n)))
    case _ => key
  }

  lemma {:induction false} KeyMeaning(key: Key, fmt: Format, v: Value)
    requires key != KNull && WritesNumbers(fmt)
    ensures WellFormed(KeyDoc(key, fmt))
    ensures Put(EMPTY, Meaning(KeyDoc(key, fmt)), v) == Table(map[KeyBack(key, fmt) := v], [])
  {
    match key
    case KStr(s) => EscapeItemsFacts(s);
    case KNum(n) =>
      RawText(TokText(fmt(n)));
      NumberChars(fmt(n));
    case KBool(_) =>
    case KNull =>
  }

  // A number needs no escape.
  lemma {:induction false} NumberChars(t: NumTok)
    requires Valid(t)
    ensures Plain(TokText(t))
  {
    hide Plain;
    var f, e := t.fraction, t.exponent;
    DigitsPlain(t.ints);
    DigitsPlain(f.digits);
    DigitsPlain(e.digits);
    MarksPlain(t);
    PlainConcat(e.sign, e.digits);
    PlainConcat(e.mark, e.sign + e.digits);
    PlainConcat(DotText(f.dot), f.digits);
    PlainConcat(FractionText(f), ExponentText(e));
    PlainConcat(t.ints, FractionText(f) + ExponentText(e));
    PlainConcat(Minus(t.neg), t.ints + (FractionText(f) + ExponentText(e)));
  }

  predicate Plain(s: string) {
    forall i :: 0 <= i < |s| ==> s[i] != '"' && s[i] != '\\'
  }

  lemma {:induction false} DigitsPlain(s: string)
    requires AllDigits(s)
    ensures Plain(s)
  {}

  lemma {:induction false} MarksPlain(t: NumTok)
    requires Valid(t)
    ensures Plain(Minus(t.neg)) && Plain(DotText(t.fraction.dot)) && Plain(t.exponent.mark) && Plain(t.exponent.sign)
  {}

  lemma {:induction false} PlainConcat(a: string, b: string)
    ensures Plain(a) && Plain(b) ==> Plain(a + b)
  {}

  ghost predicate EntriesOk(entries: seq<Entry>, fmt: Format) {
    forall i :: 0 <= i < |entries| ==> entries[i].key != KNull && WellFormed(WalkDoc(entries[i].walk, fmt))
  }

  // One printed member, read back in front of the others.
  lemma {:induction false} MemberBack(entries: seq<Entry>, first: bool, fmt: Format)
    requires WritesNumbers(fmt) && EntriesOk(entries, fmt) && entries != []
    requires MembersOk(WalkMembers(entries[1..], false, fmt))
    ensures var e := entries[0];
            var members := WalkMembers(entries, first, fmt);
            && WellFormed(WalkDoc(e.walk, fmt)) && MembersOk(members)
            && MembersTable(members) == Over(Table(map[KeyBack(e.key, fmt) := Meaning(WalkDoc(e.walk, fmt))], []),
                                             MembersTable(WalkMembers(entries[1..], false, fmt)))
  {
    hide WalkDoc, WellFormed, Meaning, KeyDoc, KeyBack, Put, Over;
    var e := entries[0];
    KeyMeaning(e.key, fmt, Meaning(WalkDoc(e.walk, fmt)));
    assert WalkMembers(entries, first, fmt)[1..] == WalkMembers(entries[1..], false, fmt);
  }

  lemma {:induction false} MembersBack(entries: seq<Entry>, first: bool, fmt: Format)
    requires WritesNumbers(fmt) && EntriesOk(entries, fmt)
    ensures MembersOk(WalkMembers(entries, first, fmt))
    ensures var t := MembersTable(WalkMembers(entries, first, fmt));
            && t.refs == []
            && forall k :: k in t.fields ==> exists i :: 0 <= i < |entries| && k == KeyBack(entries[i].key, fmt)
  {
    if entries != [] {
      hide WalkDoc, KeyBack, Meaning;
      var rest := entries[1..];
      assert forall i :: 0 <= i < |rest| ==> rest[i] == entries[i + 1];
      MembersBack(rest, false, fmt);
      MemberBack(entries, first, fmt);
      hide MembersTable, WalkMembers, MembersOk, WellFormed;
      var t, u := MembersTable(WalkMembers(entries, first, fmt)), MembersTable(WalkMembers(rest, false, fmt));
      forall k | k in t.fields ensures exists i :: 0 <= i < |entries| && k == KeyBack(entries[i].key, fmt) {
        if k in u.fields {
          var i :| 0 <= i < |rest| && k == KeyBack(rest[i].key, fmt);
          assert rest[i] == entries[i + 1];
        } else {
          assert k == KeyBack(entries[0].key, fmt);
        }
      }
    }
  }

  // Keys that come back unchanged keep their own values.
  lemma {:induction false} MembersKept(entries: seq<Entry>, first: bool, fmt: Format, i: nat)
    requires WritesNumbers(fmt) && EntriesOk(entries, fmt) && Distinct(entries) && i < |entries|
    requires forall j :: 0 <= j < |entries| ==> !entries[j].key.KNum?
    requires MembersOk(WalkMembers(entries, first, fmt)) && WellFormed(WalkDoc(entries[i].walk, fmt))
    ensures var fields := MembersTable(WalkMembers(entries, first, fmt)).fields;
            && entries[i].key in fields && fields[entries[i].key] == Meaning(WalkDoc(entries[i].walk, fmt))
    decreases i
  {
    hide WalkDoc, Meaning;
    var rest := entries[1..];
    assert forall j :: 0 <= j < |rest| ==> rest[j] == entries[j + 1];
    MembersBack(rest, false, fmt);
    MemberBack(entries, first, fmt);
    if i > 0 {
      MembersKept(rest, false, fmt, i - 1);
    }
  }

  // ---------------------------------------------------------------------------
  // The round trip

  lemma {:induction false} WalkRoundTrip(w: Walk, fmt: Format)
    requires ValidWalk(w) && WritesNumbers(fmt)
    ensures WellFormed(WalkDoc(w, fmt))
    ensures Meaning(WalkDoc(w, fmt)) == WalkValue(w) <==> Faithful(WalkValue(w), fmt)
    decreases w
  {
    match w
    case Leaf(v) =>
      LeafRoundTrip(v, fmt);
    case Items(walks) =>
      forall i | 0 <= i < |walks|
        ensures WellFormed(WalkDoc(walks[i], fmt))
        ensures Meaning(WalkDoc(walks[i], fmt)) == WalkValue(walks[i]) <==> Faithful(WalkValue(walks[i]), fmt)
      {
        WalkRoundTrip(walks[i], fmt);
      }
      ItemsRoundTrip(walks, fmt);
    case Entries(entries) =>
      forall i | 0 <= i < |entries|
        ensures WellFormed(WalkDoc(entries[i].walk, fmt))
        ensures Meaning(WalkDoc(entries[i].walk, fmt)) == WalkValue(entries[i].walk)
            <==> Faithful(WalkValue(entries[i].walk), fmt)
      {
        assert entries[i] in entries && entries[i].walk < entries[i];
        WalkRoundTrip(entries[i].walk, fmt);
      }
      EntriesRoundTrip(entries, fmt);
  }

  lemma {:induction false} LeafRoundTrip(v: Value, fmt: Format)
    requires !v.Table? && WritesNumbers(fmt)
    ensures WellFormed(WalkDoc(Leaf(v), fmt))
    ensures Meaning(WalkDoc(Leaf(v), fmt)) == v <==> Faithful(v, fmt)
  {
    if v.Str? {
      EscapeItemsFacts(v.s);
    }
  }

  // A walk that reads back, given its document is well-formed.
  ghost predicate ReadsBack(w: Walk, fmt: Format)
    requires WritesNumbers(fmt)
  {
    WellFormed(WalkDoc(w, fmt)) && (Meaning(WalkDoc(w, fmt)) == WalkValue(w) <==> Faithful(WalkValue(w), fmt))
  }

  lemma {:induction false} ItemsRoundTrip(walks: seq<Walk>, fmt: Format)
    requires WritesNumbers(fmt) && walks != [] && forall i :: 0 <= i < |walks| ==> ReadsBack(walks[i], fmt)
    ensures ReadsBack(Items(walks), fmt)
  {
    hide Faithful, WritesNumbers, ArrayTable;
    var vs, elems := WalkValues(walks), WalkElems(walks, true, fmt);
    ElemMeanings(walks, true, fmt);
    FaithfulArray(vs, fmt);
    ArrayInjective(ElemValues(elems), vs);
    assert WalkDoc(Items(walks), fmt) == ArrDoc(elems, "");
    assert ElemValues(elems) == vs <==> forall i :: 0 <= i < |walks| ==> Faithful(vs[i], fmt) by {
      hide Meaning, WalkDoc, WellFormed, ElemValues, WalkElems;
      if ElemValues(elems) == vs {
        forall i | 0 <= i < |walks| ensures Faithful(vs[i], fmt) {
          assert ReadsBack(walks[i], fmt) && ElemValues(elems)[i] == vs[i];
        }
      }
    }
  }

  lemma {:induction false} EntriesRoundTrip(entries: seq<Entry>, fmt: Format)
    requires WritesNumbers(fmt) && ValidWalk(Entries(entries))
    requires forall i :: 0 <= i < |entries| ==> ReadsBack(entries[i].walk, fmt)
    ensures ReadsBack(Entries(entries), fmt)
  {
    hide WritesNumbers, IsArray, KeyBack, Meaning, WellFormed, Faithful, WalkMembers, WalkDoc, WalkValue, ValidWalk;
    EntriesParts(entries, fmt);
    MembersBack(entries, true, fmt);
    EntriesDoc(entries, fmt);
    if i :| 0 <= i < |entries| && entries[i].key.KNum? {
      NumericKeyLost(entries, fmt, i);
    } else {
      KeysKept(entries, fmt);
    }
  }

  lemma {:induction false} EntriesParts(entries: seq<Entry>, fmt: Format)
    requires WritesNumbers(fmt) && ValidWalk(Entries(entries))
    requires forall i :: 0 <= i < |entries| ==> ReadsBack(entries[i].walk, fmt)
    ensures Distinct(entries) && EntriesOk(entries, fmt) && !IsArray(EntryFields(entries), [])
  {
    hide WalkDoc, WellFormed, Meaning, Faithful, IsArray, EntryFields;
  }

  lemma {:induction false} EntriesDoc(entries: seq<Entry>, fmt: Format)
    requires MembersOk(WalkMembers(entries, true, fmt))
    ensures WalkValue(Entries(entries)) == Table(EntryFields(entries), [])
    ensures WellFormed(WalkDoc(Entries(entries), fmt))
    ensures Meaning(WalkDoc(Entries(entries), fmt)) == MembersTable(WalkMembers(entries, true, fmt))
  {
    hide WalkMembers, MembersOk, EntryFields, MembersTable;
  }

  // A numeric key comes back as a string, so the object comes back changed.
  lemma {:induction false} NumericKeyLost(entries: seq<Entry>, fmt: Format, i: nat)
    requires WritesNumbers(fmt) && EntriesOk(entries, fmt) && Distinct(entries) && !IsArray(EntryFields(entries), [])
    requires i < |entries| && entries[i].key.KNum?
    requires MembersOk(WalkMembers(entries, true, fmt))
    ensures MembersTable(WalkMembers(entries, true, fmt)) != Table(EntryFields(entries), [])
    ensures !Faithful(Table(EntryFields(entries), []), fmt)
  {
    hide WalkMembers, WalkDoc, IsArray, EntryFields, MembersTable, WellFormed;
    MembersBack(entries, true, fmt);
    EntryFieldsAt(entries, i);
  }

  lemma {:induction false} KeysKept(entries: seq<Entry>, fmt: Format)
    requires WritesNumbers(fmt) && EntriesOk(entries, fmt) && Distinct(entries) && !IsArray(EntryFields(entries), [])
    requires forall i :: 0 <= i < |entries| ==> !entries[i].key.KNum? && ReadsBack(entries[i].walk, fmt)
    requires MembersOk(WalkMembers(entries, true, fmt))
    ensures MembersTable(WalkMembers(entries, true, fmt)) == Table(EntryFields(entries), [])
        <==> Faithful(Table(EntryFields(entries), []), fmt)
  {
    hide WalkMembers, WalkDoc, IsArray, EntryFields, MembersTable, WellFormed, Meaning, WalkValue, WritesNumbers;
    var got, fields := MembersTable(WalkMembers(entries, true, fmt)), EntryFields(entries);
    MembersBack(entries, true, fmt);
    hide MembersOk;
    forall i | 0 <= i < |entries|
      ensures entries[i].key in got.fields && got.fields[entries[i].key] == Meaning(WalkDoc(entries[i].walk, fmt))
      ensures entries[i].key in fields && fields[entries[i].key] == WalkValue(entries[i].walk)
    {
      MembersKept(entries, true, fmt, i);
      EntryFieldsAt(entries, i);
    }
    forall k | k in got.fields ensures exists i :: 0 <= i < |entries| && k == entries[i].key {
      var i :| 0 <= i < |entries| && k == KeyBack(entries[i].key, fmt);
      assert k == entries[i].key;
    }
    hide KeyBack, ReadsBack;
    KeysAgree(entries, got, fields, fmt);
  }

  // Two tables with the same keys agree exactly where all their fields do.
  lemma {:induction false} KeysAgree(entries: seq<Entry>, got: Value, fields: map<Key, Value>, fmt: Format)
    requires WritesNumbers(fmt) && got.Table? && got.refs == [] && !IsArray(fields, [])
    requires forall i :: 0 <= i < |entries| ==> !entries[i].key.KNum? && ReadsBack(entries[i].walk, fmt)
    requires forall i :: 0 <= i < |entries| ==>
               WellFormed(WalkDoc(entries[i].walk, fmt))
               && entries[i].key in got.fields && got.fields[entries[i].key] == Meaning(WalkDoc(entries[i].walk, fmt))
    requires forall i :: 0 <= i < |entries| ==>
               entries[i].key in fields && fields[entries[i].key] == WalkValue(entries[i].walk)
    requires forall k :: k in got.fields ==> exists i :: 0 <= i < |entries| && k == entries[i].key
    requires forall k :: k in fields ==> exists i :: 0 <= i < |entries| && k == entries[i].key
    ensures got == Table(fields, []) <==> Faithful(Table(fields, []), fmt)
  {
    hide WalkDoc, IsArray, WellFormed, Meaning, WalkValue, WritesNumbers;
    forall k | k in fields ensures !k.KNum? && k in got.fields
        && (got.fields[k] == fields[k] <==> Faithful(fields[k], fmt))
    {
      var i :| 0 <= i < |entries| && k == entries[i].key;
      assert ReadsBack(entries[i].walk, fmt);
    }
    if Faithful(Table(fields, []), fmt) {
      assert got.fields == fields;
    }
  }

  // ---------------------------------------------------------------------------
  // Layout

  // A document without the white space between its tokens.
  function Bare(doc: Doc): Doc
    decreases doc
  {
    match doc
    case ArrDoc(elems, _) => ArrDoc(BareElems(elems), "")
    case ObjDoc(members, _) => ObjDoc(BareMembers(members), "")
    case _ => doc
  }

  function BareElems(elems: seq<Elem>): (bare: seq<Elem>)
    ensures |bare| == |elems|
    decreases elems
  {
    if elems == [] then []
    else
      var e := elems[0];
      [Elem("", Bare(e.doc), "", e.comma)] + BareElems(elems[1..])
  }

  function BareMembers(members: seq<Member>): (bare: seq<Member>)
    ensures |bare| == |members|
    decreases members
  {
    if members == [] then []
    else
      var m := members[0];
      [Member("", Bare(m.key), "", "", Bare(m.doc), "", m.comma)] + BareMembers(members[1..])
  }

  // White space between tokens means nothing.
  lemma {:induction false} BareMeaning(doc: Doc)
    requires WellFormed(doc)
    ensures WellFormed(Bare(doc)) && Meaning(Bare(doc)) == Meaning(doc)
    decreases doc
  {
    match doc
    case ArrDoc(elems, _) => BareElemsMeaning(elems);
    case ObjDoc(members, _) => BareMembersMeaning(members);
    case _ =>
  }

  lemma {:induction false} BareElemsMeaning(elems: seq<Elem>)
    requires ElemsOk(elems)
    ensures ElemsOk(BareElems(elems)) && ElemValues(BareElems(elems)) == ElemValues(elems)
    decreases elems
  {
    if elems != [] {
      hide Bare, WellFormed, Meaning;
      BareMeaning(elems[0].doc);
      BareElemsMeaning(elems[1..]);
      assert BareElems(elems)[1..] == BareElems(elems[1..]);
    }
  }

  lemma {:induction false} BareMembersMeaning(members: seq<Member>)
    requires MembersOk(members)
    ensures MembersOk(BareMembers(members)) && MembersTable(BareMembers(members)) == MembersTable(members)
    decreases members
  {
    if members != [] {
      hide Bare, WellFormed, Meaning, Put, Over;
      BareMeaning(members[0].key);
      BareMeaning(members[0].doc);
      BareMembersMeaning(members[1..]);
      assert BareMembers(members)[1..] == BareMembers(members[1..]);
    }
  }

  // Two documents with the same tokens; the white space before and after them is free.
  predicate SameTokens(a: Doc, b: Doc)
    decreases a
  {
    match a
    case ArrDoc(elems, _) => b.ArrDoc? && SameElems(elems, b.elems)
    case ObjDoc(members, _) => b.ObjDoc? && SameMembers(members, b.members)
    case _ => a == b
  }

  predicate SameElems(a: seq<Elem>, b: seq<Elem>)
    decreases a
  {
    && |a| == |b|
    && (a != [] ==> SameTokens(a[0].doc, b[0].doc) && a[0].comma == b[0].comma && SameElems(a[1..], b[1..]))
  }

  predicate SameMembers(a: seq<Member>, b: seq<Member>)
    decreases a
  {
    && |a| == |b|
    && (a != [] ==> && SameTokens(a[0].key, b[0].key) && SameTokens(a[0].doc, b[0].doc)
                    && a[0].comma == b[0].comma && SameMembers(a[1..], b[1..]))
  }

  lemma {:induction false} BareIff(a: Doc, b: Doc)
    ensures Bare(a) == Bare(b) <==> SameTokens(a, b)
    decreases a
  {
    if a.ArrDoc? && b.ArrDoc? {
      BareElemsIff(a.elems, b.elems);
    } else if a.ObjDoc? && b.ObjDoc? {
      BareMembersIff(a.members, b.members);
    }
  }

  lemma {:induction false} BareElemsIff(a: seq<Elem>, b: seq<Elem>)
    ensures BareElems(a) == BareElems(b) <==> SameElems(a, b)
    decreases a
  {
    if a != [] && |a| == |b| {
      hide Bare, SameTokens;
      BareIff(a[0].doc, b[0].doc);
      BareElemsIff(a[1..], b[1..]);
      assert BareElems(a)[1..] == BareElems(a[1..]) && BareElems(b)[1..] == BareElems(b[1..]);
    }
  }

  lemma {:induction false} BareMembersIff(a: seq<Member>, b: seq<Member>)
    ensures BareMembers(a) == BareMembers(b) <==> SameMembers(a, b)
    decreases a
  {
    if a != [] && |a| == |b| {
      hide Bare, SameTokens;
      BareIff(a[0].key, b[0].key);
      BareIff(a[0].doc, b[0].doc);
      BareMembersIff(a[1..], b[1..]);
      assert BareMembers(a)[1..] == BareMembers(a[1..]) && BareMembers(b)[1..] == BareMembers(b[1..]);
    }
  }

  // The printed text of a value, laid out anew with any white space between its tokens.
  ghost predicate Layout(doc: Doc, w: Walk, fmt: Format) {
    WellFormed(doc) && SameTokens(doc, WalkDoc(w, fmt))
  }

  /**
   * json_parse reads every layout of a printed value, in whatever order pairs handed out the
   * keys, and stops right behind it; what it returns is the value that was printed if and only
   * if that value is faithful.
   */
  lemma {:induction false} PrintThenParse(w: Walk, fmt: Format, ws: string, doc: Doc, behind: string)
    requires ValidWalk(w) && WritesNumbers(fmt) && AllSpace(ws) && Layout(doc, w, fmt)
    requires Ends(doc, ws + Text(doc) + behind, |ws| + |Text(doc)|)
    ensures Parse(ws + Text(doc) + behind, 0, None) == Ok(Item(Meaning(doc), |ws| + |Text(doc)|))
    ensures Meaning(doc) == WalkValue(w) <==> Faithful(WalkValue(w), fmt)
  {
    hide Parse, Text, WellFormed, Meaning, Bare, WalkDoc, ValidWalk, Faithful, Ends;
    var t := ws + Text(doc);
    assert (t + behind)[0..|t|] == t;
    Complete(t + behind, 0, ws, doc, None);
    WalkRoundTrip(w, fmt);
    BareMeaning(doc);
    BareMeaning(WalkDoc(w, fmt));
    BareIff(doc, WalkDoc(w, fmt));
  }

  // The text as json_stringify lays it out.
  lemma {:induction false} StringifyThenParse(w: Walk, fmt: Format)
    requires ValidWalk(w) && WritesNumbers(fmt)
    ensures WellFormed(WalkDoc(w, fmt))
    ensures Parse(WalkText(w, fmt), 0, None) == Ok(Item(Meaning(WalkDoc(w, fmt)), |WalkText(w, fmt)|))
    ensures Parse(WalkText(w, fmt), 0, None) == Ok(Item(WalkValue(w), |WalkText(w, fmt)|))
        <==> Faithful(WalkValue(w), fmt)
  {
    hide Parse, Text, WellFormed, Meaning, Bare, WalkDoc, ValidWalk, Faithful;
    WalkRoundTrip(w, fmt);
    var doc := WalkDoc(w, fmt);
    assert "" + Text(doc) + "" == Text(doc);
    BareIff(doc, doc);
    PrintThenParse(w, fmt, "", doc, "");
  }

  // json.null is printed as an empty table and comes back as one.
  lemma {:induction false} NullComesBackEmpty(fmt: Format)
    requires WritesNumbers(fmt)
    ensures Parse(WalkText(Leaf(Null), fmt), 0, None) == Ok(Item(EMPTY, 2))
    ensures !Faithful(Null, fmt)
  {
    var doc := ObjDoc([], "");
    assert Text(doc) == "{}" by { assert "{" + ("" + ("" + "}")) == "{}"; }
    assert At("{}", 0, "" + "{}");
    hide Text, Parse;
    Complete("{}", 0, "", doc, None);
  }

  // A table with the one key 2 comes back with the key "2".
  lemma {:induction false} NumericKeyWitness(fmt: Format)
    requires WritesNumbers(fmt)
    ensures var w := Entries([Entry(KNum(2.0), Leaf(Bool(true)))]);
            && ValidWalk(w) && WalkValue(w) == Table(map[KNum(2.0) := Bool(true)], [])
            && Parse(WalkText(w, fmt), 0, None)
                 == Ok(Item(Table(map[KStr(TokText(fmt(2.0))) := Bool(true)], []), |WalkText(w, fmt)|))
  {
    hide *;
    var e := Entry(KNum(2.0), Leaf(Bool(true)));
    var w := Entries([e]);
    OneEntry(e);
    OneMember(e, fmt);
    StringifyThenParse(w, fmt);
  }

  lemma {:induction false} OneEntry(e: Entry)
    requires e.key == KNum(2.0) && e.walk == Leaf(Bool(true))
    ensures EntryFields([e]) == map[e.key := Bool(true)]
    ensures ValidWalk(Entries([e])) && WalkValue(Entries([e])) == Table(map[e.key := Bool(true)], [])
  {
    assert WalkValue(e.walk) == Bool(true);
    var none: seq<Entry> := [e][1..];
    assert none == [] && EntryFields(none) == map[];
    var fields := EntryFields([e]);
    assert fields == EntryFields(none)[e.key := WalkValue(e.walk)];
    assert |fields| == 1 && Index(1) !in fields;
    MissingIndex(fields, [], 1);
  }

  lemma {:induction false} OneMember(e: Entry, fmt: Format)
    requires e.key == KNum(2.0) && e.walk == Leaf(Bool(true)) && WritesNumbers(fmt)
    ensures var doc := WalkDoc(Entries([e]), fmt);
            WellFormed(doc) && Meaning(doc) == Table(map[KStr(TokText(fmt(2.0))) := Bool(true)], [])
  {
    hide KeyDoc, WritesNumbers, Put, Over, WalkMembers, MembersTable, MembersOk, Text, Bare;
    assert [e][1..] == [];
    NoMembers(fmt);
    MemberBack([e], true, fmt);
    OverEmpty(Table(map[KeyBack(e.key, fmt) := Bool(true)], []));
  }

  lemma {:induction false} NoMembers(fmt: Format)
    ensures MembersOk(WalkMembers([], false, fmt)) && MembersTable(WalkMembers([], false, fmt)) == EMPTY
  {}
}
