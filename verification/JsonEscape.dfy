/** escape_str of tests/fixtures/lua/json.lua. */
module JsonEscape {
  import opened Wrappers
  import opened LuaText
  import opened Json
  import opened JsonGrammar

  const IN_CHARS: string := ['\\', '"', '/', 8 as char, 12 as char, '\n', '\r', '\t']
  const OUT_CHARS: string := ['\\', '"', '/', 'b', 'f', 'n', 'r', 't']

  // s:gsub(c, into), for a character that is no pattern
  function Gsub(s: string, c: char, into: string): string {
    if s == "" then "" else (if s[0] == c then into else [s[0]]) + Gsub(s[1..], c, into)
  }

  // The place of a character among the first k characters to be escaped.
  function Place(c: char, k: nat): (r: Option<nat>)
    requires k <= 8
    ensures r.Some? ==> r.value < k && IN_CHARS[r.value] == c
    ensures r.None? ==> forall i :: 0 <= i < k ==> IN_CHARS[i] != c
  {
    if k == 0 then None else if IN_CHARS[k - 1] == c then Some(k - 1) else Place(c, k - 1)
  }

  // One character, once k passes are done.
  function EscapeChar(c: char, k: nat): string
    requires k <= 8
  {
    match Place(c, k) case Some(i) => ['\\', OUT_CHARS[i]] case None => [c]
  }

  function EscapeAll(s: string, k: nat): string
    requires k <= 8
  {
    if s == "" then "" else EscapeChar(s[0], k) + EscapeAll(s[1..], k)
  }

  // escape_str: eight passes over the whole string.
  method EscapeStr(str: string) returns (s: string)
    ensures s == EscapeAll(str, 8)
  {
    s := str;
    NothingEscaped(str);
    for i := 0 to 8
      invariant s == EscapeAll(str, i)
    {
      OnePass(str, i);
      s := Gsub(s, IN_CHARS[i], ['\\', OUT_CHARS[i]]);
    }
  }

  lemma {:induction false} NothingEscaped(s: string)
    ensures EscapeAll(s, 0) == s
  {
    if s != "" {
      NothingEscaped(s[1..]);
    }
  }

  lemma {:induction false} GsubCons(first: char, s: string, c: char, into: string)
    ensures Gsub([first] + s, c, into) == (if first == c then into else [first]) + Gsub(s, c, into)
  {
    assert ([first] + s)[1..] == s;
  }

  lemma {:induction false} GsubConcat(a: string, b: string, c: char, into: string)
    ensures Gsub(a + b, c, into) == Gsub(a, c, into) + Gsub(b, c, into)
  {
    if a == "" {
      assert a + b == b;
    } else {
      hide Gsub;
      var first, rest := a[0], a[1..];
      var x, y, z := if first == c then into else [first], Gsub(rest, c, into), Gsub(b, c, into);
      calc {
        Gsub(a + b, c, into);
        { assert a + b == [first] + (rest + b); GsubCons(first, rest + b, c, into); }
        x + Gsub(rest + b, c, into);
        { GsubConcat(rest, b, c, into); }
        x + (y + z);
        { Assoc(x, y, z); }
        x + y + z;
        { assert a == [first] + rest; GsubCons(first, rest, c, into); }
        Gsub(a, c, into) + z;
      }
    }
  }

  // ---------------------------------------------------------------------------
  // The escapes of section 7 of RFC 8259

  function RfcEscape(c: char): string {
    if c == '"' then "\\\""
    else if c == '\\' then "\\\\"
    else if c == '/' then "\\/"
    else if c == 8 as char then "\\b"
    else if c == 9 as char then "\\t"
    else if c == 10 as char then "\\n"
    else if c == 12 as char then "\\f"
    else if c == 13 as char then "\\r"
    else [c]
  }

  function RfcEscapes(s: string): string {
    if s == "" then "" else RfcEscape(s[0]) + RfcEscapes(s[1..])
  }

  lemma {:induction false} EscapeCharIsRfc(c: char)
    ensures EscapeChar(c, 8) == RfcEscape(c)
  {
    var r := Place(c, 8);
    if r.Some? {
      var i := r.value;
      assert i == 0 || i == 1 || i == 2 || i == 3 || i == 4 || i == 5 || i == 6 || i == 7;
    } else {
      assert IN_CHARS[0] != c && IN_CHARS[1] != c && IN_CHARS[2] != c && IN_CHARS[3] != c;
      assert IN_CHARS[4] != c && IN_CHARS[5] != c && IN_CHARS[6] != c && IN_CHARS[7] != c;
    }
  }

  // escape_str writes these, and so leaves none of the eight characters outside an escape.
  lemma {:induction false} EscapeIsRfc(s: string)
    ensures EscapeAll(s, 8) == RfcEscapes(s)
  {
    if s != "" {
      hide EscapeChar, RfcEscape;
      EscapeIsRfc(s[1..]);
      EscapeCharIsRfc(s[0]);
    }
  }

  lemma {:induction false} NothingRaw(s: string, i: nat)
    requires i < |EscapeAll(s, 8)|
    ensures var t := EscapeAll(s, 8);
            && t[i] !in [8 as char, 9 as char, 10 as char, 12 as char, 13 as char]
            && (t[i] == '"' || t[i] == '/' ==> i > 0 && t[i - 1] == '\\')
  {
    EscapeIsRfc(s);
    hide EscapeAll;
    RfcEscapesSafe(s, i);
  }

  lemma {:induction false} RfcEscapesSafe(s: string, i: nat)
    requires i < |RfcEscapes(s)|
    ensures var t := RfcEscapes(s);
            && t[i] !in [8 as char, 9 as char, 10 as char, 12 as char, 13 as char]
            && (t[i] == '"' || t[i] == '/' ==> i > 0 && t[i - 1] == '\\')
  {
    var n := |RfcEscape(s[0])|;
    if i >= n {
      RfcEscapesSafe(s[1..], i - n);
    }
  }

  // What a pass writes is nothing that a later pass replaces.
  lemma {:induction false} CharsApart(i: nat, k: nat)
    requires i < k < 8
    ensures IN_CHARS[k] != '\\' && IN_CHARS[k] != IN_CHARS[i] && IN_CHARS[k] != OUT_CHARS[i]
  {}

  lemma {:induction false} GsubShort(a: char, b: char, c: char, into: string)
    ensures Gsub([a], c, into) == if a == c then into else [a]
    ensures a != c && b != c ==> Gsub([a, b], c, into) == [a, b]
  {
    GsubCons(b, "", c, into);
    GsubCons(a, [b], c, into);
    assert [a] + [b] == [a, b] && [b] + "" == [b];
  }

  lemma {:induction false} CharPass(c: char, k: nat)
    requires k < 8
    ensures Gsub(EscapeChar(c, k), IN_CHARS[k], ['\\', OUT_CHARS[k]]) == EscapeChar(c, k + 1)
  {
    var r := Place(c, k);
    if r.Some? {
      CharsApart(r.value, k);
      GsubShort('\\', OUT_CHARS[r.value], IN_CHARS[k], ['\\', OUT_CHARS[k]]);
    } else {
      GsubShort(c, c, IN_CHARS[k], ['\\', OUT_CHARS[k]]);
    }
  }

  lemma {:induction false} OnePass(s: string, k: nat)
    requires k < 8
    ensures Gsub(EscapeAll(s, k), IN_CHARS[k], ['\\', OUT_CHARS[k]]) == EscapeAll(s, k + 1)
  {
    if s != "" {
      hide EscapeChar;
      OnePass(s[1..], k);
      CharPass(s[0], k);
      GsubConcat(EscapeChar(s[0], k), EscapeAll(s[1..], k), IN_CHARS[k], ['\\', OUT_CHARS[k]]);
    }
  }

  // ---------------------------------------------------------------------------
  // The escaped text, as the items of a string document

  function EscapeItem(c: char): StrItem {
    match Place(c, 8) case Some(i) => Esc(OUT_CHARS[i]) case None => Raw(c)
  }

  function EscapeItems(s: string): (items: seq<StrItem>)
    ensures |items| == |s|
    ensures forall i :: 0 <= i < |s| ==> items[i] == EscapeItem(s[i])
  {
    seq(|s|, i requires 0 <= i < |s| => EscapeItem(s[i]))
  }

  lemma {:induction false} EscapeItemFacts(c: char)
    ensures ItemOk(EscapeItem(c)) && ItemText(EscapeItem(c)) == EscapeChar(c, 8)
    ensures ItemValue(EscapeItem(c)) == c
  {
    var r := Place(c, 8);
    if r.None? {
      assert IN_CHARS[0] != c && IN_CHARS[1] != c;
    }
  }

  // Unescaping the escaped text gives the string back, whatever the string.
  lemma {:induction false} EscapeItemsFacts(s: string)
    ensures forall i :: 0 <= i < |s| ==> ItemOk(EscapeItems(s)[i])
    ensures ItemsText(EscapeItems(s)) == EscapeAll(s, 8)
    ensures ItemsValue(EscapeItems(s)) == s
  {
    if s != "" {
      hide EscapeItem, EscapeChar, EscapeItems, ItemText, ItemValue, ItemOk;
      EscapeItemFacts(s[0]);
      EscapeItemsFacts(s[1..]);
      assert EscapeItems(s)[1..] == EscapeItems(s[1..]);
      assert [s[0]] + s[1..] == s;
      forall i | 0 <= i < |s| ensures ItemOk(EscapeItems(s)[i]) {
        EscapeItemFacts(s[i]);
      }
    }
  }

  // parse_str_val undoes escape_str, with any text in front and behind.
  lemma {:induction false} EscapeRoundTrip(front: string, s: string, behind: string)
    ensures ParseString(front + EscapeAll(s, 8) + "\"" + behind, |front|, "")
         == Ok(Item(Str(s), |front| + |EscapeAll(s, 8)| + 1))
  {
    hide EscapeAll, EscapeItems, ItemsText, ItemsValue, ParseString;
    var t := EscapeAll(s, 8) + "\"";
    var str := front + EscapeAll(s, 8) + "\"" + behind;
    EscapeItemsFacts(s);
    assert str[|front|..|front| + |t|] == t;
    StringComplete(str, |front|, EscapeItems(s), "");
    assert "" + s == s;
  }
}
