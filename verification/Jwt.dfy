/** pre_backend of tests/fixtures/lua/collection.lua: the id claim of a token is put behind the backend URL. */
module Jwt {
  import opened Wrappers
  import opened LuaText
  import opened Base64
  import opened Base64Decode
  import opened JsonNumber
  import opened Json
  import opened JsonGrammar
  import opened JsonLaws
  import opened JsonPrinter
  import opened JsonRoundTrip
  import opened JsonEscape

  /** Where the script stops with an error. */
  datatype ScriptError =
    | NoHeader
    | NotAToken
    | BadEncoding(decoding: DecodeError)
    | BadPayload(parsing: ParseError)
    | NoId

  // string.find(s, "%.", from)
  function FindDot(s: string, from: nat): (r: Option<nat>)
    requires from <= |s|
    ensures r.Some? ==> from <= r.value < |s| && s[r.value] == '.' && forall i :: from <= i < r.value ==> s[i] != '.'
    ensures r.None? ==> forall i :: from <= i < |s| ==> s[i] != '.'
    decreases |s| - from
  {
    if from == |s| then None else if s[from] == '.' then Some(from) else FindDot(s, from + 1)
  }

  // jwtData["id"], as far as it can be put behind a string
  function IdText(v: Value, fmt: Format): Option<string> {
    if !v.Table? || KStr("id") !in v.fields then None
    else match v.fields[KStr("id")]
      case Str(s) => Some(s)
      case Num(n) => Some(TokText(fmt(n)))
      case _ => None
  }

  // What the script makes of a decoded payload.
  function Claim(payload: string, fmt: Format): Result<string, ScriptError> {
    match Parse(payload, 0, None)
    case Err(e) => Err(BadPayload(e))
    case Ok(item) =>
      match IdText(item.v, fmt) case Some(id) => Ok(id) case None => Err(NoId)
  }

  // What the script makes of an authorization header.
  function HeaderClaim(header: string, fmt: Format): Result<string, ScriptError> {
    var first := FindDot(header, 0);
    if first.None? then Err(NotAToken) else
    var last := FindDot(header, first.value + 1);
    if last.None? then Err(NotAToken) else
    match Decode(header[first.value + 1..last.value])
    case Err(e) => Err(BadEncoding(e))
    case Ok(payload) => Claim(payload, fmt)
  }

  class Request {
    var headers: map<string, string>
    var url: string

    constructor (headers: map<string, string>, url: string)
      ensures this.headers == headers && this.url == url
    {
      this.headers := headers;
      this.url := url;
    }

    // pre_backend(req): the URL changes only when every step succeeds.
    method PreBackend(fmt: Format) returns (r: Result<string, ScriptError>)
      modifies this`url
      ensures r == if "Authorization" in headers then HeaderClaim(headers["Authorization"], fmt) else Err(NoHeader)
      ensures url == old(url) + if r.Ok? then r.value else ""
    {
      assert url + "" == url;
      if "Authorization" !in headers {
        return Err(NoHeader);
      }
      var authHeader := headers["Authorization"];
      var first := FindDot(authHeader, 0);
      if first.None? {
        return Err(NotAToken);
      }
      var last := FindDot(authHeader, first.value + 1);
      if last.None? {
        return Err(NotAToken);
      }
      var rawData := authHeader[first.value + 1..last.value];
      var decoded := FromBase64(rawData);
      if decoded.Err? {
        return Err(BadEncoding(decoded.error));
      }
      var jwtData := JsonParse(decoded.value, 0, None);
      if jwtData.Err? {
        return Err(BadPayload(jwtData.error));
      }
      var id := IdText(jwtData.value.v, fmt);
      if id.None? {
        return Err(NoId);
      }
      url := url + id.value;
      return Ok(id.value);
    }
  }

  // ---------------------------------------------------------------------------
  // Tokens

  predicate DotFree(s: string) {
    forall i :: 0 <= i < |s| ==> s[i] != '.'
  }

  // The compact form: three parts with dots between them.
  function Token(header: string, payload: string, signature: string): string {
    header + "." + payload + "." + signature
  }

  lemma {:induction false} TokenParts(x: string, p: string, y: string, fmt: Format)
    requires DotFree(x) && DotFree(p)
    ensures FindDot(Token(x, p, y), 0) == Some(|x|)
    ensures FindDot(Token(x, p, y), |x| + 1) == Some(|x| + 1 + |p|)
    ensures Token(x, p, y)[|x| + 1..|x| + 1 + |p|] == p
  {
    var t := Token(x, p, y);
    assert t[|x|] == '.' && t[|x| + 1 + |p|] == '.';
    assert forall i :: 0 <= i < |x| ==> t[i] == x[i];
    forall i | |x| + 1 <= i < |x| + 1 + |p| ensures t[i] != '.' {
      assert t[i] == p[i - |x| - 1];
    }
  }

  // Two outcomes give the same id, or no id.
  ghost predicate SameId(a: Result<string, ScriptError>, b: Result<string, ScriptError>) {
    (a.Ok? <==> b.Ok?) && (a.Ok? ==> a.value == b.value)
  }

  // The byte that an unpadded decoding leaves behind does not reach the claim.
  lemma {:induction false} StrayByteHarmless(text: string, fmt: Format)
    ensures SameId(Claim(text + [0 as char], fmt), Claim(text, fmt))
  {
    hide Parse;
    var a, b := Parse(text + [0 as char], 0, None), Parse(text, 0, None);
    if a.Ok? {
      StrayZero(text, 0, a.value.v, a.value.pos);
    }
    if b.Ok? {
      StrayZero(text, 0, b.value.v, b.value.pos);
    }
  }

  // The payload of a token, without padding as section 2 of RFC 7515 asks.
  function Unsigned(payload: string): string
    requires IsBytes(payload)
  {
    Unpadded(Encode(ByteValues(payload)))
  }

  // What the script decodes from such a token.
  lemma {:induction false} TokenDecodes(x: string, payload: string, y: string, fmt: Format)
    requires DotFree(x) && IsBytes(payload)
    ensures HeaderClaim(Token(x, Unsigned(payload), y), fmt) == Claim(payload + StrayByte(|payload|), fmt)
  {
    hide Claim, Decode, Encode, Token, Unpadded, ByteValues, StrayByte;
    EncodingDotFree(ByteValues(payload));
    TokenParts(x, Unsigned(payload), y, fmt);
    StrippedRoundTrip(payload);
  }

  lemma {:induction false} TokenClaim(x: string, payload: string, y: string, fmt: Format)
    requires DotFree(x) && IsBytes(payload)
    ensures SameId(HeaderClaim(Token(x, Unsigned(payload), y), fmt), Claim(payload, fmt))
  {
    hide Claim, HeaderClaim, Unsigned, Token;
    TokenDecodes(x, payload, y, fmt);
    StrayByteHarmless(payload, fmt);
    assert payload + "" == payload;
  }

  lemma {:induction false} EncodingDotFree(b: seq<nat>)
    ensures AllLetters(Unpadded(Encode(b))) && DotFree(Unpadded(Encode(b)))
  {
    EncodeSplit(b);
    LettersAreLetters(KeptSextets(b));
  }

  // Padding changes nothing.
  lemma {:induction false} PaddedTokenClaim(x: string, payload: string, y: string, fmt: Format)
    requires DotFree(x) && IsBytes(payload)
    ensures HeaderClaim(Token(x, Encode(ByteValues(payload)), y), fmt) == Claim(payload, fmt)
  {
    hide Claim, Decode, Encode, Token, Stripped, Unpadded, ByteValues;
    var b := ByteValues(payload);
    EncodingDotFree(b);
    EncodeSplit(b);
    assert DotFree(Encode(b));
    TokenParts(x, Encode(b), y, fmt);
    RoundTrip(payload);
  }

  /**
   * A real token uses the base64url alphabet. Its claim is found exactly when the payload needs
   * none of the two letters that differ, and holds an id; and then it is that id.
   */
  lemma {:induction false} UrlTokenClaim(x: string, payload: string, y: string, fmt: Format)
    requires DotFree(x) && IsBytes(payload)
    ensures var letters := Unsigned(payload);
            var outcome := HeaderClaim(Token(x, UrlText(letters), y), fmt);
            && (outcome.Ok? <==> '+' !in letters && '/' !in letters && Claim(payload, fmt).Ok?)
            && (outcome.Ok? ==> outcome == Claim(payload, fmt))
  {
    hide Claim, Decode, Encode, Token, Unpadded, ByteValues;
    var letters := Unsigned(payload);
    EncodingDotFree(ByteValues(payload));
    UrlTextDecodes(letters);
    TokenParts(x, UrlText(letters), y, fmt);
    if UrlText(letters) == letters {
      TokenClaim(x, payload, y, fmt);
    }
  }

  // ---------------------------------------------------------------------------
  // Payloads

  /** The claim of an object is its last member named id, when that is a string or a number. */
  lemma {:induction false} ObjectClaim(ws: string, members: seq<Member>, close: string, behind: string, i: nat, fmt: Format)
    requires AllSpace(ws) && DocsOk(members) && AllSpace(close) && LastMember(members, i, KStr("id"))
    ensures Claim(ws + Text(ObjDoc(members, close)) + behind, fmt)
         == match Meaning(members[i].doc)
            case Str(s) => Ok(s)
            case Num(n) => Ok(TokText(fmt(n)))
            case _ => Err(NoId)
  {
    hide Parse, Text, MembersTable, LastMember, DocsOk;
    var doc := ObjDoc(members, close);
    ObjectMeaning(members, KStr("id"));
    ObjectFacts(members, close);
    DocInFront(ws, doc, behind, fmt);
  }

  lemma {:induction false} ObjectFacts(members: seq<Member>, close: string)
    requires DocsOk(members) && AllSpace(close)
    ensures WellFormed(ObjDoc(members, close)) && Meaning(ObjDoc(members, close)) == MembersTable(members)
  {
    hide MembersTable;
  }

  // A document in front of a payload is all that counts.
  lemma {:induction false} DocInFront(ws: string, doc: Doc, behind: string, fmt: Format)
    requires AllSpace(ws) && WellFormed(doc) && Ends(doc, ws + Text(doc) + behind, |ws| + |Text(doc)|)
    ensures Claim(ws + Text(doc) + behind, fmt)
         == match IdText(Meaning(doc), fmt) case Some(id) => Ok(id) case None => Err(NoId)
  {
    hide Parse, Text, WellFormed, Meaning, Ends, IdText;
    var t := ws + Text(doc);
    assert (t + behind)[0..|t|] == t;
    Complete(t + behind, 0, ws, doc, None);
  }

  // A document that has an id: an object whose last member of that name is a string or a number.
  ghost predicate HasId(doc: Doc)
    requires WellFormed(doc)
  {
    doc.ObjDoc? && DocsOk(doc.members)
    && exists i: nat :: LastMember(doc.members, i, KStr("id"))
         && (Meaning(doc.members[i].doc).Str? || Meaning(doc.members[i].doc).Num?)
  }

  // Only such a document has a text to offer, and a key of an array is never a string.
  lemma {:induction false} IdTextIff(doc: Doc, fmt: Format)
    requires WellFormed(doc)
    ensures IdText(Meaning(doc), fmt).Some? <==> HasId(doc)
  {
    hide LastMember, DocsOk, ArrayTable, MembersTable;
    match doc
    case ArrDoc(elems, _) =>
      ArrayItems(ElemValues(elems), KStr("id"));
    case ObjDoc(members, _) =>
      DocsAreOk(members);
      ObjectMeaning(members, KStr("id"));
    case _ =>
  }

  // A payload without an id is refused: one that is no object, and an object with no member of
  // that name, or with one that is neither a string nor a number.
  lemma {:induction false} NoIdClaim(ws: string, doc: Doc, behind: string, fmt: Format)
    requires AllSpace(ws) && WellFormed(doc) && Ends(doc, ws + Text(doc) + behind, |ws| + |Text(doc)|)
    ensures Claim(ws + Text(doc) + behind, fmt) == Err(NoId) <==> !HasId(doc)
  {
    hide Claim, Text, WellFormed, Meaning, Ends, IdText, HasId;
    DocInFront(ws, doc, behind, fmt);
    IdTextIff(doc, fmt);
  }

  // A payload offers an id: it starts with an object, and the last member named id is a string,
  // or a number that the host writes so.
  ghost predicate Offers(payload: string, ws: string, members: seq<Member>, close: string, behind: string, i: nat,
                         id: string, fmt: Format)
  {
    && payload == ws + Text(ObjDoc(members, close)) + behind
    && AllSpace(ws) && AllSpace(close) && DocsOk(members) && LastMember(members, i, KStr("id"))
    && match Meaning(members[i].doc)
       case Str(s) => id == s
       case Num(n) => id == TokText(fmt(n))
       case _ => false
  }

  lemma {:induction false} ClaimIff(payload: string, id: string, fmt: Format)
    ensures Claim(payload, fmt) == Ok(id)
       <==> exists ws, members, close, behind, i :: Offers(payload, ws, members, close, behind, i, id, fmt)
  {
    hide Claim, Text, LastMember, DocsOk, Meaning;
    if Claim(payload, fmt) == Ok(id) {
      var ws, doc, behind := ClaimSource(payload, fmt);
      IdTextIff(doc, fmt);
      var i: nat :| LastMember(doc.members, i, KStr("id"));
      ObjectClaim(ws, doc.members, doc.close, behind, i, fmt);
      assert Offers(payload, ws, doc.members, doc.close, behind, i, id, fmt);
    }
    forall ws, members, close, behind, i | Offers(payload, ws, members, close, behind, i, id, fmt)
      ensures Claim(payload, fmt) == Ok(id)
    {
      ObjectClaim(ws, members, close, behind, i, fmt);
    }
  }

  lemma {:induction false} ClaimSource(payload: string, fmt: Format) returns (ws: string, doc: Doc, behind: string)
    requires Claim(payload, fmt).Ok?
    ensures AllSpace(ws) && WellFormed(doc) && payload == ws + Text(doc) + behind
    ensures doc.ObjDoc? ==> AllSpace(doc.close)
    ensures IdText(Meaning(doc), fmt).Some?
  {
    hide Parse, Text, Meaning, IdText;
    ws, doc := Sound(payload, 0, None);
    var t := ws + Text(doc);
    behind := payload[|t|..];
    assert payload[0..|t|] == t;
  }

  // ---------------------------------------------------------------------------
  // Headers

  /**
   * The whole script: a header gives an id if and only if it has two dots, the part between the
   * first two decodes, and what it decodes to offers that id.
   */
  lemma {:induction false} HeaderClaimIff(header: string, id: string, fmt: Format)
    ensures HeaderClaim(header, fmt) == Ok(id)
       <==> exists x, p, y, payload :: header == x + "." + p + "." + y && DotFree(x) && DotFree(p)
              && Decode(p) == Ok(payload)
              && exists ws, members, close, behind, i :: Offers(payload, ws, members, close, behind, i, id, fmt)
  {
    hide Claim, Decode, Offers;
    if HeaderClaim(header, fmt) == Ok(id) {
      var first := FindDot(header, 0).value;
      var last := FindDot(header, first + 1).value;
      var x, p, y := header[..first], header[first + 1..last], header[last + 1..];
      HeaderSplit(header, first, last);
      ClaimIff(Decode(p).value, id, fmt);
    }
    forall x, p, y, payload | header == x + "." + p + "." + y && DotFree(x) && DotFree(p) && Decode(p) == Ok(payload)
      && exists ws, members, close, behind, i :: Offers(payload, ws, members, close, behind, i, id, fmt)
      ensures HeaderClaim(header, fmt) == Ok(id)
    {
      ClaimIff(payload, id, fmt);
      TokenParts(x, p, y, fmt);
    }
  }

  lemma {:induction false} HeaderSplit(header: string, first: nat, last: nat)
    requires first < last < |header| && header[first] == '.' && header[last] == '.'
    ensures header == header[..first] + "." + header[first + 1..last] + "." + header[last + 1..]
  {}

  // A header is no token exactly when it has fewer than two dots.
  lemma {:induction false} NotATokenIff(header: string, fmt: Format)
    ensures HeaderClaim(header, fmt) == Err(NotAToken)
       <==> forall i, j :: 0 <= i < j < |header| && header[i] == '.' ==> header[j] != '.'
  {
    hide Parse, IdText, Decode;
    var first := FindDot(header, 0);
    if first.Some? {
      var last := FindDot(header, first.value + 1);
      assert last.Some? ==> header[first.value] == '.' && header[last.value] == '.';
    }
  }

  // A token whose payload has no id is refused, in spite of the stray byte.
  lemma {:induction false} NoIdToken(x: string, ws: string, doc: Doc, behind: string, y: string, fmt: Format)
    requires DotFree(x) && IsBytes(ws + Text(doc) + behind)
    requires AllSpace(ws) && WellFormed(doc) && Ends(doc, ws + Text(doc) + behind, |ws| + |Text(doc)|)
    ensures HeaderClaim(Token(x, Unsigned(ws + Text(doc) + behind), y), fmt) == Err(NoId) <==> !HasId(doc)
  {
    hide Claim, HeaderClaim, Unsigned, Token, Text, WellFormed, Meaning, StrayByte, HasId, Ends;
    var payload := ws + Text(doc) + behind;
    TokenDecodes(x, payload, y, fmt);
    var stray := StrayByte(|payload|);
    Assoc(ws + Text(doc), behind, stray);
    EndsBeforeStray(payload, doc, |ws| + |Text(doc)|);
    NoIdClaim(ws, doc, behind + stray, fmt);
  }

  lemma {:induction false} EndsBeforeStray(payload: string, doc: Doc, end: nat)
    requires end <= |payload| && Ends(doc, payload, end)
    ensures Ends(doc, payload + StrayByte(|payload|), end)
  {}

  /**
   * End to end: a token that carries the text of an object gives its last member named id, in spite
   * of the stray byte.
   */
  lemma {:induction false} ObjectTokenClaim(x: string, ws: string, members: seq<Member>, close: string, behind: string,
                                            i: nat, y: string, fmt: Format)
    requires DotFree(x) && IsBytes(ws + Text(ObjDoc(members, close)) + behind)
    requires AllSpace(ws) && DocsOk(members) && AllSpace(close) && LastMember(members, i, KStr("id"))
    ensures HeaderClaim(Token(x, Unsigned(ws + Text(ObjDoc(members, close)) + behind), y), fmt)
         == match Meaning(members[i].doc)
            case Str(s) => Ok(s)
            case Num(n) => Ok(TokText(fmt(n)))
            case _ => Err(NoId)
  {
    hide Claim, HeaderClaim, Unsigned, Token, Text, Meaning, StrayByte, LastMember, DocsOk;
    var payload := ws + Text(ObjDoc(members, close)) + behind;
    TokenDecodes(x, payload, y, fmt);
    var stray := StrayByte(|payload|);
    Assoc(ws + Text(ObjDoc(members, close)), behind, stray);
    ObjectClaim(ws, members, close, behind + stray, i, fmt);
  }

  // In particular an integer is put behind the URL in decimal, when that is how the host writes
  // integers, whatever the spelling in the payload.
  lemma {:induction false} IntegerTokenClaim(x: string, members: seq<Member>, close: string, i: nat, n: int, y: string, fmt: Format)
    requires DotFree(x) && IsBytes(Text(ObjDoc(members, close)))
    requires DocsOk(members) && AllSpace(close) && LastMember(members, i, KStr("id"))
    requires Meaning(members[i].doc) == Num(n as real)
    requires fmt(n as real) == IntTok(n)
    ensures HeaderClaim(Token(x, Unsigned(Text(ObjDoc(members, close))), y), fmt)
         == Ok((if n < 0 then "-" else "") + NatText(if n < 0 then -n else n))
  {
    hide HeaderClaim, Unsigned, Token, Text, Meaning, LastMember, DocsOk;
    var text := Text(ObjDoc(members, close));
    assert "" + text + "" == text;
    ObjectTokenClaim(x, "", members, close, "", i, y, fmt);
    var t := IntTok(n);
    assert FractionText(t.fraction) + ExponentText(t.exponent) == "";
    assert t.ints + "" == t.ints;
  }

  /**
   * A value that was printed, encoded and put into a token gives its own id, in whatever order its
   * keys were printed, when it survives printing.
   */
  lemma {:induction false} PrintedTokenClaim(x: string, w: Walk, y: string, fmt: Format)
    requires DotFree(x) && ValidWalk(w) && WritesNumbers(fmt) && IsBytes(WalkText(w, fmt))
    requires Faithful(WalkValue(w), fmt)
    ensures HeaderClaim(Token(x, Unsigned(WalkText(w, fmt)), y), fmt)
         == match IdText(WalkValue(w), fmt) case Some(id) => Ok(id) case None => Err(NoId)
  {
    hide HeaderClaim, Unsigned, Token, WalkText, Parse, ValidWalk, WritesNumbers, Faithful, WalkValue, IdText;
    var text, v := WalkText(w, fmt), WalkValue(w);
    TokenDecodes(x, text, y, fmt);
    StringifyThenParse(w, fmt);
    StrayZero(text, 0, v, |text|);
    assert text + "" == text;
  }

  // ---------------------------------------------------------------------------
  // A payload that has a claim, and is lost in a base64url token

  const SLASHED: string := "{\"id\":\"a?\"}"

  lemma {:induction false} SlashedClaim(fmt: Format)
    ensures Claim(SLASHED, fmt) == Ok("a?")
  {
    var key, doc := StrDoc([Raw('i'), Raw('d')]), StrDoc([Raw('a'), Raw('?')]);
    var members := [Member("", key, "", "", doc, "", false)];
    PlainPair('i', 'd');
    PlainPair('a', '?');
    SlashedText(key, doc);
    OneMember(key, doc);
    assert LastMember(members, 0, KStr("id"));
    hide Text, Claim;
    assert "" + SLASHED + "" == SLASHED;
    ObjectClaim("", members, "", "", 0, fmt);
  }

  lemma {:induction false} OneMember(key: Doc, doc: Doc)
    requires WellFormed(key) && WellFormed(doc)
    ensures DocsOk([Member("", key, "", "", doc, "", false)])
  {
    var members := [Member("", key, "", "", doc, "", false)];
    assert MembersOk(members[1..]);
    assert MembersOk(members);
  }

  lemma {:induction false} PlainPair(a: char, b: char)
    requires ItemOk(Raw(a)) && ItemOk(Raw(b))
    ensures var doc := StrDoc([Raw(a), Raw(b)]);
            WellFormed(doc) && Meaning(doc) == Str([a, b]) && Text(doc) == ['"', a, b, '"']
  {
    var items := [Raw(a), Raw(b)];
    assert items[1..] == [Raw(b)] && [Raw(b)][1..] == [];
    assert ItemsText(items[1..]) == [b] + "" == [b];
    assert ItemsText(items) == [a] + [b] == [a, b];
    assert ItemsValue(items[1..]) == [b];
    assert ItemsValue(items) == [a, b];
  }

  lemma {:induction false} SlashedText(key: Doc, doc: Doc)
    requires Text(key) == "\"id\"" && Text(doc) == "\"a?\""
    ensures Text(ObjDoc([Member("", key, "", "", doc, "", false)], "")) == SLASHED
  {
    hide Text;
    var m := Member("", key, "", "", doc, "", false);
    assert "\"a?\"" + ("" + "") == "\"a?\"";
    MemberGlue("", "\"id\"", "\"a?\"", "");
    assert MemberText(m) == "" + ("\"id\"" + ":" + "\"a?\"") + "";
    assert MemberText(m) == "\"id\":\"a?\"";
    assert [m][1..] == [];
    assert MembersText([m]) == MemberText(m) + "" == MemberText(m);
    TextOfObject([m]);
    assert "{" + ("\"id\":\"a?\"" + ("" + "}")) == SLASHED;
  }

  lemma {:induction false} TextOfObject(members: seq<Member>)
    ensures Text(ObjDoc(members, "")) == "{" + (MembersText(members) + ("" + "}"))
  {
    hide MembersText;
  }

  // The third group of bytes ends with the bits of a slash.
  lemma {:induction false} SlashedLetters()
    ensures IsBytes(SLASHED) && '/' in Unsigned(SLASHED)
  {
    var b := ByteValues(SLASHED);
    assert b == [123, 34, 105, 100, 34, 58, 34, 97, 63, 34, 125];
    hide Unpadded, Encode;
    EncodeIsRfc(b);
    var c := b[3..][3..];
    assert c == [34, 97, 63, 34, 125];
    assert 34 * 0x10000 + 97 * 0x100 + 63 == 2253119;
    assert '/' in RfcEncode(c) by { SlashQuantum(); }
    assert RfcEncode(b[3..]) == Quantum(b[3] * 0x10000 + b[4] * 0x100 + b[5]) + RfcEncode(c);
    assert '/' in RfcEncode(b);
    EncodeSplit(b);
    var i :| 0 <= i < |Encode(b)| && Encode(b)[i] == '/';
    assert i < |Stripped(b)|;
  }

  lemma {:induction false} SlashQuantum()
    ensures Quantum(2253119)[3] == '/'
  {
    AlphabetIs(63);
  }

  lemma {:induction false} UrlTokenWitness(x: string, y: string, fmt: Format)
    requires DotFree(x)
    ensures IsBytes(SLASHED)
    ensures Claim(SLASHED, fmt) == Ok("a?") && HeaderClaim(Token(x, UrlText(Unsigned(SLASHED)), y), fmt).Err?
  {
    hide *;
    SlashedClaim(fmt);
    SlashedLetters();
    UrlTokenClaim(x, SLASHED, y, fmt);
  }
}
