/** from_base64 of tests/fixtures/lua/base64.lua, on every string, and the laws tying it to the encoder. */
module Base64Decode {
  import opened Wrappers
  import opened LuaText
  import opened Base64

  datatype DecodeError = InvalidCharacter(c: char) | MalformedPattern(c: char)

  // ---------------------------------------------------------------------------
  // string.find(index_table, char), where char is read as a one-character pattern

  datatype Found = Offset(at: nat) | Missing | Malformed

  function IndexFrom(c: char, i: nat): (r: Option<nat>)
    requires i <= |ALPHABET|
    ensures r.Some? ==> i <= r.value < |ALPHABET| && ALPHABET[r.value] == c
    ensures r.None? ==> forall j :: i <= j < |ALPHABET| ==> ALPHABET[j] != c
    decreases |ALPHABET| - i
  {
    if i == |ALPHABET| then None
    else if ALPHABET[i] == c then Some(i)
    else IndexFrom(c, i + 1)
  }

  // The offset counts from 1. A dot or a caret matches at the front, a dollar matches the
  // empty text behind the last letter, and three characters are no pattern at all.
  function Find(c: char): (f: Found)
    ensures f.Offset? ==> 1 <= f.at <= 65
  {
    if c == '.' || c == '^' then Offset(1)
    else if c == '$' then Offset(65)
    else if c == '%' || c == '[' || c == '(' then Malformed
    else match IndexFrom(c, 0) case Some(i) => Offset(i + 1) case None => Missing
  }

  predicate IsLetter(c: char) {
    c == '+' || c == '/' || '0' <= c <= '9' || 'A' <= c <= 'Z' || 'a' <= c <= 'z'
  }

  // The letter of a sextet, written with arithmetic instead of a table.
  function LetterOf(v: nat): (c: char)
    requires v < 64
    ensures IsLetter(c)
  {
    if v < 26 then (v + 65) as char
    else if v < 52 then (v + 71) as char
    else if v < 62 then (v - 4) as char
    else if v == 62 then '+' else '/'
  }

  function SextetOf(c: char): (v: nat)
    requires IsLetter(c)
    ensures v < 64 && LetterOf(v) == c
  {
    if 'A' <= c <= 'Z' then c as int - 65
    else if 'a' <= c <= 'z' then c as int - 71
    else if '0' <= c <= '9' then c as int + 4
    else if c == '+' then 62 else 63
  }

  lemma {:induction false} AlphabetIs(v: nat)
    requires v < 64
    ensures |ALPHABET| == 64 && ALPHABET[v] == LetterOf(v)
  {
    if v < 26 {
      UpperIs(v);
    } else if v < 52 {
      LowerIs(v - 26);
    } else if v < 62 {
      DigitIs(v - 52);
    }
  }

  lemma {:induction false} UpperIs(v: nat)
    requires v < 26
    ensures |UPPER| == 26 && UPPER[v] == (v + 65) as char
  {}

  lemma {:induction false} LowerIs(v: nat)
    requires v < 26
    ensures |LOWER| == 26 && LOWER[v] == (v + 97) as char
  {}

  lemma {:induction false} DigitIs(v: nat)
    requires v < 10
    ensures |DIGITS| == 10 && DIGITS[v] == (v + 48) as char
  {}

  // The table search finds a letter exactly at its own sextet.
  lemma {:induction false} FindLetter(v: nat)
    requires v < 64
    ensures Find(ALPHABET[v]) == Offset(v + 1)
  {
    hide IndexFrom;
    AlphabetIs(v);
    hide ALPHABET;
    var r := IndexFrom(ALPHABET[v], 0);
    assert r.Some?;
    AlphabetIs(r.value);
    assert SextetOf(LetterOf(v)) == v && SextetOf(LetterOf(r.value)) == r.value;
  }

  lemma {:induction false} FindMisses(c: char)
    requires !IsLetter(c) && c !in ".^$%[("
    ensures Find(c) == Missing
  {
    var r := IndexFrom(c, 0);
    if r.Some? {
      AlphabetIs(r.value);
    }
  }

  // ---------------------------------------------------------------------------
  // from_base64

  function Filter(t: string, keep: char -> bool): (r: string)
    ensures |r| <= |t|
  {
    if t == "" then ""
    else if keep(t[0]) then [t[0]] + Filter(t[1..], keep)
    else Filter(t[1..], keep)
  }

  // gsub("%s", "") and gsub("=", "")
  function Padded(t: string): (r: string)
    ensures |r| <= |t|
  {
    Filter(t, (c: char) => !IsSpace(c))
  }

  function Unpadded(t: string): (r: string)
    ensures |r| <= |Padded(t)| <= |t|
  {
    Filter(Padded(t), (c: char) => c != '=')
  }

  function CharBits(c: char): Result<Bits, DecodeError> {
    match Find(c)
    case Offset(at) => Ok(BitsOf(at - 1, 8)[2..])
    case Missing => Err(InvalidCharacter(c))
    case Malformed => Err(MalformedPattern(c))
  }

  function TextBits(t: string): Result<Bits, DecodeError> {
    if t == "" then Ok([])
    else
      var n := |t| - 1;
      var front := TextBits(t[..n]);
      if front.Err? then front else
      var last := CharBits(t[n]);
      if last.Err? then last else Ok(front.value + last.value)
  }

  lemma {:induction false} GroupsBelow(bits: Bits, width: nat)
    requires width > 0
    ensures Below(Groups(bits, width), Pow2(width))
    decreases |bits|
  {
    hide FromBinary, BitsOf, Pow2;
    if bits == [] {
    } else if |bits| <= width {
      BitsOfFrom(bits);
      Pow2Grows(|bits|, width);
    } else {
      BitsOfFrom(bits[..width]);
      GroupsBelow(bits[width..], width);
    }
  }

  lemma {:induction false} Pow2Grows(a: nat, b: nat)
    requires a <= b
    ensures Pow2(a) <= Pow2(b)
  {
    if a < b {
      Pow2Grows(a, b - 1);
    }
  }

  // The bytes of a bit pattern; a short last group makes a byte of its own.
  function BytesOf(bits: Bits): (b: seq<nat>)
    ensures Below(b, 256)
  {
    GroupsBelow(bits, 8);
    assert Pow2(8) == 256;
    Groups(bits, 8)
  }

  // decoded:sub(1, -2), done when one or two '=' were removed
  function DropPadding(b: seq<nat>, padding: nat): (r: seq<nat>)
    ensures forall n :: Below(b, n) ==> Below(r, n)
  {
    if (padding == 1 || padding == 2) && b != [] then b[..|b| - 1] else b
  }

  // What from_base64 computes: the letter count comes from the stripped text, the letters
  // themselves are the first ones of the text as given.
  function Decode(t: string): Result<string, DecodeError> {
    var padded, unpadded := Padded(t), Unpadded(t);
    var bits := TextBits(t[..|unpadded|]);
    if bits.Err? then Err(bits.error)
    else Ok(ByteString(DropPadding(BytesOf(bits.value), |padded| - |unpadded|)))
  }

  method FromBase64(t: string) returns (r: Result<string, DecodeError>)
    ensures r == Decode(t)
  {
    hide Filter, TextBits, BytesOf;
    var padded, unpadded := Padded(t), Unpadded(t);
    var pattern := ReadLetters(t, |unpadded|);
    if pattern.Err? {
      return Err(pattern.error);
    }
    var decoded := WriteBytes(pattern.value);
    var padding := |padded| - |unpadded|;
    if (padding == 1 || padding == 2) && |decoded| > 0 {
      decoded := decoded[..|decoded| - 1];
    }
    assert decoded == ByteString(DropPadding(BytesOf(pattern.value), padding));
    r := Ok(decoded);
  }

  method ReadLetters(t: string, n: nat) returns (r: Result<Bits, DecodeError>)
    requires n <= |t|
    ensures r == TextBits(t[..n])
  {
    var pattern: Bits := [];
    for i := 0 to n
      invariant TextBits(t[..i]) == Ok(pattern)
    {
      var found := Find(t[i]);
      assert t[..i + 1][..i] == t[..i];
      if !found.Offset? {
        TextBitsFails(t, i + 1, n);
        return if found.Missing? then Err(InvalidCharacter(t[i])) else Err(MalformedPattern(t[i]));
      }
      var bits := ToBinary(found.at - 1);
      pattern := pattern + bits[2..];
    }
    r := Ok(pattern);
  }

  lemma {:induction false} ByteStringPrefix(b: seq<nat>, n: nat)
    requires Below(b, 256) && n < |b|
    ensures ByteString(b[..n + 1]) == ByteString(b[..n]) + [b[n] as char]
  {}

  method WriteBytes(pattern: Bits) returns (decoded: string)
    ensures decoded == ByteString(BytesOf(pattern))
  {
    hide FromBinary, Groups, ByteString;
    ghost var bytes := BytesOf(pattern);
    NoBytes();
    decoded := "";
    var i := 0;
    while i < |pattern|
      invariant i <= |pattern|
      invariant |decoded| <= |bytes| && decoded == ByteString(bytes[..|decoded|])
      invariant Groups(pattern[i..], 8) == bytes[|decoded|..]
    {
      var j := if i + 8 <= |pattern| then i + 8 else |pattern|;
      var group := pattern[i..j];
      ghost var done := |decoded|;
      FirstGroup(pattern, i, j);
      HeadOf(bytes, done, FromBinary(group), Groups(pattern[j..], 8));
      ByteStringPrefix(bytes, done);
      decoded := decoded + [FromBinary(group) as char];
      i := j;
    }
    assert pattern[i..] == [];
    GroupsNone(8);
    assert bytes[..|decoded|] == bytes;
  }

  lemma {:induction false} NoBytes()
    ensures ByteString([]) == ""
  {}

  lemma {:induction false} FirstGroup(pattern: Bits, i: nat, j: nat)
    requires i < j <= |pattern| && j == if i + 8 <= |pattern| then i + 8 else |pattern|
    ensures Groups(pattern[i..], 8) == [FromBinary(pattern[i..j])] + Groups(pattern[j..], 8)
  {
    hide FromBinary;
    assert pattern[i..] == pattern[i..j] + pattern[j..];
    if j == i + 8 {
      GroupsStep(pattern[i..j], pattern[j..], 8);
    } else {
      assert pattern[i..j] == pattern[i..];
    }
  }

  lemma {:induction false} HeadOf(b: seq<nat>, n: nat, x: nat, rest: seq<nat>)
    requires n <= |b| && b[n..] == [x] + rest
    ensures n < |b| && b[n] == x && b[n + 1..] == rest
  {
    assert b[n..][0] == x;
    assert b[n + 1..] == b[n..][1..];
  }

  // The first bad character decides.
  lemma {:induction false} TextBitsFails(t: string, i: nat, n: nat)
    requires i <= n <= |t| && TextBits(t[..i]).Err?
    ensures TextBits(t[..n]) == TextBits(t[..i])
  {
    hide CharBits, TextBits;
    if i < n {
      TextBitsFails(t, i, n - 1);
      assert t[..n][..n - 1] == t[..n - 1];
      FailsOn(t[..n]);
    }
  }

  lemma {:induction false} FailsOn(t: string)
    requires t != "" && TextBits(t[..|t| - 1]).Err?
    ensures TextBits(t) == TextBits(t[..|t| - 1])
  {
    hide CharBits;
  }

  // ---------------------------------------------------------------------------
  // Laws

  predicate AllLetters(t: string) {
    forall i :: 0 <= i < |t| ==> IsLetter(t[i])
  }

  function Repeat(c: char, n: nat): (r: string)
    ensures |r| == n && forall i :: 0 <= i < n ==> r[i] == c
  {
    seq(n, _ => c)
  }

  lemma {:induction false} FilterCons(c: char, t: string, keep: char -> bool)
    ensures Filter([c] + t, keep) == (if keep(c) then [c] else []) + Filter(t, keep)
  {
    assert ([c] + t)[1..] == t;
  }

  lemma {:induction false} FilterConcat(a: string, b: string, keep: char -> bool)
    ensures Filter(a + b, keep) == Filter(a, keep) + Filter(b, keep)
  {
    hide Filter;
    if a == "" {
      assert a + b == b;
      FilterNone(keep);
    } else {
      var c, t := a[0], a[1..];
      assert a == [c] + t;
      Assoc([c], t, b);
      FilterConcat(t, b, keep);
      FilterCons(c, t, keep);
      FilterCons(c, t + b, keep);
      Assoc(if keep(c) then [c] else [], Filter(t, keep), Filter(b, keep));
    }
  }

  lemma {:induction false} FilterNone(keep: char -> bool)
    ensures Filter("", keep) == ""
  {}

  lemma {:induction false} FilterKeeps(t: string, keep: char -> bool)
    requires forall i :: 0 <= i < |t| ==> keep(t[i])
    ensures Filter(t, keep) == t
  {
    if t != "" {
      FilterKeeps(t[1..], keep);
    }
  }

  lemma {:induction false} FilterDrops(t: string, keep: char -> bool)
    requires forall i :: 0 <= i < |t| ==> !keep(t[i])
    ensures Filter(t, keep) == ""
  {
    if t != "" {
      FilterDrops(t[1..], keep);
    }
  }

  // Six bits per letter.
  lemma {:induction false} LetterBits(v: nat)
    requires v < 64
    ensures CharBits(ALPHABET[v]) == Ok(BitsOf(v, 6))
  {
    FindLetter(v);
    LowSix(0, v);
  }

  // The low six of eight bits.
  lemma {:induction false} LowSix(high: nat, v: nat)
    requires v < 64
    ensures BitsOf(high * 64 + v, 8)[2..] == BitsOf(v, 6)
  {
    assert Pow2(6) == 64;
    BitsOfConcat(high, 2, v, 6);
    hide BitsOf;
    assert (BitsOf(high, 2) + BitsOf(v, 6))[2..] == BitsOf(v, 6);
  }

  lemma {:induction false} TextSnoc(t: string, c: char)
    ensures TextBits(t).Ok? && CharBits(c).Ok?
        ==> TextBits(t + [c]) == Ok(TextBits(t).value + CharBits(c).value)
  {
    hide CharBits;
    assert (t + [c])[..|t|] == t;
  }

  lemma {:induction false} LettersBits(vals: seq<nat>)
    requires Below(vals, 64)
    ensures TextBits(Letters(vals)) == Ok(Spread(vals, 6))
  {
    hide TextBits, Spread, CharBits, Letters, BitsOf, ALPHABET;
    if vals == [] {
      NoBits();
    } else {
      var front, v := vals[..|vals| - 1], vals[|vals| - 1];
      assert vals == front + [v];
      LettersBits(front);
      AlphabetIs(v);
      LetterBits(v);
      LettersSnoc(front, v);
      TextSnoc(Letters(front), ALPHABET[v]);
      SpreadSnoc(front, v, 6);
    }
  }

  lemma {:induction false} NoBits()
    ensures TextBits(Letters([])) == Ok(Spread([], 6))
  {}

  // Letters with padding behind them decode to the bytes of their bits.
  lemma {:induction false} DecodeLetters(vals: seq<nat>, k: nat)
    requires Below(vals, 64)
    ensures Decode(Letters(vals) + Repeat('=', k))
         == Ok(ByteString(DropPadding(BytesOf(Spread(vals, 6)), k)))
  {
    var letters, eqs := Letters(vals), Repeat('=', k);
    LettersAreLetters(vals);
    StripPadded(letters, eqs);
    assert (letters + eqs)[..|letters|] == letters;
    LettersBits(vals);
  }

  lemma {:induction false} LettersAreLetters(vals: seq<nat>)
    requires Below(vals, 64)
    ensures AllLetters(Letters(vals))
  {
    forall i | 0 <= i < |vals| ensures IsLetter(Letters(vals)[i]) {
      AlphabetIs(vals[i]);
    }
  }

  lemma {:induction false} StripPadded(letters: string, eqs: string)
    requires AllLetters(letters) && forall i :: 0 <= i < |eqs| ==> eqs[i] == '='
    ensures Padded(letters + eqs) == letters + eqs
    ensures Unpadded(letters + eqs) == letters
  {
    FilterKeeps(letters + eqs, (c: char) => !IsSpace(c));
    FilterConcat(letters, eqs, (c: char) => c != '=');
    FilterKeeps(letters, (c: char) => c != '=');
    FilterDrops(eqs, (c: char) => c != '=');
    assert letters + "" == letters;
  }

  // The sextets that are left once the letters replaced by padding are gone.
  function KeptSextets(b: seq<nat>): (v: seq<nat>)
    ensures Below(v, 64)
  {
    SextetsFacts(b);
    TrailingFits(b);
    Sextets(b)[..|Sextets(b)| - |Trailing(8 * |b|)|]
  }

  // The encoding without its padding.
  function Stripped(b: seq<nat>): string {
    Letters(KeptSextets(b))
  }

  lemma {:induction false} EncodeSplit(b: seq<nat>)
    ensures Encode(b) == Stripped(b) + Repeat('=', |Trailing(8 * |b|)|)
    ensures Unpadded(Encode(b)) == Stripped(b)
  {
    SextetsFacts(b);
    TrailingFits(b);
    var k := |Trailing(8 * |b|)|;
    assert Trailing(8 * |b|) == Repeat('=', k);
    assert Letters(Sextets(b))[..|Sextets(b)| - k] == Stripped(b);
    LettersAreLetters(KeptSextets(b));
    StripPadded(Stripped(b), Repeat('=', k));
  }

  // Four characters for every three bytes begun; at the end two, one or no '=', and letters before.
  lemma {:induction false} EncodeShape(b: seq<nat>)
    ensures |Encode(b)| == 4 * ((|b| + 2) / 3)
    ensures var k := if |b| % 3 == 0 then 0 else 3 - |b| % 3;
            && k <= |Encode(b)|
            && (forall i :: 0 <= i < |Encode(b)| - k ==> IsLetter(Encode(b)[i]))
            && (forall i :: |Encode(b)| - k <= i < |Encode(b)| ==> Encode(b)[i] == '=')
  {
    hide Encode, Stripped;
    PadToQuanta(|b|);
    EncodeSplit(b);
    StrippedLetters(b);
  }

  lemma {:induction false} StrippedLetters(b: seq<nat>)
    ensures AllLetters(Stripped(b))
  {
    LettersAreLetters(KeptSextets(b));
  }

  lemma {:induction false} SpreadPrefix(vals: seq<nat>, n: nat, width: nat)
    requires n <= |vals|
    ensures n * width <= |Spread(vals, width)|
    ensures Spread(vals[..n], width) == Spread(vals, width)[..n * width]
  {
    SpreadLength(vals[..n], width);
    SpreadConcat(vals[..n], vals[n..], width);
    assert vals == vals[..n] + vals[n..];
  }

  // The zero bits that stay behind the bytes: none, four or two.
  function LeftOver(n: nat): nat {
    if n % 3 == 0 then 0 else if n % 3 == 1 then 4 else 2
  }

  lemma {:induction false} KeptCount(b: seq<nat>)
    ensures 6 * |KeptSextets(b)| == 8 * |b| + LeftOver(|b|)
  {
    hide Sextets;
    SextetsFacts(b);
    TrailingFits(b);
    PadToQuanta(|b|);
  }

  lemma {:induction false} PaddedPrefix(b: seq<nat>)
    ensures 8 * |b| + LeftOver(|b|) <= |PaddedBits(b)|
    ensures PaddedBits(b)[..8 * |b| + LeftOver(|b|)] == Spread(b, 8) + Zeros(LeftOver(|b|))
  {
    hide Spread;
    PadToQuanta(|b|);
    SpreadLength(b, 8);
  }

  lemma {:induction false} KeptIsPrefix(b: seq<nat>)
    ensures |KeptSextets(b)| <= |Sextets(b)|
    ensures KeptSextets(b) == Sextets(b)[..|KeptSextets(b)|]
  {
    hide Sextets, Trailing;
    TrailingFits(b);
  }

  // The kept sextets hold the bytes and the left-over zero bits.
  lemma {:induction false} KeptBits(b: seq<nat>)
    ensures Spread(KeptSextets(b), 6) == Spread(b, 8) + Zeros(LeftOver(|b|))
  {
    hide *;
    var n := |KeptSextets(b)|;
    KeptIsPrefix(b);
    SpreadPrefix(Sextets(b), n, 6);
    SextetsFacts(b);
    KeptCount(b);
    assert n * 6 == 8 * |b| + LeftOver(|b|);
    PaddedPrefix(b);
  }

  // The zero bits left over make exactly one zero byte.
  lemma {:induction false} KeptBytes(b: seq<nat>)
    requires Below(b, 256)
    ensures BytesOf(Spread(KeptSextets(b), 6)) == if |b| % 3 == 0 then b else b + [0]
  {
    KeptBits(b);
    assert Pow2(8) == 256;
    GroupsOfSpread(b, 8, Zeros(LeftOver(|b|)));
    ZerosAreZero(LeftOver(|b|));
  }

  lemma {:induction false} PaddedBytes(b: seq<nat>)
    requires Below(b, 256)
    ensures Decode(Encode(b)) == Ok(ByteString(b))
  {
    var k := |Trailing(8 * |b|)|;
    EncodeSplit(b);
    DecodeLetters(KeptSextets(b), k);
    KeptBytes(b);
    PadToQuanta(|b|);
    assert (b + [0])[..|b|] == b;
  }

  lemma {:induction false} StrippedBytes(b: seq<nat>)
    requires Below(b, 256)
    ensures Decode(Unpadded(Encode(b))) == Ok(ByteString(if |b| % 3 == 0 then b else b + [0]))
  {
    EncodeSplit(b);
    DecodeLetters(KeptSextets(b), 0);
    assert Stripped(b) + Repeat('=', 0) == Stripped(b);
    KeptBytes(b);
  }

  // from_base64 undoes to_base64 on every string.
  lemma {:induction false} RoundTrip(s: string)
    requires IsBytes(s)
    ensures Decode(Encode(ByteValues(s))) == Ok(s)
  {
    hide *;
    PaddedBytes(ByteValues(s));
    BytesBack(s);
  }

  // Without its padding the encoding decodes to the string, or to the string and one zero byte.
  lemma {:induction false} StrippedRoundTrip(s: string)
    requires IsBytes(s)
    ensures Decode(Unpadded(Encode(ByteValues(s)))) == Ok(s + StrayByte(|s|))
  {
    hide Decode, Encode, Unpadded, ByteValues;
    var b := ByteValues(s);
    StrippedBytes(b);
    BytesBack(s);
    assert ByteString(b + [0]) == ByteString(b) + [0 as char];
    assert s + "" == s;
  }

  // The text without its last character, when one or two '=' were removed.
  function Drop(s: string, k: nat): string {
    if (k == 1 || k == 2) && s != "" then s[..|s| - 1] else s
  }

  // However many '=' stand behind the letters: the last byte goes for one or two of them, and
  // for no other number.
  lemma {:induction false} PaddingDrops(s: string, k: nat)
    requires IsBytes(s)
    ensures Decode(Unpadded(Encode(ByteValues(s))) + Repeat('=', k)) == Ok(Drop(s + StrayByte(|s|), k))
  {
    hide *;
    var b := ByteValues(s);
    PaddedWith(b, k);
    DropBytes(WithStray(b), k);
    StrayString(s);
  }

  function WithStray(b: seq<nat>): (r: seq<nat>)
    ensures Below(b, 256) ==> Below(r, 256)
  {
    if |b| % 3 == 0 then b else b + [0]
  }

  lemma {:induction false} PaddedWith(b: seq<nat>, k: nat)
    requires Below(b, 256)
    ensures Decode(Unpadded(Encode(b)) + Repeat('=', k)) == Ok(ByteString(DropPadding(WithStray(b), k)))
  {
    hide Decode, Encode, Unpadded, Stripped, DropPadding, KeptSextets, BytesOf, ByteString;
    EncodeSplit(b);
    StrippedIs(b);
    DecodeLetters(KeptSextets(b), k);
    KeptBytes(b);
  }

  lemma {:induction false} StrippedIs(b: seq<nat>)
    ensures Stripped(b) == Letters(KeptSextets(b))
  {
    hide KeptSextets, Letters;
  }

  lemma {:induction false} DropBytes(b: seq<nat>, k: nat)
    requires Below(b, 256)
    ensures ByteString(DropPadding(b, k)) == Drop(ByteString(b), k)
  {}

  lemma {:induction false} StrayString(s: string)
    requires IsBytes(s)
    ensures ByteString(WithStray(ByteValues(s))) == s + StrayByte(|s|)
  {
    BytesBack(s);
  }

  // What an unpadded decoding leaves behind a string of n bytes.
  function StrayByte(n: nat): string {
    if n % 3 == 0 then "" else [0 as char]
  }

  // ---------------------------------------------------------------------------
  // Every string, whatever it holds

  // The characters that from_base64 takes for letters: three are magic in patterns.
  predicate Readable(c: char) {
    IsLetter(c) || c in ".^$"
  }

  // The error for any other character.
  function Refusal(c: char): DecodeError {
    if c in "%[(" then MalformedPattern(c) else InvalidCharacter(c)
  }

  lemma {:induction false} CharRead(c: char)
    ensures Readable(c) <==> CharBits(c).Ok?
    ensures !Readable(c) ==> CharBits(c) == Err(Refusal(c))
  {
    hide IndexFrom, BitsOf;
    if IsLetter(c) {
      AlphabetIs(SextetOf(c));
      LetterBits(SextetOf(c));
    } else if c !in ".^$%[(" {
      FindMisses(c);
    }
  }

  predicate AllReadable(t: string) {
    forall i :: 0 <= i < |t| ==> Readable(t[i])
  }

  lemma {:induction false} TextStep(t: string)
    requires t != ""
    ensures TextBits(t).Ok? <==> TextBits(t[..|t| - 1]).Ok? && CharBits(t[|t| - 1]).Ok?
  {
    hide CharBits;
  }

  lemma {:induction false} ReadableStep(t: string)
    requires t != ""
    ensures AllReadable(t) <==> AllReadable(t[..|t| - 1]) && Readable(t[|t| - 1])
  {
    hide Readable;
    var front := t[..|t| - 1];
    assert forall i :: 0 <= i < |front| ==> t[i] == front[i];
  }

  lemma {:induction false} TextRead(t: string)
    ensures TextBits(t).Ok? <==> AllReadable(t)
  {
    if t != "" {
      hide *;
      TextRead(t[..|t| - 1]);
      CharRead(t[|t| - 1]);
      TextStep(t);
      ReadableStep(t);
    }
  }

  // As many characters as the stripped text has must be readable.
  lemma {:induction false} DecodesWhen(t: string)
    ensures Decode(t).Ok? <==> AllReadable(t[..|Unpadded(t)|])
  {
    hide Unpadded, Padded, AllReadable, TextBits, BytesOf;
    TextRead(t[..|Unpadded(t)|]);
  }

  // The first one that is not decides on the error.
  lemma {:induction false} FailsAt(t: string, i: nat)
    requires i < |Unpadded(t)| && AllReadable(t[..i]) && !Readable(t[i])
    ensures Decode(t) == Err(Refusal(t[i]))
  {
    hide Unpadded, Padded, AllReadable, BytesOf, CharBits, Readable, Refusal;
    CharRead(t[i]);
    TextRead(t[..i]);
    assert t[..i + 1][..i] == t[..i];
    TextBitsFails(t, i + 1, |Unpadded(t)|);
  }

  lemma {:induction false} RefusedIsUnreadable(t: string)
    ensures TextBits(t).Err? && TextBits(t).error.InvalidCharacter? ==> !Readable(TextBits(t).error.c)
  {
    if t != "" {
      hide CharBits, Readable;
      RefusedIsUnreadable(t[..|t| - 1]);
      CharRead(t[|t| - 1]);
    }
  }

  // The first character that is no letter is refused as invalid, unless it is magic in patterns.
  lemma {:induction false} ForeignCharacter(t: string, i: nat)
    requires i < |Unpadded(t)| && AllLetters(t[..i]) && !IsLetter(t[i])
    ensures Decode(t) == Err(InvalidCharacter(t[i])) <==> t[i] !in ".^$%[("
  {
    hide Unpadded, Padded, BytesOf, TextBits;
    if Readable(t[i]) {
      RefusedIsUnreadable(t[..|Unpadded(t)|]);
    } else {
      hide Decode;
      FailsAt(t, i);
    }
  }

  // The magic characters are all read as the letter A.
  function ReadAs(c: char): char {
    if c in ".^$" then 'A' else c
  }

  function AllReadAs(t: string): (u: string)
    ensures |u| == |t| && forall i :: 0 <= i < |u| ==> u[i] == ReadAs(t[i])
  {
    seq(|t|, i requires 0 <= i < |t| => ReadAs(t[i]))
  }

  lemma {:induction false} MagicIsA(c: char)
    requires c in ".^$"
    ensures CharBits(c) == CharBits('A')
  {
    hide IndexFrom, BitsOf;
    AlphabetIs(0);
    LetterBits(0);
    hide ALPHABET;
    LowSix(0, 0);
    LowSix(1, 0);
  }

  lemma {:induction false} MagicTextBits(t: string)
    ensures TextBits(t).Ok? ==> TextBits(AllReadAs(t)) == TextBits(t)
  {
    if t != "" {
      hide CharBits, AllReadAs;
      var n := |t| - 1;
      MagicTextBits(t[..n]);
      assert AllReadAs(t)[..n] == AllReadAs(t[..n]);
      if t[n] in ".^$" {
        MagicIsA(t[n]);
      }
    }
  }

  lemma {:induction false} MagicStripped(t: string)
    ensures Padded(AllReadAs(t)) == AllReadAs(Padded(t)) && Unpadded(AllReadAs(t)) == AllReadAs(Unpadded(t))
  {
    MagicFiltered(t, (c: char) => !IsSpace(c));
    MagicFiltered(Padded(t), (c: char) => c != '=');
  }

  lemma {:induction false} MagicFiltered(t: string, keep: char -> bool)
    requires forall c :: keep(ReadAs(c)) == keep(c)
    ensures Filter(AllReadAs(t), keep) == AllReadAs(Filter(t, keep))
  {
    if t != "" {
      hide ReadAs;
      MagicFiltered(t[1..], keep);
      assert AllReadAs(t)[1..] == AllReadAs(t[1..]);
    }
  }

  /**
   * The characters dot, caret and dollar are never refused as invalid: a text that decodes does so
   * like the text with an A in their place.
   */
  lemma {:induction false} MagicReadsAsA(t: string)
    requires Decode(t).Ok?
    ensures Decode(AllReadAs(t)) == Decode(t)
  {
    hide Padded, Unpadded, BytesOf, TextBits, AllReadAs;
    var n := |Unpadded(t)|;
    MagicStripped(t);
    MagicTextBits(t[..n]);
    assert AllReadAs(t)[..n] == AllReadAs(t[..n]);
  }

  lemma {:induction false} MagicWitness(c: char)
    requires c in ".^$"
    ensures Decode([c] + "AAA") == Decode("AAAA") && Decode("AAAA").Ok?
  {
    hide Padded, Unpadded, Decode, AllReadAs;
    var t := [c] + "AAA";
    NothingToStrip(t);
    NothingToStrip("AAAA");
    assert t[..4] == t && "AAAA"[..4] == "AAAA";
    DecodesWhen(t);
    DecodesWhen("AAAA");
    MagicReadsAsA(t);
    assert AllReadAs(t) == "AAAA";
  }

  // ---------------------------------------------------------------------------
  // White space and padding

  // The characters that stripping leaves.
  predicate Kept(c: char) {
    !IsSpace(c) && c != '='
  }

  predicate KeptFirst(t: string) {
    forall i, j :: 0 <= i < j < |t| && Kept(t[j]) ==> Kept(t[i])
  }

  lemma {:induction false} UnpaddedConcat(a: string, b: string)
    ensures Padded(a + b) == Padded(a) + Padded(b)
    ensures Unpadded(a + b) == Unpadded(a) + Unpadded(b)
  {
    FilterConcat(a, b, (c: char) => !IsSpace(c));
    FilterConcat(Padded(a), Padded(b), (c: char) => c != '=');
  }

  lemma {:induction false} NothingToStrip(t: string)
    requires forall i :: 0 <= i < |t| ==> !IsSpace(t[i]) && t[i] != '='
    ensures Padded(t) == t && Unpadded(t) == t
  {
    hide Filter;
    FilterKeeps(t, (c: char) => !IsSpace(c));
    FilterKeeps(t, (c: char) => c != '=');
  }

  // A text strips to nothing exactly when none of its characters is kept.
  lemma {:induction false} UnpaddedEmpty(t: string)
    ensures Unpadded(t) == "" <==> forall i :: 0 <= i < |t| ==> !Kept(t[i])
  {
    if t != "" {
      hide Padded, Unpadded, Kept;
      var c, rest := t[0], t[1..];
      assert t == [c] + rest;
      UnpaddedConcat([c], rest);
      UnpaddedEmpty(rest);
      UnpaddedChar(c);
      assert forall i :: 0 <= i < |rest| ==> rest[i] == t[i + 1];
    } else {
      NothingToStrip(t);
    }
  }

  lemma {:induction false} UnpaddedChar(c: char)
    ensures Unpadded([c]) == if Kept(c) then [c] else ""
  {
    FilterCons(c, "", (c: char) => !IsSpace(c));
    FilterCons(c, "", (c: char) => c != '=');
    assert [c] + "" == [c];
  }

  // The characters that are read are those that were kept, exactly when these come first.
  lemma {:induction false} ReadIsKept(t: string)
    ensures var n := |Unpadded(t)|;
            if KeptFirst(t) then t[..n] == Unpadded(t) else exists i :: 0 <= i < n && !Kept(t[i])
  {
    var n := |Unpadded(t)|;
    if i :| 0 <= i < n && !Kept(t[i]) {
      if KeptFirst(t) {
        NoneKeptBehind(t, i);
      }
    } else {
      KeptToTheEnd(t, n);
    }
  }

  lemma {:induction false} KeptToTheEnd(t: string, n: nat)
    requires n == |Unpadded(t)| && forall i :: 0 <= i < n ==> Kept(t[i])
    ensures t[..n] == Unpadded(t) && KeptFirst(t)
  {
    hide Padded, Unpadded, Kept;
    assert t == t[..n] + t[n..];
    UnpaddedConcat(t[..n], t[n..]);
    AllKept(t[..n]);
    UnpaddedEmpty(t[n..]);
    forall i | n <= i < |t| ensures !Kept(t[i]) {
      assert t[n..][i - n] == t[i];
    }
  }

  lemma {:induction false} AllKept(t: string)
    requires forall i :: 0 <= i < |t| ==> Kept(t[i])
    ensures Unpadded(t) == t
  {
    NothingToStrip(t);
  }

  // Behind a character that is stripped nothing is kept, so fewer than n characters are.
  lemma {:induction false} NoneKeptBehind(t: string, i: nat)
    requires KeptFirst(t) && i < |t| && !Kept(t[i])
    ensures |Unpadded(t)| <= i
  {
    hide Padded, Unpadded, Kept;
    assert t == t[..i] + t[i..];
    UnpaddedConcat(t[..i], t[i..]);
    forall k | 0 <= k < |t[i..]| ensures !Kept(t[i..][k]) {
      assert t[i..][k] == t[i + k];
    }
    UnpaddedEmpty(t[i..]);
  }

  /**
   * A text is decoded exactly when everything that stripping leaves is readable and stands in
   * front of what it removes; where the stripped text decodes, white space is harmless exactly then.
   */
  lemma {:induction false} WhitespaceIgnored(t: string)
    ensures Decode(t).Ok?
       <==> KeptFirst(t) && AllReadable(Unpadded(t))
    ensures KeptFirst(t) ==> Decode(t) == Decode(Padded(t))
    ensures Decode(Padded(t)).Ok? ==> (Decode(t) == Decode(Padded(t)) <==> KeptFirst(t))
  {
    hide Padded, Unpadded, Decode, KeptFirst;
    var n := |Unpadded(t)|;
    DecodesWhen(t);
    ReadIsKept(t);
    if KeptFirst(t) {
      StrippedAgrees(t, n);
    } else {
      var i :| 0 <= i < n && !Kept(t[i]);
      assert !Readable(t[..n][i]);
    }
  }

  lemma {:induction false} StrippedAgrees(t: string, n: nat)
    requires n == |Unpadded(t)| && t[..n] == Unpadded(t)
    ensures Decode(t) == Decode(Padded(t))
  {
    hide Filter, TextBits, BytesOf;
    assert t == t[..n] + t[n..];
    UnpaddedConcat(t[..n], t[n..]);
    UnpaddedKept(t);
    AllKept(t[..n]);
    NothingToStrip(t[..n]);
    PaddedTwice(t);
    assert Padded(t)[..n] == t[..n];
  }

  lemma {:induction false} UnpaddedKept(t: string)
    ensures forall i :: 0 <= i < |Unpadded(t)| ==> Kept(Unpadded(t)[i])
  {
    KeptAreKept(t, (c: char) => !IsSpace(c));
    KeptAreKept(Padded(t), (c: char) => c != '=');
    FilterIsPart(Padded(t), (c: char) => c != '=');
    forall i | 0 <= i < |Unpadded(t)| ensures Kept(Unpadded(t)[i]) {
      var c := Unpadded(t)[i];
      assert c in Unpadded(t);
      var j :| 0 <= j < |Padded(t)| && Padded(t)[j] == c;
    }
  }

  lemma {:induction false} FilterIsPart(t: string, keep: char -> bool)
    ensures forall c :: c in Filter(t, keep) ==> c in t
  {
    if t != "" {
      FilterIsPart(t[1..], keep);
    }
  }

  // A space in front of a letter spoils the text.
  lemma {:induction false} SpaceWitness()
    ensures Decode(" A") == Err(InvalidCharacter(' ')) && Decode(Padded(" A")).Ok?
  {
    SpaceStripped();
    hide Padded, Unpadded, Decode;
    assert "A"[..1] == "A";
    DecodesWhen("A");
    FailsAt(" A", 0);
  }

  lemma {:induction false} SpaceStripped()
    ensures Padded(" A") == "A" && Unpadded(" A") == "A" && Unpadded("A") == "A"
  {
    NothingToStrip("A");
    assert " A"[1..] == "A" && "" + "A" == "A";
  }

  lemma {:induction false} PaddedTwice(t: string)
    ensures Padded(Padded(t)) == Padded(t)
  {
    KeptAreKept(t, (c: char) => !IsSpace(c));
    FilterKeeps(Padded(t), (c: char) => !IsSpace(c));
  }

  lemma {:induction false} KeptAreKept(t: string, keep: char -> bool)
    ensures forall i :: 0 <= i < |Filter(t, keep)| ==> keep(Filter(t, keep)[i])
  {
    if t != "" {
      KeptAreKept(t[1..], keep);
    }
  }

  // Section 2 of RFC 7515 asks for the alphabet of section 5 of RFC 4648.
  function UrlLetter(c: char): char {
    if c == '+' then '-' else if c == '/' then '_' else c
  }

  function UrlText(t: string): (u: string)
    ensures |u| == |t| && forall i :: 0 <= i < |u| ==> u[i] == UrlLetter(t[i])
  {
    seq(|t|, i requires 0 <= i < |t| => UrlLetter(t[i]))
  }

  // A base64url text is decoded exactly when it uses none of the two letters in which the
  // alphabets differ, and then like the plain text.
  lemma {:induction false} UrlTextDecodes(t: string)
    requires AllLetters(t)
    ensures Decode(UrlText(t)).Ok? <==> '+' !in t && '/' !in t
    ensures Decode(UrlText(t)).Ok? ==> UrlText(t) == t
  {
    hide Decode, Padded, Unpadded;
    var u := UrlText(t);
    NothingToStrip(u);
    assert u[..|u|] == u;
    DecodesWhen(u);
    if '+' !in t && '/' !in t {
      assert u == t;
    } else {
      var i :| 0 <= i < |t| && (t[i] == '+' || t[i] == '/');
      assert !Readable(u[i]);
    }
  }
}
