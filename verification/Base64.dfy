/** The bit-string base64 codec of tests/fixtures/lua/base64.lua. A bit '1' is `true`. */
module Base64 {
  import opened LuaText

  type Bits = seq<bool>

  const UPPER: string := "ABCDEFGHIJKLMNOPQRSTUVWXYZ"
  const LOWER: string := "abcdefghijklmnopqrstuvwxyz"
  const DIGITS: string := "0123456789"
  const ALPHABET: string := UPPER + LOWER + DIGITS + "+/"

  ghost predicate Below(vals: seq<nat>, bound: nat) {
    forall i :: 0 <= i < |vals| ==> vals[i] < bound
  }

  // ---------------------------------------------------------------------------
  // Bits and the numbers they stand for

  function Pow2(n: nat): (p: nat)
    ensures p > 0
  {
    if n == 0 then 1 else 2 * Pow2(n - 1)
  }

  // tonumber(bits, 2)
  function FromBinary(bits: Bits): nat {
    if bits == [] then 0
    else 2 * FromBinary(bits[..|bits| - 1]) + (if bits[|bits| - 1] then 1 else 0)
  }

  // The low `width` bits of n, most significant first.
  function BitsOf(n: nat, width: nat): (b: Bits)
    ensures |b| == width
    decreases width, n
  {
    if width == 0 then [] else BitsOf(n / 2, width - 1) + [n % 2 == 1]
  }

  lemma {:induction false} FromBitsOf(n: nat, width: nat)
    requires n < Pow2(width)
    ensures FromBinary(BitsOf(n, width)) == n
    decreases width
  {
    if width > 0 {
      FromBitsOf(n / 2, width - 1);
      assert BitsOf(n, width)[..width - 1] == BitsOf(n / 2, width - 1);
    }
  }

  lemma {:induction false} BitsOfFrom(bits: Bits)
    ensures FromBinary(bits) < Pow2(|bits|)
    ensures BitsOf(FromBinary(bits), |bits|) == bits
  {
    if bits != [] {
      var front := bits[..|bits| - 1];
      BitsOfFrom(front);
      assert bits == front + [bits[|bits| - 1]];
    }
  }

  lemma {:induction false} Halve(a: nat, p: nat, b: nat)
    ensures (a * (2 * p) + b) / 2 == a * p + b / 2
    ensures (a * (2 * p) + b) % 2 == b % 2
  {
    var x := a * p;
    assert a * (2 * p) == 2 * x;
  }

  lemma {:induction false} BitsOfConcat(a: nat, w: nat, b: nat, k: nat)
    requires b < Pow2(k)
    ensures BitsOf(a * Pow2(k) + b, w + k) == BitsOf(a, w) + BitsOf(b, k)
    decreases k
  {
    if k == 0 {
      assert a * Pow2(k) + b == a;
    } else {
      hide BitsOf;
      var p := Pow2(k - 1);
      Halve(a, p, b);
      BitsOfConcat(a, w, b / 2, k - 1);
      BitsOfStep(a * (2 * p) + b, w + k, a * p + b / 2, b % 2 == 1);
      BitsOfStep(b, k, b / 2, b % 2 == 1);
      assert BitsOf(a, w) + BitsOf(b / 2, k - 1) + [b % 2 == 1] == BitsOf(a, w) + BitsOf(b, k);
    }
  }

  lemma {:induction false} BitsOfStep(n: nat, width: nat, half: nat, last: bool)
    requires width > 0 && half == n / 2 && last == (n % 2 == 1)
    ensures BitsOf(n, width) == BitsOf(half, width - 1) + [last]
  {}

  function Zeros(n: nat): (z: Bits)
    ensures |z| == n
  {
    seq(n, _ => false)
  }

  lemma {:induction false} ZerosAreZero(n: nat)
    ensures FromBinary(Zeros(n)) == 0
  {
    if n > 0 {
      ZerosAreZero(n - 1);
      assert Zeros(n)[..n - 1] == Zeros(n - 1);
    }
  }

  // The value to_binary can show in eight bits.
  function Clamp(n: int): (c: nat)
    ensures c < 256
    ensures 0 <= n < 256 ==> c == n
  {
    if n < 0 then 0 else if n < 256 then n else 255
  }

  // What one round of to_binary keeps, with p the current power of two.
  ghost predicate Greedy(integer: int, bits: Bits, remaining: int, p: nat) {
    && (0 <= integer < 256 ==> 0 <= remaining < p && FromBinary(bits) * p + remaining == integer)
    && (integer >= 256 ==> remaining >= p && FromBinary(bits) + 1 == Pow2(|bits|))
    && (integer < 0 ==> remaining == integer && FromBinary(bits) == 0)
  }

  lemma {:induction false} GreedyStep(integer: int, bits: Bits, remaining: int, p: nat)
    requires p > 0 && Greedy(integer, bits, remaining, 2 * p)
    ensures remaining >= p ==> Greedy(integer, bits + [true], remaining - p, p)
    ensures remaining < p ==> Greedy(integer, bits + [false], remaining, p)
  {
    var v := FromBinary(bits);
    assert (bits + [true])[..|bits|] == bits && (bits + [false])[..|bits|] == bits;
    assert v * (2 * p) == (2 * v) * p;
    assert (2 * v + 1) * p == (2 * v) * p + p;
  }

  lemma {:induction false} GreedyDone(integer: int, bits: Bits, remaining: int)
    requires |bits| == 8 && Greedy(integer, bits, remaining, Pow2(0))
    ensures bits == BitsOf(Clamp(integer), 8) && FromBinary(bits) == Clamp(integer)
  {
    assert Pow2(8) == 256;
    BitsOfFrom(bits);
  }

  lemma {:induction false} GreedyStart(integer: int)
    ensures Greedy(integer, [], integer, Pow2(8))
  {
    assert Pow2(8) == 256;
  }

  // to_binary: greedy subtraction of the powers of two, from the highest down.
  method ToBinary(integer: int) returns (bits: Bits)
    ensures bits == BitsOf(Clamp(integer), 8)
    ensures FromBinary(bits) == Clamp(integer)
  {
    hide Greedy, BitsOf, FromBinary, Clamp;
    bits := [];
    var remaining := integer;
    var i := 8;
    GreedyStart(integer);
    while i > 0
      invariant 0 <= i <= 8 && |bits| == 8 - i
      invariant Greedy(integer, bits, remaining, Pow2(i))
    {
      i := i - 1;
      var power := Pow2(i);
      GreedyStep(integer, bits, remaining, power);
      if remaining >= power {
        bits := bits + [true];
        remaining := remaining - power;
      } else {
        bits := bits + [false];
      }
    }
    GreedyDone(integer, bits, remaining);
  }

  // ---------------------------------------------------------------------------
  // Spreading numbers over fixed-width bit groups and collecting them again

  function Spread(vals: seq<nat>, width: nat): Bits {
    if vals == [] then []
    else Spread(vals[..|vals| - 1], width) + BitsOf(vals[|vals| - 1], width)
  }

  lemma {:induction false} SpreadLength(vals: seq<nat>, width: nat)
    ensures |Spread(vals, width)| == |vals| * width
  {
    if vals != [] {
      var n := |vals| - 1;
      SpreadLength(vals[..n], width);
      assert (n + 1) * width == n * width + width;
    }
  }

  // The values of the consecutive `width`-bit groups; the last group may be short.
  function Groups(bits: Bits, width: nat): (vals: seq<nat>)
    requires width > 0
    decreases |bits|
  {
    if bits == [] then []
    else if |bits| <= width then [FromBinary(bits)]
    else [FromBinary(bits[..width])] + Groups(bits[width..], width)
  }

  lemma {:induction false} GroupsNone(width: nat)
    requires width > 0
    ensures Groups([], width) == []
  {}

  lemma {:induction false} SpreadSnoc(vals: seq<nat>, v: nat, width: nat)
    ensures Spread(vals + [v], width) == Spread(vals, width) + BitsOf(v, width)
  {
    assert (vals + [v])[..|vals|] == vals;
  }

  lemma {:induction false} SpreadConcat(a: seq<nat>, b: seq<nat>, width: nat)
    ensures Spread(a + b, width) == Spread(a, width) + Spread(b, width)
  {
    if b == [] {
      assert a + b == a;
    } else {
      hide *;
      var front, v := b[..|b| - 1], b[|b| - 1];
      assert b == front + [v];
      Assoc(a, front, [v]);
      SpreadConcat(a, front, width);
      SpreadSnoc(a + front, v, width);
      SpreadSnoc(front, v, width);
      Assoc(Spread(a, width), Spread(front, width), BitsOf(v, width));
    }
  }

  lemma {:induction false} SpreadOne(v: nat, width: nat)
    ensures Spread([v], width) == BitsOf(v, width)
  {
    assert [v][..0] == [];
  }

  // Spread, read from the front.
  lemma {:induction false} SpreadFront(v: nat, rest: seq<nat>, width: nat)
    ensures Spread([v] + rest, width) == BitsOf(v, width) + Spread(rest, width)
  {
    SpreadConcat([v], rest, width);
    SpreadOne(v, width);
  }

  lemma {:induction false} GroupsFront(v: nat, rest: seq<nat>, width: nat, tail: Bits)
    requires width > 0 && v < Pow2(width)
    ensures Groups(Spread([v] + rest, width) + tail, width) == [v] + Groups(Spread(rest, width) + tail, width)
  {
    var head, rem := BitsOf(v, width), Spread(rest, width) + tail;
    SpreadFront(v, rest, width);
    assert Spread([v] + rest, width) + tail == head + rem;
    GroupsStep(head, rem, width);
    FromBitsOf(v, width);
  }

  lemma {:induction false} GroupsOfSpread(vals: seq<nat>, width: nat, tail: Bits)
    requires width > 0 && Below(vals, Pow2(width))
    ensures Groups(Spread(vals, width) + tail, width) == vals + Groups(tail, width)
    decreases |vals|
  {
    if vals == [] {
      assert Spread(vals, width) + tail == tail;
    } else {
      var v, rest := vals[0], vals[1..];
      assert vals == [v] + rest && Below(rest, Pow2(width));
      hide *;
      GroupsFront(v, rest, width, tail);
      GroupsOfSpread(rest, width, tail);
      Assoc([v], rest, Groups(tail, width));
    }
  }

  // A full group in front is the first value.
  lemma {:induction false} GroupsStep(head: Bits, rest: Bits, width: nat)
    requires width > 0 && |head| == width
    ensures Groups(head + rest, width) == [FromBinary(head)] + Groups(rest, width)
  {
    var all := head + rest;
    assert all[..width] == head && all[width..] == rest;
    if rest == [] {
      assert all == head;
    }
  }

  lemma {:induction false} SpreadOfGroups(bits: Bits, width: nat, count: nat)
    requires width > 0 && |bits| == count * width
    ensures var vals := Groups(bits, width);
            |vals| == count && Below(vals, Pow2(width)) && Spread(vals, width) == bits
    decreases count
  {
    if count > 0 {
      var head, rest := bits[..width], bits[width..];
      assert count * width == width + (count - 1) * width;
      assert bits == head + rest;
      BitsOfFrom(head);
      SpreadOfGroups(rest, width, count - 1);
      GroupsStep(head, rest, width);
      SpreadConcat([FromBinary(head)], Groups(rest, width), width);
      SpreadOne(FromBinary(head), width);
    }
  }

  // ---------------------------------------------------------------------------
  // to_base64

  function ByteValues(s: string): (v: seq<nat>)
    requires IsBytes(s)
    ensures |v| == |s|
    ensures Below(v, 256)
  {
    seq(|s|, i requires 0 <= i < |s| => s[i] as int)
  }

  function ByteString(vals: seq<nat>): (s: string)
    requires Below(vals, 256)
    ensures |s| == |vals|
  {
    seq(|vals|, i requires 0 <= i < |vals| => vals[i] as char)
  }

  // Strings of bytes and sequences of their values are the same.
  lemma {:induction false} BytesBack(s: string)
    requires IsBytes(s)
    ensures ByteString(ByteValues(s)) == s
  {
    forall i | 0 <= i < |s| ensures ByteString(ByteValues(s))[i] == s[i] {
      assert ByteValues(s)[i] == s[i] as int;
    }
  }

  function Letters(vals: seq<nat>): (s: string)
    requires Below(vals, 64)
    ensures |s| == |vals|
    ensures forall i :: 0 <= i < |s| ==> s[i] == ALPHABET[vals[i]]
  {
    seq(|vals|, i requires 0 <= i < |vals| => ALPHABET[vals[i]])
  }

  lemma {:induction false} NoLetters()
    ensures Letters([]) == ""
  {}

  lemma {:induction false} LettersSnoc(vals: seq<nat>, v: nat)
    requires Below(vals, 64) && v < 64
    ensures Below(vals + [v], 64) && Letters(vals + [v]) == Letters(vals) + [ALPHABET[v]]
  {}

  // The zero bits and the padding that a pattern of n bits gets.
  function PadCount(n: nat): nat {
    if n % 3 == 2 then 16 else if n % 3 == 1 then 8 else 0
  }

  function PadBits(n: nat): (b: Bits)
    ensures |b| == PadCount(n)
  {
    Zeros(PadCount(n))
  }

  function Trailing(n: nat): string {
    if n % 3 == 2 then "==" else if n % 3 == 1 then "=" else ""
  }

  // Byte counts 3k, 3k+1 and 3k+2 are told apart by their bit counts modulo 3, and each
  // gets the zero bits that complete the last 24-bit group.
  lemma {:induction false} PadToQuanta(n: nat)
    ensures (8 * n + PadCount(8 * n)) % 24 == 0
    ensures 8 * n % 3 == (if n % 3 == 0 then 0 else 3 - n % 3)
  {
    var k := n / 3;
    assert n == 3 * k + n % 3;
    assert 8 * n == 24 * k + 8 * (n % 3);
  }

  // The padded bit pattern of a byte sequence.
  function PaddedBits(b: seq<nat>): Bits {
    Spread(b, 8) + PadBits(8 * |b|)
  }

  function Sextets(b: seq<nat>): seq<nat> {
    Groups(PaddedBits(b), 6)
  }

  lemma {:induction false} Sixths(n: nat)
    requires n % 24 == 0
    ensures n / 6 * 6 == n
  {}

  lemma {:induction false} SextetsFacts(b: seq<nat>)
    ensures 6 * |Sextets(b)| == 8 * |b| + PadCount(8 * |b|)
    ensures Below(Sextets(b), 64)
    ensures Spread(Sextets(b), 6) == PaddedBits(b)
  {
    hide Spread, PadCount, Groups;
    var bits := PaddedBits(b);
    SpreadLength(b, 8);
    PadToQuanta(|b|);
    assert Pow2(6) == 64;
    Sixths(|bits|);
    SpreadOfGroups(bits, 6, |bits| / 6);
  }

  // What to_base64 computes.
  function Encode(b: seq<nat>): (t: string)
    ensures 6 * |t| == 8 * |b| + PadCount(8 * |b|)
  {
    SextetsFacts(b);
    var letters := Letters(Sextets(b));
    var trailing := Trailing(8 * |b|);
    letters[..|letters| - |trailing|] + trailing
  }

  // to_base64 itself: the first loop collects the bits, the second writes the letters.
  method ToBase64(s: string) returns (t: string)
    requires IsBytes(s)
    ensures t == Encode(ByteValues(s))
  {
    var bits := BitPattern(s);
    ghost var b := ByteValues(s);
    assert |bits| == 8 * |s| by { SpreadLength(b, 8); }
    var pattern, trailing := Pad(bits);
    SextetsFacts(b);
    var encoded := WriteLetters(pattern, Sextets(b));
    t := encoded[..|encoded| - |trailing|] + trailing;
  }

  method Pad(bits: Bits) returns (pattern: Bits, trailing: string)
    ensures pattern == bits + PadBits(|bits|)
    ensures trailing == Trailing(|bits|)
  {
    pattern, trailing := bits, "";
    if |bits| % 3 == 2 {
      trailing := "==";
      pattern := bits + Zeros(16);
    } else if |bits| % 3 == 1 {
      trailing := "=";
      pattern := bits + Zeros(8);
    }
  }

  method BitPattern(s: string) returns (pattern: Bits)
    requires IsBytes(s)
    ensures pattern == Spread(ByteValues(s), 8)
  {
    pattern := [];
    ghost var bytes := ByteValues(s);
    for i := 0 to |s|
      invariant pattern == Spread(bytes[..i], 8)
    {
      var b := ToBinary(s[i] as int);
      assert bytes[..i + 1][..i] == bytes[..i];
      pattern := pattern + b;
    }
    assert bytes[..|s|] == bytes;
  }

  method WriteLetters(pattern: Bits, ghost sextets: seq<nat>) returns (encoded: string)
    requires Below(sextets, 64) && |pattern| == 6 * |sextets| && Groups(pattern, 6) == sextets
    ensures encoded == Letters(sextets)
  {
    hide FromBinary, Letters;
    encoded := "";
    var i := 0;
    ghost var done := 0;
    NoLetters();
    while i < |pattern|
      invariant i == 6 * done && done <= |sextets|
      invariant encoded == Letters(sextets[..done])
      invariant Groups(pattern[i..], 6) == sextets[done..]
    {
      var group := pattern[i..i + 6];
      assert pattern[i..] == group + pattern[i + 6..];
      GroupsStep(group, pattern[i + 6..], 6);
      var offset := FromBinary(group);
      assert sextets[done..] == [sextets[done]] + sextets[done + 1..];
      assert sextets[..done + 1] == sextets[..done] + [offset];
      LettersSnoc(sextets[..done], offset);
      encoded := encoded + [ALPHABET[offset]];
      i := i + 6;
      done := done + 1;
    }
    assert sextets[..done] == sextets;
  }

  // ---------------------------------------------------------------------------
  // The definition of section 4 of RFC 4648: 24-bit groups, taken as numbers

  function RfcEncode(b: seq<nat>): string
    requires Below(b, 256)
    decreases |b|
  {
    if b == [] then ""
    else if |b| == 1 then
      Quantum(b[0] * 0x10000)[..2] + "=="
    else if |b| == 2 then
      Quantum(b[0] * 0x10000 + b[1] * 0x100)[..3] + "="
    else
      Quantum(b[0] * 0x10000 + b[1] * 0x100 + b[2]) + RfcEncode(b[3..])
  }

  function QuantumValues(n: nat): (v: seq<nat>)
    requires n < 0x1000000
    ensures |v| == 4 && Below(v, 64)
  {
    [n / 0x40000, n / 0x1000 % 64, n / 64 % 64, n % 64]
  }

  function Quantum(n: nat): (t: string)
    requires n < 0x1000000
    ensures |t| == 4
  {
    Letters(QuantumValues(n))
  }

  lemma {:induction false} SpreadThree(a: nat, b: nat, c: nat, w: nat)
    ensures Spread([a, b, c], w) == BitsOf(a, w) + BitsOf(b, w) + BitsOf(c, w)
  {
    assert [a, b, c][..2] == [a, b] && [a, b][..1] == [a];
    SpreadOne(a, w);
  }

  lemma {:induction false} SpreadFour(a: nat, b: nat, c: nat, d: nat, w: nat)
    ensures Spread([a, b, c, d], w) == BitsOf(a, w) + BitsOf(b, w) + BitsOf(c, w) + BitsOf(d, w)
  {
    assert [a, b, c, d][..3] == [a, b, c];
    SpreadThree(a, b, c, w);
  }

  // Three bytes and their four sextets are the same 24 bits.
  lemma {:induction false} ByteBits(a: nat, b: nat, c: nat)
    requires a < 256 && b < 256 && c < 256
    ensures Spread([a, b, c], 8) == BitsOf(a * 0x10000 + b * 0x100 + c, 24)
  {
    hide BitsOf, Spread;
    assert Pow2(8) == 256;
    BitsOfConcat(a, 8, b, 8);
    BitsOfConcat(a * 256 + b, 16, c, 8);
    SpreadThree(a, b, c, 8);
  }

  lemma {:induction false} SextetBits(n: nat)
    requires n < 0x1000000
    ensures Spread(QuantumValues(n), 6) == BitsOf(n, 24)
  {
    hide BitsOf, Spread;
    assert Pow2(6) == 64;
    var x, y, z := n / 64, n / 0x1000, n / 0x40000;
    assert y == x / 64 && z == y / 64;
    assert n == x * 64 + n % 64 && x == y * 64 + x % 64 && y == z * 64 + y % 64;
    BitsOfConcat(x, 18, n % 64, 6);
    BitsOfConcat(y, 12, x % 64, 6);
    BitsOfConcat(z, 6, y % 64, 6);
    SpreadFour(z, y % 64, x % 64, n % 64, 6);
  }

  lemma {:induction false} Mod3Periodic(m: nat)
    ensures (m + 24) % 3 == m % 3
  {}

  lemma {:induction false} PadPeriodic(n: nat)
    ensures PadCount(8 * (n + 3)) == PadCount(8 * n)
    ensures PadBits(8 * (n + 3)) == PadBits(8 * n)
    ensures Trailing(8 * (n + 3)) == Trailing(8 * n)
  {
    var m := 8 * n;
    assert 8 * (n + 3) == m + 24;
    Mod3Periodic(m);
  }

  lemma {:induction false} Prepend(three: seq<nat>, rest: seq<nat>, q: seq<nat>)
    requires |three| == 3 && Below(q, 64) && Spread(three, 8) == Spread(q, 6)
    ensures Sextets(three + rest) == q + Sextets(rest)
  {
    hide Spread, Groups, PadBits;
    assert Pow2(6) == 64;
    SpreadConcat(three, rest, 8);
    PadPeriodic(|rest|);
    assert |three + rest| == |rest| + 3;
    assert PaddedBits(three + rest) == Spread(q, 6) + PaddedBits(rest);
    GroupsOfSpread(q, 6, PaddedBits(rest));
  }

  lemma {:induction false} SextetsStep(b: seq<nat>)
    requires Below(b, 256) && |b| >= 3
    ensures Sextets(b) == QuantumValues(b[0] * 0x10000 + b[1] * 0x100 + b[2]) + Sextets(b[3..])
  {
    ByteBits(b[0], b[1], b[2]);
    SextetBits(b[0] * 0x10000 + b[1] * 0x100 + b[2]);
    Prepend([b[0], b[1], b[2]], b[3..], QuantumValues(b[0] * 0x10000 + b[1] * 0x100 + b[2]));
    assert b == [b[0], b[1], b[2]] + b[3..];
  }

  // Missing bytes count as zero bytes.
  lemma {:induction false} PaddedIsZeroBytes(b: seq<nat>)
    requires 1 <= |b| <= 2
    ensures PaddedBits(b) == Spread([b[0], if |b| == 2 then b[1] else 0, 0], 8)
  {
    assert BitsOf(0, 8) == Zeros(8) by { ZeroBits(8); }
    SpreadThree(b[0], if |b| == 2 then b[1] else 0, 0, 8);
    SpreadOne(b[0], 8);
    if |b| == 1 {
      assert b == [b[0]];
      assert Zeros(16) == Zeros(8) + Zeros(8);
    } else {
      assert b[..1] == [b[0]];
    }
  }

  lemma {:induction false} ZeroBits(n: nat)
    ensures BitsOf(0, n) == Zeros(n)
  {
    if n > 0 {
      ZeroBits(n - 1);
    }
  }

  lemma {:induction false} SextetsLast(b: seq<nat>)
    requires Below(b, 256) && 1 <= |b| <= 2
    ensures Sextets(b) == QuantumValues(b[0] * 0x10000 + (if |b| == 2 then b[1] * 0x100 else 0))
  {
    var c := if |b| == 2 then b[1] else 0;
    var n := b[0] * 0x10000 + c * 0x100;
    var v := QuantumValues(n);
    assert PaddedBits(b) == Spread(v, 6) by {
      PaddedIsZeroBytes(b);
      ByteBits(b[0], c, 0);
      SextetBits(n);
    }
    assert Pow2(6) == 64;
    hide PaddedBits, Spread, QuantumValues, Groups, Pow2;
    GroupsOfSpread(v, 6, []);
    GroupsNone(6);
    assert Spread(v, 6) + [] == Spread(v, 6);
  }

  lemma {:induction false} EncodeStep(b: seq<nat>, rest: seq<nat>, q: seq<nat>)
    requires |b| == |rest| + 3 && |q| == 4 && Below(q, 64)
    requires Sextets(b) == q + Sextets(rest)
    ensures Encode(b) == Letters(q) + Encode(rest)
  {
    hide Sextets, Trailing, PadBits, PadCount, Letters;
    assert Below(Sextets(rest), 64) by { SextetsFacts(rest); }
    assert 8 * |b| == 8 * (|rest| + 3);
    PadPeriodic(|rest|);
    LettersConcat(q, Sextets(rest));
    TrailingFits(rest);
    var more, k := Letters(Sextets(rest)), |Trailing(8 * |rest|)|;
    assert (Letters(q) + more)[..4 + |more| - k] == Letters(q) + more[..|more| - k];
  }

  lemma {:induction false} LettersConcat(a: seq<nat>, b: seq<nat>)
    requires Below(a, 64) && Below(b, 64)
    ensures Below(a + b, 64) && Letters(a + b) == Letters(a) + Letters(b)
  {}

  lemma {:induction false} TrailingFits(b: seq<nat>)
    ensures |Trailing(8 * |b|)| <= |Sextets(b)|
  {
    SextetsFacts(b);
  }

  lemma {:induction false} EncodeFour(b: seq<nat>, q: seq<nat>)
    requires |q| == 4 && Below(q, 64) && Sextets(b) == q && 1 <= |b| <= 2
    ensures Encode(b) == Letters(q)[..|b| + 1] + (if |b| == 1 then "==" else "=")
  {
    hide Sextets, Letters;
    assert |b| == 1 ==> Trailing(8 * |b|) == "==";
    assert |b| == 2 ==> Trailing(8 * |b|) == "=";
  }

  lemma {:induction false} RfcLast(b: seq<nat>, n: nat)
    requires Below(b, 256) && 1 <= |b| <= 2
    requires n == b[0] * 0x10000 + (if |b| == 2 then b[1] * 0x100 else 0)
    ensures RfcEncode(b) == Letters(QuantumValues(n))[..|b| + 1] + (if |b| == 1 then "==" else "=")
  {
    hide Letters, QuantumValues;
  }

  lemma {:induction false} ShortIsRfc(b: seq<nat>)
    requires Below(b, 256) && 1 <= |b| <= 2
    ensures Encode(b) == RfcEncode(b)
  {
    var n := b[0] * 0x10000 + (if |b| == 2 then b[1] * 0x100 else 0);
    SextetsLast(b);
    RfcLast(b, n);
    hide *;
    EncodeFour(b, QuantumValues(n));
  }

  lemma {:induction false} RfcStep(b: seq<nat>)
    requires Below(b, 256) && |b| >= 3
    ensures RfcEncode(b) == Letters(QuantumValues(b[0] * 0x10000 + b[1] * 0x100 + b[2])) + RfcEncode(b[3..])
  {
    hide QuantumValues, Letters;
  }

  // The bit-string encoder computes the encoding of section 4 of RFC 4648.
  lemma {:induction false} EncodeIsRfc(b: seq<nat>)
    requires Below(b, 256)
    ensures Encode(b) == RfcEncode(b)
    decreases |b|
  {
    if b == [] {
      assert PaddedBits(b) == [];
    } else if |b| <= 2 {
      ShortIsRfc(b);
    } else {
      hide Encode, RfcEncode, Sextets, QuantumValues, Letters;
      EncodeIsRfc(b[3..]);
      SextetsStep(b);
      RfcStep(b);
      EncodeStep(b, b[3..], QuantumValues(b[0] * 0x10000 + b[1] * 0x100 + b[2]));
    }
  }
}
