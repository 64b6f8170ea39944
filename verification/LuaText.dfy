/**
 * Lua string primitives that the codecs are written with. Positions are counted from 0.
 *
 * Here and in the other modules every induction is written out, so lemmas carry {:induction false}.
 */
module LuaText {

  // Character class %s: space, and the control characters 9 to 13.
  predicate IsSpace(c: char) {
    c == ' ' || 9 as char <= c <= 13 as char
  }

  // Character class %d.
  predicate IsDigit(c: char) {
    '0' <= c <= '9'
  }

  lemma {:induction false} SpaceIs(c: char)
    ensures IsSpace(c) <==> c in [' ', '\t', '\n', '\r', 11 as char, 12 as char]
  {}

  lemma {:induction false} DigitIs(c: char)
    ensures IsDigit(c) <==> c in "0123456789"
  {}

  predicate AllSpace(s: string) {
    forall i :: 0 <= i < |s| ==> IsSpace(s[i])
  }

  predicate AllDigits(s: string) {
    forall i :: 0 <= i < |s| ==> IsDigit(s[i])
  }

  // A Lua string is a string of bytes.
  predicate IsBytes(s: string) {
    forall i :: 0 <= i < |s| ==> s[i] < 256 as char
  }

  // The end of the longest match of %s* at pos.
  function SkipSpaces(s: string, pos: nat): (q: nat)
    requires pos <= |s|
    ensures pos <= q <= |s|
    ensures AllSpace(s[pos..q])
    ensures q < |s| ==> !IsSpace(s[q])
    decreases |s| - pos
  {
    if pos < |s| && IsSpace(s[pos]) then SkipSpaces(s, pos + 1) else pos
  }

  // The end of the longest match of %d* at pos.
  function SkipDigits(s: string, pos: nat): (q: nat)
    requires pos <= |s|
    ensures pos <= q <= |s|
    ensures AllDigits(s[pos..q])
    ensures q < |s| ==> !IsDigit(s[q])
    decreases |s| - pos
  {
    if pos < |s| && IsDigit(s[pos]) then SkipDigits(s, pos + 1) else pos
  }

  lemma {:induction false} Assoc<T>(x: seq<T>, y: seq<T>, z: seq<T>)
    ensures x + (y + z) == x + y + z
  {}

  // Text t stands in s at position pos.
  predicate At(s: string, pos: nat, t: string) {
    pos + |t| <= |s| && s[pos..pos + |t|] == t
  }

  lemma {:induction false} AtConcat(s: string, pos: nat, a: string, b: string)
    ensures At(s, pos, a + b) <==> At(s, pos, a) && At(s, pos + |a|, b)
  {
    if pos + |a| + |b| <= |s| {
      var x, y := s[pos..pos + |a|], s[pos + |a|..pos + |a| + |b|];
      assert s[pos..pos + |a + b|] == x + y;
      assert x == (x + y)[..|a|] && y == (x + y)[|a|..];
      assert a == (a + b)[..|a|] && b == (a + b)[|a|..];
    }
  }

  lemma {:induction false} AtFirst(s: string, pos: nat, t: string)
    requires At(s, pos, t)
    ensures pos + |t| <= |s|
    ensures t != "" ==> s[pos] == t[0]
  {}

  lemma {:induction false} AtFits(s: string, pos: nat, t: string)
    requires At(s, pos, t)
    ensures pos + |t| <= |s|
  {}

  lemma {:induction false} AtIs(s: string, pos: nat, t: string)
    requires At(s, pos, t)
    ensures pos + |t| <= |s| && s[pos..pos + |t|] == t
  {}

  lemma {:induction false} AtSlice(s: string, pos: nat, q: nat)
    requires pos <= q <= |s|
    ensures At(s, pos, s[pos..q])
  {}

  // Whatever stands in s also stands in every extension of s, and the other way round
  // when it ends inside s.
  lemma {:induction false} AtExtend(s: string, more: string, pos: nat, t: string)
    requires pos + |t| <= |s|
    ensures At(s + more, pos, t) <==> At(s, pos, t)
  {
    assert (s + more)[pos..pos + |t|] == s[pos..pos + |t|];
  }

  // A run of spaces is skipped up to the first character that is no space.
  lemma {:induction false} SkipsExactly(s: string, pos: nat, ws: string)
    requires At(s, pos, ws) && AllSpace(ws)
    requires pos + |ws| < |s| ==> !IsSpace(s[pos + |ws|])
    ensures SkipSpaces(s, pos) == pos + |ws|
    decreases |ws|
  {
    if ws != "" {
      assert s[pos] == ws[0];
      assert At(s, pos + 1, ws[1..]);
      SkipsExactly(s, pos + 1, ws[1..]);
    }
  }

  lemma {:induction false} SkipsDigitsExactly(s: string, pos: nat, ds: string)
    requires At(s, pos, ds) && AllDigits(ds)
    requires pos + |ds| < |s| ==> !IsDigit(s[pos + |ds|])
    ensures SkipDigits(s, pos) == pos + |ds|
    decreases |ds|
  {
    if ds != "" {
      assert s[pos] == ds[0];
      assert At(s, pos + 1, ds[1..]);
      SkipsDigitsExactly(s, pos + 1, ds[1..]);
    }
  }
}
