/** The number lexemes of parse_num_val in tests/fixtures/lua/json.lua. */
module JsonNumber {
  import opened Wrappers
  import opened LuaText

  /** One match of the pattern -?%d+%.?%d*[eE]?[+-]?%d*, part by part. */
  datatype NumTok = NumTok(neg: bool, ints: string, fraction: Fraction, exponent: Exponent)

  datatype Fraction = Fraction(dot: bool, digits: string)

  datatype Exponent = Exponent(mark: string, sign: string, digits: string)

  predicate IsMark(c: char) {
    c == 'e' || c == 'E'
  }

  predicate IsSign(c: char) {
    c == '+' || c == '-'
  }

  // ---------------------------------------------------------------------------
  // The shapes that the pattern can match, and those that tonumber accepts

  predicate FractionShape(f: Fraction) {
    AllDigits(f.digits) && (f.dot || f.digits == "")
  }

  predicate ExponentShape(e: Exponent) {
    && AllDigits(e.digits)
    && (e.mark != "" ==> |e.mark| == 1 && IsMark(e.mark[0]))
    && (e.sign != "" ==> |e.sign| == 1 && IsSign(e.sign[0]))
  }

  // No exponent at all, or a mark with digits.
  predicate ExponentValid(e: Exponent) {
    ExponentShape(e) && if e.mark == "" then e.sign == "" && e.digits == "" else e.digits != ""
  }

  predicate Shape(t: NumTok) {
    t.ints != "" && AllDigits(t.ints) && FractionShape(t.fraction) && ExponentShape(t.exponent)
  }

  predicate Valid(t: NumTok) {
    Shape(t) && ExponentValid(t.exponent)
  }

  function Minus(neg: bool): string {
    if neg then "-" else ""
  }

  function FractionText(f: Fraction): string {
    DotText(f.dot) + f.digits
  }

  function ExponentText(e: Exponent): string {
    e.mark + (e.sign + e.digits)
  }

  function TokText(t: NumTok): string {
    Minus(t.neg) + (t.ints + (FractionText(t.fraction) + ExponentText(t.exponent)))
  }

  // A character that would carry the match of a number on.
  predicate Extends(t: NumTok, c: char) {
    || IsDigit(c)
    || (t.exponent.mark == "" && (IsMark(c) || IsSign(c) || (c == '.' && !t.fraction.dot)))
  }

  // The text from position q on does not carry the number on.
  predicate NumberEnds(t: NumTok, str: string, q: nat) {
    q < |str| ==> !Extends(t, str[q])
  }

  // ---------------------------------------------------------------------------
  // Matching

  // One optional character.
  function Opt(str: string, pos: nat, p: char -> bool): (t: string)
    requires pos <= |str|
    ensures |t| <= 1 && pos + |t| <= |str|
    ensures At(str, pos, t)
    ensures t != "" ==> p(t[0])
    ensures t == "" ==> pos == |str| || !p(str[pos])
  {
    if pos < |str| && p(str[pos]) then [str[pos]] else ""
  }

  lemma {:induction false} OptIs(str: string, pos: nat, p: char -> bool, t: string)
    requires pos <= |str| && |t| <= 1 && At(str, pos, t)
    requires t != "" ==> p(t[0])
    requires t == "" && pos < |str| ==> !p(str[pos])
    ensures Opt(str, pos, p) == t
  {}

  function ScanFraction(str: string, pos: nat): (f: Fraction)
    requires pos <= |str|
  {
    var dot := Opt(str, pos, (c: char) => c == '.');
    var q := pos + |dot|;
    Fraction(dot != "", str[q..SkipDigits(str, q)])
  }

  function OptMark(str: string, pos: nat): (t: string)
    requires pos <= |str|
    ensures |t| <= 1 && pos + |t| <= |str| && At(str, pos, t)
  {
    Opt(str, pos, (c: char) => IsMark(c))
  }

  function OptSign(str: string, pos: nat): (t: string)
    requires pos <= |str|
    ensures |t| <= 1 && pos + |t| <= |str| && At(str, pos, t)
  {
    Opt(str, pos, (c: char) => IsSign(c))
  }

  function ScanExponent(str: string, pos: nat): (e: Exponent)
    requires pos <= |str|
  {
    var mark := OptMark(str, pos);
    var p := pos + |mark|;
    var sign := OptSign(str, p);
    var q := p + |sign|;
    Exponent(mark, sign, str[q..SkipDigits(str, q)])
  }

  function DotText(dot: bool): string {
    if dot then "." else ""
  }

  lemma {:induction false} AtFraction(str: string, pos: nat, f: Fraction)
    ensures At(str, pos, FractionText(f)) <==>
              At(str, pos, DotText(f.dot)) && At(str, pos + |DotText(f.dot)|, f.digits)
    ensures |FractionText(f)| == |DotText(f.dot)| + |f.digits|
  {
    hide At;
    AtConcat(str, pos, DotText(f.dot), f.digits);
  }

  lemma {:induction false} AtExponent(str: string, pos: nat, e: Exponent)
    ensures At(str, pos, ExponentText(e)) <==>
              At(str, pos, e.mark) && At(str, pos + |e.mark|, e.sign) && At(str, pos + |e.mark| + |e.sign|, e.digits)
    ensures |ExponentText(e)| == |e.mark| + |e.sign| + |e.digits|
  {
    hide At;
    AtConcat(str, pos, e.mark, e.sign + e.digits);
    AtConcat(str, pos + |e.mark|, e.sign, e.digits);
  }

  lemma {:induction false} FractionSound(str: string, pos: nat)
    requires pos <= |str| && (pos < |str| ==> !IsDigit(str[pos]))
    ensures var f := ScanFraction(str, pos); var q := pos + |FractionText(f)|;
            && q <= |str|
            && FractionShape(f) && At(str, pos, FractionText(f))
            && (q < |str| ==> !IsDigit(str[q]) && (f.dot || str[q] != '.'))
  {
    hide SkipDigits, FractionText;
    AtFraction(str, pos, ScanFraction(str, pos));
  }

  lemma {:induction false} FractionComplete(str: string, pos: nat, f: Fraction)
    requires FractionShape(f) && At(str, pos, FractionText(f))
    requires var q := pos + |FractionText(f)|; q < |str| ==> !IsDigit(str[q]) && (f.dot || str[q] != '.')
    ensures ScanFraction(str, pos) == f
  {
    hide SkipDigits, FractionText;
    AtFraction(str, pos, f);
    OptIs(str, pos, (c: char) => c == '.', DotText(f.dot));
    SkipsDigitsExactly(str, pos + |DotText(f.dot)|, f.digits);
  }

  lemma {:induction false} ExponentSound(str: string, pos: nat)
    requires pos <= |str|
    ensures var e := ScanExponent(str, pos); var q := pos + |ExponentText(e)|;
            && q <= |str|
            && ExponentShape(e) && At(str, pos, ExponentText(e))
            && (q < |str| ==> !IsDigit(str[q]))
            && (q < |str| && ExponentText(e) == "" ==> !IsMark(str[q]) && !IsSign(str[q]))
  {
    hide SkipDigits, ExponentText, Opt;
    AtExponent(str, pos, ScanExponent(str, pos));
  }

  // Where a part of the exponent is missing, the next character is none of that part.
  lemma {:induction false} ExponentChars(str: string, pos: nat, e: Exponent)
    requires ExponentValid(e) && At(str, pos, ExponentText(e))
    requires var q := pos + |ExponentText(e)|;
             q < |str| ==> !IsDigit(str[q]) && (e.mark == "" ==> !IsMark(str[q]) && !IsSign(str[q]))
    ensures e.mark == "" && pos < |str| ==> !IsMark(str[pos])
    ensures var p := pos + |e.mark|; e.sign == "" && p < |str| ==> !IsSign(str[p])
  {
    hide ExponentText, At;
    AtExponent(str, pos, e);
    AtFirst(str, pos + |e.mark| + |e.sign|, e.digits);
  }

  lemma {:induction false} MarkIs(str: string, pos: nat, t: string)
    requires pos <= |str| && At(str, pos, t) && (t == "" || (|t| == 1 && IsMark(t[0])))
    requires t == "" && pos < |str| ==> !IsMark(str[pos])
    ensures OptMark(str, pos) == t
  {
    OptIs(str, pos, (c: char) => IsMark(c), t);
  }

  lemma {:induction false} SignIs(str: string, pos: nat, t: string)
    requires pos <= |str| && At(str, pos, t) && (t == "" || (|t| == 1 && IsSign(t[0])))
    requires t == "" && pos < |str| ==> !IsSign(str[pos])
    ensures OptSign(str, pos) == t
  {
    OptIs(str, pos, (c: char) => IsSign(c), t);
  }

  lemma {:induction false} ExponentComplete(str: string, pos: nat, e: Exponent)
    requires ExponentValid(e) && At(str, pos, ExponentText(e))
    requires var q := pos + |ExponentText(e)|;
             q < |str| ==> !IsDigit(str[q]) && (e.mark == "" ==> !IsMark(str[q]) && !IsSign(str[q]))
    ensures ScanExponent(str, pos) == e
  {
    hide *;
    var p := pos + |e.mark|;
    var q := p + |e.sign|;
    AtExponent(str, pos, e);
    ExponentChars(str, pos, e);
    ExponentParts(e);
    AtFits(str, q, e.digits);
    MarkIs(str, pos, e.mark);
    SignIs(str, p, e.sign);
    SkipsDigitsExactly(str, q, e.digits);
    DigitsAre(str, q, e.digits);
    ScanExponentIs(str, pos, e);
  }

  lemma {:induction false} DigitsAre(str: string, q: nat, digits: string)
    requires At(str, q, digits) && q + |digits| <= |str| && SkipDigits(str, q) == q + |digits|
    ensures str[q..SkipDigits(str, q)] == digits
  {
    hide SkipDigits;
  }

  lemma {:induction false} ExponentParts(e: Exponent)
    requires ExponentValid(e)
    ensures AllDigits(e.digits)
    ensures e.mark == "" || (|e.mark| == 1 && IsMark(e.mark[0]))
    ensures e.sign == "" || (|e.sign| == 1 && IsSign(e.sign[0]))
  {}

  lemma {:induction false} ScanExponentIs(str: string, pos: nat, e: Exponent)
    requires pos <= |str| && OptMark(str, pos) == e.mark && OptSign(str, pos + |e.mark|) == e.sign
    requires var q := pos + |e.mark| + |e.sign|; q <= |str| && str[q..SkipDigits(str, q)] == e.digits
    ensures ScanExponent(str, pos) == e
  {
    hide OptMark, OptSign, SkipDigits;
  }

  // str:match(pattern, pos)
  function Scan(str: string, pos: nat): Option<NumTok>
    requires pos <= |str|
  {
    var minus := Opt(str, pos, (c: char) => c == '-');
    var p := pos + |minus|;
    var q := SkipDigits(str, p);
    if q == p then None else
    var fraction := ScanFraction(str, q);
    FractionSound(str, q);
    Some(NumTok(minus != "", str[p..q], fraction, ScanExponent(str, q + |FractionText(fraction)|)))
  }

  lemma {:induction false} AtTok(str: string, pos: nat, t: NumTok)
    ensures var p := pos + |Minus(t.neg)|; var q := p + |t.ints|; var r := q + |FractionText(t.fraction)|;
            && (At(str, pos, TokText(t)) <==>
                 At(str, pos, Minus(t.neg)) && At(str, p, t.ints) && At(str, q, FractionText(t.fraction))
                 && At(str, r, ExponentText(t.exponent)))
            && pos + |TokText(t)| == r + |ExponentText(t.exponent)|
  {
    hide At, FractionText, ExponentText, Minus;
    var f, e := FractionText(t.fraction), ExponentText(t.exponent);
    var p := pos + |Minus(t.neg)|;
    AtConcat(str, pos, Minus(t.neg), t.ints + (f + e));
    AtConcat(str, p, t.ints, f + e);
    AtConcat(str, p + |t.ints|, f, e);
  }

  lemma {:induction false} MinusIs(str: string, pos: nat)
    requires pos <= |str|
    ensures var minus := Opt(str, pos, (c: char) => c == '-'); minus == Minus(minus != "")
  {}

  // A match stands in the text, has one of the shapes, and when it is a number the text
  // behind it does not carry it on.
  lemma {:induction false} ScanSound(str: string, pos: nat)
    requires pos <= |str| && Scan(str, pos).Some?
    ensures var t := Scan(str, pos).value;
            && Shape(t) && At(str, pos, TokText(t))
            && pos + |TokText(t)| <= |str|
            && (Valid(t) ==> NumberEnds(t, str, pos + |TokText(t)|))
  {
    hide ScanFraction, ScanExponent, FractionText, ExponentText, SkipDigits, Minus, TokText, Opt, At;
    var t := Scan(str, pos).value;
    MinusIs(str, pos);
    var q := pos + |Minus(t.neg)| + |t.ints|;
    AtSlice(str, pos + |Minus(t.neg)|, q);
    FractionSound(str, q);
    ExponentSound(str, q + |FractionText(t.fraction)|);
    AtTok(str, pos, t);
    NoExponent(t.exponent);
  }

  lemma {:induction false} NoExponent(e: Exponent)
    ensures ExponentValid(e) && e.mark == "" ==> ExponentText(e) == ""
  {}

  // A number that the text behind does not carry on is matched whole.
  lemma {:induction false} ScanComplete(str: string, pos: nat, t: NumTok)
    requires Valid(t) && At(str, pos, TokText(t))
    requires NumberEnds(t, str, pos + |TokText(t)|)
    ensures Scan(str, pos) == Some(t)
  {
    hide ScanFraction, ScanExponent, FractionText, ExponentText, SkipDigits, TokText, Opt, At;
    AtTok(str, pos, t);
    var p := pos + |Minus(t.neg)|;
    var q := p + |t.ints|;
    var r := q + |FractionText(t.fraction)|;
    ExponentComplete(str, r, t.exponent);
    ExponentStart(str, r, t);
    FractionStart(str, q, t.fraction);
    AtFirst(str, p, t.ints);
    hide FractionShape, ExponentShape, ExponentValid, NumberEnds, AllDigits;
    FractionComplete(str, q, t.fraction);
    SkipsDigitsExactly(str, p, t.ints);
    AtIs(str, p, t.ints);
    OptIs(str, pos, (c: char) => c == '-', Minus(t.neg));
  }

  lemma {:induction false} ExponentStart(str: string, r: nat, t: NumTok)
    requires Valid(t) && At(str, r, ExponentText(t.exponent))
    requires NumberEnds(t, str, r + |ExponentText(t.exponent)|)
    ensures r < |str| ==> !IsDigit(str[r]) && (t.fraction.dot || str[r] != '.')
  {
    hide At;
    AtFirst(str, r, ExponentText(t.exponent));
  }

  lemma {:induction false} FractionStart(str: string, q: nat, f: Fraction)
    requires FractionShape(f) && At(str, q, FractionText(f))
    requires var r := q + |FractionText(f)|; r < |str| ==> !IsDigit(str[r])
    ensures q < |str| ==> !IsDigit(str[q])
  {
    hide At;
    AtFirst(str, q, FractionText(f));
  }

  // ---------------------------------------------------------------------------
  // tonumber, without rounding

  function NatOf(ds: string): nat
    requires AllDigits(ds)
  {
    if ds == "" then 0 else 10 * NatOf(ds[..|ds| - 1]) + (ds[|ds| - 1] as int - '0' as int)
  }

  function Pow10(n: nat): (p: nat)
    ensures p > 0
  {
    if n == 0 then 1 else 10 * Pow10(n - 1)
  }

  function Shift(r: real, e: int): real {
    if e >= 0 then r * Pow10(e) as real else r / Pow10(-e) as real
  }

  function ExponentValue(e: Exponent): int
    requires ExponentShape(e)
  {
    var n: int := NatOf(e.digits);
    if e.sign == "-" then -n else n
  }

  // The exact number that a lexeme spells.
  function NumValue(t: NumTok): real
    requires Valid(t)
  {
    var magnitude := NatOf(t.ints + t.fraction.digits) as real;
    Shift(if t.neg then -magnitude else magnitude, ExponentValue(t.exponent) - |t.fraction.digits|)
  }

  lemma {:induction false} NatOfSnoc(ds: string, c: char)
    requires AllDigits(ds) && IsDigit(c)
    ensures AllDigits(ds + [c]) && NatOf(ds + [c]) == 10 * NatOf(ds) + (c as int - '0' as int)
  {
    assert (ds + [c])[..|ds|] == ds;
  }

  lemma {:induction false} OneDigitMore(x: nat, p: nat, f: nat, d: nat)
    ensures 10 * (x * p + f) + d == x * (10 * p) + (10 * f + d)
  {
    var y := x * p;
    assert x * (10 * p) == 10 * y;
  }

  lemma {:induction false} NatOfConcat(a: string, b: string)
    requires AllDigits(a) && AllDigits(b)
    ensures AllDigits(a + b) && NatOf(a + b) == NatOf(a) * Pow10(|b|) + NatOf(b)
    decreases |b|
  {
    if b == "" {
      assert a + b == a;
    } else {
      var front, last := b[..|b| - 1], b[|b| - 1];
      assert Pow10(|b|) == 10 * Pow10(|front|);
      hide NatOf, Pow10;
      NatOfConcat(a, front);
      assert b == front + [last] && a + b == (a + front) + [last];
      NatOfSnoc(front, last);
      NatOfSnoc(a + front, last);
      OneDigitMore(NatOf(a), Pow10(|front|), NatOf(front), last as int - '0' as int);
    }
  }

  /**
   * The value of a lexeme as a whole number over a power of ten: the digits on both sides of the
   * dot make the number, those behind the dot and a negative exponent divide it by ten each.
   */
  ghost predicate Scaled(n: real, m: real, places: nat, down: bool, steps: nat) {
    if down then n * Pow10(steps) as real * Pow10(places) as real == m
    else n * Pow10(places) as real == m * Pow10(steps) as real
  }

  lemma {:induction false} DecimalValue(t: NumTok)
    requires Valid(t)
    ensures var m := NatOf(t.ints + t.fraction.digits) as real;
            Scaled(NumValue(t), if t.neg then -m else m, |t.fraction.digits|, t.exponent.sign == "-", NatOf(t.exponent.digits))
  {
    hide Pow10, NatOf, Shift, Scaled;
    var m := NatOf(t.ints + t.fraction.digits) as real;
    var places, steps := |t.fraction.digits|, NatOf(t.exponent.digits);
    ShiftDown(if t.neg then -m else m, places, steps);
    ShiftUp(if t.neg then -m else m, places, steps);
  }

  // There is only one such value.
  lemma {:induction false} ScaledOnce(n: real, v: real, m: real, places: nat, down: bool, steps: nat)
    requires Scaled(v, m, places, down, steps)
    ensures Scaled(n, m, places, down, steps) <==> n == v
  {
    hide *;
    var a, b := Pow10(steps) as real, Pow10(places) as real;
    ScaledIs(n, m, places, down, steps, a, b);
    ScaledIs(v, m, places, down, steps, a, b);
    if down {
      SameProducts(n, v, a, b, m);
    } else {
      SameProduct(n, v, b, m * a);
    }
  }

  lemma {:induction false} ScaledIs(n: real, m: real, places: nat, down: bool, steps: nat, a: real, b: real)
    requires a == Pow10(steps) as real && b == Pow10(places) as real
    ensures Scaled(n, m, places, down, steps) <==> if down then n * a * b == m else n * b == m * a
  {}

  lemma {:induction false} SameProduct(x: real, y: real, a: real, z: real)
    requires a > 0.0 && y * a == z
    ensures x * a == z <==> x == y
  {
    if x * a == z {
      assert (x - y) * a == 0.0;
    }
  }

  lemma {:induction false} SameProducts(x: real, y: real, a: real, b: real, z: real)
    requires a > 0.0 && b > 0.0 && y * a * b == z
    ensures x * a * b == z <==> x == y
  {
    var p, q := x * a, y * a;
    SameProduct(p, q, b, z);
    SameProduct(x, y, a, q);
  }

  lemma {:induction false} ShiftDown(x: real, places: nat, steps: int)
    requires steps >= 0
    ensures Scaled(Shift(x, -steps - places), x, places, true, steps)
  {
    Pow10Add(steps, places);
    ShiftedDown(x, steps + places);
    hide Pow10, Shift;
    var a, b := Pow10(steps) as real, Pow10(places) as real;
    Undivide(x, a, b);
    assert Pow10(steps + places) as real == a * b;
  }

  lemma {:induction false} ShiftedDown(x: real, k: int)
    requires k >= 0
    ensures Shift(x, -k) == x / Pow10(k) as real
  {
    assert k == 0 ==> Pow10(k) == 1;
  }

  lemma {:induction false} ShiftedUp(x: real, k: nat)
    ensures Shift(x, k) == x * Pow10(k) as real
  {}

  lemma {:induction false} ShiftUp(x: real, places: nat, steps: nat)
    ensures Scaled(Shift(x, steps - places), x, places, false, steps)
  {
    hide Pow10, Shift;
    ShiftSplit(x, steps, places);
    ShiftedUp(x / Pow10(places) as real, steps);
    Regroup(x, Pow10(steps) as real, Pow10(places) as real);
  }

  lemma {:induction false} Undivide(x: real, a: real, b: real)
    requires a > 0.0 && b > 0.0
    ensures a * b > 0.0 && x / (a * b) * a * b == x
  {
    var z := x / (a * b);
    assert z * a * b == z * (a * b);
  }

  lemma {:induction false} Regroup(x: real, a: real, b: real)
    requires b > 0.0
    ensures x / b * a * b == x * a
  {
    var y := x / b;
    assert y * a * b == y * b * a;
  }

  lemma {:induction false} Pow10Add(a: nat, b: nat)
    ensures Pow10(a + b) == Pow10(a) * Pow10(b)
  {
    if a > 0 {
      Pow10Add(a - 1, b);
      TenTimes(Pow10(a - 1), Pow10(b));
    }
  }

  lemma {:induction false} TenTimes(x: nat, y: nat)
    ensures 10 * (x * y) == (10 * x) * y
  {}

  // Moving the dot in two steps.
  lemma {:induction false} ShiftSplit(m: real, e: int, k: nat)
    ensures Shift(m, e - k) == Shift(m / Pow10(k) as real, e)
  {
    hide *;
    if e >= k {
      UpAndUp(m, e - k, k);
    } else if e >= 0 {
      DownAndUp(m, k - e, e);
    } else {
      DownAndDown(m, k, -e);
    }
  }

  lemma {:induction false} UpAndUp(m: real, a: nat, k: nat)
    ensures Shift(m, a) == Shift(m / Pow10(k) as real, a + k)
  {
    Pow10Add(a, k);
    hide Pow10;
    var x, y := Pow10(a) as real, Pow10(k) as real;
    assert Pow10(a + k) as real == x * y;
    var z := m / y;
    assert m == z * y;
    assert z * y * x == z * (x * y);
  }

  lemma {:induction false} DownAndUp(m: real, a: int, b: nat)
    requires a > 0
    ensures Shift(m, -a) == Shift(m / Pow10(a + b) as real, b)
  {
    Pow10Add(a, b);
    var x, y := Pow10(a) as real, Pow10(b) as real;
    assert Shift(m, -a) == m / x;
    var z := m / Pow10(a + b) as real;
    assert Shift(z, b) == z * y;
    hide *;
    assert Pow10(a + b) as real == x * y;
    DivideTwice(m, x, y);
    assert z == m / x / y;
  }

  lemma {:induction false} DownAndDown(m: real, a: nat, b: int)
    requires b > 0
    ensures Shift(m, -b - a) == Shift(m / Pow10(a) as real, -b)
  {
    Pow10Add(a, b);
    hide Pow10;
    var x, y := Pow10(a) as real, Pow10(b) as real;
    assert Pow10(a + b) as real == x * y;
    DivideTwice(m, x, y);
  }

  lemma {:induction false} DivideTwice(m: real, x: real, y: real)
    requires x > 0.0 && y > 0.0
    ensures x * y > 0.0 && m / (x * y) == m / x / y
  {
    var z := m / x / y;
    assert m / x == z * y;
    assert m == z * y * x == z * (x * y);
  }

  lemma {:induction false} Quotient(a: nat, p: nat, b: nat)
    requires p > 0
    ensures (a * p + b) as real / p as real == a as real + b as real / p as real
  {
    var q := p as real;
    assert (a * p) as real == a as real * q;
    assert (a as real * q + b as real) / q == a as real + b as real / q;
  }

  // ---------------------------------------------------------------------------
  // tostring of an integer

  function NatText(n: nat): (ds: string)
    ensures ds != "" && AllDigits(ds)
  {
    (if n < 10 then "" else NatText(n / 10)) + [(n % 10 + 48) as char]
  }

  // Decimal text has no leading zero.
  lemma {:induction false} NatTextFirst(n: nat)
    ensures NatText(n)[0] == '0' <==> n == 0
    ensures n == 0 ==> NatText(n) == "0"
  {
    if n >= 10 {
      NatTextFirst(n / 10);
      assert NatText(n)[0] == NatText(n / 10)[0];
    }
  }

  lemma {:induction false} NatTextValue(n: nat)
    ensures NatOf(NatText(n)) == n
  {
    var ds := NatText(n);
    if n >= 10 {
      NatTextValue(n / 10);
      assert ds[..|ds| - 1] == NatText(n / 10);
    } else {
      assert ds[..|ds| - 1] == "";
    }
  }

  function IntTok(n: int): (t: NumTok)
    ensures Valid(t)
  {
    NumTok(n < 0, NatText(if n < 0 then -n else n), Fraction(false, ""), Exponent("", "", ""))
  }

  lemma {:induction false} IntTokValue(n: int)
    ensures NumValue(IntTok(n)) == n as real
  {
    var m := if n < 0 then -n else n;
    NatTextValue(m);
    assert NatText(m) + "" == NatText(m);
  }
}
