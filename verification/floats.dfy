/**
 The floating-point parser, over exact reals.
 */
module Floats {
  import opened Bytes
  import opened Integers

  const DOT: Byte := 46
  const COMMA: Byte := 44
  const LOWER_E: Byte := 101
  const UPPER_E: Byte := 69

  function Pow(b: real, e: nat): real {
    if e == 0 then 1.0 else b * Pow(b, e - 1)
  }

  /** A power of ten. */
  function TenTo(e: int): real {
    if e >= 0 then Pow(10.0, e) else Pow(0.1, -e)
  }

  /** `v` moved by `k` places behind the point. */
  function Places(v: int, k: nat): real {
    if k == 0 then v as real else Places(v, k - 1) / 10.0
  }

  /** A number multiplied by a power of ten. */
  function Moved(m: real, e: int): real {
    m * TenTo(e)
  }

  /** The parser negates an exponent; that of the least value of its type has no negation. */
  datatype FloatResult = Number(x: real) | NotANumber | NegationOverflow

  // ----- powers -----

  lemma Associate(a: real, b: real, c: real)
    ensures a * (b * c) == (a * b) * c
  {
  }

  lemma {:induction false} PowOfSquare(b: real, n: nat)
    ensures Pow(b * b, n) == Pow(b, 2 * n)
  {
    if n > 0 {
      PowOfSquare(b, n - 1);
      assert Pow(b, 2 * n) == b * Pow(b, 2 * n - 1) == b * (b * Pow(b, 2 * n - 2));
      Associate(b, b, Pow(b, 2 * n - 2));
    }
  }

  /** Powers of a tenth undo powers of ten. */
  lemma {:induction false} TenthsInvertTens(n: nat)
    ensures Pow(0.1, n) * Pow(10.0, n) == 1.0
  {
    if n > 0 {
      TenthsInvertTens(n - 1);
      var (t, u) := (Pow(0.1, n - 1), Pow(10.0, n - 1));
      assert (0.1 * t) * (10.0 * u) == t * u;
    }
  }

  /** A number moved by `k` places and then multiplied by that power of ten is as it was. */
  lemma {:induction false} PlacesMeaning(v: int, k: nat)
    ensures Places(v, k) * Pow(10.0, k) == v as real
  {
    if k > 0 {
      PlacesMeaning(v, k - 1);
      CancelTen(Places(v, k - 1), Pow(10.0, k - 1));
    }
  }

  lemma CancelTen(x: real, p: real)
    ensures (x / 10.0) * (10.0 * p) == x * p
  {
  }

  lemma {:induction false} PlacesAdd(v: int, w: int, k: nat)
    ensures Places(v, k) + Places(w, k) == Places(v + w, k)
    ensures Places(10 * v, k) == 10.0 * Places(v, k)
  {
    if k > 0 {
      PlacesAdd(v, w, k - 1);
    }
  }

  /** One more digit behind the point. */
  lemma PlacesAppend(v: int, d: int, k: nat)
    ensures Places(v, k) + Places(d, k + 1) == Places(10 * v + d, k + 1)
  {
    PlacesAdd(v, 0, k);
    PlacesAdd(10 * v, d, k + 1);
  }

  lemma {:induction false} DigitTimesPlace(d: nat, pos: real, k: nat)
    requires pos == Places(1, k)
    ensures d as real * pos == Places(d, k)
    decreases d
  {
    if d == 0 {
      PlacesAdd(0, 0, k);
    } else {
      DigitTimesPlace(d - 1, pos, k);
      PlacesAdd(d - 1, 1, k);
      assert d as real * pos == (d - 1) as real * pos + pos;
    }
  }

  /** The squaring loop. */
  method Scale(x0: real, base0: real, e0: nat) returns (x: real)
    requires e0 > 0
    ensures x == x0 * Pow(base0, e0)
  {
    x := x0;
    var base, e := base0, e0;
    while e != 1
      invariant e > 0 && x * Pow(base, e) == x0 * Pow(base0, e0)
      decreases e
    {
      if e % 2 == 0 {
        PowOfSquare(base, e / 2);
        base := base * base;
        e := e / 2;
      } else {
        Associate(x, base, Pow(base, e - 1));
        x := x * base;
        e := e - 1;
      }
    }
    assert Pow(base, 1) == base * Pow(base, 0) == base;
    x := x * base;
  }

  // ----- the parser -----

  predicate IsPoint(c: Byte) {
    c == DOT || c == COMMA
  }

  predicate IsExponentMark(c: Byte) {
    c == LOWER_E || c == UPPER_E
  }

  function Signed(negative: bool, x: real): real {
    if negative then -x else x
  }

  /** The parts of a decimal text: its sign, its digits before and behind the point, its exponent. */
  datatype Parts = Parts(negative: bool, whole: Text, behind: Text, exponent: int) | NoParts | NoNegation {
    /** The number that the parts denote: all digits as one number, moved by the places behind the
        point and by the exponent. */
    function Denotes(): real
      requires Parts?
    {
      Signed(negative, Moved(Places(Value(whole + behind), |behind|), exponent))
    }

    function Result(): FloatResult {
      match this
      case Parts(_, _, _, _) => Number(Denotes())
      case NoParts => NotANumber
      case NoNegation => NegationOverflow
    }
  }

  /** The digits at the front of a text, before and behind a point, and what is left after them. */
  function Mantissa(t: Text): (Text, Text, Text) {
    var n := DigitCount(t);
    var whole, rest := t[..n], t[n..];
    if rest == [] || !IsPoint(rest[0]) then (whole, [], rest)
    else
      var k := DigitCount(rest[1..]);
      (whole, rest[1..][..k], rest[1..][k..])
  }

  /** The exponent that follows the digits; None stands for an invalid digit. */
  function ExponentOf(rest: Text, min: int, max: nat): Option<int>
    requires min <= 0
  {
    if rest == [] then Some(0)
    else if !IsExponentMark(rest[0]) then None
    else match SignedResult(rest[1..], min, max, SetToMaxOnOverflow)
      case Parsed(e) => Some(e)
      case _ => None
  }

  function Assemble(negative: bool, whole: Text, behind: Text, e: Option<int>, max: nat): Parts {
    if e.None? then NoParts else if -e.value > max then NoNegation else Parts(negative, whole, behind, e.value)
  }

  /** The parts of any text, where an exponent is an int from `min` to `max`. */
  function PartsOf(s: Text, min: int, max: nat): Parts
    requires min <= 0
  {
    var sign := s != [] && (s[0] == MINUS || s[0] == PLUS);
    var (whole, behind, rest) := Mantissa(if sign then s[1..] else s);
    Assemble(sign && s[0] == MINUS, whole, behind, ExponentOf(rest, min, max), max)
  }

  /** One more digit of a run from `i` to `j`. */
  lemma RunStep(s: Text, i: nat, j: nat)
    requires i <= j < |s| && AllDigits(s[i..j]) && IsDigit(s[j])
    ensures AllDigits(s[i..j + 1]) && s[i..j + 1] == s[i..j] + [s[j]]
    ensures Value(s[i..j + 1]) == 10 * Value(s[i..j]) + Digit(s[j])
  {
    assert s[i..j + 1][..j - i] == s[i..j];
  }

  /** A run of digits ends where there is no further one. */
  lemma RunEnd(s: Text, i: nat, j: nat)
    requires i <= j <= |s| && AllDigits(s[i..j]) && (j < |s| ==> !IsDigit(s[j]))
    ensures DigitCount(s[i..]) == j - i
  {
    assert s[i..][..j - i] == s[i..j];
    DigitCountIs(s[i..], j - i);
  }

  /** One more digit behind the digits before the point. */
  lemma BehindStep(whole: Text, s: Text, i: nat, j: nat)
    requires i <= j < |s| && AllDigits(s[i..j]) && IsDigit(s[j])
    ensures Value(whole + s[i..j + 1]) == 10 * Value(whole + s[i..j]) + Digit(s[j])
  {
    var digits := whole + s[i..j];
    assert whole + s[i..j + 1] == digits + [s[j]];
    assert (digits + [s[j]])[..|digits|] == digits;
  }

  lemma PlacesStep(v: int, y: nat, x: real, pos: real, k: nat)
    requires x == Places(v, k) && pos == Places(1, k + 1)
    ensures x + y as real * pos == Places(10 * v + y, k + 1)
  {
    DigitTimesPlace(y, pos, k + 1);
    PlacesAppend(v, y, k);
  }

  /** Digits from index `i` on, as a whole number. */
  method ReadWhole(s: Text, i: nat) returns (x: real, j: nat)
    requires i <= |s|
    ensures j == i + DigitCount(s[i..]) && x == Value(s[i..j]) as real
  {
    x, j := 0.0, i;
    while j < |s| && IsDigit(s[j])
      invariant i <= j <= |s| && AllDigits(s[i..j]) && x == Value(s[i..j]) as real
    {
      RunStep(s, i, j);
      assert (10 * Value(s[i..j]) + Digit(s[j])) as real == x * 10.0 + Digit(s[j]) as real;
      x := x * 10.0;
      x := x + Digit(s[j]) as real;
      j := j + 1;
    }
    RunEnd(s, i, j);
  }

  /** The digits from `i` to `j` have been added behind the point. */
  ghost predicate AddedSoFar(whole: Text, s: Text, i: nat, j: nat, x: real, pos: real) {
    && i <= j <= |s| && AllDigits(s[i..j])
    && pos == Places(1, j - i) && x == Places(Value(whole + s[i..j]), j - i)
  }

  lemma AddedStep(whole: Text, s: Text, i: nat, j: nat, x: real, pos: real, y: nat, x': real, pos': real)
    requires AddedSoFar(whole, s, i, j, x, pos) && j < |s| && IsDigit(s[j]) && y == Digit(s[j])
    requires pos' == pos / 10.0 && x' == x + y as real * pos'
    ensures AddedSoFar(whole, s, i, j + 1, x', pos')
  {
    RunStep(s, i, j);
    BehindStep(whole, s, i, j);
    PlacesStep(Value(whole + s[i..j]), y, x, pos', j - i);
  }

  /** Digits from index `i` on, added behind the point to the number of the digits before it. */
  method ReadFraction(s: Text, i: nat, x0: real, ghost whole: Text) returns (x: real, j: nat)
    requires i <= |s| && x0 == Value(whole) as real
    ensures j == i + DigitCount(s[i..]) && x == Places(Value(whole + s[i..j]), j - i)
  {
    x, j := x0, i;
    var pos := 1.0;
    assert whole + s[i..i] == whole;
    while j < |s| && IsDigit(s[j])
      invariant AddedSoFar(whole, s, i, j, x, pos)
    {
      ghost var (before, at) := (x, pos);
      pos := pos / 10.0;
      var y := Digit(s[j]);
      x := x + y as real * pos;
      AddedStep(whole, s, i, j, before, at, y, x, pos);
      j := j + 1;
    }
    RunEnd(s, i, j);
  }

  /** Moves a number by a power of ten. */
  method ApplyExponent(m: real, exponent: int) returns (x: real)
    ensures x == Moved(m, exponent)
  {
    x := m;
    if exponent != 0 {
      if exponent < 0 {
        x := Scale(x, 0.1, -exponent);
      } else {
        x := Scale(x, 10.0, exponent);
      }
    } else {
      assert TenTo(0) == 1.0;
    }
  }

  /** Reads the exponent, if there is one. */
  method ReadExponent(rest: Text, min: int, max: nat) returns (e: Option<int>)
    requires min <= -9 && 9 <= max
    ensures e == ExponentOf(rest, min, max)
  {
    if rest == [] {
      return Some(0);
    }
    if !IsExponentMark(rest[0]) {
      return None;
    }
    var p := ParseSignedInteger(rest[1..], min, max, SetToMaxOnOverflow);
    e := if p.Parsed? then Some(p.x) else None;
  }

  lemma DigitsEnd(digits: Text, rest: Text)
    requires AllDigits(digits) && (rest != [] ==> !IsDigit(rest[0]))
    ensures DigitCount(digits + rest) == |digits|
    ensures (digits + rest)[..|digits|] == digits && (digits + rest)[|digits|..] == rest
  {
    DigitsFront(digits, rest);
  }

  lemma MantissaWithoutPoint(whole: Text, tail: Text)
    requires AllDigits(whole) && (tail != [] ==> !IsDigit(tail[0]) && !IsPoint(tail[0]))
    ensures Mantissa(whole + tail) == (whole, [], tail)
  {
    DigitsEnd(whole, tail);
  }

  lemma MantissaWithPoint(t: Text, whole: Text, point: Byte, behind: Text, tail: Text)
    requires AllDigits(whole) && IsPoint(point) && AllDigits(behind) && (tail != [] ==> !IsDigit(tail[0]))
    requires t == whole + ([point] + (behind + tail))
    ensures Mantissa(t) == (whole, behind, tail)
  {
    var rest := [point] + (behind + tail);
    DigitsEnd(whole, rest);
    assert rest[1..] == behind + tail;
    DigitsEnd(behind, tail);
  }

  /** A run of digits in a text. */
  lemma RunIs(s: Text, i: nat, j: nat)
    requires i <= |s| && j == i + DigitCount(s[i..])
    ensures j <= |s| && AllDigits(s[i..j]) && (j < |s| ==> !IsDigit(s[j]))
    ensures s[i..] == s[i..j] + s[j..]
  {
    assert s[i..j] == s[i..][..j - i];
  }

  lemma MantissaStops(s: Text, i: nat, j: nat)
    requires i <= |s| && j == i + DigitCount(s[i..]) && (j < |s| ==> !IsPoint(s[j]))
    ensures Mantissa(s[i..]) == (s[i..j], [], s[j..])
  {
    RunIs(s, i, j);
    MantissaWithoutPoint(s[i..j], s[j..]);
  }

  lemma ThreeRuns(s: Text, i: nat, j: nat, k: nat)
    requires i <= j < k <= |s|
    ensures s[i..] == s[i..j] + ([s[j]] + (s[j + 1..k] + s[k..]))
  {
  }

  lemma MantissaContinues(s: Text, i: nat, j: nat, k: nat, t: Text)
    requires i <= |s| && j == i + DigitCount(s[i..]) && j < |s| && IsPoint(s[j])
    requires k == j + 1 + DigitCount(s[j + 1..]) && t == s[i..]
    ensures Mantissa(t) == (s[i..j], s[j + 1..k], s[k..])
  {
    RunIs(s, i, j);
    RunIs(s, j + 1, k);
    ThreeRuns(s, i, j, k);
    MantissaWithPoint(t, s[i..j], s[j], s[j + 1..k], s[k..]);
  }

  /** Reads the digits before and behind a point, from index `i` on. */
  method ReadMantissa(s: Text, i: nat) returns (x: real, j: nat, ghost whole: Text, ghost behind: Text)
    requires i <= |s|
    ensures j <= |s| && (whole, behind, s[j..]) == Mantissa(s[i..])
    ensures x == Places(Value(whole + behind), |behind|)
  {
    var w, k := ReadWhole(s, i);
    whole := s[i..k];
    if k < |s| && IsPoint(s[k]) {
      x, j := ReadFraction(s, k + 1, w, whole);
      behind := s[k + 1..j];
      assert |behind| == j - (k + 1);
      MantissaContinues(s, i, k, j, s[i..]);
    } else {
      x, j, behind := w, k, [];
      assert whole + behind == whole;
      MantissaStops(s, i, k);
    }
  }

  /** Puts mantissa, exponent and sign together. */
  method Combine(negative: bool, m: real, e: Option<int>, max: nat) returns (r: FloatResult)
    ensures r ==
      if e.None? then NotANumber
      else if -e.value > max then NegationOverflow
      else Number(Signed(negative, Moved(m, e.value)))
  {
    if e.None? {
      return NotANumber;
    }
    if -e.value > max {
      return NegationOverflow;
    }
    var x := ApplyExponent(m, e.value);
    r := Number(if negative then -x else x);
  }

  /** Parses a decimal text. */
  method ParseFloat(s: Text, min: int, max: nat) returns (r: FloatResult)
    requires min <= -9 && 9 <= max
    ensures r == PartsOf(s, min, max).Result()
  {
    var negative, i := false, 0;
    if s != [] && s[0] == MINUS {
      negative, i := true, 1;
    } else if s != [] && s[0] == PLUS {
      i := 1;
    }
    assert s[0..] == s;
    ghost var whole, behind;
    var x, j;
    x, j, whole, behind := ReadMantissa(s, i);
    var e := ReadExponent(s[j..], min, max);
    assert PartsOf(s, min, max) == Assemble(negative, whole, behind, e, max);
    r := Combine(negative, x, e, max);
  }

  // ----- what the result means -----

  datatype Exponent = NoExponent | Exponent(mark: Byte, sign: Text, digits: Text) {
    ghost predicate Valid() {
      Exponent? ==> IsExponentMark(mark) && IsSign(sign) && AllDigits(digits)
    }

    function Write(): Text {
      if NoExponent? then [] else [mark] + (sign + digits)
    }

    function Denotes(): int {
      if NoExponent? then 0 else if sign == [MINUS] then -Value(digits) else Value(digits)
    }
  }

  /** A decimal text: sign, digits, perhaps a point with digits behind it, and an exponent. */
  datatype Decimal = Decimal(sign: Text, whole: Text, point: Text, behind: Text, exponent: Exponent) {
    ghost predicate Valid() {
      && IsSign(sign) && AllDigits(whole) && AllDigits(behind) && exponent.Valid()
      && (point == [] ==> behind == []) && (point != [] ==> |point| == 1 && IsPoint(point[0]))
    }

    function Unsigned(): Text {
      whole + (point + (behind + exponent.Write()))
    }

    /** The number that the text denotes. */
    function Number(): real {
      Signed(sign == [MINUS], Moved(Places(Value(whole + behind), |behind|), exponent.Denotes()))
    }
  }

  /** What may stand behind a decimal text: nothing, or anything behind an exponent that an int does not
      hold, because the parser looks at no further byte then. */
  predicate Overlooked(x: Exponent, junk: Text, min: int, max: nat) {
    junk == [] || (x.Exponent? && !(min <= x.Denotes() <= max) && !IsDigit(junk[0]))
  }

  lemma UnsignedAnd(d: Decimal, junk: Text)
    ensures d.Unsigned() + junk == d.whole + (d.point + (d.behind + (d.exponent.Write() + junk)))
  {
  }

  lemma MantissaOfWritten(d: Decimal, junk: Text)
    requires d.Valid() && (d.exponent.NoExponent? ==> junk == [])
    ensures Mantissa(d.Unsigned() + junk) == (d.whole, d.behind, d.exponent.Write() + junk)
  {
    var tail := d.exponent.Write() + junk;
    UnsignedAnd(d, junk);
    if d.point == [] {
      assert d.point + (d.behind + tail) == tail;
      MantissaWithoutPoint(d.whole, tail);
    } else {
      assert d.point == [d.point[0]];
      MantissaWithPoint(d.Unsigned() + junk, d.whole, d.point[0], d.behind, tail);
    }
  }

  /** The nearest number of a type. */
  function Clamped(v: int, min: int, max: int): int {
    if v < min then min else if v > max then max else v
  }

  /** The digits of an exponent, read with saturation: bytes behind them are an error unless the digits
      have already gone too far. */
  lemma SignedSaturates(t: Text, x: Exponent, junk: Text, min: int, max: nat)
    requires x.Exponent? && IsMadeOf(t, x.sign, x.digits, junk) && min <= 0
    ensures SignedResult(t, min, max, SetToMaxOnOverflow)
      == if junk == [] || !(min <= x.Denotes() <= max) then Parsed(Clamped(x.Denotes(), min, max)) else NoDigit
  {
    SignedMeaning(t, x.sign, x.digits, junk, min, max, SetToMaxOnOverflow);
  }

  lemma ExponentOfMark(rest: Text, mark: Byte, t: Text, min: int, max: nat)
    requires rest == [mark] + t && min <= 0
    ensures ExponentOf(rest, min, max) ==
      if !IsExponentMark(mark) then None
      else match SignedResult(t, min, max, SetToMaxOnOverflow)
        case Parsed(e) => Some(e)
        case _ => None
  {
    assert rest[1..] == t;
  }

  lemma ExponentOfWritten(x: Exponent, junk: Text, rest: Text, min: int, max: nat)
    requires x.Valid() && min <= -9 && 9 <= max && Overlooked(x, junk, min, max) && rest == x.Write() + junk
    ensures ExponentOf(rest, min, max) == Some(Clamped(x.Denotes(), min, max))
  {
    if x.Exponent? {
      var t := x.sign + (x.digits + junk);
      assert rest == [x.mark] + t;
      ExponentOfMark(rest, x.mark, t, min, max);
      ExponentIsMade(t, x, junk, min, max);
      SignedSaturates(t, x, junk, min, max);
    }
  }

  lemma ExponentIsMade(t: Text, x: Exponent, junk: Text, min: int, max: nat)
    requires x.Valid() && x.Exponent? && min <= -9 && 9 <= max && Overlooked(x, junk, min, max)
    requires t == x.sign + (x.digits + junk)
    ensures IsMadeOf(t, x.sign, x.digits, junk)
  {
  }

  lemma SignOfWritten(d: Decimal, junk: Text)
    requires d.Valid() && (d.exponent.NoExponent? ==> junk == [])
    ensures var (s, u) := (d.sign + (d.Unsigned() + junk), d.Unsigned() + junk);
      var signed := s != [] && (s[0] == MINUS || s[0] == PLUS);
      && (if signed then s[1..] else s) == u
      && (signed && s[0] == MINUS <==> d.sign == [MINUS])
  {
    var s, u := d.sign + (d.Unsigned() + junk), d.Unsigned() + junk;
    UnsignedAnd(d, junk);
    if d.sign == [] {
      assert s == u;
      if d.whole != [] {
        assert u[0] == d.whole[0] && IsDigit(u[0]);
      } else if d.point != [] {
        assert u == d.point + (d.behind + (d.exponent.Write() + junk));
        assert u[0] == d.point[0];
      } else {
        assert u == d.exponent.Write() + junk;
      }
    } else {
      assert s[1..] == u;
    }
  }

  /** Main result: every decimal text is taken apart into its own digits and the nearest exponent that an
      int holds, unless that has no negation. */
  lemma DecimalParts(d: Decimal, junk: Text, min: int, max: nat)
    requires d.Valid() && min <= -9 && 9 <= max && Overlooked(d.exponent, junk, min, max)
    ensures var e := Clamped(d.exponent.Denotes(), min, max);
      PartsOf(d.sign + (d.Unsigned() + junk), min, max)
        == if -e > max then NoNegation else Parts(d.sign == [MINUS], d.whole, d.behind, e)
  {
    SignOfWritten(d, junk);
    MantissaOfWritten(d, junk);
    ExponentOfWritten(d.exponent, junk, d.exponent.Write() + junk, min, max);
  }

  /** A text that is a decimal text, and perhaps something behind it that is overlooked. */
  ghost predicate IsWritten(s: Text, d: Decimal, junk: Text, min: int, max: nat) {
    d.Valid() && Overlooked(d.exponent, junk, min, max) && s == d.sign + (d.Unsigned() + junk)
  }

  lemma TwoParts(t: Text, n: nat)
    requires n <= |t|
    ensures t == t[..n] + t[n..]
  {
  }

  /** The digits, the point and the rest make up the text. */
  lemma MantissaJoins(t: Text) returns (point: Text)
    ensures var (whole, behind, rest) := Mantissa(t);
      && t == whole + (point + (behind + rest)) && AllDigits(whole) && AllDigits(behind)
      && (point == [] ==> behind == []) && (point != [] ==> |point| == 1 && IsPoint(point[0]))
  {
    var n := DigitCount(t);
    var whole, rest := t[..n], t[n..];
    TwoParts(t, n);
    if rest == [] || !IsPoint(rest[0]) {
      point := [];
      assert [] + ([] + rest) == rest;
    } else {
      point := [rest[0]];
      PointJoins(whole, rest, rest[1..], DigitCount(rest[1..]));
    }
  }

  lemma PointJoins(whole: Text, rest: Text, t: Text, k: nat)
    requires rest != [] && t == rest[1..] && k <= |t|
    ensures whole + rest == whole + ([rest[0]] + (t[..k] + t[k..]))
  {
    TwoParts(t, k);
    assert rest == [rest[0]] + t;
  }

  /** An exponent that is read was written, up to bytes that are overlooked. */
  lemma ExponentIsWritten(rest: Text, min: int, max: nat) returns (x: Exponent, junk: Text)
    requires min <= -9 && 9 <= max && ExponentOf(rest, min, max).Some?
    ensures x.Valid() && Overlooked(x, junk, min, max) && rest == x.Write() + junk
  {
    x, junk := NoExponent, [];
    if rest != [] {
      var mark, t := rest[0], rest[1..];
      assert rest == [mark] + t;
      ExponentOfMark(rest, mark, t, min, max);
      var sign, digits;
      sign, digits, junk := EveryTextIsMade(t);
      x := Exponent(mark, sign, digits);
      SignedSaturates(t, x, junk, min, max);
      WrittenAgain(rest, x, t, junk);
    }
  }

  lemma WrittenAgain(rest: Text, x: Exponent, t: Text, junk: Text)
    requires x.Exponent? && rest == [x.mark] + t && t == x.sign + (x.digits + junk)
    ensures rest == x.Write() + junk
  {
  }

  /** A sign and what follows it. */
  lemma SignJoins(s: Text) returns (sign: Text, t: Text)
    ensures s == sign + t && IsSign(sign)
    ensures var signed := s != [] && (s[0] == MINUS || s[0] == PLUS); t == if signed then s[1..] else s
  {
    sign, t := [], s;
    if s != [] && (s[0] == MINUS || s[0] == PLUS) {
      sign, t := [s[0]], s[1..];
    }
  }

  lemma DecimalIsMade(s: Text, d: Decimal, t: Text, rest: Text, junk: Text, min: int, max: nat)
    requires s == d.sign + t && t == d.whole + (d.point + (d.behind + rest)) && rest == d.exponent.Write() + junk
    requires d.Valid() && Overlooked(d.exponent, junk, min, max)
    ensures IsWritten(s, d, junk, min, max)
  {
    UnsignedAnd(d, junk);
  }

  lemma PartsAreWritten(s: Text, min: int, max: nat) returns (d: Decimal, junk: Text)
    requires min <= -9 && 9 <= max && PartsOf(s, min, max) != NoParts
    ensures IsWritten(s, d, junk, min, max)
  {
    var sign, t := SignJoins(s);
    var point := MantissaJoins(t);
    var (whole, behind, rest) := Mantissa(t);
    var x;
    x, junk := ExponentIsWritten(rest, min, max);
    d := Decimal(sign, whole, point, behind, x);
    DecimalIsMade(s, d, t, rest, junk, min, max);
  }

  /** Main result: which texts are refused. A text is taken for a number if and only if it is a decimal text,
      or one whose exponent an int does not hold with anything behind it. */
  lemma NotANumberIff(s: Text, min: int, max: nat)
    requires min <= -9 && 9 <= max
    ensures PartsOf(s, min, max).Result() == NotANumber <==> !exists d, junk :: IsWritten(s, d, junk, min, max)
  {
    if PartsOf(s, min, max) != NoParts {
      var d, junk := PartsAreWritten(s, min, max);
    } else if exists d, junk :: IsWritten(s, d, junk, min, max) {
      var d, junk :| IsWritten(s, d, junk, min, max);
      DecimalParts(d, junk, min, max);
    }
  }

  lemma NothingBehind(d: Decimal)
    ensures d.Unsigned() + [] == d.Unsigned()
  {
  }

  /** So the parser has exactly the parts of the text if its exponent is an int with a negation. */
  lemma DecimalIsExact(d: Decimal, min: int, max: nat)
    requires d.Valid() && min <= -9 && 9 <= max
    requires min <= d.exponent.Denotes() <= max && -d.exponent.Denotes() <= max
    ensures PartsOf(d.sign + d.Unsigned(), min, max)
      == Parts(d.sign == [MINUS], d.whole, d.behind, d.exponent.Denotes())
  {
    NothingBehind(d);
    DecimalParts(d, [], min, max);
  }

  // ----- exponents that an int does not hold -----

  lemma {:induction false} PowersGrow(n: nat, k: nat)
    requires n < k
    ensures 0.0 < Pow(10.0, n) < Pow(10.0, k) && 0.0 < Pow(0.1, k) < Pow(0.1, n)
    decreases k
  {
    if n > 0 {
      PowersGrow(n - 1, k - 1);
    } else if k > 1 {
      PowersGrow(n, k - 1);
    }
  }

  lemma TenToDiffers(a: int, b: int)
    requires (0 <= a && 0 <= b) || (a < 0 && b < 0)
    ensures TenTo(a) == TenTo(b) <==> a == b
  {
    if 0 <= a && 0 <= b {
      if a < b {
        PowersGrow(a, b);
      } else if b < a {
        PowersGrow(b, a);
      }
    } else {
      if a < b {
        PowersGrow(-b, -a);
      } else if b < a {
        PowersGrow(-a, -b);
      }
    }
  }

  lemma {:induction false} PlacesAreZero(v: nat, k: nat)
    ensures Places(v, k) == 0.0 <==> v == 0
  {
    if k > 0 {
      PlacesAreZero(v, k - 1);
    }
  }

  lemma SameProduct(m: real, x: real, y: real)
    ensures m * x == m * y <==> m == 0.0 || x == y
  {
    if m != 0.0 && m * x == m * y {
      assert m * (x - y) == 0.0;
    }
  }

  lemma MovedDiffers(m: real, c: int, e: int)
    requires (0 <= c && 0 <= e) || (c < 0 && e < 0)
    ensures Moved(m, c) == Moved(m, e) <==> m == 0.0 || c == e
  {
    TenToDiffers(c, e);
    SameProduct(m, TenTo(c), TenTo(e));
  }

  lemma SignedDiffers(negative: bool, x: real, y: real)
    ensures Signed(negative, x) == Signed(negative, y) <==> x == y
  {
  }

  /** Main result: the parser returns the number that a decimal text denotes if and only if its exponent is
      an int with a negation, or all its digits are zero and the nearest int has a negation. With any
      other digits an exponent that is too great or too small gives another number. */
  lemma DecimalRightIff(d: Decimal, min: int, max: nat)
    requires d.Valid() && min <= -9 && 9 <= max
    ensures var (e, v) := (d.exponent.Denotes(), Value(d.whole + d.behind));
      var right := 0 <= Clamped(e, min, max) + max && (min <= e <= max || v == 0);
      PartsOf(d.sign + d.Unsigned(), min, max).Result() == Number(d.Number()) <==> right
  {
    NothingBehind(d);
    DecimalParts(d, [], min, max);
    var e := d.exponent.Denotes();
    var c, m := Clamped(e, min, max), Places(Value(d.whole + d.behind), |d.behind|);
    PlacesAreZero(Value(d.whole + d.behind), |d.behind|);
    MovedDiffers(m, c, e);
    SignedDiffers(d.sign == [MINUS], Moved(m, c), Moved(m, e));
  }

  /** And it reports a missing negation exactly if the exponent and the least int are as small as that. */
  lemma NoNegationIff(d: Decimal, min: int, max: nat)
    requires d.Valid() && min <= -9 && 9 <= max
    ensures var e := d.exponent.Denotes();
      PartsOf(d.sign + d.Unsigned(), min, max).Result() == NegationOverflow <==> min + max < 0 && e + max < 0
  {
    NothingBehind(d);
    DecimalParts(d, [], min, max);
  }

  /** Powers of ten with opposite exponents cancel. */
  lemma TenToCancels(e: int)
    ensures TenTo(e) * TenTo(-e) == 1.0
  {
    TenthsInvertTens(if e < 0 then -e else e);
  }

  /** A text with one digit behind the point. */
  lemma OnePlace(s: Text, d: Decimal, v: int, e: int, min: int, max: nat)
    requires IsWritten(s, d, [], min, max) && |d.behind| == 1 && min <= -9 && 9 <= max
    requires Value(d.whole + d.behind) == v && d.exponent.Denotes() == e && -9 <= e <= 9
    ensures PartsOf(s, min, max).Result() == Number(Signed(d.sign == [MINUS], Moved(Places(v, 1), e)))
  {
    DecimalParts(d, [], min, max);
  }

  lemma TwoDigits(b: Byte, c: Byte)
    requires 48 <= b <= 57 && 48 <= c <= 57
    ensures Value([b]) == b as int - 48 && Value([b, c]) == 10 * (b as int - 48) + (c as int - 48)
  {
    ValueOfOneMore([], b);
    ValueOfOneMore([b], c);
    assert [] + [b] == [b] && [b] + [c] == [b, c];
  }

  /** The text "-2,5E-1". */
  lemma CommaNumber(min: int, max: nat)
    requires min <= -9 && 9 <= max
    ensures PartsOf([45, 50, 44, 53, 69, 45, 49], min, max).Result() == Number(-0.25)
  {
    var d := Decimal([45], [50], [44], [53], Exponent(69, [45], [49]));
    assert d.exponent.Write() == [69, 45, 49];
    assert d.sign + (d.Unsigned() + []) == [45, 50, 44, 53, 69, 45, 49];
    TwoDigits(50, 53);
    TwoDigits(49, 49);
    assert [50] + [53] == [50, 53];
    OnePlace([45, 50, 44, 53, 69, 45, 49], d, 25, -1, min, max);
    assert Places(25, 1) == 2.5 && TenTo(-1) == Pow(0.1, 1) == 0.1 * Pow(0.1, 0) == 0.1;
  }

  /** The text "2.5e1". */
  lemma DotNumber(min: int, max: nat)
    requires min <= -9 && 9 <= max
    ensures PartsOf([50, 46, 53, 101, 49], min, max).Result() == Number(25.0)
  {
    var d := Decimal([], [50], [46], [53], Exponent(101, [], [49]));
    assert d.exponent.Write() == [101, 49];
    assert d.sign + (d.Unsigned() + []) == [50, 46, 53, 101, 49];
    TwoDigits(50, 53);
    TwoDigits(49, 49);
    assert [50] + [53] == [50, 53];
    OnePlace([50, 46, 53, 101, 49], d, 25, 1, min, max);
    assert Places(25, 1) == 2.5 && TenTo(1) == Pow(10.0, 1) == 10.0 * Pow(10.0, 0) == 10.0;
  }
}
