/**
 The integer parsers, for any integer type with its least and greatest value.
 */
module Integers {
  import opened Bytes

  const MINUS: Byte := 45
  const PLUS: Byte := 43
  const ZERO: Byte := 48

  predicate IsDigit(c: Byte) {
    ZERO <= c <= ZERO + 9
  }

  function Digit(c: Byte): (d: nat)
    requires IsDigit(c)
    ensures d <= 9
  {
    (c - ZERO) as nat
  }

  ghost predicate AllDigits(s: Text) {
    forall i :: 0 <= i < |s| ==> IsDigit(s[i])
  }

  /** The number that a digit string denotes. */
  function Value(s: Text): (v: int)
    ensures 0 <= v
  {
    if s == [] then 0
    else 10 * Value(s[..|s| - 1]) + if IsDigit(s[|s| - 1]) then Digit(s[|s| - 1]) else 0
  }

  /** How many digits a text starts with. */
  function DigitCount(s: Text): (n: nat)
    ensures n <= |s| && AllDigits(s[..n])
    ensures n < |s| ==> !IsDigit(s[n])
  {
    if s == [] || !IsDigit(s[0]) then 0
    else
      var n := DigitCount(s[1..]);
      assert s[..n + 1] == [s[0]] + s[1..][..n];
      n + 1
  }

  /** Division of C: it truncates towards zero. */
  function TruncDiv(a: int, b: int): int
    requires 0 < b
  {
    if a >= 0 then a / b else -((-a) / b)
  }

  datatype OverflowPolicy = ThrowOnOverflow | IgnoreOverflow | SetToMaxOnOverflow

  datatype ParseResult = Parsed(x: int) | OverflowThrown | UnderflowThrown | NoDigit

  /** The test before a digit is appended tells exactly whether the number would be too great, and if
      not, no intermediate result is. */
  lemma OverflowTestExact(x: int, y: int, max: int)
    requires 0 <= x <= max && 0 <= y <= 9 <= max
    ensures x > TruncDiv(max - y, 10) <==> 10 * x + y > max
    ensures x <= TruncDiv(max - y, 10) ==> 0 <= 10 * x <= max && 0 <= 10 * x + y <= max
  {
  }

  /** The same for negative numbers, where it is truncation that makes the test exact. */
  lemma UnderflowTestExact(x: int, y: int, min: int)
    requires min <= x <= 0 && 0 <= y <= 9 && min <= -9
    ensures x < TruncDiv(min + y, 10) <==> 10 * x - y < min
    ensures x >= TruncDiv(min + y, 10) ==> min <= 10 * x <= 0 && min <= 10 * x - y <= 0
  {
  }

  /** With division that rounds down the test would let -129 pass for a signed char. */
  lemma FlooringIsInexact()
    ensures !(-12 < (-128 + 9) / 10) && 10 * -12 - 9 < -128
  {
  }

  /** The longest prefix of a digit string whose value is within the limit. */
  function Fitting(s: Text, limit: nat): Text {
    if Value(s) <= limit || s == [] then s else Fitting(s[..|s| - 1], limit)
  }

  /** The value a parser stops with: too great a number is reported before any byte after the digits
      that make it so is looked at. */
  function UnsignedResult(s: Text, max: nat, policy: OverflowPolicy): ParseResult {
    var d := s[..DigitCount(s)];
    if Value(d) > max then
      match policy
      case ThrowOnOverflow => OverflowThrown
      case IgnoreOverflow => Parsed(Value(Fitting(d, max)))
      case SetToMaxOnOverflow => Parsed(max)
    else if d == s then Parsed(Value(d)) else NoDigit
  }

  function NegativeResult(s: Text, min: int, policy: OverflowPolicy): ParseResult
    requires min <= 0
  {
    var d := s[..DigitCount(s)];
    if -Value(d) < min then
      match policy
      case ThrowOnOverflow => UnderflowThrown
      case IgnoreOverflow => Parsed(-Value(Fitting(d, -min)))
      case SetToMaxOnOverflow => Parsed(min)
    else if d == s then Parsed(-Value(d)) else NoDigit
  }

  function SignedResult(s: Text, min: int, max: nat, policy: OverflowPolicy): ParseResult
    requires min <= 0
  {
    if s != [] && s[0] == MINUS then NegativeResult(s[1..], min, policy)
    else UnsignedResult(if s != [] && s[0] == PLUS then s[1..] else s, max, policy)
  }

  lemma ValueStep(s: Text, i: nat)
    requires i < |s| && IsDigit(s[i])
    ensures Value(s[..i + 1]) == 10 * Value(s[..i]) + Digit(s[i])
  {
    assert s[..i + 1][..i] == s[..i];
  }

  lemma {:induction false} ValueGrows(s: Text, i: nat)
    requires i <= |s|
    ensures Value(s[..i]) <= Value(s)
    decreases |s| - i
  {
    if i < |s| {
      var n := |s| - 1;
      assert s[..n][..i] == s[..i];
      ValueGrows(s[..n], i);
    } else {
      assert s[..i] == s;
    }
  }

  /** Once a prefix is too great and the one before it is not, the latter is the longest that fits. */
  lemma {:induction false} FittingIs(s: Text, i: nat, limit: nat)
    requires i < |s| && Value(s[..i]) <= limit < Value(s[..i + 1])
    ensures Fitting(s, limit) == s[..i] && limit < Value(s)
    decreases |s|
  {
    ValueGrows(s, i + 1);
    var n := |s| - 1;
    if i < n {
      assert s[..n][..i] == s[..i] && s[..n][..i + 1] == s[..i + 1];
      FittingIs(s[..n], i, limit);
    } else {
      assert s[..n] == s[..i];
    }
  }

  lemma {:induction false} DigitCountIs(s: Text, n: nat)
    requires n <= |s| && AllDigits(s[..n]) && (n < |s| ==> !IsDigit(s[n]))
    ensures DigitCount(s) == n
  {
    if n > 0 {
      assert s[..n][0] == s[0];
      assert s[1..][..n - 1] == s[..n][1..];
      DigitCountIs(s[1..], n - 1);
    }
  }

  lemma {:induction false} DigitsReach(s: Text, i: nat)
    requires i < |s| && AllDigits(s[..i + 1])
    ensures i < DigitCount(s)
  {
    assert s[..i + 1][0] == s[0];
    if i > 0 {
      assert s[1..][..i] == s[..i + 1][1..];
      DigitsReach(s[1..], i - 1);
    }
  }

  /** When digit `i` makes a number too great, the digits of the text make it so. */
  lemma TooGreatAt(s: Text, i: nat, limit: nat)
    requires i < |s| && AllDigits(s[..i + 1]) && Value(s[..i]) <= limit < Value(s[..i + 1])
    ensures var d := s[..DigitCount(s)]; limit < Value(d) && Fitting(d, limit) == s[..i]
  {
    var n := DigitCount(s);
    DigitsReach(s, i);
    var d := s[..n];
    assert d[..i] == s[..i] && d[..i + 1] == s[..i + 1];
    FittingIs(d, i, limit);
  }

  /** Parses a number without a sign. */
  method ParseUnsignedInteger(s: Text, max: nat, policy: OverflowPolicy) returns (r: ParseResult)
    requires 9 <= max
    ensures r == UnsignedResult(s, max, policy)
  {
    var x := 0;
    var i := 0;
    while i < |s|
      invariant i <= |s| && AllDigits(s[..i]) && x == Value(s[..i]) <= max
    {
      if !IsDigit(s[i]) {
        DigitCountIs(s, i);
        return NoDigit;
      }
      var y := Digit(s[i]);
      ValueStep(s, i);
      OverflowTestExact(x, y, max);
      assert s[..i + 1] == s[..i] + [s[i]];
      if x > TruncDiv(max - y, 10) {
        TooGreatAt(s, i, max);
        match policy
        case ThrowOnOverflow => return OverflowThrown;
        case IgnoreOverflow => return Parsed(x);
        case SetToMaxOnOverflow => return Parsed(max);
      }
      x := 10 * x + y;
      i := i + 1;
    }
    assert s[..|s|] == s;
    DigitCountIs(s, |s|);
    r := Parsed(x);
  }

  /** Parses what follows a minus sign. */
  method ParseNegativeInteger(s: Text, min: int, policy: OverflowPolicy) returns (r: ParseResult)
    requires min <= -9
    ensures r == NegativeResult(s, min, policy)
  {
    var x := 0;
    var i := 0;
    while i < |s|
      invariant i <= |s| && AllDigits(s[..i]) && x == -Value(s[..i]) && min <= x
    {
      if !IsDigit(s[i]) {
        DigitCountIs(s, i);
        return NoDigit;
      }
      var y := Digit(s[i]);
      ValueStep(s, i);
      UnderflowTestExact(x, y, min);
      assert s[..i + 1] == s[..i] + [s[i]];
      if x < TruncDiv(min + y, 10) {
        TooGreatAt(s, i, -min);
        match policy
        case ThrowOnOverflow => return UnderflowThrown;
        case IgnoreOverflow => return Parsed(x);
        case SetToMaxOnOverflow => return Parsed(min);
      }
      x := 10 * x - y;
      i := i + 1;
    }
    assert s[..|s|] == s;
    DigitCountIs(s, |s|);
    r := Parsed(x);
  }

  /** Parses a number with an optional sign. */
  method ParseSignedInteger(s: Text, min: int, max: nat, policy: OverflowPolicy) returns (r: ParseResult)
    requires min <= -9 && 9 <= max
    ensures r == SignedResult(s, min, max, policy)
  {
    if s != [] && s[0] == MINUS {
      r := ParseNegativeInteger(s[1..], min, policy);
    } else if s != [] && s[0] == PLUS {
      r := ParseUnsignedInteger(s[1..], max, policy);
    } else {
      r := ParseUnsignedInteger(s, max, policy);
    }
  }

  // ----- what the results mean -----

  /** A digit behind a number. */
  lemma ValueOfOneMore(s: Text, c: Byte)
    requires 48 <= c <= 57
    ensures Value(s + [c]) == 10 * Value(s) + (c as int - 48)
  {
    assert (s + [c])[..|s|] == s;
  }

  predicate IsSign(s: Text) {
    s == [] || s == [43] || s == [45]
  }

  /** A text is a sign, digits, and a rest that is neither. */
  ghost predicate IsMadeOf(s: Text, sign: Text, digits: Text, rest: Text) {
    && s == sign + (digits + rest) && IsSign(sign) && (forall i :: 0 <= i < |digits| ==> 48 <= digits[i] <= 57)
    && (rest != [] ==> !(48 <= rest[0] <= 57))
    && (sign == [] && digits == [] && rest != [] ==> rest[0] != 43 && rest[0] != 45)
  }

  /** And so is every text. */
  lemma EveryTextIsMade(s: Text) returns (sign: Text, digits: Text, rest: Text)
    ensures IsMadeOf(s, sign, digits, rest)
  {
    var k := if s != [] && (s[0] == 43 || s[0] == 45) then 1 else 0;
    var n := DigitCount(s[k..]);
    sign, digits, rest := s[..k], s[k..][..n], s[k..][n..];
    assert s[k..] == digits + rest && s == s[..k] + s[k..];
    assert k == 1 ==> sign == [s[0]];
  }

  /** What is kept of a number that is too great: the most of its leading digits that still fit. */
  lemma {:induction false} FittingMeaning(s: Text, limit: nat) returns (i: nat)
    requires limit < Value(s)
    ensures KeptUpTo(s, limit, i) && Fitting(s, limit) == s[..i]
    decreases |s|
  {
    var n := |s| - 1;
    if Value(s[..n]) <= limit {
      i := n;
      assert s[..n + 1] == s;
    } else {
      i := FittingMeaning(s[..n], limit);
      assert s[..n][..i] == s[..i] && s[..n][..i + 1] == s[..i + 1];
    }
  }

  /** The result for a number that the type does not hold, by policy: an exception, the limit, or the value
      of the leading digits up to the one that makes it so. */
  ghost predicate IsExcess(r: ParseResult, negative: bool, digits: Text, limit: nat, policy: OverflowPolicy) {
    match policy
    case ThrowOnOverflow => r == if negative then UnderflowThrown else OverflowThrown
    case SetToMaxOnOverflow => r == Parsed(Negated(negative, limit))
    case IgnoreOverflow =>
      exists i: nat :: KeptUpTo(digits, limit, i) && r == Parsed(Negated(negative, Value(digits[..i])))
  }

  function Negated(negative: bool, n: int): int {
    if negative then -n else n
  }

  /** The digits before number `i` make a number within the limit, and with that one they do not. */
  predicate KeptUpTo(digits: Text, limit: nat, i: nat) {
    i < |digits| && Value(digits[..i]) <= limit < Value(digits[..i + 1])
  }

  lemma DigitsFront(digits: Text, rest: Text)
    requires AllDigits(digits) && (rest != [] ==> !IsDigit(rest[0]))
    ensures DigitCount(digits + rest) == |digits| && (digits + rest)[..|digits|] == digits
    ensures digits == digits + rest <==> rest == []
  {
    DigitCountIs(digits + rest, |digits|);
  }

  lemma ExcessIs(r: ParseResult, negative: bool, digits: Text, limit: nat, policy: OverflowPolicy, kept: Text)
    requires limit < Value(digits) && kept == Fitting(digits, limit)
    requires r == match policy
      case ThrowOnOverflow => if negative then UnderflowThrown else OverflowThrown
      case SetToMaxOnOverflow => Parsed(Negated(negative, limit))
      case IgnoreOverflow => Parsed(Negated(negative, Value(kept)))
    ensures IsExcess(r, negative, digits, limit, policy)
  {
    var i := FittingMeaning(digits, limit);
  }

  lemma UnsignedMeaning(s: Text, digits: Text, rest: Text, max: nat, policy: OverflowPolicy)
    requires s == digits + rest && AllDigits(digits) && (rest != [] ==> !IsDigit(rest[0]))
    ensures var (r, v) := (UnsignedResult(s, max, policy), Value(digits));
      if v > max then IsExcess(r, false, digits, max, policy)
      else r == if rest == [] then Parsed(v) else NoDigit
  {
    DigitsFront(digits, rest);
    if Value(digits) > max {
      ExcessIs(UnsignedResult(s, max, policy), false, digits, max, policy, Fitting(digits, max));
    }
  }

  lemma NegativeMeaning(s: Text, digits: Text, rest: Text, min: int, policy: OverflowPolicy)
    requires min <= 0 && s == digits + rest && AllDigits(digits) && (rest != [] ==> !IsDigit(rest[0]))
    ensures var (r, v) := (NegativeResult(s, min, policy), Value(digits));
      if v > -min then IsExcess(r, true, digits, -min, policy)
      else r == if rest == [] then Parsed(-v) else NoDigit
  {
    DigitsFront(digits, rest);
    if Value(digits) > -min {
      ExcessIs(NegativeResult(s, min, policy), true, digits, -min, policy, Fitting(digits, -min));
    }
  }

  /** Main result: the result for any text under any policy. If the digits make a number that the type does
      not hold, the policy decides, whatever comes behind them; otherwise any byte that is left behind the
      digits is an error, and if none is, the number is returned. */
  lemma SignedMeaning(s: Text, sign: Text, digits: Text, rest: Text, min: int, max: nat, policy: OverflowPolicy)
    requires IsMadeOf(s, sign, digits, rest) && min <= 0
    ensures var (r, v) := (SignedResult(s, min, max, policy), Value(digits));
      if sign == [45] then
        if v > -min then IsExcess(r, true, digits, -min, policy)
        else r == if rest == [] then Parsed(-v) else NoDigit
      else
        if v > max then IsExcess(r, false, digits, max, policy)
        else r == if rest == [] then Parsed(v) else NoDigit
  {
    var t := digits + rest;
    assert sign != [] ==> s[1..] == t && s[0] == sign[0];
    assert sign == [] ==> s == t;
    if sign == [45] {
      NegativeMeaning(t, digits, rest, min, policy);
    } else {
      UnsignedMeaning(t, digits, rest, max, policy);
    }
  }

  /** A text with no digits at all, with or without a sign, is read as zero. */
  lemma NoDigitsIsZero(sign: Text, min: int, max: nat, policy: OverflowPolicy)
    requires IsSign(sign) && min <= 0
    ensures SignedResult(sign, min, max, policy) == Parsed(0)
  {
    assert sign + ([] + []) == sign;
    SignedMeaning(sign, sign, [], [], min, max, policy);
  }

  /** Main result: an optionally signed digit string gives its value if the type holds it, and is
      otherwise reported as too great or too small, never as anything else. */
  lemma SignedIsExact(sign: Text, digits: Text, min: int, max: nat)
    requires min <= -9 && 9 <= max
    requires sign == [] || sign == [PLUS] || sign == [MINUS]
    requires AllDigits(digits)
    ensures var v := if sign == [MINUS] then -Value(digits) else Value(digits);
      SignedResult(sign + digits, min, max, ThrowOnOverflow) ==
        if v < min then UnderflowThrown else if v > max then OverflowThrown else Parsed(v)
  {
    var s := sign + digits;
    assert digits[..|digits|] == digits;
    DigitCountIs(digits, |digits|);
    if sign != [] {
      assert s[1..] == digits;
    } else {
      assert s == digits;
    }
  }

  /** Whatever the text and the policy, a number that is returned is one of the type. */
  lemma ResultFits(s: Text, min: int, max: nat, policy: OverflowPolicy)
    requires min <= 0
    ensures SignedResult(s, min, max, policy).Parsed? ==> min <= SignedResult(s, min, max, policy).x <= max
  {
    forall d: Text, limit: nat
      ensures Value(Fitting(d, limit)) <= limit
    {
      FittingFits(d, limit);
    }
  }

  lemma {:induction false} FittingFits(s: Text, limit: nat)
    ensures Value(Fitting(s, limit)) <= limit
    decreases |s|
  {
    if s != [] && Value(s) > limit {
      FittingFits(s[..|s| - 1], limit);
    }
  }

  // ----- printing -----

  function PrintNat(n: nat): Text {
    (if n < 10 then [] else PrintNat(n / 10)) + [ZERO + (n % 10) as Byte]
  }

  function Print(n: int): Text {
    if n < 0 then [MINUS] + PrintNat(-n) else PrintNat(n)
  }

  lemma {:induction false} PrintedValue(n: nat)
    ensures AllDigits(PrintNat(n)) && PrintNat(n) != [] && Value(PrintNat(n)) == n
  {
    var s := PrintNat(n);
    var last := ZERO + (n % 10) as Byte;
    if n < 10 {
      assert s == [last];
      assert s[..0] == [];
    } else {
      PrintedValue(n / 10);
      assert s[..|s| - 1] == PrintNat(n / 10);
    }
  }

  /** A number that the type holds, with or without a minus sign, is parsed under every policy. */
  lemma DigitsParse(d: Text, min: int, max: nat, policy: OverflowPolicy)
    requires min <= 0 && AllDigits(d) && d != []
    ensures Value(d) <= max ==> SignedResult(d, min, max, policy) == Parsed(Value(d))
    ensures min <= -Value(d) ==> SignedResult([MINUS] + d, min, max, policy) == Parsed(-Value(d))
  {
    assert d[..|d|] == d && IsDigit(d[0]);
    assert ([MINUS] + d)[1..] == d;
    DigitCountIs(d, |d|);
  }

  /** Main result: every number of the type is read back as it was printed, under every policy. */
  lemma PrintThenParse(n: int, min: int, max: nat, policy: OverflowPolicy)
    requires min <= -9 && 9 <= max && min <= n <= max
    ensures SignedResult(Print(n), min, max, policy) == Parsed(n)
  {
    var magnitude := if n < 0 then -n else n;
    PrintedValue(magnitude);
    DigitsParse(PrintNat(magnitude), min, max, policy);
  }
}
