/** Bytes, C strings and the decimal text that printf and strtoll exchange. */
module Bytes {
  type byte = b: int | 0 <= b < 256

  const LLONG_MIN := -0x8000_0000_0000_0000
  const LLONG_MAX := 0x7FFF_FFFF_FFFF_FFFF

  /** A C `long long`. */
  type int64 = i: int | LLONG_MIN <= i <= LLONG_MAX

  datatype Option<+T> = None | Some(value: T)

  const NUL: byte := 0
  const PLUS: byte := 43
  const MINUS: byte := 45
  const ZERO: byte := 48
  const NINE: byte := 57
  const COLON: byte := 58

  predicate IsDigit(b: byte) {
    ZERO <= b <= NINE
  }

  /** isspace() in the C locale: blank, tab, newline, vertical tab, form feed, carriage return. */
  predicate IsSpace(b: byte) {
    b == 32 || 9 <= b <= 13
  }

  predicate AllDigits(s: seq<byte>) {
    forall i :: 0 <= i < |s| ==> IsDigit(s[i])
  }

  predicate NulFree(s: seq<byte>) {
    forall i :: 0 <= i < |s| ==> s[i] != NUL
  }

  /** The contents of a C string, without the terminating NUL. */
  type CString = s: seq<byte> | NulFree(s) witness []

  /** What strlen and "%s" see of a byte string: everything before its first NUL. */
  function CStr(s: seq<byte>): (r: CString)
    ensures r <= s
    ensures |r| < |s| ==> s[|r|] == NUL
  {
    if s == [] || s[0] == NUL then [] else
      var t := CStr(s[1..]);
      assert t <= s[1..];
      [s[0]] + t
  }

  lemma {:induction false} CStrIdentity(s: seq<byte>)
    ensures CStr(s) == s <==> NulFree(s)
  {
    if s != [] && s[0] != NUL {
      CStrIdentity(s[1..]);
      assert s == [s[0]] + s[1..];
    }
  }

  /** A C string reads the same when it is followed by its own terminator. */
  lemma {:induction false} CStrTerminated(s: seq<byte>, rest: seq<byte>)
    requires NulFree(s)
    ensures CStr(s + [NUL] + rest) == s
  {
    if s != [] {
      assert (s + [NUL] + rest)[1..] == s[1..] + [NUL] + rest;
      CStrTerminated(s[1..], rest);
    }
  }

  // ---- Decimal text ----

  /** The digits "%llu" prints. */
  function Digits(n: nat): (s: seq<byte>)
    ensures |s| >= 1 && AllDigits(s)
  {
    if n < 10 then [ZERO + n] else Digits(n / 10) + [ZERO + n % 10]
  }

  /** The text "%lli" prints. */
  function Decimal(i: int): (s: seq<byte>)
    ensures |s| >= 1 && NulFree(s)
    ensures IsDigit(s[0]) || s[0] == MINUS
  {
    if i < 0 then [MINUS] + Digits(-i) else Digits(i)
  }

  function DigitsValue(s: seq<byte>): nat
    requires AllDigits(s)
  {
    if s == [] then 0 else 10 * DigitsValue(s[..|s| - 1]) + (s[|s| - 1] - ZERO)
  }

  lemma {:induction false} DigitsRoundTrip(n: nat)
    ensures DigitsValue(Digits(n)) == n
  {
    var s := Digits(n);
    if n < 10 {
      assert s[..0] == [];
      assert DigitsValue(s[..0]) == 0;
    } else {
      assert s[..|s| - 1] == Digits(n / 10);
      DigitsRoundTrip(n / 10);
    }
  }

  function Pow10(k: nat): nat {
    if k == 0 then 1 else 10 * Pow10(k - 1)
  }

  lemma {:induction false} DigitsLength(n: nat, k: nat)
    requires k >= 1 && n < Pow10(k)
    ensures |Digits(n)| <= k
  {
    if n >= 10 {
      assert Pow10(1) == 10 * Pow10(0);
      assert Pow10(k) == 10 * Pow10(k - 1);
      DigitsLength(n / 10, k - 1);
    }
  }

  /** NumDigits() prints into `char buffer[22]`: the text of any long long and its NUL fit. */
  lemma DecimalFitsBuffer(i: int64)
    ensures |Decimal(i)| + 1 <= 22
  {
    assert Pow10(19) == 10000000000000000000 by {
      assert Pow10(4) == 10000;
      assert Pow10(8) == 100000000;
      assert Pow10(12) == 1000000000000;
      assert Pow10(16) == 10000000000000000;
    }
    var n: int := i;
    DigitsLength(if i < 0 then -n else n, 19);
  }

  // ---- strtoll(text, &end, 10), where a NUL stands just past the last byte of text ----

  /** The byte the cursor points at; the terminating NUL once everything is consumed. */
  function Head(text: seq<byte>): byte {
    if text == [] then NUL else text[0]
  }

  function SkipSpaces(text: seq<byte>): (rest: seq<byte>)
    ensures |rest| <= |text|
  {
    if text != [] && IsSpace(text[0]) then SkipSpaces(text[1..]) else text
  }

  /** The number of digits text starts with. */
  function DigitRun(text: seq<byte>): (n: nat)
    ensures n <= |text| && AllDigits(text[..n])
  {
    if text != [] && IsDigit(text[0]) then
      var n := 1 + DigitRun(text[1..]);
      assert text[..n] == [text[0]] + text[1..][..n - 1];
      n
    else 0
  }

  /** strtoll clamps instead of wrapping. */
  function Saturate(v: int): int64 {
    if v < LLONG_MIN then LLONG_MIN else if v > LLONG_MAX then LLONG_MAX else v
  }

  datatype LongRead = LongRead(value: int64, rest: seq<byte>)

  /** strtoll: blanks, an optional sign, digits.  Without a digit nothing is consumed. */
  function StrToLL(text: seq<byte>): (r: LongRead)
    ensures |r.rest| <= |text|
    ensures IsDigit(Head(text)) ==> |r.rest| < |text|
  {
    var s := SkipSpaces(text);
    var unsigned := if Head(s) == PLUS || Head(s) == MINUS then s[1..] else s;
    var n := DigitRun(unsigned);
    if n == 0 then LongRead(0, text)
    else
      var v: int := DigitsValue(unsigned[..n]);
      LongRead(Saturate(if Head(s) == MINUS then -v else v), unsigned[n..])
  }

  lemma {:induction false} SkipSpacesSuffix(text: seq<byte>)
    ensures var rest := SkipSpaces(text); rest == text[|text| - |rest|..]
  {
    if text != [] && IsSpace(text[0]) {
      SkipSpacesSuffix(text[1..]);
    }
  }

  /** strtoll only moves the cursor forward over the text. */
  lemma StrToLLSuffix(text: seq<byte>)
    ensures var rest := StrToLL(text).rest; rest == text[|text| - |rest|..]
  {
    SkipSpacesSuffix(text);
  }

  lemma {:induction false} DigitRunExact(digits: seq<byte>, rest: seq<byte>)
    requires AllDigits(digits) && !IsDigit(Head(rest))
    ensures DigitRun(digits + rest) == |digits|
  {
    if digits == [] {
      assert digits + rest == rest;
    } else {
      assert (digits + rest)[1..] == digits[1..] + rest;
      DigitRunExact(digits[1..], rest);
    }
  }

  lemma HeadOfConcat(a: seq<byte>, b: seq<byte>)
    requires a != []
    ensures Head(a + b) == a[0] && (a + b)[1..] == a[1..] + b
  {
  }

  lemma {:induction false} SkipBlanks(blanks: seq<byte>, rest: seq<byte>)
    requires forall i :: 0 <= i < |blanks| ==> IsSpace(blanks[i])
    requires !IsSpace(Head(rest))
    ensures SkipSpaces(blanks + rest) == rest
  {
    if blanks == [] {
      assert blanks + rest == rest;
    } else {
      HeadOfConcat(blanks, rest);
      SkipBlanks(blanks[1..], rest);
    }
  }

  datatype Sign = NoSign | Plus | Minus

  function SignText(sign: Sign): seq<byte> {
    match sign
    case NoSign => []
    case Plus => [PLUS]
    case Minus => [MINUS]
  }

  function Signed(sign: Sign, n: nat): int {
    if sign == Minus then 0 - n else n
  }

  lemma NotSpace(b: byte)
    requires IsDigit(b) || b == PLUS || b == MINUS
    ensures !IsSpace(b)
  {
  }

  lemma StrToLLSigned(blanks: seq<byte>, sign: Sign, number: seq<byte>)
    requires forall i :: 0 <= i < |blanks| ==> IsSpace(blanks[i])
    requires DigitRun(number) > 0
    ensures var n := DigitRun(number);
      StrToLL(blanks + (SignText(sign) + number))
        == LongRead(Saturate(Signed(sign, DigitsValue(number[..n]))), number[n..])
  {
    var text := SignText(sign) + number;
    assert IsDigit(Head(number));
    if sign == NoSign {
      assert text == number;
    } else {
      assert SignText(sign)[0] == PLUS || SignText(sign)[0] == MINUS;
      HeadOfConcat(SignText(sign), number);
      assert text[1..] == number;
    }
    NotSpace(Head(text));
    SkipBlanks(blanks, text);
  }

  /** What strtoll makes of any number it accepts: blanks and a plus are skipped, leading zeros
      count for nothing, a value out of range saturates, and reading stops after the digits. */
  lemma StrToLLNumber(blanks: seq<byte>, sign: Sign, digits: seq<byte>, rest: seq<byte>)
    requires forall i :: 0 <= i < |blanks| ==> IsSpace(blanks[i])
    requires AllDigits(digits) && digits != [] && !IsDigit(Head(rest))
    ensures StrToLL(blanks + (SignText(sign) + (digits + rest)))
      == LongRead(Saturate(Signed(sign, DigitsValue(digits))), rest)
  {
    DigitRunExact(digits, rest);
    assert (digits + rest)[..|digits|] == digits && (digits + rest)[|digits|..] == rest;
    StrToLLSigned(blanks, sign, digits + rest);
  }

  lemma DecimalText(i: int64, sign: Sign, n: nat, rest: seq<byte>)
    requires Signed(sign, n) == i && sign != Plus && (sign == Minus ==> n > 0)
    ensures Decimal(i) + rest == [] + (SignText(sign) + (Digits(n) + rest))
  {
  }

  /** strtoll reads back exactly what "%lli" printed, up to the first non-digit. */
  lemma StrToLLDecimal(i: int64, rest: seq<byte>)
    requires !IsDigit(Head(rest))
    ensures StrToLL(Decimal(i) + rest) == LongRead(i, rest)
  {
    var n: nat := if i < 0 then 0 - i else i;
    var sign := if i < 0 then Minus else NoSign;
    DecimalText(i, sign, n, rest);
    StrToLLNumber([], sign, Digits(n), rest);
    DigitsRoundTrip(n);
  }

  lemma {:induction false} DigitsMonotone(m: nat, n: nat)
    requires m <= n
    ensures |Digits(m)| <= |Digits(n)|
  {
    if m >= 10 {
      DigitsMonotone(m / 10, n / 10);
    }
  }

  lemma {:induction false} DigitsNoLonger(s: seq<byte>)
    requires AllDigits(s) && s != []
    ensures |Digits(DigitsValue(s))| <= |s|
  {
    var init := s[..|s| - 1];
    if init == [] {
      assert DigitsValue(init) == 0;
    } else {
      DigitsNoLonger(init);
      var v := DigitsValue(s);
      assert v / 10 == DigitsValue(init);
    }
  }

  lemma SaturatedNoLonger(sign: Sign, digits: seq<byte>)
    requires AllDigits(digits) && digits != []
    ensures |Decimal(Saturate(Signed(sign, DigitsValue(digits))))| <= |SignText(sign)| + |digits|
  {
    var v := DigitsValue(digits);
    var value: int := Saturate(Signed(sign, v));
    DigitsNoLonger(digits);
    DigitsMonotone(if value < 0 then -value else value, v);
  }

  /** The number strtoll returns never prints longer than the text it was read from, except that
      the 0 returned for no number at all still prints as one digit. */
  lemma StrToLLNoLonger(text: seq<byte>)
    ensures var r := StrToLL(text);
      |Decimal(r.value)| <= if r.rest == text then 1 else |text| - |r.rest|
  {
    var s := SkipSpaces(text);
    var sign := if Head(s) == PLUS then Plus else if Head(s) == MINUS then Minus else NoSign;
    var unsigned := if Head(s) == PLUS || Head(s) == MINUS then s[1..] else s;
    var n := DigitRun(unsigned);
    assert |unsigned| + |SignText(sign)| == |s|;
    if n > 0 {
      assert StrToLL(text).rest == unsigned[n..];
      SaturatedNoLonger(sign, unsigned[..n]);
    }
  }

  // ---- strtoll stops at a NUL ----

  lemma SkipSpacesBefore(text: seq<byte>, tail: seq<byte>)
    requires Head(tail) == NUL
    ensures SkipSpaces(text + tail) == SkipSpaces(text) + tail
  {
    if text == [] {
      assert text + tail == tail;
    } else {
      HeadOfConcat(text, tail);
    }
  }

  lemma DigitRunBefore(text: seq<byte>, tail: seq<byte>)
    requires Head(tail) == NUL
    ensures DigitRun(text + tail) == DigitRun(text)
  {
    if text == [] {
      assert text + tail == tail;
    } else {
      HeadOfConcat(text, tail);
    }
  }

  /** What follows a NUL has no influence on strtoll. */
  lemma StrToLLBefore(text: seq<byte>, tail: seq<byte>)
    requires Head(tail) == NUL
    ensures var r := StrToLL(text);
      StrToLL(text + tail) == LongRead(r.value, r.rest + tail)
  {
    var s := SkipSpaces(text);
    SkipSpacesBefore(text, tail);
    if s == [] {
      assert s + tail == tail;
    } else {
      HeadOfConcat(s, tail);
    }
    var unsigned := if Head(s) == PLUS || Head(s) == MINUS then s[1..] else s;
    var n := DigitRun(unsigned);
    DigitRunBefore(unsigned, tail);
    assert (unsigned + tail)[..n] == unsigned[..n] && (unsigned + tail)[n..] == unsigned[n..] + tail;
  }
}
