/** Texts of numbers, described by their characters alone; the readers and printers of Bytes are measured
    against them. */
module Numerals {
  import opened Bytes

  /** The bytes of an ASCII text. */
  function Ascii(text: string): (s: seq<byte>)
    requires forall i :: 0 <= i < |text| ==> text[i] < 128 as char
    ensures |s| == |text|
  {
    seq(|text|, i requires 0 <= i < |text| => text[i] as int)
  }

  ghost predicate IsNumeral(b: byte) {
    48 <= b <= 57
  }

  /** One or more decimal digits. */
  ghost predicate Numeral(s: seq<byte>) {
    s != [] && forall i :: 0 <= i < |s| ==> IsNumeral(s[i])
  }

  ghost function Power(k: nat): nat {
    if k == 0 then 1 else 10 * Power(k - 1)
  }

  /** What a numeral is worth: every digit counts the power of ten of its place. */
  ghost function Worth(s: seq<byte>): int {
    if s == [] then 0 else (s[0] - 48) * Power(|s| - 1) + Worth(s[1..])
  }

  lemma {:induction false} WorthOfLast(s: seq<byte>, d: byte)
    ensures Worth(s + [d]) == 10 * Worth(s) + (d - 48)
  {
    if s == [] {
      assert Power(0) == 1 && [d][1..] == [] && s + [d] == [d];
    } else {
      var more := s + [d];
      WorthOfLast(s[1..], d);
      assert more[1..] == s[1..] + [d];
      var first: int := s[0];
      TenTimes(first - 48, Power(|s| - 1));
    }
  }

  lemma TenTimes(a: int, p: int)
    ensures a * (10 * p) == 10 * (a * p)
  {
  }

  lemma {:induction false} WorthIsValue(s: seq<byte>)
    requires AllDigits(s)
    ensures Worth(s) == DigitsValue(s)
  {
    if s != [] {
      var init := s[..|s| - 1];
      WorthIsValue(init);
      WorthOfLast(init, s[|s| - 1]);
      assert s == init + [s[|s| - 1]];
    }
  }

  // ---- Printed numbers ----

  /** The digits of n without a needless zero in front. */
  ghost predicate PlainNumeral(s: seq<byte>, n: int) {
    Numeral(s) && Worth(s) == n && (|s| > 1 ==> s[0] != 48)
  }

  /** What "%lli" prints: a minus only for negative numbers, never a plus, a blank or a needless zero. */
  ghost predicate PlainNumber(s: seq<byte>, i: int) {
    if i < 0 then s != [] && s[0] == 45 && PlainNumeral(s[1..], -i) else PlainNumeral(s, i)
  }

  lemma {:induction false} DigitsArePlain(n: nat)
    ensures PlainNumeral(Digits(n), n) && (n > 0 ==> Digits(n)[0] != 48)
  {
    if n >= 10 {
      DigitsArePlain(n / 10);
      WorthOfLast(Digits(n / 10), ZERO + n % 10);
    } else {
      assert Digits(n)[1..] == [] && Power(0) == 1;
    }
  }

  lemma {:induction false} WorthNotNegative(s: seq<byte>)
    requires forall i :: 0 <= i < |s| ==> IsNumeral(s[i])
    ensures Worth(s) >= 0
  {
    WorthIsValue(s);
  }

  lemma {:induction false} PlainIsDigits(s: seq<byte>, n: nat)
    requires PlainNumeral(s, n)
    ensures s == Digits(n)
    decreases |s|
  {
    var init, d := s[..|s| - 1], s[|s| - 1];
    assert s == init + [d];
    WorthOfLast(init, d);
    if init == [] {
      assert Worth(init) == 0;
    } else {
      WorthNotNegative(init);
      LeadingDigit(init);
      PlainIsDigits(init, n / 10);
    }
  }

  lemma {:induction false} PowerPositive(k: nat)
    ensures Power(k) > 0
  {
    if k > 0 {
      PowerPositive(k - 1);
    }
  }

  /** A numeral that starts with another digit than 0 is worth something. */
  lemma {:induction false} LeadingDigit(s: seq<byte>)
    requires Numeral(s) && s[0] != 48
    ensures Worth(s) > 0
  {
    PowerPositive(|s| - 1);
    WorthNotNegative(s[1..]);
    AtLeastOnce(s[0] - 48, Power(|s| - 1));
  }

  lemma AtLeastOnce(a: int, p: nat)
    requires a >= 1
    ensures a * p >= p
  {
  }

  /** Decimal prints i, and it is the only plain text of i. */
  lemma DecimalIsPlain(i: int, s: seq<byte>)
    ensures PlainNumber(s, i) <==> s == Decimal(i)
  {
    var n := if i < 0 then -i else i;
    DigitsArePlain(n);
    if PlainNumber(s, i) {
      PlainIsDigits(if i < 0 then s[1..] else s, n);
      assert i < 0 ==> s == [s[0]] + s[1..];
    }
    assert i < 0 ==> Decimal(i)[1..] == Digits(n);
  }

  // ---- Numbers as strtoll takes them ----

  ghost predicate Blank(b: byte) {
    b == 32 || b == 9 || b == 10 || b == 11 || b == 12 || b == 13
  }

  /** Blanks, then perhaps a sign, then digits. */
  ghost predicate LooseNumber(s: seq<byte>, v: int) {
    s != [] &&
    if Blank(s[0]) then LooseNumber(s[1..], v)
    else if s[0] == 45 then Numeral(s[1..]) && v == -Worth(s[1..])
    else if s[0] == 43 then Numeral(s[1..]) && v == Worth(s[1..])
    else Numeral(s) && v == Worth(s)
  }

  /** A number beyond 64 bits is read as the nearest one within. */
  ghost function Clamped(v: int): int {
    if v < -9223372036854775808 then -9223372036854775808
    else if v > 9223372036854775807 then 9223372036854775807
    else v
  }

  /** A blank in front changes nothing, except that it is put back if no number follows. */
  lemma StrToLLBlank(text: seq<byte>)
    requires text != [] && IsSpace(text[0])
    ensures var r := StrToLL(text[1..]);
      StrToLL(text) == if r.rest == text[1..] then LongRead(0, text) else r
  {
  }

  lemma NoBlanks(a: seq<byte>, b: seq<byte>, c: seq<byte>)
    ensures [] + (a + (b + c)) == a + b + c
  {
  }

  lemma SignedIsRead(sign: Sign, digits: seq<byte>, rest: seq<byte>)
    requires Numeral(digits) && !IsNumeral(Head(rest))
    ensures StrToLL(SignText(sign) + digits + rest) == LongRead(Clamped(Signed(sign, DigitsValue(digits))), rest)
    ensures Worth(digits) == DigitsValue(digits)
  {
    WorthIsValue(digits);
    NoBlanks(SignText(sign), digits, rest);
    StrToLLNumber([], sign, digits, rest);
  }

  lemma UnblankedIsRead(c: seq<byte>, v: int, rest: seq<byte>)
    requires LooseNumber(c, v) && !Blank(c[0]) && !IsNumeral(Head(rest))
    ensures StrToLL(c + rest) == LongRead(Clamped(v), rest)
  {
    if c[0] == 45 {
      assert c == SignText(Minus) + c[1..];
      SignedIsRead(Minus, c[1..], rest);
    } else if c[0] == 43 {
      assert c == SignText(Plus) + c[1..];
      SignedIsRead(Plus, c[1..], rest);
    } else {
      assert c == SignText(NoSign) + c;
      SignedIsRead(NoSign, c, rest);
    }
  }

  /** Every number that the description allows is read, with its value, up to the first non-digit. */
  lemma {:induction false} LooseIsRead(c: seq<byte>, v: int, rest: seq<byte>)
    requires LooseNumber(c, v) && !IsNumeral(Head(rest))
    ensures StrToLL(c + rest) == LongRead(Clamped(v), rest)
  {
    if Blank(c[0]) {
      HeadOfConcat(c, rest);
      LooseIsRead(c[1..], v, rest);
      StrToLLBlank(c + rest);
    } else {
      UnblankedIsRead(c, v, rest);
    }
  }

  /** The first length bytes of text are a number that is read as value, and no digit follows them. */
  ghost predicate ReadsNumber(text: seq<byte>, length: int, v: int, value: int) {
    && 0 < length <= |text| && LooseNumber(text[..length], v) && value == Clamped(v)
    && !IsNumeral(Head(text[length..]))
  }

  lemma ReadUnblanked(text: seq<byte>) returns (v: int)
    requires StrToLL(text).rest != text && !IsSpace(text[0])
    ensures var r := StrToLL(text);
      ReadsNumber(text, |text| - |r.rest|, v, r.value) && r.rest == text[|text| - |r.rest|..]
  {
    var signed := Head(text) == PLUS || Head(text) == MINUS;
    var unsigned := if signed then text[1..] else text;
    var n := DigitRun(unsigned);
    var digits := unsigned[..n];
    var c := text[..if signed then n + 1 else n];
    WorthIsValue(digits);
    DigitRunEnds(unsigned);
    assert digits == if signed then c[1..] else c;
    assert unsigned[n..] == text[|c|..];
    v := if Head(text) == MINUS then -Worth(digits) else Worth(digits);
  }

  /** And whatever is read as a number is one of the description. */
  lemma {:induction false} ReadIsLoose(text: seq<byte>) returns (v: int)
    ensures var r := StrToLL(text);
      if r.rest == text then r.value == 0
      else ReadsNumber(text, |text| - |r.rest|, v, r.value) && r.rest == text[|text| - |r.rest|..]
  {
    v := 0;
    var r := StrToLL(text);
    if r.rest != text {
      if IsSpace(text[0]) {
        v := ReadIsLoose(text[1..]);
        StrToLLBlank(text);
        var length := |text| - |r.rest|;
        assert text[..length][1..] == text[1..][..length - 1] && text[1..][length - 1..] == text[length..];
      } else {
        v := ReadUnblanked(text);
      }
    }
  }

  lemma {:induction false} DigitRunEnds(text: seq<byte>)
    ensures !IsNumeral(Head(text[DigitRun(text)..]))
  {
    if text != [] && IsDigit(text[0]) {
      DigitRunEnds(text[1..]);
      assert text[DigitRun(text)..] == text[1..][DigitRun(text[1..])..];
    }
  }
}
