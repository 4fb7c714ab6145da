/** What the bencode codec guarantees: round trip, unique readability, a normal form for every accepted input. */
module BencodeLaws {
  import opened Bytes
  import opened Bencode

  // ---- Norm is the identity exactly on clean trees ----

  lemma {:induction false} NormIdentity(t: Node)
    ensures Norm(t) == t <==> Clean(t)
    decreases t, 1
  {
    match t
    case Str(s) =>
    case Int(i) =>
    case List(items) => NormItemsIdentity(items);
    case Dict(entries) => NormEntriesIdentity(entries);
  }

  lemma {:induction false} NormItemsIdentity(items: seq<Node>)
    ensures NormItems(items) == items <==> CleanItems(items)
    decreases items, 0
  {
    if items != [] {
      NormIdentity(items[0]);
      NormItemsIdentity(items[1..]);
      ConsEqual(Norm(items[0]), NormItems(items[1..]), items);
    }
  }

  lemma {:induction false} NormEntriesIdentity(entries: seq<Entry>)
    ensures NormEntries(entries) == entries <==> CleanEntries(entries)
    decreases entries, 0
  {
    if entries != [] {
      CStrIdentity(entries[0].key);
      NormIdentity(entries[0].val);
      NormEntriesIdentity(entries[1..]);
      ConsEqual(Entry(CStr(entries[0].key), Norm(entries[0].val)), NormEntries(entries[1..]), entries);
    }
  }

  lemma ConsEqual<T>(x: T, xs: seq<T>, ys: seq<T>)
    requires ys != []
    ensures [x] + xs == ys <==> x == ys[0] && xs == ys[1..]
  {
    assert ys == [ys[0]] + ys[1..];
    assert ([x] + xs)[1..] == xs;
  }

  // ---- A tree and its normal form print alike ----

  lemma {:induction false} EncodingOfNorm(t: Node)
    ensures Encoding(Norm(t)) == Encoding(t)
    decreases t, 1
  {
    match t
    case Str(s) =>
    case Int(i) =>
    case List(items) => EncodingOfNormItems(items);
    case Dict(entries) => EncodingOfNormEntries(entries);
  }

  lemma {:induction false} EncodingOfNormItems(items: seq<Node>)
    ensures EncodedItems(NormItems(items)) == EncodedItems(items)
    decreases items, 0
  {
    if items != [] {
      EncodingOfNorm(items[0]);
      EncodingOfNormItems(items[1..]);
      assert NormItems(items)[1..] == NormItems(items[1..]);
    }
  }

  lemma {:induction false} EncodingOfNormEntries(entries: seq<Entry>)
    ensures EncodedEntries(NormEntries(entries)) == EncodedEntries(entries)
    decreases entries, 0
  {
    if entries != [] {
      EncodingOfNorm(entries[0].val);
      EncodingOfNormEntries(entries[1..]);
      CStrIdentity(CStr(entries[0].key));
      assert NormEntries(entries)[1..] == NormEntries(entries[1..]);
    }
  }

  // ---- Main results ----

  /** Decoding an encoding, whatever follows it, returns the tree itself and leaves exactly what
      follows if and only if the tree holds no null string and no key with a NUL inside. */
  lemma RoundTrip(t: Node, rest: seq<byte>, beyond: nat)
    requires |Encoding(t)| <= LLONG_MAX && beyond <= |rest|
    ensures Parse(Encoding(t) + rest, beyond) == Accept(t, rest) <==> Clean(t)
  {
    ParseEncoding(t, rest, beyond);
    NormIdentity(t);
  }

  /** Two encodings that start the same text are one and the same: no encoding is a proper prefix
      of another, and what they encode has one normal form. */
  lemma UniqueReadability(a: Node, b: Node, x: seq<byte>, y: seq<byte>)
    requires |Encoding(a)| <= LLONG_MAX && |Encoding(b)| <= LLONG_MAX
    requires Encoding(a) + x == Encoding(b) + y
    ensures Norm(a) == Norm(b) && x == y && Encoding(a) == Encoding(b)
  {
    ParseEncoding(a, x, 0);
    ParseEncoding(b, y, 0);
    EncodingOfNorm(a);
    EncodingOfNorm(b);
  }

  /** Encoding is injective up to the normal form, hence injective on clean trees. */
  lemma EncodingInjective(a: Node, b: Node)
    requires |Encoding(a)| <= LLONG_MAX && |Encoding(b)| <= LLONG_MAX
    ensures Encoding(a) == Encoding(b) <==> Norm(a) == Norm(b)
    ensures Clean(a) && Clean(b) ==> (Encoding(a) == Encoding(b) <==> a == b)
  {
    EncodingOfNorm(a);
    EncodingOfNorm(b);
    NormIdentity(a);
    NormIdentity(b);
    if Encoding(a) == Encoding(b) {
      UniqueReadability(a, b, [], []);
    }
  }

  /** The tree read back from a re-encoding is clean: from then on the codec is the identity. */
  lemma {:induction false} NormIsClean(t: Node)
    ensures Clean(Norm(t))
    decreases t, 1
  {
    match t
    case Str(s) =>
    case Int(i) =>
    case List(items) => NormItemsClean(items);
    case Dict(entries) => NormEntriesClean(entries);
  }

  lemma {:induction false} NormItemsClean(items: seq<Node>)
    ensures CleanItems(NormItems(items))
    decreases items, 0
  {
    if items != [] {
      NormIsClean(items[0]);
      NormItemsClean(items[1..]);
      assert NormItems(items)[1..] == NormItems(items[1..]);
    }
  }

  lemma {:induction false} NormEntriesClean(entries: seq<Entry>)
    ensures CleanEntries(NormEntries(entries))
    decreases entries, 0
  {
    if entries != [] {
      NormIsClean(entries[0].val);
      NormEntriesClean(entries[1..]);
      assert NormEntries(entries)[1..] == NormEntries(entries[1..]);
    }
  }

  lemma ReadStrGrowth(text: seq<byte>, beyond: nat)
    ensures var r := ReadStr(text, beyond);
      r.s.Some? ==> |EncodedStr(CStr(r.s.value))| <= |EncodedStr(r.s.value)| <= 2 * (|text| - |r.rest|)
  {
    var LongRead(n, rest) := StrToLL(text);
    if ReadStr(text, beyond).s.Some? {
      StrToLLNoLonger(text);
      DigitsMonotone(|CStr(ReadStr(text, beyond).s.value)|, n);
    }
  }

  /** Re-encoding what was decoded at most doubles it ("ie" grows by one byte, a null string from
      one digit to two bytes). */
  lemma {:induction false} ParseGrowth(text: seq<byte>, beyond: nat)
    requires Parse(text, beyond).Accept?
    ensures |Encoding(Parse(text, beyond).value)| <= 2 * (|text| - |Parse(text, beyond).rest|)
    decreases |text|, 0
  {
    if text[0] == LIST {
      ParseItemsGrowth(text[1..], beyond);
    } else if text[0] == DICT {
      ParseEntriesGrowth(text[1..], beyond);
    } else if text[0] == INT {
      StrToLLNoLonger(text[1..]);
    } else {
      ReadStrGrowth(text, beyond);
    }
  }

  lemma {:induction false} ParseItemsGrowth(text: seq<byte>, beyond: nat)
    requires ParseItems(text, beyond).Accept?
    ensures |EncodedItems(ParseItems(text, beyond).value)| + 1 <= 2 * (|text| - |ParseItems(text, beyond).rest|) - 1
    decreases |text|, 1
  {
    if Head(text) != END {
      var Accept(item, more) := Parse(text, beyond);
      ParseGrowth(text, beyond);
      ParseItemsGrowth(more, beyond);
      assert ParseItems(text, beyond).value[1..] == ParseItems(more, beyond).value;
    }
  }

  lemma {:induction false} ParseEntriesGrowth(text: seq<byte>, beyond: nat)
    requires ParseEntries(text, beyond).Accept?
    ensures |EncodedEntries(ParseEntries(text, beyond).value)| + 1
      <= 2 * (|text| - |ParseEntries(text, beyond).rest|) - 1
    decreases |text|, 1
  {
    if Head(text) != END {
      var StrRead(key, afterKey) := ReadStr(text, beyond);
      var Accept(val, more) := Parse(afterKey, beyond);
      ReadStrGrowth(text, beyond);
      ParseGrowth(afterKey, beyond);
      ParseEntriesGrowth(more, beyond);
      assert ParseEntries(text, beyond).value[1..] == ParseEntries(more, beyond).value;
    }
  }

  /** For every input the decoder accepts: encoding the tree it returns and decoding again gives
      the normal form of that tree, and every further trip changes neither tree nor bytes. */
  lemma DecoderNormalForm(input: seq<byte>, inputBeyond: nat, rest: seq<byte>, beyond: nat)
    requires Parse(input, inputBeyond).Accept? && 2 * |input| <= LLONG_MAX && beyond <= |rest|
    ensures var t := Parse(input, inputBeyond).value;
      && Parse(Encoding(t) + rest, beyond) == Accept(Norm(t), rest)
      && Encoding(Norm(t)) == Encoding(t)
      && Norm(Norm(t)) == Norm(t)
  {
    var t := Parse(input, inputBeyond).value;
    ParseGrowth(input, inputBeyond);
    ParseEncoding(t, rest, beyond);
    EncodingOfNorm(t);
    NormIsClean(t);
    NormIdentity(Norm(t));
  }

  // ---- What the decoder accepts beyond the format ----

  /** Blanks, a '+', leading zeros, "-0" and overlong numbers are all read; overlong ones saturate. */
  lemma LenientInteger(blanks: seq<byte>, sign: Sign, digits: seq<byte>, rest: seq<byte>, beyond: nat)
    requires forall i :: 0 <= i < |blanks| ==> IsSpace(blanks[i])
    requires AllDigits(digits) && digits != [] && beyond <= |rest|
    ensures Parse([INT] + (blanks + (SignText(sign) + (digits + ([END] + rest)))), beyond)
      == Accept(Int(Saturate(Signed(sign, DigitsValue(digits)))), rest)
  {
    HeadOfConcat([INT], blanks + (SignText(sign) + (digits + ([END] + rest))));
    HeadOfConcat([END], rest);
    StrToLLNumber(blanks, sign, digits, [END] + rest);
  }

  /** "ie" is read as the integer 0. */
  lemma EmptyInteger(rest: seq<byte>, beyond: nat)
    requires beyond <= |rest|
    ensures Parse([INT] + ([END] + rest), beyond) == Accept(Int(0), rest)
  {
    HeadOfConcat([INT], [END] + rest);
    HeadOfConcat([END], rest);
  }

  /** A string whose length runs past the end of the input is accepted as a null string, and only
      its digits are consumed. */
  lemma TruncatedString(digits: seq<byte>, rest: seq<byte>, beyond: nat)
    requires AllDigits(digits) && digits != [] && !IsDigit(Head(rest))
    requires beyond <= |rest| && DigitsValue(digits) > |rest| - beyond - 1
    requires |rest| <= LLONG_MAX
    ensures Parse(digits + rest, beyond) == Accept(Str(None), rest)
  {
    HeadOfConcat(digits, rest);
    DigitRunExact(digits, rest);
    assert (digits + rest)[..|digits|] == digits && (digits + rest)[|digits|..] == rest;
  }

  // ---- Data with a terminating NUL ----

  /** What a text and the same text with tail behind it are read as. */
  ghost predicate SameRead<T>(r: Result<T>, longer: Result<T>, tail: seq<byte>) {
    match r
    case Reject => longer == Reject
    case Accept(value, rest) => longer == Accept(value, rest + tail)
  }

  lemma HeadBefore(text: seq<byte>, tail: seq<byte>)
    requires Head(tail) == NUL
    ensures Head(text + tail) == Head(text)
    ensures text != [] ==> (text + tail)[1..] == text[1..] + tail
  {
    if text == [] {
      assert text + tail == tail;
    } else {
      HeadOfConcat(text, tail);
    }
  }

  lemma ReadStrBefore(text: seq<byte>, tail: seq<byte>)
    requires Head(tail) == NUL
    ensures var r := ReadStr(text, 0);
      ReadStr(text + tail, |tail|) == StrRead(r.s, r.rest + tail)
  {
    var LongRead(n, rest) := StrToLL(text);
    StrToLLBefore(text, tail);
    HeadBefore(rest, tail);
    if 0 <= n <= |rest| - 1 {
      assert (rest + tail)[1..1 + n] == rest[1..1 + n] && (rest + tail)[1 + n..] == rest[1 + n..] + tail;
    }
  }

  /** If a NUL follows the data right away, the decoder never looks behind it: it reads the same as if
      nothing followed, and data_len never gets negative. */
  lemma NulGuards(data: seq<byte>, tail: seq<byte>)
    requires Head(tail) == NUL
    ensures SameRead(Parse(data, 0), Parse(data + tail, |tail|), tail)
    decreases |data|, 0
  {
    if data != [] {
      HeadBefore(data, tail);
      if data[0] == LIST {
        NulGuardsItems(data[1..], tail);
      } else if data[0] == DICT {
        NulGuardsEntries(data[1..], tail);
      } else if data[0] == INT {
        StrToLLBefore(data[1..], tail);
        HeadBefore(StrToLL(data[1..]).rest, tail);
      } else {
        ReadStrBefore(data, tail);
      }
    }
  }

  lemma NulGuardsItems(data: seq<byte>, tail: seq<byte>)
    requires Head(tail) == NUL
    ensures SameRead(ParseItems(data, 0), ParseItems(data + tail, |tail|), tail)
    decreases |data|, 1
  {
    HeadBefore(data, tail);
    if Head(data) != END {
      NulGuards(data, tail);
      if Parse(data, 0).Accept? {
        NulGuardsItems(Parse(data, 0).rest, tail);
      }
    }
  }

  lemma NulGuardsEntries(data: seq<byte>, tail: seq<byte>)
    requires Head(tail) == NUL
    ensures SameRead(ParseEntries(data, 0), ParseEntries(data + tail, |tail|), tail)
    decreases |data|, 1
  {
    HeadBefore(data, tail);
    if Head(data) != END {
      var afterKey := ReadStr(data, 0).rest;
      ReadStrBefore(data, tail);
      NulGuards(afterKey, tail);
      if Parse(afterKey, 0).Accept? {
        NulGuardsEntries(Parse(afterKey, 0).rest, tail);
      }
    }
  }
}
