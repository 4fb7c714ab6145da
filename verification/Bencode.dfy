/** The bencode format: trees, what the encoder prints, what the decoder reads, and how the two meet. */
module Bencode {
  import opened Bytes

  const LIST: byte := 108
  const DICT: byte := 100
  const INT: byte := 105
  const END: byte := 101

  /** A be_node.  A string node whose text could not be read carries a null pointer. */
  datatype Node =
    | Str(s: Option<seq<byte>>)
    | Int(i: int64)
    | List(items: seq<Node>)
    | Dict(entries: seq<Entry>)

  /** A dictionary slot.  The stored key may hold NULs; every reader of it stops at the first one. */
  datatype Entry = Entry(key: seq<byte>, val: Node)

  /** be_str_len: a null string has length 0. */
  function StrBytes(s: Option<seq<byte>>): seq<byte> {
    match s
    case None => []
    case Some(bytes) => bytes
  }

  // ---- Encoding ----

  function EncodedStr(s: seq<byte>): (r: seq<byte>)
    ensures |r| >= 2 && IsDigit(r[0])
  {
    assert Decimal(|s|) == Digits(|s|);
    Decimal(|s|) + [COLON] + s
  }

  function Encoding(t: Node): (r: seq<byte>)
    ensures |r| >= 2 && r[0] != END
    decreases t, 1
  {
    match t
    case Str(s) => EncodedStr(StrBytes(s))
    case Int(i) => [INT] + Decimal(i) + [END]
    case List(items) => [LIST] + EncodedItems(items) + [END]
    case Dict(entries) => [DICT] + EncodedEntries(entries) + [END]
  }

  function EncodedItems(items: seq<Node>): seq<byte>
    decreases items, 0
  {
    if items == [] then [] else Encoding(items[0]) + EncodedItems(items[1..])
  }

  function EncodedEntries(entries: seq<Entry>): seq<byte>
    decreases entries, 0
  {
    if entries == [] then []
    else EncodedStr(CStr(entries[0].key)) + Encoding(entries[0].val) + EncodedEntries(entries[1..])
  }

  // ---- Decoding ----

  datatype Result<+T> = Reject | Accept(value: T, rest: seq<byte>)

  datatype StrRead = StrRead(s: Option<seq<byte>>, rest: seq<byte>)

  // The decoder works on the memory from its cursor on, up to some NUL.  Of this text the last `beyond`
  // bytes lie behind the data it was given: data_len is |text| - beyond.  If the data is followed by its
  // NUL right away, beyond is 0.

  /** A length, a colon and that many bytes.  On a bad length or colon only the length is consumed. */
  function ReadStr(text: seq<byte>, beyond: nat): (r: StrRead)
    ensures |r.rest| <= |text|
    ensures IsDigit(Head(text)) ==> |r.rest| < |text|
  {
    var LongRead(n, rest) := StrToLL(text);
    if n < 0 || n > |rest| - beyond - 1 || Head(rest) != COLON then StrRead(None, rest)
    else StrRead(Some(rest[1..1 + n]), rest[1 + n..])
  }

  function Parse(text: seq<byte>, beyond: nat): (r: Result<Node>)
    ensures r.Accept? ==> |r.rest| < |text|
    decreases |text|, 0
  {
    if |text| == beyond || text == [] then Reject
    else if text[0] == LIST then
      match ParseItems(text[1..], beyond)
      case Reject => Reject
      case Accept(items, rest) => Accept(List(items), rest)
    else if text[0] == DICT then
      match ParseEntries(text[1..], beyond)
      case Reject => Reject
      case Accept(entries, rest) => Accept(Dict(entries), rest)
    else if text[0] == INT then
      var LongRead(i, rest) := StrToLL(text[1..]);
      if Head(rest) == END then Accept(Int(i), rest[1..]) else Reject
    else if IsDigit(text[0]) then
      var StrRead(s, rest) := ReadStr(text, beyond);
      Accept(Str(s), rest)
    else Reject
  }

  function ParseItems(text: seq<byte>, beyond: nat): (r: Result<seq<Node>>)
    ensures r.Accept? ==> |r.rest| < |text|
    decreases |text|, 1
  {
    if Head(text) == END then Accept([], text[1..])
    else
      match Parse(text, beyond)
      case Reject => Reject
      case Accept(item, more) =>
        match ParseItems(more, beyond)
        case Reject => Reject
        case Accept(items, rest) => Accept([item] + items, rest)
  }

  function ParseEntries(text: seq<byte>, beyond: nat): (r: Result<seq<Entry>>)
    ensures r.Accept? ==> |r.rest| < |text|
    decreases |text|, 1
  {
    if Head(text) == END then Accept([], text[1..])
    else
      var StrRead(key, afterKey) := ReadStr(text, beyond);
      match Parse(afterKey, beyond)
      case Reject => Reject
      case Accept(val, more) =>
        if key.None? then Reject
        else
          match ParseEntries(more, beyond)
          case Reject => Reject
          case Accept(entries, rest) => Accept([Entry(key.value, val)] + entries, rest)
  }

  // ---- What survives a trip through the text ----

  /** The tree as a reader of the encoded text sees it: no null strings, keys cut at their first NUL. */
  function Norm(t: Node): Node
    decreases t, 1
  {
    match t
    case Str(s) => Str(Some(StrBytes(s)))
    case Int(i) => t
    case List(items) => List(NormItems(items))
    case Dict(entries) => Dict(NormEntries(entries))
  }

  function NormItems(items: seq<Node>): (r: seq<Node>)
    ensures |r| == |items|
    decreases items, 0
  {
    if items == [] then [] else [Norm(items[0])] + NormItems(items[1..])
  }

  function NormEntries(entries: seq<Entry>): (r: seq<Entry>)
    ensures |r| == |entries|
    decreases entries, 0
  {
    if entries == [] then []
    else [Entry(CStr(entries[0].key), Norm(entries[0].val))] + NormEntries(entries[1..])
  }

  /** No null string and no NUL inside a key, anywhere in the tree. */
  ghost predicate Clean(t: Node)
    decreases t, 1
  {
    match t
    case Str(s) => s.Some?
    case Int(i) => true
    case List(items) => CleanItems(items)
    case Dict(entries) => CleanEntries(entries)
  }

  ghost predicate CleanItems(items: seq<Node>)
    decreases items, 0
  {
    items != [] ==> Clean(items[0]) && CleanItems(items[1..])
  }

  ghost predicate CleanEntries(entries: seq<Entry>)
    decreases entries, 0
  {
    entries != [] ==> NulFree(entries[0].key) && Clean(entries[0].val) && CleanEntries(entries[1..])
  }

  // ---- The decoder inverts the encoder ----

  lemma Regroup(a: seq<byte>, b: seq<byte>, c: seq<byte>, d: seq<byte>, e: seq<byte>)
    ensures a + b + c + d + e == a + (b + (c + d + e))
  {
  }

  lemma Framed(mark: byte, body: seq<byte>, rest: seq<byte>)
    ensures var text := [mark] + body + [END] + rest;
      text[0] == mark && text[1..] == body + [END] + rest && ([END] + rest)[1..] == rest
  {
  }

  lemma ReadEncodedStr(s: seq<byte>, rest: seq<byte>, beyond: nat)
    requires |s| <= LLONG_MAX && beyond <= |rest|
    ensures ReadStr(EncodedStr(s) + rest, beyond) == StrRead(Some(s), rest)
  {
    var tail := [COLON] + s + rest;
    assert EncodedStr(s) + rest == Decimal(|s|) + tail;
    assert tail[1..1 + |s|] == s && tail[1 + |s|..] == rest;
    StrToLLDecimal(|s|, tail);
  }

  lemma ParseInt(text: seq<byte>, i: int64, r: seq<byte>, beyond: nat)
    requires |text| > beyond && text[0] == INT
    requires StrToLL(text[1..]) == LongRead(i, r) && Head(r) == END
    ensures Parse(text, beyond) == Accept(Int(i), r[1..])
  {
  }

  lemma ParseEncodedInt(i: int64, rest: seq<byte>, beyond: nat)
    requires beyond <= |rest|
    ensures Parse([INT] + Decimal(i) + [END] + rest, beyond) == Accept(Int(i), rest)
  {
    var text, r := [INT] + Decimal(i) + [END] + rest, [END] + rest;
    Framed(INT, Decimal(i), rest);
    assert text[1..] == Decimal(i) + r;
    StrToLLDecimal(i, r);
    ParseInt(text, i, r, beyond);
  }

  /** Whatever follows the encoding of a tree, the decoder reads the normal form of the tree back
      and stops exactly at the end of the encoding. */
  lemma {:induction false} ParseEncoding(t: Node, rest: seq<byte>, beyond: nat)
    requires |Encoding(t)| <= LLONG_MAX && beyond <= |rest|
    ensures Parse(Encoding(t) + rest, beyond) == Accept(Norm(t), rest)
    decreases t, 1
  {
    match t
    case Str(s) =>
      HeadOfConcat(EncodedStr(StrBytes(s)), rest);
      ReadEncodedStr(StrBytes(s), rest, beyond);
    case Int(i) =>
      ParseEncodedInt(i, rest, beyond);
    case List(items) =>
      Framed(LIST, EncodedItems(items), rest);
      ParseEncodedItems(items, rest, beyond);
    case Dict(entries) =>
      Framed(DICT, EncodedEntries(entries), rest);
      ParseEncodedEntries(entries, rest, beyond);
  }

  lemma ParseItemsStep(text: seq<byte>, item: Node, more: seq<byte>, items: seq<Node>, rest: seq<byte>, beyond: nat)
    requires Head(text) != END && Parse(text, beyond) == Accept(item, more)
    requires ParseItems(more, beyond) == Accept(items, rest)
    ensures ParseItems(text, beyond) == Accept([item] + items, rest)
  {
  }

  lemma ItemsSplit(items: seq<Node>, rest: seq<byte>)
    requires items != []
    ensures EncodedItems(items) + [END] + rest == Encoding(items[0]) + (EncodedItems(items[1..]) + [END] + rest)
    ensures Head(EncodedItems(items) + [END] + rest) != END
  {
    HeadOfConcat(Encoding(items[0]), EncodedItems(items[1..]) + [END] + rest);
  }

  lemma {:induction false} ParseEncodedItems(items: seq<Node>, rest: seq<byte>, beyond: nat)
    requires |EncodedItems(items)| <= LLONG_MAX && beyond <= |rest|
    ensures ParseItems(EncodedItems(items) + [END] + rest, beyond) == Accept(NormItems(items), rest)
    decreases items, 0
  {
    var text := EncodedItems(items) + [END] + rest;
    if items == [] {
      assert text == [END] + rest;
      assert text[1..] == rest;
    } else {
      var more := EncodedItems(items[1..]) + [END] + rest;
      ItemsSplit(items, rest);
      ParseEncoding(items[0], more, beyond);
      ParseEncodedItems(items[1..], rest, beyond);
      ParseItemsStep(text, Norm(items[0]), more, NormItems(items[1..]), rest, beyond);
    }
  }

  lemma ParseEntriesStep(
      text: seq<byte>, key: seq<byte>, afterKey: seq<byte>, val: Node, more: seq<byte>, entries: seq<Entry>,
      rest: seq<byte>, beyond: nat)
    requires Head(text) != END
    requires ReadStr(text, beyond) == StrRead(Some(key), afterKey)
    requires Parse(afterKey, beyond) == Accept(Norm(val), more)
    requires ParseEntries(more, beyond) == Accept(entries, rest)
    ensures ParseEntries(text, beyond) == Accept([Entry(key, Norm(val))] + entries, rest)
  {
  }

  lemma EntriesSplit(entries: seq<Entry>, rest: seq<byte>)
    requires entries != []
    ensures EncodedEntries(entries) + [END] + rest
      == EncodedStr(CStr(entries[0].key)) + (Encoding(entries[0].val) + (EncodedEntries(entries[1..]) + [END] + rest))
    ensures Head(EncodedEntries(entries) + [END] + rest) != END
  {
    var k, v, es := EncodedStr(CStr(entries[0].key)), Encoding(entries[0].val), EncodedEntries(entries[1..]);
    Regroup(k, v, es, [END], rest);
    HeadOfConcat(k, v + (es + [END] + rest));
  }

  lemma {:induction false} ParseEncodedEntries(entries: seq<Entry>, rest: seq<byte>, beyond: nat)
    requires |EncodedEntries(entries)| <= LLONG_MAX && beyond <= |rest|
    ensures ParseEntries(EncodedEntries(entries) + [END] + rest, beyond) == Accept(NormEntries(entries), rest)
    decreases entries, 0
  {
    var text := EncodedEntries(entries) + [END] + rest;
    if entries == [] {
      assert text == [END] + rest;
      assert text[1..] == rest;
    } else {
      var key, val := CStr(entries[0].key), entries[0].val;
      var more := EncodedEntries(entries[1..]) + [END] + rest;
      var afterKey := Encoding(val) + more;
      EntriesSplit(entries, rest);
      ReadEncodedStr(key, afterKey, beyond);
      ParseEncoding(val, more, beyond);
      ParseEncodedEntries(entries[1..], rest, beyond);
      ParseEntriesStep(text, key, afterKey, val, more, NormEntries(entries[1..]), rest, beyond);
    }
  }
}
