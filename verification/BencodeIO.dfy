/** The bencode machinery as it runs: a size count, an encoder into a caller's buffer, a decoder over a cursor. */
module BencodeIO {
  import opened Bytes
  import opened Bencode
  import opened Sequences

  const INT_MAX := 0x7FFF_FFFF

  // ---- C string output ----

  /** s with bytes laid over it from position at. */
  function Overwrite(s: seq<byte>, at: nat, bytes: seq<byte>): (r: seq<byte>)
    requires at + |bytes| <= |s|
    ensures |r| == |s|
  {
    s[..at] + bytes + s[at + |bytes|..]
  }

  /** Two writes that overlap or touch are one write. */
  lemma OverwriteTwice(s: seq<byte>, at: nat, a: seq<byte>, k: nat, b: seq<byte>)
    requires at + |a| <= |s| && k <= |a| <= k + |b| && at + k + |b| <= |s|
    ensures Overwrite(Overwrite(s, at, a), at + k, b) == Overwrite(s, at, a[..k] + b)
  {
  }

  /** What snprintf leaves behind: the text as far as it fits and a NUL. */
  function Printed(text: seq<byte>, size: nat): (r: seq<byte>)
    requires size > 0
    ensures 0 < |r| <= size && r[|r| - 1] == NUL
  {
    if |text| < size then text + [NUL] else text[..size - 1] + [NUL]
  }

  method Snprintf(buf: array<byte>, at: nat, size: nat, text: seq<byte>)
    requires size > 0 && at + size <= buf.Length
    modifies buf
    ensures buf[..] == Overwrite(old(buf[..]), at, Printed(text, size))
  {
    var out := Printed(text, size);
    forall k | 0 <= k < |out| {
      buf[at + k] := out[k];
    }
  }

  method Memcpy(buf: array<byte>, at: nat, bytes: seq<byte>)
    requires at + |bytes| <= buf.Length
    modifies buf
    ensures buf[..] == Overwrite(old(buf[..]), at, bytes)
  {
    forall k | 0 <= k < |bytes| {
      buf[at + k] := bytes[k];
    }
  }

  /** strlen of the string at position at; end is where its NUL stands. */
  method StrLen(buf: array<byte>, at: nat, ghost end: nat) returns (n: nat)
    requires at <= end < buf.Length && buf[end] == NUL
    requires forall k :: at <= k < end ==> buf[k] != NUL
    ensures n == end - at
  {
    n := 0;
    while buf[at + n] != NUL
      invariant at + n <= end
      decreases end - n
    {
      n := n + 1;
    }
  }

  /** Prints into the string at position at and measures what was printed. */
  method PrintText(buf: array<byte>, at: nat, size: nat, text: seq<byte>) returns (n: nat)
    requires size > 0 && at + size <= buf.Length && NulFree(text)
    modifies buf
    ensures buf[..] == Overwrite(old(buf[..]), at, Printed(text, size))
    ensures n == |Printed(text, size)| - 1
  {
    ghost var out := Printed(text, size);
    Snprintf(buf, at, size, text);
    forall k | 0 <= k < |out|
      ensures buf[at + k] == out[k]
    {
      assert buf[at + k] == buf[..][at + k];
    }
    n := StrLen(buf, at, at + |out| - 1);
  }

  // ---- be_node_len ----

  /** The length of the decimal text, measured by printing it into a 22 byte buffer. */
  method NumDigits(x: int64) returns (n: nat)
    ensures n == |Decimal(x)|
  {
    var buffer := new byte[22];
    DecimalFitsBuffer(x);
    n := PrintText(buffer, 0, 22, Decimal(x));
  }

  /** The predicted size is the size of the encoding. */
  method NodeLen(t: Node) returns (counter: nat)
    requires |Encoding(t)| <= LLONG_MAX
    ensures counter == |Encoding(t)|
    decreases t
  {
    counter := 0;
    match t
    case Str(s) =>
      var tmp := |StrBytes(s)|;
      var n := NumDigits(tmp);
      counter := counter + tmp + n + 1;
    case Int(i) =>
      var n := NumDigits(i);
      counter := counter + n + 2;
    case List(items) =>
      var i := 0;
      while i < |items|
        invariant 0 <= i <= |items|
        invariant counter + |EncodedItems(items[i..])| == |EncodedItems(items)|
      {
        assert items[i..][1..] == items[i + 1..];
        var n := NodeLen(items[i]);
        counter := counter + n;
        i := i + 1;
      }
      counter := counter + 2;
    case Dict(entries) =>
      var i := 0;
      while i < |entries|
        invariant 0 <= i <= |entries|
        invariant counter + |EncodedEntries(entries[i..])| == |EncodedEntries(entries)|
      {
        assert entries[i..][1..] == entries[i + 1..];
        var n := NodeLen(entries[i].val);
        counter := counter + n;
        var tmp := |CStr(entries[i].key)|;
        n := NumDigits(tmp);
        counter := counter + tmp + n + 1;
        i := i + 1;
      }
      counter := counter + 2;
  }

  // ---- be_encode ----

  /** Whether the last byte of the encoding is copied payload; if not it is printed, with a NUL after it. */
  predicate EndsInPayload(t: Node) {
    t.Str? && StrBytes(t.s) != []
  }

  /** All that the encoder writes for a tree, given len bytes of room. */
  function Image(t: Node, len: nat): (r: seq<byte>)
    requires |Encoding(t)| <= len
    ensures 0 < |r| <= len
  {
    if EndsInPayload(t) then Encoding(t) else Printed(Encoding(t), len)
  }

  /** The length the encoder reports. */
  function Reported(t: Node, len: nat): nat
    requires |Encoding(t)| <= len
  {
    if |Encoding(t)| == len && !EndsInPayload(t) && (t.Str? || t.Int?) then len - 1 else |Encoding(t)|
  }

  /** An encoder at work: buf is before with w laid over it at position at; the first loc bytes of w
      stay, and the encoding e is complete once tail follows them.  Only the lemmas below unfold it. */
  ghost predicate Writing(
      buf: seq<byte>, before: seq<byte>, at: nat, w: seq<byte>, loc: nat, tail: seq<byte>, e: seq<byte>) {
    && loc <= |w| <= loc + 1 && at + |w| <= |before| == |buf|
    && forall u {:trigger Unfold(u)} :: Unfold(u) ==> w[..loc] + tail == e && buf == Overwrite(before, at, w)
  }

  lemma RoomAhead(
      buf: seq<byte>, before: seq<byte>, at: nat, w: seq<byte>, loc: nat, x: seq<byte>, tail: seq<byte>, e: seq<byte>)
    requires Writing(buf, before, at, w, loc, x + tail, e)
    ensures |e| == loc + |x| + |tail|
  {
    assert Unfold(true);
  }

  lemma WritingStep(
      buf: seq<byte>, before: seq<byte>, at: nat, w: seq<byte>, loc: nat, x: seq<byte>, tail: seq<byte>, e: seq<byte>,
      pad: seq<byte>)
    requires Writing(buf, before, at, w, loc, x + tail, e)
    requires x != [] && |pad| <= 1 && at + loc + |x + pad| <= |before|
    ensures Writing(Overwrite(buf, at + loc, x + pad), before, at, w[..loc] + (x + pad), loc + |x|, tail, e)
  {
    assert Unfold(true);
    OverwriteTwice(before, at, w, loc, x + pad);
    assert (w[..loc] + (x + pad))[..loc + |x|] == w[..loc] + x;
    assert w[..loc] + x + tail == w[..loc] + (x + tail);
  }

  lemma RoomForEnd(buf: seq<byte>, before: seq<byte>, at: nat, w: seq<byte>, loc: nat, e: seq<byte>)
    requires Writing(buf, before, at, w, loc, [END], e)
    ensures |e| == loc + 1
  {
    assert [] + [END] == [END];
    RoomAhead(buf, before, at, w, loc, [], [END], e);
  }

  /** The closing 'e' completes the encoding if a byte is left for its NUL, and is lost otherwise. */
  lemma WritingEnd(buf: seq<byte>, before: seq<byte>, at: nat, w: seq<byte>, loc: nat, e: seq<byte>, len: nat,
                   buf': seq<byte>)
    requires Writing(buf, before, at, w, loc, [END], e) && |e| == loc + 1
    requires |e| <= len && at + len <= |before|
    requires buf' == Overwrite(buf, at + loc, Printed([END], len - loc))
    ensures buf' == Overwrite(before, at, Printed(e, len))
  {
    assert Unfold(true);
    var end := Printed([END], len - loc);
    OverwriteTwice(before, at, w, loc, end);
    assert w[..loc] + end == Printed(e, len);
  }

  /** A tree with a byte to spare behind it is printed whole. */
  lemma RoomyImage(t: Node, len: nat)
    requires |Encoding(t)| < len
    ensures Reported(t, len) == |Encoding(t)|
    ensures Image(t, len) == Encoding(t) || Image(t, len) == Encoding(t) + [NUL]
  {
  }

  /** What be_encode prints of a string: its length prefix. */
  function StrPrefix(s: seq<byte>): (prefix: CString) {
    Decimal(|s|) + [COLON]
  }

  lemma StrImage(s: seq<byte>, len: nat)
    requires |EncodedStr(s)| <= len
    ensures |Encoding(Str(Some(s)))| <= len && |StrPrefix(s)| + |s| <= len
    ensures s != [] ==> Image(Str(Some(s)), len) == StrPrefix(s) + s
    ensures s != [] ==> Printed(StrPrefix(s), len) == StrPrefix(s) + [NUL]
    ensures s == [] ==> Image(Str(Some(s)), len) == Printed(StrPrefix(s), len)
    ensures Reported(Str(Some(s)), len) == |Printed(StrPrefix(s), len)| - 1 + |s|
  {
    assert EncodedStr(s) == StrPrefix(s) + s;
    if s == [] {
      assert StrPrefix(s) + s == StrPrefix(s);
    }
  }

  /** Copying the payload over the NUL behind the length prefix completes the string. */
  lemma PayloadOverNul(before: seq<byte>, at: nat, s: seq<byte>, len: nat, mid: seq<byte>, after: seq<byte>)
    requires s != [] && |EncodedStr(s)| <= len && at + len <= |before|
    requires |StrPrefix(s)| + |s| <= len && mid == Overwrite(before, at, Printed(StrPrefix(s), len))
    requires after == Overwrite(mid, at + |StrPrefix(s)|, s)
    ensures after == Overwrite(before, at, Image(Str(Some(s)), len))
  {
    var prefix := StrPrefix(s);
    StrImage(s, len);
    OverwriteTwice(before, at, prefix + [NUL], |prefix|, s);
    assert (prefix + [NUL])[..|prefix|] == prefix;
  }

  method EncodeStr(s: seq<byte>, buf: array<byte>, at: nat, len: nat) returns (loc: nat)
    requires |EncodedStr(s)| <= len && at + len <= buf.Length
    modifies buf
    ensures buf[..] == Overwrite(old(buf[..]), at, Image(Str(Some(s)), len))
    ensures loc == Reported(Str(Some(s)), len)
  {
    ghost var before := buf[..];
    StrImage(s, len);
    loc := PrintText(buf, at, len, StrPrefix(s));
    ghost var mid := buf[..];
    if s != [] {
      Memcpy(buf, at + loc, s);
      PayloadOverNul(before, at, s, len, mid, buf[..]);
    }
    loc := loc + |s|;
  }

  method EncodeInt(i: int64, buf: array<byte>, at: nat, len: nat) returns (loc: nat)
    requires |Encoding(Int(i))| <= len && at + len <= buf.Length
    modifies buf
    ensures buf[..] == Overwrite(old(buf[..]), at, Image(Int(i), len))
    ensures loc == Reported(Int(i), len)
  {
    loc := PrintText(buf, at, len, [INT] + Decimal(i) + [END]);
  }

  /** What the caller finds: the whole encoding is in the buffer, and its length is reported, if and
      only if the buffer has one byte more than be_node_len predicts or the tree is a non-empty
      string.  With exactly the predicted size every other tree loses its last byte to a NUL. */
  lemma BufferExact(t: Node, len: nat)
    requires |Encoding(t)| <= len
    ensures Encoding(t) <= Image(t, len) && Reported(t, len) == |Encoding(t)|
      <==> len > |Encoding(t)| || EndsInPayload(t)
    ensures |Image(t, len)| <= |Encoding(t)| + 1
    ensures var e, payload := Encoding(t), t.Str? && t.s.Some? && t.s.value != [];
      && Image(t, len) == (if payload then e else if len > |e| then e + [0] else e[..len - 1] + [0])
      && Reported(t, len) == if len == |e| && !payload && !t.List? && !t.Dict? then |e| - 1 else |e|
  {
    var e := Encoding(t);
    if len == |e| && !EndsInPayload(t) {
      LastByteNotNul(t);
      assert Image(t, len)[len - 1] == NUL;
    }
  }

  lemma LastByteNotNul(t: Node)
    requires !EndsInPayload(t)
    ensures Encoding(t)[|Encoding(t)| - 1] != NUL
  {
  }

  /** Opens a list or a dictionary. */
  method Open(mark: byte, buf: array<byte>, at: nat, len: nat, ghost tail: seq<byte>) returns (ghost w: seq<byte>)
    requires 2 <= len && at + len <= buf.Length
    modifies buf
    ensures Writing(buf[..], old(buf[..]), at, w, 1, tail, [mark] + tail)
  {
    Snprintf(buf, at, len, [mark]);
    w := [mark, NUL];
  }

  /** The room ahead of an encoder that has more to write than x. */
  lemma RoomFor(buf: seq<byte>, before: seq<byte>, at: nat, w: seq<byte>, loc: nat, x: seq<byte>, tail: seq<byte>,
                e: seq<byte>, len: nat)
    requires Writing(buf, before, at, w, loc, x + tail, e)
    requires tail != [] && |e| <= len && at + len <= |before|
    ensures loc + |x| < len && at + len <= |buf|
  {
    RoomAhead(buf, before, at, w, loc, x, tail, e);
  }

  lemma RoomForItem(buf: seq<byte>, before: seq<byte>, at: nat, w: seq<byte>, loc: nat, item: Node, tail: seq<byte>,
                    e: seq<byte>, len: nat)
    requires Writing(buf, before, at, w, loc, Encoding(item) + tail, e)
    requires tail != [] && |e| <= len && at + len <= |before|
    ensures loc + |Encoding(item)| < len && at + len <= |buf|
    ensures Reported(item, len - loc) == |Encoding(item)|
    ensures var image := Image(item, len - loc);
      (image == Encoding(item) || image == Encoding(item) + [NUL]) && at + loc + |image| <= |before|
  {
    RoomFor(buf, before, at, w, loc, Encoding(item), tail, e, len);
    RoomyImage(item, len - loc);
  }

  /** Writing x, with a NUL behind it or without, takes the encoder past x. */
  lemma Written(buf: seq<byte>, before: seq<byte>, at: nat, w: seq<byte>, loc: nat, x: seq<byte>, tail: seq<byte>,
                e: seq<byte>, image: seq<byte>, buf': seq<byte>, w': seq<byte>, loc': nat)
    requires Writing(buf, before, at, w, loc, x + tail, e)
    requires x != [] && (image == x || image == x + [NUL]) && at + loc + |image| <= |before|
    requires buf' == Overwrite(buf, at + loc, image) && w' == w[..loc] + image && loc' == loc + |x|
    ensures Writing(buf', before, at, w', loc', tail, e)
  {
    assert x + [] == x;
    WritingStep(buf, before, at, w, loc, x, tail, e, image[|x|..]);
  }

  method EncodeItem(item: Node, buf: array<byte>, at: nat, len: nat, loc: nat,
                    ghost before: seq<byte>, ghost w: seq<byte>, ghost tail: seq<byte>, ghost e: seq<byte>)
    returns (loc': nat, ghost w': seq<byte>)
    requires |before| == buf.Length && Writing(buf[..], before, at, w, loc, Encoding(item) + tail, e)
    requires tail != [] && |e| <= len <= INT_MAX && at + len <= buf.Length
    modifies buf
    ensures loc' == loc + |Encoding(item)|
    ensures Writing(buf[..], before, at, w', loc', tail, e)
    decreases item, 2
  {
    ghost var now, x := buf[..], Encoding(item);
    RoomForItem(now, before, at, w, loc, item, tail, e, len);
    ghost var image := Image(item, len - loc);
    var n := Encode(item, buf, at + loc, len - loc);
    w' := w[..loc] + image;
    loc' := loc + n;
    Written(now, before, at, w, loc, x, tail, e, image, buf[..], w', loc');
  }

  method EncodeKey(key: seq<byte>, buf: array<byte>, at: nat, len: nat, loc: nat,
                   ghost before: seq<byte>, ghost w: seq<byte>, ghost tail: seq<byte>, ghost e: seq<byte>)
    returns (loc': nat, ghost w': seq<byte>)
    requires |before| == buf.Length && Writing(buf[..], before, at, w, loc, EncodedStr(CStr(key)) + tail, e)
    requires tail != [] && |e| <= len <= INT_MAX && at + len <= buf.Length
    modifies buf
    ensures loc' == loc + |EncodedStr(CStr(key))|
    ensures Writing(buf[..], before, at, w', loc', tail, e)
  {
    var text := Decimal(|CStr(key)|) + [COLON] + CStr(key);
    ghost var now := buf[..];
    RoomFor(now, before, at, w, loc, text, tail, e, len);
    var n := PrintText(buf, at + loc, len - loc, text);
    w' := w[..loc] + (text + [NUL]);
    loc' := loc + n;
    Written(now, before, at, w, loc, text, tail, e, text + [NUL], buf[..], w', loc');
  }

  /** Closes a list or a dictionary. */
  method Close(buf: array<byte>, at: nat, len: nat, loc: nat,
               ghost before: seq<byte>, ghost w: seq<byte>, ghost e: seq<byte>) returns (loc': nat)
    requires |before| == buf.Length && Writing(buf[..], before, at, w, loc, [END], e)
    requires |e| <= len && at + len <= buf.Length
    modifies buf
    ensures 0 < |e| && buf[..] == Overwrite(before, at, Printed(e, len))
    ensures loc' == |e|
  {
    ghost var now := buf[..];
    RoomForEnd(now, before, at, w, loc, e);
    Snprintf(buf, at + loc, len - loc, [END]);
    WritingEnd(now, before, at, w, loc, e, len, buf[..]);
    loc' := loc + 1;
  }

  method EncodeList(items: seq<Node>, buf: array<byte>, at: nat, len: nat) returns (loc: nat)
    requires |Encoding(List(items))| <= len <= INT_MAX && at + len <= buf.Length
    modifies buf
    ensures buf[..] == Overwrite(old(buf[..]), at, Image(List(items), len))
    ensures loc == |Encoding(List(items))|
    decreases items, 0
  {
    ghost var before, e := buf[..], Encoding(List(items));
    assert e == [LIST] + (EncodedItems(items) + [END]);
    ghost var w := Open(LIST, buf, at, len, EncodedItems(items) + [END]);
    loc := 1;
    var i := 0;
    while i < |items|
      invariant 0 <= i <= |items|
      invariant Writing(buf[..], before, at, w, loc, EncodedItems(items[i..]) + [END], e)
    {
      ghost var tail := EncodedItems(items[i + 1..]) + [END];
      ItemsTail(items, i);
      loc, w := EncodeItem(items[i], buf, at, len, loc, before, w, tail, e);
      i := i + 1;
    }
    loc := Close(buf, at, len, loc, before, w, e);
  }

  lemma ItemsTail(items: seq<Node>, i: nat)
    requires i < |items|
    ensures EncodedItems(items[i..]) + [END] == Encoding(items[i]) + (EncodedItems(items[i + 1..]) + [END])
  {
    assert items[i..][1..] == items[i + 1..];
  }

  lemma EntriesTail(entries: seq<Entry>, i: nat)
    requires i < |entries|
    ensures EncodedEntries(entries[i..]) + [END]
      == EncodedStr(CStr(entries[i].key)) + (Encoding(entries[i].val) + (EncodedEntries(entries[i + 1..]) + [END]))
  {
    assert entries[i..][1..] == entries[i + 1..];
  }

  method EncodeDict(entries: seq<Entry>, buf: array<byte>, at: nat, len: nat) returns (loc: nat)
    requires |Encoding(Dict(entries))| <= len <= INT_MAX && at + len <= buf.Length
    modifies buf
    ensures buf[..] == Overwrite(old(buf[..]), at, Image(Dict(entries), len))
    ensures loc == |Encoding(Dict(entries))|
    decreases entries, 0
  {
    ghost var before, e := buf[..], Encoding(Dict(entries));
    assert e == [DICT] + (EncodedEntries(entries) + [END]);
    ghost var w := Open(DICT, buf, at, len, EncodedEntries(entries) + [END]);
    loc := 1;
    var i := 0;
    while i < |entries|
      invariant 0 <= i <= |entries|
      invariant Writing(buf[..], before, at, w, loc, EncodedEntries(entries[i..]) + [END], e)
    {
      ghost var tail := EncodedEntries(entries[i + 1..]) + [END];
      EntriesTail(entries, i);
      loc, w := EncodeKey(entries[i].key, buf, at, len, loc, before, w, Encoding(entries[i].val) + tail, e);
      loc, w := EncodeItem(entries[i].val, buf, at, len, loc, before, w, tail, e);
      i := i + 1;
    }
    loc := Close(buf, at, len, loc, before, w, e);
  }

  /** be_encode.  Given at least the predicted size, the encoder writes Image(t, len) at its place and
      nothing anywhere else. */
  method Encode(t: Node, buf: array<byte>, at: nat, len: nat) returns (loc: nat)
    requires |Encoding(t)| <= len <= INT_MAX && at + len <= buf.Length
    modifies buf
    ensures buf[..] == Overwrite(old(buf[..]), at, Image(t, len))
    ensures loc == Reported(t, len)
    decreases t, 1
  {
    match t
    case Str(s) => loc := EncodeStr(StrBytes(s), buf, at, len);
    case Int(i) => loc := EncodeInt(i, buf, at, len);
    case List(items) => loc := EncodeList(items, buf, at, len);
    case Dict(entries) => loc := EncodeDict(entries, buf, at, len);
  }

  // ---- _be_decode ----

  /** The decoder's view of its input: the memory before some NUL, of which the first bytes are the data
      and the last `beyond` lie behind it, the data pointer and data_len. */
  class Reader {
    const text: seq<byte>
    ghost const beyond: nat
    var pos: nat
    var rem: int

    /** data_len always counts the data that remains.  It is never negative if the data is followed by
        its NUL right away; otherwise it is negative once the cursor has left the data. */
    ghost predicate Valid()
      reads this
    {
      pos <= |text| && rem == |text| - beyond - pos
    }

    function Rest(): seq<byte>
      requires Valid()
      reads this
    {
      text[pos..]
    }

    constructor (text: seq<byte>, len: nat)
      requires len <= |text|
      ensures Valid() && pos == 0 && this.text == text && beyond == |text| - len
    {
      this.text, beyond, pos, rem := text, |text| - len, 0, len;
    }

    /** **data: at the end of the text this is the NUL. */
    function Current(): (b: byte)
      requires Valid()
      reads this
      ensures b == Head(Rest())
    {
      if pos < |text| then text[pos] else NUL
    }

    method Advance(n: nat)
      requires Valid() && n <= |Rest()|
      modifies this
      ensures Valid() && Rest() == old(Rest())[n..] && pos == old(pos) + n
    {
      pos, rem := pos + n, rem - n;
    }

    method DecodeInt() returns (value: int64)
      requires Valid()
      modifies this
      ensures Valid() && pos >= old(pos)
      ensures LongRead(value, Rest()) == StrToLL(old(Rest()))
    {
      var r := StrToLL(Rest());
      StrToLLSuffix(Rest());
      Advance(|Rest()| - |r.rest|);
      value := r.value;
    }

    method DecodeStr() returns (s: Option<seq<byte>>)
      requires Valid()
      modifies this
      ensures Valid() && pos >= old(pos)
      ensures StrRead(s, Rest()) == ReadStr(old(Rest()), beyond)
    {
      var sllen := DecodeInt();
      if sllen < 0 || sllen > rem - 1 || Current() != COLON {
        return None;
      }
      s := Some(text[pos + 1..pos + 1 + sllen]);
      assert s.value == Rest()[1..1 + sllen];
      Advance(sllen + 1);
    }

    /** Decodes one node; None is the null result.  The cursor never leaves the input, and the
        recursion ends because every nested call starts further on. */
    method Decode() returns (r: Option<Node>)
      requires Valid()
      modifies this
      ensures Valid() && pos >= old(pos)
      ensures match Parse(old(Rest()), beyond)
        case Reject => r == None
        case Accept(t, rest) => r == Some(t) && Rest() == rest && pos > old(pos)
      decreases |text| - pos, 0
    {
      if rem == 0 {
        return None;
      }
      var c := Current();
      if c == LIST {
        Advance(1);
        var items := DecodeItems();
        r := match items case None => None case Some(xs) => Some(List(xs));
      } else if c == DICT {
        Advance(1);
        var entries := DecodeEntries();
        r := match entries case None => None case Some(es) => Some(Dict(es));
      } else if c == INT {
        Advance(1);
        var i := DecodeInt();
        if Current() != END {
          return None;
        }
        Advance(1);
        r := Some(Int(i));
      } else if IsDigit(c) {
        var s := DecodeStr();
        r := Some(Str(s));
      } else {
        r := None;
      }
    }

    /** The list loop: items are appended until the closing 'e'. */
    method DecodeItems() returns (r: Option<seq<Node>>)
      requires Valid()
      modifies this
      ensures Valid() && pos >= old(pos)
      ensures match ParseItems(old(Rest()), beyond)
        case Reject => r == None
        case Accept(items, rest) => r == Some(items) && Rest() == rest && pos > old(pos)
      decreases |text| - pos, 1
    {
      var items: seq<Node> := [];
      ghost var start := Rest();
      PrependNothing(ParseItems(start, beyond));
      while Current() != END
        invariant Valid() && pos >= old(pos)
        invariant ParseItems(start, beyond) == Prepend(items, ParseItems(Rest(), beyond))
        decreases |text| - pos
      {
        ghost var from := Rest();
        var item := Decode();
        if item == None {
          return None;
        }
        PrependItem(items, item.value, from, Rest(), beyond);
        items := items + [item.value];
      }
      assert items + [] == items;
      Advance(1);
      r := Some(items);
    }

    /** The dictionary loop: a key is read before every value, and a missing one rejects the whole. */
    method DecodeEntries() returns (r: Option<seq<Entry>>)
      requires Valid()
      modifies this
      ensures Valid() && pos >= old(pos)
      ensures match ParseEntries(old(Rest()), beyond)
        case Reject => r == None
        case Accept(entries, rest) => r == Some(entries) && Rest() == rest && pos > old(pos)
      decreases |text| - pos, 1
    {
      var entries: seq<Entry> := [];
      ghost var start := Rest();
      PrependNothing(ParseEntries(start, beyond));
      while Current() != END
        invariant Valid() && pos >= old(pos)
        invariant ParseEntries(start, beyond) == Prepend(entries, ParseEntries(Rest(), beyond))
        decreases |text| - pos
      {
        ghost var from := Rest();
        var key := DecodeStr();
        var val := Decode();
        if key == None || val == None {
          return None;
        }
        PrependEntry(entries, Entry(key.value, val.value), from, Rest(), beyond);
        entries := entries + [Entry(key.value, val.value)];
      }
      assert entries + [] == entries;
      Advance(1);
      r := Some(entries);
    }
  }

  function Prepend<T>(xs: seq<T>, r: Result<seq<T>>): Result<seq<T>> {
    match r
    case Reject => Reject
    case Accept(ys, rest) => Accept(xs + ys, rest)
  }

  lemma PrependNothing<T>(r: Result<seq<T>>)
    ensures Prepend([], r) == r
  {
    if r.Accept? {
      assert [] + r.value == r.value;
    }
  }

  function Cons<T>(x: T, r: Result<seq<T>>): Result<seq<T>> {
    match r
    case Reject => Reject
    case Accept(xs, rest) => Accept([x] + xs, rest)
  }

  lemma PrependCons<T>(xs: seq<T>, x: T, r: Result<seq<T>>)
    ensures Prepend(xs, Cons(x, r)) == Prepend(xs + [x], r)
  {
    if r.Accept? {
      Assoc(xs, [x], r.value);
    }
  }

  lemma PrependItem(items: seq<Node>, item: Node, from: seq<byte>, more: seq<byte>, beyond: nat)
    requires Head(from) != END && Parse(from, beyond) == Accept(item, more)
    ensures Prepend(items, ParseItems(from, beyond)) == Prepend(items + [item], ParseItems(more, beyond))
  {
    assert ParseItems(from, beyond) == Cons(item, ParseItems(more, beyond));
    PrependCons(items, item, ParseItems(more, beyond));
  }

  lemma PrependEntry(entries: seq<Entry>, entry: Entry, from: seq<byte>, more: seq<byte>, beyond: nat)
    requires Head(from) != END && ReadStr(from, beyond).s == Some(entry.key)
    requires Parse(ReadStr(from, beyond).rest, beyond) == Accept(entry.val, more)
    ensures Prepend(entries, ParseEntries(from, beyond)) == Prepend(entries + [entry], ParseEntries(more, beyond))
  {
    assert ParseEntries(from, beyond) == Cons(entry, ParseEntries(more, beyond));
    PrependCons(entries, entry, ParseEntries(more, beyond));
  }

  /** be_decoden, on the first len bytes of the text. */
  method DecodeText(data: seq<byte>, len: nat) returns (r: Option<Node>)
    requires len <= |data|
    ensures match Parse(data, |data| - len)
      case Reject => r == None
      case Accept(t, rest) => r == Some(t)
  {
    var reader := new Reader(data, len);
    r := reader.Decode();
  }
}
