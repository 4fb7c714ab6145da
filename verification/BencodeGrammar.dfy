/** Which byte strings the decoder accepts and what the encoder prints, as grammars over literal bytes. */
module BencodeGrammar {
  import opened Bytes
  import opened Numerals
  import opened Bencode

  // ---- What the decoder accepts ----

  /** The bytes c are read as t when rest follows them, of which the last `beyond` bytes lie behind the data. */
  ghost predicate Reads(c: seq<byte>, t: Node, rest: seq<byte>, beyond: nat)
    decreases t, 1
  {
    && c != [] && |c| + |rest| != beyond
    && match t
       case Int(i) => Enclosed(c, 105) && (if |c| == 2 then i == 0 else IntegerText(Inside(c), i))
       case Str(s) => if s.None? then UnreadString(c, rest, beyond) else StringText(c, s.value, rest, beyond)
       case List(items) => Enclosed(c, 108) && ReadsItems(Inside(c), items, [101] + rest, beyond)
       case Dict(entries) => Enclosed(c, 100) && ReadsEntries(Inside(c), entries, [101] + rest, beyond)
  }

  /** A mark in front and an 'e' behind. */
  ghost predicate Enclosed(c: seq<byte>, mark: byte) {
    |c| >= 2 && c[0] == mark && c[|c| - 1] == 101
  }

  ghost function Inside(c: seq<byte>): seq<byte>
    requires |c| >= 2
  {
    c[1..|c| - 1]
  }

  ghost predicate IntegerText(s: seq<byte>, i: int) {
    exists v :: LooseNumber(s, v) && i == Clamped(v)
  }

  /** A numeral, a colon, and as many bytes as the numeral says. */
  ghost predicate StringText(c: seq<byte>, s: seq<byte>, rest: seq<byte>, beyond: nat) {
    var k := |c| - |s| - 1;
    && 0 < k && Numeral(c[..k]) && Clamped(Worth(c[..k])) == |s|
    && c[k] == 58 && c[k + 1..] == s && beyond <= |rest|
  }

  /** A numeral without a colon behind it, or with fewer bytes behind that than it says. */
  ghost predicate UnreadString(c: seq<byte>, rest: seq<byte>, beyond: nat) {
    && Numeral(c) && !IsNumeral(Head(rest))
    && (Head(rest) != 58 || Clamped(Worth(c)) > |rest| - beyond - 1)
  }

  /** The length of a key may have blanks and a sign in front, and a lone colon is an empty key. */
  ghost predicate KeyText(c: seq<byte>, key: seq<byte>, rest: seq<byte>, beyond: nat) {
    var k := |c| - |key| - 1;
    && 0 <= k && c[k] == 58 && c[k + 1..] == key && beyond <= |rest|
    && if k == 0 then key == [] else IntegerText(c[..k], |key|)
  }

  ghost predicate ReadsItems(b: seq<byte>, items: seq<Node>, rest: seq<byte>, beyond: nat)
    decreases items, 0
  {
    if items == [] then b == []
    else exists k | 0 < k <= |b| ::
      Reads(b[..k], items[0], b[k..] + rest, beyond) && ReadsItems(b[k..], items[1..], rest, beyond)
  }

  /** A key and a value. */
  ghost predicate ReadsEntry(c: seq<byte>, entry: Entry, rest: seq<byte>, beyond: nat)
    decreases entry, 2
  {
    exists j | 0 < j <= |c| ::
      KeyText(c[..j], entry.key, c[j..] + rest, beyond) && Reads(c[j..], entry.val, rest, beyond)
  }

  ghost predicate ReadsEntries(b: seq<byte>, entries: seq<Entry>, rest: seq<byte>, beyond: nat)
    decreases entries, 0
  {
    if entries == [] then b == []
    else exists k | 0 < k <= |b| ::
      ReadsEntry(b[..k], entries[0], b[k..] + rest, beyond) && ReadsEntries(b[k..], entries[1..], rest, beyond)
  }

  // ---- Accepted inputs are in the language ----

  lemma PayloadText(text: seq<byte>, k: nat, n: nat)
    requires k + 1 + n <= |text|
    ensures var c := text[..k + 1 + n];
      && c[..k] == text[..k] && c[k] == text[k] && c[k + 1..] == text[k..][1..1 + n]
      && text[k..][1 + n..] == text[k + 1 + n..] && Head(text[k..]) == text[k]
  {
  }

  /** The first k bytes of text are a number worth n after clamping, or there are none and n is 0. */
  ghost predicate NumberThen(text: seq<byte>, k: nat, v: int, n: int) {
    k <= |text| && if k == 0 then n == 0 else LooseNumber(text[..k], v) && n == Clamped(v)
  }

  lemma PayloadIsKey(text: seq<byte>, k: nat, v: int, n: nat, beyond: nat)
    requires NumberThen(text, k, v, n) && k < |text| && text[k] == 58 && n <= |text| - k - beyond - 1
    ensures KeyText(text[..k + 1 + n], text[k..][1..1 + n], text[k + 1 + n..], beyond)
  {
    PayloadText(text, k, n);
  }

  lemma PayloadIsString(text: seq<byte>, k: nat, v: int, n: nat, beyond: nat)
    requires NumberThen(text, k, v, n) && k < |text| && text[k] == 58 && n <= |text| - k - beyond - 1
    requires IsNumeral(text[0])
    ensures StringText(text[..k + 1 + n], text[k..][1..1 + n], text[k + 1 + n..], beyond)
  {
    PayloadText(text, k, n);
    NumeralInFront(text, k, v);
  }

  /** What a string or key that was read, or a string that was not, looks like; length bytes were consumed. */
  ghost predicate StrReadAs(text: seq<byte>, length: nat, r: StrRead, beyond: nat) {
    && length <= |text| && r.rest == text[length..]
    && (r.s.Some? ==> 0 < length && KeyText(text[..length], r.s.value, r.rest, beyond))
    && (r.s.Some? && IsNumeral(Head(text)) ==> StringText(text[..length], r.s.value, r.rest, beyond))
    && (r.s.None? && IsNumeral(Head(text)) ==> UnreadString(text[..length], r.rest, beyond))
  }

  lemma PayloadRead(text: seq<byte>, k: nat, v: int, n: nat, beyond: nat)
    requires NumberThen(text, k, v, n) && k < |text| && text[k] == 58 && n <= |text| - k - beyond - 1
    ensures StrReadAs(text, k + 1 + n, StrRead(Some(text[k..][1..1 + n]), text[k..][1 + n..]), beyond)
  {
    PayloadText(text, k, n);
    PayloadIsKey(text, k, v, n, beyond);
    if IsNumeral(text[0]) {
      PayloadIsString(text, k, v, n, beyond);
    }
  }

  lemma NothingReadBehind(text: seq<byte>, k: nat, v: int, n: int, beyond: nat)
    requires NumberThen(text, k, v, n) && !IsNumeral(Head(text[k..]))
    requires n < 0 || n > |text| - k - beyond - 1 || Head(text[k..]) != 58
    ensures StrReadAs(text, k, StrRead(None, text[k..]), beyond)
  {
    if IsNumeral(Head(text)) {
      assert text[0..] == text;
      NumeralInFront(text, k, v);
      WorthNotNegative(text[..k]);
    }
  }

  /** What strtoll takes from a text: k bytes, in front of what is no digit. */
  lemma NumberTaken(text: seq<byte>) returns (k: nat, v: int)
    ensures var r := StrToLL(text);
      NumberThen(text, k, v, r.value) && r.rest == text[k..] && !IsNumeral(Head(text[k..]))
  {
    v := ReadIsLoose(text);
    k := |text| - |StrToLL(text).rest|;
    assert text[0..] == text;
  }

  /** What _be_decode_str makes of a text, in terms of its characters: length is what it consumes. */
  lemma ReadStrText(text: seq<byte>, beyond: nat) returns (length: nat)
    ensures StrReadAs(text, length, ReadStr(text, beyond), beyond)
  {
    var LongRead(n, tail) := StrToLL(text);
    var k, v := NumberTaken(text);
    if n < 0 || n > |tail| - beyond - 1 || Head(tail) != COLON {
      length := k;
      NothingReadBehind(text, k, v, n, beyond);
    } else {
      length := k + 1 + n;
      PayloadRead(text, k, v, n, beyond);
    }
  }

  /** A number that starts with a digit is a numeral. */
  lemma NumeralInFront(text: seq<byte>, k: nat, v: int)
    requires IsNumeral(Head(text)) && text != [] && k <= |text|
    requires k > 0 ==> LooseNumber(text[..k], v)
    ensures k > 0 ==> Numeral(text[..k]) && v == Worth(text[..k])
  {
    if k > 0 {
      assert text[..k][0] == text[0];
    }
  }

  /** The node that a text is read as: length is what it consumes. */
  ghost predicate NodeRead(text: seq<byte>, beyond: nat, t: Node, rest: seq<byte>) {
    && |rest| < |text| && rest == text[|text| - |rest|..]
    && Reads(text[..|text| - |rest|], t, rest, beyond)
  }

  lemma IntegerInside(text: seq<byte>, n: nat)
    requires n + 1 < |text| && text[n + 1] == 101
    ensures var c := text[..n + 2];
      Enclosed(c, text[0]) && Inside(c) == text[1..][..n] && text[1..][n..][1..] == text[n + 2..]
  {
  }

  lemma IntegerFrom(text: seq<byte>, k: nat, v: int, i: int64, beyond: nat)
    requires k + 1 < |text| && text[0] == 105 && text[k + 1] == 101 && |text| != beyond
    requires NumberThen(text[1..], k, v, i)
    ensures NodeRead(text, beyond, Int(i), text[k + 2..])
  {
    IntegerInside(text, k);
    if k > 0 {
      assert LooseNumber(Inside(text[..k + 2]), v);
    }
  }

  lemma IntegerIsRead(text: seq<byte>, beyond: nat)
    requires Parse(text, beyond).Accept? && text[0] == 105
    ensures NodeRead(text, beyond, Parse(text, beyond).value, Parse(text, beyond).rest)
  {
    var k, v := NumberTaken(text[1..]);
    var i := StrToLL(text[1..]).value;
    IntegerFrom(text, k, v, i, beyond);
    IntegerInside(text, k);
    assert Parse(text, beyond) == Accept(Int(i), text[k + 2..]);
  }

  lemma StringFrom(text: seq<byte>, length: nat, r: StrRead, beyond: nat)
    requires text != [] && IsNumeral(text[0]) && |text| != beyond && |r.rest| < |text|
    requires StrReadAs(text, length, r, beyond)
    ensures NodeRead(text, beyond, Str(r.s), r.rest)
  {
    assert length == |text| - |r.rest|;
  }

  lemma StringIsRead(text: seq<byte>, beyond: nat)
    requires Parse(text, beyond).Accept? && IsNumeral(text[0])
    ensures NodeRead(text, beyond, Parse(text, beyond).value, Parse(text, beyond).rest)
  {
    var length := ReadStrText(text, beyond);
    var r := ReadStr(text, beyond);
    StringStarts(text, beyond, r);
    StringFrom(text, length, r, beyond);
  }

  /** A mark, the body and the closing 'e' that lists and dictionaries share. */
  lemma EnclosedText(text: seq<byte>, mark: byte, rest: seq<byte>)
    requires text != [] && text[0] == mark && |rest| < |text| - 1
    requires rest == text[|text| - |rest|..] && text[|text| - |rest| - 1] == 101
    ensures var n := |text| - |rest|;
      Enclosed(text[..n], mark) && Inside(text[..n]) == text[1..][..n - 2] && text[1..][n - 2..] == [101] + rest
  {
  }

  lemma ListIsRead(text: seq<byte>, beyond: nat, items: seq<Node>, rest: seq<byte>)
    requires text != [] && text[0] == 108 && |text| != beyond && ItemsRead(text[1..], beyond, items, rest)
    ensures NodeRead(text, beyond, List(items), rest)
  {
    EnclosedText(text, 108, rest);
  }

  lemma DictIsRead(text: seq<byte>, beyond: nat, entries: seq<Entry>, rest: seq<byte>)
    requires text != [] && text[0] == 100 && |text| != beyond && EntriesRead(text[1..], beyond, entries, rest)
    ensures NodeRead(text, beyond, Dict(entries), rest)
  {
    EnclosedText(text, 100, rest);
  }

  /** Everything that is accepted is in the language: the tree is read from the bytes that were consumed. */
  lemma {:induction false} AcceptedIsRead(text: seq<byte>, beyond: nat)
    requires Parse(text, beyond).Accept?
    ensures NodeRead(text, beyond, Parse(text, beyond).value, Parse(text, beyond).rest)
    decreases |text|, 0
  {
    if text[0] == LIST {
      var Accept(items, rest) := ParseItems(text[1..], beyond);
      ItemsAreRead(text[1..], beyond);
      ListIsRead(text, beyond, items, rest);
    } else if text[0] == DICT {
      var Accept(entries, rest) := ParseEntries(text[1..], beyond);
      EntriesAreRead(text[1..], beyond);
      DictIsRead(text, beyond, entries, rest);
    } else if text[0] == INT {
      IntegerIsRead(text, beyond);
    } else {
      StringIsRead(text, beyond);
    }
  }

  lemma ItemsCons(b: seq<byte>, k: nat, item: Node, items: seq<Node>, rest: seq<byte>, beyond: nat)
    requires 0 < k <= |b|
    requires Reads(b[..k], item, b[k..] + rest, beyond) && ReadsItems(b[k..], items, rest, beyond)
    ensures ReadsItems(b, [item] + items, rest, beyond)
  {
    assert ([item] + items)[1..] == items;
  }

  lemma EntriesCons(b: seq<byte>, k: nat, entry: Entry, entries: seq<Entry>, rest: seq<byte>, beyond: nat)
    requires 0 < k <= |b|
    requires ReadsEntry(b[..k], entry, b[k..] + rest, beyond) && ReadsEntries(b[k..], entries, rest, beyond)
    ensures ReadsEntries(b, [entry] + entries, rest, beyond)
  {
    assert ([entry] + entries)[1..] == entries;
  }

  /** What a list or dictionary loop has read: everything up to the closing 'e', which is consumed too. */
  ghost predicate Closed(text: seq<byte>, n: int, rest: seq<byte>) {
    0 <= n < |text| && |rest| == |text| - n - 1 && text[n..] == [101] + rest
  }

  /** Positions in the text of a loop that has consumed its first k bytes, with n to go to the closing 'e'. */
  lemma ClosedBehind(text: seq<byte>, k: nat, n: int, rest: seq<byte>)
    requires k <= |text| && Closed(text[k..], n, rest)
    ensures Closed(text, k + n, rest)
    ensures text[..k + n][..k] == text[..k] && text[..k + n][k..] == text[k..][..n]
    ensures text[..k + n][k..] + ([101] + rest) == text[k..]
  {
  }

  /** The items that a list loop has read from text: n bytes and the closing 'e'. */
  ghost predicate ItemsRead(text: seq<byte>, beyond: nat, items: seq<Node>, rest: seq<byte>) {
    var n := |text| - |rest| - 1;
    Closed(text, n, rest) && ReadsItems(text[..n], items, [101] + rest, beyond)
  }

  lemma {:induction false} ItemsStep(
      text: seq<byte>, beyond: nat, item: Node, more: seq<byte>, items: seq<Node>, rest: seq<byte>)
    requires NodeRead(text, beyond, item, more) && ItemsRead(more, beyond, items, rest)
    ensures ItemsRead(text, beyond, [item] + items, rest)
  {
    var k, m := |text| - |more|, |more| - |rest| - 1;
    ClosedBehind(text, k, m, rest);
    var b := text[..k + m];
    assert b[..k] == text[..k] && b[k..] + ([101] + rest) == more && b[k..] == more[..m];
    ItemsCons(b, k, item, items, [101] + rest, beyond);
  }

  lemma {:induction false} ItemsAreRead(text: seq<byte>, beyond: nat)
    requires ParseItems(text, beyond).Accept?
    ensures ItemsRead(text, beyond, ParseItems(text, beyond).value, ParseItems(text, beyond).rest)
    decreases |text|, 1
  {
    if Head(text) == END {
      NothingRead(text);
    } else {
      var Accept(item, more) := Parse(text, beyond);
      var Accept(items, rest) := ParseItems(more, beyond);
      AcceptedIsRead(text, beyond);
      ItemsAreRead(more, beyond);
      ItemsStep(text, beyond, item, more, items, rest);
    }
  }

  lemma NothingRead(text: seq<byte>)
    requires Head(text) == 101
    ensures Closed(text, 0, text[1..]) && text[..0] == []
  {
    assert text == [101] + text[1..];
  }

  /** The key and value that a dictionary loop has read from text. */
  ghost predicate EntryRead(text: seq<byte>, beyond: nat, entry: Entry, rest: seq<byte>) {
    && |rest| < |text| && rest == text[|text| - |rest|..]
    && ReadsEntry(text[..|text| - |rest|], entry, rest, beyond)
  }

  lemma {:induction false} EntryIsRead(text: seq<byte>, beyond: nat, j: nat, entry: Entry, rest: seq<byte>)
    requires 0 < j <= |text| && KeyText(text[..j], entry.key, text[j..], beyond)
    requires NodeRead(text[j..], beyond, entry.val, rest)
    ensures EntryRead(text, beyond, entry, rest)
  {
    var n := |text| - |rest|;
    var c := text[..n];
    assert c[..j] == text[..j] && c[j..] + rest == text[j..] && c[j..] == text[j..][..n - j];
  }

  ghost predicate EntriesRead(text: seq<byte>, beyond: nat, entries: seq<Entry>, rest: seq<byte>) {
    var n := |text| - |rest| - 1;
    Closed(text, n, rest) && ReadsEntries(text[..n], entries, [101] + rest, beyond)
  }

  lemma {:induction false} EntriesStep(
      text: seq<byte>, beyond: nat, entry: Entry, more: seq<byte>, entries: seq<Entry>, rest: seq<byte>)
    requires EntryRead(text, beyond, entry, more) && EntriesRead(more, beyond, entries, rest)
    ensures EntriesRead(text, beyond, [entry] + entries, rest)
  {
    var k, m := |text| - |more|, |more| - |rest| - 1;
    ClosedBehind(text, k, m, rest);
    var b := text[..k + m];
    assert b[..k] == text[..k] && b[k..] + ([101] + rest) == more && b[k..] == more[..m];
    EntriesCons(b, k, entry, entries, [101] + rest, beyond);
  }

  lemma {:induction false} EntriesAreRead(text: seq<byte>, beyond: nat)
    requires ParseEntries(text, beyond).Accept?
    ensures EntriesRead(text, beyond, ParseEntries(text, beyond).value, ParseEntries(text, beyond).rest)
    decreases |text|, 1
  {
    if Head(text) == END {
      NothingRead(text);
    } else {
      var StrRead(key, afterKey) := ReadStr(text, beyond);
      var Accept(val, more) := Parse(afterKey, beyond);
      var Accept(entries, rest) := ParseEntries(more, beyond);
      var j := ReadStrText(text, beyond);
      AcceptedIsRead(afterKey, beyond);
      EntryIsRead(text, beyond, j, Entry(key.value, val), more);
      EntriesAreRead(more, beyond);
      EntriesStep(text, beyond, Entry(key.value, val), more, entries, rest);
    }
  }

  // ---- The language is accepted ----

  /** Positions in what follows the mark. */
  lemma EnclosedRest(c: seq<byte>, mark: byte, rest: seq<byte>)
    requires Enclosed(c, mark)
    ensures c + rest != [] && (c + rest)[0] == mark && (c + rest)[1..] == Inside(c) + ([101] + rest)
  {
  }

  lemma {:induction false} IntegerParsed(c: seq<byte>, i: int, rest: seq<byte>, beyond: nat)
    requires Enclosed(c, 105) && (if |c| == 2 then i == 0 else IntegerText(Inside(c), i)) && |c| + |rest| != beyond
    ensures LLONG_MIN <= i <= LLONG_MAX && Parse(c + rest, beyond) == Accept(Int(i), rest)
  {
    var tail := [101] + rest;
    EnclosedRest(c, 105, rest);
    assert tail[1..] == rest;
    if |c| == 2 {
      assert Inside(c) + tail == tail;
    } else {
      var v :| LooseNumber(Inside(c), v) && i == Clamped(v);
      LooseIsRead(Inside(c), v, tail);
    }
  }

  /** A numeral is a number without blanks and sign. */
  lemma NumeralIsLoose(s: seq<byte>)
    requires Numeral(s)
    ensures LooseNumber(s, Worth(s)) && Worth(s) >= 0
  {
    WorthNotNegative(s);
  }

  lemma LengthRead(digits: seq<byte>, v: int, s: seq<byte>, rest: seq<byte>, beyond: nat)
    requires LooseNumber(digits, v) && Clamped(v) == |s| && beyond <= |rest|
    ensures ReadStr(digits + ([58] + s + rest), beyond) == StrRead(Some(s), rest)
  {
    var tail := [58] + s + rest;
    LooseIsRead(digits, v, tail);
    assert tail[1..1 + |s|] == s && tail[1 + |s|..] == rest;
  }

  /** A text that starts with a digit is read as a string. */
  lemma StringStarts(text: seq<byte>, beyond: nat, r: StrRead)
    requires text != [] && |text| != beyond && IsNumeral(text[0]) && ReadStr(text, beyond) == r
    ensures Parse(text, beyond) == Accept(Str(r.s), r.rest)
  {
  }

  lemma {:induction false} StringParsed(c: seq<byte>, s: seq<byte>, rest: seq<byte>, beyond: nat)
    requires StringText(c, s, rest, beyond) && |c| + |rest| != beyond
    ensures Parse(c + rest, beyond) == Accept(Str(Some(s)), rest)
  {
    var k := |c| - |s| - 1;
    var digits := c[..k];
    NumeralIsLoose(digits);
    LengthRead(digits, Worth(digits), s, rest, beyond);
    KeyInParts(digits, s, rest);
    assert c == digits + ([58] + s);
    StringStarts(c + rest, beyond, StrRead(Some(s), rest));
  }

  lemma {:induction false} UnreadParsed(c: seq<byte>, rest: seq<byte>, beyond: nat)
    requires UnreadString(c, rest, beyond) && |c| + |rest| != beyond
    ensures Parse(c + rest, beyond) == Accept(Str(None), rest)
  {
    NumeralIsLoose(c);
    LooseIsRead(c, Worth(c), rest);
    HeadOfConcat(c, rest);
    StringStarts(c + rest, beyond, StrRead(None, rest));
  }

  lemma LengthKeyParsed(digits: seq<byte>, key: seq<byte>, rest: seq<byte>, beyond: nat)
    requires IntegerText(digits, |key|) && beyond <= |rest|
    ensures ReadStr(digits + ([58] + key + rest), beyond) == StrRead(Some(key), rest)
    ensures digits != [] && digits[0] != 101
  {
    var v :| LooseNumber(digits, v) && |key| == Clamped(v);
    LengthRead(digits, v, key, rest, beyond);
  }

  lemma {:induction false} KeyParsed(c: seq<byte>, key: seq<byte>, rest: seq<byte>, beyond: nat)
    requires KeyText(c, key, rest, beyond)
    ensures ReadStr(c + rest, beyond) == StrRead(Some(key), rest) && c != [] && Head(c + rest) != 101
  {
    var k := |c| - |key| - 1;
    assert c == c[..k] + ([58] + key);
    if k == 0 {
      assert c + rest == [58] + rest && ([58] + rest)[1..] == rest;
    } else {
      LengthKeyParsed(c[..k], key, rest, beyond);
      KeyInParts(c[..k], key, rest);
      assert c + rest == c[..k] + ([58] + key + rest);
    }
  }

  lemma KeyInParts(digits: seq<byte>, key: seq<byte>, rest: seq<byte>)
    requires digits != []
    ensures digits + ([58] + key) + rest == digits + ([58] + key + rest)
    ensures Head(digits + ([58] + key + rest)) == digits[0]
  {
  }

  lemma {:induction false} NotAnEnd(c: seq<byte>, t: Node, rest: seq<byte>, beyond: nat)
    requires Reads(c, t, rest, beyond)
    ensures c[0] != 101 && Head(c + rest) != 101
  {
    if t.Str? && t.s.Some? {
      var k := |c| - |t.s.value| - 1;
      assert c[..k][0] == c[0];
    }
  }

  /** Everything in the language is accepted as what it reads, whatever follows. */
  lemma {:induction false} ReadIsAccepted(c: seq<byte>, t: Node, rest: seq<byte>, beyond: nat)
    requires Reads(c, t, rest, beyond)
    ensures Parse(c + rest, beyond) == Accept(t, rest)
    decreases t, 1
  {
    match t
    case Int(i) => IntegerParsed(c, i, rest, beyond);
    case Str(s) =>
      if s.None? {
        UnreadParsed(c, rest, beyond);
      } else {
        StringParsed(c, s.value, rest, beyond);
      }
    case List(items) =>
      EnclosedRest(c, 108, rest);
      ItemsAccepted(Inside(c), items, rest, beyond);
    case Dict(entries) =>
      EnclosedRest(c, 100, rest);
      EntriesAccepted(Inside(c), entries, rest, beyond);
  }

  lemma CutTail(b: seq<byte>, k: nat, tail: seq<byte>)
    requires k <= |b|
    ensures b + tail == b[..k] + (b[k..] + tail)
  {
  }

  lemma FirstItem(b: seq<byte>, items: seq<Node>, tail: seq<byte>, beyond: nat) returns (k: nat)
    requires ReadsItems(b, items, tail, beyond) && items != []
    ensures 0 < k <= |b|
    ensures Reads(b[..k], items[0], b[k..] + tail, beyond) && ReadsItems(b[k..], items[1..], tail, beyond)
  {
    k :| 0 < k <= |b| && Reads(b[..k], items[0], b[k..] + tail, beyond) && ReadsItems(b[k..], items[1..], tail, beyond);
  }

  lemma {:induction false} ItemsAccepted(b: seq<byte>, items: seq<Node>, rest: seq<byte>, beyond: nat)
    requires ReadsItems(b, items, [101] + rest, beyond)
    ensures ParseItems(b + ([101] + rest), beyond) == Accept(items, rest)
    decreases items, 0
  {
    var tail := [101] + rest;
    if items == [] {
      assert b + tail == tail && tail[1..] == rest;
    } else {
      var k := FirstItem(b, items, tail, beyond);
      var more := b[k..] + tail;
      ReadIsAccepted(b[..k], items[0], more, beyond);
      NotAnEnd(b[..k], items[0], more, beyond);
      ItemsAccepted(b[k..], items[1..], rest, beyond);
      CutTail(b, k, tail);
      ParseItemsStep(b + tail, items[0], more, items[1..], rest, beyond);
      assert items == [items[0]] + items[1..];
    }
  }

  lemma FirstKey(c: seq<byte>, entry: Entry, rest: seq<byte>, beyond: nat) returns (j: nat)
    requires ReadsEntry(c, entry, rest, beyond)
    ensures 0 < j <= |c|
    ensures KeyText(c[..j], entry.key, c[j..] + rest, beyond) && Reads(c[j..], entry.val, rest, beyond)
  {
    j :| 0 < j <= |c| && KeyText(c[..j], entry.key, c[j..] + rest, beyond) && Reads(c[j..], entry.val, rest, beyond);
  }

  lemma {:induction false} EntryAccepted(c: seq<byte>, entry: Entry, rest: seq<byte>, beyond: nat)
    requires ReadsEntry(c, entry, rest, beyond)
    ensures Head(c + rest) != 101
    ensures var r := ReadStr(c + rest, beyond);
      r.s == Some(entry.key) && Parse(r.rest, beyond) == Accept(entry.val, rest)
    decreases entry, 2
  {
    var j := FirstKey(c, entry, rest, beyond);
    CutTail(c, j, rest);
    KeyParsed(c[..j], entry.key, c[j..] + rest, beyond);
    ReadIsAccepted(c[j..], entry.val, rest, beyond);
  }

  lemma FirstEntry(b: seq<byte>, entries: seq<Entry>, tail: seq<byte>, beyond: nat) returns (k: nat)
    requires ReadsEntries(b, entries, tail, beyond) && entries != []
    ensures 0 < k <= |b|
    ensures ReadsEntry(b[..k], entries[0], b[k..] + tail, beyond) && ReadsEntries(b[k..], entries[1..], tail, beyond)
  {
    k :| 0 < k <= |b| && ReadsEntry(b[..k], entries[0], b[k..] + tail, beyond)
         && ReadsEntries(b[k..], entries[1..], tail, beyond);
  }

  lemma {:induction false} EntriesAccepted(b: seq<byte>, entries: seq<Entry>, rest: seq<byte>, beyond: nat)
    requires ReadsEntries(b, entries, [101] + rest, beyond)
    ensures ParseEntries(b + ([101] + rest), beyond) == Accept(entries, rest)
    decreases entries, 0
  {
    var tail := [101] + rest;
    if entries == [] {
      assert b + tail == tail && tail[1..] == rest;
    } else {
      var k := FirstEntry(b, entries, tail, beyond);
      var more := b[k..] + tail;
      EntryAccepted(b[..k], entries[0], more, beyond);
      EntriesAccepted(b[k..], entries[1..], rest, beyond);
      CutTail(b, k, tail);
      EntriesTaken(b + tail, entries[0], more, entries[1..], rest, beyond);
      assert entries == [entries[0]] + entries[1..];
    }
  }

  lemma EntriesTaken(text: seq<byte>, entry: Entry, more: seq<byte>, entries: seq<Entry>, rest: seq<byte>, beyond: nat)
    requires Head(text) != END && ReadStr(text, beyond).s == Some(entry.key)
    requires Parse(ReadStr(text, beyond).rest, beyond) == Accept(entry.val, more)
    requires ParseEntries(more, beyond) == Accept(entries, rest)
    ensures ParseEntries(text, beyond) == Accept([entry] + entries, rest)
  {
  }

  // ---- Main results ----

  /** The decoder accepts a text as t, leaving rest, if and only if the bytes before rest are in the language
      for t. */
  lemma {:induction false} AcceptedLanguage(text: seq<byte>, beyond: nat, t: Node, rest: seq<byte>)
    ensures Parse(text, beyond) == Accept(t, rest) <==>
      exists c :: text == c + rest && Reads(c, t, rest, beyond)
  {
    if Parse(text, beyond) == Accept(t, rest) {
      AcceptedIsRead(text, beyond);
      var c := text[..|text| - |rest|];
      assert text == c + rest && Reads(c, t, rest, beyond);
    }
    forall c | text == c + rest && Reads(c, t, rest, beyond)
      ensures Parse(text, beyond) == Accept(t, rest)
    {
      ReadIsAccepted(c, t, rest, beyond);
    }
  }

  /** A front part of the text reads as t. */
  ghost predicate ReadsFront(text: seq<byte>, t: Node, beyond: nat) {
    exists c :: c <= text && Reads(c, t, text[|c|..], beyond)
  }

  lemma FrontAccepted(text: seq<byte>, t: Node, beyond: nat, c: seq<byte>)
    requires c <= text && Reads(c, t, text[|c|..], beyond)
    ensures Parse(text, beyond) == Accept(t, text[|c|..])
  {
    assert text == c + text[|c|..];
    ReadIsAccepted(c, t, text[|c|..], beyond);
  }

  lemma AcceptedFront(text: seq<byte>, t: Node, beyond: nat)
    ensures ReadsFront(text, t, beyond) <==> Parse(text, beyond).Accept? && Parse(text, beyond).value == t
  {
    if ReadsFront(text, t, beyond) {
      var c :| c <= text && Reads(c, t, text[|c|..], beyond);
      FrontAccepted(text, t, beyond, c);
    } else if Parse(text, beyond).Accept? && Parse(text, beyond).value == t {
      AcceptedIsRead(text, beyond);
      FrontRead(text, t, Parse(text, beyond).rest, beyond);
    }
  }

  lemma FrontRead(text: seq<byte>, t: Node, rest: seq<byte>, beyond: nat)
    requires NodeRead(text, beyond, t, rest)
    ensures ReadsFront(text, t, beyond)
  {
    var c := text[..|text| - |rest|];
    assert c <= text && text[|c|..] == rest;
  }

  /** It rejects a text if and only if no front part of it is in the language. */
  lemma {:induction false} RejectedLanguage(text: seq<byte>, beyond: nat)
    ensures Parse(text, beyond) == Reject <==> forall c, t, rest :: text == c + rest ==> !Reads(c, t, rest, beyond)
  {
    if Parse(text, beyond).Accept? {
      var Accept(t, rest) := Parse(text, beyond);
      AcceptedLanguage(text, beyond, t, rest);
    } else {
      forall c, t, rest | text == c + rest
        ensures !Reads(c, t, rest, beyond)
      {
        AcceptedLanguage(text, beyond, t, rest);
      }
    }
  }

  // ---- What the encoder prints ----

  /** The bytes of a key that count: those before its first NUL. */
  ghost predicate UpToNul(key: seq<byte>, shown: seq<byte>) {
    && shown <= key && (forall i :: 0 <= i < |shown| ==> shown[i] != 0)
    && (|shown| < |key| ==> key[|shown|] == 0)
  }

  /** A plain length, a colon and the bytes. */
  ghost predicate PrintsString(c: seq<byte>, s: seq<byte>) {
    var k := |c| - |s| - 1;
    0 < k && PlainNumeral(c[..k], |s|) && c[k] == 58 && c[k + 1..] == s
  }

  ghost predicate PrintsKey(c: seq<byte>, key: seq<byte>) {
    exists shown :: UpToNul(key, shown) && PrintsString(c, shown)
  }

  /** The bytes c are the bencoding of t: a null string counts as empty, keys end at their first NUL, and
      dictionaries keep the order of their entries. */
  ghost predicate Prints(c: seq<byte>, t: Node)
    decreases t, 1
  {
    match t
    case Int(i) => Enclosed(c, 105) && PlainNumber(Inside(c), i)
    case Str(s) => PrintsString(c, if s.None? then [] else s.value)
    case List(items) => Enclosed(c, 108) && PrintsItems(Inside(c), items)
    case Dict(entries) => Enclosed(c, 100) && PrintsEntries(Inside(c), entries)
  }

  ghost predicate PrintsItems(b: seq<byte>, items: seq<Node>)
    decreases items, 0
  {
    if items == [] then b == []
    else exists k | 0 <= k <= |b| :: Prints(b[..k], items[0]) && PrintsItems(b[k..], items[1..])
  }

  ghost predicate PrintsEntry(c: seq<byte>, entry: Entry)
    decreases entry, 2
  {
    exists j | 0 <= j <= |c| :: PrintsKey(c[..j], entry.key) && Prints(c[j..], entry.val)
  }

  ghost predicate PrintsEntries(b: seq<byte>, entries: seq<Entry>)
    decreases entries, 0
  {
    if entries == [] then b == []
    else exists k | 0 <= k <= |b| :: PrintsEntry(b[..k], entries[0]) && PrintsEntries(b[k..], entries[1..])
  }

  lemma StringPrinted(c: seq<byte>, s: seq<byte>)
    ensures PrintsString(c, s) <==> c == EncodedStr(s)
  {
    var k := |c| - |s| - 1;
    if PrintsString(c, s) {
      PlainIsDigits(c[..k], |s|);
      assert c == c[..k] + [58] + c[k + 1..];
    }
    if c == EncodedStr(s) {
      var d := Decimal(|s|);
      DigitsArePlain(|s|);
      assert c == d + ([58] + s) && k == |d|;
      assert c[..k] == d && c[k + 1..] == s;
    }
  }

  lemma {:induction false} CStrIsUpToNul(key: seq<byte>, shown: seq<byte>)
    ensures UpToNul(key, shown) <==> shown == CStr(key)
  {
    var r := CStr(key);
    if UpToNul(key, shown) {
      assert forall i :: 0 <= i < |r| ==> r[i] == key[i];
      assert forall i :: 0 <= i < |shown| ==> shown[i] == key[i];
    }
  }

  lemma KeyPrinted(c: seq<byte>, key: seq<byte>)
    ensures PrintsKey(c, key) <==> c == EncodedStr(CStr(key))
  {
    CStrIsUpToNul(key, CStr(key));
    StringPrinted(c, CStr(key));
    if PrintsKey(c, key) {
      var shown :| UpToNul(key, shown) && PrintsString(c, shown);
      CStrIsUpToNul(key, shown);
    }
  }

  /** A mark, a body and an 'e'. */
  lemma EnclosedIs(c: seq<byte>, mark: byte, body: seq<byte>)
    ensures Enclosed(c, mark) && Inside(c) == body <==> c == [mark] + body + [101]
  {
    if Enclosed(c, mark) && Inside(c) == body {
      assert c == [c[0]] + c[1..|c| - 1] + [c[|c| - 1]];
    }
  }

  /** The encoder prints the bencoding of the tree, and nothing else is one. */
  lemma {:induction false} PrintedLanguage(c: seq<byte>, t: Node)
    ensures Prints(c, t) <==> c == Encoding(t)
    decreases t, 1
  {
    match t
    case Int(i) =>
      EnclosedIs(c, 105, Decimal(i));
      if |c| >= 2 {
        DecimalIsPlain(i, Inside(c));
      }
    case Str(s) => StringPrinted(c, StrBytes(s));
    case List(items) =>
      EnclosedIs(c, 108, EncodedItems(items));
      if |c| >= 2 {
        ItemsPrinted(Inside(c), items);
      }
    case Dict(entries) =>
      EnclosedIs(c, 100, EncodedEntries(entries));
      if |c| >= 2 {
        EntriesPrinted(Inside(c), entries);
      }
  }

  lemma SplitItems(b: seq<byte>, items: seq<Node>) returns (k: nat)
    requires PrintsItems(b, items) && items != []
    ensures k <= |b| && Prints(b[..k], items[0]) && PrintsItems(b[k..], items[1..]) && b == b[..k] + b[k..]
  {
    k :| 0 <= k <= |b| && Prints(b[..k], items[0]) && PrintsItems(b[k..], items[1..]);
  }

  lemma JoinItems(b: seq<byte>, items: seq<Node>, k: nat)
    requires items != [] && k <= |b| && Prints(b[..k], items[0]) && PrintsItems(b[k..], items[1..])
    ensures PrintsItems(b, items)
  {
  }

  lemma {:induction false} ItemsPrinted(b: seq<byte>, items: seq<Node>)
    ensures PrintsItems(b, items) <==> b == EncodedItems(items)
    decreases items, 0
  {
    if items != [] {
      var first, more := Encoding(items[0]), EncodedItems(items[1..]);
      if PrintsItems(b, items) {
        var k := SplitItems(b, items);
        PrintedLanguage(b[..k], items[0]);
        ItemsPrinted(b[k..], items[1..]);
      }
      if b == first + more {
        CutAt(b, first, more);
        PrintedLanguage(first, items[0]);
        ItemsPrinted(more, items[1..]);
        JoinItems(b, items, |first|);
      }
    }
  }

  lemma CutAt(b: seq<byte>, first: seq<byte>, more: seq<byte>)
    requires b == first + more
    ensures |first| <= |b| && b[..|first|] == first && b[|first|..] == more
  {
  }

  lemma SplitEntry(c: seq<byte>, entry: Entry) returns (j: nat)
    requires PrintsEntry(c, entry)
    ensures j <= |c| && PrintsKey(c[..j], entry.key) && Prints(c[j..], entry.val) && c == c[..j] + c[j..]
  {
    j :| 0 <= j <= |c| && PrintsKey(c[..j], entry.key) && Prints(c[j..], entry.val);
  }

  lemma JoinEntry(c: seq<byte>, entry: Entry, j: nat)
    requires j <= |c| && PrintsKey(c[..j], entry.key) && Prints(c[j..], entry.val)
    ensures PrintsEntry(c, entry)
  {
  }

  lemma {:induction false} EntryPrinted(c: seq<byte>, entry: Entry)
    ensures PrintsEntry(c, entry) <==> c == EncodedStr(CStr(entry.key)) + Encoding(entry.val)
    decreases entry, 2
  {
    var key, val := EncodedStr(CStr(entry.key)), Encoding(entry.val);
    if PrintsEntry(c, entry) {
      var j := SplitEntry(c, entry);
      KeyPrinted(c[..j], entry.key);
      PrintedLanguage(c[j..], entry.val);
    }
    if c == key + val {
      CutAt(c, key, val);
      KeyPrinted(key, entry.key);
      PrintedLanguage(val, entry.val);
      JoinEntry(c, entry, |key|);
    }
  }

  lemma SplitEntries(b: seq<byte>, entries: seq<Entry>) returns (k: nat)
    requires PrintsEntries(b, entries) && entries != []
    ensures k <= |b| && PrintsEntry(b[..k], entries[0]) && PrintsEntries(b[k..], entries[1..]) && b == b[..k] + b[k..]
  {
    k :| 0 <= k <= |b| && PrintsEntry(b[..k], entries[0]) && PrintsEntries(b[k..], entries[1..]);
  }

  lemma JoinEntries(b: seq<byte>, entries: seq<Entry>, k: nat)
    requires entries != [] && k <= |b| && PrintsEntry(b[..k], entries[0]) && PrintsEntries(b[k..], entries[1..])
    ensures PrintsEntries(b, entries)
  {
  }

  lemma {:induction false} EntriesPrinted(b: seq<byte>, entries: seq<Entry>)
    ensures PrintsEntries(b, entries) <==> b == EncodedEntries(entries)
    decreases entries, 0
  {
    if entries != [] {
      var first, more := EncodedStr(CStr(entries[0].key)) + Encoding(entries[0].val), EncodedEntries(entries[1..]);
      assert EncodedEntries(entries) == first + more;
      if PrintsEntries(b, entries) {
        var k := SplitEntries(b, entries);
        EntryPrinted(b[..k], entries[0]);
        EntriesPrinted(b[k..], entries[1..]);
      }
      if b == first + more {
        CutAt(b, first, more);
        EntryPrinted(first, entries[0]);
        EntriesPrinted(more, entries[1..]);
        JoinEntries(b, entries, |first|);
      }
    }
  }
}
