/** Which log level a pattern string gives a file: a plain definition and the single pass of ylog.c. */
module LogLevels {
  import opened Bytes
  import opened Numerals
  import opened Sequences

  const YLOG_MAX := 9999
  const COMMA: byte := 44
  const SLASH: byte := 47

  /** POSIX fnmatch(pattern, string, 0) == 0, which is not modelled. */
  type Fnmatch = (seq<byte>, seq<byte>) -> bool

  // ---- Matching a file name ----

  /** The position behind a slash from which a suffix of the name is tried. */
  predicate Tried(name: seq<byte>, f: nat) {
    f < |name| && name[f] == SLASH && (f + 1 == |name| || name[f + 1] != SLASH)
  }

  /** The pattern matches the name or what follows one of its slashes. */
  predicate Matches(fnmatch: Fnmatch, pat: seq<byte>, name: seq<byte>) {
    fnmatch(pat, name) || exists f :: 0 <= f < |name| && Tried(name, f) && fnmatch(pat, name[f + 1..])
  }

  /** ylog_match. */
  method Match(fnmatch: Fnmatch, pat: seq<byte>, name: seq<byte>) returns (r: bool)
    ensures r == Matches(fnmatch, pat, name)
  {
    if fnmatch(pat, name) {
      return true;
    }
    var f := 0;
    while f < |name|
      invariant 0 <= f <= |name|
      invariant forall g :: 0 <= g < f ==> !(Tried(name, g) && fnmatch(pat, name[g + 1..]))
    {
      if name[f] == SLASH && (f + 1 == |name| || name[f + 1] != SLASH) && fnmatch(pat, name[f + 1..]) {
        assert Tried(name, f);
        return true;
      }
      f := f + 1;
    }
    return false;
  }

  // ---- The plain definition ----

  /** The position of the first c; the length if there is none. */
  function IndexOf(s: seq<byte>, c: byte): (k: nat)
    ensures k <= |s|
    ensures k < |s| ==> s[k] == c
    ensures forall i :: 0 <= i < k ==> s[i] != c
  {
    if s == [] || s[0] == c then 0 else 1 + IndexOf(s[1..], c)
  }

  /** The comma-separated segments. */
  ghost function Segments(p: seq<byte>): seq<seq<byte>>
    decreases |p|
  {
    var k := IndexOf(p, COMMA);
    if k == |p| then [p] else [p[..k]] + Segments(p[k + 1..])
  }

  /** The level text of the first segment that has no colon or whose pattern matches. */
  ghost function Choose(fnmatch: Fnmatch, segments: seq<seq<byte>>, name: seq<byte>): Option<seq<byte>> {
    if segments == [] then None
    else
      var seg := segments[0];
      var c := IndexOf(seg, COLON);
      if c == |seg| then Some(seg)
      else if Matches(fnmatch, seg[..c], name) then Some(seg[c + 1..])
      else Choose(fnmatch, segments[1..], name)
  }

  /** A level text counts if it is a decimal number from 0 to YLOG_MAX. */
  function TextLevel(text: seq<byte>, default: int): int {
    if text != [] && AllDigits(text) && DigitsValue(text) <= YLOG_MAX then DigitsValue(text) else default
  }

  ghost function PatternLevel(fnmatch: Fnmatch, p: seq<byte>, name: seq<byte>, default: int): int {
    match Choose(fnmatch, Segments(p), name)
    case None => default
    case Some(text) => TextLevel(text, default)
  }

  ghost function Resolve(fnmatch: Fnmatch, pattern: Option<seq<byte>>, name: seq<byte>, default: int): int {
    match pattern
    case None => default
    case Some(p) => PatternLevel(fnmatch, p, name, default)
  }

  lemma ResolvedLevelInRange(fnmatch: Fnmatch, pattern: Option<seq<byte>>, name: seq<byte>, default: int)
    requires 0 <= default <= YLOG_MAX
    ensures 0 <= Resolve(fnmatch, pattern, name, default) <= YLOG_MAX
  {
  }

  // ---- The plain definition, spelled out in characters ----

  ghost predicate EndsIn(s: seq<byte>, end: seq<byte>) {
    |end| <= |s| && s[|s| - |end|..] == end
  }

  /** A pattern matches a name if it matches all of it or what stands behind one of its slashes, the last
      one of a run of slashes. */
  lemma MatchesSuffixes(fnmatch: Fnmatch, pat: seq<byte>, name: seq<byte>)
    ensures Matches(fnmatch, pat, name) <==>
      fnmatch(pat, name) || exists b :: fnmatch(pat, b) && EndsIn(name, [47] + b) && (b == [] || b[0] != 47)
  {
    forall f | 0 <= f < |name| && Tried(name, f)
      ensures EndsIn(name, [47] + name[f + 1..])
    {
      assert name[f..] == [47] + name[f + 1..];
    }
    forall b | EndsIn(name, [47] + b) && (b == [] || b[0] != 47)
      ensures var f := |name| - |b| - 1; f >= 0 && Tried(name, f) && name[f + 1..] == b
    {
      var f := |name| - |b| - 1;
      assert name[f..][0] == 47 && name[f + 1..] == name[f..][1..];
    }
  }

  /** A decimal number up to 9999, or the default. */
  ghost function Level(text: seq<byte>, default: int): int {
    if Numeral(text) && Worth(text) <= 9999 then Worth(text) else default
  }

  lemma TextLevelIs(text: seq<byte>, default: int)
    ensures TextLevel(text, default) == Level(text, default)
  {
    if Numeral(text) {
      WorthIsValue(text);
    }
  }

  lemma NoPattern(fnmatch: Fnmatch, name: seq<byte>, default: int)
    ensures Resolve(fnmatch, None, name, default) == Resolve(fnmatch, Some([]), name, default) == default
  {
    EmptyPattern(fnmatch, name, default);
  }

  /** A first segment without a colon decides for every name, whatever follows it. */
  lemma PlainSegment(fnmatch: Fnmatch, text: seq<byte>, tail: seq<byte>, name: seq<byte>, default: int)
    requires 44 !in text && 58 !in text && (tail == [] || tail[0] == 44)
    ensures Resolve(fnmatch, Some(text + tail), name, default) == Level(text, default)
  {
    var p := text + tail;
    IndexOfIs(p, COMMA, |text|);
    assert p[..|text|] == text;
    IndexOfIs(text, COLON, |text|);
    FirstSegment(fnmatch, p, name, default);
    TextLevelIs(text, default);
  }

  /** A first segment with a colon decides for the names that its pattern matches; for any other name it is as
      if the pattern string began behind its comma, or were empty. */
  lemma PatternSegment(fnmatch: Fnmatch, pat: seq<byte>, text: seq<byte>, tail: seq<byte>, name: seq<byte>,
                       default: int)
    requires 44 !in pat && 58 !in pat && 44 !in text && (tail == [] || tail[0] == 44)
    ensures Resolve(fnmatch, Some(pat + [58] + text + tail), name, default) ==
      if Matches(fnmatch, pat, name) then Level(text, default)
      else if tail == [] then default
      else Resolve(fnmatch, Some(tail[1..]), name, default)
  {
    SegmentParts(pat, text, tail);
    SegmentDecides(fnmatch, pat + [58] + text + tail, pat, text, tail, name, default);
  }

  /** p begins with the segment pat:text; tail is the rest with its comma.  Folded like a definition under
      a quantifier. */
  ghost predicate FirstIs(p: seq<byte>, pat: seq<byte>, text: seq<byte>, tail: seq<byte>) {
    forall u {:trigger Unfold(u)} :: Unfold(u) ==>
      var k := IndexOf(p, COMMA);
      && k == |p| - |tail| && IndexOf(p[..k], COLON) == |pat| < k && p[..|pat|] == pat && p[|pat| + 1..k] == text
      && (tail != [] ==> p[k + 1..] == tail[1..])
  }

  lemma SegmentDecides(fnmatch: Fnmatch, p: seq<byte>, pat: seq<byte>, text: seq<byte>, tail: seq<byte>,
                       name: seq<byte>, default: int)
    requires FirstIs(p, pat, text, tail)
    ensures Resolve(fnmatch, Some(p), name, default) ==
      if Matches(fnmatch, pat, name) then Level(text, default)
      else if tail == [] then default
      else Resolve(fnmatch, Some(tail[1..]), name, default)
  {
    assert Unfold(true);
    FirstSegment(fnmatch, p, name, default);
    TextLevelIs(text, default);
  }

  lemma SegmentParts(pat: seq<byte>, text: seq<byte>, tail: seq<byte>)
    requires 44 !in pat && 58 !in pat && 44 !in text && (tail == [] || tail[0] == 44)
    ensures FirstIs(pat + [58] + text + tail, pat, text, tail)
  {
    var seg := pat + [58] + text;
    var p := seg + tail;
    IndexOfIs(p, COMMA, |seg|);
    assert p[..|seg|] == seg;
    IndexOfIs(seg, COLON, |pat|);
  }

  /** With one segment: the name, or its part behind a slash, is matched, and the level is read. */
  lemma OnePattern(fnmatch: Fnmatch, pat: seq<byte>, text: seq<byte>, name: seq<byte>, default: int)
    requires 44 !in pat && 58 !in pat && 44 !in text
    ensures Resolve(fnmatch, Some(pat + [58] + text), name, default) ==
      if fnmatch(pat, name) || exists b :: fnmatch(pat, b) && EndsIn(name, [47] + b) && (b == [] || b[0] != 47)
      then Level(text, default)
      else default
  {
    MatchesSuffixes(fnmatch, pat, name);
    assert pat + [58] + text + [] == pat + [58] + text;
    PatternSegment(fnmatch, pat, text, [], name, default);
  }

  // ---- How the pass over the string relates to it ----

  lemma IndexOfIs(s: seq<byte>, c: byte, k: nat)
    requires k <= |s| && (k < |s| ==> s[k] == c) && forall i :: 0 <= i < k ==> s[i] != c
    ensures IndexOf(s, c) == k
  {
  }

  /** The first segment ends the search, or it is skipped together with its comma. */
  lemma {:induction false} FirstSegment(fnmatch: Fnmatch, p: seq<byte>, name: seq<byte>, default: int)
    ensures var k := IndexOf(p, COMMA);
      var c := IndexOf(p[..k], COLON);
      PatternLevel(fnmatch, p, name, default) ==
        if c == k then TextLevel(p[..k], default)
        else if Matches(fnmatch, p[..c], name) then TextLevel(p[c + 1..k], default)
        else if k == |p| then default
        else PatternLevel(fnmatch, p[k + 1..], name, default)
  {
    var k := IndexOf(p, COMMA);
    var seg := p[..k];
    var c := IndexOf(seg, COLON);
    var rest := if k < |p| then Segments(p[k + 1..]) else [];
    SegmentsCons(p);
    ChooseCons(fnmatch, seg, rest, name);
    if c < k {
      assert seg[..c] == p[..c] && seg[c + 1..] == p[c + 1..k];
    }
  }

  lemma {:induction false} SegmentsCons(p: seq<byte>)
    ensures var k := IndexOf(p, COMMA);
      Segments(p) == [p[..k]] + if k < |p| then Segments(p[k + 1..]) else []
  {
    var k := IndexOf(p, COMMA);
    if k == |p| {
      assert p[..k] == p;
    }
  }

  lemma ChooseCons(fnmatch: Fnmatch, seg: seq<byte>, rest: seq<seq<byte>>, name: seq<byte>)
    ensures var c := IndexOf(seg, COLON);
      Choose(fnmatch, [seg] + rest, name) ==
        if c == |seg| then Some(seg)
        else if Matches(fnmatch, seg[..c], name) then Some(seg[c + 1..])
        else Choose(fnmatch, rest, name)
  {
    assert ([seg] + rest)[1..] == rest;
  }

  lemma EmptyPattern(fnmatch: Fnmatch, name: seq<byte>, default: int)
    ensures PatternLevel(fnmatch, [], name, default) == default
  {
  }

  lemma {:induction false} LongerNumber(s: seq<byte>, k: nat)
    requires AllDigits(s) && k <= |s|
    ensures DigitsValue(s) >= DigitsValue(s[..k])
    ensures k < |s| ==> DigitsValue(s) >= 10 * DigitsValue(s[..k])
    decreases |s|
  {
    if k < |s| {
      LongerNumber(s[..|s| - 1], k);
      assert s[..|s| - 1][..k] == s[..k];
    } else {
      assert s[..k] == s;
    }
  }

  // ---- The single pass, on the pattern buffer ----

  /** The buffer holds p and its terminating NUL. */
  ghost predicate HoldsPattern(buf: array<byte>, p: seq<byte>)
    reads buf
  {
    buf.Length == |p| + 1 && buf[..|p|] == p && buf[|p|] == NUL && NulFree(p)
  }

  /** The scan to the first colon, comma or NUL. */
  method ScanName(buf: array<byte>, start: nat, ghost p: seq<byte>) returns (pat: nat)
    requires HoldsPattern(buf, p) && start <= |p|
    ensures Scanned(p, start, pat)
    ensures if buf[pat] == COLON then pat < |p| && p[pat] == COLON else pat == |p| || p[pat] != COLON
  {
    pat := start;
    while buf[pat] != NUL && buf[pat] != COLON && buf[pat] != COMMA
      invariant start <= pat <= |p|
      invariant forall i :: start <= i < pat ==> p[i] != COLON && p[i] != COMMA
      decreases |p| - pat
    {
      assert buf[pat] == buf[..|p|][pat];
      pat := pat + 1;
    }
    ghost var rest := p[start..];
    ghost var k := IndexOf(rest, COMMA);
    assert pat < |p| ==> buf[pat] == buf[..|p|][pat] == rest[pat - start];
    IndexOfIs(rest[..k], COLON, pat - start);
  }

  /** The C string at start once a NUL stands in for the colon. */
  lemma NameText(b: seq<byte>, p: seq<byte>, start: nat, pat: nat)
    requires start <= pat < |p| == |b| - 1 && NulFree(p)
    requires b == p[..pat] + [NUL] + p[pat + 1..] + [NUL]
    ensures CStr(b[start..]) == p[start..pat]
  {
    assert b[start..] == p[start..pat] + [NUL] + (p[pat + 1..] + [NUL]);
    CStrTerminated(p[start..pat], p[pat + 1..] + [NUL]);
  }

  /** Matches the pattern that ends at the colon at pat.  The colon is overwritten while fnmatch reads
      the pattern, and put back. */
  method MatchPrefix(fnmatch: Fnmatch, buf: array<byte>, start: nat, pat: nat, name: seq<byte>, ghost p: seq<byte>)
    returns (val: bool)
    requires HoldsPattern(buf, p) && start <= pat < |p| && p[pat] == COLON
    modifies buf
    ensures HoldsPattern(buf, p) && buf[..] == old(buf[..])
    ensures val == Matches(fnmatch, p[start..pat], name)
  {
    ghost var before := buf[..];
    assert before == p + [NUL];
    assert before[pat] == COLON;
    buf[pat] := NUL;
    assert buf[..] == p[..pat] + [NUL] + p[pat + 1..] + [NUL];
    NameText(buf[..], p, start, pat);
    val := Match(fnmatch, CStr(buf[..][start..]), name);
    buf[pat] := COLON;
    assert buf[..] == before;
    assert buf[..|p|] == before[..|p|];
  }

  /** The skip to the next segment. */
  method SkipSegment(buf: array<byte>, from: nat, ghost p: seq<byte>) returns (pat: nat)
    requires HoldsPattern(buf, p) && 1 <= from <= |p| && p[from - 1] != COMMA
    ensures from <= pat <= |p| && p[pat..] == NextSegment(p[from..])
  {
    pat := from;
    while buf[pat] != NUL && buf[pat - 1] != COMMA
      invariant from <= pat <= |p|
      invariant forall i :: from <= i < pat - 1 ==> p[i] != COMMA
      decreases |p| - pat
    {
      assert buf[pat - 1] == buf[..|p|][pat - 1];
      pat := pat + 1;
    }
    assert buf[pat - 1] == buf[..|p|][pat - 1];
    SegmentSkipped(p, from, pat);
  }

  lemma SegmentSkipped(p: seq<byte>, from: nat, pat: nat)
    requires 1 <= from <= pat <= |p| && p[from - 1] != COMMA && (pat == |p| || p[pat - 1] == COMMA)
    requires forall i :: from <= i < pat - 1 ==> p[i] != COMMA
    ensures p[pat..] == NextSegment(p[from..])
  {
    var rest := p[from..];
    if p[pat - 1] == COMMA {
      IndexOfIs(rest, COMMA, pat - 1 - from);
    } else {
      IndexOfIs(rest, COMMA, |p| - from);
    }
  }

  /** Behind a colon the rest of the segment is the same segment's rest. */
  lemma SegmentRest(rest: seq<byte>, c: nat)
    requires c < IndexOf(rest, COMMA)
    ensures IndexOf(rest[c + 1..], COMMA) == IndexOf(rest, COMMA) - c - 1
  {
    IndexOfIs(rest[c + 1..], COMMA, IndexOf(rest, COMMA) - c - 1);
  }

  /** The level of the text up to the next comma. */
  ghost function LevelText(rest: seq<byte>, default: int): int {
    TextLevel(rest[..IndexOf(rest, COMMA)], default)
  }

  /** What follows the next comma. */
  ghost function NextSegment(rest: seq<byte>): seq<byte> {
    var k := IndexOf(rest, COMMA);
    if k < |rest| then rest[k + 1..] else []
  }

  /** What the first colon, comma or end says about a pattern string. */
  lemma AtFirst(fnmatch: Fnmatch, rest: seq<byte>, name: seq<byte>, default: int, c: nat)
    requires c == IndexOf(rest[..IndexOf(rest, COMMA)], COLON)
    ensures c <= |rest|
    ensures PatternLevel(fnmatch, rest, name, default) ==
      if c == |rest| || rest[c] != COLON then LevelText(rest, default)
      else if Matches(fnmatch, rest[..c], name) then LevelText(rest[c + 1..], default)
      else PatternLevel(fnmatch, NextSegment(rest[c + 1..]), name, default)
  {
    FirstSegment(fnmatch, rest, name, default);
    FirstColon(rest, c);
    EmptyPattern(fnmatch, name, default);
  }

  lemma AtFirstColon(fnmatch: Fnmatch, rest: seq<byte>, name: seq<byte>, default: int, c: nat)
    requires c == IndexOf(rest[..IndexOf(rest, COMMA)], COLON) && c < |rest| && rest[c] == COLON
    ensures PatternLevel(fnmatch, rest, name, default) ==
      if Matches(fnmatch, rest[..c], name) then LevelText(rest[c + 1..], default)
      else PatternLevel(fnmatch, NextSegment(rest[c + 1..]), name, default)
  {
    AtFirst(fnmatch, rest, name, default, c);
  }

  /** The parts of the first segment. */
  lemma {:induction false} FirstColon(rest: seq<byte>, c: nat)
    requires c == IndexOf(rest[..IndexOf(rest, COMMA)], COLON)
    ensures var k := IndexOf(rest, COMMA);
      if c < k then
        rest[c] == COLON && rest[..k][..c] == rest[..c]
        && rest[c + 1..][..IndexOf(rest[c + 1..], COMMA)] == rest[c + 1..k]
        && NextSegment(rest[c + 1..]) == if k < |rest| then rest[k + 1..] else []
      else c == k && (c == |rest| || rest[c] != COLON)
  {
    var k := IndexOf(rest, COMMA);
    if c < k {
      assert rest[c] == rest[..k][c];
      SegmentRest(rest, c);
      assert rest[c + 1..k] == rest[c + 1..][..k - c - 1];
      if k < |rest| {
        assert rest[c + 1..][k - c..] == rest[k + 1..];
      }
    }
  }

  lemma AroundColon(p: seq<byte>, start: nat, pat: nat)
    requires start <= pat < |p|
    ensures p[start..][pat - start] == p[pat]
    ensures p[start..][pat - start + 1..] == p[pat + 1..] && p[start..][..pat - start] == p[start..pat]
  {
  }

  /** The first colon, comma or end from start on is at pat. */
  ghost predicate Scanned(p: seq<byte>, start: nat, pat: nat) {
    start <= pat <= |p| && pat - start == IndexOf(p[start..][..IndexOf(p[start..], COMMA)], COLON)
  }

  /** After the segment at start either the level text at pat decides, or the segments from pat on do. */
  ghost predicate Decided(fnmatch: Fnmatch, p: seq<byte>, start: nat, name: seq<byte>, default: int, found: bool,
                          pat: nat) {
    start < |p| && pat <= |p| && (found || start < pat) &&
    PatternLevel(fnmatch, p[start..], name, default) ==
      if found then LevelText(p[pat..], default) else PatternLevel(fnmatch, p[pat..], name, default)
  }

  lemma NoColon(fnmatch: Fnmatch, p: seq<byte>, start: nat, pat: nat, name: seq<byte>, default: int)
    requires Scanned(p, start, pat) && start < |p| && (pat == |p| || p[pat] != COLON)
    ensures Decided(fnmatch, p, start, name, default, true, start)
  {
    var rest, c := p[start..], pat - start;
    assert c < |rest| ==> rest[c] == p[pat];
    AtFirst(fnmatch, rest, name, default, c);
  }

  lemma AtColon(fnmatch: Fnmatch, p: seq<byte>, start: nat, pat: nat, name: seq<byte>, default: int)
    requires Scanned(p, start, pat) && pat < |p| && p[pat] == COLON
    ensures PatternLevel(fnmatch, p[start..], name, default) ==
      if Matches(fnmatch, p[start..pat], name) then LevelText(p[pat + 1..], default)
      else PatternLevel(fnmatch, NextSegment(p[pat + 1..]), name, default)
  {
    AroundColon(p, start, pat);
    AtFirstColon(fnmatch, p[start..], name, default, pat - start);
  }

  /** Behind the pattern of a segment: its level text, or the next segment. */
  method AfterName(fnmatch: Fnmatch, buf: array<byte>, start: nat, colon: nat, name: seq<byte>, ghost p: seq<byte>,
                   ghost default: int)
    returns (found: bool, pat: nat)
    requires HoldsPattern(buf, p) && Scanned(p, start, colon) && colon < |p| && p[colon] == COLON
    modifies buf
    ensures HoldsPattern(buf, p) && buf[..] == old(buf[..])
    ensures Decided(fnmatch, p, start, name, default, found, pat)
  {
    found := MatchPrefix(fnmatch, buf, start, colon, name, p);
    pat := colon + 1;
    if !found {
      pat := SkipSegment(buf, pat, p);
    }
    AtColon(fnmatch, p, start, colon, name, default);
  }

  /** One turn of the segment loop. */
  method TrySegment(fnmatch: Fnmatch, buf: array<byte>, start: nat, name: seq<byte>, ghost p: seq<byte>,
                    ghost default: int)
    returns (found: bool, pat: nat)
    requires HoldsPattern(buf, p) && start < |p|
    modifies buf
    ensures HoldsPattern(buf, p) && buf[..] == old(buf[..])
    ensures Decided(fnmatch, p, start, name, default, found, pat)
  {
    pat := ScanName(buf, start, p);
    if buf[pat] == COLON {
      found, pat := AfterName(fnmatch, buf, start, pat, name, p, default);
    } else {
      NoColon(fnmatch, p, start, pat, name, default);
      found, pat := true, start;
    }
  }

  /** The segment loop: where the level text that decides starts. */
  method FindLevelText(fnmatch: Fnmatch, buf: array<byte>, name: seq<byte>, ghost p: seq<byte>, ghost default: int)
    returns (pat: nat)
    requires HoldsPattern(buf, p)
    modifies buf
    ensures HoldsPattern(buf, p) && buf[..] == old(buf[..]) && pat <= |p|
    ensures PatternLevel(fnmatch, p, name, default) == LevelText(p[pat..], default)
  {
    pat := 0;
    assert p[0..] == p;
    while buf[pat] != NUL
      invariant pat <= |p| && HoldsPattern(buf, p) && buf[..] == old(buf[..])
      invariant PatternLevel(fnmatch, p, name, default) == PatternLevel(fnmatch, p[pat..], name, default)
      decreases |p| - pat
    {
      var found;
      found, pat := TrySegment(fnmatch, buf, pat, name, p, default);
      if found {
        return;
      }
    }
    assert p[pat..] == [];
    EmptyPattern(fnmatch, name, default);
  }

  /** The digit loop: the level of the text up to the next comma. */
  method ReadLevel(buf: array<byte>, start: nat, default: int, ghost p: seq<byte>) returns (level: int)
    requires HoldsPattern(buf, p) && start <= |p|
    ensures level == LevelText(p[start..], default)
  {
    var pat, val := start, 0;
    assert p[start..start] == [];
    while val < YLOG_MAX && ZERO <= buf[pat] <= NINE
      invariant start <= pat <= |p|
      invariant AllDigits(p[start..pat]) && val == DigitsValue(p[start..pat])
      decreases |p| - pat
    {
      assert buf[pat] == buf[..|p|][pat];
      OneMoreDigit(p, start, pat);
      val := val * 10 + (buf[pat] - ZERO);
      pat := pat + 1;
    }
    assert pat < |p| ==> buf[pat] == buf[..|p|][pat];
    LevelRead(p, start, pat, default);
    if val <= YLOG_MAX && pat != start && (buf[pat] == NUL || buf[pat] == COMMA) {
      return val;
    }
    return default;
  }

  lemma LevelRead(p: seq<byte>, start: nat, pat: nat, default: int)
    requires start <= pat <= |p| && AllDigits(p[start..pat])
    requires DigitsValue(p[start..pat]) >= YLOG_MAX || pat == |p| || !IsDigit(p[pat])
    ensures var v := DigitsValue(p[start..pat]);
      LevelText(p[start..], default)
        == if v <= YLOG_MAX && pat != start && (pat == |p| || p[pat] == COMMA) then v else default
  {
    var rest, n := p[start..], pat - start;
    assert p[start..pat] == rest[..n];
    assert pat < |p| ==> p[pat] == rest[n];
    DigitsBeforeComma(rest, n);
    LevelDecided(rest, n, default);
  }

  lemma OneMoreDigit(p: seq<byte>, start: nat, pat: nat)
    requires start <= pat < |p| && IsDigit(p[pat]) && AllDigits(p[start..pat])
    ensures AllDigits(p[start..pat + 1])
        && DigitsValue(p[start..pat + 1]) == DigitsValue(p[start..pat]) * 10 + (p[pat] - ZERO)
  {
    var more := p[start..pat + 1];
    assert more[..pat - start] == p[start..pat];
  }

  lemma DigitsBeforeComma(rest: seq<byte>, n: nat)
    requires n <= |rest| && AllDigits(rest[..n])
    ensures n <= IndexOf(rest, COMMA)
    ensures n < IndexOf(rest, COMMA) <==> n < |rest| && rest[n] != COMMA
  {
    var k := IndexOf(rest, COMMA);
    assert forall i :: 0 <= i < n ==> rest[i] == rest[..n][i];
  }

  /** The digits read so far, and the reason why reading stopped, decide the level. */
  lemma LevelDecided(rest: seq<byte>, n: nat, default: int)
    requires n <= IndexOf(rest, COMMA) && AllDigits(rest[..n])
    requires DigitsValue(rest[..n]) >= YLOG_MAX || n == |rest| || !IsDigit(rest[n])
    ensures var text, v := rest[..IndexOf(rest, COMMA)], DigitsValue(rest[..n]);
      TextLevel(text, default) == if v <= YLOG_MAX && n > 0 && n == |text| then v else default
  {
    var text := rest[..IndexOf(rest, COMMA)];
    assert text[..n] == rest[..n];
    if AllDigits(text) {
      LongerNumber(text, n);
      assert n == |text| ==> text[..n] == text;
      assert n < |text| ==> IsDigit(text[n]) && text[n] == rest[n];
    }
  }

  /** ylog_set_file_level: the single pass computes the plain definition and leaves the pattern buffer
      as it found it. */
  method SetFileLevel(fnmatch: Fnmatch, buf: array?<byte>, name: seq<byte>, default: int,
                      ghost pattern: Option<seq<byte>>)
    returns (level: int)
    requires if buf == null then pattern == None else pattern.Some? && HoldsPattern(buf, pattern.value)
    modifies if buf == null then {} else {buf}
    ensures buf != null ==> HoldsPattern(buf, pattern.value) && buf[..] == old(buf[..])
    ensures level == Resolve(fnmatch, pattern, name, default)
  {
    if buf == null {
      return default;
    }
    var pat := FindLevelText(fnmatch, buf, name, pattern.value, default);
    level := ReadLevel(buf, pat, default, pattern.value);
  }
}
