/** The per-file level cache of ylog.c: which messages pass while levels and patterns change. */
module Ylog {
  import opened Bytes
  import opened LogLevels
  import opened Numerals
  import opened Sequences

  const YLOG_WARN := 2
  const YLOG_UNINITIALIZED := YLOG_MAX + 1

  // ---- File names ----

  const DOT: byte := 46

  /** .c, .h, .cc, .cpp and .hpp */
  predicate Extension(e: seq<byte>) {
    e == [DOT, 99] || e == [DOT, 104] || e == [DOT, 99, 99] || e == [DOT, 99, 112, 112] || e == [DOT, 104, 112, 112]
  }

  /** The first n bytes of the file name are followed by one of the extensions. */
  predicate StemEnds(filename: seq<byte>, n: nat) {
    1 <= n <= |filename| && Extension(filename[n..])
  }

  /** The name a file is registered under: without its extension, if it has one. */
  ghost predicate Stripped(filename: seq<byte>, name: seq<byte>) {
    name <= filename &&
    (StemEnds(filename, |name|) || (name == filename && forall n: nat :: !StemEnds(filename, n)))
  }

  /** The end of the file name, byte by byte, decides. */
  predicate EndsInExtension(f: seq<byte>, n: nat) {
    var l := |f|;
    || (l > 2 && n == l - 2 && (f[l - 1] == 99 || f[l - 1] == 104) && f[l - 2] == DOT)
    || (l > 3 && n == l - 3 && f[l - 1] == 99 && f[l - 2] == 99 && f[l - 3] == DOT)
    || (l > 4 && n == l - 4 && f[l - 1] == 112 && f[l - 2] == 112 && (f[l - 3] == 99 || f[l - 3] == 104)
        && f[l - 4] == DOT)
  }

  lemma StemByBytes(f: seq<byte>, n: nat)
    ensures StemEnds(f, n) <==> EndsInExtension(f, n)
  {
    var l := |f|;
    if 1 <= n && n + 2 == l {
      assert f[n..] == [f[n], f[n + 1]];
    } else if 1 <= n && n + 3 == l {
      assert f[n..] == [f[n], f[n + 1], f[n + 2]];
    } else if 1 <= n && n + 4 == l {
      assert f[n..] == [f[n], f[n + 1], f[n + 2], f[n + 3]];
    }
  }

  lemma StrippedUnique(filename: seq<byte>, a: seq<byte>, b: seq<byte>)
    requires Stripped(filename, a) && Stripped(filename, b)
    ensures a == b
  {
    StemByBytes(filename, |a|);
    StemByBytes(filename, |b|);
    assert a == filename[..|a|] && b == filename[..|b|];
  }

  ghost predicate SourceExtension(e: seq<byte>) {
    e == Ascii(".c") || e == Ascii(".h") || e == Ascii(".cc") || e == Ascii(".cpp") || e == Ascii(".hpp")
  }

  lemma ExtensionSpelled(e: seq<byte>)
    ensures Extension(e) <==> SourceExtension(e)
  {
    assert Ascii(".c") == [DOT, 99] && Ascii(".h") == [DOT, 104] && Ascii(".cc") == [DOT, 99, 99];
    assert Ascii(".cpp") == [DOT, 99, 112, 112] && Ascii(".hpp") == [DOT, 104, 112, 112];
  }

  /** A file is registered without its extension, if that is one of the five and does not stand alone, and
      otherwise as it is. */
  lemma NameRegistered(filename: seq<byte>, name: seq<byte>)
    requires Stripped(filename, name)
    ensures forall stem, e :: filename == stem + e && stem != [] && SourceExtension(e) ==> name == stem
    ensures (forall e :: SourceExtension(e) && EndsIn(filename, e) ==> |e| == |filename|) ==> name == filename
  {
    forall stem, e | filename == stem + e && stem != [] && SourceExtension(e)
      ensures name == stem
    {
      ExtensionSpelled(e);
      assert filename[|stem|..] == e;
      StrippedUnique(filename, name, stem);
    }
    if name != filename {
      var e := filename[|name|..];
      ExtensionSpelled(e);
      assert EndsIn(filename, e) && |e| < |filename|;
    }
  }

  lemma CutIsStripped(filename: seq<byte>, cut: nat)
    requires cut <= |filename|
    requires EndsInExtension(filename, cut) || (cut == |filename| && forall n: nat :: !EndsInExtension(filename, n))
    ensures Stripped(filename, filename[..cut])
  {
    forall n: nat
      ensures StemEnds(filename, n) <==> EndsInExtension(filename, n)
    {
      StemByBytes(filename, n);
    }
    assert cut == |filename| ==> filename[..cut] == filename;
  }

  /** Where the extension starts; the length if there is none. */
  method ExtensionStart(f: seq<byte>) returns (cut: nat)
    ensures cut <= |f| && (EndsInExtension(f, cut) || (cut == |f| && forall n: nat :: !EndsInExtension(f, n)))
  {
    var l := |f|;
    cut := l;
    if l > 2 && (f[l - 1] == 99 || f[l - 1] == 104) && f[l - 2] == DOT {
      cut := l - 2;
    } else if l > 3 && f[l - 1] == 99 && f[l - 2] == 99 && f[l - 3] == DOT {
      cut := l - 3;
    } else if l > 4 && f[l - 1] == 112 && f[l - 2] == 112 && (f[l - 3] == 99 || f[l - 3] == 104) && f[l - 4] == DOT {
      cut := l - 4;
    }
  }

  /** ylog_set_file_name: the copy of the file name is cut in place. */
  method SetFileName(filename: CString) returns (name: seq<byte>)
    ensures Stripped(filename, name)
  {
    var l := |filename|;
    var f := new byte[l + 1](i => if 0 <= i < l then filename[i] else NUL);
    var cut := ExtensionStart(filename);
    f[cut] := NUL;
    CutIsStripped(filename, cut);
    forall i | 0 <= i < cut ensures f[i] == filename[i] {}
    NameBefore(f[..], filename, cut);
    return CStr(f[..]);
  }

  lemma NameBefore(s: seq<byte>, filename: CString, cut: nat)
    requires cut <= |filename| && cut < |s| && s[cut] == NUL
    requires forall i :: 0 <= i < cut ==> s[i] == filename[i]
    ensures CStr(s) == filename[..cut]
  {
    assert s == filename[..cut] + [NUL] + s[cut + 1..];
    CStrTerminated(filename[..cut], s[cut + 1..]);
  }

  // ---- The registered files ----

  /** ylog_file_t: one per source file of the program. */
  class YlogFile {
    var level: int
    var name: seq<byte>
    var next: YlogFile?

    constructor ()
      ensures level == YLOG_UNINITIALIZED == 10000 && next == null
    {
      level, name, next := YLOG_UNINITIALIZED, [], null;
    }
  }

  function NodeAt(fs: seq<YlogFile>, i: nat): YlogFile? {
    if i < |fs| then fs[i] else null
  }

  /** Following the next pointers from f visits fs and ends. */
  ghost predicate Chain(f: YlogFile?, fs: seq<YlogFile>)
    reads fs
  {
    f == NodeAt(fs, 0) && forall i :: 0 <= i < |fs| ==> fs[i].next == NodeAt(fs, i + 1)
  }

  /** A list whose node i is its first node again never ends. */
  lemma {:induction false} NeverEnds(fs: seq<YlogFile>, i: nat, k: nat, visited: seq<YlogFile>)
    requires k < i < |fs| && fs[i] == fs[0]
    requires forall j :: 0 <= j < i ==> fs[j].next == fs[j + 1]
    ensures !Chain(fs[k], visited)
    decreases |visited|
  {
    if Chain(fs[k], visited) {
      assert Chain(fs[k].next, visited[1..]);
      NeverEnds(fs, i, if k + 1 < i then k + 1 else 0, visited[1..]);
    }
  }

  /** Putting a file in front of a list that already holds it closes a circle. */
  lemma TwiceInList(file: YlogFile, before: seq<YlogFile>)
    requires file in before && file.next == before[0] && Distinct(before)
    requires forall j :: 0 <= j < |before| && before[j] != file ==> before[j].next == NodeAt(before, j + 1)
    ensures forall fs :: !Chain(file, fs)
  {
    var i :| 0 <= i < |before| && before[i] == file;
    forall fs ensures !Chain(file, fs) {
      NeverEnds([file] + before, i + 1, 0, fs);
    }
  }

  /** A registered file looks uninitialized exactly if 10000 is the default level and no segment
      gives the file a level of its own. */
  lemma LooksUninitialized(fnmatch: Fnmatch, text: Option<CString>, name: seq<byte>, default: int)
    ensures Resolve(fnmatch, text, name, default) == YLOG_UNINITIALIZED <==>
      default == YLOG_UNINITIALIZED &&
      match text
      case None => true
      case Some(p) =>
        match Choose(fnmatch, Segments(p), name)
        case None => true
        case Some(level) => level == [] || !AllDigits(level) || DigitsValue(level) > YLOG_MAX
  {
  }

  /** The global configuration and the list of files. */
  class Ylog {
    const fnmatch: Fnmatch
    var files: YlogFile?
    var defaultLevel: int
    var pattern: array?<byte>
    /** The files registered so far, newest first. */
    ghost var registered: seq<YlogFile>
    /** The pattern string. */
    ghost var text: Option<CString>

    /** The level that the configuration gives a file of this name. */
    ghost function Resolved(name: seq<byte>): int
      reads this
    {
      Resolve(fnmatch, text, name, defaultLevel)
    }

    /** The pattern buffer, if there is one, holds the pattern string. */
    ghost predicate PatternKept()
      reads this, pattern
    {
      if pattern == null then text == None else text.Some? && HoldsPattern(pattern, text.value)
    }

    ghost predicate Valid()
      reads this, registered, pattern
    {
      && Chain(files, registered) && Distinct(registered)
      && PatternKept()
      && forall f :: f in registered ==> f.level == Resolved(f.name)
    }

    constructor (fnmatch: Fnmatch)
      ensures Valid() && registered == [] && text == None && defaultLevel == YLOG_WARN == 2
    {
      this.fnmatch := fnmatch;
      files, defaultLevel, pattern, registered, text := null, YLOG_WARN, null, [], None;
    }

    /** Links the file in at the front.  A file that is in the list already closes a circle. */
    method PutFirst(file: YlogFile)
      requires Chain(files, registered) && Distinct(registered)
      modifies this`files, this`registered, file`next
      ensures registered == [file] + old(registered)
      ensures if old(file in registered) then forall fs :: !Chain(files, fs)
        else Chain(files, registered) && Distinct(registered)
    {
      ghost var before := registered;
      file.next := files;
      files := file;
      registered := [file] + registered;
      if file in before {
        TwiceInList(file, before);
      }
    }

    /** The first half of ylog_impl: the file gets its name and level and heads the list. */
    method Register(file: YlogFile, filename: CString)
      requires Valid()
      modifies this`files, this`registered, file, pattern
      ensures if old(file in registered) then forall fs :: !Chain(files, fs) else Valid()
      ensures registered == [file] + old(registered)
      ensures Stripped(filename, file.name) && file.level == Resolved(file.name)
    {
      file.name := SetFileName(filename);
      SetFileLevel(file);
      PutFirst(file);
    }

    /** The ylog macro and ylog_impl, up to the call of the handler: does the message pass?  A file that
        is registered but looks uninitialized is put into the list a second time, which closes a circle. */
    method Log(file: YlogFile, level: int, filename: CString) returns (passed: bool)
      requires Valid()
      requires file.level == YLOG_UNINITIALIZED || file in registered
      modifies this`files, this`registered, file, pattern
      ensures var again := old(file in registered && file.level == YLOG_UNINITIALIZED) && level <= YLOG_UNINITIALIZED;
        if again then forall fs :: !Chain(files, fs) else Valid()
      ensures 0 <= defaultLevel <= YLOG_MAX ==> Valid()
      ensures old(file !in registered) ==>
        registered == if level <= YLOG_UNINITIALIZED then [file] + old(registered) else old(registered)
      ensures old(file in registered && file.level != YLOG_UNINITIALIZED) ==>
        registered == old(registered) && file.name == old(file.name)
      ensures old(file !in registered) && level <= YLOG_UNINITIALIZED ==> Stripped(filename, file.name)
      ensures passed == (file in registered && level <= Resolved(file.name) && level <= old(file.level))
    {
      if 0 <= defaultLevel <= YLOG_MAX {
        ResolvedLevelInRange(fnmatch, text, file.name, defaultLevel);
      }
      if level > file.level {
        return false;
      }
      if file.level == YLOG_UNINITIALIZED {
        Register(file, filename);
        if level > file.level {
          return false;
        }
      }
      return true;
    }

    /** ylog_set_file_level, on a file. */
    method SetFileLevel(file: YlogFile)
      requires PatternKept()
      modifies file`level, pattern
      ensures PatternKept() && file.level == Resolved(file.name)
    {
      file.level := LogLevels.SetFileLevel(fnmatch, pattern, file.name, defaultLevel, text);
    }

    /** Copies the new pattern. */
    method SetPattern(pat: Option<CString>)
      modifies this`pattern, this`text
      ensures PatternKept() && text == pat && (pattern != null ==> fresh(pattern))
    {
      pattern, text := null, pat;
      if pat.Some? {
        var copy := pat.value;
        pattern := new byte[|copy| + 1](i => if 0 <= i < |copy| then copy[i] else NUL);
        assert pattern[..|copy|] == copy;
      }
    }

    /** The loop of ylog_set_level. */
    method SetFileLevels()
      requires Chain(files, registered) && Distinct(registered) && PatternKept()
      modifies pattern, registered`level
      ensures Chain(files, registered) && PatternKept()
      ensures forall i :: 0 <= i < |registered| ==>
        registered[i].level == Resolve(fnmatch, text, registered[i].name, defaultLevel)
    {
      var f := files;
      ghost var k := 0;
      while f != null
        invariant 0 <= k <= |registered| && f == NodeAt(registered, k)
        invariant Chain(files, registered) && PatternKept()
        invariant forall i :: 0 <= i < k ==>
          registered[i].level == Resolve(fnmatch, text, registered[i].name, defaultLevel)
        decreases |registered| - k
      {
        SetFileLevel(f);
        f := f.next;
        k := k + 1;
      }
    }

    /** ylog_set_level: every registered file gets its level under the new configuration. */
    method SetLevel(defaultLevel: int, pat: Option<CString>)
      requires Valid()
      modifies this`defaultLevel, this`pattern, this`text, registered`level
      ensures Valid() && this.defaultLevel == defaultLevel && text == pat
    {
      this.defaultLevel := defaultLevel;
      SetPattern(pat);
      SetFileLevels();
    }
  }
}
