/** The incremental index of the shared directory kept by fileop.c: what one call does, as a function. */
module Indexer {
  import opened Bytes

  const HASHING_BUFSIZE := 65536

  /** A FileNode as the index uses it; the hash itself is not modelled. */
  datatype Indexed = Indexed(path: CString, mtime: int, length: nat, present: bool)

  /** What ftw reports: FTW_F, FTW_DNR or anything else. */
  datatype Kind = Regular | Unreadable | Other

  datatype Visit = Visit(path: CString, mtime: int, length: nat, kind: Kind)

  /** The file system as one call of file_do finds it: the walk (None if the directory has no real
      path), the readable files, whether the next file to hash opens, and what one read delivers. */
  datatype Env = Env(walk: Option<seq<Visit>>, readable: set<CString>, opens: bool, read: nat)

  /** One invocation of the callback for new files. */
  datatype Report = Report(file: Indexed, pack: nat)

  /** The static variables: shr_list, new_list, file_recheck, hashing, last, the hash stream (None
      when closed, else the bytes read so far), and the callbacks made. */
  datatype State = State(shr: seq<Indexed>, queued: seq<Indexed>, recheck: bool, hashing: int, last: int,
                         stream: Option<nat>, log: seq<Report>)

  const INITIAL := State([], [], false, -1, 0, None, [])

  // ---- One call, in its three parts ----

  predicate Same(v: Visit, f: Indexed) {
    v.path == f.path && v.mtime == f.mtime && v.length == f.length
  }

  /** Whether the walk already knows the file as it is. */
  predicate Known(shr: seq<Indexed>, v: Visit) {
    exists i :: 0 <= i < |shr| && Same(v, shr[i])
  }

  function FromVisit(v: Visit): Indexed {
    Indexed(v.path, v.mtime, v.length, true)
  }

  /** What the walk queues. */
  function NewFiles(shr: seq<Indexed>, visits: seq<Visit>): seq<Indexed> {
    if visits == [] then []
    else
      var n, v := |visits| - 1, visits[|visits| - 1];
      NewFiles(shr, visits[..n]) + if v.kind == Regular && !Known(shr, v) then [FromVisit(v)] else []
  }

  function Checked(shr: seq<Indexed>, readable: set<CString>): (r: seq<Indexed>)
    ensures |r| == |shr|
    ensures forall i {:trigger r[i]} :: 0 <= i < |shr| ==> r[i] == shr[i].(present := shr[i].path in readable)
  {
    seq(|shr|, i requires 0 <= i < |shr| => shr[i].(present := shr[i].path in readable))
  }

  predicate Walks(s: State) {
    s.recheck && s.queued == [] && s.hashing == -1
  }

  function Walk(s: State, env: Env): State {
    if !Walks(s) then s
    else
      var shr := Checked(s.shr, env.readable);
      match env.walk
      case None => s.(shr := shr)
      case Some(visits) =>
        var queued := NewFiles(shr, visits);
        s.(shr := shr, queued := queued, recheck := if queued == [] then false else s.recheck)
  }

  /** The pack number of a path; the length of the list if it has none. */
  function PackOf(shr: seq<Indexed>, path: CString): (k: nat)
    ensures k <= |shr|
    ensures k < |shr| ==> shr[k].path == path
    ensures forall i :: 0 <= i < k ==> shr[i].path != path
  {
    if shr == [] then 0 else if shr[0].path == path then 0 else 1 + PackOf(shr[1..], path)
  }

  predicate Takes(s: State) {
    s.queued != [] && s.hashing == -1
  }

  function Put(shr: seq<Indexed>, f: Indexed): (r: seq<Indexed>)
    ensures PackOf(shr, f.path) < |r|
  {
    var k := PackOf(shr, f.path);
    if k < |shr| then shr[k := f] else shr + [f]
  }

  function Take(s: State): State {
    if !Takes(s) then s
    else
      var n := |s.queued| - 1;
      var k := PackOf(s.shr, s.queued[n].path);
      s.(shr := Put(s.shr, s.queued[n]), queued := s.queued[..n], last := k, hashing := k)
  }

  /** One slice of hashing: -1 if the file does not open, else what was read, 0 at the end. */
  function Slice(stream: Option<nat>, env: Env): (int, Option<nat>) {
    if stream == None && !env.opens then (-1, None)
    else
      var done := if stream == None then 0 else stream.value;
      if env.read > 0 then (env.read, Some(done + env.read)) else (0, None)
  }

  function Hash(s: State, env: Env): (State, int)
    requires s.hashing >= 0 ==> 0 <= s.last < |s.shr|
  {
    if s.hashing < 0 then (s, 0)
    else
      var (rc, stream) := Slice(s.stream, env);
      if rc > 0 then (s.(stream := stream), 0)
      else
        (s.(stream := stream, hashing := -1, recheck := if s.queued == [] then false else s.recheck,
            log := s.log + [Report(s.shr[s.last], s.last)]),
         rc)
  }

  /** Between two calls: no path is indexed twice, hashing is off or names a pack, and the hash stream
      is open exactly while hashing is on. */
  ghost predicate Inv(s: State) {
    && UniquePaths(s.shr)
    && (s.hashing == -1 || (s.hashing == s.last && 0 <= s.last < |s.shr|))
    && (s.stream.Some? <==> s.hashing != -1)
  }

  ghost predicate UniquePaths(fs: seq<Indexed>) {
    forall i, j :: 0 <= i < j < |fs| ==> fs[i].path != fs[j].path
  }

  /** file_do: the new state and the return value. */
  function Step(s: State, env: Env): (State, int)
    requires s.hashing >= 0 ==> 0 <= s.last < |s.shr|
  {
    Hash(Take(Walk(s, env)), env)
  }
}
