/** The shared-file index as it runs: static variables updated call by call. */
module SharedIndex {
  import opened Bytes
  import opened Indexer

  class Index {
    var shrList: seq<Indexed>
    var newList: seq<Indexed>
    var fileRecheck: bool
    var hashing: int
    var last: int
    var stream: Option<nat>
    var reported: seq<Report>

    /** The static variables as one value. */
    ghost function Abs(): State
      reads this
    {
      State(shrList, newList, fileRecheck, hashing, last, stream, reported)
    }

    constructor ()
      ensures Abs() == INITIAL
    {
      shrList, newList, fileRecheck, hashing, last, stream, reported := [], [], false, -1, 0, None, [];
    }

    /** file_recheck_callback, for SIGUSR1. */
    method RecheckCallback()
      modifies this`fileRecheck
      ensures Abs() == old(Abs()).(recheck := true)
    {
      fileRecheck := true;
    }

    /** file_walk_callback: queues a regular file that the index does not hold as it is. */
    method WalkCallback(v: Visit)
      modifies this`newList
      ensures newList == old(newList) + if v.kind == Regular && !Known(shrList, v) then [FromVisit(v)] else []
      ensures newList == old(newList) <==>
        v.kind != Regular ||
        exists k :: 0 <= k < |shrList| && shrList[k].path == v.path && shrList[k].mtime == v.mtime
          && shrList[k].length == v.length
    {
      if v.kind == Regular {
        var n := -1;
        var i := 0;
        while i < |shrList|
          invariant 0 <= i <= |shrList|
          invariant n == -1 && forall j :: 0 <= j < i ==> !Same(v, shrList[j])
        {
          if v.path == shrList[i].path && v.mtime == shrList[i].mtime && v.length == shrList[i].length {
            n := i;
            assert Same(v, shrList[i]);
            break;
          }
          i := i + 1;
        }
        if n == -1 {
          newList := newList + [Indexed(v.path, v.mtime, v.length, true)];
        }
      }
    }

    /** file_walk_shared: ftw calls back for every file. */
    method WalkShared(walk: Option<seq<Visit>>) returns (rc: int)
      requires newList == []
      modifies this`newList, this`fileRecheck
      ensures walk.None? ==> rc == -1 && newList == [] && fileRecheck == old(fileRecheck)
      ensures walk.Some? ==> rc == 0 && newList == NewFiles(shrList, walk.value)
      ensures walk.Some? ==> fileRecheck == if newList == [] then false else old(fileRecheck)
    {
      if walk == None {
        return -1;
      }
      var visits := walk.value;
      var i := 0;
      while i < |visits|
        invariant 0 <= i <= |visits|
        invariant newList == NewFiles(shrList, visits[..i])
        invariant fileRecheck == old(fileRecheck)
      {
        assert visits[..i + 1][..i] == visits[..i];
        WalkCallback(visits[i]);
        i := i + 1;
      }
      assert visits[..i] == visits;
      if |newList| == 0 {
        fileRecheck := false;
      }
      rc := 0;
    }

    /** file_exists_shared. */
    method ExistsShared(readable: set<CString>)
      modifies this`shrList
      ensures shrList == Checked(old(shrList), readable)
    {
      var i := 0;
      while i < |shrList|
        invariant 0 <= i <= |shrList| == |old(shrList)|
        invariant forall j {:trigger shrList[j]} :: 0 <= j < |shrList| ==>
          shrList[j] == if j < i then old(shrList)[j].(present := old(shrList)[j].path in readable) else old(shrList)[j]
      {
        if shrList[i].path !in readable {
          shrList := shrList[i := shrList[i].(present := false)];
        } else {
          shrList := shrList[i := shrList[i].(present := true)];
        }
        i := i + 1;
      }
    }

    /** The states of file_checksumcalc_noblock: open on first use, one read, close at the end. */
    method ChecksumSlice(env: Env) returns (rc: int)
      modifies this`stream
      ensures (rc, stream) == Slice(old(stream), env)
      ensures rc == if old(stream) == None && !env.opens then -1 else env.read
    {
      if stream == None {
        if !env.opens {
          return -1;
        }
        stream := Some(0);
      }
      if env.read > 0 {
        stream := Some(stream.value + env.read);
        rc := env.read;
      } else {
        stream := None;
        rc := 0;
      }
    }

    /** The dequeueing part of file_do: the last queued file replaces the entry with its path, or is
        appended, and becomes the file to hash. */
    method TakeLast()
      modifies this`shrList, this`newList, this`last, this`hashing
      ensures Abs() == Take(old(Abs()))
    {
      if |newList| > 0 && hashing == -1 {
        var i := |newList| - 1;
        var n := -1;
        var t := 0;
        while t < |shrList| && n == -1
          invariant 0 <= t <= |shrList|
          invariant n == -1 ==> PackOf(shrList, newList[i].path) == t + PackOf(shrList[t..], newList[i].path)
          invariant n != -1 ==> n == i && t < |shrList| && t == PackOf(shrList, newList[i].path)
          decreases |shrList| - t, n == -1
        {
          assert shrList[t..][1..] == shrList[t + 1..];
          if newList[i].path == shrList[t].path {
            n := i;
          } else {
            t := t + 1;
          }
        }
        if n == -1 {
          last := |shrList|;
          shrList := shrList + [newList[i]];
        } else {
          shrList := shrList[t := newList[n]];
          last := t;
        }
        newList := newList[..i];
        hashing := last;
      }
    }

    /** The hashing part of file_do. */
    method HashLast(env: Env) returns (rc: int)
      requires hashing >= 0 ==> 0 <= last < |shrList|
      modifies this
      ensures (Abs(), rc) == Hash(old(Abs()), env)
    {
      rc := 0;
      if hashing >= 0 {
        var slice := ChecksumSlice(env);
        if slice <= 0 {
          hashing := -1;
          if |newList| == 0 {
            fileRecheck := false;
          }
          reported := reported + [Report(shrList[last], last)];
        }
        if slice < 0 {
          return -1;
        }
      }
    }

    /** file_do. */
    method FileDo(env: Env) returns (rc: int)
      requires Inv(Abs())
      modifies this
      ensures (Abs(), rc) == Step(old(Abs()), env)
    {
      if fileRecheck && |newList| == 0 && hashing == -1 {
        ExistsShared(env.readable);
        var walked := WalkShared(env.walk);
      }
      assert Abs() == Walk(old(Abs()), env);
      TakeLast();
      rc := HashLast(env);
    }
  }
}
