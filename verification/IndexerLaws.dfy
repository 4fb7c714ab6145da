/** What the shared-file index guarantees over whole runs of file_do. */
module IndexerLaws {
  import opened Bytes
  import opened Sequences
  import opened Indexer

  // ---- One call ----

  lemma PutUnique(shr: seq<Indexed>, f: Indexed)
    requires UniquePaths(shr)
    ensures UniquePaths(Put(shr, f))
  {
  }

  /** The list has not shrunk and every pack number has kept its path. */
  ghost predicate Extends(shr: seq<Indexed>, shr': seq<Indexed>) {
    |shr| <= |shr'| && forall i {:trigger shr[i]} :: 0 <= i < |shr| ==> shr'[i].path == shr[i].path
  }

  lemma WalkKeeps(s: State, env: Env)
    requires Inv(s)
    ensures Inv(Walk(s, env)) && Extends(s.shr, Walk(s, env).shr) && |Walk(s, env).shr| == |s.shr|
  {
  }

  /** Within a call: a file may have been taken whose stream is not open yet. */
  ghost predicate MidInv(s: State) {
    && UniquePaths(s.shr)
    && (s.hashing == -1 || (s.hashing == s.last && 0 <= s.last < |s.shr|))
    && (s.stream.Some? ==> s.hashing != -1)
  }

  lemma TakeKeeps(s: State)
    requires Inv(s)
    ensures MidInv(Take(s)) && Extends(s.shr, Take(s).shr) && |Take(s).shr| <= |s.shr| + 1
  {
    if Takes(s) {
      PutUnique(s.shr, s.queued[|s.queued| - 1]);
    }
  }

  lemma HashKeeps(s: State, env: Env)
    requires MidInv(s)
    ensures Inv(Hash(s, env).0) && Hash(s, env).0.shr == s.shr && Hash(s, env).0.queued == s.queued
  {
  }

  /** A call keeps the invariant; the list never shrinks and a pack number keeps its path. */
  lemma StepKeeps(s: State, env: Env)
    requires Inv(s)
    ensures Inv(Step(s, env).0) && Extends(s.shr, Step(s, env).0.shr)
    ensures |Step(s, env).0.shr| <= |s.shr| + 1
  {
    WalkKeeps(s, env);
    TakeKeeps(Walk(s, env));
    HashKeeps(Take(Walk(s, env)), env);
  }

  // ---- The index as a map ----

  /** Path -> modification time and size; a later entry would win. */
  ghost function View(fs: seq<Indexed>): map<CString, (int, nat)> {
    if fs == [] then map[]
    else
      var n, f := |fs| - 1, fs[|fs| - 1];
      View(fs[..n])[f.path := (f.mtime, f.length)]
  }

  /** The regular files of a walk, in the same form. */
  ghost function Snapshot(visits: seq<Visit>): map<CString, (int, nat)> {
    if visits == [] then map[]
    else
      var n, v := |visits| - 1, visits[|visits| - 1];
      if v.kind == Regular then Snapshot(visits[..n])[v.path := (v.mtime, v.length)] else Snapshot(visits[..n])
  }

  lemma ViewSnoc(fs: seq<Indexed>, f: Indexed)
    ensures View(fs + [f]) == View(fs)[f.path := (f.mtime, f.length)]
  {
    var r := fs + [f];
    assert r[..|r| - 1] == fs && r[|r| - 1] == f;
  }

  lemma {:induction false} ViewKeys(fs: seq<Indexed>)
    ensures forall p :: p in View(fs) ==> exists i :: 0 <= i < |fs| && fs[i].path == p
  {
    if fs != [] {
      var n := |fs| - 1;
      ViewKeys(fs[..n]);
      forall p | p in View(fs)
        ensures exists i :: 0 <= i < |fs| && fs[i].path == p
      {
        if p in View(fs[..n]) {
          var i :| 0 <= i < n && fs[..n][i].path == p;
          assert fs[i].path == p;
        } else {
          assert fs[n].path == p;
        }
      }
    }
  }

  lemma {:induction false} ViewAt(fs: seq<Indexed>, i: nat)
    requires UniquePaths(fs) && i < |fs|
    ensures fs[i].path in View(fs) && View(fs)[fs[i].path] == (fs[i].mtime, fs[i].length)
  {
    var n := |fs| - 1;
    if i < n {
      assert fs[..n][i] == fs[i] && fs[n].path != fs[i].path;
      ViewAt(fs[..n], i);
    }
  }

  lemma {:induction false} ViewOfChecked(shr: seq<Indexed>, readable: set<CString>)
    ensures View(Checked(shr, readable)) == View(shr)
  {
    if shr != [] {
      var n := |shr| - 1;
      assert Checked(shr, readable)[..n] == Checked(shr[..n], readable);
      ViewOfChecked(shr[..n], readable);
    }
  }

  lemma {:induction false} ViewOfReplaced(shr: seq<Indexed>, k: nat, f: Indexed)
    requires UniquePaths(shr) && k < |shr| && shr[k].path == f.path
    ensures View(shr[k := f]) == View(shr)[f.path := (f.mtime, f.length)]
  {
    var n := |shr| - 1;
    var r := shr[k := f];
    if k == n {
      assert r[..n] == shr[..n];
    } else {
      assert r[..n] == shr[..n][k := f] && shr[..n][k] == shr[k] && shr[n].path != shr[k].path;
      ViewOfReplaced(shr[..n], k, f);
    }
  }

  lemma ViewOfPut(shr: seq<Indexed>, f: Indexed)
    requires UniquePaths(shr)
    ensures View(Put(shr, f)) == View(shr)[f.path := (f.mtime, f.length)]
  {
    var k := PackOf(shr, f.path);
    if k < |shr| {
      assert Put(shr, f) == shr[k := f];
      ViewOfReplaced(shr, k, f);
    } else {
      assert Put(shr, f) == shr + [f];
      ViewSnoc(shr, f);
    }
  }

  /** The regular files of a walk have different paths. */
  ghost predicate UniqueVisits(visits: seq<Visit>) {
    forall i, j :: 0 <= i < j < |visits| && visits[i].kind == Regular && visits[j].kind == Regular ==>
      visits[i].path != visits[j].path
  }

  lemma {:induction false} NewFilesFrom(shr: seq<Indexed>, visits: seq<Visit>)
    ensures forall f :: f in NewFiles(shr, visits) ==>
      exists i :: 0 <= i < |visits| && visits[i].kind == Regular && visits[i].path == f.path
  {
    if visits != [] {
      var n := |visits| - 1;
      NewFilesFrom(shr, visits[..n]);
      forall f | f in NewFiles(shr, visits)
        ensures exists i :: 0 <= i < |visits| && visits[i].kind == Regular && visits[i].path == f.path
      {
        if f in NewFiles(shr, visits[..n]) {
          var i :| 0 <= i < n && visits[..n][i].kind == Regular && visits[..n][i].path == f.path;
          assert visits[i].path == f.path;
        } else {
          assert visits[n].kind == Regular && visits[n].path == f.path;
        }
      }
    }
  }

  lemma {:induction false} SnapshotKeys(visits: seq<Visit>)
    ensures forall p :: p in Snapshot(visits) ==>
      exists i :: 0 <= i < |visits| && visits[i].kind == Regular && visits[i].path == p
  {
    if visits != [] {
      var n := |visits| - 1;
      SnapshotKeys(visits[..n]);
      forall p | p in Snapshot(visits)
        ensures exists i :: 0 <= i < |visits| && visits[i].kind == Regular && visits[i].path == p
      {
        if p in Snapshot(visits[..n]) {
          var i :| 0 <= i < n && visits[..n][i].kind == Regular && visits[..n][i].path == p;
          assert visits[i].path == p;
        } else {
          assert visits[n].path == p;
        }
      }
    }
  }

  /** Queueing only what is new or changed loses nothing: old index plus queue is old index plus walk. */
  lemma {:induction false} NewFilesView(shr: seq<Indexed>, visits: seq<Visit>)
    requires UniquePaths(shr) && UniqueVisits(visits)
    ensures UniquePaths(NewFiles(shr, visits))
    ensures View(shr) + View(NewFiles(shr, visits)) == View(shr) + Snapshot(visits)
  {
    if visits != [] {
      var n, v := |visits| - 1, visits[|visits| - 1];
      var before := NewFiles(shr, visits[..n]);
      NewFilesView(shr, visits[..n]);
      if v.kind == Regular {
        NewPath(shr, visits);
        if Known(shr, v) {
          var i :| 0 <= i < |shr| && Same(v, shr[i]);
          ViewAt(shr, i);
          KnownOverride(View(shr), Snapshot(visits[..n]), v.path, (v.mtime, v.length));
          assert NewFiles(shr, visits) == before;
        } else {
          QueueOne(before, v);
          UpdateOuter(View(shr), View(before), v.path, (v.mtime, v.length));
          UpdateOuter(View(shr), Snapshot(visits[..n]), v.path, (v.mtime, v.length));
        }
      } else {
        assert NewFiles(shr, visits) == before;
      }
    }
  }

  /** The last regular file of a walk with different paths is not among those before it. */
  lemma NewPath(shr: seq<Indexed>, visits: seq<Visit>)
    requires UniqueVisits(visits) && visits != [] && visits[|visits| - 1].kind == Regular
    ensures var n := |visits| - 1;
      && visits[n].path !in Snapshot(visits[..n])
      && forall f :: f in NewFiles(shr, visits[..n]) ==> f.path != visits[n].path
  {
    NewFilesFrom(shr, visits[..|visits| - 1]);
    SnapshotKeys(visits[..|visits| - 1]);
  }

  lemma QueueOne(before: seq<Indexed>, v: Visit)
    requires UniquePaths(before) && forall f :: f in before ==> f.path != v.path
    ensures UniquePaths(before + [FromVisit(v)])
    ensures View(before + [FromVisit(v)]) == View(before)[v.path := (v.mtime, v.length)]
  {
    ViewSnoc(before, FromVisit(v));
    assert forall i {:trigger before[i]} :: 0 <= i < |before| ==> before[i] in before;
  }

  lemma UpdateOuter<K, V>(m: map<K, V>, q: map<K, V>, p: K, v: V)
    ensures m + q[p := v] == (m + q)[p := v]
  {
  }

  lemma KnownOverride<K, V>(m: map<K, V>, s: map<K, V>, p: K, v: V)
    requires p in m && m[p] == v && p !in s
    ensures m + s[p := v] == m + s
  {
  }

  lemma MoveOver<K, V>(m: map<K, V>, q: map<K, V>, p: K, v: V)
    requires p !in q
    ensures m + q[p := v] == m[p := v] + q
  {
  }

  // ---- Runs ----

  /** What can happen: SIGUSR1, or a call of file_do. */
  datatype Event = Signal | Call(env: Env)

  ghost function After(s: State, e: Event): State
    requires Inv(s)
  {
    match e
    case Signal => s.(recheck := true)
    case Call(env) => Step(s, env).0
  }

  ghost function Run(events: seq<Event>): (s: State)
    ensures Inv(s)
  {
    if events == [] then INITIAL
    else
      var s := Run(events[..|events| - 1]);
      var e := events[|events| - 1];
      if e.Call? then StepKeeps(s, e.env); After(s, e) else After(s, e)
  }

  /** A rescan is asked for, and nothing is queued or being hashed: the next call walks the directory. */
  ghost predicate Due(s: State) {
    s.recheck && s.queued == [] && s.hashing == -1
  }

  /** The visits of the walk that an event makes in a state. */
  ghost function WalkOf(s: State, e: Event): seq<Visit> {
    if e.Call? && Due(s) && e.env.walk.Some? then e.env.walk.value else []
  }

  /** All walks made so far, laid over one another. */
  ghost function Walked(events: seq<Event>): map<CString, (int, nat)> {
    if events == [] then map[]
    else
      var n := |events| - 1;
      Walked(events[..n]) + Snapshot(WalkOf(Run(events[..n]), events[n]))
  }

  ghost predicate WalksUnique(events: seq<Event>) {
    forall i :: 0 <= i < |events| && events[i].Call? && events[i].env.walk.Some? ==>
        UniqueVisits(events[i].env.walk.value)
  }

  lemma TakeAgrees(s: State)
    requires UniquePaths(s.shr) && UniquePaths(s.queued)
    ensures UniquePaths(Take(s).queued)
    ensures View(Take(s).shr) + View(Take(s).queued) == View(s.shr) + View(s.queued)
  {
    if Takes(s) {
      var n := |s.queued| - 1;
      var f, rest := s.queued[n], s.queued[..n];
      ViewOfPut(s.shr, f);
      ViewKeys(rest);
      MoveOver(View(s.shr), View(rest), f.path, (f.mtime, f.length));
    }
  }

  lemma WalkAgrees(s: State, env: Env)
    requires Inv(s) && UniquePaths(s.queued)
    requires env.walk.Some? ==> UniqueVisits(env.walk.value)
    ensures var w := Walk(s, env);
      && UniquePaths(w.shr) && UniquePaths(w.queued)
      && View(w.shr) + View(w.queued) == View(s.shr) + View(s.queued) + Snapshot(WalkOf(s, Call(env)))
  {
    ViewOfChecked(s.shr, env.readable);
    if Due(s) && env.walk.Some? {
      NewFilesView(Checked(s.shr, env.readable), env.walk.value);
    }
  }

  lemma CallAgrees(s: State, env: Env)
    requires Inv(s) && UniquePaths(s.queued)
    requires env.walk.Some? ==> UniqueVisits(env.walk.value)
    ensures var s' := Step(s, env).0;
      && UniquePaths(s'.queued)
      && View(s'.shr) + View(s'.queued) == View(s.shr) + View(s.queued) + Snapshot(WalkOf(s, Call(env)))
  {
    WalkAgrees(s, env);
    TakeAgrees(Walk(s, env));
    WalkKeeps(s, env);
    TakeKeeps(Walk(s, env));
    HashKeeps(Take(Walk(s, env)), env);
  }

  /** At every moment the index and what is still queued make up all the walks so far. */
  lemma {:induction false} IndexAgrees(events: seq<Event>)
    requires WalksUnique(events)
    ensures UniquePaths(Run(events).queued)
    ensures View(Run(events).shr) + View(Run(events).queued) == Walked(events)
  {
    if events != [] {
      var n := |events| - 1;
      IndexAgrees(events[..n]);
      EventAgrees(Run(events[..n]), events[n]);
      assert Run(events) == After(Run(events[..n]), events[n]);
    }
  }

  lemma EventAgrees(s: State, e: Event)
    requires Inv(s) && UniquePaths(s.queued)
    requires e.Call? && e.env.walk.Some? ==> UniqueVisits(e.env.walk.value)
    ensures UniquePaths(After(s, e).queued)
    ensures View(After(s, e).shr) + View(After(s, e).queued) == View(s.shr) + View(s.queued) + Snapshot(WalkOf(s, e))
  {
    match e
    case Signal =>
    case Call(env) => CallAgrees(s, env);
  }

  /** Once the queue is empty, the index is exactly what the walks saw, the latest one winning. */
  lemma IndexSettles(events: seq<Event>)
    requires WalksUnique(events) && Run(events).queued == []
    ensures View(Run(events).shr) == Walked(events)
  {
    IndexAgrees(events);
  }

  /** Over any further events the list never shrinks and no pack number changes its path. */
  lemma {:induction false} PacksStay(events: seq<Event>, more: seq<Event>)
    ensures Extends(Run(events).shr, Run(events + more).shr)
  {
    if more == [] {
      assert events + more == events;
    } else {
      var n := |more| - 1;
      var all := events + more;
      assert all[..|all| - 1] == events + more[..n];
      PacksStay(events, more[..n]);
      var s := Run(events + more[..n]);
      if all[|all| - 1].Call? {
        StepKeeps(s, all[|all| - 1].env);
      }
    }
  }

  // ---- What a walk queues ----

  /** The index has an entry for the path with this time and size. */
  ghost predicate Holds(shr: seq<Indexed>, path: CString, mtime: int, length: nat) {
    exists k :: 0 <= k < |shr| && shr[k].path == path && shr[k].mtime == mtime && shr[k].length == length
  }

  lemma HoldsIsView(shr: seq<Indexed>, path: CString, mtime: int, length: nat)
    requires UniquePaths(shr)
    ensures Holds(shr, path, mtime, length) <==> path in View(shr) && View(shr)[path] == (mtime, length)
  {
    if path in View(shr) {
      ViewKeys(shr);
      var k :| 0 <= k < |shr| && shr[k].path == path;
      ViewAt(shr, k);
    } else if Holds(shr, path, mtime, length) {
      var k :| 0 <= k < |shr| && shr[k].path == path && shr[k].mtime == mtime && shr[k].length == length;
      ViewAt(shr, k);
    }
  }

  /** A visit is queued exactly if it is a regular file that the index does not hold with that time and
      size; what is queued is the file as it was visited, and present. */
  lemma QueuedExactly(shr: seq<Indexed>, visits: seq<Visit>, v: Visit)
    ensures NewFiles(shr, []) == []
    ensures NewFiles(shr, visits + [v]) == NewFiles(shr, visits) +
      if v.kind == Regular && !Holds(shr, v.path, v.mtime, v.length)
      then [Indexed(v.path, v.mtime, v.length, true)] else []
  {
    var more := visits + [v];
    assert more[..|more| - 1] == visits;
    assert forall k {:trigger shr[k]} :: 0 <= k < |shr| ==>
      (Same(v, shr[k]) <==> shr[k].path == v.path && shr[k].mtime == v.mtime && shr[k].length == v.length);
  }

  /** The index holds every regular file of the walk as it is. */
  ghost predicate Unchanged(shr: seq<Indexed>, visits: seq<Visit>) {
    forall i :: 0 <= i < |visits| && visits[i].kind == Regular ==>
      Holds(shr, visits[i].path, visits[i].mtime, visits[i].length)
  }

  lemma {:induction false} NothingNew(shr: seq<Indexed>, visits: seq<Visit>)
    ensures NewFiles(shr, visits) == [] <==> Unchanged(shr, visits)
  {
    if visits != [] {
      var n := |visits| - 1;
      var front, v := visits[..n], visits[n];
      NothingNew(shr, front);
      QueuedExactly(shr, front, v);
      assert visits == front + [v];
      assert forall i {:trigger visits[i]} :: 0 <= i < n ==> visits[i] == front[i];
    }
  }

  lemma CheckedHolds(shr: seq<Indexed>, readable: set<CString>, path: CString, mtime: int, length: nat)
    ensures Holds(Checked(shr, readable), path, mtime, length) <==> Holds(shr, path, mtime, length)
  {
    var r := Checked(shr, readable);
    if Holds(shr, path, mtime, length) {
      var k :| 0 <= k < |shr| && shr[k].path == path && shr[k].mtime == mtime && shr[k].length == length;
      assert r[k].path == path && r[k].mtime == mtime && r[k].length == length;
    }
    if Holds(r, path, mtime, length) {
      var k :| 0 <= k < |r| && r[k].path == path && r[k].mtime == mtime && r[k].length == length;
      assert shr[k].path == path && shr[k].mtime == mtime && shr[k].length == length;
    }
  }

  lemma CheckedUnchanged(shr: seq<Indexed>, readable: set<CString>, visits: seq<Visit>)
    ensures Unchanged(Checked(shr, readable), visits) <==> Unchanged(shr, visits)
  {
    forall i | 0 <= i < |visits|
      ensures Holds(Checked(shr, readable), visits[i].path, visits[i].mtime, visits[i].length)
        <==> Holds(shr, visits[i].path, visits[i].mtime, visits[i].length)
    {
      CheckedHolds(shr, readable, visits[i].path, visits[i].mtime, visits[i].length);
    }
  }

  /** A rescan that finds every regular file in the index, with its time and size, queues nothing, clears the
      flag and changes no entry but its presence; any other walk queues something and hashes at once. */
  lemma UnchangedTree(s: State, env: Env)
    requires Inv(s) && Due(s) && env.walk.Some?
    ensures Unchanged(s.shr, env.walk.value) ==>
      Step(s, env) == (State(Checked(s.shr, env.readable), [], false, -1, s.last, s.stream, s.log), 0)
    ensures !Unchanged(s.shr, env.walk.value) ==> Walk(s, env).queued != [] && Walk(s, env).recheck
  {
    NothingNew(Checked(s.shr, env.readable), env.walk.value);
    CheckedUnchanged(s.shr, env.readable, env.walk.value);
  }

  /** The same in terms of the index as a map: nothing is queued if and only if it holds the snapshot. */
  lemma {:induction false} UnchangedIsView(shr: seq<Indexed>, visits: seq<Visit>)
    requires UniquePaths(shr) && UniqueVisits(visits)
    ensures Unchanged(shr, visits)
      <==> forall p :: p in Snapshot(visits) ==> p in View(shr) && View(shr)[p] == Snapshot(visits)[p]
  {
    if visits != [] {
      var n, v := |visits| - 1, visits[|visits| - 1];
      var front := visits[..n];
      UnchangedIsView(shr, front);
      HoldsIsView(shr, v.path, v.mtime, v.length);
      assert forall i {:trigger visits[i]} :: 0 <= i < n ==> visits[i] == front[i];
      if v.kind == Regular {
        NewPath(shr, visits);
      }
    }
  }

  // ---- What a call returns ----

  /** A directory without a real path is not walked: only the presence of the entries is looked up. */
  lemma NoWalk(s: State, env: Env)
    requires Inv(s) && Due(s) && env.walk.None?
    ensures Step(s, env) == (s.(shr := Checked(s.shr, env.readable)), 0)
  {
  }

  /** A call without anything to do does nothing. */
  lemma Idle(s: State, env: Env)
    requires Inv(s) && s.hashing == -1 && s.queued == [] && !s.recheck
    ensures Step(s, env) == (s, 0)
  {
  }

  /** While a file is hashed, a call adds what one read delivers, or closes the stream and reports the file
      with its pack number; the flag survives only if more is queued. */
  lemma HashingStep(s: State, env: Env)
    requires Inv(s) && s.hashing != -1
    ensures 0 <= s.hashing < |s.shr| && s.stream.Some?
    ensures env.read > 0 ==> Step(s, env) == (s.(stream := Some(s.stream.value + env.read)), 0)
    ensures env.read == 0 ==>
      Step(s, env) ==
        (State(s.shr, s.queued, s.recheck && s.queued != [], -1, s.last, None,
               s.log + [Report(s.shr[s.hashing], s.hashing)]), 0)
  {
  }

  /** A call fails exactly if it comes to a queued file that does not open; the file is reported all the same
      and hashing goes on with the next one. */
  lemma FailedOpen(s: State, env: Env)
    requires Inv(s)
    ensures Step(s, env).1 == if s.hashing == -1 && Walk(s, env).queued != [] && !env.opens then -1 else 0
    ensures Step(s, env).1 == -1 ==>
      var s' := Step(s, env).0;
      && s'.hashing == -1 && s'.stream == None && s'.queued == Walk(s, env).queued[..|Walk(s, env).queued| - 1]
      && |s'.log| == |s.log| + 1
  {
  }

  /** Every file was reported with the number of its pack: later entries never move it. */
  ghost predicate PacksNamed(s: State) {
    forall r :: r in s.log ==> 0 <= r.pack < |s.shr| && s.shr[r.pack].path == r.file.path
  }

  lemma StepNamesPacks(s: State, env: Env)
    requires Inv(s) && PacksNamed(s)
    ensures PacksNamed(Step(s, env).0)
  {
    StepKeeps(s, env);
    var m := Take(Walk(s, env));
    WalkKeeps(s, env);
    TakeKeeps(Walk(s, env));
    HashKeeps(m, env);
    var s' := Step(s, env).0;
    assert m.log == s.log;
    forall r | r in s'.log
      ensures 0 <= r.pack < |s'.shr| && s'.shr[r.pack].path == r.file.path
    {
      if r in s.log {
        assert s'.shr[r.pack].path == s.shr[r.pack].path;
      } else {
        assert r == Report(m.shr[m.last], m.last);
      }
    }
  }

  lemma {:induction false} ReportsNamePacks(events: seq<Event>)
    ensures PacksNamed(Run(events))
  {
    if events != [] {
      var n := |events| - 1;
      ReportsNamePacks(events[..n]);
      var s, e := Run(events[..n]), events[n];
      assert Run(events) == After(s, e);
      if e.Call? {
        StepNamesPacks(s, e.env);
      }
    }
  }

  // ---- Every queued file is reported exactly once ----

  ghost function Files(log: seq<Report>): (r: seq<Indexed>)
    ensures |r| == |log|
  {
    seq(|log|, i requires 0 <= i < |log| => log[i].file)
  }

  /** The files still to be reported, in the order in which they will be. */
  ghost function Pending(s: State): seq<Indexed>
    requires MidInv(s)
  {
    (if s.hashing == -1 then [] else [s.shr[s.last]]) + Reverse(s.queued)
  }

  lemma TakeReports(s: State)
    requires Inv(s)
    ensures MidInv(Take(s)) && Pending(Take(s)) == Pending(s) && Take(s).log == s.log
    ensures Pending(s) != [] <==> Take(s).hashing != -1
  {
    TakeKeeps(s);
    if Takes(s) {
      var n := |s.queued| - 1;
      assert s.queued == s.queued[..n] + [s.queued[n]];
      ReverseSnoc(s.queued[..n], s.queued[n]);
    }
  }

  lemma HashReports(s: State, env: Env)
    requires MidInv(s)
    ensures Inv(Hash(s, env).0)
    ensures Files(Hash(s, env).0.log) + Pending(Hash(s, env).0) == Files(s.log) + Pending(s)
  {
    HashKeeps(s, env);
    var h := Hash(s, env).0;
    if h.log != s.log {
      assert Files(h.log) == Files(s.log) + [s.shr[s.last]];
      assert Files(s.log) + [s.shr[s.last]] + Reverse(s.queued) == Files(s.log) + ([s.shr[s.last]] + Reverse(s.queued));
      assert [] + Reverse(s.queued) == Reverse(s.queued);
    }
  }

  /** A call moves at most one file from the pending ones to the reported ones, whatever the file
      system answers; only a walk adds pending files, the last one visited first. */
  lemma StepReports(s: State, env: Env)
    requires Inv(s)
    ensures Inv(Step(s, env).0) && MidInv(Walk(s, env))
    ensures Files(Step(s, env).0.log) + Pending(Step(s, env).0) == Files(s.log) + Pending(Walk(s, env))
    ensures Due(s) ==> Pending(Walk(s, env)) == Reverse(Walk(s, env).queued)
    ensures !Due(s) ==> Pending(Walk(s, env)) == Pending(s)
  {
    WalkKeeps(s, env);
    TakeReports(Walk(s, env));
    HashReports(Take(Walk(s, env)), env);
    assert Due(s) ==> [] + Reverse(Walk(s, env).queued) == Reverse(Walk(s, env).queued);
  }

  /** All files that the walks of a run have queued, walk by walk, each walk in reverse order. */
  ghost function Owed(events: seq<Event>): seq<Indexed> {
    if events == [] then []
    else
      var n := |events| - 1;
      var s, e := Run(events[..n]), events[n];
      Owed(events[..n]) + if e.Call? && Due(s) then Reverse(Walk(s, e.env).queued) else []
  }

  /** Reported and pending files together are the files queued by the walks: each is reported exactly
      once, none is lost and none is invented. */
  lemma {:induction false} ReportedOnce(events: seq<Event>)
    ensures Files(Run(events).log) + Pending(Run(events)) == Owed(events)
  {
    if events != [] {
      var n := |events| - 1;
      var s, e := Run(events[..n]), events[n];
      ReportedOnce(events[..n]);
      assert Run(events) == After(s, e);
      if e.Call? {
        StepReports(s, e.env);
        assert Due(s) ==> Pending(s) == [];
        assert Files(s.log) + [] == Files(s.log) && Owed(events[..n]) + [] == Owed(events[..n]);
      } else {
        assert Owed(events[..n]) + [] == Owed(events[..n]);
      }
    }
  }

  // ---- Progress ----

  /** How many reads of a file of n bytes deliver something. */
  ghost function Slices(n: nat): nat
    ensures Slices(n) == (n + 65535) / 65536
  {
    (n + HASHING_BUFSIZE - 1) / HASHING_BUFSIZE
  }

  ghost function Cost(queued: seq<Indexed>): nat {
    if queued == [] then 0
    else Cost(queued[..|queued| - 1]) + (Slices(queued[|queued| - 1].length) + 1)
  }

  /** No more has been read than the file holds. */
  ghost predicate InFile(s: State)
    requires MidInv(s)
  {
    s.stream.Some? ==> s.stream.value <= s.shr[s.last].length
  }

  function Done(stream: Option<nat>): nat {
    match stream case None => 0 case Some(n) => n
  }

  /** The number of calls that are still needed. */
  ghost function Work(s: State): nat
    requires MidInv(s) && InFile(s)
  {
    Cost(s.queued) + if s.hashing == -1 then 0 else Slices(s.shr[s.last].length - Done(s.stream)) + 1
  }

  /** The file at hand opens and reads as long as the walk said it is. */
  ghost predicate Stable(s: State, env: Env)
    requires MidInv(s) && InFile(s)
  {
    s.hashing != -1 ==>
      var left := s.shr[s.last].length - Done(s.stream);
      env.opens && env.read == if left < HASHING_BUFSIZE then left else HASHING_BUFSIZE
  }

  lemma TakeWorks(s: State)
    requires Inv(s) && InFile(s)
    ensures MidInv(Take(s)) && InFile(Take(s)) && Work(Take(s)) == Work(s)
    ensures Work(s) > 0 <==> Take(s).hashing != -1
  {
    TakeKeeps(s);
  }

  lemma SlicesStep(left: nat)
    ensures left >= HASHING_BUFSIZE ==> Slices(left) == Slices(left - HASHING_BUFSIZE) + 1
    ensures 0 < left < HASHING_BUFSIZE ==> Slices(left) == 1
    ensures Slices(0) == 0
  {
  }

  lemma HashWorks(s: State, env: Env)
    requires MidInv(s) && InFile(s) && Stable(s, env) && s.hashing != -1
    ensures var h := Hash(s, env).0;
      && Inv(h) && InFile(h) && Work(h) == Work(s) - 1
      && Hash(s, env).1 == 0 && (h.hashing == -1 && h.queued == [] ==> !h.recheck)
  {
    HashKeeps(s, env);
    SlicesStep(s.shr[s.last].length - Done(s.stream));
    if Hash(s, env).0.queued != [] {
      assert Cost(s.queued) > 0;
    }
  }

  /** A call that does not walk, on stable files: one unit of work less, no error. */
  lemma StepWorks(s: State, env: Env)
    requires Inv(s) && InFile(s) && !Due(s) && Work(s) > 0
    requires MidInv(Take(s)) && InFile(Take(s)) && Stable(Take(s), env)
    ensures var s' := Step(s, env).0;
      && Inv(s') && InFile(s') && !Due(s') && Work(s') == Work(s) - 1 && Step(s, env).1 == 0
      && (Work(s') == 0 ==> !s'.recheck)
      && Files(s'.log) + Pending(s') == Files(s.log) + Pending(s)
  {
    TakeWorks(s);
    HashWorks(Take(s), env);
    StepReports(s, env);
  }

  ghost function Calls(s: State, envs: seq<Env>): (r: State)
    requires Inv(s)
    ensures Inv(r)
    decreases |envs|
  {
    if envs == [] then s else StepKeeps(s, envs[0]); Calls(Step(s, envs[0]).0, envs[1..])
  }

  ghost predicate AllStable(s: State, envs: seq<Env>)
    requires Inv(s)
    decreases |envs|
  {
    envs != [] ==>
      && MidInv(Take(s)) && InFile(Take(s)) && Stable(Take(s), envs[0])
      && (StepKeeps(s, envs[0]); AllStable(Step(s, envs[0]).0, envs[1..]))
  }

  /** With stable files the queue is drained in exactly Work(s) calls, one slice of at most 64 KiB and
      one final empty read per file at a time, not sooner; then hashing is idle, the recheck flag is
      clear and the pending files have been reported in order. */
  lemma {:induction false} Drain(s: State, envs: seq<Env>)
    requires Inv(s) && InFile(s) && !Due(s) && AllStable(s, envs) && |envs| <= Work(s)
    ensures var r := Calls(s, envs);
      && InFile(r) && Work(r) == Work(s) - |envs|
      && (|envs| == Work(s) > 0 ==> r.queued == [] && r.hashing == -1 && !r.recheck)
      && (|envs| == Work(s) > 0 ==> Files(r.log) == Files(s.log) + Pending(s))
      && Files(r.log) + Pending(r) == Files(s.log) + Pending(s)
    decreases |envs|
  {
    if envs != [] {
      StepWorks(s, envs[0]);
      Drain(Step(s, envs[0]).0, envs[1..]);
    }
    WorkDone(Calls(s, envs));
  }

  lemma WorkDone(s: State)
    requires Inv(s) && InFile(s)
    ensures Work(s) == 0 <==> s.queued == [] && s.hashing == -1
    ensures Work(s) == 0 ==> Pending(s) == []
  {
  }

  /** The call that walks and finds something goes on like the calls after it. */
  lemma WalkThenDrain(s: State, env: Env)
    requires Inv(s) && Due(s) && Walk(s, env).queued != []
    ensures Inv(Walk(s, env)) && !Due(Walk(s, env)) && Step(s, env) == Step(Walk(s, env), env)
  {
    WalkKeeps(s, env);
  }
}
