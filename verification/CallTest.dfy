/** The callbacks and the iterator of call.c on the list of call testers. */
module CallTest {
  import opened Bytes
  import opened Sequences
  import opened LinkedList
  import opened Friends
  import opened SortedInsertion
  import opened Timespec
  import opened CallSteps
  import opened CallTable

  type CallTester = ListHead<Tester>
  type CallTesterPtr = ListHead?<Tester>

  /** call_tester_by_friend_number. */
  method ByFriendNumber(testers: CallTester, friend: uint32, ghost ts: seq<CallTester>) returns (r: CallTesterPtr)
    requires IsList(testers, ts)
    ensures var k := IndexOf(Contents(ts), friend);
      r == if k < |ts| then ts[k] else null
  {
    ghost var i, was := 0, Contents(ts);
    HeadNotEntry(testers, ts);
    WalkStep(testers, ts, 0);
    var ct := testers.next;
    while ct != testers
      invariant 0 <= i <= |ts| && ct == LinkedList.NodeAt(testers, ts, i)
      invariant IndexOf(was, friend) == i + IndexOf(was[i..], friend)
      decreases |ts| - i
    {
      WalkStep(testers, ts, i);
      assert was[i..][1..] == was[i + 1..] && was[i] == ct.entry;
      if ct.entry.friend == friend {
        return ct;
      }
      ct := ct.next;
      i := i + 1;
    }
    r := null;
  }

  /** call_tester_add_entry: the tester of the friend, a new one at its place in the list if there is none. */
  method AddEntry(testers: CallTester, friend: uint32, raw: Raw, ghost ts: seq<CallTester>)
    returns (ct: CallTester, ghost ts': seq<CallTester>)
    requires IsList(testers, ts)
    modifies [testers]`next, [testers]`prev, ts`next, ts`prev
    ensures IsList(testers, ts') && Contents(ts') == Added(old(Contents(ts)), friend, raw)
    ensures if ts' == ts then ct in ts
      else fresh(ct) && ts' == Insert(ts, Slot(old(Contents(ts)), FriendOf, friend), ct)
    ensures ct.entry.friend == friend
  {
    ghost var was := Contents(ts);
    IndexOfFirst(was, friend);
    var found := ByFriendNumber(testers, friend, ts);
    if found != null {
      return found, ts;
    }
    ct := NewEntry(testers, friend, raw, ts);
    ts' := Insert(ts, Slot(was, FriendOf, friend), ct);
    assert |ts'| == |ts| + 1;
  }

  /** The part of call_tester_add_entry for a friend without a tester. */
  method NewEntry(testers: CallTester, friend: uint32, raw: Raw, ghost ts: seq<CallTester>) returns (ct: CallTester)
    requires IsList(testers, ts)
    modifies [testers]`next, [testers]`prev, ts`next, ts`prev
    ensures fresh(ct) && ct.entry == NewTester(friend, raw)
    ensures var k := Slot(old(Contents(ts)), FriendOf, friend);
      IsList(testers, Insert(ts, k, ct)) && Contents(Insert(ts, k, ct)) == Insert(old(Contents(ts)), k, ct.entry)
  {
    ghost var was := Contents(ts);
    var ptr := FindSlot(testers, FriendOf, friend, ts);
    ct := new ListHead(NewTester(friend, raw));
    assert ([testers] + ts)[1..] == ts;
    ListKept([testers] + ts);
    ghost var k := Slot(was, FriendOf, friend);
    ListAddTail(ct, ptr, testers, ts, k);
    InsertContents(ts, k, ct, was);
  }

  lemma InsertContents(ts: seq<CallTester>, k: nat, ct: CallTester, was: seq<Tester>)
    requires k <= |ts| && Contents(ts) == was
    ensures Contents(Insert(ts, k, ct)) == Insert(was, k, ct.entry)
  {
  }

  /** The tester of a friend is overwritten in place. */
  lemma OthersKept(was: seq<Tester>, ts: seq<CallTester>, k: nat)
    requires k < |ts| == |was|
    requires forall i :: 0 <= i < |ts| && i != k ==> ts[i].entry == was[i]
    ensures Contents(ts) == was[k := ts[k].entry]
  {
  }

  /** call, as far as the table is concerned. */
  method Call(testers: CallTester, friend: uint32, raw: Raw, ghost greeter: Record, ghost ts: seq<CallTester>)
    returns (ghost ts': seq<CallTester>)
    requires IsList(testers, ts)
    modifies [testers]`next, [testers]`prev, ts`next, ts`prev
    ensures IsList(testers, ts')
    ensures Contents(ts') == Apply(greeter, old(Contents(ts)), Event.Call(friend, raw))
  {
    var ct;
    ct, ts' := AddEntry(testers, friend, raw, ts);
  }

  /** call_state. */
  method CallState(testers: CallTester, friend: uint32, state: uint32, raw: Raw, ghost greeter: Record,
                   ghost ts: seq<CallTester>)
    returns (ghost ts': seq<CallTester>)
    requires IsList(testers, ts)
    modifies [testers]`next, [testers]`prev, ts`next, ts`prev, ts`entry
    ensures IsList(testers, ts')
    ensures Contents(ts') == Apply(greeter, old(Contents(ts)), Event.CallState(friend, state, raw))
  {
    ghost var was := Contents(ts);
    ts' := ts;
    if Bit(state, STATE_ERROR) {
    } else if Bit(state, STATE_SENDING_A) {
      var ct;
      ct, ts' := AddEntry(testers, friend, raw, ts);
    } else if Bit(state, STATE_FINISHED) {
      HeadNotEntry(testers, ts);
      IndexOfFirst(was, friend);
      var ct := ByFriendNumber(testers, friend, ts);
      if ct != null {
        ct.entry := ct.entry.(step := BYE);
        OthersKept(was, ts, IndexOf(was, friend));
      }
    }
  }

  /** audio_receive_frame. */
  method AudioReceiveFrame(testers: CallTester, friend: uint32, frame: FullRecord, undefined: nat -> Sample,
                           ghost greeter: Record, ghost ts: seq<CallTester>)
    requires IsList(testers, ts)
    modifies ts`entry
    ensures IsList(testers, ts)
    ensures Contents(ts) == Apply(greeter, old(Contents(ts)), Audio(friend, frame, undefined))
  {
    ghost var was := Contents(ts);
    HeadNotEntry(testers, ts);
    IndexOfFirst(was, friend);
    var ct := ByFriendNumber(testers, friend, ts);
    if ct == null {
      return;
    }
    ghost var k := IndexOf(was, friend);
    if ct.entry.step != RECORDING {
      assert was[k := was[k]] == was;
      return;
    }
    ct.entry := ct.entry.(record := Received(ct.entry.record, frame, undefined));
    OthersKept(was, ts, k);
  }

  // ---- The iterator ----

  /** audio_playback. */
  method AudioPlayback(ct: CallTester, rec: Record, ok: bool) returns (played: nat, effects: seq<Effect>)
    modifies ct`entry
    ensures (ct.entry, played) == Playback(old(ct.entry), rec, ok)
    ensures effects == PlaybackEffects(old(ct.entry), rec)
  {
    var size := rec.samplerate * AUDIO_LENGTH % TWO_32 / 1000;
    ct.entry := ct.entry.(delay := FrameDelay(rec.samplerate));
    if ct.entry.sent < rec.samplesCount {
      effects := [SendFrame(ct.entry.friend, rec, ct.entry.sent * rec.channels, size)];
      if !ok {
        return 0, effects;
      }
      ct.entry := ct.entry.(sent := ct.entry.sent + size);
      return size, effects;
    }
    return 0, [];
  }

  /** The time of a clock whose nanoseconds fit a long. */
  predicate Clock(t: Stamp) {
    0 <= t.sec <= 9_000_000_000
  }

  /** The step of a tester before its BYE, which ends it. */
  method Advance(greeter: Record, ct: CallTester, tp: Stamp, ok: bool) returns (effects: seq<Effect>)
    requires ct.entry.step != BYE
    requires Clock(tp) && (ct.entry.step == RECORDING ==> Clock(ct.entry.callstart))
    modifies ct`entry
    ensures OneShot(greeter, old(ct.entry), tp, ok) == Some(ct.entry)
    ensures effects == OneShotEffects(greeter, old(ct.entry), tp, ok)
  {
    var played;
    effects := [];
    var friend := ct.entry.friend;
    if ct.entry.step == ENTERING {
      effects := [Mute(friend)];
      ct.entry := ct.entry.(sent := 0, step := GREETER);
    }
    match ct.entry.step {
      case GREETER =>
        var sent;
        played, sent := AudioPlayback(ct, greeter, ok);
        effects := effects + sent;
        if played == 0 {
          ct.entry := ct.entry.(callstart := tp, step := RECORDING);
          effects := effects + [Unmute(friend)];
        }
      case RECORDING =>
        var callstart := new Time(ct.entry.callstart.sec, ct.entry.callstart.nsec);
        var now := new Time(tp.sec, tp.nsec);
        var over := NanosecTimeout(callstart, now, CALL_TEST_DURATION * NSEC_PER_SEC);
        if over {
          effects := [Mute(friend)];
          ct.entry := ct.entry.(step := SAVING);
        }
      case SAVING =>
        effects := [SaveWav(ct.entry.outfile, ct.entry.record.pcm, ct.entry.record.channels,
            ct.entry.record.samplerate)];
        ct.entry := ct.entry.(sent := 0, step := SENDING);
      case SENDING =>
        effects := [OfferFile(friend, ct.entry.outfile)];
        ct.entry := ct.entry.(step := ECHOING);
      case ECHOING =>
        played, effects := AudioPlayback(ct, ct.entry.record, ok);
        if played == 0 {
          ct.entry := ct.entry.(step := BYE);
        }
    }
  }

  /** calltest_iterate_one_shot, on the tester that the walk stands on. */
  method IterateOneShot(greeter: Record, ct: CallTester, tp: Stamp, ok: bool, testers: CallTester,
                        ghost kept: seq<CallTester>, ghost ts: seq<CallTester>, ghost i: nat)
    returns (ghost kept': seq<CallTester>, effects: seq<Effect>)
    requires i < |ts| && ct == ts[i] && IsList(testers, kept + ts[i..])
    requires Clock(tp) && (ct.entry.step == RECORDING ==> Clock(ct.entry.callstart))
    modifies ct`entry, [testers]`next, [testers]`prev, kept`next, kept`prev, ts`next, ts`prev
    ensures IsList(testers, kept' + ts[i + 1..])
    ensures match OneShot(greeter, old(ct.entry), tp, ok)
      case None => kept' == kept
      case Some(t) => kept' == kept + [ct] && ct.entry == t
    ensures effects == OneShotEffects(greeter, old(ct.entry), tp, ok)
  {
    if ct.entry.step == BYE {
      effects := [Cancel(ct.entry.friend)];
      kept' := kept;
      DelOnWalk(ct, testers, kept, ts, i);
    } else {
      KeepOnWalk(testers, kept, ts, i);
      effects := Advance(greeter, ct, tp, ok);
      kept' := kept + [ct];
    }
  }

  /** What a walk has made of the testers behind it, and what it will make of the rest.  The definition
      stays folded until a proof mentions Unfold. */
  ghost predicate Halfway(greeter: Record, was: seq<Tester>, tp: Stamp, sends: uint32 -> bool, done: seq<Tester>,
                          effects: seq<Effect>, i: nat)
  {
    i <= |was| &&
    forall u {:trigger Unfold(u)} :: Unfold(u) ==>
      && Ticked(greeter, was, tp, sends) == done + Ticked(greeter, was[i..], tp, sends)
      && TickEffects(greeter, was, tp, sends) == effects + TickEffects(greeter, was[i..], tp, sends)
  }

  lemma HalfwayEnds(greeter: Record, was: seq<Tester>, tp: Stamp, sends: uint32 -> bool, done: seq<Tester>,
                    effects: seq<Effect>)
    ensures Halfway(greeter, was, tp, sends, [], [], 0)
    ensures Halfway(greeter, was, tp, sends, done, effects, |was|) ==>
      done == Apply(greeter, was, Tick(tp, sends)) && effects == TickEffects(greeter, was, tp, sends)
  {
    assert Unfold(true);
    assert was[0..] == was && was[|was|..] == [];
  }

  lemma HalfwayStep(greeter: Record, was: seq<Tester>, tp: Stamp, sends: uint32 -> bool, done: seq<Tester>,
                                       effects: seq<Effect>, i: nat)
    requires i < |was| && Halfway(greeter, was, tp, sends, done, effects, i)
    ensures var t := was[i];
      var done' := match OneShot(greeter, t, tp, sends(t.friend)) case None => done case Some(u) => done + [u];
      Halfway(greeter, was, tp, sends, done', effects + OneShotEffects(greeter, t, tp, sends(t.friend)), i + 1)
  {
    assert Unfold(true);
    var t := was[i];
    var one := Stepped(greeter, t, tp, sends);
    TailStep(greeter, was, tp, sends, i);
    Assoc(done, one, Ticked(greeter, was[i + 1..], tp, sends));
    Assoc(effects, OneShotEffects(greeter, t, tp, sends(t.friend)), TickEffects(greeter, was[i + 1..], tp, sends));
    assert done + [] == done;
  }

  lemma TailStep(greeter: Record, was: seq<Tester>, tp: Stamp, sends: uint32 -> bool, i: nat)
    requires i < |was|
    ensures Ticked(greeter, was[i..], tp, sends)
        == Stepped(greeter, was[i], tp, sends) + Ticked(greeter, was[i + 1..], tp, sends)
    ensures TickEffects(greeter, was[i..], tp, sends)
      == OneShotEffects(greeter, was[i], tp, sends(was[i].friend)) + TickEffects(greeter, was[i + 1..], tp, sends)
  {
    var rest := was[i..];
    assert rest[0] == was[i] && rest[1..] == was[i + 1..];
  }

  /** The precondition of calltest_iterate is kept by every event whose own time it holds for. */
  lemma StaysClocked(greeter: Record, was: seq<Tester>, e: Event)
    requires Sorted(was) && Clocked(was) && (e.Tick? ==> Clock(e.now))
    ensures Clocked(Apply(greeter, was, e))
  {
    forall u | u in Apply(greeter, was, e) && u.step == RECORDING
      ensures Clock(u.callstart)
    {
      Pointwise(greeter, was, e, u.friend);
      FindMember(Apply(greeter, was, e), u.friend, u);
      if Find(was, u.friend).Some? {
        var t := Find(was, u.friend).value;
        FindMember(was, u.friend, t);
        StepNeverDecreases(greeter, t, e);
      }
    }
  }

  lemma NotBehind(testers: CallTester, kept: seq<CallTester>, ts: seq<CallTester>, i: nat)
    requires i < |ts| && IsList(testers, kept + ts[i..])
    ensures ts[i] !in kept
  {
    HeadNotEntry(testers, kept + ts[i..]);
    DistinctParts(kept, ts[i..]);
    assert ts[i..][0] == ts[i];
  }

  /** The testers from position i on are as they were before the walk. */
  ghost predicate Ahead(ts: seq<CallTester>, was: seq<Tester>, i: nat)
    reads ts`entry
  {
    |ts| == |was| && forall k {:trigger ts[k]} :: i <= k < |ts| ==> ts[k].entry == was[k]
  }

  /** A clock can compare tp with the start of every recording in progress. */
  ghost predicate Clocked(was: seq<Tester>) {
    forall t :: t in was && t.step == RECORDING ==> Clock(t.callstart)
  }

  lemma KeptContents(kept: seq<CallTester>, ct: CallTester, done: seq<Tester>)
    requires |kept| == |done| && forall k {:trigger kept[k]} :: 0 <= k < |kept| ==> kept[k].entry == done[k]
    ensures Contents(kept) == done && Contents(kept + [ct]) == done + [ct.entry]
  {
  }

  /** The loop body of calltest_iterate, and the step to the saved successor. */
  method IterateNext(greeter: Record, ct: CallTester, n: CallTester, tp: Stamp, sends: uint32 -> bool,
                     testers: CallTester, effects: seq<Effect>, ghost was: seq<Tester>, ghost kept: seq<CallTester>,
                     ghost ts: seq<CallTester>, ghost i: nat)
    returns (ct': CallTester, n': CallTester, ghost kept': seq<CallTester>, effects': seq<Effect>)
    requires i < |ts| && Walking(testers, kept, ts, i, ct, n) && Distinct(ts)
    requires Ahead(ts, was, i) && Halfway(greeter, was, tp, sends, Contents(kept), effects, i)
    requires Clock(tp) && Clocked(was)
    modifies ct`entry, [testers]`next, [testers]`prev, kept`next, kept`prev, ts`next, ts`prev
    ensures Walking(testers, kept', ts, i + 1, ct', n') && (kept' == kept || kept' == kept + [ct])
    ensures Ahead(ts, was, i + 1) && Halfway(greeter, was, tp, sends, Contents(kept'), effects', i + 1)
  {
    ghost var done := Contents(kept);
    NotBehind(testers, kept, ts, i);
    HalfwayStep(greeter, was, tp, sends, done, effects, i);
    assert ts[i].entry in was;
    var more;
    kept', more := IterateOneShot(greeter, ct, tp, sends(ct.entry.friend), testers, kept, ts, i);
    KeptContents(kept, ct, done);
    effects' := effects + more;
    ct', n' := SafeNext(n, testers, kept', ts, i);
  }

  /** The loop of calltest_iterate. */
  method IterateLoop(greeter: Record, tp: Stamp, sends: uint32 -> bool, testers: CallTester, first: CallTester,
                     second: CallTester, ghost was: seq<Tester>, ghost ts: seq<CallTester>)
    returns (ghost kept: seq<CallTester>, effects: seq<Effect>)
    requires testers !in ts && Distinct(ts) && Walking(testers, [], ts, 0, first, second)
    requires Ahead(ts, was, 0) && Clock(tp) && Clocked(was)
    requires Halfway(greeter, was, tp, sends, [], [], 0)
    modifies ts`entry, [testers]`next, [testers]`prev, ts`next, ts`prev
    ensures IsList(testers, kept + ts[|ts|..]) && Halfway(greeter, was, tp, sends, Contents(kept), effects, |ts|)
    ensures forall k {:trigger kept[k]} :: 0 <= k < |kept| ==> kept[k] in ts
  {
    ghost var i := 0;
    var ct, n := first, second;
    kept, effects := [], [];
    assert Contents(kept) == [];
    while ct != testers
      invariant Walking(testers, kept, ts, i, ct, n)
      invariant forall k {:trigger kept[k]} :: 0 <= k < |kept| ==> kept[k] in ts
      invariant Ahead(ts, was, i) && Halfway(greeter, was, tp, sends, Contents(kept), effects, i)
      decreases |ts| - i
    {
      ct, n, kept, effects := IterateNext(greeter, ct, n, tp, sends, testers, effects, was, kept, ts, i);
      i := i + 1;
    }
  }

  /** calltest_iterate: one walk steps every tester once and destroys those in BYE. */
  method Iterate(greeter: Record, tp: Stamp, sends: uint32 -> bool, testers: CallTester, ghost ts: seq<CallTester>)
    returns (ghost kept: seq<CallTester>, effects: seq<Effect>)
    requires IsList(testers, ts) && Clock(tp) && Clocked(Contents(ts))
    modifies ts`entry, [testers]`next, [testers]`prev, ts`next, ts`prev
    ensures IsList(testers, kept)
    ensures Contents(kept) == Apply(greeter, old(Contents(ts)), Tick(tp, sends))
    ensures effects == TickEffects(greeter, old(Contents(ts)), tp, sends)
    ensures forall k {:trigger kept[k]} :: 0 <= k < |kept| ==> kept[k] in ts
  {
    ghost var was := Contents(ts);
    HalfwayEnds(greeter, was, tp, sends, [], []);
    HeadNotEntry(testers, ts);
    var ct, n := SafeFirst(testers, ts);
    kept, effects := IterateLoop(greeter, tp, sends, testers, ct, n, was, ts);
    assert kept + ts[|ts|..] == kept;
    HalfwayEnds(greeter, was, tp, sends, Contents(kept), effects);
  }

  /** calltest_iteration_interval. */
  method IterationInterval(testers: CallTester, ghost ts: seq<CallTester>) returns (ldelay: nat)
    requires IsList(testers, ts)
    ensures ldelay == Interval(Contents(ts))
  {
    ghost var i, was := 0, Contents(ts);
    ldelay := MAX_NS;
    HeadNotEntry(testers, ts);
    WalkStep(testers, ts, 0);
    var ct := testers.next;
    while ct != testers
      invariant 0 <= i <= |ts| && ct == LinkedList.NodeAt(testers, ts, i)
      invariant ldelay == Interval(was[..i])
      decreases |ts| - i
    {
      WalkStep(testers, ts, i);
      assert was[..i + 1][..i] == was[..i] && was[..i + 1][i] == ct.entry;
      ldelay := if ct.entry.delay > ldelay then ldelay else ct.entry.delay;
      ct := ct.next;
      i := i + 1;
    }
    assert was[..i] == was;
  }
}
