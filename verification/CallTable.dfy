/** The table of call tests of call.c over whole runs of events. */
module CallTable {
  import opened Bytes
  import opened Sequences
  import opened Friends
  import opened SortedInsertion
  import opened Timespec
  import opened CallSteps

  function FriendOf(t: Tester): int {
    t.friend
  }

  /** The position of the first tester for a friend; the length if there is none. */
  ghost function IndexOf(ts: seq<Tester>, friend: uint32): (k: nat)
    ensures k <= |ts|
  {
    if ts == [] || ts[0].friend == friend then 0 else 1 + IndexOf(ts[1..], friend)
  }

  ghost function Find(ts: seq<Tester>, friend: uint32): Option<Tester> {
    var k := IndexOf(ts, friend);
    if k < |ts| then Some(ts[k]) else None
  }

  lemma {:induction false} IndexOfFirst(ts: seq<Tester>, friend: uint32)
    ensures IndexOf(ts, friend) < |ts| ==> ts[IndexOf(ts, friend)].friend == friend
    ensures forall i :: 0 <= i < IndexOf(ts, friend) ==> ts[i].friend != friend
  {
    if ts != [] && ts[0].friend != friend {
      IndexOfFirst(ts[1..], friend);
      assert forall i :: 1 <= i < |ts| ==> ts[i] == ts[1..][i - 1];
    }
  }

  // ---- What the events do ----

  /** call_tester_add_entry. */
  ghost function Added(ts: seq<Tester>, friend: uint32, raw: Raw): seq<Tester> {
    if Find(ts, friend).Some? then ts else Insert(ts, Slot(ts, FriendOf, friend), NewTester(friend, raw))
  }

  /** An event that concerns one friend's tester, if there is one. */
  ghost function Touched(greeter: Record, ts: seq<Tester>, friend: uint32, e: Event): seq<Tester>
    requires !e.Tick?
  {
    var k := IndexOf(ts, friend);
    if k < |ts| then ts[k := LifeStep(greeter, ts[k], e).value] else ts
  }

  /** What one step leaves of a tester: itself, or nothing. */
  ghost function Stepped(greeter: Record, t: Tester, now: Stamp, sends: uint32 -> bool): seq<Tester> {
    match OneShot(greeter, t, now, sends(t.friend)) case None => [] case Some(t') => [t']
  }

  lemma SteppedIsTester(greeter: Record, t: Tester, now: Stamp, sends: uint32 -> bool)
    ensures var r := Stepped(greeter, t, now, sends);
      if t.step == BYE then r == [] && OneShot(greeter, t, now, sends(t.friend)) == None
      else |r| == 1 && r[0].friend == t.friend && OneShot(greeter, t, now, sends(t.friend)) == Some(r[0])
  {
    StepNeverDecreases(greeter, t, Tick(now, sends));
  }

  /** calltest_iterate: every tester takes one step. */
  ghost function Ticked(greeter: Record, ts: seq<Tester>, now: Stamp, sends: uint32 -> bool): seq<Tester>
    decreases |ts|
  {
    if ts == [] then []
    else Stepped(greeter, ts[0], now, sends) + Ticked(greeter, ts[1..], now, sends)
  }

  ghost function TickEffects(greeter: Record, ts: seq<Tester>, now: Stamp, sends: uint32 -> bool): seq<Effect>
    decreases |ts|
  {
    if ts == [] then []
    else OneShotEffects(greeter, ts[0], now, sends(ts[0].friend)) + TickEffects(greeter, ts[1..], now, sends)
  }

  ghost function Apply(greeter: Record, ts: seq<Tester>, e: Event): seq<Tester> {
    match e
    case Call(friend, raw) => Added(ts, friend, raw)
    case CallState(friend, state, raw) =>
      if Announces(state) then Added(ts, friend, raw)
      else if Finishes(state) then Touched(greeter, ts, friend, e)
      else ts
    case Audio(friend, _, _) => Touched(greeter, ts, friend, e)
    case Tick(now, sends) => Ticked(greeter, ts, now, sends)
  }

  ghost function After(greeter: Record, ts: seq<Tester>, events: seq<Event>): seq<Tester>
    decreases |events|
  {
    if events == [] then ts else After(greeter, Apply(greeter, ts, events[0]), events[1..])
  }

  // ---- The table stays sorted, and every tester lives its own life ----

  /** Strictly ascending friend numbers: at most one tester for a friend. */
  ghost predicate Sorted(ts: seq<Tester>) {
    StrictlyAscending(ts, FriendOf)
  }

  lemma FindMember(ts: seq<Tester>, friend: uint32, t: Tester)
    requires Sorted(ts)
    ensures Find(ts, friend) == Some(t) <==> t in ts && t.friend == friend
    ensures Find(ts, friend) == None <==> forall u :: u in ts ==> u.friend != friend
  {
    IndexOfFirst(ts, friend);
    if t in ts && t.friend == friend {
      var j :| 0 <= j < |ts| && ts[j] == t;
      var k := IndexOf(ts, friend);
      assert k <= j && FriendOf(ts[k]) == FriendOf(ts[j]);
    }
  }

  /** A new tester enters the table with this event. */
  predicate Enters(e: Event, friend: uint32) {
    (e.Call? || (e.CallState? && Announces(e.state))) && e.friend == friend
  }

  /** What becomes of one friend's place in the table. */
  ghost function Fate(greeter: Record, before: Option<Tester>, e: Event, friend: uint32): Option<Tester> {
    match before
    case Some(t) => LifeStep(greeter, t, e)
    case None => if Enters(e, friend) then Some(NewTester(friend, e.raw)) else None
  }

  lemma AddedPointwise(ts: seq<Tester>, friend: uint32, raw: Raw, f: uint32)
    requires Sorted(ts)
    ensures Sorted(Added(ts, friend, raw))
    ensures Find(Added(ts, friend, raw), f)
      == if Find(ts, f) == None && f == friend then Some(NewTester(friend, raw)) else Find(ts, f)
  {
    if Find(ts, friend) == None {
      var n := NewTester(friend, raw);
      var k := Slot(ts, FriendOf, friend);
      var r := Insert(ts, k, n);
      FindMember(ts, friend, n);
      InsertSorted(ts, FriendOf, n);
      assert r[k] == n;
      if f == friend {
        FindMember(r, friend, n);
      } else {
        assert forall t :: t in r <==> t == n || t in ts by { assert ts == ts[..k] + ts[k..]; }
        SameFind(ts, r, f);
      }
    }
  }

  /** Two sorted tables with the same testers for a friend. */
  lemma SameFind(a: seq<Tester>, b: seq<Tester>, f: uint32)
    requires Sorted(a) && Sorted(b)
    requires forall t: Tester :: t.friend == f ==> (t in a <==> t in b)
    ensures Find(a, f) == Find(b, f)
  {
    match Find(a, f) {
      case Some(t) =>
        FindMember(a, f, t);
        FindMember(b, f, t);
      case None =>
        match Find(b, f) {
          case None =>
          case Some(t) =>
            FindMember(b, f, t);
            FindMember(a, f, t);
        }
    }
  }

  lemma TouchedPointwise(greeter: Record, ts: seq<Tester>, friend: uint32, e: Event, f: uint32)
    requires Sorted(ts) && !e.Tick?
    ensures Sorted(Touched(greeter, ts, friend, e))
    ensures Find(Touched(greeter, ts, friend, e), f) == match Find(ts, f)
      case None => None
      case Some(t) => if f == friend then LifeStep(greeter, t, e) else Some(t)
  {
    var k := IndexOf(ts, friend);
    IndexOfFirst(ts, friend);
    if k < |ts| {
      var r := Touched(greeter, ts, friend, e);
      StepNeverDecreases(greeter, ts[k], e);
      assert forall i :: 0 <= i < |ts| ==> FriendOf(r[i]) == FriendOf(ts[i]);
      SameNumbers(ts, r, f);
      IndexOfFirst(ts, f);
    }
  }

  lemma {:induction false} SameNumbers(a: seq<Tester>, b: seq<Tester>, f: uint32)
    requires |a| == |b| && forall i :: 0 <= i < |a| ==> a[i].friend == b[i].friend
    ensures IndexOf(a, f) == IndexOf(b, f)
  {
    if a != [] {
      SameNumbers(a[1..], b[1..], f);
    }
  }

  ghost predicate Above(ts: seq<Tester>, friend: uint32) {
    forall t :: t in ts ==> t.friend > friend
  }

  lemma {:induction false} TickedAbove(greeter: Record, ts: seq<Tester>, now: Stamp, sends: uint32 -> bool,
                                       friend: uint32)
    requires Above(ts, friend)
    ensures Above(Ticked(greeter, ts, now, sends), friend)
    decreases |ts|
  {
    if ts != [] {
      TickedAbove(greeter, ts[1..], now, sends, friend);
      SteppedIsTester(greeter, ts[0], now, sends);
    }
  }

  /** The rest of a sorted table. */
  lemma SortedRest(ts: seq<Tester>)
    requires Sorted(ts) && ts != []
    ensures Sorted(ts[1..]) && Above(ts[1..], ts[0].friend)
  {
    var rest := ts[1..];
    forall i, j | 0 <= i < j < |rest|
      ensures FriendOf(rest[i]) < FriendOf(rest[j])
    {
      assert FriendOf(ts[i + 1]) < FriendOf(ts[j + 1]);
    }
    forall t | t in rest
      ensures t.friend > ts[0].friend
    {
      var i :| 0 <= i < |rest| && rest[i] == t;
      assert FriendOf(ts[0]) < FriendOf(ts[i + 1]);
    }
  }

  lemma SortedCons(one: seq<Tester>, rest: seq<Tester>)
    requires |one| <= 1 && Sorted(rest) && (one != [] ==> Above(rest, one[0].friend))
    ensures Sorted(one + rest)
  {
    var r := one + rest;
    forall i, j | 0 <= i < j < |r|
      ensures FriendOf(r[i]) < FriendOf(r[j])
    {
      if i < |one| {
        assert r[j] in rest;
      } else {
        assert FriendOf(rest[i - |one|]) < FriendOf(rest[j - |one|]);
      }
    }
  }

  lemma {:induction false} TickedSorted(greeter: Record, ts: seq<Tester>, now: Stamp, sends: uint32 -> bool)
    requires Sorted(ts)
    ensures Sorted(Ticked(greeter, ts, now, sends))
    decreases |ts|
  {
    if ts != [] {
      SortedRest(ts);
      TickedSorted(greeter, ts[1..], now, sends);
      TickedAbove(greeter, ts[1..], now, sends, ts[0].friend);
      SteppedIsTester(greeter, ts[0], now, sends);
      SortedCons(Stepped(greeter, ts[0], now, sends), Ticked(greeter, ts[1..], now, sends));
    }
  }

  lemma FindNone(ts: seq<Tester>, friend: uint32)
    requires Above(ts, friend)
    ensures Find(ts, friend) == None
  {
    IndexOfFirst(ts, friend);
  }

  lemma {:induction false} TickedPointwise(greeter: Record, ts: seq<Tester>, now: Stamp, sends: uint32 -> bool,
                                           f: uint32)
    requires Sorted(ts)
    ensures Find(Ticked(greeter, ts, now, sends), f) == match Find(ts, f)
      case None => None
      case Some(t) => OneShot(greeter, t, now, sends(f))
    decreases |ts|
  {
    if ts != [] {
      var rest := ts[1..];
      SortedRest(ts);
      SteppedIsTester(greeter, ts[0], now, sends);
      TickedPointwise(greeter, rest, now, sends, f);
      if ts[0].friend == f {
        FindNone(rest, f);
      }
      assert ts == [ts[0]] + rest;
      FindBehind([ts[0]], rest, f);
      FindBehind(Stepped(greeter, ts[0], now, sends), Ticked(greeter, rest, now, sends), f);
    }
  }

  lemma FindBehind(one: seq<Tester>, tail: seq<Tester>, f: uint32)
    requires |one| <= 1
    ensures Find(one + tail, f) == if one != [] && one[0].friend == f then Some(one[0]) else Find(tail, f)
  {
    if one == [] {
      assert one + tail == tail;
    } else {
      assert (one + tail)[1..] == tail;
    }
  }

  /** An event keeps the table sorted without duplicates, and does to each friend's tester what it does
      to that tester alone: nobody is lost, stepped twice or mixed up. */
  lemma Pointwise(greeter: Record, ts: seq<Tester>, e: Event, f: uint32)
    requires Sorted(ts)
    ensures Sorted(Apply(greeter, ts, e))
    ensures Find(Apply(greeter, ts, e), f) == Fate(greeter, Find(ts, f), e, f)
  {
    IndexOfFirst(ts, f);
    match e
    case Call(friend, raw) => AddedPointwise(ts, friend, raw, f);
    case CallState(friend, state, raw) =>
      if Announces(state) {
        AddedPointwise(ts, friend, raw, f);
      } else if Finishes(state) {
        TouchedPointwise(greeter, ts, friend, e, f);
      }
    case Audio(friend, _, _) => TouchedPointwise(greeter, ts, friend, e, f);
    case Tick(now, sends) =>
      TickedSorted(greeter, ts, now, sends);
      TickedPointwise(greeter, ts, now, sends, f);
  }

  lemma {:induction false} AlwaysSorted(greeter: Record, ts: seq<Tester>, events: seq<Event>)
    requires Sorted(ts)
    ensures Sorted(After(greeter, ts, events))
    decreases |events|
  {
    if events != [] {
      Pointwise(greeter, ts, events[0], 0);
      AlwaysSorted(greeter, Apply(greeter, ts, events[0]), events[1..]);
    }
  }

  // ---- One pass of the iterator ----

  ghost function Numbers(ts: seq<Tester>): (r: seq<uint32>)
    ensures |r| == |ts|
  {
    seq(|ts|, i requires 0 <= i < |ts| => ts[i].friend)
  }

  ghost function Staying(ts: seq<Tester>): (r: seq<bool>)
    ensures |r| == |ts|
  {
    seq(|ts|, i requires 0 <= i < |ts| => ts[i].step != BYE)
  }

  /** A pass removes exactly the testers in BYE and keeps the others in order. */
  lemma {:induction false} PassKeepsOrder(greeter: Record, ts: seq<Tester>, now: Stamp, sends: uint32 -> bool)
    ensures Numbers(Ticked(greeter, ts, now, sends)) == Select(Numbers(ts), Staying(ts))
    decreases |ts|
  {
    if ts != [] {
      var tail := Ticked(greeter, ts[1..], now, sends);
      PassKeepsOrder(greeter, ts[1..], now, sends);
      assert Numbers(ts)[1..] == Numbers(ts[1..]) && Staying(ts)[1..] == Staying(ts[1..]);
      SteppedIsTester(greeter, ts[0], now, sends);
      NumbersConcat(Stepped(greeter, ts[0], now, sends), tail);
    }
  }

  lemma NumbersConcat(a: seq<Tester>, b: seq<Tester>)
    ensures Numbers(a + b) == Numbers(a) + Numbers(b)
  {
  }

  // ---- What holds of every tester in every run ----

  /** An event does not take p away from a tester. */
  predicate KeptBy(greeter: Record, p: Tester -> bool, t: Tester, e: Event) {
    p(t) ==> match LifeStep(greeter, t, e) case None => true case Some(t') => p(t')
  }

  ghost predicate AllHave(ts: seq<Tester>, p: Tester -> bool) {
    forall t :: t in ts ==> p(t)
  }

  lemma InvariantStep(greeter: Record, p: Tester -> bool, ts: seq<Tester>, e: Event, u: Tester)
    requires Sorted(ts) && AllHave(ts, p) && u in Apply(greeter, ts, e)
    requires forall friend, raw :: p(NewTester(friend, raw))
    requires forall t :: KeptBy(greeter, p, t, e)
    ensures p(u)
  {
    Pointwise(greeter, ts, e, u.friend);
    FindMember(Apply(greeter, ts, e), u.friend, u);
    if Find(ts, u.friend).Some? {
      var t := Find(ts, u.friend).value;
      FindMember(ts, u.friend, t);
      assert KeptBy(greeter, p, t, e);
    }
  }

  /** What new testers have and no event takes away, all testers have in every run. */
  lemma {:induction false} InvariantInRun(greeter: Record, p: Tester -> bool, ts: seq<Tester>, events: seq<Event>)
    requires Sorted(ts) && AllHave(ts, p)
    requires forall friend, raw :: p(NewTester(friend, raw))
    requires forall t, e :: KeptBy(greeter, p, t, e)
    ensures AllHave(After(greeter, ts, events), p)
    decreases |events|
  {
    if events != [] {
      var ts' := Apply(greeter, ts, events[0]);
      Pointwise(greeter, ts, events[0], 0);
      forall u | u in ts'
        ensures p(u)
      {
        InvariantStep(greeter, p, ts, events[0], u);
      }
      InvariantInRun(greeter, p, ts', events[1..]);
    }
  }

  lemma RunFromStart(greeter: Record, events: seq<Event>)
    ensures AllHave(After(greeter, [], events), FromStart)
  {
    forall t, e
      ensures KeptBy(greeter, FromStart, t, e)
    {
      if FromStart(t) {
        AlwaysFromStart(greeter, t, e);
      }
    }
    InvariantInRun(greeter, FromStart, [], events);
  }

  // ---- What is recorded ----

  /** The samples that arrived for a friend while its tester was RECORDING; heard is what arrived
      before the events. */
  ghost function Heard(greeter: Record, ts: seq<Tester>, events: seq<Event>, friend: uint32,
                       heard: seq<Sample>): seq<Sample>
    decreases |events|
  {
    if events == [] then heard
    else
      var more := HeardStep(Find(ts, friend), events[0], friend, heard);
      Heard(greeter, Apply(greeter, ts, events[0]), events[1..], friend, more)
  }

  ghost function HeardStep(before: Option<Tester>, e: Event, friend: uint32, heard: seq<Sample>): seq<Sample> {
    match before
    case None => []
    case Some(t) =>
      if e.Audio? && e.friend == friend && t.step == RECORDING then heard + e.frame.pcm else heard
  }

  /** All frames of a friend have the same channel count. */
  predicate OneChannelCount(events: seq<Event>, friend: uint32, channels: uint8) {
    forall k :: 0 <= k < |events| && events[k].Audio? && events[k].friend == friend ==>
        events[k].frame.channels == channels
  }

  ghost predicate Faithful(before: Option<Tester>, heard: seq<Sample>, channels: uint8) {
    match before
    case None => true
    case Some(t) => t.record.pcm == heard && (t.record.samplesCount == 0 || t.record.channels == channels)
  }

  lemma FaithfulStep(greeter: Record, before: Option<Tester>, e: Event, friend: uint32, heard: seq<Sample>,
                     channels: uint8)
    requires Faithful(before, heard, channels) && (before.Some? ==> before.value.friend == friend)
    requires OneChannelCount([e], friend, channels)
    ensures Faithful(Fate(greeter, before, e, friend), HeardStep(before, e, friend, heard), channels)
  {
    assert e == [e][0];
    match before {
      case None =>
      case Some(t) =>
        StepNeverDecreases(greeter, t, e);
        if e.Audio? && e.friend == friend && t.step == RECORDING {
          ReceivedAppends(t.record, e.frame, e.undefined);
        }
    }
  }

  /** The recording of every tester in the table is the concatenation of the frames that arrived while
      its step was RECORDING, whatever else happened in between. */
  lemma {:induction false} RecordingFaithful(greeter: Record, ts: seq<Tester>, events: seq<Event>, friend: uint32,
                                             heard: seq<Sample>, channels: uint8)
    requires Sorted(ts) && Faithful(Find(ts, friend), heard, channels)
    requires OneChannelCount(events, friend, channels)
    ensures Faithful(Find(After(greeter, ts, events), friend), Heard(greeter, ts, events, friend, heard), channels)
    decreases |events|
  {
    if events != [] {
      var e, rest := events[0], events[1..];
      assert forall k {:trigger rest[k]} :: 0 <= k < |rest| ==> rest[k] == events[k + 1];
      IndexOfFirst(ts, friend);
      Pointwise(greeter, ts, e, friend);
      FaithfulStep(greeter, Find(ts, friend), e, friend, heard, channels);
      var more := HeardStep(Find(ts, friend), e, friend, heard);
      RecordingFaithful(greeter, Apply(greeter, ts, e), rest, friend, more, channels);
    }
  }

  /** So the file that SAVING writes holds what was heard since the start. */
  lemma SavedIsHeard(greeter: Record, events: seq<Event>, t: Tester, channels: uint8, now: Stamp, ok: bool)
    requires t in After(greeter, [], events) && t.step == SAVING && OneChannelCount(events, t.friend, channels)
    ensures OneShotEffects(greeter, t, now, ok)
      == [SaveWav(t.outfile, Heard(greeter, [], events, t.friend, []), t.record.channels, t.record.samplerate)]
  {
    RecordIsHeard(greeter, events, t, channels);
  }

  lemma RecordIsHeard(greeter: Record, events: seq<Event>, t: Tester, channels: uint8)
    requires t in After(greeter, [], events) && OneChannelCount(events, t.friend, channels)
    ensures t.record.pcm == Heard(greeter, [], events, t.friend, [])
  {
    RecordingFaithful(greeter, [], events, t.friend, [], channels);
    AlwaysSorted(greeter, [], events);
    FindMember(After(greeter, [], events), t.friend, t);
  }

  /** And so does the echo: in every run from the empty table, a tester in SENDING that is not disturbed any
      more sends the frames 0 to n - 1 of what was heard, which cover it, and then says goodbye. */
  lemma {:induction false} EchoIsHeard(greeter: Record, events: seq<Event>, t: Tester, channels: uint8,
                                       more: seq<Event>)
    requires t in After(greeter, [], events) && t.step == SENDING && OneChannelCount(events, t.friend, channels)
    requires Undisturbed(more, t.friend) && AllSent(more, t.friend) && Ticks(more) == FramesLeft(t.record, 0) + 2
    ensures t.record.pcm == Heard(greeter, [], events, t.friend, [])
    ensures LifeEffects(greeter, t, more)
      == [OfferFile(t.friend, t.outfile)] + Frames(t.friend, t.record, 0, EchoLength(t.record, 0))
    ensures FrameSize(t.record.samplerate) > 0 ==> FramesReach(t.record, EchoLength(t.record, 0))
    ensures Life(greeter, t, more).Some? && Life(greeter, t, more).value.step == BYE
  {
    RecordIsHeard(greeter, events, t, channels);
    RunFromStart(greeter, events);
    OfferAndEcho(greeter, t, more);
    if FrameSize(t.record.samplerate) > 0 {
      FramesCover(t.record);
    }
  }

  // ---- Every tester leaves the table ----

  /** A tester in the table follows its own life until it ends, and then it is gone from the table. */
  lemma {:induction false} LifeInTable(greeter: Record, ts: seq<Tester>, t: Tester, events: seq<Event>) returns (n: nat)
    requires Sorted(ts) && t in ts
    ensures n <= |events|
    ensures match Life(greeter, t, events)
      case Some(t') => n == |events| && Find(After(greeter, ts, events), t.friend) == Some(t')
      case None =>
        n > 0 && Find(After(greeter, ts, events[..n]), t.friend) == None && Life(greeter, t, events[..n]) == None
    decreases |events|
  {
    n := 0;
    FindMember(ts, t.friend, t);
    if events != [] {
      var e := events[0];
      var ts' := Apply(greeter, ts, e);
      Pointwise(greeter, ts, e, t.friend);
      StepNeverDecreases(greeter, t, e);
      match LifeStep(greeter, t, e) {
        case None =>
          n := 1;
          assert events[..1][1..] == [];
        case Some(t') =>
          FindMember(ts', t.friend, t');
          n := LifeInTable(greeter, ts', t', events[1..]);
          n := n + 1;
          assert events[..n][1..] == events[1..][..n - 1];
      }
    }
  }

  /** However calls, states, frames and ticks interleave, every tester in the table is gone from it
      after some number of events. */
  lemma EveryTesterLeavesTable(greeter: Record, ts: seq<Tester>, t: Tester, stream: nat -> Event) returns (n: nat)
    requires Sorted(ts) && t in ts && ClockAdvances(stream)
    ensures Find(After(greeter, ts, Span(stream, 0, n)), t.friend) == None
  {
    var m := EveryTesterLeaves(greeter, t, stream, 0);
    n := LifeInTable(greeter, ts, t, Span(stream, 0, m));
    assert Span(stream, 0, m)[..n] == Span(stream, 0, n);
  }

  // ---- When to call again ----

  /** calltest_iteration_interval. */
  ghost function Interval(ts: seq<Tester>): nat {
    if ts == [] then MAX_NS
    else
      var rest := Interval(ts[..|ts| - 1]);
      if ts[|ts| - 1].delay > rest then rest else ts[|ts| - 1].delay
  }

  lemma {:induction false} IntervalIsMinimum(ts: seq<Tester>)
    ensures Interval(ts) <= MAX_NS && forall t :: t in ts ==> Interval(ts) <= t.delay
    ensures Interval(ts) == MAX_NS || exists t :: t in ts && t.delay == Interval(ts)
  {
    if ts != [] {
      var front, last := ts[..|ts| - 1], ts[|ts| - 1];
      IntervalIsMinimum(front);
      assert ts == front + [last];
      assert last in ts;
      if Interval(ts) != MAX_NS && Interval(ts) == Interval(front) {
        var t :| t in front && t.delay == Interval(front);
        assert t in ts;
      }
    }
  }

  predicate Prompt(t: Tester) {
    t.delay <= DEFAULT_DELAY
  }

  lemma RunPrompt(greeter: Record, events: seq<Event>)
    ensures AllHave(After(greeter, [], events), Prompt)
  {
    forall t, e
      ensures KeptBy(greeter, Prompt, t, e)
    {
    }
    InvariantInRun(greeter, Prompt, [], events);
  }

  /** While a call test runs the interval is at most one frame time; without one it is MAX_NS. */
  lemma IntervalInRun(greeter: Record, events: seq<Event>)
    ensures var ts := After(greeter, [], events);
      if ts == [] then Interval(ts) == 999_999_999 else Interval(ts) <= 20_000_000
  {
    var ts := After(greeter, [], events);
    RunPrompt(greeter, events);
    IntervalIsMinimum(ts);
    if ts != [] {
      assert ts[0] in ts;
    }
  }
}
