/** One call test of call.c: its steps, how long they last, and what is recorded. */
module CallSteps {
  import opened Bytes
  import opened Timespec
  import opened Friends

  const AUDIO_LENGTH := 20
  const DEFAULT_DELAY := AUDIO_LENGTH * NSEC_PER_MSEC
  const CALL_TEST_DURATION := 10
  const MAX_NS := 999_999_999

  type Sample = i: int | -0x8000 <= i < 0x8000
  type uint8 = i: int | 0 <= i < 0x100
  type Rate = i: int | 0 < i < TWO_32 witness 48000

  // ---- Recordings ----

  /** struct record: samplesCount counts samples per channel. */
  datatype Record = Record(pcm: seq<Sample>, channels: uint8, samplesCount: nat, samplerate: Rate)

  /** The buffer is exactly as long as the counts say: a frame as toxav delivers it, or a recording. */
  type FullRecord = r: Record | |r.pcm| == r.channels * r.samplesCount witness Record([], 1, 0, 48000)

  /** What audio_receive_frame makes of the record: the buffer is resized for the new channel count, and
      the frame is copied to its end.  undefined is what realloc leaves in new memory. */
  function Received(r: FullRecord, frame: FullRecord, undefined: nat -> Sample): (r': FullRecord) {
    var c := frame.channels;
    Distribute(c, r.samplesCount, frame.samplesCount);
    var grown := seq(c * (frame.samplesCount + r.samplesCount),
                     i requires 0 <= i => if i < |r.pcm| then r.pcm[i] else undefined(i));
    Record(grown[..c * r.samplesCount] + frame.pcm, c, r.samplesCount + frame.samplesCount, frame.samplerate)
  }

  lemma Distribute(c: nat, a: nat, b: nat)
    ensures c * (a + b) == c * a + c * b && c * (b + a) == c * a + c * b
  {
  }

  /** A frame with the channel count of the recording is appended to it. */
  lemma ReceivedAppends(r: FullRecord, frame: FullRecord, undefined: nat -> Sample)
    requires r.samplesCount == 0 || r.channels == frame.channels
    ensures Received(r, frame, undefined)
      == Record(r.pcm + frame.pcm, frame.channels, r.samplesCount + frame.samplesCount, frame.samplerate)
  {
    Distribute(frame.channels, r.samplesCount, frame.samplesCount);
  }

  /** Whatever the channel count was before, the frame stands at the end, the buffer before it keeps its
      samples as far as it has any, and the counts and the rate are as the frame has them. */
  lemma ReceivedSpelled(r: FullRecord, frame: FullRecord, undefined: nat -> Sample)
    ensures var r', start := Received(r, frame, undefined), frame.channels * r.samplesCount;
      && r'.channels == frame.channels && r'.samplerate == frame.samplerate
      && r'.samplesCount == r.samplesCount + frame.samplesCount && |r'.pcm| == start + |frame.pcm|
      && (forall i {:trigger r'.pcm[i]} :: 0 <= i < start ==>
            r'.pcm[i] == if i < |r.pcm| then r.pcm[i] else undefined(i))
      && r'.pcm[start..] == frame.pcm
  {
    Distribute(frame.channels, r.samplesCount, frame.samplesCount);
  }

  // ---- Testers ----

  datatype Step = ENTERING | GREETER | RECORDING | SAVING | SENDING | ECHOING | BYE

  function Rank(s: Step): nat {
    match s
    case ENTERING => 0
    case GREETER => 1
    case RECORDING => 2
    case SAVING => 3
    case SENDING => 4
    case ECHOING => 5
    case BYE => 6
  }

  /** A normalised struct timespec. */
  datatype TimeVal = TimeVal(sec: int, nsec: int)
  type Stamp = t: TimeVal | 0 <= t.nsec < NSEC_PER_SEC witness TimeVal(0, 0)

  function Total(t: Stamp): int
    ensures Total(t) == t.sec * 1_000_000_000 + t.nsec
  {
    t.sec * NSEC_PER_SEC + t.nsec
  }

  /** struct call_tester. */
  datatype Tester = Tester(friend: uint32, step: Step, sent: nat, record: FullRecord, callstart: Stamp, delay: uint64,
                           outfile: CString)

  /** What malloc leaves in a new tester, and the name that mkstemps makes up. */
  datatype Raw = Raw(sent: nat, channels: uint8, samplerate: Rate, callstart: Stamp, outfile: CString)

  function NewTester(friend: uint32, raw: Raw): Tester {
    Tester(friend, ENTERING, raw.sent, Record([], raw.channels, 0, raw.samplerate), raw.callstart, DEFAULT_DELAY,
        raw.outfile)
  }

  /** What a step does to the outside. */
  datatype Effect =
    | Mute(friend: uint32)
    | Unmute(friend: uint32)
    | SendFrame(friend: uint32, source: Record, from: nat, count: nat)
    | SaveWav(outfile: CString, pcm: seq<Sample>, channels: uint8, samplerate: Rate)
    | OfferFile(friend: uint32, pathname: CString)
    | Cancel(friend: uint32)

  /** The samples per channel of AUDIO_LENGTH milliseconds; the product is a 32 bit one. */
  function FrameSize(samplerate: Rate): nat {
    samplerate * AUDIO_LENGTH % TWO_32 / 1000
  }

  function FrameDelay(samplerate: Rate): (d: uint64)
    ensures d <= DEFAULT_DELAY
  {
    var size := FrameSize(samplerate);
    assert size * 1000 / samplerate <= AUDIO_LENGTH by { DelayInMilliseconds(samplerate); }
    size * 1000 / samplerate * NSEC_PER_MSEC
  }

  lemma DelayInMilliseconds(samplerate: Rate)
    ensures 0 <= FrameSize(samplerate) * 1000 / samplerate <= AUDIO_LENGTH
  {
    WholeFrame(samplerate * AUDIO_LENGTH);
    QuotientAtMost(FrameSize(samplerate) * 1000, samplerate, AUDIO_LENGTH);
  }

  lemma QuotientAtMost(m: nat, d: nat, k: nat)
    requires d > 0 && m <= k * d
    ensures 0 <= m / d <= k
  {
    assert m / d * d <= m;
    AtMost(m / d, k, d);
  }

  /** The delay after a frame is the time it plays, AUDIO_LENGTH, exactly if a frame is a whole number of
      samples and the 32 bit product does not wrap; it is shorter otherwise. */
  lemma DelayIsFrameTime(samplerate: Rate)
    ensures FrameDelay(samplerate) == 20_000_000 <==> samplerate % 50 == 0 && samplerate * 20 < 0x1_0000_0000
    ensures samplerate % 50 == 0 && samplerate * 20 < 0x1_0000_0000 ==> FrameSize(samplerate) == samplerate / 50
  {
    WholeFrame(samplerate * AUDIO_LENGTH);
    Fiftieth(samplerate);
    QuotientIs(FrameSize(samplerate) * 1000, samplerate, AUDIO_LENGTH);
  }

  /** A frame is the whole samples in 20 ms, counted with a 32 bit product, and the delay the whole
      milliseconds that it plays. */
  lemma FrameSpelled(samplerate: Rate) returns (ms: nat)
    ensures var size := FrameSize(samplerate);
      && size * 1000 <= samplerate * 20 % 0x1_0000_0000 < (size + 1) * 1000
      && FrameDelay(samplerate) == ms * 1_000_000 && ms * samplerate <= size * 1000 < (ms + 1) * samplerate
  {
    var played := FrameSize(samplerate) * 1000;
    ms := played / samplerate;
    assert ms * samplerate <= played < (ms + 1) * samplerate;
  }

  lemma Fiftieth(r: nat)
    ensures r * AUDIO_LENGTH % 1000 == 0 <==> r % 50 == 0
    ensures r % 50 == 0 ==> r * AUDIO_LENGTH / 1000 == r / 50
  {
    var q, s := r / 50, r % 50;
    assert r * AUDIO_LENGTH == 1000 * q + 20 * s;
  }

  lemma QuotientIs(m: nat, d: nat, k: nat)
    requires d > 0 && m <= k * d
    ensures m / d == k <==> m == k * d
  {
    if m == k * d {
      Quotient(m, d, k);
    } else {
      assert m / d * d <= m;
      AtMostNext(m / d, k - 1, d);
    }
  }

  lemma WholeFrame(full: nat)
    ensures full % TWO_32 / 1000 * 1000 <= full
    ensures full % TWO_32 / 1000 * 1000 == full <==> full % 1000 == 0 && full < TWO_32
  {
    var m := full % TWO_32;
    assert m == m / 1000 * 1000 + m % 1000;
  }

  lemma AtMost(q: int, k: int, d: int)
    requires d > 0 && q * d <= k * d
    ensures q <= k
  {
    assert (k - q) * d >= 0;
  }

  /** audio_playback: whether a frame goes out, and the tester after it. */
  function Playback(t: Tester, rec: Record, ok: bool): (r: (Tester, nat)) {
    var size := FrameSize(rec.samplerate);
    var t' := t.(delay := FrameDelay(rec.samplerate));
    if t.sent < rec.samplesCount && ok then (t'.(sent := t.sent + size), size) else (t', 0)
  }

  function PlaybackEffects(t: Tester, rec: Record): seq<Effect> {
    if t.sent < rec.samplesCount
    then [SendFrame(t.friend, rec, t.sent * rec.channels, FrameSize(rec.samplerate))]
    else []
  }

  /** nanosec_timeout: the time since callstart, as an unsigned number. */
  predicate Timeout(callstart: Stamp, now: Stamp) {
    ToUint64(Total(now) - Total(callstart)) >= CALL_TEST_DURATION * NSEC_PER_SEC
  }

  /** calltest_iterate_one_shot: the tester after a tick, unless the tick destroys it. */
  function OneShot(greeter: Record, t: Tester, now: Stamp, ok: bool): Option<Tester> {
    match t.step
    case ENTERING => OneShotGreeter(greeter, t.(sent := 0, step := GREETER), now, ok)
    case GREETER => OneShotGreeter(greeter, t, now, ok)
    case RECORDING => Some(if Timeout(t.callstart, now) then t.(step := SAVING) else t)
    case SAVING => Some(t.(step := SENDING, sent := 0))
    case SENDING => Some(t.(step := ECHOING))
    case ECHOING =>
      var (t', played) := Playback(t, t.record, ok);
      Some(if played == 0 then t'.(step := BYE) else t')
    case BYE => None
  }

  function OneShotGreeter(greeter: Record, t: Tester, now: Stamp, ok: bool): Option<Tester> {
    var (t', played) := Playback(t, greeter, ok);
    Some(if played == 0 then t'.(step := RECORDING, callstart := now) else t')
  }

  function OneShotEffects(greeter: Record, t: Tester, now: Stamp, ok: bool): seq<Effect> {
    match t.step
    case ENTERING => [Mute(t.friend)] + GreeterEffects(greeter, t.(sent := 0, step := GREETER), ok)
    case GREETER => GreeterEffects(greeter, t, ok)
    case RECORDING => if Timeout(t.callstart, now) then [Mute(t.friend)] else []
    case SAVING => [SaveWav(t.outfile, t.record.pcm, t.record.channels, t.record.samplerate)]
    case SENDING => [OfferFile(t.friend, t.outfile)]
    case ECHOING => PlaybackEffects(t, t.record)
    case BYE => [Cancel(t.friend)]
  }

  function GreeterEffects(greeter: Record, t: Tester, ok: bool): seq<Effect> {
    PlaybackEffects(t, greeter) + if Playback(t, greeter, ok).1 == 0 then [Unmute(t.friend)] else []
  }

  // ---- The life of one tester ----

  /** What toxav and the main loop call, with what they bring: the state bits of call_state, a frame, or
      the time and which sends succeed. */
  datatype Event =
    | Call(friend: uint32, raw: Raw)
    | CallState(friend: uint32, state: uint32, raw: Raw)
    | Audio(friend: uint32, frame: FullRecord, undefined: nat -> Sample)
    | Tick(now: Stamp, sends: uint32 -> bool)

  const STATE_ERROR := 1
  const STATE_FINISHED := 2
  const STATE_SENDING_A := 4

  predicate Bit(state: uint32, bit: int)
    requires bit > 0
  {
    state / bit % 2 == 1
  }

  predicate Announces(state: uint32) {
    !Bit(state, STATE_ERROR) && Bit(state, STATE_SENDING_A)
  }

  predicate Finishes(state: uint32) {
    !Bit(state, STATE_ERROR) && !Bit(state, STATE_SENDING_A) && Bit(state, STATE_FINISHED)
  }

  /** What an event makes of a tester: None if it is destroyed. */
  function LifeStep(greeter: Record, t: Tester, e: Event): Option<Tester> {
    match e
    case Call(_, _) => Some(t)
    case CallState(friend, state, _) => Some(if friend == t.friend && Finishes(state) then t.(step := BYE) else t)
    case Audio(friend, frame, undefined) =>
      Some(if friend == t.friend && t.step == RECORDING then t.(record := Received(t.record, frame, undefined)) else t)
    case Tick(now, sends) => OneShot(greeter, t, now, sends(t.friend))
  }

  /** No event takes a tester back, and what was recorded stays once RECORDING is over. */
  lemma StepNeverDecreases(greeter: Record, t: Tester, e: Event)
    ensures match LifeStep(greeter, t, e)
      case None => t.step == BYE && e.Tick?
      case Some(t') =>
        && t'.friend == t.friend && t'.outfile == t.outfile && Rank(t'.step) >= Rank(t.step)
        && (t'.delay != t.delay ==> e.Tick? && Plays(t.step))
        && (t'.record != t.record ==> t.step == RECORDING == t'.step && e.Audio? && e.friend == t.friend)
        && (t'.callstart != t.callstart ==> Rank(t.step) < Rank(t'.step) && e.Tick? && t'.callstart == e.now)
        && (e.Tick? ==> t.step != BYE && Rank(t'.step) <= Rank(t.step) + if t.step == ENTERING then 2 else 1)
        && (e.Tick? && t.step in {ENTERING, SAVING, SENDING} ==> Rank(t'.step) > Rank(t.step))
  {
  }

  // ---- How long a step lasts ----

  /** The frames still to be sent: ceil((samplesCount - sent) / size), and none if frames are empty. */
  function FramesLeft(rec: Record, sent: nat): nat {
    var size := FrameSize(rec.samplerate);
    if sent >= rec.samplesCount || size == 0 then 0 else (rec.samplesCount - sent + size - 1) / size
  }

  lemma NoFrameLeft(rec: Record, sent: nat)
    ensures FramesLeft(rec, sent) == 0 <==> sent >= rec.samplesCount || FrameSize(rec.samplerate) == 0
  {
    var size := FrameSize(rec.samplerate);
    if sent < rec.samplesCount && size > 0 {
      var above := rec.samplesCount - sent + size - 1;
      assert above < (above / size + 1) * size;
      AtMostNext(1, above / size, size);
    }
  }

  lemma OneFrameLess(rec: Record, sent: nat)
    requires FramesLeft(rec, sent) > 0
    ensures FrameSize(rec.samplerate) > 0 && sent < rec.samplesCount
    ensures FramesLeft(rec, sent + FrameSize(rec.samplerate)) == FramesLeft(rec, sent) - 1
  {
    var size := FrameSize(rec.samplerate);
    var above := rec.samplesCount - sent + size - 1;
    var q := above / size;
    assert q * size <= above < (q + 1) * size;
    Quotient(above - size, size, q - 1);
    if above < 2 * size {
      Quotient(above, size, 1);
    }
  }

  lemma Quotient(a: int, d: int, q: int)
    requires d > 0 && q * d <= a < (q + 1) * d
    ensures a / d == q
  {
    assert a / d * d <= a;
    assert a < (a / d + 1) * d;
    AtMostNext(a / d, q, d);
    AtMostNext(q, a / d, d);
  }

  lemma AtMostNext(q: int, k: int, d: int)
    requires d > 0 && q * d < (k + 1) * d
    ensures q <= k
  {
    assert (k + 1 - q) * d > 0;
  }

  /** The recording that a step plays. */
  function Played(greeter: Record, t: Tester): Record {
    if t.step == ECHOING then t.record else greeter
  }

  predicate Plays(s: Step) {
    s == ENTERING || s == GREETER || s == ECHOING
  }

  /** ENTERING and GREETER play the greeter, ECHOING the recording. */
  predicate SamePhase(s: Step, s': Step) {
    s == s' || (s == ENTERING && s' == GREETER)
  }

  /** The frames that a playing tester still has to send. */
  function Left(greeter: Record, t: Tester): nat {
    FramesLeft(Played(greeter, t), if t.step == ENTERING then 0 else t.sent)
  }

  /** A tick sends one of the frames left or ends the phase. */
  lemma PlayTick(greeter: Record, t: Tester, now: Stamp, ok: bool)
    requires Plays(t.step)
    ensures OneShot(greeter, t, now, ok).Some?
    ensures var t' := OneShot(greeter, t, now, ok).value;
      if ok && Left(greeter, t) > 0
      then SamePhase(t.step, t'.step) && Plays(t'.step) && t'.step != ENTERING
          && Left(greeter, t') == Left(greeter, t) - 1
      else !SamePhase(t.step, t'.step)
    ensures OneShot(greeter, t, now, ok).value.delay == FrameDelay(Played(greeter, t).samplerate)
  {
    var rec, sent := Played(greeter, t), if t.step == ENTERING then 0 else t.sent;
    NoFrameLeft(rec, sent);
    if Left(greeter, t) > 0 {
      OneFrameLess(rec, sent);
    }
  }

  // ---- Many events ----

  function Life(greeter: Record, t: Tester, events: seq<Event>): Option<Tester>
    decreases |events|
  {
    if events == [] then Some(t)
    else
      match LifeStep(greeter, t, events[0])
      case None => None
      case Some(t') => Life(greeter, t', events[1..])
  }

  function Ticks(events: seq<Event>): nat {
    if events == [] then 0 else (if events[0].Tick? then 1 else 0) + Ticks(events[1..])
  }

  predicate Ends(e: Event, friend: uint32) {
    e.CallState? && e.friend == friend && Finishes(e.state)
  }

  predicate Undisturbed(events: seq<Event>, friend: uint32) {
    forall k :: 0 <= k < |events| ==> !Ends(events[k], friend)
  }

  predicate AllSent(events: seq<Event>, friend: uint32) {
    forall k :: 0 <= k < |events| && events[k].Tick? ==> events[k].sends(friend)
  }

  /** What holds of all events holds of the first and of the rest. */
  lemma Rest(events: seq<Event>, friend: uint32)
    requires events != []
    ensures Undisturbed(events, friend) ==> !Ends(events[0], friend) && Undisturbed(events[1..], friend)
    ensures AllSent(events, friend) ==> (events[0].Tick? ==> events[0].sends(friend)) && AllSent(events[1..], friend)
  {
  }

  lemma {:induction false} LifeForward(greeter: Record, t: Tester, events: seq<Event>)
    ensures match Life(greeter, t, events)
      case None => true
      case Some(t') => t'.friend == t.friend && t'.outfile == t.outfile && Rank(t'.step) >= Rank(t.step)
    decreases |events|
  {
    if events != [] {
      StepNeverDecreases(greeter, t, events[0]);
      match LifeStep(greeter, t, events[0]) {
        case None =>
        case Some(t') => LifeForward(greeter, t', events[1..]);
      }
    }
  }

  /** As long as a phase lasts, every tick sends one frame; so it lasts no more than ceil(samples / frame)
      ticks. */
  lemma {:induction false} PhaseCountsFrames(greeter: Record, t: Tester, events: seq<Event>)
    requires Plays(t.step)
    requires var r := Life(greeter, t, events);
      r.Some? && SamePhase(t.step, r.value.step)
    ensures Ticks(events) + Left(greeter, Life(greeter, t, events).value) == Left(greeter, t)
    decreases |events|
  {
    if events != [] {
      StepNeverDecreases(greeter, t, events[0]);
      var t' := LifeStep(greeter, t, events[0]).value;
      LifeForward(greeter, t', events[1..]);
      if events[0].Tick? {
        PlayTick(greeter, t, events[0].now, events[0].sends(t.friend));
      }
      PhaseCountsFrames(greeter, t', events[1..]);
    }
  }

  /** If nothing goes wrong, a phase lasts exactly ceil(samples / frame) ticks, and the next ends it. */
  lemma {:induction false} PhaseLasts(greeter: Record, t: Tester, events: seq<Event>)
    requires Plays(t.step) && Undisturbed(events, t.friend) && AllSent(events, t.friend)
    ensures var r := Life(greeter, t, events);
      r.Some? && SamePhase(t.step, r.value.step) <==> Ticks(events) <= Left(greeter, t)
    decreases |events|
  {
    if events != [] {
      var e, rest := events[0], events[1..];
      StepNeverDecreases(greeter, t, e);
      Rest(events, t.friend);
      if e.Tick? {
        PlayTick(greeter, t, e.now, e.sends(t.friend));
      }
      var t' := LifeStep(greeter, t, e).value;
      if SamePhase(t.step, t'.step) {
        PhaseLasts(greeter, t', rest);
        LifeForward(greeter, t', rest);
      } else {
        LifeForward(greeter, t', rest);
      }
    }
  }

  /** RECORDING lasts until the first tick ten seconds after its start. */
  lemma {:induction false} RecordingLasts(greeter: Record, t: Tester, events: seq<Event>)
    requires t.step == RECORDING && Undisturbed(events, t.friend)
    ensures var r := Life(greeter, t, events);
      r.Some? && r.value.step == RECORDING
      <==> forall k :: 0 <= k < |events| && events[k].Tick? ==> !Timeout(t.callstart, events[k].now)
    decreases |events|
  {
    if events != [] {
      var e, rest := events[0], events[1..];
      StepNeverDecreases(greeter, t, e);
      assert forall k {:trigger rest[k]} :: 0 <= k < |rest| ==> rest[k] == events[k + 1];
      var t' := LifeStep(greeter, t, e).value;
      if t'.step == RECORDING {
        RecordingLasts(greeter, t', rest);
      } else {
        LifeForward(greeter, t', rest);
      }
    }
  }

  lemma TenSeconds(callstart: Stamp, now: Stamp)
    requires Total(callstart) <= Total(now) < Total(callstart) + TWO_64
    ensures Timeout(callstart, now) <==> Total(now) - Total(callstart) >= 10_000_000_000
  {
  }

  // ---- What the echo sends ----

  function StepEffects(greeter: Record, t: Tester, e: Event): seq<Effect> {
    if e.Tick? then OneShotEffects(greeter, t, e.now, e.sends(t.friend)) else []
  }

  function LifeEffects(greeter: Record, t: Tester, events: seq<Event>): seq<Effect>
    decreases |events|
  {
    if events == [] then []
    else
      StepEffects(greeter, t, events[0]) +
      match LifeStep(greeter, t, events[0])
      case None => []
      case Some(t') => LifeEffects(greeter, t', events[1..])
  }

  /** n consecutive frames of a recording, the first at sample from. */
  function Frames(friend: uint32, rec: Record, from: nat, n: nat): (fs: seq<Effect>)
    ensures |fs| == n
    decreases n
  {
    if n == 0 then []
    else
      [SendFrame(friend, rec, from * rec.channels, FrameSize(rec.samplerate))]
      + Frames(friend, rec, from + FrameSize(rec.samplerate), n - 1)
  }

  lemma {:induction false} FrameAt(friend: uint32, rec: Record, from: nat, n: nat, k: nat)
    requires k < n
    ensures var size := FrameSize(rec.samplerate);
      Frames(friend, rec, from, n)[k] == SendFrame(friend, rec, (from + k * size) * rec.channels, size)
    decreases k
  {
    if k > 0 {
      var size := FrameSize(rec.samplerate);
      FrameAt(friend, rec, from + size, n - 1, k - 1);
      Distribute(size, 1, k - 1);
      assert from + size + (k - 1) * size == from + k * size;
    }
  }

  /** During the echo each tick sends the next frame. */
  lemma {:induction false} EchoSends(greeter: Record, t: Tester, events: seq<Event>)
    requires t.step == ECHOING && Undisturbed(events, t.friend) && AllSent(events, t.friend)
    requires Ticks(events) <= Left(greeter, t)
    ensures LifeEffects(greeter, t, events) == Frames(t.friend, t.record, t.sent, Ticks(events))
    decreases |events|
  {
    if events != [] {
      var e := events[0];
      StepNeverDecreases(greeter, t, e);
      Rest(events, t.friend);
      if e.Tick? {
        PlayTick(greeter, t, e.now, e.sends(t.friend));
      }
      EchoSends(greeter, LifeStep(greeter, t, e).value, events[1..]);
    }
  }

  /** The sends of a whole echo: an empty frame ends it, but is sent. */
  function EchoLength(rec: Record, sent: nat): nat {
    if sent < rec.samplesCount && FrameSize(rec.samplerate) == 0 then 1 else FramesLeft(rec, sent)
  }

  lemma {:induction false} NoTicks(greeter: Record, t: Tester, events: seq<Event>)
    requires Ticks(events) == 0
    ensures Life(greeter, t, events).Some? && LifeEffects(greeter, t, events) == []
    decreases |events|
  {
    if events != [] {
      NoTicks(greeter, LifeStep(greeter, t, events[0]).value, events[1..]);
    }
  }

  /** The tick that finds no frame left ends the echo, perhaps with an empty frame. */
  lemma LastEchoTick(greeter: Record, t: Tester, now: Stamp, ok: bool)
    requires t.step == ECHOING && ok && Left(greeter, t) == 0
    ensures OneShot(greeter, t, now, ok).Some? && OneShot(greeter, t, now, ok).value.step == BYE
    ensures OneShotEffects(greeter, t, now, ok) == Frames(t.friend, t.record, t.sent, EchoLength(t.record, t.sent))
  {
    NoFrameLeft(t.record, t.sent);
    if t.sent < t.record.samplesCount {
      assert Frames(t.friend, t.record, t.sent + FrameSize(t.record.samplerate), 0) == [];
    }
  }

  /** What an event makes of an undisturbed echo with frames left. */
  lemma EchoStep(greeter: Record, t: Tester, e: Event)
    requires t.step == ECHOING && !Ends(e, t.friend) && (e.Tick? ==> e.sends(t.friend) && Left(greeter, t) > 0)
    ensures LifeStep(greeter, t, e).Some?
    ensures var t' := LifeStep(greeter, t, e).value;
      && t'.step == ECHOING && t'.friend == t.friend && t'.record == t.record
      && Left(greeter, t') + (if e.Tick? then 1 else 0) == Left(greeter, t)
      && StepEffects(greeter, t, e) + Frames(t.friend, t.record, t'.sent, EchoLength(t.record, t'.sent))
         == Frames(t.friend, t.record, t.sent, EchoLength(t.record, t.sent))
  {
    StepNeverDecreases(greeter, t, e);
    NoFrameLeft(t.record, t.sent);
    var t' := LifeStep(greeter, t, e).value;
    if e.Tick? {
      PlayTick(greeter, t, e.now, e.sends(t.friend));
    } else {
      var fs := Frames(t.friend, t.record, t.sent, EchoLength(t.record, t.sent));
      assert [] + fs == fs;
    }
  }

  /** A whole echo sends consecutive frames up to the end of the recording, and then BYE follows. */
  lemma {:induction false} EchoWhole(greeter: Record, t: Tester, events: seq<Event>)
    requires t.step == ECHOING && Undisturbed(events, t.friend) && AllSent(events, t.friend)
    requires Ticks(events) == Left(greeter, t) + 1
    ensures LifeEffects(greeter, t, events) == Frames(t.friend, t.record, t.sent, EchoLength(t.record, t.sent))
    ensures Life(greeter, t, events).Some? && Life(greeter, t, events).value.step == BYE
    decreases |events|
  {
    var e, rest := events[0], events[1..];
    Rest(events, t.friend);
    if e.Tick? && Left(greeter, t) == 0 {
      LastEchoTick(greeter, t, e.now, e.sends(t.friend));
      var t' := LifeStep(greeter, t, e).value;
      NoTicks(greeter, t', rest);
      LifeForward(greeter, t', rest);
    } else {
      EchoStep(greeter, t, e);
      EchoWhole(greeter, LifeStep(greeter, t, e).value, rest);
    }
  }

  /** A tester that is about to echo starts at the first sample. */
  predicate FromStart(t: Tester) {
    t.step == SENDING ==> t.sent == 0
  }

  lemma AlwaysFromStart(greeter: Record, t: Tester, e: Event)
    requires FromStart(t)
    ensures match LifeStep(greeter, t, e)
      case None => true
      case Some(t') => FromStart(t') && (t.step == SENDING && t'.step == ECHOING ==> t'.sent == 0)
  {
  }

  /** From SENDING on, an undisturbed tester offers its file, echoes the whole recording from its first
      sample, and gets to BYE with the tick that finds nothing left. */
  lemma {:induction false} OfferAndEcho(greeter: Record, t: Tester, events: seq<Event>)
    requires t.step == SENDING && FromStart(t) && Undisturbed(events, t.friend) && AllSent(events, t.friend)
    requires Ticks(events) == FramesLeft(t.record, 0) + 2
    ensures LifeEffects(greeter, t, events)
      == [OfferFile(t.friend, t.outfile)] + Frames(t.friend, t.record, 0, EchoLength(t.record, 0))
    ensures Life(greeter, t, events).Some? && Life(greeter, t, events).value.step == BYE
    decreases |events|
  {
    var e, rest := events[0], events[1..];
    StepNeverDecreases(greeter, t, e);
    AlwaysFromStart(greeter, t, e);
    Rest(events, t.friend);
    var t' := LifeStep(greeter, t, e).value;
    if e.Tick? {
      EchoWhole(greeter, t', rest);
    } else {
      OfferAndEcho(greeter, t', rest);
    }
  }

  /** n frames reach the end of a recording, and n - 1 do not; an empty recording needs none. */
  predicate FramesReach(rec: Record, n: nat) {
    var size := FrameSize(rec.samplerate);
    (n - 1) * size < rec.samplesCount <= n * size || n == 0 == rec.samplesCount
  }

  /** The frames of a whole echo cover the recording, the last one perhaps beyond its end. */
  lemma FramesCover(rec: Record)
    requires FrameSize(rec.samplerate) > 0
    ensures FramesReach(rec, EchoLength(rec, 0))
  {
    var size := FrameSize(rec.samplerate);
    var above := rec.samplesCount + size - 1;
    if rec.samplesCount > 0 {
      assert above / size * size <= above < (above / size + 1) * size;
    }
  }

  // ---- How many ticks a tester can see ----

  /** The ticks that find the tester RECORDING and its time not yet over. */
  function Waiting(greeter: Record, t: Tester, events: seq<Event>): nat
    decreases |events|
  {
    if events == [] then 0
    else
      (if events[0].Tick? && t.step == RECORDING && !Timeout(t.callstart, events[0].now) then 1 else 0) +
      match LifeStep(greeter, t, events[0])
      case None => 0
      case Some(t') => Waiting(greeter, t', events[1..])
  }

  /** How many more ticks, waiting apart, a tester whose recording ends up as rec can see before the one
      that destroys it. */
  function Budget(greeter: Record, t: Tester, rec: Record): nat {
    match t.step
    case ENTERING => FramesLeft(greeter, 0) + 1 + 1 + 2 + FramesLeft(rec, 0) + 1
    case GREETER => FramesLeft(greeter, t.sent) + 1 + 1 + 2 + FramesLeft(rec, 0) + 1
    case RECORDING => 1 + 2 + FramesLeft(rec, 0) + 1
    case SAVING => 2 + FramesLeft(rec, 0) + 1
    case SENDING => 1 + FramesLeft(rec, 0) + 1
    case ECHOING => FramesLeft(rec, t.sent) + 1
    case BYE => 0
  }

  lemma {:induction false} RecordStays(greeter: Record, t: Tester, events: seq<Event>)
    requires Rank(t.step) > Rank(RECORDING)
    ensures match Life(greeter, t, events)
      case None => true
      case Some(t') => t'.record == t.record
    decreases |events|
  {
    if events != [] {
      StepNeverDecreases(greeter, t, events[0]);
      match LifeStep(greeter, t, events[0]) {
        case None =>
        case Some(t') => RecordStays(greeter, t', events[1..]);
      }
    }
  }

  lemma BudgetFalls(greeter: Record, t: Tester, e: Event, rec: Record)
    requires FromStart(t) && (Rank(t.step) > Rank(RECORDING) ==> rec == t.record)
    ensures match LifeStep(greeter, t, e)
      case None => true
      case Some(t') =>
        Budget(greeter, t', rec) + (if e.Tick? then 1 else 0)
          <= Budget(greeter, t, rec) + if e.Tick? && t.step == RECORDING && !Timeout(t.callstart, e.now) then 1 else 0
  {
    StepNeverDecreases(greeter, t, e);
    AlwaysFromStart(greeter, t, e);
    if e.Tick? && Plays(t.step) {
      PlayTick(greeter, t, e.now, e.sends(t.friend));
    }
  }

  lemma {:induction false} AliveWithinBudget(greeter: Record, t: Tester, events: seq<Event>)
    requires FromStart(t) && Life(greeter, t, events).Some?
    ensures var rec := Life(greeter, t, events).value.record;
      Ticks(events) <= Waiting(greeter, t, events) + Budget(greeter, t, rec)
    decreases |events|
  {
    if events != [] {
      var e, rest := events[0], events[1..];
      var t' := LifeStep(greeter, t, e).value;
      if Rank(t.step) > Rank(RECORDING) {
        RecordStays(greeter, t, events);
      }
      BudgetFalls(greeter, t, e, Life(greeter, t, events).value.record);
      AlwaysFromStart(greeter, t, e);
      AliveWithinBudget(greeter, t', rest);
    }
  }

  /** A tester that is still there has seen at most ceil(samples / frame) + 1 ticks of the greeter, the ticks
      that found it RECORDING before its time was over, one that ended the recording, one each for SAVING
      and SENDING, and ceil(samples / frame) + 1 of the echo.  No assumption about the clock is needed. */
  lemma AliveBound(greeter: Record, t: Tester, events: seq<Event>)
    requires t.step == ENTERING && Life(greeter, t, events).Some?
    ensures var rec := Life(greeter, t, events).value.record;
      Ticks(events)
        <= FramesLeft(greeter, 0) + 1 + Waiting(greeter, t, events) + 1 + 2 + FramesLeft(rec, 0) + 1
  {
    AliveWithinBudget(greeter, t, events);
  }

  // ---- Every tester leaves ----

  /** The first n events of a stream from position i on. */
  function Span(stream: nat -> Event, i: nat, n: nat): seq<Event> {
    seq(n, k requires 0 <= k => stream(i + k))
  }

  /** The clock advances: whenever a recording started, a tick that ends it is still to come. */
  ghost predicate ClockAdvances(stream: nat -> Event) {
    forall i: nat, start: Stamp :: WillEnd(stream, i, start)
  }

  ghost predicate WillEnd(stream: nat -> Event, i: nat, start: Stamp) {
    exists m: nat :: EndsAt(stream, i, start, m)
  }

  ghost predicate EndsAt(stream: nat -> Event, i: nat, start: Stamp, m: nat) {
    i <= m && stream(m).Tick? && Timeout(start, stream(m).now)
  }

  /** Such clocks exist: one that ticks every second advances. */
  function EverySecond(k: nat): Event {
    Tick(TimeVal(k, 0), friend => true)
  }

  lemma EverySecondAdvances()
    ensures ClockAdvances(EverySecond)
  {
    forall i: nat, start: Stamp
      ensures WillEnd(EverySecond, i, start)
    {
      var d := i * NSEC_PER_SEC - Total(start);
      LaterModulo(d, 10 * NSEC_PER_SEC);
      assert Total(EverySecond(i + 10).now) - Total(start) == d + 10 * NSEC_PER_SEC;
      assert EndsAt(EverySecond, i, start, i) || EndsAt(EverySecond, i, start, i + 10);
    }
  }

  lemma LaterModulo(d: int, t: nat)
    requires 2 * t <= TWO_64
    ensures ToUint64(d) >= t || ToUint64(d + t) >= t
  {
    if ToUint64(d) < t {
      assert d + t == d / TWO_64 * TWO_64 + (ToUint64(d) + t);
      ModuloUnique(d + t, d / TWO_64, ToUint64(d) + t);
    }
  }

  lemma ModuloUnique(a: int, q: int, r: int)
    requires a == q * TWO_64 + r && 0 <= r < TWO_64
    ensures a % TWO_64 == r
  {
  }

  /** The later of two steps comes first in this order, and within a step the fewer frames left. */
  function StepsLeft(t: Tester): nat {
    6 - Rank(t.step)
  }

  function PlayLeft(greeter: Record, t: Tester): nat {
    if Plays(t.step) then Left(greeter, t) else 0
  }

  /** No event makes the lexicographic measure greater, and a tick that ends a recording in progress
      makes it less, whatever the step. */
  lemma MeasureFalls(greeter: Record, t: Tester, e: Event)
    ensures match LifeStep(greeter, t, e)
      case None => true
      case Some(t') =>
        || StepsLeft(t') < StepsLeft(t)
        || (StepsLeft(t') == StepsLeft(t) && t'.callstart == t.callstart
            && PlayLeft(greeter, t') <= PlayLeft(greeter, t)
            && (e.Tick? && Timeout(t.callstart, e.now) ==> PlayLeft(greeter, t') < PlayLeft(greeter, t)))
  {
    StepNeverDecreases(greeter, t, e);
    if e.Tick? && Plays(t.step) {
      PlayTick(greeter, t, e.now, e.sends(t.friend));
    }
  }

  /** Every tester is destroyed after finitely many events. */
  lemma {:induction false} EveryTesterLeaves(greeter: Record, t: Tester, stream: nat -> Event, i: nat) returns (n: nat)
    requires ClockAdvances(stream)
    ensures Life(greeter, t, Span(stream, i, n)) == None
    decreases StepsLeft(t), PlayLeft(greeter, t), 1, 0
  {
    assert WillEnd(stream, i, t.callstart);
    var m: nat :| EndsAt(stream, i, t.callstart, m);
    n := LeavesBy(greeter, t, stream, i, m);
  }

  lemma {:induction false} LeavesBy(greeter: Record, t: Tester, stream: nat -> Event, i: nat, m: nat) returns (n: nat)
    requires ClockAdvances(stream) && EndsAt(stream, i, t.callstart, m)
    ensures Life(greeter, t, Span(stream, i, n)) == None
    decreases StepsLeft(t), PlayLeft(greeter, t), 0, m - i
  {
    MeasureFalls(greeter, t, stream(i));
    match LifeStep(greeter, t, stream(i)) {
      case None =>
        n := 1;
      case Some(t') =>
        if StepsLeft(t') < StepsLeft(t) || PlayLeft(greeter, t') < PlayLeft(greeter, t) {
          n := EveryTesterLeaves(greeter, t', stream, i + 1);
        } else {
          n := LeavesBy(greeter, t', stream, i + 1, m);
        }
        n := n + 1;
        assert Span(stream, i, n)[1..] == Span(stream, i + 1, n - 1);
    }
  }
}
