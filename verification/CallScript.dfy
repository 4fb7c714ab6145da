/** What the friend of a call test gets to see and hear, from the call to the hang-up. */
module CallScript {
  import opened Bytes
  import opened Sequences
  import opened Friends
  import opened CallSteps
  import opened CallTable

  // ---- The frames of a recording ----

  /** The frames still to come: the next one and those behind it, or none but perhaps an empty one. */
  lemma FramesAhead(friend: uint32, rec: Record, sent: nat)
    ensures var size, ahead := FrameSize(rec.samplerate), Frames(friend, rec, sent, EchoLength(rec, sent));
      if FramesLeft(rec, sent) > 0
      then ahead == [SendFrame(friend, rec, sent * rec.channels, size)]
          + Frames(friend, rec, sent + size, EchoLength(rec, sent + size))
      else ahead == if sent < rec.samplesCount then [SendFrame(friend, rec, sent * rec.channels, size)] else []
  {
    NoFrameLeft(rec, sent);
    if FramesLeft(rec, sent) > 0 {
      OneFrameLess(rec, sent);
    } else if sent < rec.samplesCount {
      assert Frames(friend, rec, sent + FrameSize(rec.samplerate), 0) == [];
    }
  }

  // ---- The greeter ----

  /** A tick in ENTERING or GREETER: the friend is muted at first, the next frame is sent, and with the last
      one it is unmuted and the recording starts. */
  lemma GreeterTick(greeter: Record, t: Tester, now: Stamp, ok: bool)
    requires t.step == ENTERING || t.step == GREETER
    ensures var sent, size := if t.step == ENTERING then 0 else t.sent, FrameSize(greeter.samplerate);
      var first := if t.step == ENTERING then [Mute(t.friend)] else [];
      var frame :=
        if sent < greeter.samplesCount then [SendFrame(t.friend, greeter, sent * greeter.channels, size)] else [];
      var t' := t.(delay := FrameDelay(greeter.samplerate));
      var more := ok && FramesLeft(greeter, sent) > 0;
      && OneShot(greeter, t, now, ok)
        == Some(if more then t'.(step := GREETER, sent := sent + size)
                else t'.(step := RECORDING, sent := sent, callstart := now))
      && OneShotEffects(greeter, t, now, ok) == first + frame + if more then [] else [Unmute(t.friend)]
  {
    var sent := if t.step == ENTERING then 0 else t.sent;
    NoFrameLeft(greeter, sent);
    var frame := PlaybackEffects(t.(sent := sent), greeter);
    assert frame + [] == frame;
    Assoc(if t.step == ENTERING then [Mute(t.friend)] else [], frame, [Unmute(t.friend)]);
  }

  /** The rest of the greeter from a tester in GREETER on. */
  ghost function Greeting(greeter: Record, friend: uint32, sent: nat): seq<Effect> {
    Frames(friend, greeter, sent, EchoLength(greeter, sent)) + [Unmute(friend)]
  }

  /** The ticks of the other steps that play nothing: RECORDING waits and ends with a mute, SAVING and SENDING
      take one tick each, and BYE cancels the call and is the only end. */
  lemma OtherTicks(greeter: Record, t: Tester, now: Stamp, ok: bool)
    requires Total(t.callstart) <= Total(now) < Total(t.callstart) + 0x1_0000_0000_0000_0000
    ensures var over := Total(now) - Total(t.callstart) >= 10_000_000_000;
      var after, effects := OneShot(greeter, t, now, ok), OneShotEffects(greeter, t, now, ok);
      match t.step
      case RECORDING =>
        after == Some(if over then t.(step := SAVING) else t) && effects == if over then [Mute(t.friend)] else []
      case SAVING =>
        after == Some(t.(step := SENDING, sent := 0))
        && effects == [SaveWav(t.outfile, t.record.pcm, t.record.channels, t.record.samplerate)]
      case SENDING => after == Some(t.(step := ECHOING)) && effects == [OfferFile(t.friend, t.outfile)]
      case BYE => after == None && effects == [Cancel(t.friend)]
      case _ => after.Some?
  {
    TenSeconds(t.callstart, now);
  }

  // ---- The whole call ----

  /** The record of a tester at the end of the events, or when it was destroyed. */
  ghost function FinalRecord(greeter: Record, t: Tester, events: seq<Event>): Record
    decreases |events|
  {
    if events == [] then t.record
    else
      match LifeStep(greeter, t, events[0])
      case None => t.record
      case Some(t') => FinalRecord(greeter, t', events[1..])
  }

  lemma {:induction false} FinalRecordStays(greeter: Record, t: Tester, events: seq<Event>)
    requires Rank(t.step) > Rank(RECORDING)
    ensures FinalRecord(greeter, t, events) == t.record
    decreases |events|
  {
    if events != [] {
      StepNeverDecreases(greeter, t, events[0]);
      match LifeStep(greeter, t, events[0]) {
        case None =>
        case Some(t') => FinalRecordStays(greeter, t', events[1..]);
      }
    }
  }

  /** What is to come from a step on, if rec is the final recording. */
  ghost function FromRecording(t: Tester, rec: Record): seq<Effect> {
    [Mute(t.friend)] + FromSaving(t, rec)
  }

  ghost function FromSaving(t: Tester, rec: Record): seq<Effect> {
    [SaveWav(t.outfile, rec.pcm, rec.channels, rec.samplerate)] + FromSending(t, rec)
  }

  ghost function FromSending(t: Tester, rec: Record): seq<Effect> {
    [OfferFile(t.friend, t.outfile)] + FromEchoing(t, rec, 0)
  }

  ghost function FromEchoing(t: Tester, rec: Record, sent: nat): seq<Effect> {
    Frames(t.friend, rec, sent, EchoLength(rec, sent)) + [Cancel(t.friend)]
  }

  ghost function Script(greeter: Record, t: Tester, rec: Record): seq<Effect> {
    match t.step
    case ENTERING => [Mute(t.friend)] + (Greeting(greeter, t.friend, 0) + FromRecording(t, rec))
    case GREETER => Greeting(greeter, t.friend, t.sent) + FromRecording(t, rec)
    case RECORDING => FromRecording(t, rec)
    case SAVING => FromSaving(t, rec)
    case SENDING => FromSending(t, rec)
    case ECHOING => FromEchoing(t, rec, t.sent)
    case BYE => [Cancel(t.friend)]
  }

  ghost function Ahead(greeter: Record, after: Option<Tester>, rec: Record): seq<Effect> {
    match after
    case None => []
    case Some(t) => Script(greeter, t, rec)
  }

  lemma PrefixOff<T>(a: seq<T>, b: seq<T>, c: seq<T>)
    ensures [] + c == c && c + [] == c && a + b + c == a + (b + c)
  {
  }

  lemma FrameFollows<T>(effects: seq<T>, ahead: seq<T>, script: seq<T>, m: seq<T>, f: T, a: seq<T>, u: seq<T>,
                        r: seq<T>)
    requires effects == m + [f] + [] && ahead == a + u + r && script == m + ([f] + a + u + r)
    ensures effects + ahead == script
  {
  }

  lemma UnmuteFollows<T>(effects: seq<T>, ahead: seq<T>, script: seq<T>, m: seq<T>, f: seq<T>, u: seq<T>, r: seq<T>)
    requires effects == m + f + u && ahead == r && script == m + (f + u + r)
    ensures effects + ahead == script
  {
  }

  ghost function First(t: Tester): seq<Effect> {
    if t.step == ENTERING then [Mute(t.friend)] else []
  }

  lemma GreetingScript(greeter: Record, t: Tester, rec: Record)
    requires t.step == ENTERING || t.step == GREETER
    ensures var sent := if t.step == ENTERING then 0 else t.sent;
      Script(greeter, t, rec) == First(t) + (Frames(t.friend, greeter, sent, EchoLength(greeter, sent))
        + [Unmute(t.friend)] + FromRecording(t, rec))
  {
    var rest := Greeting(greeter, t.friend, t.sent) + FromRecording(t, rec);
    assert [] + rest == rest;
  }

  /** A tick of the greeter follows the script. */
  lemma GreeterFollows(greeter: Record, t: Tester, now: Stamp, rec: Record)
    requires t.step == ENTERING || t.step == GREETER
    ensures OneShotEffects(greeter, t, now, true) + Ahead(greeter, OneShot(greeter, t, now, true), rec)
      == Script(greeter, t, rec)
  {
    var sent := if t.step == ENTERING then 0 else t.sent;
    var frames := Frames(t.friend, greeter, sent, EchoLength(greeter, sent));
    GreeterTick(greeter, t, now, true);
    FramesAhead(t.friend, greeter, sent);
    GreetingScript(greeter, t, rec);
    if FramesLeft(greeter, sent) > 0 {
      OneFrameLess(greeter, sent);
      FrameFollows(OneShotEffects(greeter, t, now, true), Ahead(greeter, OneShot(greeter, t, now, true), rec),
                   Script(greeter, t, rec), First(t), frames[0], frames[1..], [Unmute(t.friend)],
                   FromRecording(t, rec));
    } else {
      UnmuteFollows(OneShotEffects(greeter, t, now, true), Ahead(greeter, OneShot(greeter, t, now, true), rec),
                    Script(greeter, t, rec), First(t), frames, [Unmute(t.friend)], FromRecording(t, rec));
    }
  }

  lemma EchoFollows(greeter: Record, t: Tester, now: Stamp)
    requires t.step == ECHOING
    ensures OneShotEffects(greeter, t, now, true) + Ahead(greeter, OneShot(greeter, t, now, true), t.record)
      == Script(greeter, t, t.record)
  {
    NoFrameLeft(t.record, t.sent);
    FramesAhead(t.friend, t.record, t.sent);
    if FramesLeft(t.record, t.sent) > 0 {
      OneFrameLess(t.record, t.sent);
    }
  }

  /** Every event follows the script, unless it ends the call early or a send fails. */
  lemma StepFollows(greeter: Record, t: Tester, e: Event, rec: Record)
    requires FromStart(t) && !Ends(e, t.friend) && (e.Tick? ==> e.sends(t.friend))
    requires Rank(t.step) > Rank(RECORDING) ==> rec == t.record
    ensures StepEffects(greeter, t, e) + Ahead(greeter, LifeStep(greeter, t, e), rec) == Script(greeter, t, rec)
  {
    match t.step
    case ENTERING => if e.Tick? { GreeterFollows(greeter, t, e.now, rec); }
    case GREETER => if e.Tick? { GreeterFollows(greeter, t, e.now, rec); }
    case ECHOING => if e.Tick? { EchoFollows(greeter, t, e.now); }
    case RECORDING => assert [] + FromRecording(t, rec) == FromRecording(t, rec);
    case SAVING =>
    case SENDING =>
    case BYE =>
  }

  /** Whatever happens in between, an undisturbed call whose sends succeed does to the outside what its script
      says, in that order, and what is still to come is the rest of the script; once the tester is destroyed
      it was the whole script. */
  lemma {:induction false} CallFollowsScript(greeter: Record, t: Tester, events: seq<Event>)
    requires FromStart(t) && Undisturbed(events, t.friend) && AllSent(events, t.friend)
    ensures var rec := FinalRecord(greeter, t, events);
      LifeEffects(greeter, t, events) + Ahead(greeter, Life(greeter, t, events), rec) == Script(greeter, t, rec)
    decreases |events|
  {
    var rec := FinalRecord(greeter, t, events);
    if events != [] {
      var e, rest := events[0], events[1..];
      Rest(events, t.friend);
      StepNeverDecreases(greeter, t, e);
      AlwaysFromStart(greeter, t, e);
      if Rank(t.step) > Rank(RECORDING) {
        FinalRecordStays(greeter, t, events);
      }
      StepFollows(greeter, t, e, rec);
      match LifeStep(greeter, t, e) {
        case None =>
        case Some(t') =>
          CallFollowsScript(greeter, t', rest);
          PrefixOff(StepEffects(greeter, t, e), LifeEffects(greeter, t', rest),
                    Ahead(greeter, Life(greeter, t', rest), rec));
      }
    }
  }

  // ---- When the greeter is over ----

  /** The time of the last tick. */
  ghost function LastTick(events: seq<Event>): Stamp
    requires Ticks(events) > 0
  {
    if Ticks(events[1..]) == 0 then events[0].now else LastTick(events[1..])
  }

  /** Without a tick an undisturbed tester stays where it is. */
  lemma {:induction false} Quiet(greeter: Record, t: Tester, events: seq<Event>)
    requires Ticks(events) == 0 && Undisturbed(events, t.friend)
    ensures var r := Life(greeter, t, events);
      r.Some? && r.value.step == t.step && r.value.callstart == t.callstart
    decreases |events|
  {
    if events != [] {
      Rest(events, t.friend);
      Quiet(greeter, LifeStep(greeter, t, events[0]).value, events[1..]);
    }
  }

  /** The recording starts with the tick behind the last frame of the greeter, at the time of that tick. */
  lemma {:induction false} GreeterEnds(greeter: Record, t: Tester, events: seq<Event>)
    requires t.step == ENTERING || t.step == GREETER
    requires Undisturbed(events, t.friend) && AllSent(events, t.friend) && Ticks(events) == Left(greeter, t) + 1
    ensures var r := Life(greeter, t, events);
      r.Some? && r.value.step == RECORDING && r.value.callstart == LastTick(events)
    decreases |events|
  {
    var e, rest := events[0], events[1..];
    Rest(events, t.friend);
    StepNeverDecreases(greeter, t, e);
    var t' := LifeStep(greeter, t, e).value;
    if e.Tick? {
      GreeterTick(greeter, t, e.now, e.sends(t.friend));
      PlayTick(greeter, t, e.now, e.sends(t.friend));
    }
    if t'.step == RECORDING {
      Quiet(greeter, t', rest);
    } else {
      GreeterEnds(greeter, t', rest);
    }
  }

  /** A friend whose call begins is muted, hears the whole greeter frame by frame, and is unmuted when the
      recording starts. */
  lemma Greeted(greeter: Record, t: Tester, events: seq<Event>)
    requires t.step == ENTERING && Undisturbed(events, t.friend) && AllSent(events, t.friend)
    requires Ticks(events) == FramesLeft(greeter, 0) + 1
    ensures LifeEffects(greeter, t, events)
      == [Mute(t.friend)] + Frames(t.friend, greeter, 0, EchoLength(greeter, 0)) + [Unmute(t.friend)]
    ensures var r := Life(greeter, t, events);
      r.Some? && r.value.step == RECORDING && r.value.callstart == LastTick(events)
  {
    GreeterEnds(greeter, t, events);
    CallFollowsScript(greeter, t, events);
    LifeForward(greeter, t, events);
    var rec := FinalRecord(greeter, t, events);
    var frames := Frames(t.friend, greeter, 0, EchoLength(greeter, 0));
    SameFront(LifeEffects(greeter, t, events), [Mute(t.friend)], frames, [Unmute(t.friend)], FromRecording(t, rec));
  }

  lemma SameFront<T>(s: seq<T>, m: seq<T>, f: seq<T>, u: seq<T>, r: seq<T>)
    requires s + r == m + (f + u + r)
    ensures s == m + f + u
  {
    var all := s + r;
    assert all == m + f + u + r;
    assert s == all[..|all| - |r|] && m + f + u == all[..|all| - |r|];
  }

  // ---- A call from its first event to the hang-up ----

  ghost function HeardNow(t: Tester, e: Event): seq<Sample> {
    if e.Audio? && e.friend == t.friend && t.step == RECORDING then e.frame.pcm else []
  }

  lemma StepRecords(greeter: Record, t: Tester, e: Event, channels: uint8)
    requires e.Audio? && e.friend == t.friend ==> e.frame.channels == channels
    requires t.record.samplesCount == 0 || t.record.channels == channels
    ensures match LifeStep(greeter, t, e)
      case None => HeardNow(t, e) == []
      case Some(t') =>
        t'.friend == t.friend && t'.record.pcm == t.record.pcm + HeardNow(t, e)
        && (t'.record.samplesCount == 0 || t'.record.channels == channels)
  {
    StepNeverDecreases(greeter, t, e);
    assert t.record.pcm + [] == t.record.pcm;
    if e.Audio? && e.friend == t.friend && t.step == RECORDING {
      ReceivedAppends(t.record, e.frame, e.undefined);
    }
  }

  /** The samples that arrive for a tester while it is RECORDING. */
  ghost function LifeHeard(greeter: Record, t: Tester, events: seq<Event>): seq<Sample>
    decreases |events|
  {
    if events == [] then []
    else
      HeardNow(t, events[0]) +
      match LifeStep(greeter, t, events[0])
      case None => []
      case Some(t') => LifeHeard(greeter, t', events[1..])
  }

  /** The final recording is what was recorded before and what is heard from then on. */
  lemma {:induction false} FinalRecordHeard(greeter: Record, t: Tester, events: seq<Event>, channels: uint8)
    requires OneChannelCount(events, t.friend, channels)
    requires t.record.samplesCount == 0 || t.record.channels == channels
    ensures FinalRecord(greeter, t, events).pcm == t.record.pcm + LifeHeard(greeter, t, events)
    decreases |events|
  {
    if events != [] {
      var e, rest := events[0], events[1..];
      assert forall k {:trigger rest[k]} :: 0 <= k < |rest| ==> rest[k] == events[k + 1];
      var now := HeardNow(t, e);
      StepRecords(greeter, t, e, channels);
      match LifeStep(greeter, t, e) {
        case None =>
        case Some(t') =>
          FinalRecordHeard(greeter, t', rest, channels);
          Assoc(t.record.pcm, now, LifeHeard(greeter, t', rest));
      }
    }
  }

  /** A whole call, in the order of its effects: the friend is muted, hears the greeter, is unmuted and
      recorded, is muted again; the recording, which is exactly what was heard, is saved and offered as a
      file, played back from its first sample, and the call is cancelled. */
  lemma WholeCall(greeter: Record, t: Tester, events: seq<Event>, channels: uint8) returns (rec: Record)
    requires t.step == ENTERING && t.record.samplesCount == 0
    requires Undisturbed(events, t.friend) && AllSent(events, t.friend) && OneChannelCount(events, t.friend, channels)
    requires Life(greeter, t, events) == None
    ensures rec.pcm == LifeHeard(greeter, t, events)
    ensures LifeEffects(greeter, t, events) ==
      [Mute(t.friend)] + Frames(t.friend, greeter, 0, EchoLength(greeter, 0)) + [Unmute(t.friend)]
      + [Mute(t.friend), SaveWav(t.outfile, rec.pcm, rec.channels, rec.samplerate), OfferFile(t.friend, t.outfile)]
      + Frames(t.friend, rec, 0, EchoLength(rec, 0)) + [Cancel(t.friend)]
  {
    rec := FinalRecord(greeter, t, events);
    CallFollowsScript(greeter, t, events);
    FinalRecordHeard(greeter, t, events, channels);
    assert LifeEffects(greeter, t, events) + [] == LifeEffects(greeter, t, events);
    OneByOne(Mute(t.friend), Frames(t.friend, greeter, 0, EchoLength(greeter, 0)), Unmute(t.friend),
             SaveWav(t.outfile, rec.pcm, rec.channels, rec.samplerate), OfferFile(t.friend, t.outfile),
             Frames(t.friend, rec, 0, EchoLength(rec, 0)), [Cancel(t.friend)]);
  }

  lemma OneByOne<T>(m: T, f: seq<T>, u: T, s: T, o: T, g: seq<T>, c: seq<T>)
    ensures [m] + (f + [u] + ([m] + ([s] + ([o] + (g + c))))) == [m] + f + [u] + [m, s, o] + g + c
  {
  }

  /** What the events do to the place of a friend in the table, spelled out. */
  lemma CallSpelled(greeter: Record, ts: seq<Tester>, friend: uint32, raw: Raw, f: uint32)
    requires Sorted(ts)
    ensures Find(Apply(greeter, ts, Event.Call(friend, raw)), f) ==
      if f == friend && Find(ts, f) == None
      then Some(Tester(friend, ENTERING, raw.sent, Record([], raw.channels, 0, raw.samplerate), raw.callstart,
                       20_000_000, raw.outfile))
      else Find(ts, f)
  {
    Pointwise(greeter, ts, Event.Call(friend, raw), f);
  }

  /** Bit 0 is an error and does nothing, bit 2 begins a call like a call event, bit 1 alone ends it. */
  lemma StateSpelled(greeter: Record, ts: seq<Tester>, friend: uint32, state: uint32, raw: Raw, f: uint32)
    requires Sorted(ts)
    ensures Find(Apply(greeter, ts, CallState(friend, state, raw)), f) ==
      if f != friend || state % 2 == 1 then Find(ts, f)
      else if state / 4 % 2 == 1 then Find(Apply(greeter, ts, Event.Call(friend, raw)), f)
      else if state / 2 % 2 == 1 && Find(ts, f).Some? then Some(Find(ts, f).value.(step := BYE))
      else Find(ts, f)
  {
    Pointwise(greeter, ts, CallState(friend, state, raw), f);
    Pointwise(greeter, ts, Event.Call(friend, raw), f);
    IndexOfFirst(ts, f);
  }

  /** A frame reaches the friend's tester during RECORDING, and nobody else. */
  lemma AudioSpelled(greeter: Record, ts: seq<Tester>, friend: uint32, frame: FullRecord, undefined: nat -> Sample,
                     f: uint32)
    requires Sorted(ts)
    ensures var found, after := Find(ts, f), Find(Apply(greeter, ts, Audio(friend, frame, undefined)), f);
      if f == friend && found.Some? && found.value.step == RECORDING
      then after.Some? && after.value == found.value.(record := after.value.record)
        && var r := found.value.record;
          r.samplesCount == 0 || r.channels == frame.channels ==>
            after.value.record
              == Record(r.pcm + frame.pcm, frame.channels, r.samplesCount + frame.samplesCount, frame.samplerate)
      else after == found
  {
    Pointwise(greeter, ts, Audio(friend, frame, undefined), f);
    IndexOfFirst(ts, f);
    var found := Find(ts, f);
    if found.Some? && (found.value.record.samplesCount == 0 || found.value.record.channels == frame.channels) {
      ReceivedAppends(found.value.record, frame, undefined);
    }
  }

  /** The effects of a pass are those of its testers, in their order. */
  lemma {:induction false} PassEffects(greeter: Record, ts: seq<Tester>, now: Stamp, sends: uint32 -> bool, i: nat)
    requires i < |ts|
    ensures TickEffects(greeter, ts, now, sends)
      == TickEffects(greeter, ts[..i], now, sends) + OneShotEffects(greeter, ts[i], now, sends(ts[i].friend))
        + TickEffects(greeter, ts[i + 1..], now, sends)
    decreases |ts|
  {
    if i > 0 {
      var rest := ts[1..];
      PassEffects(greeter, rest, now, sends, i - 1);
      TailOf(ts, i);
      FourParts(OneShotEffects(greeter, ts[0], now, sends(ts[0].friend)),
                TickEffects(greeter, rest[..i - 1], now, sends),
                OneShotEffects(greeter, ts[i], now, sends(ts[i].friend)),
                TickEffects(greeter, ts[i + 1..], now, sends));
    }
  }

  lemma TailOf<T>(s: seq<T>, i: nat)
    requires 0 < i < |s|
    ensures s[1..][i - 1] == s[i] && s[1..][..i - 1] == s[..i][1..] && s[..i][0] == s[0] && s[1..][i..] == s[i + 1..]
  {
  }

  lemma FourParts<T>(a: seq<T>, b: seq<T>, c: seq<T>, d: seq<T>)
    ensures a + (b + c + d) == a + b + c + d
  {
  }

  /** From the event on that begins a call of a friend without a tester: after as many ticks as the greeter has
      frames, and one more, the friend has heard the greeter and the table holds its tester in RECORDING,
      started at the time of the last tick. */
  lemma GreetedInTable(greeter: Record, ts: seq<Tester>, friend: uint32, raw: Raw, more: seq<Event>)
    requires Sorted(ts) && Find(ts, friend) == None
    requires Undisturbed(more, friend) && AllSent(more, friend) && Ticks(more) == FramesLeft(greeter, 0) + 1
    ensures var t := Find(Apply(greeter, ts, Event.Call(friend, raw)), friend);
      && t.Some?
      && LifeEffects(greeter, t.value, more)
        == [Mute(friend)] + Frames(friend, greeter, 0, EchoLength(greeter, 0)) + [Unmute(friend)]
    ensures var r := Find(After(greeter, ts, [Event.Call(friend, raw)] + more), friend);
      r.Some? && r.value.step == RECORDING && r.value.callstart == LastTick(more)
  {
    var e := Event.Call(friend, raw);
    var ts' := Apply(greeter, ts, e);
    CallSpelled(greeter, ts, friend, raw, friend);
    Pointwise(greeter, ts, e, friend);
    var t := Find(ts', friend).value;
    FindMember(ts', friend, t);
    Greeted(greeter, t, more);
    var n := LifeInTable(greeter, ts', t, more);
    assert ([e] + more)[1..] == more;
  }
}
