/** The audio-cue hook's bookkeeping: a round-robin pool of key-press clips,
    the keydown gate in front of it, the audio context created on the first
    completion chime and reused afterwards, the three-tone chime schedule,
    and the reference count that disconnects the chime's shared gain once
    every tone has ended. Sound itself is not modelled: clips, contexts and
    gain nodes are plain values. */
module AudioCues {
  import opened Common

  const KeySound: string := "/press_down.mp3"
  const PoolSize: nat := 8
  const PoolVolume: real := 0.35

  /** What the browser offers: `window`, `Audio`, an `AudioContext` class
      (standard or webkit-prefixed), whether constructing it throws, and the
      state a new context starts in. */
  datatype Env = Env(hasWindow: bool, hasAudio: bool, hasAudioContext: bool,
                     contextThrows: bool, initialState: ContextState)

  // ---------------------------------------------------------------------
  // createAudioPool
  // ---------------------------------------------------------------------

  /** A JavaScript number used as an array index: a whole number, or `NaN`
      (what `(pointer + 1) % 0` yields). */
  datatype Index = At(n: nat) | NaN

  /** One preloaded `Audio` element. */
  datatype Clip = Clip(src: string, volume: real, playing: bool)

  datatype Pool = Pool(clips: seq<Clip>, pointer: Index)

  /** A pool whose pointer indexes one of its clips. */
  predicate PointerInRange(p: Pool) {
    p.pointer.At? && p.pointer.n < |p.clips|
  }

  /** `createAudioPool(src, size, volume)`: `null` without `window` or
      `Audio`; otherwise `size` silent clips and the pointer at 0. */
  function CreateAudioPool(env: Env, src: string, size: nat, volume: real): (p: Option<Pool>)
    ensures p.Some? <==> env.hasWindow && env.hasAudio
    ensures p.Some? ==> |p.value.clips| == size && p.value.pointer == At(0)
    ensures p.Some? ==> forall i :: 0 <= i < size ==> p.value.clips[i] == Clip(src, volume, false)
  {
    if !env.hasWindow || !env.hasAudio then None
    else Some(Pool(seq(size, _ => Clip(src, volume, false)), At(0)))
  }

  /** `pointer = (pointer + 1) % elements.length`. */
  function Advance(pointer: Index, size: nat): (r: Index)
    ensures size == 0 ==> r == NaN
    ensures size > 0 && pointer.At? && pointer.n < size ==> r.At? && r.n < size
  {
    if size == 0 then NaN
    else match pointer
      case At(n) => At((n + 1) % size)
      case NaN => NaN
  }

  /** `play()`: take the clip under the pointer (none when the index is out
      of range or `NaN`), advance the pointer, and restart that clip. The
      second component is the index of the clip played. */
  function Play(p: Pool): (r: (Pool, Option<nat>))
    ensures |r.0.clips| == |p.clips|
    ensures r.1.Some? <==> PointerInRange(p)
    ensures r.1.Some? ==> r.1.value == p.pointer.n && r.0.clips[r.1.value].playing
    ensures forall i :: 0 <= i < |p.clips| && r.1 != Some(i) ==> r.0.clips[i] == p.clips[i]
    ensures PointerInRange(p) ==> PointerInRange(r.0)
  {
    var clips := if PointerInRange(p) then p.clips[p.pointer.n := p.clips[p.pointer.n].(playing := true)]
                 else p.clips;
    (Pool(clips, Advance(p.pointer, |p.clips|)), if PointerInRange(p) then Some(p.pointer.n) else None)
  }

  /** `dispose()`: pause every clip; the pointer is left where it is. */
  function Dispose(p: Pool): (r: Pool)
    ensures |r.clips| == |p.clips| && r.pointer == p.pointer
    ensures forall i :: 0 <= i < |r.clips| ==> !r.clips[i].playing
    ensures forall i :: 0 <= i < |r.clips| ==> r.clips[i].src == p.clips[i].src && r.clips[i].volume == p.clips[i].volume
  {
    Pool(seq(|p.clips|, i requires 0 <= i < |p.clips| => p.clips[i].(playing := false)), p.pointer)
  }

  /** `k` successive plays: the pool after them and the clip each one used. */
  function PlayTimes(p: Pool, k: nat): (r: (Pool, seq<Option<nat>>))
    ensures |r.1| == k && |r.0.clips| == |p.clips|
  {
    if k == 0 then (p, [])
    else
      var before := PlayTimes(p, k - 1);
      var after := Play(before.0);
      (after.0, before.1 + [after.1])
  }

  /** Round robin: from a fresh pool of `size > 0` clips the j-th play uses
      clip `j % size`, and after k plays the pointer is at `k % size`. */
  lemma RoundRobin(env: Env, src: string, size: nat, volume: real, k: nat)
    requires env.hasWindow && env.hasAudio && size > 0
    ensures PlayTimes(CreateAudioPool(env, src, size, volume).value, k).0.pointer == At(k % size)
    ensures forall j :: 0 <= j < k ==> PlayTimes(CreateAudioPool(env, src, size, volume).value, k).1[j] == Some(j % size)
  {
    RoundRobinFrom(CreateAudioPool(env, src, size, volume).value, k);
  }

  lemma {:induction false} RoundRobinFrom(p: Pool, k: nat)
    requires p.pointer == At(0) && |p.clips| > 0
    ensures PlayTimes(p, k).0.pointer == At(k % |p.clips|)
    ensures forall j :: 0 <= j < k ==> PlayTimes(p, k).1[j] == Some(j % |p.clips|)
  {
    if k > 0 {
      RoundRobinFrom(p, k - 1);
      PlayTimesStep(p, k);
      PlayAt(PlayTimes(p, k - 1).0, k - 1, k);
    }
  }

  /** A play from a pointer at `a % size` uses that clip and leaves the
      pointer at `b % size`, for `b == a + 1`. */
  lemma PlayAt(q: Pool, a: nat, b: nat)
    requires |q.clips| > 0 && q.pointer == At(a % |q.clips|) && b == a + 1
    ensures Play(q).1 == Some(a % |q.clips|)
    ensures Play(q).0.pointer == At(b % |q.clips|)
  {
    ModSucc(a, |q.clips|);
  }

  lemma PlayTimesStep(p: Pool, k: nat)
    requires k > 0
    ensures PlayTimes(p, k).0 == Play(PlayTimes(p, k - 1).0).0
    ensures PlayTimes(p, k).1 == PlayTimes(p, k - 1).1 + [Play(PlayTimes(p, k - 1).0).1]
  {
  }

  lemma ModSucc(a: nat, m: nat)
    requires m > 0
    ensures (a % m + 1) % m == (a + 1) % m
  {
    var q := a / m;
    var r := a % m;
    assert a == q * m + r;
    if r + 1 < m {
      DivModUnique(a + 1, m, q, r + 1);
      DivModUnique(r + 1, m, 0, r + 1);
    } else {
      DivModUnique(a + 1, m, q + 1, 0);
      DivModUnique(r + 1, m, 1, 0);
    }
  }

  /** A pool without clips never plays anything and never changes a clip
      (its pointer becomes `NaN` on the first play and stays there). */
  lemma {:induction false} EmptyPoolSilent(p: Pool, k: nat)
    requires |p.clips| == 0
    ensures forall j :: 0 <= j < k ==> PlayTimes(p, k).1[j] == None
    ensures k > 0 ==> PlayTimes(p, k).0.pointer == NaN
  {
    if k > 0 {
      EmptyPoolSilent(p, k - 1);
    }
  }

  // ---------------------------------------------------------------------
  // useAudioCues
  // ---------------------------------------------------------------------

  datatype ContextState = Running | Suspended | Closed

  /** An `AudioContext`, with the number of `resume()` calls made on it. */
  datatype AudioContext = AudioContext(state: ContextState, resumeRequests: nat)

  /** The hook's refs: the keypress flag mirrored into a ref, the completion
      flag captured by `playCompletion`, the key pool, the audio context,
      whether the keydown listener is attached, and how many contexts the
      hook has constructed. */
  datatype Cues = Cues(keypressOn: bool, completionOn: bool, pool: Option<Pool>,
                       context: Option<AudioContext>, listening: bool, contextsCreated: nat)

  /** What the hook keeps true while mounted: a pool exists only while
      keypress sounds are on and is a full pool whose pointer indexes a clip;
      at most one context was ever constructed, and it is the one held. */
  predicate Consistent(st: Cues) {
    && (st.pool.Some? ==> st.keypressOn && |st.pool.value.clips| == PoolSize && PointerInRange(st.pool.value))
    && st.contextsCreated == (if st.context.Some? then 1 else 0)
  }

  /** The keypress effect body: mirror the flag; when off, dispose and drop
      the pool (second component: the pool disposed); when on, create a
      pool unless one exists. */
  function KeypressEffect(env: Env, st: Cues, enabled: bool): (r: (Cues, Option<Pool>))
    ensures r.0.keypressOn == enabled
    ensures !enabled ==> r.0.pool == None
    ensures enabled && st.pool.Some? ==> r.0.pool == st.pool
    ensures enabled && st.pool.None? ==> r.0.pool == CreateAudioPool(env, KeySound, PoolSize, PoolVolume)
    ensures r.1.Some? <==> !enabled && st.pool.Some?
    ensures r.1.Some? ==> r.1.value == Dispose(st.pool.value)
    ensures r.0.context == st.context && r.0.listening == st.listening && r.0.completionOn == st.completionOn
  {
    var st1 := st.(keypressOn := enabled);
    if !enabled then
      (st1.(pool := None), if st.pool.Some? then Some(Dispose(st.pool.value)) else None)
    else if st.pool.None? then
      (st1.(pool := CreateAudioPool(env, KeySound, PoolSize, PoolVolume)), None)
    else (st1, None)
  }

  /** The keypress effect's cleanup (registered only by a run with the flag
      on): dispose and drop the pool. */
  function KeypressCleanup(st: Cues): (r: (Cues, Option<Pool>))
    ensures r.0.pool == None
    ensures r.1.Some? <==> st.pool.Some?
    ensures r.1.Some? ==> r.1.value == Dispose(st.pool.value)
    ensures r.0 == st.(pool := None)
    ensures Consistent(st) ==> Consistent(r.0)
    ensures r.1.Some? ==> |r.1.value.clips| == |st.pool.value.clips|
    ensures r.1.Some? ==> forall i :: 0 <= i < |r.1.value.clips| ==> !r.1.value.clips[i].playing
  {
    (st.(pool := None), if st.pool.Some? then Some(Dispose(st.pool.value)) else None)
  }

  /** Mounting: fresh refs, then the three effects in order (keypress pool,
      keydown listener attached when `window` exists, context cleanup which
      does nothing on mount). */
  function Mount(env: Env, keypressOn: bool, completionOn: bool): (st: Cues)
    ensures Consistent(st)
    ensures st.pool.Some? <==> keypressOn && env.hasWindow && env.hasAudio
    ensures st.listening == env.hasWindow && st.context == None
  {
    var initial := Cues(keypressOn, completionOn, None, None, false, 0);
    KeypressEffect(env, initial, keypressOn).0.(listening := env.hasWindow)
  }

  /** A re-render with `keypressEnabled := enabled`: the effect re-runs only
      when the flag changed, after the previous run's cleanup (a run with
      the flag off registered none). The pool disposed, if any, comes
      second. */
  function SetKeypress(env: Env, st: Cues, enabled: bool): (r: (Cues, Option<Pool>))
    requires Consistent(st)
    ensures Consistent(r.0)
    ensures r.0.keypressOn == enabled
    ensures !enabled ==> r.0.pool == None
    ensures enabled && !st.keypressOn ==> (r.0.pool.Some? <==> env.hasWindow && env.hasAudio)
    ensures enabled && st.keypressOn ==> r.0 == st && r.1 == None
    ensures r.1.Some? <==> !enabled && st.pool.Some?
    ensures r.1.Some? ==> forall i :: 0 <= i < |r.1.value.clips| ==> !r.1.value.clips[i].playing
  {
    if enabled == st.keypressOn then (st, None)
    else
      var cleaned := if st.keypressOn then KeypressCleanup(st) else (st, None);
      var ran := KeypressEffect(env, cleaned.0, enabled);
      (ran.0, if cleaned.1.Some? then cleaned.1 else ran.1)
  }

  /** The modifier keys of a `KeyboardEvent`. */
  datatype KeyEvent = KeyEvent(metaKey: bool, ctrlKey: bool, altKey: bool)

  /** The keydown listener's gate: the listener is attached, no modifier is
      held, keypress sounds are on and a pool exists. */
  predicate KeyGate(st: Cues, ev: KeyEvent) {
    st.listening && !ev.metaKey && !ev.ctrlKey && !ev.altKey && st.keypressOn && st.pool.Some?
  }

  /** The keydown listener: nothing when the gate is shut; otherwise one
      `play()` of the pool, which advances the pointer even when it names no
      clip. The second component is the clip played. */
  function KeyDown(st: Cues, ev: KeyEvent): (r: (Cues, Option<nat>))
    ensures !KeyGate(st, ev) ==> r == (st, None)
    ensures KeyGate(st, ev) ==> r.0 == st.(pool := Some(Play(st.pool.value).0))
    ensures Consistent(st) && r.1.None? ==> r.0 == st
    ensures Consistent(st) ==> Consistent(r.0)
    ensures Consistent(st) ==> (r.1.Some? <==> KeyGate(st, ev))
    ensures r.1.Some? ==> st.pool.Some? && PointerInRange(st.pool.value) && r.1.value == st.pool.value.pointer.n
    ensures r.1.Some? ==> r.0.pool.Some? && |r.0.pool.value.clips| == |st.pool.value.clips| &&
                          r.0.pool.value.clips[r.1.value].playing
  {
    if !KeyGate(st, ev) then (st, None)
    else
      var played := Play(st.pool.value);
      (st.(pool := Some(played.0)), played.1)
  }

  /** One entry of a gain envelope: `setValueAtTime` or
      `exponentialRampToValueAtTime`. */
  datatype GainPoint = SetAt(value: real, time: real) | RampTo(value: real, time: real)

  /** A triangle oscillator: its frequency, start and stop times. */
  datatype Tone = Tone(frequency: real, start: real, stop: real)

  datatype Chime = Chime(envelope: seq<GainPoint>, tones: seq<Tone>)

  const ToneCount: nat := 3
  const ToneLength: real := 0.32
  const ToneGap: real := 0.12
  const EnvelopeEnd: real := 0.7

  /** C5, E5 and G5. */
  function ToneFrequency(i: nat): real
    requires i < ToneCount
  {
    [523.25, 659.25, 783.99][i]
  }

  /** The chime scheduled at context time `now`. */
  function ChimeAt(now: real): (c: Chime)
    ensures |c.tones| == ToneCount
    ensures forall i :: 0 <= i < ToneCount ==> c.tones[i].start == now + ToneGap * i as real
    ensures forall i :: 0 <= i < ToneCount ==> c.tones[i].stop == c.tones[i].start + ToneLength
    ensures forall i, j :: 0 <= i < j < ToneCount ==> c.tones[i].frequency < c.tones[j].frequency
    ensures forall i :: 0 <= i < ToneCount ==> now <= c.tones[i].start < c.tones[i].stop < now + EnvelopeEnd
    ensures |c.envelope| == 3 && c.envelope[0] == SetAt(0.001, now)
    ensures c.envelope[2] == RampTo(0.00001, now + EnvelopeEnd)
  {
    var offsets := [0.0, 0.12, 0.24];
    Chime([SetAt(0.001, now), RampTo(0.4, now + 0.04), RampTo(0.00001, now + 0.7)],
          seq(ToneCount, i requires 0 <= i < ToneCount =>
                Tone(ToneFrequency(i), now + offsets[i], now + offsets[i] + 0.32)))
  }

  /** A re-render with `completionEnabled := enabled`: `useCallback` builds
      a new `playCompletion` around the flag, and nothing else changes. */
  function SetCompletion(st: Cues, enabled: bool): (r: Cues)
    ensures r.completionOn == enabled
    ensures r.pool == st.pool && r.context == st.context && r.keypressOn == st.keypressOn
    ensures r.listening == st.listening && r.contextsCreated == st.contextsCreated
    ensures Consistent(st) ==> Consistent(r)
  {
    st.(completionOn := enabled)
  }

  /** `playCompletion()` at context time `now`: nothing without `window` or
      with completion sounds off; the context is constructed on first use
      (nothing when no class exists or the constructor throws) and reused
      afterwards; a suspended context is asked to resume; then the chime is
      scheduled. */
  function PlayCompletion(env: Env, st: Cues, now: real): (r: (Cues, Option<Chime>))
    ensures r.1.None? ==> r.0 == st
    ensures r.1.Some? <==> env.hasWindow && st.completionOn &&
                            (st.context.Some? || (env.hasAudioContext && !env.contextThrows))
    ensures r.1.Some? ==> r.1.value == ChimeAt(now) && r.0.context.Some?
    ensures st.context.Some? ==> r.0.contextsCreated == st.contextsCreated
    ensures st.context.Some? && r.1.Some? ==>
              r.0.context.value.state == st.context.value.state &&
              r.0.context.value.resumeRequests ==
                st.context.value.resumeRequests + (if st.context.value.state == Suspended then 1 else 0)
    ensures Consistent(st) ==> Consistent(r.0)
    ensures r.0.pool == st.pool && r.0.keypressOn == st.keypressOn
  {
    if !env.hasWindow || !st.completionOn then (st, None)
    else if st.context.None? && (!env.hasAudioContext || env.contextThrows) then (st, None)
    else
      var created := st.context.None?;
      var ctx := if created then AudioContext(env.initialState, 0) else st.context.value;
      var resumed := if ctx.state == Suspended then ctx.(resumeRequests := ctx.resumeRequests + 1) else ctx;
      (st.(context := Some(resumed), contextsCreated := st.contextsCreated + (if created then 1 else 0)),
       Some(ChimeAt(now)))
  }

  /** Switched off, a completion plays nothing and changes nothing; switched
      on, it chimes whenever a context is already held. */
  lemma CompletionToggle(env: Env, st: Cues, now: real)
    ensures PlayCompletion(env, SetCompletion(st, false), now) == (SetCompletion(st, false), None)
    ensures env.hasWindow && st.context.Some? ==>
              PlayCompletion(env, SetCompletion(st, true), now).1 == Some(ChimeAt(now))
  {
  }

  /** Successive `playCompletion` calls at the given context times. */
  function PlayCompletions(env: Env, st: Cues, times: seq<real>): (r: Cues)
    ensures r.pool == st.pool
  {
    if |times| == 0 then st
    else PlayCompletion(env, PlayCompletions(env, st, times[..|times| - 1]), times[|times| - 1]).0
  }

  /** However many chimes are played, at most one context is ever
      constructed, and once the hook holds one it keeps it. */
  lemma {:induction false} ContextCreatedOnce(env: Env, st: Cues, times: seq<real>)
    requires Consistent(st)
    ensures Consistent(PlayCompletions(env, st, times))
    ensures PlayCompletions(env, st, times).contextsCreated <= 1
    ensures st.context.Some? ==> PlayCompletions(env, st, times).context.Some?
  {
    if |times| > 0 {
      ContextCreatedOnce(env, st, times[..|times| - 1]);
    }
  }

  /** Unmounting runs the cleanups in effect order: the keypress cleanup
      (registered only while keypress sounds are on), the listener removal,
      and closing the context. Returns the disposed pool and the closed
      context. */
  function Unmount(st: Cues): (r: (Cues, Option<Pool>, Option<AudioContext>))
    ensures r.0.context == None && !r.0.listening
    ensures Consistent(st) ==> r.0.pool == None
    ensures r.1.Some? <==> st.keypressOn && st.pool.Some?
    ensures r.2.Some? <==> st.context.Some?
    ensures r.2.Some? ==> r.2.value.state == Closed
  {
    var cleaned := if st.keypressOn then KeypressCleanup(st) else (st, None);
    var closed := if st.context.Some? then Some(st.context.value.(state := Closed)) else None;
    (cleaned.0.(listening := false, context := None), cleaned.1, closed)
  }

  // ---------------------------------------------------------------------
  // The chime's gain teardown
  // ---------------------------------------------------------------------

  /** `activeOscillators`, which tone listeners are still attached (each is
      registered with `once: true`), and how many times the gain was
      disconnected. */
  datatype Teardown = Teardown(active: int, attached: seq<bool>, disconnects: nat)

  const FreshTeardown: Teardown := Teardown(ToneCount, [true, true, true], 0)

  /** Tone `i` fires `ended`: a detached (or unknown) listener does nothing;
      otherwise it detaches, decrements the count and disconnects the gain
      when the count reaches zero. */
  function Ended(t: Teardown, i: nat): (r: Teardown)
    ensures |r.attached| == |t.attached|
    ensures r.disconnects <= t.disconnects + 1
  {
    if i >= |t.attached| || !t.attached[i] then t
    else
      var active := t.active - 1;
      Teardown(active, t.attached[i := false], if active == 0 then t.disconnects + 1 else t.disconnects)
  }

  /** The teardown after the given `ended` events, in order. */
  function EndedAll(events: seq<nat>): (r: Teardown)
    ensures |r.attached| == ToneCount
  {
    if |events| == 0 then FreshTeardown
    else Ended(EndedAll(events[..|events| - 1]), events[|events| - 1])
  }

  /** Number of listeners still attached. */
  function Live(attached: seq<bool>): (n: nat)
    ensures n <= |attached|
  {
    if |attached| == 0 then 0 else (if attached[0] then 1 else 0) + Live(attached[1..])
  }

  lemma {:induction false} LiveDetach(attached: seq<bool>, i: nat)
    requires i < |attached| && attached[i]
    ensures Live(attached[i := false]) == Live(attached) - 1
  {
    if i > 0 {
      LiveDetach(attached[1..], i - 1);
      assert attached[i := false][1..] == attached[1..][i - 1 := false];
    }
  }

  lemma {:induction false} LiveZero(attached: seq<bool>)
    ensures Live(attached) == 0 <==> forall k :: 0 <= k < |attached| ==> !attached[k]
  {
    if |attached| > 0 {
      LiveZero(attached[1..]);
      assert forall k :: 1 <= k < |attached| ==> attached[k] == attached[1..][k - 1];
    }
  }

  /** The bookkeeping after `events`: listener k is attached exactly when
      no event for k has arrived, the count is the number still attached,
      and the gain has been disconnected once exactly when it is zero. */
  predicate TeardownAfter(t: Teardown, events: seq<nat>) {
    && |t.attached| == ToneCount
    && (forall k :: 0 <= k < ToneCount ==> t.attached[k] == (k !in events))
    && t.active == Live(t.attached)
    && t.disconnects == (if t.active == 0 then 1 else 0)
  }

  lemma {:induction false} TeardownInvariant(events: seq<nat>)
    ensures TeardownAfter(EndedAll(events), events)
  {
    if |events| == 0 {
      assert Live(FreshTeardown.attached) == 3;
    } else {
      var prefix := events[..|events| - 1];
      var i := events[|events| - 1];
      TeardownInvariant(prefix);
      assert events == prefix + [i];
      var t := EndedAll(prefix);
      if i < |t.attached| && t.attached[i] {
        LiveDetach(t.attached, i);
        LiveZero(t.attached);
      }
    }
  }

  /** The gain is disconnected at most once, and exactly when every tone has
      fired `ended`; the count never goes negative. */
  lemma TeardownOnce(events: seq<nat>)
    ensures EndedAll(events).disconnects <= 1
    ensures EndedAll(events).active >= 0
    ensures EndedAll(events).disconnects == 1 <==> forall k :: 0 <= k < ToneCount ==> k in events
  {
    TeardownInvariant(events);
    LiveZero(EndedAll(events).attached);
  }
}
