/** The gamma fade as a state machine: a timer dims copies of the hardware ramps.

    Alpha and the ratio are real numbers. The hardware is the ramp of each CRTC. */
module Fade {
  import opened Options

  datatype Ramp = Ramp(r: seq<nat>, g: seq<nat>, b: seq<nat>)

  const NO_RAMP: Ramp := Ramp([], [], [])

  datatype State = State(
    randr: bool,                  // fade_type is XRANDR, and otherwise NONE
    hardware: seq<Ramp>,
    saved: Option<seq<Ramp>>,     // info: a copy per CRTC, without entries where there is none
    active: bool,
    timer: bool,                  // timer_id > 0
    alpha: real,                  // current_alpha
    alphaPerIter: real,
    pending: seq<nat>,            // connected callbacks, by number of registration
    called: seq<nat>,             // callbacks that ran, in order
    registered: nat)

  datatype Event =
    | Async(timeout: nat, callback: bool, modes: seq<bool>, failing: nat)
    | Tick
    | FinishNow
    | Reset

  // ---------------------------------------------------------------- ramps

  function Clamp(alpha: real): (ratio: real)
    ensures 0.0 <= ratio <= 1.0
  {
    if alpha < 0.0 then 0.0 else if alpha > 1.0 then 1.0 else alpha
  }

  /** An unsigned short times a ratio, truncated. */
  function Dim(v: nat, ratio: real): (d: nat)
    requires 0.0 <= ratio <= 1.0
    ensures d <= v
    ensures d as real <= v as real * ratio < d as real + 1.0
  {
    var x := (v as real * ratio).Floor;
    assert 0.0 <= v as real * ratio <= v as real;
    x
  }

  function DimAll(vs: seq<nat>, ratio: real): (r: seq<nat>)
    requires 0.0 <= ratio <= 1.0
    ensures |r| == |vs|
  {
    seq(|vs|, i requires 0 <= i < |vs| => Dim(vs[i], ratio))
  }

  function DimRamp(ramp: Ramp, ratio: real): Ramp
    requires 0.0 <= ratio <= 1.0
  {
    Ramp(DimAll(ramp.r, ratio), DimAll(ramp.g, ratio), DimAll(ramp.b, ratio))
  }

  /** Three tables of one size. */
  predicate Proper(ramp: Ramp) {
    |ramp.r| == |ramp.g| == |ramp.b|
  }

  // ---------------------------------------------------------------- the machine

  /** xrandr_fade_setup: CRTCs without a mode have no copy; reading the gamma of CRTC failing does
      not work, and then the rest of the copies are missing. */
  function Copies(hardware: seq<Ramp>, modes: seq<bool>, failing: nat): (r: seq<Ramp>)
    requires |modes| == |hardware|
    ensures |r| == |hardware|
  {
    var stop := if failing < |modes| && modes[failing] then failing else |modes|;
    seq(|hardware|, i requires 0 <= i < |hardware| => if i < stop && modes[i] then hardware[i] else NO_RAMP)
  }

  function Setup(s: State, modes: seq<bool>, failing: nat): (State, bool)
    requires |modes| == |s.hardware|
  {
    if s.saved.Some? then (s, true)
    else (s.(saved := Some(Copies(s.hardware, modes, failing))), !(failing < |modes| && modes[failing]))
  }

  function SetAlpha(s: State, alpha: real): (State, bool) {
    if !s.randr || s.saved.None? || |s.saved.value| != |s.hardware| then (s, false) else
    (s.(hardware := seq(|s.hardware|, i requires 0 <= i < |s.hardware| =>
          var copy := s.saved.value[i];
          if |copy.r| == 0 then s.hardware[i] else DimRamp(copy, Clamp(alpha)))), true)
  }

  function Stop(s: State): State {
    s.(timer := false, active := false)
  }

  /** gs_fade_finish: every connected callback runs once and disconnects itself. */
  function Finish(s: State): State {
    if !s.active then s
    else Stop(s).(called := s.called + s.pending, pending := [])
  }

  const STEPS_PER_SECOND: nat := 60

  function Steps(timeout: nat): nat {
    timeout * STEPS_PER_SECOND / 1000
  }

  /** 1 / steps. In the division by zero the source gets infinity; any number that takes alpha
      below zero at once does the same, because the ratio is clamped. */
  function PerIter(timeout: nat): (d: real)
    ensures d > 0.0
  {
    if Steps(timeout) == 0 then 2.0 else 1.0 / Steps(timeout) as real
  }

  function Start(s: State, timeout: nat, modes: seq<bool>, failing: nat): State
    requires |modes| == |s.hardware|
  {
    var (s1, ok) := if s.randr then Setup(s, modes, failing) else (s, true);
    if !ok then s1 else Begin(s1, timeout)
  }

  function Begin(s: State, timeout: nat): State {
    var s1 := (if s.timer then Stop(s) else s).(active := true);
    if s.randr then s1.(alphaPerIter := PerIter(timeout), timer := true) else Finish(s1)
  }

  function StartAsync(s: State, timeout: nat, callback: bool, modes: seq<bool>, failing: nat): State
    requires |modes| == |s.hardware|
  {
    var s1 := if s.active then Stop(s) else s;
    var s2 := if callback then s1.(pending := s1.pending + [s1.registered], registered := s1.registered + 1) else s1;
    Start(s2, timeout, modes, failing)
  }

  const DARK: real := 0.01

  function FadeIter(s: State): (State, bool) {
    if s.alpha < DARK then (s, false)
    else
      var alpha := s.alpha - s.alphaPerIter;
      SetAlpha(s.(alpha := alpha), alpha)
  }

  function Timer(s: State): State {
    var (s1, more) := FadeIter(s);
    if more then s1 else Finish(s1)
  }

  function ResetFade(s: State): State {
    var s1 := if s.active then Stop(s) else s;
    var s2 := SetAlpha(s1.(alpha := 1.0), 1.0).0;
    if s.randr then s2.(saved := None) else s2
  }

  /** A timer that is not installed does not fire; the number of CRTCs does not change. */
  function Step(s: State, e: Event): State {
    match e
    case Async(timeout, callback, modes, failing) =>
      if |modes| == |s.hardware| then StartAsync(s, timeout, callback, modes, failing) else s
    case Tick => if s.timer then Timer(s) else s
    case FinishNow => Finish(s)
    case Reset => ResetFade(s)
  }

  function Run(s: State, es: seq<Event>): State
    decreases es
  {
    if es == [] then s else Run(Step(s, es[0]), es[1..])
  }

  function Initial(randr: bool, hardware: seq<Ramp>): State {
    State(randr, hardware, None, false, false, 1.0, 0.0, [], [], 0)
  }

  // ---------------------------------------------------------------- invariant

  predicate HasCopy(s: State, i: nat)
    requires i < |s.hardware|
  {
    s.saved.Some? && i < |s.saved.value| && |s.saved.value[i].r| > 0
  }

  /** The hardware shows the original ramps, dimmed by the clamped alpha where there is a copy. */
  predicate ShowsDimmed(s: State, original: seq<Ramp>) {
    && |s.hardware| == |original|
    && (s.saved.Some? ==> |s.saved.value| == |original|)
    && forall i :: 0 <= i < |original| ==>
         && s.hardware[i] == (if HasCopy(s, i) then DimRamp(original[i], Clamp(s.alpha)) else original[i])
         && (HasCopy(s, i) ==> s.saved.value[i] == original[i])
  }

  predicate Counting(ids: seq<nat>) {
    forall i :: 0 <= i < |ids| ==> ids[i] == i
  }

  predicate Inv(s: State, original: seq<Ramp>) {
    && ShowsDimmed(s, original)
    && s.active == s.timer
    && s.alpha <= 1.0
    && (s.saved.None? ==> s.alpha == 1.0)
    && (s.saved.Some? ==> s.randr)
    && (s.timer ==> s.saved.Some? && s.alphaPerIter > 0.0)
    && Counting(s.called + s.pending) && |s.called + s.pending| == s.registered
  }

  lemma DimByOne(vs: seq<nat>)
    ensures DimAll(vs, 1.0) == vs
  {
  }

  lemma DimRampByOne(ramp: Ramp)
    ensures DimRamp(ramp, 1.0) == ramp
  {
    DimByOne(ramp.r);
    DimByOne(ramp.g);
    DimByOne(ramp.b);
  }

  lemma SetupKeeps(s: State, original: seq<Ramp>, modes: seq<bool>, failing: nat)
    requires Inv(s, original) && s.randr && |modes| == |s.hardware|
    ensures Inv(Setup(s, modes, failing).0, original)
  {
    forall i | 0 <= i < |original| ensures DimRamp(original[i], 1.0) == original[i] {
      DimRampByOne(original[i]);
    }
  }

  lemma SetAlphaKeeps(s: State, original: seq<Ramp>, alpha: real)
    requires Inv(s, original) && alpha <= 1.0 && (s.saved.None? ==> alpha == 1.0)
    ensures Inv(SetAlpha(s.(alpha := alpha), alpha).0, original)
    ensures SetAlpha(s.(alpha := alpha), alpha).1 == (s.randr && s.saved.Some?)
  {
  }

  lemma TimerKeeps(s: State, original: seq<Ramp>)
    requires Inv(s, original) && s.timer
    ensures Inv(Timer(s), original)
  {
    if s.alpha >= DARK {
      SetAlphaKeeps(s, original, s.alpha - s.alphaPerIter);
    }
  }

  lemma StartAsyncKeeps(s: State, original: seq<Ramp>, timeout: nat, callback: bool, modes: seq<bool>, failing: nat)
    requires Inv(s, original) && |modes| == |s.hardware|
    ensures Inv(StartAsync(s, timeout, callback, modes, failing), original)
  {
    var s1 := if s.active then Stop(s) else s;
    var s2 := if callback then s1.(pending := s1.pending + [s1.registered], registered := s1.registered + 1) else s1;
    assert s2.called + s2.pending == s.called + s.pending + if callback then [s.registered] else [];
    if s.randr {
      SetupKeeps(s2, original, modes, failing);
    } else {
      assert Finish(s2.(active := true)).called + [] == s2.called + s2.pending;
    }
  }

  lemma ResetKeeps(s: State, original: seq<Ramp>)
    requires Inv(s, original)
    ensures Inv(ResetFade(s), original)
    ensures ResetFade(s).hardware == original && ResetFade(s).saved.None? && !ResetFade(s).timer
  {
    var s1 := if s.active then Stop(s) else s;
    SetAlphaKeeps(s1, original, 1.0);
    forall i | 0 <= i < |original| ensures DimRamp(original[i], 1.0) == original[i] {
      DimRampByOne(original[i]);
    }
  }

  lemma StepKeepsInv(s: State, original: seq<Ramp>, e: Event)
    requires Inv(s, original)
    ensures Inv(Step(s, e), original)
  {
    match e
    case Async(timeout, callback, modes, failing) =>
      if |modes| == |s.hardware| { StartAsyncKeeps(s, original, timeout, callback, modes, failing); }
    case Tick => if s.timer { TimerKeeps(s, original); }
    case FinishNow => assert s.called + s.pending + [] == s.called + s.pending;
    case Reset => ResetKeeps(s, original);
  }

  lemma {:induction false} RunKeepsInv(s: State, original: seq<Ramp>, es: seq<Event>)
    requires Inv(s, original)
    ensures Inv(Run(s, es), original)
    decreases es
  {
    if es != [] {
      StepKeepsInv(s, original, es[0]);
      RunKeepsInv(Step(s, es[0]), original, es[1..]);
    }
  }

  lemma {:induction false} RunKeepsRandr(s: State, es: seq<Event>)
    ensures Run(s, es).randr == s.randr
    decreases es
  {
    if es != [] {
      RunKeepsRandr(Step(s, es[0]), es[1..]);
    }
  }

  // ---------------------------------------------------------------- theorems

  /** RESTORATION. However fades were started, restarted, finished, failed or reset before, the
      hardware shows exactly the original ramps after a reset; in between it shows them dimmed. */
  lemma ResetRestores(randr: bool, original: seq<Ramp>, es: seq<Event>)
    ensures var s := Run(Initial(randr, original), es);
            && ShowsDimmed(s, original) && s.active == s.timer
            && Step(s, Reset).hardware == original && Step(s, Reset).alpha == 1.0 && !Step(s, Reset).active
  {
    RunKeepsInv(Initial(randr, original), original, es);
    ResetKeeps(Run(Initial(randr, original), es), original);
  }

  /** CALLBACKS. In every run each registered callback has been called once, in the order of
      registration, or is still pending, and a fade that completes leaves none pending. */
  lemma CallbacksOnce(randr: bool, original: seq<Ramp>, es: seq<Event>, e: Event)
    ensures var s := Run(Initial(randr, original), es);
            && s.called + s.pending == seq(s.registered, i => i)
            && s.called <= Step(s, e).called
            && (Step(s, e).called != s.called ==> Step(s, e).pending == [])
            && (s.active && (e.FinishNow? || (e.Tick? && !Step(s, e).active)) ==> Step(s, e).pending == [])
            && (e.Async? && |e.modes| == |original| && !randr ==> Step(s, e).pending == [])
  {
    RunKeepsInv(Initial(randr, original), original, es);
    RunKeepsRandr(Initial(randr, original), es);
  }

  lemma DimMonotone(v: nat, w: nat, p: real, q: real)
    requires v <= w && 0.0 <= p <= q <= 1.0
    ensures Dim(v, p) <= Dim(w, q)
  {
    var x, y := v as real * p, w as real * q;
    assert x <= w as real * p <= y;
    assert x.Floor as real <= x && y < (y.Floor + 1) as real;
  }

  /** A ramp that is sorted stays sorted while it is dimmed, and no entry gets brighter. */
  lemma DimKeepsOrder(vs: seq<nat>, p: real, q: real)
    requires 0.0 <= p <= q <= 1.0
    ensures forall i :: 0 <= i < |vs| ==> DimAll(vs, p)[i] <= DimAll(vs, q)[i]
    ensures (forall i, j :: 0 <= i < j < |vs| ==> vs[i] <= vs[j])
        ==> (forall i, j :: 0 <= i < j < |vs| ==> DimAll(vs, p)[i] <= DimAll(vs, p)[j])
  {
    forall i | 0 <= i < |vs| ensures DimAll(vs, p)[i] <= DimAll(vs, q)[i] {
      DimMonotone(vs[i], vs[i], p, q);
    }
    if forall i, j :: 0 <= i < j < |vs| ==> vs[i] <= vs[j] {
      forall i, j | 0 <= i < j < |vs| ensures DimAll(vs, p)[i] <= DimAll(vs, p)[j] {
        DimMonotone(vs[i], vs[j], p, p);
      }
    }
  }

  predicate Darker(a: Ramp, b: Ramp) {
    && |a.r| == |b.r| && |a.g| == |b.g| && |a.b| == |b.b|
    && (forall i :: 0 <= i < |a.r| ==> a.r[i] <= b.r[i])
    && (forall i :: 0 <= i < |a.g| ==> a.g[i] <= b.g[i])
    && (forall i :: 0 <= i < |a.b| ==> a.b[i] <= b.b[i])
  }

  /** A tick of the timer never makes anything brighter. */
  lemma TickDims(s: State, original: seq<Ramp>)
    requires Inv(s, original)
    ensures var t := Step(s, Tick);
            |t.hardware| == |s.hardware| && forall i :: 0 <= i < |s.hardware| ==> Darker(t.hardware[i], s.hardware[i])
  {
    var t := Step(s, Tick);
    if s.timer && s.alpha >= DARK {
      var p, q := Clamp(s.alpha - s.alphaPerIter), Clamp(s.alpha);
      forall i | 0 <= i < |s.hardware| ensures Darker(t.hardware[i], s.hardware[i]) {
        DimKeepsOrder(original[i].r, p, q);
        DimKeepsOrder(original[i].g, p, q);
        DimKeepsOrder(original[i].b, p, q);
      }
    }
  }

  function Ticks(s: State, n: nat): State {
    if n == 0 then s else Step(Ticks(s, n - 1), Tick)
  }

  lemma OneTick(s: State, original: seq<Ramp>)
    requires Inv(s, original) && s.timer
    ensures var t := Step(s, Tick);
            && Inv(t, original) && t.alphaPerIter == s.alphaPerIter
            && t.timer == (s.alpha >= DARK)
            && (t.timer ==> t.alpha == s.alpha - s.alphaPerIter)
            && (!t.timer ==> t.pending == [] && t.alpha == s.alpha)
            && t.saved == s.saved
  {
    StepKeepsInv(s, original, Tick);
    if s.alpha >= DARK {
      SetAlphaKeeps(s, original, s.alpha - s.alphaPerIter);
    }
  }

  /** Alpha after n steps. */
  function Lowered(alpha: real, step: real, n: nat): real {
    if n == 0 then alpha else Lowered(alpha, step, n - 1) - step
  }

  lemma {:induction false} LoweredIs(alpha: real, step: real, n: nat)
    ensures Lowered(alpha, step, n) == alpha - n as real * step
  {
    if n > 0 {
      LoweredIs(alpha, step, n - 1);
      assert n as real == (n - 1) as real + 1.0;
    }
  }

  /** After n ticks a fade is over, or has dimmed n times. */
  lemma {:induction false} TicksDim(s: State, original: seq<Ramp>, n: nat)
    requires Inv(s, original) && s.timer
    ensures var t := Ticks(s, n);
            && Inv(t, original)
            && (t.timer ==> t.alphaPerIter == s.alphaPerIter && t.alpha == Lowered(s.alpha, s.alphaPerIter, n))
            && (!t.timer ==> t.pending == [] && t.alpha < DARK)
            && (t.timer <==> n == 0 || Lowered(s.alpha, s.alphaPerIter, n - 1) >= DARK)
            && t.saved == s.saved
  {
    if n > 0 {
      TicksDim(s, original, n - 1);
      var t := Ticks(s, n - 1);
      if t.timer {
        OneTick(t, original);
      }
    }
  }

  function MaxTicks(timeout: nat): nat {
    (if Steps(timeout) == 0 then 1 else Steps(timeout)) + 1
  }

  lemma TicksKeepRegistered(s: State, n: nat)
    ensures Ticks(s, n).registered == s.registered
  {
  }

  lemma EnoughSteps(timeout: nat)
    ensures (MaxTicks(timeout) - 1) as real * PerIter(timeout) >= 1.0
  {
  }

  lemma Started(s: State, timeout: nat, callback: bool, modes: seq<bool>, failing: nat)
    requires |modes| == |s.hardware|
    requires s.randr && (s.saved.Some? || failing >= |modes| || !modes[failing])
    ensures var f := StartAsync(s, timeout, callback, modes, failing);
            && f.registered == s.registered + (if callback then 1 else 0)
            && f.timer && f.alphaPerIter == PerIter(timeout)
  {
  }

  /** TERMINATION. A fade that can start (a copy is there or every gamma can be read), with N steps
      and from whatever alpha, is over after N + 1 ticks if it is left alone (two when N is zero);
      the callbacks have run, also those of fades that were started before and did not finish, and
      less than one hundredth of the light is left. */
  lemma FadeEnds(s: State, original: seq<Ramp>, timeout: nat, callback: bool, modes: seq<bool>, failing: nat)
    requires Inv(s, original) && |modes| == |s.hardware|
    requires s.randr && (s.saved.Some? || failing >= |modes| || !modes[failing])
    ensures var t := Ticks(StartAsync(s, timeout, callback, modes, failing), MaxTicks(timeout));
            && !t.active && t.pending == [] && |t.called| == s.registered + (if callback then 1 else 0)
            && t.alpha < DARK && ShowsDimmed(t, original)
  {
    StartAsyncKeeps(s, original, timeout, callback, modes, failing);
    Started(s, timeout, callback, modes, failing);
    EnoughSteps(timeout);
    FadeRunsOut(StartAsync(s, timeout, callback, modes, failing), original, MaxTicks(timeout) - 1);
  }

  lemma FadeRunsOut(f: State, original: seq<Ramp>, n: nat)
    requires Inv(f, original) && f.timer && n as real * f.alphaPerIter >= 1.0
    ensures var t := Ticks(f, n + 1);
            && !t.active && t.pending == [] && |t.called| == f.registered && t.alpha < DARK && ShowsDimmed(t, original)
  {
    TicksDim(f, original, n + 1);
    LoweredIs(f.alpha, f.alphaPerIter, n);
    TicksKeepRegistered(f, n + 1);
  }

  // ---------------------------------------------------------------- what is on the screen

  /** Every entry is the original times alpha, truncated, for an alpha between 0 and 1. */
  predicate ScaledTable(vs: seq<nat>, ds: seq<nat>, alpha: real) {
    && |ds| == |vs|
    && forall i :: 0 <= i < |vs| ==>
         if alpha <= 0.0 then ds[i] == 0
         else if alpha >= 1.0 then ds[i] == vs[i]
         else ds[i] as real <= vs[i] as real * alpha < ds[i] as real + 1.0
  }

  predicate Scaled(original: Ramp, shown: Ramp, alpha: real) {
    && ScaledTable(original.r, shown.r, alpha)
    && ScaledTable(original.g, shown.g, alpha)
    && ScaledTable(original.b, shown.b, alpha)
  }

  lemma DimScales(ramp: Ramp, alpha: real)
    ensures Scaled(ramp, DimRamp(ramp, Clamp(alpha)), alpha)
  {
  }

  /** In every run the hardware shows each ramp that has a copy scaled by alpha, and the others as
      they were. */
  lemma RunShowsScaled(randr: bool, original: seq<Ramp>, es: seq<Event>, i: nat)
    requires i < |original|
    ensures var s := Run(Initial(randr, original), es);
            && |s.hardware| == |original|
            && if HasCopy(s, i) then Scaled(original[i], s.hardware[i], s.alpha) else s.hardware[i] == original[i]
  {
    RunKeepsInv(Initial(randr, original), original, es);
    DimScales(original[i], Run(Initial(randr, original), es).alpha);
  }

  /** The gamma of CRTC k cannot be read. */
  predicate Unreadable(modes: seq<bool>, failing: nat, k: nat) {
    k < |modes| && modes[k] && k == failing
  }

  /** A first setup copies the ramp of each CRTC that has a mode, up to the one it fails on. */
  lemma SetupCopies(s: State, modes: seq<bool>, failing: nat)
    requires |modes| == |s.hardware| && s.saved.None?
    ensures var (r, ok) := Setup(s, modes, failing);
            && ok == (forall k: nat :: !Unreadable(modes, failing, k))
            && r == s.(saved := r.saved) && r.saved.Some? && |r.saved.value| == |s.hardware|
            && forall i :: 0 <= i < |s.hardware| ==>
                 if modes[i] && (forall k: nat :: k <= i ==> !Unreadable(modes, failing, k))
                 then r.saved.value[i] == s.hardware[i] else r.saved.value[i] == NO_RAMP
  {
    if failing < |modes| && modes[failing] {
      assert Unreadable(modes, failing, failing);
    }
  }

  // ---------------------------------------------------------------- what each event does

  predicate CanStart(s: State, modes: seq<bool>, failing: nat) {
    s.randr && (s.saved.Some? || failing >= |modes| || !modes[failing])
  }

  /** A fade that can start goes on from the current alpha, with the old callbacks and the new one; if
      the gamma cannot be read nothing starts and the callbacks stay; without RandR they are called
      at once. The screen stays as it is. */
  lemma AsyncDoes(s: State, original: seq<Ramp>, timeout: nat, callback: bool, modes: seq<bool>, failing: nat)
    requires Inv(s, original) && |modes| == |s.hardware|
    ensures var r := Step(s, Async(timeout, callback, modes, failing));
            var pending := s.pending + if callback then [s.registered] else [];
            && r.hardware == s.hardware && r.alpha == s.alpha
            && r.registered == s.registered + (if callback then 1 else 0)
            && (r.active <==> CanStart(s, modes, failing))
            && (if s.randr then r.called == s.called && r.pending == pending
                else r.called == s.called + pending && r.pending == [])
            && (if !s.randr || s.saved.Some? then r.saved == s.saved else r.saved == Setup(s, modes, failing).0.saved)
  {
  }

  /** Finishing stops an active fade where it is and calls what is pending; an inactive one is left. */
  lemma FinishDoes(s: State)
    ensures Step(s, FinishNow)
         == if s.active then s.(active := false, timer := false, called := s.called + s.pending, pending := [])
            else s
  {
  }

  lemma TickDoes(s: State, original: seq<Ramp>)
    requires Inv(s, original)
    ensures var r := Step(s, Tick);
            if !s.timer then r == s
            else if s.alpha < 0.01 then
              r == s.(active := false, timer := false, called := s.called + s.pending, pending := [])
            else r == s.(alpha := s.alpha - s.alphaPerIter, hardware := r.hardware)
  {
    if s.timer && s.alpha >= DARK {
      SetAlphaKeeps(s, original, s.alpha - s.alphaPerIter);
    }
  }

  /** A reset calls nobody; those who wait go on waiting. */
  lemma ResetDoes(s: State, original: seq<Ramp>)
    requires Inv(s, original)
    ensures Step(s, Reset)
         == s.(hardware := original, saved := None, active := false, timer := false, alpha := 1.0)
  {
    ResetKeeps(s, original);
  }

  /** FADING. A fade of N = timeout * 60 / 1000 steps, N at least 1, lowers alpha by 1/N with every
      tick until less than one hundredth is left, and not longer or shorter. */
  lemma FadeLowers(s: State, original: seq<Ramp>, timeout: nat, callback: bool, modes: seq<bool>, failing: nat,
                   n: nat, step: real)
    requires Inv(s, original) && |modes| == |s.hardware| && CanStart(s, modes, failing)
    requires timeout * 60 / 1000 > 0 && step == 1.0 / (timeout * 60 / 1000) as real
    ensures var t := Ticks(StartAsync(s, timeout, callback, modes, failing), n);
            && (t.active <==> n == 0 || s.alpha - (n - 1) as real * step >= 0.01)
            && (t.active ==> t.alpha == s.alpha - n as real * step)
            && Inv(t, original)
  {
    StartAsyncKeeps(s, original, timeout, callback, modes, failing);
    Started(s, timeout, callback, modes, failing);
    AsyncDoes(s, original, timeout, callback, modes, failing);
    LowersFrom(StartAsync(s, timeout, callback, modes, failing), original, n, s.alpha, step);
  }

  lemma LowersFrom(f: State, original: seq<Ramp>, n: nat, alpha: real, step: real)
    requires Inv(f, original) && f.timer && f.alpha == alpha && f.alphaPerIter == step
    ensures var t := Ticks(f, n);
            && (t.active <==> n == 0 || alpha - (n - 1) as real * step >= 0.01)
            && (t.active ==> t.alpha == alpha - n as real * step)
            && Inv(t, original)
  {
    TicksDim(f, original, n);
    LoweredIs(alpha, step, n);
    if n > 0 { LoweredIs(alpha, step, n - 1); }
  }

  /** The first fade: after n ticks, while it lasts, each CRTC with a mode shows its ramp scaled by
      1 - n/N, and every other CRTC its own. */
  lemma FirstFadeShows(s: State, original: seq<Ramp>, timeout: nat, callback: bool, modes: seq<bool>, failing: nat,
                       n: nat, i: nat, step: real)
    requires Inv(s, original) && |modes| == |s.hardware| && s.randr && s.saved.None?
    requires forall k: nat :: !Unreadable(modes, failing, k)
    requires timeout * 60 / 1000 > 0 && i < |original| && step == 1.0 / (timeout * 60 / 1000) as real
    ensures var t := Ticks(StartAsync(s, timeout, callback, modes, failing), n);
            t.active ==>
              && |t.hardware| == |original|
              && if modes[i] && |original[i].r| > 0
                 then Scaled(original[i], t.hardware[i], 1.0 - n as real * step)
                 else t.hardware[i] == original[i]
  {
    assert !Unreadable(modes, failing, failing);
    FadeLowers(s, original, timeout, callback, modes, failing, n, step);
    AsyncDoes(s, original, timeout, callback, modes, failing);
    StartAsyncKeeps(s, original, timeout, callback, modes, failing);
    Started(s, timeout, callback, modes, failing);
    SetupCopies(s, modes, failing);
    var f := StartAsync(s, timeout, callback, modes, failing);
    TicksDim(f, original, n);
    DimScales(original[i], Ticks(f, n).alpha);
  }
}
