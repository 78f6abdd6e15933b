/** The fade of module Fade as it is programmed: an object whose fields the calls and the timer
    change, and loops over the CRTCs and over the entries of their ramps. */
module FadeObjects {
  import opened Options
  import F = Fade

  /** A CRTC of the RandR screen; its ramp is what the hardware shows. */
  class Crtc {
    var ramp: F.Ramp

    constructor (ramp: F.Ramp)
      ensures this.ramp == ramp
    {
      this.ramp := ramp;
    }

    method SetGamma(r: array<nat>, g: array<nat>, b: array<nat>)
      modifies this
      ensures ramp == F.Ramp(r[..], g[..], b[..])
    {
      ramp := F.Ramp(r[..], g[..], b[..]);
    }

    /** xrandr_crtc_whack_gamma: three new tables filled entry by entry. */
    method WhackGamma(info: F.Ramp, alpha: real)
      requires F.Proper(info)
      modifies this
      ensures ramp == if |info.r| == 0 then old(ramp) else F.DimRamp(info, F.Clamp(alpha))
    {
      var size := |info.r|;
      if size == 0 {
        return;
      }
      var ratio := alpha;
      if ratio < 0.0 {
        ratio := 0.0;
      }
      if ratio > 1.0 {
        ratio := 1.0;
      }
      var r, g, b := new nat[size], new nat[size], new nat[size];
      for i := 0 to size
        invariant r[..i] == F.DimAll(info.r, ratio)[..i]
        invariant g[..i] == F.DimAll(info.g, ratio)[..i]
        invariant b[..i] == F.DimAll(info.b, ratio)[..i]
      {
        r[i] := F.Dim(info.r[i], ratio);
        g[i] := F.Dim(info.g[i], ratio);
        b[i] := F.Dim(info.b[i], ratio);
      }
      assert r[..] == F.DimAll(info.r, ratio) && g[..] == F.DimAll(info.g, ratio) && b[..] == F.DimAll(info.b, ratio);
      SetGamma(r, g, b);
    }
  }

  function Hardware(crtcs: seq<Crtc>): seq<F.Ramp>
    reads crtcs
  {
    seq(|crtcs|, i requires 0 <= i < |crtcs| reads crtcs => crtcs[i].ramp)
  }

  class Fade {
    const randr: bool
    const crtcs: seq<Crtc>
    var info: array?<F.Ramp>
    var active: bool
    var timer: bool
    var currentAlpha: real
    var alphaPerIter: real
    var handlers: seq<nat>   // connected to the signal faded
    var called: seq<nat>
    var registered: nat

    ghost predicate Valid()
      reads this, crtcs, info
    {
      && (forall i, j :: 0 <= i < j < |crtcs| ==> crtcs[i] != crtcs[j])
      && (forall c :: c in crtcs ==> F.Proper(c.ramp))
      && (info != null ==> info.Length == |crtcs| && forall k :: 0 <= k < info.Length ==> F.Proper(info[k]))
    }

    ghost function View(): F.State
      reads this, crtcs, info
    {
      F.State(randr, Hardware(crtcs), if info == null then None else Some(info[..]), active, timer, currentAlpha,
              alphaPerIter, handlers, called, registered)
    }

    constructor (randr: bool, crtcs: seq<Crtc>)
      requires forall i, j :: 0 <= i < j < |crtcs| ==> crtcs[i] != crtcs[j]
      requires forall c :: c in crtcs ==> F.Proper(c.ramp)
      ensures Valid() && this.crtcs == crtcs
      ensures View() == F.Initial(randr, Hardware(crtcs))
    {
      this.randr, this.crtcs := randr, crtcs;
      info := null;
      active, timer := false, false;
      currentAlpha, alphaPerIter := 1.0, 0.0;
      handlers, called, registered := [], [], 0;
    }

    /** xrandr_fade_setup. The array starts out zeroed and is filled up to the first CRTC whose
        gamma cannot be read. */
    method Setup(modes: seq<bool>, failing: nat) returns (ok: bool)
      requires Valid() && |modes| == |crtcs|
      modifies this`info
      ensures Valid() && (View(), ok) == F.Setup(old(View()), modes, failing)
      ensures info == old(info) || fresh(info)
    {
      if info != null {
        return true;
      }
      var copies := new F.Ramp[|crtcs|](_ => F.NO_RAMP);
      info := copies;
      ghost var all := F.Copies(Hardware(crtcs), modes, failing);
      var i := 0;
      while i < |crtcs|
        invariant 0 <= i <= |crtcs| && info == copies
        invariant failing < i ==> !modes[failing]
        invariant copies[..i] == all[..i]
        invariant forall k :: i <= k < |crtcs| ==> copies[k] == F.NO_RAMP
        invariant forall k :: 0 <= k < |crtcs| ==> F.Proper(copies[k])
      {
        if modes[i] {
          if i == failing {
            assert copies[..] == all;
            return false;
          }
          copies[i] := crtcs[i].ramp;
        }
        i := i + 1;
      }
      assert copies[..] == all;
      return true;
    }

    /** gs_fade_set_alpha and xrandr_fade_set_alpha_gamma */
    method SetAlpha(alpha: real) returns (ok: bool)
      requires Valid()
      modifies crtcs
      ensures Valid() && (View(), ok) == F.SetAlpha(old(View()), alpha)
    {
      if !randr || info == null {
        return false;
      }
      for i := 0 to |crtcs|
        invariant Valid()
        invariant forall k :: i <= k < |crtcs| ==> crtcs[k].ramp == old(crtcs[k].ramp)
        invariant forall k :: 0 <= k < i ==>
          crtcs[k].ramp == if |info[k].r| == 0 then old(crtcs[k].ramp) else F.DimRamp(info[k], F.Clamp(alpha))
      {
        crtcs[i].WhackGamma(info[i], alpha);
      }
      assert Hardware(crtcs) == F.SetAlpha(old(View()), alpha).0.hardware;
      return true;
    }

    method Stop()
      requires Valid()
      modifies this`timer, this`active
      ensures Valid() && View() == F.Stop(old(View()))
    {
      if timer {
        timer := false;
      }
      active := false;
    }

    /** Emitting faded: every handler disconnects itself and calls its function. */
    method EmitFaded()
      requires Valid()
      modifies this`handlers, this`called
      ensures Valid() && View() == old(View()).(called := old(called) + old(handlers), pending := [])
    {
      while |handlers| > 0
        invariant called + handlers == old(called) + old(handlers)
        decreases |handlers|
      {
        var h := handlers[0];
        handlers := handlers[1..];
        called := called + [h];
      }
      assert called == called + handlers;
    }

    method Finish()
      requires Valid()
      modifies this
      ensures Valid() && info == old(info) && View() == F.Finish(old(View()))
    {
      if !active {
        return;
      }
      Stop();
      EmitFaded();
      active := false;
    }

    method Start(timeout: nat, modes: seq<bool>, failing: nat)
      requires Valid() && |modes| == |crtcs|
      modifies this
      ensures Valid() && View() == F.Start(old(View()), timeout, modes, failing)
      ensures info == old(info) || fresh(info)
    {
      if randr {
        var ok := Setup(modes, failing);
        if !ok {
          return;
        }
      }
      Begin(timeout);
    }

    /** The rest of gs_fade_start, once the copies are there. */
    method Begin(timeout: nat)
      requires Valid()
      modifies this
      ensures Valid() && info == old(info) && View() == F.Begin(old(View()), timeout)
    {
      if timer {
        Stop();
      }
      active := true;
      if randr {
        alphaPerIter := F.PerIter(timeout);
        timer := true;
      } else {
        Finish();
      }
    }

    method Async(timeout: nat, callback: bool, modes: seq<bool>, failing: nat)
      requires Valid() && |modes| == |crtcs|
      modifies this
      ensures Valid() && View() == F.StartAsync(old(View()), timeout, callback, modes, failing)
      ensures info == old(info) || fresh(info)
    {
      if active {
        Stop();
      }
      if callback {
        handlers := handlers + [registered];
        registered := registered + 1;
      }
      Start(timeout, modes, failing);
    }

    method FadeIter() returns (more: bool)
      requires Valid()
      modifies this`currentAlpha, crtcs
      ensures Valid() && (View(), more) == F.FadeIter(old(View()))
    {
      if currentAlpha < F.DARK {
        return false;
      }
      currentAlpha := currentAlpha - alphaPerIter;
      more := SetAlpha(currentAlpha);
    }

    method Timer()
      requires Valid() && timer
      modifies this, crtcs
      ensures Valid() && info == old(info) && View() == F.Step(old(View()), F.Tick)
    {
      var more := FadeIter();
      if !more {
        Finish();
      }
    }

    method Reset()
      requires Valid()
      modifies this, crtcs
      ensures Valid() && View() == F.Step(old(View()), F.Reset)
      ensures info == old(info) || info == null
    {
      if active {
        Stop();
      }
      currentAlpha := 1.0;
      var _ := SetAlpha(currentAlpha);
      if randr {
        info := null;
      }
    }
  }
}
