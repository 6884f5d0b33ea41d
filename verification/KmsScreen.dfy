/** The class of plugins/egldeviceintegration/kms/eglfskmsscreen.cpp, proved against the flip protocol. */
module KmsScreen {
  import opened Sequences
  import opened FlipProtocol
  import FlipEffects

  /** The screen together with its interrupt handler; `libs` stands for GBM and the kernel. */
  class EglFSKmsScreen {
    var surface: Option<nat>
    var current: Option<Bo>
    var next: Option<Bo>
    var suspended: bool
    var vtActive: bool
    var mutexHeld: bool
    var poweredOn: bool
    var modes: Modes
    var libs: Libs

    ghost function View(): Screen
      reads this
    {
      Screen(surface, current, next, suspended, vtActive, mutexHeld, poweredOn, modes, libs)
    }

    constructor (mode: int, count: nat, hasSavedCrtc: bool, hasDpms: bool)
      ensures Owned(View()) && surface.None? && !mutexHeld
    {
      surface, current, next := None, None, None;
      suspended, vtActive, mutexHeld, poweredOn := false, true, false, true;
      modes := Modes(-1, mode, count, false, hasSavedCrtc, hasDpms, 0);
      libs := Libs(map[], {}, {}, {}, false, false, false);
    }

    method FramebufferForBufferObject(bo: Bo, newFb: Option<Fb>) returns (fb: Option<Fb>)
      modifies `libs
      ensures bo in old(libs.userData) ==> fb == Some(old(libs.userData)[bo]) && libs == old(libs)
      ensures bo !in old(libs.userData) ==> fb == newFb
      ensures bo !in old(libs.userData) && newFb.Some? ==>
                libs == old(libs).(userData := old(libs.userData)[bo := newFb.value], fbs := old(libs.fbs) + {newFb.value})
      ensures bo !in old(libs.userData) && newFb.None? ==> libs == old(libs)
    {
      if bo in libs.userData {
        return Some(libs.userData[bo]);
      }
      if newFb.None? {
        return None;
      }
      libs := libs.(userData := libs.userData[bo := newFb.value], fbs := libs.fbs + {newFb.value});
      return newFb;
    }

    /** The part of flip that sets the mode, once for each mode. */
    method SetMode(setsCrtc: bool)
      modifies `modes, `poweredOn
      ensures View() == WithMode(old(View()), setsCrtc)
    {
      if !modes.isSet {
        modes := modes.(sets := modes.sets + 1);
        if setsCrtc {
          modes := modes.(isSet := true);
          SetPowerState(true);
        }
      }
    }

    method Flip(c: FlipCalls)
      modifies this
      ensures View() == FlipProtocol.Flip(old(View()), c)
    {
      if surface.None? {
        return;
      }
      if !poweredOn {
        return;
      }
      if suspended {
        return;
      }
      next := c.front;
      if next.None? {
        return;
      }
      libs := libs.(locked := libs.locked + {next.value}, flipped := libs.flipped + {next.value});
      var fb := FramebufferForBufferObject(next.value, c.newFb);
      if fb.None? {
        libs := libs.(crashed := true);
      }
      if libs.crashed {
        return;
      }
      SetMode(c.setsCrtc);
      if !c.flips {
        libs := Release(libs, next.value);
        next := None;
      }
    }

    method FlipFinished()
      modifies `current, `next, `libs
      ensures View() == FlipProtocol.FlipFinished(old(View()))
    {
      if current.Some? {
        libs := Release(libs, current.value);
      }
      current := next;
      next := None;
    }

    /** `events[i]`: the i-th DRM event handled is the completion of this screen's flip. */
    method WaitForFlip(events: seq<bool>)
      requires !Blocks(View())
      requires next.Some? && !suspended ==> true in events
      modifies `current, `next, `libs
      ensures View() == FlipProtocol.WaitForFlip(old(View()))
      ensures suspended || next.None?
    {
      if next.None? || suspended {
        return;
      }
      ghost var s := View();
      var i := 0;
      while next.Some?
        invariant i <= |events|
        invariant if next.Some? then View() == s && true !in events[..i] else View() == FlipProtocol.FlipFinished(s)
        decreases |events| - i
      {
        assert i < |events| by {
          assert events[..|events|] == events;
        }
        if events[i] {
          FlipFinished();
        }
        i := i + 1;
      }
    }

    method DestroySurface(rest: seq<Bo>)
      modifies `surface, `current, `next, `libs
      ensures View() == FlipProtocol.DestroySurface(old(View()), rest)
    {
      if current.Some? {
        libs := DestroyBo(libs, current.value);
        current := None;
      }
      if next.Some? {
        libs := DestroyBo(libs, next.value);
        next := None;
      }
      if surface.Some? {
        libs := DestroyAll(libs, rest);
        surface := None;
      }
    }

    method CreateSurface(created: Option<nat>)
      modifies `surface
      ensures View() == FlipProtocol.CreateSurface(old(View()), created)
    {
      if surface.None? {
        surface := created;
      }
    }

    method ResizeSurface(rest: seq<Bo>, created: Option<nat>)
      modifies this
      ensures View() == FlipProtocol.ResizeSurface(old(View()), rest, created)
    {
      modes := modes.(mode := modes.pending, pending := -1, isSet := false);
      DestroySurface(rest);
      CreateSurface(created);
    }

    method RestoreMode()
      modifies `modes
      ensures View() == FlipProtocol.RestoreMode(old(View()))
    {
      if modes.isSet && modes.hasSavedCrtc {
        modes := modes.(isSet := false);
      }
    }

    method SetPowerState(on: bool)
      modifies `poweredOn
      ensures View() == old(View()).(poweredOn := if modes.hasDpms then on else old(poweredOn))
    {
      if !modes.hasDpms {
        return;
      }
      poweredOn := on;
    }

    method SetCurrentMode(mode: int)
      modifies `modes
      ensures View() == FlipProtocol.SetCurrentMode(old(View()), mode)
    {
      if mode < 0 || mode >= modes.count {
        return;
      }
      if modes.pending >= 0 {
        return;
      }
      modes := modes.(pending := mode);
    }

    method ActiveChanged(active: bool, c: FlipCalls)
      modifies this
      ensures View() == FlipProtocol.ActiveChanged(old(View()), active, c)
    {
      if active {
        if vtActive {
          return;
        }
        vtActive := true;
        FlipFinished();
        suspended := false;
        Flip(c);
      } else {
        vtActive := false;
        suspended := true;
        mutexHeld := true;  // tryLock, never unlocked
        RestoreMode();
      }
    }

    method SwapBuffers(events: seq<bool>, rest: seq<Bo>, created: Option<nat>, c: FlipCalls)
      requires !Blocks(View())
      requires next.Some? && !suspended ==> true in events
      modifies this
      ensures View() == FlipProtocol.SwapBuffers(old(View()), rest, created, c)
      // without a mode change the surface stays, and the flip waited for is shown
      ensures old(modes.pending) < 0 ==>
                && surface == old(surface) && modes.mode == old(modes.mode)
                && current == if old(next.Some? && !suspended) then old(next) else old(current)
    {
      ghost var s := View();
      WaitForFlip(events);
      if modes.pending >= 0 {
        ResizeSurface(rest, created);
      }
      Flip(c);
      if s.modes.pending < 0 {
        FlipEffects.SwapKeeps(s, rest, created, c);
      }
    }
  }
}
