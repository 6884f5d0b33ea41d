/**
 plugins/egldeviceintegration/kms/eglfskmsscreen.cpp: who owns the locked front
 buffers of a screen, and which framebuffers the kernel holds for them, across
 page flips, mode changes and VT switches.
 */
module FlipProtocol {
  import opened Sequences

  type Bo = nat  // a GBM buffer object
  type Fb = nat  // a kernel framebuffer id

  /** What GBM and the kernel hold for one screen, and whether they were misused. */
  datatype Libs = Libs(
    userData: map<Bo, Fb>,  // the framebuffer cached with each buffer object
    flipped: set<Bo>,       // buffers flipped at least once and not destroyed since
    locked: set<Bo>,        // locked and not released or destroyed since
    fbs: set<Fb>,           // framebuffers added and not removed
    badRelease: bool, badRemove: bool, crashed: bool)

  /** `sets`: how often a flip asked the kernel to set the mode. */
  datatype Modes = Modes(pending: int, mode: int, count: nat, isSet: bool, hasSavedCrtc: bool, hasDpms: bool, sets: nat)

  datatype Screen = Screen(
    surface: Option<nat>, current: Option<Bo>, next: Option<Bo>,
    suspended: bool, vtActive: bool, mutexHeld: bool, poweredOn: bool,
    modes: Modes, libs: Libs)

  /** How the libraries answer the calls of one flip. */
  datatype FlipCalls = FlipCalls(front: Option<Bo>, newFb: Option<Fb>, setsCrtc: bool, flips: bool)

  // ----- The libraries -----

  /** GBM locks only buffers that are not locked; the kernel returns only ids not in use. */
  predicate Possible(g: Libs, c: FlipCalls) {
    && (c.front.Some? ==> c.front.value !in g.locked)
    && (c.newFb.Some? ==> c.newFb.value !in g.fbs)
  }

  function Release(g: Libs, bo: Bo): Libs {
    g.(locked := g.locked - {bo}, badRelease := g.badRelease || bo !in g.locked)
  }

  /** A buffer object goes away; bufferDestroyedHandler removes its framebuffer. */
  function DestroyBo(g: Libs, bo: Bo): Libs {
    if bo in g.userData then
      Libs(g.userData - {bo}, g.flipped - {bo}, g.locked - {bo}, g.fbs - {g.userData[bo]},
           g.badRelease, g.badRemove || g.userData[bo] !in g.fbs, g.crashed)
    else g.(locked := g.locked - {bo}, flipped := g.flipped - {bo})
  }

  function DestroyAll(g: Libs, bos: seq<Bo>): Libs {
    if bos == [] then g else DestroyBo(DestroyAll(g, bos[..|bos| - 1]), bos[|bos| - 1])
  }

  /** The front buffer is locked and framebufferForBufferObject called for it. */
  function LockFront(g: Libs, bo: Bo, newFb: Option<Fb>): Libs {
    var a := g.(locked := g.locked + {bo}, flipped := g.flipped + {bo});
    if bo in g.userData then a
    else match newFb
      case Some(fb) => a.(userData := g.userData[bo := fb], fbs := g.fbs + {fb})
      case None => a.(crashed := true)  // the null framebuffer is dereferenced
  }

  /** One kernel framebuffer for each live buffer that was flipped, and none besides; no misuse so far. */
  ghost predicate LibsOk(g: Libs) {
    && g.userData.Keys == g.flipped
    && (forall fb :: fb in g.fbs <==> exists bo :: bo in g.userData && g.userData[bo] == fb)
    && (forall a, b :: a in g.userData && b in g.userData && g.userData[a] == g.userData[b] ==> a == b)
    && g.locked <= g.userData.Keys
    && !g.badRelease && !g.badRemove && !g.crashed
  }

  lemma DestroyBoOk(g: Libs, bo: Bo)
    requires LibsOk(g)
    ensures LibsOk(DestroyBo(g, bo))
    ensures DestroyBo(g, bo).userData.Keys == g.userData.Keys - {bo}
    ensures DestroyBo(g, bo).locked == g.locked - {bo}
  {
    var h := DestroyBo(g, bo);
    forall fb | fb in h.fbs ensures exists x :: x in h.userData && h.userData[x] == fb {
      var x :| x in g.userData && g.userData[x] == fb;
      assert x in h.userData;
    }
  }

  lemma {:induction false} DestroyAllOk(g: Libs, bos: seq<Bo>)
    requires LibsOk(g)
    ensures LibsOk(DestroyAll(g, bos))
    ensures forall bo :: bo in DestroyAll(g, bos).userData ==> bo in g.userData && bo !in bos
    ensures DestroyAll(g, bos).locked <= g.locked
  {
    if bos != [] {
      var h := DestroyAll(g, bos[..|bos| - 1]);
      DestroyAllOk(g, bos[..|bos| - 1]);
      DestroyBoOk(h, bos[|bos| - 1]);
      forall bo | bo in DestroyAll(g, bos).userData ensures bo in g.userData && bo !in bos {
        assert bo in h.userData.Keys - {bos[|bos| - 1]};
      }
    }
  }

  lemma LockFrontOk(g: Libs, c: FlipCalls)
    requires LibsOk(g) && Possible(g, c) && c.front.Some? && (c.front.value in g.userData || c.newFb.Some?)
    ensures LibsOk(LockFront(g, c.front.value, c.newFb))
  {
    var bo := c.front.value;
    var h := LockFront(g, bo, c.newFb);
    if bo !in g.userData {
      var fb := c.newFb.value;
      forall a | a in g.userData ensures g.userData[a] != fb {
        assert g.userData[a] in g.fbs;
      }
      forall x | x in h.fbs ensures exists a :: a in h.userData && h.userData[a] == x {
        if x == fb {
          assert h.userData[bo] == x;
        } else {
          var a :| a in g.userData && g.userData[a] == x;
          assert h.userData[a] == x;
        }
      }
    }
  }

  lemma LockFrontAdds(g: Libs, bo: Bo, newFb: Option<Fb>)
    ensures LockFront(g, bo, newFb).locked == g.locked + {bo}
    ensures LockFront(g, bo, newFb).crashed == (g.crashed || (bo !in g.userData && newFb.None?))
  {
  }

  lemma ReleaseOk(g: Libs, bo: Bo)
    requires LibsOk(g) && bo in g.locked
    ensures LibsOk(Release(g, bo)) && Release(g, bo).locked == g.locked - {bo}
  {
  }

  // ----- The methods of the screen, as functions -----

  predicate Flippable(s: Screen) {
    s.surface.Some? && s.poweredOn && !s.suspended
  }

  function WithMode(s: Screen, setsCrtc: bool): Screen {
    if s.modes.isSet then s
    else s.(modes := s.modes.(isSet := setsCrtc, sets := s.modes.sets + 1),
            poweredOn := s.poweredOn || (setsCrtc && s.modes.hasDpms))
  }

  function Flip(s: Screen, c: FlipCalls): Screen {
    if !Flippable(s) then s
    else if c.front.None? then s.(next := None)
    else
      var a := s.(next := c.front, libs := LockFront(s.libs, c.front.value, c.newFb));
      if a.libs.crashed then a
      else
        var b := WithMode(a, c.setsCrtc);
        if c.flips then b else b.(next := None, libs := Release(b.libs, c.front.value))
  }

  /** A flip that needs a framebuffer for a buffer without one is given it. */
  predicate GetsFramebuffer(s: Screen, c: FlipCalls) {
    Flippable(s) && c.front.Some? && c.front.value !in s.libs.userData ==> c.newFb.Some?
  }

  function FlipFinished(s: Screen): Screen {
    s.(current := s.next, next := None,
       libs := if s.current.Some? then Release(s.libs, s.current.value) else s.libs)
  }

  /** waitForFlip would have to take a mutex that is held for good. */
  predicate Blocks(s: Screen) {
    s.next.Some? && !s.suspended && s.mutexHeld
  }

  function WaitForFlip(s: Screen): Screen {
    if s.next.None? || s.suspended then s else FlipFinished(s)
  }

  /** `rest`: the buffers that gbm_surface_destroy still finds in the surface. */
  function SurfaceLibs(s: Screen, rest: seq<Bo>): Libs {
    var a := if s.current.Some? then DestroyBo(s.libs, s.current.value) else s.libs;
    var b := if s.next.Some? then DestroyBo(a, s.next.value) else a;
    if s.surface.Some? then DestroyAll(b, rest) else b
  }

  function DestroySurface(s: Screen, rest: seq<Bo>): Screen {
    s.(surface := None, current := None, next := None, libs := SurfaceLibs(s, rest))
  }

  function CreateSurface(s: Screen, created: Option<nat>): Screen {
    if s.surface.None? then s.(surface := created) else s
  }

  function ResizeSurface(s: Screen, rest: seq<Bo>, created: Option<nat>): Screen {
    var a := DestroySurface(s, rest);
    CreateSurface(a.(modes := s.modes.(mode := s.modes.pending, pending := -1, isSet := false)), created)
  }

  function RestoreMode(s: Screen): Screen {
    if s.modes.isSet && s.modes.hasSavedCrtc then s.(modes := s.modes.(isSet := false)) else s
  }

  function ActiveChanged(s: Screen, active: bool, c: FlipCalls): Screen {
    if !active then RestoreMode(s.(vtActive := false, suspended := true, mutexHeld := true))
    else if s.vtActive then s
    else Flip(FlipFinished(s).(vtActive := true, suspended := false), c)
  }

  function ResizeIfPending(s: Screen, rest: seq<Bo>, created: Option<nat>): Screen {
    if s.modes.pending >= 0 then ResizeSurface(s, rest, created) else s
  }

  /** One presentation by the GL context: wait, resize if a mode is pending, flip. */
  function SwapBuffers(s: Screen, rest: seq<Bo>, created: Option<nat>, c: FlipCalls): Screen {
    if Blocks(s) then s
    else Flip(ResizeIfPending(WaitForFlip(s), rest, created), c)
  }

  function SetCurrentMode(s: Screen, mode: int): Screen {
    if 0 <= mode < s.modes.count && s.modes.pending < 0 then s.(modes := s.modes.(pending := mode)) else s
  }

  // ----- Runs -----

  datatype Event =
    | Swap(rest: seq<Bo>, created: Option<nat>, calls: FlipCalls)
    | Vt(active: bool, calls: FlipCalls)
    | FlipDone                    // a page flip completion handled outside waitForFlip
    | BoGone(bo: Bo)              // GBM drops a buffer of the surface that is not locked
    | ModeChosen(mode: int)
    | Power(on: bool)
    | Created(created: Option<nat>)

  function Step(s: Screen, e: Event): Screen {
    match e
    case Swap(rest, created, c) => SwapBuffers(s, rest, created, c)
    case Vt(active, c) => ActiveChanged(s, active, c)
    case FlipDone => FlipFinished(s)
    case BoGone(bo) => s.(libs := DestroyBo(s.libs, bo))
    case ModeChosen(mode) => SetCurrentMode(s, mode)
    case Power(on) => if s.modes.hasDpms then s.(poweredOn := on) else s
    case Created(created) => CreateSurface(s, created)
  }

  /** Every cached buffer is among those the surface still has when it is destroyed. */
  ghost predicate Leftover(s: Screen, rest: seq<Bo>) {
    forall bo :: bo in s.libs.userData && s.current != Some(bo) && s.next != Some(bo) ==> bo in rest
  }

  /** The libraries keep their contracts. */
  ghost predicate Admissible(s: Screen, e: Event) {
    match e
    case Swap(rest, created, c) =>
      && Leftover(WaitForFlip(s), rest)
      && Possible(ResizeIfPending(WaitForFlip(s), rest, created).libs, c)
    case Vt(active, c) => active && !s.vtActive ==> Possible(FlipFinished(s).libs, c)
    case BoGone(bo) => bo !in s.libs.locked
    case _ => true
  }

  /** The state in which the event calls flip, if it does. */
  function FlipsFrom(s: Screen, e: Event): Option<Screen> {
    match e
    case Swap(rest, created, c) => if Blocks(s) then None else Some(ResizeIfPending(WaitForFlip(s), rest, created))
    case Vt(active, c) => if active && !s.vtActive then Some(FlipFinished(s).(vtActive := true, suspended := false)) else None
    case _ => None
  }

  predicate FlipServed(s: Screen, e: Event) {
    FlipsFrom(s, e).Some? ==> GetsFramebuffer(FlipsFrom(s, e).value, e.calls)
  }

  /** Every flip of a run that needs a new framebuffer is given one. */
  ghost predicate FlipsServed(s: Screen, es: seq<Event>)
    decreases |es|
  {
    es == [] || (FlipServed(s, es[0]) && FlipsServed(Step(s, es[0]), es[1..]))
  }

  ghost predicate RunTo(s: Screen, es: seq<Event>, t: Screen)
    decreases |es|
  {
    if es == [] then s == t
    else Admissible(s, es[0]) && RunTo(Step(s, es[0]), es[1..], t)
  }

  /** The buffers the screen knows it has to give back. */
  function Held(s: Screen): set<Bo> {
    (if s.current.Some? then {s.current.value} else {}) + (if s.next.Some? then {s.next.value} else {})
  }

  ghost predicate Owned(s: Screen) {
    && LibsOk(s.libs)
    && s.libs.locked == Held(s)
    && (s.current.Some? ==> s.current != s.next)
    && (s.surface.None? ==> s.current.None? && s.next.None? && s.libs.userData == map[])
  }

  lemma FlipOwned(s: Screen, c: FlipCalls)
    requires Owned(s) && Possible(s.libs, c) && GetsFramebuffer(s, c) && s.next.None?
    ensures Owned(Flip(s, c))
  {
    if Flippable(s) && c.front.Some? {
      var bo := c.front.value;
      var g, t := LockFront(s.libs, bo, c.newFb), Flip(s, c);
      LockFrontOk(s.libs, c);
      LockFrontAdds(s.libs, bo, c.newFb);
      if c.flips {
        assert t.libs == g && t.next == Some(bo) && t.current == s.current;
      } else {
        ReleaseOk(g, bo);
        assert t.libs == Release(g, bo) && t.next == None && t.current == s.current;
        assert t.libs.locked == s.libs.locked;
      }
    }
  }

  lemma FlipLeaks(s: Screen, c: FlipCalls)
    requires Owned(s) && Possible(s.libs, c) && Flippable(s) && s.next.Some?
    ensures s.next.value in Flip(s, c).libs.locked && s.next.value !in Held(Flip(s, c))
  {
  }

  /** Without a framebuffer for the front buffer, flip dereferences null. */
  lemma FlipCrashesIff(s: Screen, c: FlipCalls)
    requires !s.libs.crashed
    ensures Flip(s, c).libs.crashed <==> !GetsFramebuffer(s, c)
  {
  }

  /**
   Exactly when a flip keeps the ownership: it must do nothing at all, or find
   no earlier flip pending and get a framebuffer if it needs one.  Otherwise
   the pending buffer is never given back, or null is dereferenced.
   */
  lemma FlipOwnedIff(s: Screen, c: FlipCalls)
    requires Owned(s) && Possible(s.libs, c)
    ensures Owned(Flip(s, c)) <==> !Flippable(s) || (s.next.None? && GetsFramebuffer(s, c))
  {
    FlipCrashesIff(s, c);
    if s.next.None? && GetsFramebuffer(s, c) {
      FlipOwned(s, c);
    } else if s.next.Some? && Flippable(s) {
      FlipLeaks(s, c);
    }
  }

  /** A screen about to present its first buffer, and a framebuffer creation that fails. */
  lemma FailedFramebufferCrashes(surface: nat, bo: Bo, modes: Modes)
    ensures var s := Screen(Some(surface), None, None, false, true, false, true, modes,
                            Libs(map[], {}, {}, {}, false, false, false));
            var c := FlipCalls(Some(bo), None, true, true);
            Owned(s) && Possible(s.libs, c) && Flip(s, c).libs.crashed && !Owned(Flip(s, c))
  {
  }

  lemma FlipFinishedOwned(s: Screen)
    requires Owned(s)
    ensures Owned(FlipFinished(s)) && FlipFinished(s).next.None?
  {
  }

  lemma ResizeOwned(s: Screen, rest: seq<Bo>, created: Option<nat>)
    requires Owned(s) && Leftover(s, rest)
    ensures Owned(ResizeSurface(s, rest, created)) && ResizeSurface(s, rest, created).next.None?
  {
    var a := if s.current.Some? then DestroyBo(s.libs, s.current.value) else s.libs;
    var b := if s.next.Some? then DestroyBo(a, s.next.value) else a;
    if s.current.Some? { DestroyBoOk(s.libs, s.current.value); }
    if s.next.Some? { DestroyBoOk(a, s.next.value); }
    assert b.locked == {};
    DestroyAllOk(b, rest);
    forall bo ensures bo !in SurfaceLibs(s, rest).userData {
      assert bo in b.userData <==> bo in b.userData.Keys;
      assert bo in a.userData <==> bo in a.userData.Keys;
    }
    assert SurfaceLibs(s, rest).userData == map[];
  }

  lemma SwapOwned(s: Screen, rest: seq<Bo>, created: Option<nat>, c: FlipCalls)
    requires Owned(s) && Admissible(s, Swap(rest, created, c))
    ensures Owned(SwapBuffers(s, rest, created, c)) <==> FlipServed(s, Swap(rest, created, c))
  {
    if !Blocks(s) {
      FlipFinishedOwned(s);
      var a := WaitForFlip(s);
      if a.modes.pending >= 0 {
        ResizeOwned(a, rest, created);
      }
      FlipOwnedIff(ResizeIfPending(a, rest, created), c);
    }
  }

  lemma VtOwned(s: Screen, active: bool, c: FlipCalls)
    requires Owned(s) && Admissible(s, Vt(active, c))
    ensures Owned(ActiveChanged(s, active, c)) <==> FlipServed(s, Vt(active, c))
  {
    if active && !s.vtActive {
      FlipFinishedOwned(s);
      FlipOwnedIff(FlipFinished(s).(vtActive := true, suspended := false), c);
    }
  }

  lemma StepOwned(s: Screen, e: Event)
    requires Owned(s) && Admissible(s, e)
    ensures Owned(Step(s, e)) <==> FlipServed(s, e)
    ensures !FlipServed(s, e) ==> Step(s, e).libs.crashed
  {
    match e
    case Swap(rest, created, c) =>
      SwapOwned(s, rest, created, c);
      if !FlipServed(s, e) {
        SwapCrashes(s, rest, created, c);
      }
    case Vt(active, c) =>
      VtOwned(s, active, c);
      if active && !s.vtActive {
        FlipCrashesIff(FlipFinished(s).(vtActive := true, suspended := false), c);
      }
    case FlipDone => FlipFinishedOwned(s);
    case BoGone(bo) => DestroyBoOk(s.libs, bo);
    case _ =>
  }

  lemma SwapCrashes(s: Screen, rest: seq<Bo>, created: Option<nat>, c: FlipCalls)
    requires !s.libs.crashed && !FlipServed(s, Swap(rest, created, c))
    ensures SwapBuffers(s, rest, created, c).libs.crashed
  {
    var a := WaitForFlip(s);
    SurfaceLibsKeepCrashed(a, rest);
    FlipCrashesIff(ResizeIfPending(a, rest, created), c);
  }

  lemma FlipStaysCrashed(s: Screen, c: FlipCalls)
    requires s.libs.crashed
    ensures Flip(s, c).libs.crashed
  {
    if c.front.Some? {
      LockFrontAdds(s.libs, c.front.value, c.newFb);
    }
  }

  /** A null dereference is for good. */
  lemma StepStaysCrashed(s: Screen, e: Event)
    requires s.libs.crashed
    ensures Step(s, e).libs.crashed
  {
    match e
    case Swap(rest, created, c) =>
      SurfaceLibsKeepCrashed(WaitForFlip(s), rest);
      FlipStaysCrashed(ResizeIfPending(WaitForFlip(s), rest, created), c);
    case Vt(active, c) =>
      FlipStaysCrashed(FlipFinished(s).(vtActive := true, suspended := false), c);
    case _ =>
  }

  lemma {:induction false} RunStaysCrashed(s: Screen, es: seq<Event>, t: Screen)
    requires s.libs.crashed && RunTo(s, es, t)
    ensures t.libs.crashed
    decreases |es|
  {
    if es == [] {
    } else {
      StepStaysCrashed(s, es[0]);
      RunStaysCrashed(Step(s, es[0]), es[1..], t);
    }
  }

  /**
   In every run of presentations, late completions, VT switches, mode changes
   and buffer losses, the locked buffers are exactly those in current and next,
   none is released twice, and framebuffers and cached buffers match one to
   one, exactly when every flip that needed a framebuffer was given one.
   */
  lemma {:induction false} RunOwned(s: Screen, es: seq<Event>, t: Screen)
    requires Owned(s) && RunTo(s, es, t)
    ensures Owned(t) <==> FlipsServed(s, es)
    ensures FlipsServed(s, es) ==> |t.libs.locked| <= 2
    decreases |es|
  {
    if es == [] {
      HeldAtMostTwo(s);
    } else {
      StepOwned(s, es[0]);
      if FlipServed(s, es[0]) {
        RunOwned(Step(s, es[0]), es[1..], t);
      } else {
        RunStaysCrashed(Step(s, es[0]), es[1..], t);
      }
    }
  }

  lemma HeldAtMostTwo(s: Screen)
    ensures |Held(s)| <= 2
  {
    var a := if s.current.Some? then {s.current.value} else {};
    var b := if s.next.Some? then {s.next.value} else {};
    assert Held(s) == a + b;
    assert |a + b| <= |a| + |b|;
  }

  /** A repeated flip of a buffer uses the framebuffer it already has. */
  lemma FlipReuses(s: Screen, c: FlipCalls, bo: Bo)
    requires LibsOk(s.libs) && Possible(s.libs, c) && bo in s.libs.userData
    ensures bo in Flip(s, c).libs.userData && Flip(s, c).libs.userData[bo] == s.libs.userData[bo]
    ensures c.front == Some(bo) ==> Flip(s, c).libs.fbs == s.libs.fbs
  {
  }

  /** A mode chosen by the user is running after the next presentation that gets through. */
  lemma ChosenModeTakesEffect(s: Screen, mode: int, rest: seq<Bo>, created: Option<nat>, c: FlipCalls)
    requires 0 <= mode < s.modes.count && s.modes.pending < 0
    requires !s.suspended && s.poweredOn && !s.mutexHeld
    requires created.Some? && c.front.Some? && c.newFb.Some? && !s.libs.crashed
    ensures var t := SwapBuffers(SetCurrentMode(s, mode), rest, created, c);
            && t.modes.mode == mode && t.modes.pending < 0 && t.surface == created
            && t.modes.isSet == c.setsCrtc
            && t.current.None? && t.next == (if c.flips then c.front else None)
  {
    var a := WaitForFlip(SetCurrentMode(s, mode));
    var b := ResizeSurface(a, rest, created);
    SurfaceLibsKeepCrashed(a, rest);
    assert b.modes == s.modes.(mode := mode, pending := -1, isSet := false);
    FirstFlipSetsMode(b, c);
  }

  lemma FirstFlipSetsMode(s: Screen, c: FlipCalls)
    requires Flippable(s) && !s.modes.isSet && c.front.Some? && c.newFb.Some? && !s.libs.crashed
    ensures var t := Flip(s, c);
            && t.modes == s.modes.(isSet := c.setsCrtc, sets := s.modes.sets + 1) && t.surface == s.surface && t.current == s.current
            && t.next == (if c.flips then c.front else None)
  {
  }

  lemma SurfaceLibsKeepCrashed(s: Screen, rest: seq<Bo>)
    ensures SurfaceLibs(s, rest).crashed == s.libs.crashed
  {
    var a := if s.current.Some? then DestroyBo(s.libs, s.current.value) else s.libs;
    var b := if s.next.Some? then DestroyBo(a, s.next.value) else a;
    DestroyAllKeepsCrashed(b, rest);
  }

  lemma {:induction false} DestroyAllKeepsCrashed(g: Libs, bos: seq<Bo>)
    ensures DestroyAll(g, bos).crashed == g.crashed
  {
    if bos != [] {
      DestroyAllKeepsCrashed(g, bos[..|bos| - 1]);
    }
  }

  /** Leaving the VT restores the saved CRTC, and coming back sets the mode again. */
  lemma VtSwitchRestoresMode(s: Screen, away: FlipCalls, back: FlipCalls)
    requires s.modes.hasSavedCrtc && s.surface.Some? && s.poweredOn && !s.libs.crashed
    requires back.front.Some? && back.newFb.Some?
    ensures !ActiveChanged(s, false, away).modes.isSet
    ensures ActiveChanged(ActiveChanged(s, false, away), true, back).modes.isSet == back.setsCrtc
  {
  }

  // ----- Where a VT switch goes wrong -----

  /** A VT resume between the wait and the flip of a presentation loses a buffer. */
  lemma ResumeBetweenWaitAndFlipLeaks(s: Screen, vt: FlipCalls, c: FlipCalls)
    requires Owned(s) && s.suspended && !s.vtActive && s.surface.Some? && s.poweredOn
    requires vt.front.Some? && vt.flips && Admissible(s, Vt(true, vt))
    requires FlipServed(s, Vt(true, vt)) && Possible(ActiveChanged(s, true, vt).libs, c)
    ensures WaitForFlip(s) == s && !Owned(Flip(ActiveChanged(s, true, vt), c))
  {
    VtOwned(s, true, vt);
    FlipOwnedIff(ActiveChanged(s, true, vt), c);
  }

  lemma StepKeepsMutex(s: Screen, e: Event)
    ensures Step(s, e).mutexHeld == (s.mutexHeld || (e.Vt? && !e.active))
  {
  }

  /** No event gives back the mutex that suspending takes. */
  lemma {:induction false} MutexHeldIffSuspendedOnce(s: Screen, es: seq<Event>, t: Screen)
    requires RunTo(s, es, t)
    ensures t.mutexHeld <==> s.mutexHeld || exists i :: 0 <= i < |es| && es[i].Vt? && !es[i].active
    decreases |es|
  {
    if es != [] {
      StepKeepsMutex(s, es[0]);
      var rest := es[1..];
      MutexHeldIffSuspendedOnce(Step(s, es[0]), rest, t);
      if exists i :: 0 <= i < |es| && es[i].Vt? && !es[i].active {
        var i :| 0 <= i < |es| && es[i].Vt? && !es[i].active;
        if i > 0 {
          assert rest[i - 1] == es[i];
        }
      }
      if exists i :: 0 <= i < |rest| && rest[i].Vt? && !rest[i].active {
        var i :| 0 <= i < |rest| && rest[i].Vt? && !rest[i].active;
        assert es[i + 1] == rest[i];
      }
    }
  }

  /**
   Once a VT switch has been away and back with a successful flip, the next
   presentation has to wait, and blocks.
   */
  lemma PresentationBlocksAfterVtSwitch(s: Screen, away: FlipCalls, back: FlipCalls)
    requires Owned(s) && s.surface.Some? && s.poweredOn
    requires back.front.Some? && back.newFb.Some? && back.flips
    ensures Blocks(ActiveChanged(ActiveChanged(s, false, away), true, back))
  {
  }

  /**
   After any run from a new screen, the next presentation blocks exactly when
   a flip is pending, the screen is not suspended and was suspended before.
   */
  lemma PresentationBlocksIff(s: Screen, es: seq<Event>, t: Screen)
    requires !s.mutexHeld && RunTo(s, es, t)
    ensures Blocks(t) <==>
              t.next.Some? && !t.suspended && exists i :: 0 <= i < |es| && es[i].Vt? && !es[i].active
  {
    MutexHeldIffSuspendedOnce(s, es, t);
  }
}
