/** What presentations, mode changes and VT switches leave as it was, and what they show. */
module FlipEffects {
  import opened Sequences
  import opened FlipProtocol

  // ----- Without a mode change -----

  ghost predicate SameFramebuffers(g: Libs, h: Libs) {
    forall bo :: bo in g.userData ==> bo in h.userData && h.userData[bo] == g.userData[bo]
  }

  /** What a flip leaves alone. */
  lemma FlipKeeps(s: Screen, c: FlipCalls)
    ensures var t := Flip(s, c);
            && t.surface == s.surface && t.current == s.current && t.poweredOn == s.poweredOn
            && t.suspended == s.suspended && t.vtActive == s.vtActive && t.mutexHeld == s.mutexHeld
            && t.modes == s.modes.(isSet := t.modes.isSet, sets := t.modes.sets) && SameFramebuffers(s.libs, t.libs)
  {
    if Flippable(s) && c.front.Some? {
      var g := LockFront(s.libs, c.front.value, c.newFb);
      assert SameFramebuffers(s.libs, g);
    }
  }

  /** A presentation with no mode pending keeps the surface, the mode and every framebuffer. */
  lemma SwapKeeps(s: Screen, rest: seq<Bo>, created: Option<nat>, c: FlipCalls)
    requires s.modes.pending < 0
    ensures var t := SwapBuffers(s, rest, created, c);
            && t.surface == s.surface && t.modes.mode == s.modes.mode && t.modes.pending == s.modes.pending
            && SameFramebuffers(s.libs, t.libs)
            && t.current == if s.next.Some? && !s.suspended && !s.mutexHeld then s.next else s.current
  {
    FlipKeeps(WaitForFlip(s), c);
  }

  /** Every buffer cached, but for those destroyed, keeps its framebuffer. */
  ghost predicate KeepsFramebuffers(s: Screen, t: Screen, es: seq<Event>) {
    forall bo :: bo in s.libs.userData && BoGone(bo) !in es ==>
      bo in t.libs.userData && t.libs.userData[bo] == s.libs.userData[bo]
  }

  lemma StepKeeps(s: Screen, e: Event)
    requires s.modes.pending < 0 && !e.ModeChosen?
    ensures var t := Step(s, e);
            && t.modes.pending < 0 && t.modes.mode == s.modes.mode
            && t.surface == (if s.surface.None? && e.Created? then e.created else s.surface)
            && KeepsFramebuffers(s, t, [e])
  {
    match e
    case Swap(rest, created, c) => SwapKeeps(s, rest, created, c);
    case Vt(active, c) => FlipKeeps(FlipFinished(s).(vtActive := true, suspended := false), c);
    case _ =>
  }

  /** The surface a screen has after some events that each may create one. */
  function FirstCreated(surface: Option<nat>, es: seq<Event>): Option<nat>
    decreases |es|
  {
    if es == [] then surface
    else FirstCreated(if surface.None? && es[0].Created? then es[0].created else surface, es[1..])
  }

  /** Until a mode is chosen the mode, the surface and the framebuffers stay, whatever else happens. */
  lemma {:induction false} StaysWithoutModeChange(s: Screen, es: seq<Event>, t: Screen)
    requires RunTo(s, es, t) && s.modes.pending < 0 && forall e :: e in es ==> !e.ModeChosen?
    ensures t.modes.mode == s.modes.mode && t.modes.pending < 0
    ensures t.surface == FirstCreated(s.surface, es)
    ensures KeepsFramebuffers(s, t, es)
    decreases |es|
  {
    if es == [] {
    } else {
      var u, rest := Step(s, es[0]), es[1..];
      StepKeeps(s, es[0]);
      StaysWithoutModeChange(u, rest, t);
      forall bo | bo in s.libs.userData && BoGone(bo) !in es
        ensures bo in t.libs.userData && t.libs.userData[bo] == s.libs.userData[bo]
      {
        assert BoGone(bo) !in [es[0]] && BoGone(bo) !in rest;
      }
    }
  }

  lemma StepSetsNoMode(s: Screen, e: Event)
    requires s.modes.isSet && s.modes.pending < 0 && !e.ModeChosen? && !(e.Vt? && !e.active)
    ensures Step(s, e).modes == s.modes
  {
  }

  /** A mode once set is not set again until another is chosen or the VT is left. */
  lemma {:induction false} ModeSetOnce(s: Screen, es: seq<Event>, t: Screen)
    requires RunTo(s, es, t) && s.modes.isSet && s.modes.pending < 0
    requires forall e :: e in es ==> !e.ModeChosen? && !(e.Vt? && !e.active)
    ensures t.modes == s.modes
    decreases |es|
  {
    if es == [] {
    } else {
      StepSetsNoMode(s, es[0]);
      ModeSetOnce(Step(s, es[0]), es[1..], t);
    }
  }

  /** A buffer that goes away takes its framebuffer with it, and no other. */
  lemma GoneIsRemoved(s: Screen, bo: Bo)
    requires LibsOk(s.libs) && bo in s.libs.userData
    ensures var t := Step(s, BoGone(bo));
            && bo !in t.libs.userData && t.libs.fbs == s.libs.fbs - {s.libs.userData[bo]}
            && (forall x :: x in s.libs.userData && x != bo ==>
                  x in t.libs.userData && t.libs.userData[x] == s.libs.userData[x] && s.libs.userData[x] in t.libs.fbs)
  {
  }

  // ----- A chosen mode -----

  /** Both the running and the pending mode are modes of the output. */
  predicate ModesInRange(s: Screen) {
    0 <= s.modes.mode < s.modes.count && s.modes.pending < s.modes.count
  }

  lemma StepModesInRange(s: Screen, e: Event)
    requires ModesInRange(s)
    ensures ModesInRange(Step(s, e)) && Step(s, e).modes.count == s.modes.count
  {
    match e
    case Swap(rest, created, c) => FlipKeeps(ResizeIfPending(WaitForFlip(s), rest, created), c);
    case Vt(active, c) => FlipKeeps(FlipFinished(s).(vtActive := true, suspended := false), c);
    case _ =>
  }

  lemma {:induction false} RunModesInRange(s: Screen, es: seq<Event>, t: Screen)
    requires RunTo(s, es, t) && ModesInRange(s)
    ensures ModesInRange(t)
    decreases |es|
  {
    if es == [] {
    } else {
      StepModesInRange(s, es[0]);
      RunModesInRange(Step(s, es[0]), es[1..], t);
    }
  }

  lemma StepKeepsPending(s: Screen, e: Event)
    requires s.modes.pending >= 0 && !e.Swap?
    ensures Step(s, e).modes.pending == s.modes.pending && Step(s, e).modes.mode == s.modes.mode
  {
    match e
    case Vt(active, c) => FlipKeeps(FlipFinished(s).(vtActive := true, suspended := false), c);
    case _ =>
  }

  lemma {:induction false} PendingStays(s: Screen, es: seq<Event>, t: Screen)
    requires RunTo(s, es, t) && s.modes.pending >= 0 && forall e :: e in es ==> !e.Swap?
    ensures t.modes.pending == s.modes.pending && t.modes.mode == s.modes.mode
    decreases |es|
  {
    if es == [] {
    } else {
      StepKeepsPending(s, es[0]);
      PendingStays(Step(s, es[0]), es[1..], t);
    }
  }

  /** The first mode chosen waits for the next presentation, and runs from then on: later choices are dropped. */
  lemma FirstChoiceTakesEffect(s: Screen, mode: int, es: seq<Event>, t: Screen, rest: seq<Bo>, created: Option<nat>, c: FlipCalls)
    requires s.modes.pending < 0 && 0 <= mode < s.modes.count
    requires RunTo(Step(s, ModeChosen(mode)), es, t) && forall e :: e in es ==> !e.Swap?
    ensures t.modes.pending == mode && t.modes.mode == s.modes.mode
    ensures !Blocks(t) ==>
              && SwapBuffers(t, rest, created, c).modes.mode == mode
              && SwapBuffers(t, rest, created, c).modes.pending < 0
              && SwapBuffers(t, rest, created, c).surface == created
  {
    PendingStays(Step(s, ModeChosen(mode)), es, t);
    FlipKeeps(ResizeIfPending(WaitForFlip(t), rest, created), c);
  }

  // ----- What is shown -----

  /** A flip that nothing goes wrong with presents the front buffer exactly on a screen that is on and not suspended. */
  lemma PresentsIff(s: Screen, c: FlipCalls)
    requires s.next.None? && !s.libs.crashed && c.front.Some? && c.newFb.Some? && c.flips
    ensures Flip(s, c).next == c.front <==> s.surface.Some? && s.poweredOn && !s.suspended
    ensures Flip(s, c).next == c.front ==>
              && c.front.value in Flip(s, c).libs.locked && c.front.value in Flip(s, c).libs.userData
              && Flip(s, c).current == s.current && (Flip(s, c).modes.isSet <==> s.modes.isSet || c.setsCrtc)
              && Flip(s, c).modes.sets == s.modes.sets + (if s.modes.isSet then 0 else 1)
    ensures Flip(s, c).next != c.front ==> Flip(s, c) == s
  {
  }

  /** The event completes the pending flip. */
  predicate Completes(s: Screen, e: Event) {
    || e.FlipDone?
    || (e.Swap? && s.next.Some? && !s.suspended && !s.mutexHeld)
    || (e.Vt? && e.active && !s.vtActive)
  }

  /** The buffer shown is the one last presented whose flip was completed. */
  lemma ShownIsCompleted(s: Screen, e: Event)
    requires e.Swap? ==> s.modes.pending < 0
    ensures Step(s, e).current == if Completes(s, e) then s.next else s.current
    ensures !Completes(s, e) && !e.Swap? ==> Step(s, e).next == s.next
  {
  }

  /** Going away from the VT stops presentations and keeps every buffer; a repeated activation does nothing. */
  lemma VtKeeps(s: Screen, c: FlipCalls)
    ensures var t := ActiveChanged(s, false, c);
            && t.libs == s.libs && t.surface == s.surface && t.poweredOn == s.poweredOn && t.suspended && !t.vtActive
            && (t.modes == s.modes || t.modes == s.modes.(isSet := false))
            && (t.modes.isSet <==> s.modes.isSet && !s.modes.hasSavedCrtc)
    ensures s.vtActive ==> ActiveChanged(s, true, c) == s
    ensures !s.vtActive ==> ActiveChanged(s, true, c).vtActive && !ActiveChanged(s, true, c).suspended
  {
  }

  // ----- Screens that are dark -----

  /** Suspended with no activation to come, or off and not to be switched on. */
  ghost predicate StaysDark(s: Screen, es: seq<Event>) {
    || (s.suspended && forall e :: e in es && e.Vt? ==> !e.active)
    || (!s.poweredOn && forall e :: e in es && e.Power? ==> !e.on)
  }

  /** No buffer is locked or counts as flipped that was not before. */
  predicate NoneGained(g: Libs, h: Libs) {
    h.locked <= g.locked && h.flipped <= g.flipped
  }

  lemma DestroyBoTakes(g: Libs, bo: Bo)
    ensures NoneGained(g, DestroyBo(g, bo))
  {
  }

  lemma {:induction false} DestroyAllTakes(g: Libs, bos: seq<Bo>)
    ensures NoneGained(g, DestroyAll(g, bos))
  {
    if bos != [] {
      DestroyAllTakes(g, bos[..|bos| - 1]);
      DestroyBoTakes(DestroyAll(g, bos[..|bos| - 1]), bos[|bos| - 1]);
    }
  }

  lemma ResizeTakes(s: Screen, rest: seq<Bo>, created: Option<nat>)
    ensures NoneGained(s.libs, ResizeSurface(s, rest, created).libs)
  {
    var a := if s.current.Some? then DestroyBo(s.libs, s.current.value) else s.libs;
    var b := if s.next.Some? then DestroyBo(a, s.next.value) else a;
    assert NoneGained(s.libs, a) by {
      if s.current.Some? { DestroyBoTakes(s.libs, s.current.value); }
    }
    assert NoneGained(a, b) by {
      if s.next.Some? { DestroyBoTakes(a, s.next.value); }
    }
    DestroyAllTakes(b, rest);
    assert ResizeSurface(s, rest, created).libs == SurfaceLibs(s, rest);
  }

  lemma StepDark(s: Screen, e: Event)
    requires StaysDark(s, [e])
    ensures NoneGained(s.libs, Step(s, e).libs)
    ensures s.suspended && !(e.Vt? && e.active) ==> Step(s, e).suspended
    ensures !s.poweredOn && !(e.Power? && e.on) ==> !Step(s, e).poweredOn
  {
    assert e in [e];
    if e.Swap? {
      ResizeTakes(WaitForFlip(s), e.rest, e.created);
    } else if e.BoGone? {
      DestroyBoTakes(s.libs, e.bo);
    }
  }

  /** On a screen that is suspended or off nothing is presented: no buffer gets locked or flipped until that changes. */
  lemma {:induction false} DarkPresentsNothing(s: Screen, es: seq<Event>, t: Screen)
    requires RunTo(s, es, t) && StaysDark(s, es)
    ensures t.libs.locked <= s.libs.locked && t.libs.flipped <= s.libs.flipped
    decreases |es|
  {
    if es == [] {
    } else {
      assert es[0] in es && forall e :: e in es[1..] ==> e in es;
      StepDark(s, es[0]);
      DarkPresentsNothing(Step(s, es[0]), es[1..], t);
    }
  }

  /** The power state the user last asked for. */
  function LastPower(on: bool, es: seq<Event>): bool
    decreases |es|
  {
    if es == [] then on else LastPower(if es[0].Power? then es[0].on else on, es[1..])
  }

  lemma StepPower(s: Screen, e: Event)
    ensures Step(s, e).modes.hasDpms == s.modes.hasDpms
    ensures Step(s, e).poweredOn == if e.Power? && s.modes.hasDpms then e.on else s.poweredOn
  {
    match e
    case Swap(rest, created, c) => FlipKeeps(ResizeIfPending(WaitForFlip(s), rest, created), c);
    case Vt(active, c) => FlipKeeps(FlipFinished(s).(vtActive := true, suspended := false), c);
    case _ =>
  }

  /** Only the user switches a screen on or off, if it can be: setting a mode, which asks for power too, never does. */
  lemma {:induction false} PowerIsLastSet(s: Screen, es: seq<Event>, t: Screen)
    requires RunTo(s, es, t)
    ensures t.poweredOn == if s.modes.hasDpms then LastPower(s.poweredOn, es) else s.poweredOn
    decreases |es|
  {
    if es == [] {
    } else {
      StepPower(s, es[0]);
      PowerIsLastSet(Step(s, es[0]), es[1..], t);
    }
  }
}
