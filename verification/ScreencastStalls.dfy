/** Exactly which answers can stop the recording for good. */
module ScreencastStalls {
  import opened Sequences
  import opened Screencast
  import opened ScreencastRuns

  // ----- What is left of the invariant once a buffer may have been recorded twice -----

  /** A busy buffer is on its way, perhaps in two places. */
  ghost predicate Covered(s: State)
    requires Wf(s)
  {
    && (forall k :: 0 <= k < |Pipeline(s)| ==> Pipeline(s)[k] < |s.mem.busy| && s.mem.present[Pipeline(s)[k]])
    && (forall c :: 0 <= c < |s.mem.busy| && s.mem.busy[c] ==> c in Pipeline(s))
  }

  predicate LooseRecord(m: Shared, r: Record)
    requires RecordOk(m, r)
  {
    && (r.Scan? ==> r.i <= |m.busy|)
    && (r.Chosen? ==> m.present[r.i])
    && (r.Sent? ==> m.present[r.i] && m.outstanding == [r.i])
    && (r.Marked? ==> |m.outstanding| == 1)
  }

  /** The handler is bound to find its own buffer, or another event will follow. */
  predicate Bound(s: State)
    requires Wf(s) && s.handler.Refill?
  {
    var f := s.handler.f;
    && (s.handler.rec.Scan? ==>
          || EventComing(s)
          || (s.handler.rec.i <= f.buf < |s.mem.busy| && s.mem.present[f.buf] && !s.mem.busy[f.buf]))
    && (s.handler.rec.Failed? ==> EventComing(s))
  }

  ghost predicate Duties(s: State)
    requires Wf(s)
  {
    && (HandlerInside(s) ==> !MainInside(s) && s.mem.starving)
    && (MainInside(s) ==> !s.mem.starving && LooseRecord(s.mem, s.main.rec))
    && (s.handler.Refill? ==> LooseRecord(s.mem, s.handler.rec) && Bound(s))
    && (s.handler.Freed? ==> s.handler.f.buf < |s.mem.busy| && s.mem.present[s.handler.f.buf])
    && (Unserved(s) ==> EventComing(s) || s.handler.Took? || s.handler.Freed?)
    && (s.main.Recording? && s.main.frame.None? ==>
          && !s.main.rec.Failed?
          && (s.main.rec.Scan? ==>
                && (forall j :: 0 <= j < |s.mem.busy| ==> !s.mem.busy[j])
                && (forall j :: 0 <= j < s.main.rec.i ==> !s.mem.present[j])))
  }

  ghost predicate SomePresent(s: State) {
    exists j :: 0 <= j < |s.mem.present| && s.mem.present[j]
  }

  /** Exactly one duty is pending, and it will be met. */
  ghost predicate Flowing(s: State) {
    Wf(s) && SomePresent(s) && Tokens(s) == 1 && Duties(s) && Covered(s)
  }

  /** A slot from i on that the main thread can record into whatever the handler stores. */
  ghost predicate SpareFrom(s: State, i: nat)
    requires Wf(s) && s.handler.Refill?
  {
    exists j :: i <= j < |s.mem.busy| && s.mem.present[j] && !s.mem.busy[j] && s.handler.rec != Sent(j)
  }

  /** An answer has overtaken the handler's stores, but the main thread has a slot to go on with. */
  ghost predicate Overtaken(s: State) {
    && Wf(s) && SomePresent(s) && Tokens(s) == 1 && Covered(s) && Storing(s)
    && (s.handler.rec.Sent? ==> s.handler.rec.i in Pipeline(s))
    && (s.main.Recording? ==> s.main.frame.Some? && !s.main.rec.Failed?)
    && (MainInside(s) ==> LooseRecord(s.mem, s.main.rec))
    && (s.main.Recording? && s.main.rec.Scan? ==> SpareFrom(s, s.main.rec.i))
  }

  ghost predicate Alive(s: State) {
    Flowing(s) || Overtaken(s)
  }

  lemma InvIsAlive(s: State)
    requires Inv(s)
    ensures Flowing(s)
  {
  }

  // ----- The pipeline -----

  /** A step that leaves the pipeline as it is, and busy but for slots in it. */
  lemma CoveredStays(s: State, t: State)
    requires Wf(s) && Wf(t) && Covered(s) && Pipeline(t) == Pipeline(s) && t.mem.present == s.mem.present
    requires |t.mem.busy| == |s.mem.busy|
    requires forall c :: 0 <= c < |t.mem.busy| && t.mem.busy[c] ==> s.mem.busy[c] || c in Pipeline(s)
    ensures Covered(t)
  {
  }

  lemma CoveredSent(s: State, t: State, c: nat)
    requires Wf(s) && Wf(t) && Covered(s) && Pipeline(t) == Pipeline(s) + [c] && t.mem.present == s.mem.present
    requires c < |s.mem.busy| && s.mem.present[c] && t.mem.busy == s.mem.busy
    ensures Covered(t)
  {
    assert forall d :: d in Pipeline(s) ==> d in Pipeline(t);
  }

  lemma CoveredFreed(s: State, t: State, c: nat)
    requires Wf(s) && Wf(t) && Covered(s) && Pipeline(s) == [c] + Pipeline(t) && t.mem.present == s.mem.present
    requires c < |s.mem.busy| && t.mem.busy == s.mem.busy[c := false]
    ensures Covered(t)
  {
    var p, q := Pipeline(s), Pipeline(t);
    assert forall i :: 0 <= i < |q| ==> q[i] == p[i + 1];
    forall d | 0 <= d < |t.mem.busy| && t.mem.busy[d] ensures d in q {
      assert d in p && d != c;
    }
  }

  lemma OutstandingInPipeline(s: State, c: nat)
    requires c in s.mem.outstanding
    ensures c in Pipeline(s)
  {
    var k :| 0 <= k < |s.mem.outstanding| && s.mem.outstanding[k] == c;
    assert Pipeline(s)[|Pipeline(s)| - |s.mem.outstanding| + k] == c;
  }

  lemma MainCovered(s: State)
    requires Wf(s) && s.main.Recording? && Covered(s) && (MainInside(s) ==> LooseRecord(s.mem, s.main.rec))
    ensures Covered(MainNext(s))
  {
    MainPipeline(s);
    if s.main.rec.Chosen? {
      CoveredSent(s, MainNext(s), s.main.rec.i);
    } else {
      if s.main.rec.Sent? {
        OutstandingInPipeline(s, s.main.rec.i);
      }
      CoveredStays(s, MainNext(s));
    }
  }

  lemma AnswerCovered(s: State, time: nat, transform: int)
    requires Wf(s) && Enabled(s, Answer(time, transform)) && Covered(s)
    ensures Covered(AnswerNext(s, time, transform)) && Pipeline(AnswerNext(s, time, transform)) == Pipeline(s)
  {
    assert Pipeline(AnswerNext(s, time, transform)) == Pipeline(s);
    CoveredStays(s, AnswerNext(s, time, transform));
  }

  lemma RefillPipeline(s: State)
    requires Wf(s) && HandlerInside(s)
    ensures s.handler.rec.Chosen? ==> Pipeline(HandlerNext(s)) == Pipeline(s) + [s.handler.rec.i]
    ensures !s.handler.rec.Chosen? ==> Pipeline(HandlerNext(s)) == Pipeline(s)
  {
    if s.handler.rec.Chosen? {
      assert Pipeline(HandlerNext(s)) == Pipeline(s) + [s.handler.rec.i];
    }
  }

  lemma HandlerCovered(s: State)
    requires Wf(s) && Enabled(s, HandlerStep) && Covered(s)
    requires HandlerInside(s) && s.handler.rec.Chosen? ==> s.mem.present[s.handler.rec.i]
    requires HandlerInside(s) && s.handler.rec.Sent? ==> s.handler.rec.i in Pipeline(s)
    ensures Covered(HandlerNext(s))
  {
    if HandlerInside(s) {
      RefillPipeline(s);
      if s.handler.rec.Chosen? {
        CoveredSent(s, HandlerNext(s), s.handler.rec.i);
      } else {
        CoveredStays(s, HandlerNext(s));
      }
    } else {
      EventPipeline(s);
      if s.handler.Took? {
        CoveredFreed(s, HandlerNext(s), s.handler.f.buf);
      } else {
        CoveredStays(s, HandlerNext(s));
      }
    }
  }

  // ----- Steps while nothing has been overtaken -----

  lemma MainDuties(s: State)
    requires Wf(s) && s.main.Recording? && SomePresent(s) && Tokens(s) == 1 && Duties(s)
    ensures Tokens(MainNext(s)) == 1 && Duties(MainNext(s))
  {
  }

  lemma HandlerDuties(s: State)
    requires Wf(s) && Enabled(s, HandlerStep) && Tokens(s) == 1 && Duties(s)
    requires s.handler.Took? ==> s.mem.present[s.handler.f.buf]
    requires s.handler.Freed? && s.mem.starving && s.mem.busy[s.handler.f.buf] ==> EventComing(s)
    ensures Tokens(HandlerNext(s)) == 1 && Duties(HandlerNext(s))
  {
  }

  lemma AnswerDuties(s: State, time: nat, transform: int)
    requires Wf(s) && Enabled(s, Answer(time, transform)) && Tokens(s) == 1 && Duties(s) && !Storing(s)
    ensures Tokens(AnswerNext(s, time, transform)) == 1 && Duties(AnswerNext(s, time, transform))
  {
  }

  lemma FreedIsComing(s: State)
    requires Flowing(s) && s.handler.Freed? && s.mem.starving && s.mem.busy[s.handler.f.buf]
    ensures EventComing(s)
  {
    assert s.handler.f.buf in Pipeline(s);
    assert s.mem.outstanding == [];
  }

  lemma MainFlows(s: State)
    requires Flowing(s) && s.main.Recording?
    ensures Flowing(MainNext(s))
  {
    MainCovered(s);
    MainDuties(s);
  }

  lemma HandlerFlows(s: State)
    requires Flowing(s) && Enabled(s, HandlerStep)
    ensures Flowing(HandlerNext(s))
  {
    if s.handler.Took? {
      assert Pipeline(s)[0] == s.handler.f.buf;
    }
    if s.handler.Freed? && s.mem.starving && s.mem.busy[s.handler.f.buf] {
      FreedIsComing(s);
    }
    if HandlerInside(s) && s.handler.rec.Sent? {
      OutstandingInPipeline(s, s.handler.rec.i);
    }
    HandlerCovered(s);
    HandlerDuties(s);
  }

  lemma AnswerFlows(s: State, time: nat, transform: int)
    requires Flowing(s) && Enabled(s, Answer(time, transform)) && !Storing(s)
    ensures Flowing(AnswerNext(s, time, transform))
  {
    AnswerCovered(s, time, transform);
    AnswerDuties(s, time, transform);
  }

  // ----- Steps after an answer has overtaken the handler -----

  /** An answer that comes while the handler is storing leaves a slot to go on with, if one was free. */
  lemma AnswerOvertakes(s: State, time: nat, transform: int)
    requires Alive(s) && Enabled(s, Answer(time, transform)) && Storing(s) && !Stalling(s)
    ensures Overtaken(AnswerNext(s, time, transform))
  {
    var t := AnswerNext(s, time, transform);
    AnswerCovered(s, time, transform);
    if s.handler.rec.Sent? && Flowing(s) {
      OutstandingInPipeline(s, s.handler.rec.i);
    }
    var j :| 0 <= j < |s.mem.busy| && s.mem.present[j] && !s.mem.busy[j] && s.handler.rec != Sent(j);
    assert t.mem.present[j] && !t.mem.busy[j] && t.handler.rec != Sent(j);
    assert SpareFrom(t, 0);
  }

  lemma MainOvertaken(s: State)
    requires Overtaken(s) && s.main.Recording?
    ensures Overtaken(MainNext(s))
  {
    var t := MainNext(s);
    MainCovered(s);
    MainPipeline(s);
    if s.handler.rec.Sent? {
      assert s.handler.rec.i in Pipeline(s);
      assert s.handler.rec.i in Pipeline(t);
    }
    if s.main.rec.Scan? {
      var j :| s.main.rec.i <= j < |s.mem.busy| && s.mem.present[j] && !s.mem.busy[j] && s.handler.rec != Sent(j);
      assert t.mem.present[j] && !t.mem.busy[j] && t.handler.rec != Sent(j);
      assert t.main.rec.Scan? ==> SpareFrom(t, t.main.rec.i);
    }
  }

  lemma HandlerOvertaken(s: State)
    requires Overtaken(s)
    ensures Alive(HandlerNext(s))
  {
    var t := HandlerNext(s);
    HandlerCovered(s);
    RefillPipeline(s);
    if s.handler.rec.Sent? {
      if s.main.Recording? && s.main.rec.Scan? {
        var j :| s.main.rec.i <= j < |s.mem.busy| && s.mem.present[j] && !s.mem.busy[j] && s.handler.rec != Sent(j);
        assert t.mem.present[j] && !t.mem.busy[j] && t.handler.rec != Sent(j);
        assert SpareFrom(t, t.main.rec.i);
      }
      assert Overtaken(t);
    } else {
      assert Flowing(t);
    }
  }

  // ----- Runs -----

  lemma StepAlive(s: State, l: Label)
    requires Alive(s) && Enabled(s, l) && Obeys(s, l, WithSpare)
    ensures Alive(Next(s, l))
  {
    match l
    case MainStep =>
      if Flowing(s) { MainFlows(s); } else { MainOvertaken(s); }
    case HandlerStep =>
      if Flowing(s) { HandlerFlows(s); } else { HandlerOvertaken(s); }
    case Answer(time, transform) =>
      if Storing(s) { AnswerOvertakes(s, time, transform); } else { AnswerFlows(s, time, transform); }
  }

  lemma AliveIsNotStuck(s: State)
    requires Alive(s)
    ensures !Stuck(s)
  {
    if s.main.Recording? {
      assert Enabled(s, MainStep);
    } else if !Enabled(s, HandlerStep) {
      assert Enabled(s, Answer(0, 0));
    }
  }

  /** Runs in which no answer comes when no slot is left stay alive. */
  lemma {:induction false} RunAlive(s: State, ls: seq<Label>, t: State, d: Dispatch)
    requires Alive(s) && RunTo(s, ls, t, d) && (d.WithSpare? || d.Serial?)
    ensures Alive(t)
    decreases |ls|
  {
    if ls == [] {
    } else {
      StepAlive(s, ls[0]);
      RunAlive(Next(s, ls[0]), ls[1..], t, d);
    }
  }

  /** With no slot free, the main thread's scan fails. */
  lemma {:induction false} ScanFails(s: State) returns (ls: seq<Label>, t: State)
    requires Wf(s) && s.main.Recording? && s.main.rec.Scan? && FreeSlots(s.mem) == {}
    ensures RunTo(s, ls, t, Serial) && t == s.(main := Recording(Failed, s.main.frame))
    decreases if s.main.rec.i < |s.mem.busy| then |s.mem.busy| - s.main.rec.i else 0
  {
    var u := Next(s, MainStep);
    var rest := [];
    if s.main.rec.i < |s.mem.busy| {
      assert s.main.rec.i !in FreeSlots(s.mem);
      rest, t := ScanFails(u);
    } else {
      t := u;
    }
    ls := [MainStep] + rest;
    Prepend(s, MainStep, rest, t, Serial);
  }

  /** From the failed scan on: starving is set, then erased by the handler's last store. */
  lemma LateStoreErases(s: State) returns (ls: seq<Label>, t: State)
    requires Wf(s) && s.main.Recording? && s.main.rec.Failed? && s.main.frame.Some?
    requires s.handler.Refill? && s.handler.rec.Marked? && s.mem.outstanding == []
    ensures RunTo(s, ls, t, Serial) && Wf(t) && Stuck(t)
  {
    var a := Next(s, MainStep);
    var b := Next(a, HandlerStep);
    var c := Next(b, MainStep);
    var rest;
    rest, t := Drains(c, Serial);
    Prepend(b, MainStep, rest, t, Serial);
    Prepend(a, HandlerStep, [MainStep] + rest, t, Serial);
    Prepend(s, MainStep, [HandlerStep] + ([MainStep] + rest), t, Serial);
    ls := [MainStep] + ([HandlerStep] + ([MainStep] + rest));
  }

  /** One answer that comes when no slot is left stops the recording, though all later ones are dispatched in time. */
  lemma OneAnswerStalls(s: State) returns (ls: seq<Label>, t: State)
    requires Wf(s) && s.main.Idle? && |s.mem.outstanding| == 1 && Stalling(s)
    ensures RunTo(Next(s, Answer(0, 0)), ls, t, Serial) && Wf(t) && Stuck(t)
  {
    var a := Next(s, Answer(0, 0));
    var b := if a.handler.rec.Sent? then Next(a, HandlerStep) else a;
    assert forall j :: j !in FreeSlots(b.mem);
    var scan, c := ScanFails(b);
    var rest;
    rest, t := LateStoreErases(c);
    RunAppend(b, scan, c, rest, t, Serial);
    ls := scan + rest;
    if a.handler.rec.Sent? {
      Prepend(a, HandlerStep, ls, t, Serial);
      ls := [HandlerStep] + ls;
    }
  }

  /** An answer at s, followed by others that are dispatched in time, can stop the recording. */
  ghost predicate LeadsToStall(s: State)
    requires Wf(s) && Enabled(s, Answer(0, 0))
  {
    exists ls, t :: RunTo(Next(s, Answer(0, 0)), ls, t, Serial) && Wf(t) && Stuck(t)
  }

  /** It can if and only if the handler is storing and no slot is free but the one it has sent. */
  lemma AliveStallsIff(s: State)
    requires Alive(s) && Enabled(s, Answer(0, 0))
    ensures LeadsToStall(s) <==> Stalling(s)
  {
    var u := Next(s, Answer(0, 0));
    if Stalling(s) {
      var ls, t := OneAnswerStalls(s);
      assert RunTo(u, ls, t, Serial);
    } else {
      StepAlive(s, Answer(0, 0));
      forall ls, t | RunTo(u, ls, t, Serial) ensures !Stuck(t) {
        RunAlive(u, ls, t, Serial);
        AliveIsNotStuck(t);
      }
    }
  }

  lemma RunFromSetupAlive(present: seq<bool>, ls: seq<Label>, s: State)
    requires exists j :: 0 <= j < |present| && present[j]
    requires RunTo(Init(present), ls, s, WithSpare)
    ensures Alive(s)
  {
    InitInv(present);
    InvIsAlive(Init(present));
    RunAlive(Init(present), ls, s, WithSpare);
  }

  /**
   Exactly which answers stall, in every state that a run from setup reaches
   in which none has stalled yet: those that come between the handler's record
   and its last store when no slot is free but the one just sent.
   */
  lemma StallsIff(present: seq<bool>, ls: seq<Label>, s: State)
    requires exists j :: 0 <= j < |present| && present[j]
    requires RunTo(Init(present), ls, s, WithSpare) && Wf(s) && Enabled(s, Answer(0, 0))
    ensures LeadsToStall(s) <==> Stalling(s)
  {
    RunFromSetupAlive(present, ls, s);
    AliveStallsIff(s);
  }

  /** A run that brings the handler there, every answer being dispatched in time. */
  ghost predicate ReachesStalling(present: seq<bool>, ls: seq<Label>, s: State) {
    RunTo(Init(present), ls, s, Serial) && Wf(s) && Enabled(s, Answer(0, 0)) && LeadsToStall(s)
  }

  /**
   Never stalling, for every table with a buffer: no schedule gets stuck as
   long as no answer comes when no slot is left, and one such answer is
   enough: it is within reach, and then some schedule gets stuck.
   */
  lemma SpareSlotIsNeeded(present: seq<bool>)
    requires exists j :: 0 <= j < |present| && present[j]
    ensures forall ls, t :: RunTo(Init(present), ls, t, WithSpare) ==> !Stuck(t)
    ensures exists ls, s :: ReachesStalling(present, ls, s)
  {
    forall ls, t | RunTo(Init(present), ls, t, WithSpare) ensures !Stuck(t) {
      RunFromSetupAlive(present, ls, t);
      AliveIsNotStuck(t);
    }
    var ls, s := MarkingReachable(present);
    InvIsAlive(s);
    AliveStallsIff(s);
    assert ReachesStalling(present, ls, s);
  }
}
