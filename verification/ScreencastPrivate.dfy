/**
 The class of src/client/screencaster.cpp: its methods, each run without
 interruption, are serial runs of the recording protocol.
 */
module ScreencastClass {
  import opened Sequences
  import opened Screencast
  import opened ScreencastRuns

  /** recordFrame carried through by one thread alone. */
  function Finish(m: Shared, r: Record): (m': Shared)
    requires RecordOk(m, r)
    ensures |m'.busy| == |m'.present| && m'.present == m.present
    decreases match r case Returned => 0 case Marked => 1 case Failed => 1 case Sent(_) => 2 case Chosen(_) => 3
                        case Scan(i) => 4 + (if i < |m.busy| then |m.busy| - i else 0)
  {
    if r.Returned? then m
    else
      var (n, q) := RecordStep(m, r);
      Finish(n, q)
  }

  /** What recordFrame amounts to: it records into the lowest free slot, or starves if there is none. */
  lemma {:induction false} FinishRecordsLowestFree(m: Shared, i: nat, c: nat)
    requires |m.busy| == |m.present| && i <= c < |m.busy|
    requires m.present[c] && !m.busy[c] && NoneFreeBelow(m, c)
    ensures Finish(m, Scan(i)) == Shared(m.present, m.busy[c := true], false, m.outstanding + [c])
    decreases c - i
  {
    if i < c {
      assert !(m.present[i] && !m.busy[i]);
      assert Finish(m, Scan(i)) == Finish(m, Scan(i + 1));
      FinishRecordsLowestFree(m, i + 1, c);
    } else {
      var n := m.(outstanding := m.outstanding + [c]);
      assert Finish(m, Scan(c)) == Finish(m, Chosen(c)) == Finish(n, Sent(c));
      var p := n.(busy := m.busy[c := true]);
      assert Finish(n, Sent(c)) == Finish(p, Marked) == Finish(p.(starving := false), Returned);
    }
  }

  lemma {:induction false} FinishStarves(m: Shared, i: nat)
    requires |m.busy| == |m.present| && NoneFreeBelow(m, |m.busy|)
    ensures Finish(m, Scan(i)) == m.(starving := true)
    decreases |m.busy| - i
  {
    if i < |m.busy| {
      assert !(m.present[i] && !m.busy[i]);
      assert Finish(m, Scan(i)) == Finish(m, Scan(i + 1));
      FinishStarves(m, i + 1);
    } else {
      var n := m.(starving := true);
      assert Finish(m, Scan(i)) == Finish(m, Failed) == Finish(n, Returned);
    }
  }

  /** The callback or setup carried through by the main thread alone. */
  function MainDone(s: State): State
    requires Wf(s)
  {
    if s.main.Idle? then s
    else State(Finish(s.mem, s.main.rec), Idle, s.queue + MainFrame(s), s.handler, s.received, s.emitted)
  }

  /** The handling of one FrameEvent carried through by the handler thread alone. */
  function EventDone(s: State): State
    requires Wf(s) && s.handler.Waiting? && s.queue != []
  {
    var f := s.queue[0];
    var m := s.mem.(busy := s.mem.busy[f.buf := false]);
    State(if m.starving then Finish(m, Scan(0)) else m, s.main, s.queue[1..], Waiting,
          s.received, s.emitted + [f])
  }

  /** The uninterrupted call is one of the schedules of the state machine. */
  lemma {:induction false} MainDoneIsRun(s: State) returns (ls: seq<Label>)
    requires Wf(s)
    ensures RunTo(s, ls, MainDone(s), Serial)
    decreases if s.main.Idle? then 0 else
      match s.main.rec case Returned => 1 case Marked => 2 case Failed => 2 case Sent(_) => 3 case Chosen(_) => 4
                       case Scan(i) => 5 + (if i < |s.mem.busy| then |s.mem.busy| - i else 0)
  {
    if s.main.Idle? {
      return [];
    }
    var t := Next(s, MainStep);
    ls := MainDoneIsRun(t);
    assert t.queue + [] == t.queue;
    assert MainDone(t) == MainDone(s);
    Prepend(s, MainStep, ls, MainDone(s), Serial);
    ls := [MainStep] + ls;
  }

  lemma {:induction false} RefillIsRun(s: State) returns (ls: seq<Label>)
    requires Wf(s) && s.handler.Refill?
    ensures RunTo(s, ls, s.(mem := Finish(s.mem, s.handler.rec), handler := Waiting,
                            emitted := s.emitted + [s.handler.f]), Serial)
    decreases match s.handler.rec case Returned => 1 case Marked => 2 case Failed => 2 case Sent(_) => 3 case Chosen(_) => 4
                       case Scan(i) => 5 + (if i < |s.mem.busy| then |s.mem.busy| - i else 0)
  {
    var goal := s.(mem := Finish(s.mem, s.handler.rec), handler := Waiting, emitted := s.emitted + [s.handler.f]);
    var t := Next(s, HandlerStep);
    if s.handler.rec.Returned? {
      ls := [];
    } else {
      ls := RefillIsRun(t);
    }
    Prepend(s, HandlerStep, ls, goal, Serial);
    ls := [HandlerStep] + ls;
  }

  lemma EventDoneIsRun(s: State) returns (ls: seq<Label>)
    requires Wf(s) && s.handler.Waiting? && s.queue != []
    ensures RunTo(s, ls, EventDone(s), Serial)
  {
    var a := Next(s, HandlerStep);
    var b := Next(a, HandlerStep);
    var c := Next(b, HandlerStep);
    ls := RefillIsRun(c);
    Prepend(b, HandlerStep, ls, EventDone(s), Serial);
    Prepend(a, HandlerStep, [HandlerStep] + ls, EventDone(s), Serial);
    Prepend(s, HandlerStep, [HandlerStep] + ([HandlerStep] + ls), EventDone(s), Serial);
    ls := [HandlerStep] + ([HandlerStep] + ([HandlerStep] + ls));
  }

  /** Calls that do not overlap keep the invariant of the protocol. */
  lemma CallsKeepInv(s: State, time: nat, transform: int)
    requires Inv(s) && s.main.Idle? && s.handler.Waiting?
    ensures s.mem.outstanding != [] ==> Inv(MainDone(AnswerNext(s, time, transform)))
    ensures s.queue != [] ==> Inv(EventDone(s))
  {
    if s.mem.outstanding != [] {
      var a := AnswerNext(s, time, transform);
      AnswerInv(s, time, transform);
      var ls := MainDoneIsRun(a);
      SerialRunInv(a, ls, MainDone(a));
    }
    if s.queue != [] {
      var ls := EventDoneIsRun(s);
      SerialRunInv(s, ls, EventDone(s));
    }
  }

  class ScreencastBuffer {
    const present: bool
    var busy: bool

    constructor (present: bool)
      ensures this.present == present && !busy
    {
      this.present := present;
      busy := false;
    }
  }

  class ScreencastPrivate {
    var buffers: seq<ScreencastBuffer>
    var starving: bool
    var outstanding: seq<nat>  // slots recorded and not answered
    var events: seq<Frame>     // posted to the handler
    ghost var received: seq<Frame>
    ghost var emitted: seq<Frame>

    ghost function Mem(): Shared
      reads this, buffers
    {
      Shared(seq(|buffers|, i requires 0 <= i < |buffers| reads this, buffers => buffers[i].present),
             seq(|buffers|, i requires 0 <= i < |buffers| reads this, buffers => buffers[i].busy),
             starving, outstanding)
    }

    /** The state of the protocol between two calls. */
    ghost function Snapshot(): State
      reads this, buffers
    {
      State(Mem(), Idle, events, Waiting, received, emitted)
    }

    ghost predicate Valid()
      reads this, buffers
    {
      && NoDup(buffers)
      && Wf(Snapshot())
      && (forall k :: 0 <= k < |outstanding| ==> buffers[outstanding[k]].present)
    }

    constructor ()
      ensures Valid() && buffers == [] && !starving && outstanding == [] && events == []
      ensures received == [] && emitted == []
    {
      buffers, starving, outstanding, events := [], false, [], [];
      received, emitted := [], [];
    }

    method RecordFrame()
      requires Valid()
      modifies `starving, `outstanding, buffers
      ensures Valid()
      ensures Mem() == Finish(old(Mem()), Scan(0))
    {
      ghost var m := Mem();
      var i := 0;
      while i < |buffers| && !(buffers[i].present && !buffers[i].busy)
        invariant 0 <= i <= |buffers|
        invariant NoneFreeBelow(m, i)
        invariant Mem() == m
      {
        i := i + 1;
      }
      if i < |buffers| {
        FinishRecordsLowestFree(m, 0, i);
        outstanding := outstanding + [i];
        buffers[i].busy := true;
        starving := false;
        assert Mem().busy == m.busy[i := true];
      } else {
        FinishStarves(m, 0);
        starving := true;
      }
    }

    /** screencast_setup; created[i] tells whether the pool could create buffer i. */
    method Setup(formatSupported: bool, created: seq<bool>) returns (done: bool)
      requires Valid() && Snapshot() == State(Shared([], [], false, []), Idle, [], Waiting, [], [])
      requires |created| == 6
      modifies this
      ensures Valid() && done == formatSupported
      ensures Snapshot() == if done then MainDone(Init(created)) else old(Snapshot())
    {
      done := formatSupported;
      if !formatSupported {
        return;
      }
      for i := 0 to 6
        invariant |buffers| == i && NoDup(buffers)
        invariant fresh(buffers)
        invariant forall k :: 0 <= k < i ==> buffers[k].present == created[k] && !buffers[k].busy
        invariant unchanged(`starving, `outstanding, `events, `received, `emitted)
      {
        var buffer := new ScreencastBuffer(created[i]);
        buffers := buffers + [buffer];
      }
      assert Mem() == Init(created).mem;
      RecordFrame();
    }

    /** screencast_frame for the record the compositor answers. */
    method ScreencastFrame(buffer: nat, time: nat, transform: int)
      requires Valid()
      requires outstanding != [] && buffer == outstanding[0]
      modifies this, buffers
      ensures Valid()
      ensures Snapshot() == MainDone(AnswerNext(old(Snapshot()), time, transform))
      // one frame is received and posted: this buffer, with the time and transform of the answer
      ensures received == old(received) + [Frame(buffer, time, transform)] && events == old(events) + [Frame(buffer, time, transform)]
      ensures emitted == old(emitted)
    {
      ghost var s := Snapshot();
      ghost var a := AnswerNext(s, time, transform);
      outstanding := outstanding[1..];
      received := received + [Frame(buffer, time, transform)];
      assert Mem() == a.mem;
      RecordFrame();
      var i := 0;
      while i < |buffers| && !(buffers[i].present && i == buffer)
        invariant 0 <= i <= buffer < |buffers|
      {
        i := i + 1;
      }
      if i < |buffers| {
        events := events + [Frame(i, time, transform)];
      }
    }

    /** ScreencastHandler::event for a FrameEvent. */
    method HandleFrameEvent()
      requires Valid()
      requires events != []
      modifies this, buffers
      ensures Valid()
      ensures Snapshot() == EventDone(old(Snapshot()))
      // the oldest event is handled: its frame is emitted as it was posted
      ensures emitted == old(emitted) + [old(events)[0]] && events == old(events)[1..] && received == old(received)
    {
      ghost var s := Snapshot();
      var f := events[0];
      events := events[1..];
      buffers[f.buf].busy := false;
      assert Mem() == s.mem.(busy := s.mem.busy[f.buf := false]);
      if starving {
        RecordFrame();
      }
      emitted := emitted + [f];
    }
  }
}
