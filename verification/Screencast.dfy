/**
 The recording protocol of src/client/screencaster.cpp as a state machine of
 three actors: the main thread (setup and the frame callback), the handler
 thread (FrameEvent) and the compositor.  One step is one access to the state
 the threads share, so the scan for a free buffer, the record request, the two
 stores after it and the post of the event are all separate steps.
 */
module Screencast {
  import opened Sequences

  /** What the two threads share; slot i is `buffers[i]`, present if its buffer is not null. */
  datatype Shared = Shared(present: seq<bool>, busy: seq<bool>, starving: bool, outstanding: seq<nat>)

  datatype Frame = Frame(buf: nat, time: nat, transform: int)

  /** Where a thread stands inside recordFrame. */
  datatype Record =
    | Scan(i: nat)     // about to look at slot i
    | Chosen(i: nat)   // slot i found free, record() not yet sent
    | Sent(i: nat)     // record() sent, busy not yet set
    | Marked           // busy set, starving not yet cleared
    | Failed           // no free slot, starving not yet set
    | Returned

  datatype Main = Idle | Recording(rec: Record, frame: Option<Frame>)  // no frame: called from setup

  datatype Handler =
    | Waiting
    | Took(f: Frame)                 // event taken from the queue, buffer not yet freed
    | Freed(f: Frame)                // busy cleared, starving not yet read
    | Refill(rec: Record, f: Frame)  // in recordFrame; Returned: about to emit frameRecorded

  /** `received` and `emitted` log the frames of the callback and of frameRecorded. */
  datatype State = State(mem: Shared, main: Main, queue: seq<Frame>, handler: Handler,
                         received: seq<Frame>, emitted: seq<Frame>)

  datatype Label = MainStep | HandlerStep | Answer(time: nat, transform: int)

  predicate RecordOk(m: Shared, r: Record) {
    && |m.busy| == |m.present|
    && (r.Chosen? || r.Sent? ==> r.i < |m.busy|)
  }

  predicate Wf(s: State) {
    && |s.mem.busy| == |s.mem.present|
    && (s.main.Recording? ==> RecordOk(s.mem, s.main.rec))
    && (s.handler.Refill? ==> RecordOk(s.mem, s.handler.rec))
    && (s.handler.Took? ==> s.handler.f.buf < |s.mem.busy|)
    && (s.main.Recording? && s.main.frame.Some? ==> s.main.frame.value.buf < |s.mem.busy|)
    && (forall i :: 0 <= i < |s.queue| ==> s.queue[i].buf < |s.mem.busy|)
    && (forall i :: 0 <= i < |s.mem.outstanding| ==> s.mem.outstanding[i] < |s.mem.busy|)
  }

  /** One shared access of recordFrame. */
  function RecordStep(m: Shared, r: Record): (Shared, Record)
    requires RecordOk(m, r) && !r.Returned?
  {
    match r
    case Scan(i) =>
      if i >= |m.busy| then (m, Failed)
      else if m.present[i] && !m.busy[i] then (m, Chosen(i))
      else (m, Scan(i + 1))
    case Chosen(i) => (m.(outstanding := m.outstanding + [i]), Sent(i))
    case Sent(i) => (m.(busy := m.busy[i := true]), Marked)
    case Marked => (m.(starving := false), Returned)
    case Failed => (m.(starving := true), Returned)
  }

  predicate Enabled(s: State, l: Label) {
    match l
    case MainStep => s.main.Recording?
    case HandlerStep => !s.handler.Waiting? || s.queue != []
    case Answer(_, _) => s.main.Idle? && s.mem.outstanding != []
  }

  function MainNext(s: State): (t: State)
    requires Wf(s) && s.main.Recording?
    ensures Wf(t)
  {
    var Recording(rec, frame) := s.main;
    if !rec.Returned? then
      var (m, r) := RecordStep(s.mem, rec);
      s.(mem := m, main := Recording(r, frame))
    else if frame.Some? then
      s.(main := Idle, queue := s.queue + [frame.value])
    else
      s.(main := Idle)
  }

  function HandlerNext(s: State): (t: State)
    requires Wf(s) && (!s.handler.Waiting? || s.queue != [])
    ensures Wf(t)
  {
    match s.handler
    case Waiting => s.(handler := Took(s.queue[0]), queue := s.queue[1..])
    case Took(f) => s.(mem := s.mem.(busy := s.mem.busy[f.buf := false]), handler := Freed(f))
    case Freed(f) => s.(handler := Refill(if s.mem.starving then Scan(0) else Returned, f))
    case Refill(rec, f) =>
      if rec.Returned? then
        s.(handler := Waiting, emitted := s.emitted + [f])
      else
        var (m, r) := RecordStep(s.mem, rec);
        s.(mem := m, handler := Refill(r, f))
  }

  /** The compositor answers the oldest record; the callback starts on the idle main thread. */
  function AnswerNext(s: State, time: nat, transform: int): (t: State)
    requires Wf(s) && s.main.Idle? && s.mem.outstanding != []
    ensures Wf(t)
  {
    var f := Frame(s.mem.outstanding[0], time, transform);
    s.(mem := s.mem.(outstanding := s.mem.outstanding[1..]),
       main := Recording(Scan(0), Some(f)), received := s.received + [f])
  }

  function Next(s: State, l: Label): (t: State)
    requires Wf(s) && Enabled(s, l)
    ensures Wf(t)
  {
    match l
    case MainStep => MainNext(s)
    case HandlerStep => HandlerNext(s)
    case Answer(time, transform) => AnswerNext(s, time, transform)
  }

  /** The state in which screencast_setup calls recordFrame, all slots fresh. */
  function Init(present: seq<bool>): (s: State)
    ensures Wf(s)
  {
    State(Shared(present, seq(|present|, i => false), false, []),
          Recording(Scan(0), None), [], Waiting, [], [])
  }

  // ----- The discipline under which the protocol is correct -----

  /** The handler has sent a record and not yet stored both busy and starving. */
  predicate Storing(s: State) {
    s.handler.Refill? && (s.handler.rec.Sent? || s.handler.rec.Marked?)
  }

  /** The handler has sent a record and not yet stored busy. */
  predicate Marking(s: State) {
    s.handler.Refill? && s.handler.rec.Sent?
  }

  /** The handler is storing, and no slot is free but the one it has just sent. */
  predicate Stalling(s: State) {
    && Storing(s)
    && forall j :: 0 <= j < |s.mem.busy| && j < |s.mem.present| && s.mem.present[j] && !s.mem.busy[j] ==>
         s.handler.rec == Sent(j)
  }

  /**
   When answers are dispatched: at any time, once busy is stored, unless no
   slot is left to record into, or once both stores are done.
   */
  datatype Dispatch = Anytime | AfterBusy | WithSpare | Serial

  predicate Obeys(s: State, l: Label, d: Dispatch) {
    match d
    case Anytime => true
    case AfterBusy => l.Answer? ==> !Marking(s)
    case WithSpare => l.Answer? ==> !Stalling(s)
    case Serial => l.Answer? ==> !Storing(s)
  }

  /** `ls` leads from s to t, with answers dispatched as d says. */
  predicate RunTo(s: State, ls: seq<Label>, t: State, d: Dispatch)
    requires Wf(s)
    decreases |ls|
  {
    if ls == [] then s == t
    else
      && Enabled(s, ls[0])
      && Obeys(s, ls[0], d)
      && RunTo(Next(s, ls[0]), ls[1..], t, d)
  }

  // ----- The invariant -----

  /** Inside recordFrame, on the main or the handler thread. */
  predicate MainInside(s: State) { s.main.Recording? && !s.main.rec.Returned? }
  predicate HandlerInside(s: State) { s.handler.Refill? && !s.handler.rec.Returned? }

  /** A FrameEvent is queued, or will be as soon as the callback goes on. */
  predicate EventComing(s: State) {
    || s.queue != []
    || (s.main.Recording? && s.main.rec.Returned? && s.main.frame.Some?)
  }

  function Bit(b: bool): nat { if b then 1 else 0 }

  predicate Unsent(r: Record) { r.Scan? || r.Chosen? }

  /** `starving` is true and nobody has started to act on it. */
  predicate Unserved(s: State) {
    s.mem.starving && !(HandlerInside(s) && !s.handler.rec.Failed?)
  }

  /** Duties to get the next record sent: one in flight, one being prepared, or one owed. */
  function Tokens(s: State): nat {
    |s.mem.outstanding|
    + Bit(MainInside(s) && (Unsent(s.main.rec) || s.main.rec.Failed?))
    + Bit(HandlerInside(s) && Unsent(s.handler.rec))
    + Bit(Unserved(s))
  }

  function Bufs(fs: seq<Frame>): seq<nat> {
    seq(|fs|, i requires 0 <= i < |fs| => fs[i].buf)
  }

  function MainFrame(s: State): seq<Frame> {
    if s.main.Recording? && s.main.frame.Some? then [s.main.frame.value] else []
  }

  function HandlerFrame(s: State): seq<Frame> {
    if s.handler.Waiting? then [] else [s.handler.f]
  }

  /** The buffers that are not free, oldest first: taken by the handler, queued, in the callback, recorded. */
  function Pipeline(s: State): seq<nat> {
    (if s.handler.Took? then [s.handler.f.buf] else [])
    + Bufs(s.queue) + Bufs(MainFrame(s)) + s.mem.outstanding
  }

  /** The record request for slot c is out but busy is not stored yet. */
  predicate Unmarked(s: State, c: nat) {
    || (s.main.Recording? && s.main.rec == Sent(c))
    || (s.handler.Refill? && s.handler.rec == Sent(c))
  }

  ghost predicate Ownership(s: State)
    requires Wf(s)
  {
    && NoDup(Pipeline(s))
    && (forall k :: 0 <= k < |Pipeline(s)| ==> Pipeline(s)[k] < |s.mem.busy| && s.mem.present[Pipeline(s)[k]])
    && (forall c :: 0 <= c < |s.mem.busy| ==> (s.mem.busy[c] <==> c in Pipeline(s) && !Unmarked(s, c)))
  }

  predicate RecordFacts(m: Shared, r: Record)
    requires RecordOk(m, r)
  {
    && (r.Scan? ==> r.i <= |m.busy|)
    && (r.Chosen? ==> m.present[r.i] && !m.busy[r.i])
    && (r.Sent? ==> m.present[r.i] && !m.busy[r.i] && m.outstanding == [r.i])
    && (r.Marked? ==> |m.outstanding| == 1)
  }

  /** No slot before i can be recorded into. */
  predicate NoneFreeBelow(m: Shared, i: nat)
    requires |m.busy| == |m.present|
  {
    forall j :: 0 <= j < i && j < |m.busy| ==> !(m.present[j] && !m.busy[j])
  }

  /** The handler is bound to find its own buffer, or another event will follow. */
  predicate RefillFacts(s: State)
    requires Wf(s) && s.handler.Refill?
  {
    var f := s.handler.f;
    && (s.handler.rec.Scan? ==>
          || EventComing(s)
          || (s.handler.rec.i <= f.buf < |s.mem.busy| && s.mem.present[f.buf] && !s.mem.busy[f.buf]))
    && (s.handler.rec.Failed? ==> EventComing(s))
    && (s.handler.rec.Scan? || s.handler.rec.Chosen? || s.handler.rec.Sent? ==> NoneFreeBelow(s.mem, s.handler.rec.i))
  }

  ghost predicate Roles(s: State)
    requires Wf(s)
  {
    && (HandlerInside(s) ==> !MainInside(s) && s.mem.starving)
    && (MainInside(s) ==> !s.mem.starving && RecordFacts(s.mem, s.main.rec))
    && (s.handler.Refill? ==> RecordFacts(s.mem, s.handler.rec) && RefillFacts(s))
    && (s.handler.Freed? ==> s.handler.f.buf < |s.mem.busy| && s.mem.present[s.handler.f.buf])
    && (Unserved(s) ==> EventComing(s) || s.handler.Took? || s.handler.Freed?)
    // setup: every slot is free and the slots passed so far are null
    && (s.main.Recording? && s.main.frame.None? ==>
          && !s.main.rec.Failed?
          && (s.main.rec.Scan? ==>
                && (forall j :: 0 <= j < |s.mem.busy| ==> !s.mem.busy[j])
                && (forall j :: 0 <= j < s.main.rec.i ==> !s.mem.present[j])))
  }

  /** Two threads are never inside recordFrame at once, but for a handler that has stored busy already. */
  ghost predicate Apart(s: State)
    requires Wf(s)
  {
    && (HandlerInside(s) && !s.handler.rec.Marked? ==>
          !MainInside(s) && s.mem.starving && RecordFacts(s.mem, s.handler.rec))
    && (MainInside(s) ==> RecordFacts(s.mem, s.main.rec))
    && (MainInside(s) && s.mem.starving ==> s.handler.Refill? && s.handler.rec.Marked?)
  }

  /** What is left of the invariant when an answer may come between the two stores. */
  ghost predicate WeakInv(s: State) {
    Wf(s) && Tokens(s) <= 1 && Apart(s) && Ownership(s)
  }

  ghost predicate Inv(s: State) {
    && Wf(s)
    && (exists j :: 0 <= j < |s.mem.present| && s.mem.present[j])
    && Tokens(s) == 1
    && Roles(s)
    && Ownership(s)
    && s.received == s.emitted + HandlerFrame(s) + s.queue + MainFrame(s)
  }

  lemma InitInv(present: seq<bool>)
    requires exists j :: 0 <= j < |present| && present[j]
    ensures Inv(Init(present))
  {
    var s := Init(present);
    assert Pipeline(s) == [];
    assert Tokens(s) == 1;
  }

  // ----- Every serial step keeps the invariant -----

  /** A step that moves a buffer along the pipeline, or none. */
  lemma OwnershipMoved(s: State, t: State)
    requires Wf(s) && Wf(t) && Ownership(s)
    requires Pipeline(t) == Pipeline(s)
    requires t.mem.busy == s.mem.busy && t.mem.present == s.mem.present
    requires forall c: nat :: Unmarked(t, c) <==> Unmarked(s, c)
    ensures Ownership(t)
  {
  }

  /** record(): slot c enters the pipeline, not yet marked. */
  lemma OwnershipSent(s: State, t: State, c: nat)
    requires Wf(s) && Wf(t) && Ownership(s)
    requires c < |s.mem.busy| && s.mem.present[c] && !s.mem.busy[c]
    requires forall d: nat :: !Unmarked(s, d)
    requires Pipeline(t) == Pipeline(s) + [c]
    requires t.mem.busy == s.mem.busy && t.mem.present == s.mem.present
    requires forall d: nat :: Unmarked(t, d) <==> d == c
    ensures Ownership(t)
  {
    var p, q := Pipeline(s), Pipeline(t);
    assert c !in p;
    assert forall d :: d in q <==> d in p || d == c;
  }

  /** busy = true for the slot whose record is out. */
  lemma OwnershipMarked(s: State, t: State, c: nat)
    requires Wf(s) && Wf(t) && Ownership(s)
    requires c < |s.mem.busy| && c in s.mem.outstanding
    requires forall d: nat :: Unmarked(s, d) <==> d == c
    requires forall d: nat :: !Unmarked(t, d)
    requires Pipeline(t) == Pipeline(s)
    requires t.mem.busy == s.mem.busy[c := true] && t.mem.present == s.mem.present
    ensures Ownership(t)
  {
    var k :| 0 <= k < |s.mem.outstanding| && s.mem.outstanding[k] == c;
    var p := Pipeline(s);
    assert p[|p| - |s.mem.outstanding| + k] == c;
  }

  /** busy = false for the oldest buffer of the pipeline. */
  lemma OwnershipFreed(s: State, t: State, c: nat)
    requires Wf(s) && Wf(t) && Ownership(s)
    requires c < |s.mem.busy|
    requires Pipeline(s) == [c] + Pipeline(t)
    requires t.mem.busy == s.mem.busy[c := false] && t.mem.present == s.mem.present
    requires forall d: nat :: Unmarked(t, d) <==> Unmarked(s, d)
    ensures Ownership(t)
  {
    var p, q := Pipeline(s), Pipeline(t);
    assert forall i :: 0 <= i < |q| ==> q[i] == p[i + 1];
    assert p[0] == c;
    assert forall d :: d in p <==> d in q || d == c;
    assert c !in q;
  }

  /** What a step of the main thread does to the pipeline. */
  lemma MainPipeline(s: State)
    requires Wf(s) && s.main.Recording?
    ensures s.main.rec.Chosen? ==> Pipeline(MainNext(s)) == Pipeline(s) + [s.main.rec.i]
    ensures !s.main.rec.Chosen? ==> Pipeline(MainNext(s)) == Pipeline(s)
  {
    var t := MainNext(s);
    if s.main.rec.Returned? && s.main.frame.Some? {
      PostMoves(if s.handler.Took? then [s.handler.f.buf] else [], s.queue, s.main.frame.value, s.mem.outstanding);
    }
  }

  lemma PostMoves(held: seq<nat>, queue: seq<Frame>, f: Frame, outstanding: seq<nat>)
    ensures held + Bufs(queue + [f]) + Bufs([]) + outstanding == held + Bufs(queue) + Bufs([f]) + outstanding
  {
    assert Bufs(queue + [f]) == Bufs(queue) + Bufs([f]);
  }

  lemma MainStepOwnership(s: State)
    requires Wf(s) && s.main.Recording? && Apart(s) && Ownership(s)
    ensures Ownership(MainNext(s))
  {
    MainPipeline(s);
    if s.main.rec.Chosen? {
      OwnershipSent(s, MainNext(s), s.main.rec.i);
    } else if s.main.rec.Sent? {
      OwnershipMarked(s, MainNext(s), s.main.rec.i);
    } else {
      OwnershipMoved(s, MainNext(s));
    }
  }

  lemma RefillOwnership(s: State)
    requires Wf(s) && HandlerInside(s) && Apart(s) && Ownership(s)
    ensures Ownership(HandlerNext(s))
  {
    var t := HandlerNext(s);
    if s.handler.rec.Chosen? {
      assert Pipeline(t) == Pipeline(s) + [s.handler.rec.i];
      OwnershipSent(s, t, s.handler.rec.i);
    } else if s.handler.rec.Sent? {
      OwnershipMarked(s, t, s.handler.rec.i);
    } else {
      assert Pipeline(t) == Pipeline(s);
      OwnershipMoved(s, t);
    }
  }

  lemma BufsHead(queue: seq<Frame>)
    requires queue != []
    ensures Bufs(queue) == [queue[0].buf] + Bufs(queue[1..])
  {
  }

  lemma HeadMoves(c: nat, queue: seq<nat>, rest: seq<nat>, outstanding: seq<nat>)
    ensures [] + ([c] + queue) + rest + outstanding == [c] + queue + rest + outstanding
    ensures [c] + queue + rest + outstanding == [c] + ([] + queue + rest + outstanding)
  {
    assert [] + ([c] + queue) == [c] + queue;
    assert [] + queue == queue;
    assert [c] + queue + rest == [c] + (queue + rest);
  }

  /** Outside recordFrame the handler only moves along the pipeline or leaves it with its oldest buffer. */
  lemma EventPipeline(s: State)
    requires Wf(s) && Enabled(s, HandlerStep) && !HandlerInside(s)
    ensures !s.handler.Took? ==> Pipeline(HandlerNext(s)) == Pipeline(s)
    ensures s.handler.Took? ==> Pipeline(s) == [s.handler.f.buf] + Pipeline(HandlerNext(s))
  {
    if s.handler.Waiting? {
      BufsHead(s.queue);
      HeadMoves(s.queue[0].buf, Bufs(s.queue[1..]), Bufs(MainFrame(s)), s.mem.outstanding);
    } else if s.handler.Took? {
      HeadMoves(s.handler.f.buf, Bufs(s.queue), Bufs(MainFrame(s)), s.mem.outstanding);
    }
  }

  lemma EventOwnership(s: State)
    requires Wf(s) && Enabled(s, HandlerStep) && !HandlerInside(s) && Ownership(s)
    ensures Ownership(HandlerNext(s))
  {
    EventPipeline(s);
    if s.handler.Took? {
      OwnershipFreed(s, HandlerNext(s), s.handler.f.buf);
    } else {
      OwnershipMoved(s, HandlerNext(s));
    }
  }

  lemma HandlerStepOwnership(s: State)
    requires Wf(s) && Enabled(s, HandlerStep) && Apart(s) && Ownership(s)
    ensures Ownership(HandlerNext(s))
  {
    if HandlerInside(s) {
      RefillOwnership(s);
    } else {
      EventOwnership(s);
    }
  }

  lemma MainStepRoles(s: State)
    requires Wf(s) && s.main.Recording? && Roles(s) && Tokens(s) == 1
    requires exists j :: 0 <= j < |s.mem.present| && s.mem.present[j]
    ensures Roles(MainNext(s)) && Tokens(MainNext(s)) == 1
  {
  }

  lemma HandlerStepRoles(s: State)
    requires Wf(s) && Enabled(s, HandlerStep) && Roles(s) && Tokens(s) == 1
    requires s.handler.Took? ==> s.mem.present[s.handler.f.buf]
    requires s.handler.Freed? && s.mem.starving && s.mem.busy[s.handler.f.buf] ==> EventComing(s)
    ensures Roles(HandlerNext(s)) && Tokens(HandlerNext(s)) == 1
  {
  }

  lemma MainStepInv(s: State)
    requires Inv(s) && s.main.Recording?
    ensures Inv(MainNext(s))
  {
    MainStepOwnership(s);
    MainStepRoles(s);
  }

  /** A freed buffer that is busy again has moved on to where another event will come from. */
  lemma FreedAgainBusy(s: State)
    requires Inv(s) && s.handler.Freed? && s.mem.starving && s.mem.busy[s.handler.f.buf]
    ensures EventComing(s)
  {
    assert s.handler.f.buf in Pipeline(s);
    assert s.mem.outstanding == [];
  }

  lemma TakenIsPresent(s: State)
    requires Wf(s) && Ownership(s) && s.handler.Took?
    ensures s.mem.present[s.handler.f.buf]
  {
    assert Pipeline(s)[0] == s.handler.f.buf;
  }

  lemma HandlerStepLogs(s: State)
    requires Wf(s) && Enabled(s, HandlerStep)
    requires s.received == s.emitted + HandlerFrame(s) + s.queue + MainFrame(s)
    ensures var t := HandlerNext(s);
            t.received == t.emitted + HandlerFrame(t) + t.queue + MainFrame(t)
  {
  }

  lemma HandlerStepInv(s: State)
    requires Inv(s) && Enabled(s, HandlerStep)
    ensures Inv(HandlerNext(s))
  {
    if s.handler.Took? {
      TakenIsPresent(s);
    }
    if s.handler.Freed? && s.mem.starving && s.mem.busy[s.handler.f.buf] {
      FreedAgainBusy(s);
    }
    HandlerStepOwnership(s);
    HandlerStepRoles(s);
    HandlerStepLogs(s);
  }

  lemma AnswerInv(s: State, time: nat, transform: int)
    requires Inv(s) && Enabled(s, Answer(time, transform)) && !Storing(s)
    ensures Inv(AnswerNext(s, time, transform))
  {
    AnswerOwnership(s, time, transform);
  }

  // ----- Steps that keep at least the ownership -----

  lemma MainStepApart(s: State)
    requires Wf(s) && s.main.Recording? && Tokens(s) <= 1 && Apart(s)
    ensures Tokens(MainNext(s)) <= 1 && Apart(MainNext(s))
  {
  }

  lemma HandlerStepApart(s: State)
    requires Wf(s) && Enabled(s, HandlerStep) && Tokens(s) <= 1 && Apart(s)
    ensures Tokens(HandlerNext(s)) <= 1 && Apart(HandlerNext(s))
  {
  }

  lemma AnswerApart(s: State, time: nat, transform: int)
    requires Wf(s) && Enabled(s, Answer(time, transform)) && Tokens(s) <= 1 && Apart(s) && !Marking(s)
    ensures Tokens(AnswerNext(s, time, transform)) <= 1 && Apart(AnswerNext(s, time, transform))
  {
  }

  lemma AnswerOwnership(s: State, time: nat, transform: int)
    requires Wf(s) && Enabled(s, Answer(time, transform)) && Ownership(s)
    ensures Ownership(AnswerNext(s, time, transform))
  {
    var t := AnswerNext(s, time, transform);
    assert Pipeline(t) == Pipeline(s);
    OwnershipMoved(s, t);
  }

  /** A step keeps the ownership as long as no answer comes while a record is out and its busy not stored. */
  lemma StepKeepsOwnership(s: State, l: Label)
    requires WeakInv(s) && Enabled(s, l) && Obeys(s, l, AfterBusy)
    ensures WeakInv(Next(s, l))
  {
    match l
    case MainStep =>
      MainStepOwnership(s);
      MainStepApart(s);
    case HandlerStep =>
      HandlerStepOwnership(s);
      HandlerStepApart(s);
    case Answer(time, transform) =>
      AnswerOwnership(s, time, transform);
      AnswerApart(s, time, transform);
  }
}
