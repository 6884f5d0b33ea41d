/** What holds of whole runs of the recording protocol. */
module ScreencastRuns {
  import opened Sequences
  import opened Screencast

  /** Nothing can happen any more. */
  ghost predicate Stuck(s: State) {
    forall l: Label :: !Enabled(s, l)
  }

  lemma {:induction false} RunAppend(s: State, a: seq<Label>, t: State, b: seq<Label>, u: State, d: Dispatch)
    requires Wf(s) && Wf(t) && RunTo(s, a, t, d) && RunTo(t, b, u, d)
    ensures RunTo(s, a + b, u, d)
    decreases |a|
  {
    if a == [] {
      assert a + b == b;
    } else {
      RunAppend(Next(s, a[0]), a[1..], t, b, u, d);
      assert (a + b)[1..] == a[1..] + b;
    }
  }

  /** A run under any discipline is in particular a run. */
  lemma {:induction false} AnyRun(s: State, a: seq<Label>, t: State, d: Dispatch)
    requires Wf(s) && RunTo(s, a, t, d)
    ensures RunTo(s, a, t, Anytime)
    decreases |a|
  {
    if a != [] {
      AnyRun(Next(s, a[0]), a[1..], t, d);
    }
  }

  lemma Prepend(s: State, l: Label, ls: seq<Label>, t: State, d: Dispatch)
    requires Wf(s) && Enabled(s, l) && Obeys(s, l, d)
    requires RunTo(Next(s, l), ls, t, d)
    ensures RunTo(s, [l] + ls, t, d)
  {
    assert ([l] + ls)[1..] == ls;
  }

  // ----- Safety and progress of serial runs -----

  lemma StepInv(s: State, l: Label)
    requires Inv(s) && Enabled(s, l) && Obeys(s, l, Serial)
    ensures Inv(Next(s, l))
  {
    match l
    case MainStep => MainStepInv(s);
    case HandlerStep => HandlerStepInv(s);
    case Answer(time, transform) => AnswerInv(s, time, transform);
  }

  lemma {:induction false} SerialRunInv(s: State, ls: seq<Label>, t: State)
    requires Inv(s) && RunTo(s, ls, t, Serial)
    ensures Inv(t)
    decreases |ls|
  {
    if ls != [] {
      StepInv(s, ls[0]);
      SerialRunInv(Next(s, ls[0]), ls[1..], t);
    }
  }

  /**
   Buffer ownership in every state a serial run reaches: no buffer is in two
   places, busy tells exactly the buffers that are not free (up to the store
   that follows a record), at most one record is out, and frames are emitted
   once each in the order they were received.
   */
  lemma OwnershipTheorem(present: seq<bool>, ls: seq<Label>, t: State)
    requires exists j :: 0 <= j < |present| && present[j]
    requires RunTo(Init(present), ls, t, Serial)
    ensures Wf(t) && |t.mem.outstanding| <= 1
    ensures NoDup(Pipeline(t))
    ensures forall c :: 0 <= c < |t.mem.busy| ==> (t.mem.busy[c] <==> c in Pipeline(t) && !Unmarked(t, c))
    ensures t.received == t.emitted + HandlerFrame(t) + t.queue + MainFrame(t)
    ensures !(MainInside(t) && HandlerInside(t))
  {
    InitInv(present);
    SerialRunInv(Init(present), ls, t);
  }

  /**
   In every state a serial run reaches exactly one duty to continue is
   pending, and if it is owed to a starving recorder an event will serve it.
   */
  lemma OneDuty(present: seq<bool>, ls: seq<Label>, t: State)
    requires exists j :: 0 <= j < |present| && present[j]
    requires RunTo(Init(present), ls, t, Serial)
    ensures Bit(t.mem.outstanding != []) + Bit(MainInside(t) && (Unsent(t.main.rec) || t.main.rec.Failed?))
            + Bit(HandlerInside(t) && Unsent(t.handler.rec)) + Bit(Unserved(t)) == 1
    ensures Unserved(t) ==> EventComing(t) || t.handler.Took? || t.handler.Freed?
  {
    InitInv(present);
    SerialRunInv(Init(present), ls, t);
  }

  lemma NeverStuck(s: State)
    requires Inv(s)
    ensures exists l: Label :: Enabled(s, l) && Obeys(s, l, Serial)
  {
    if s.main.Recording? {
      assert Enabled(s, MainStep) && Obeys(s, MainStep, Serial);
    } else if Enabled(s, HandlerStep) {
      assert Obeys(s, HandlerStep, Serial);
    } else {
      assert Enabled(s, Answer(0, 0)) && Obeys(s, Answer(0, 0), Serial);
    }
  }

  /** Events that can still be posted before the handler emits one. */
  function Room(s: State): int {
    |s.mem.busy| + 1 - |s.queue| - Bit(!s.handler.Waiting?)
  }

  function MainRank(s: State): nat {
    var n := |s.mem.busy|;
    if s.main.Idle? then n + 8
    else Bit(s.main.frame.None?) * (n + 9) +
         match s.main.rec {
           case Scan(i) => if i <= n then n + 6 - i else 6
           case Chosen(_) => 5
           case Sent(_) => 4
           case Marked => 3
           case Failed => 3
           case Returned => 2
         }
  }

  function HandlerRank(s: State): nat {
    var n := |s.mem.busy|;
    match s.handler
    case Waiting => n + 11
    case Took(_) => n + 10
    case Freed(_) => n + 9
    case Refill(rec, _) =>
      match rec {
        case Scan(i) => if i <= n then n + 7 - i else 7
        case Chosen(_) => 6
        case Sent(_) => 5
        case Marked => 4
        case Failed => 4
        case Returned => 1
      }
  }

  /** An upper bound for the steps until the next frameRecorded. */
  function Rank(s: State): int {
    (|s.mem.busy| + 9) * Room(s) + MainRank(s) + HandlerRank(s)
  }

  lemma QueueFits(s: State)
    requires Wf(s) && Ownership(s)
    ensures |s.queue| <= |s.mem.busy|
  {
    NoDupBelow(Pipeline(s), |s.mem.busy|);
  }

  lemma RoomNonNegative(s: State)
    requires Inv(s)
    ensures Room(s) >= 0 && Rank(s) >= 0
  {
    QueueFits(s);
    assert (|s.mem.busy| + 9) * Room(s) >= 0;
  }

  lemma RankArithmetic(w: nat, r: int)
    ensures w * (r - 1) == w * r - w
  {
  }

  lemma MainStepRank(s: State)
    requires Wf(s) && s.main.Recording? && (s.main.rec.Scan? ==> s.main.rec.i <= |s.mem.busy|)
    ensures MainNext(s).emitted == s.emitted && Rank(MainNext(s)) < Rank(s)
  {
    RankArithmetic(|s.mem.busy| + 9, Room(s));
    assert |MainNext(s).mem.busy| == |s.mem.busy|;
  }

  lemma HandlerStepRank(s: State)
    requires Wf(s) && Enabled(s, HandlerStep)
    requires s.handler.Refill? && s.handler.rec.Scan? ==> s.handler.rec.i <= |s.mem.busy|
    ensures HandlerNext(s).emitted == s.emitted ==> Rank(HandlerNext(s)) < Rank(s)
    ensures HandlerNext(s).emitted == s.emitted || |HandlerNext(s).emitted| == |s.emitted| + 1
  {
    assert |HandlerNext(s).mem.busy| == |s.mem.busy|;
    if !(s.handler.Refill? && s.handler.rec.Returned?) {
      assert Room(HandlerNext(s)) == Room(s);
    }
  }

  lemma AnswerRank(s: State, time: nat, transform: int)
    requires Wf(s) && Enabled(s, Answer(time, transform))
    ensures AnswerNext(s, time, transform).emitted == s.emitted && Rank(AnswerNext(s, time, transform)) < Rank(s)
  {
    assert Room(AnswerNext(s, time, transform)) == Room(s);
  }

  lemma RankDecreases(s: State, l: Label)
    requires Inv(s) && Enabled(s, l) && Obeys(s, l, Serial)
    ensures Next(s, l).emitted == s.emitted ==> Rank(Next(s, l)) < Rank(s)
    ensures Next(s, l).emitted == s.emitted || |Next(s, l).emitted| == |s.emitted| + 1
  {
    match l
    case MainStep => MainStepRank(s);
    case HandlerStep => HandlerStepRank(s);
    case Answer(time, transform) => AnswerRank(s, time, transform);
  }

  /** Liveness: a serial run of more than Rank(s) steps, however scheduled, emits a frame. */
  lemma {:induction false} FramesKeepComing(s: State, ls: seq<Label>, t: State)
    requires Inv(s) && RunTo(s, ls, t, Serial)
    requires |ls| > Rank(s)
    ensures |t.emitted| > |s.emitted|
    decreases |ls|
  {
    RoomNonNegative(s);
    var u := Next(s, ls[0]);
    StepInv(s, ls[0]);
    RankDecreases(s, ls[0]);
    if u.emitted == s.emitted {
      FramesKeepComing(u, ls[1..], t);
    } else {
      EmittedGrows(u, ls[1..], t);
    }
  }

  lemma {:induction false} EmittedGrows(s: State, ls: seq<Label>, t: State)
    requires Wf(s) && RunTo(s, ls, t, Serial)
    ensures |t.emitted| >= |s.emitted|
    decreases |ls|
  {
    if ls != [] {
      EmittedGrows(Next(s, ls[0]), ls[1..], t);
    }
  }

  /** From every state of a serial run a serial run leads to the next frame. */
  lemma NextFrame(s: State) returns (ls: seq<Label>, t: State)
    requires Inv(s)
    ensures RunTo(s, ls, t, Serial) && |t.emitted| > |s.emitted|
    decreases Rank(s)
  {
    RoomNonNegative(s);
    NeverStuck(s);
    var l: Label :| Enabled(s, l) && Obeys(s, l, Serial);
    var u := Next(s, l);
    StepInv(s, l);
    RankDecreases(s, l);
    if u.emitted == s.emitted {
      var rest;
      rest, t := NextFrame(u);
      ls := [l] + rest;
      Prepend(s, l, rest, t, Serial);
    } else {
      ls, t := [l], u;
      assert [l][1..] == [];
      assert RunTo(u, [], u, Serial);
    }
  }

  /** With no buffer at all, no schedule ever records. */
  lemma {:induction false} NoBufferNoFrame(s: State, ls: seq<Label>, t: State, d: Dispatch)
    requires Wf(s) && RunTo(s, ls, t, d)
    requires forall j :: 0 <= j < |s.mem.present| ==> !s.mem.present[j]
    requires s.mem.outstanding == [] && s.queue == [] && s.handler.Waiting? && s.emitted == []
    requires s.main.Recording? ==> s.main.frame.None? && (s.main.rec.Scan? || s.main.rec.Failed? || s.main.rec.Returned?)
    ensures t.emitted == []
    decreases |ls|
  {
    if ls != [] {
      NoBufferNoFrame(Next(s, ls[0]), ls[1..], t, d);
    }
  }

  /** A serial run from setup in which frameRecorded is emitted. */
  ghost predicate Records(present: seq<bool>, ls: seq<Label>, t: State) {
    RunTo(Init(present), ls, t, Serial) && t.emitted != []
  }

  /** Setup leads to frames if and only if it could allocate at least one buffer. */
  lemma FramesIffSomeBuffer(present: seq<bool>)
    ensures (exists ls, t :: Records(present, ls, t))
            <==> (exists j :: 0 <= j < |present| && present[j])
  {
    if exists j :: 0 <= j < |present| && present[j] {
      InitInv(present);
      var ls, t := NextFrame(Init(present));
      assert |t.emitted| > 0;
      assert Records(present, ls, t);
    } else {
      forall ls, t | Records(present, ls, t) ensures false {
        NoBufferNoFrame(Init(present), ls, t, Serial);
      }
    }
  }

  // ----- What goes wrong when an answer is dispatched while the handler is storing -----

  function FreeSlots(m: Shared): set<nat>
    requires |m.busy| == |m.present|
  {
    set j: nat | j < |m.busy| && m.present[j] && !m.busy[j]
  }

  /** The main thread circulates on its own: each answer is met by one more record. */
  predicate Circulating(s: State)
    requires Wf(s)
  {
    if s.main.Idle? then |s.mem.outstanding| == 1
    else
      && (s.main.frame.None? ==> !s.main.rec.Failed? && (s.main.rec.Scan? ==> FreeSlots(s.mem) != {}))
      && match s.main.rec {
           case Scan(i) => i <= |s.mem.busy| && s.mem.outstanding == [] && NoneFreeBelow(s.mem, i)
           case Chosen(i) => i in FreeSlots(s.mem) && s.mem.outstanding == []
           case Sent(i) => i in FreeSlots(s.mem) && |s.mem.outstanding| == 1
           case Marked => |s.mem.outstanding| == 1
           case Failed => s.mem.outstanding == [] && FreeSlots(s.mem) == {}
           case Returned => |s.mem.outstanding| == 1
         }
  }

  function CirculationRank(s: State): int {
    var n := |s.mem.busy|;
    if s.main.Idle? then n + 10
    else
      match s.main.rec {
        case Marked => n + 12
        case Returned => n + 11
        case Scan(i) => n + 9 - i
        case Chosen(_) => 2
        case Sent(_) => 1
        case Failed => 0
      }
  }

  /** With the handler held, the main thread goes on until a scan finds no free slot. */
  lemma {:induction false} RunsOut(s: State, d: Dispatch) returns (ls: seq<Label>, t: State)
    requires Wf(s) && Circulating(s) && (d.Anytime? || !Storing(s))
    ensures RunTo(s, ls, t, d) && Wf(t)
    ensures t.main.Recording? && t.main.rec.Failed? && t.main.frame.Some?
    ensures t.mem.outstanding == [] && t.handler == s.handler
    ensures FreeSlots(t.mem) == {}
    decreases FreeSlots(s.mem), CirculationRank(s)
  {
    if s.main.Recording? && s.main.rec.Failed? {
      return [], s;
    }
    var l := if s.main.Idle? then Answer(0, 0) else MainStep;
    var u := Next(s, l);
    assert FreeSlots(u.mem) <= FreeSlots(s.mem);
    if s.main.Recording? && s.main.rec.Sent? {
      assert s.main.rec.i !in FreeSlots(u.mem);
    }
    var rest;
    rest, t := RunsOut(u, d);
    ls := [l] + rest;
    Prepend(s, l, rest, t, d);
  }

  /** Starving, with the buffer the handler has just taken or freed about to be found. */
  predicate BoundToRefill(s: State)
    requires Wf(s)
  {
    && s.main.Idle? && s.mem.outstanding == [] && s.mem.starving
    && !s.handler.Waiting?
    && s.handler.f.buf < |s.mem.busy| && s.mem.present[s.handler.f.buf]
    && (!s.handler.Took? ==> !s.mem.busy[s.handler.f.buf])
    && (s.handler.Refill? ==>
          (s.handler.rec.Scan? && s.handler.rec.i <= s.handler.f.buf) || s.handler.rec == Chosen(s.handler.f.buf))
    && (forall j :: 0 <= j < |s.mem.busy| && s.mem.present[j] && !s.mem.busy[j] ==> j == s.handler.f.buf)
  }

  lemma {:induction false} Refills(s: State) returns (ls: seq<Label>, t: State)
    requires Wf(s) && BoundToRefill(s)
    ensures RunTo(s, ls, t, Serial) && Wf(t) && Marking(t) && Stalling(t) && t.main.Idle? && t.mem.outstanding != []
    decreases HandlerRank(s)
  {
    var u := Next(s, HandlerStep);
    var rest;
    if s.handler.Refill? && s.handler.rec.Chosen? {
      rest, t := [], u;
    } else {
      rest, t := Refills(u);
    }
    ls := [HandlerStep] + rest;
    Prepend(s, HandlerStep, rest, t, Serial);
  }

  /** `starving` lost: nothing is out and nobody will ask for more. */
  predicate Abandoned(s: State)
    requires Wf(s)
  {
    && s.main.Idle? && s.mem.outstanding == [] && !s.mem.starving
    && (s.handler.Refill? ==> s.handler.rec.Returned?)
  }

  lemma {:induction false} Drains(s: State, d: Dispatch) returns (ls: seq<Label>, t: State)
    requires Wf(s) && Abandoned(s)
    ensures RunTo(s, ls, t, d) && Wf(t) && Stuck(t)
    decreases 4 * |s.queue| + (if s.handler.Took? then 3 else if s.handler.Freed? then 2 else Bit(s.handler.Refill?))
  {
    if s.handler.Waiting? && s.queue == [] {
      return [], s;
    }
    var u := Next(s, HandlerStep);
    var rest;
    rest, t := Drains(u, d);
    ls := [HandlerStep] + rest;
    Prepend(s, HandlerStep, rest, t, d);
  }

  /**
   An answer dispatched while the handler is storing can stop the recording
   for good: the handler's late `starving = false` erases the main thread's
   `starving = true`.
   */
  lemma HastyAnswerStalls(s: State) returns (ls: seq<Label>, t: State)
    requires Inv(s) && Storing(s) && s.main.Idle? && s.mem.outstanding != []
    ensures RunTo(s, ls, t, Anytime) && Wf(t) && Stuck(t)
    ensures |ls| > 0 && ls[0].Answer?
  {
    var a := Next(s, Answer(0, 0));
    var b := if a.handler.rec.Sent? then Next(a, HandlerStep) else a;
    var run, c := RunsOut(b, Anytime);
    var d := Next(c, MainStep);      // starving = true
    var e := Next(d, HandlerStep);   // starving = false
    var f := Next(e, MainStep);      // the event is posted
    var rest;
    rest, t := Drains(f, Anytime);
    Prepend(e, MainStep, rest, t, Anytime);
    Prepend(d, HandlerStep, [MainStep] + rest, t, Anytime);
    Prepend(c, MainStep, [HandlerStep] + ([MainStep] + rest), t, Anytime);
    ls := run + ([MainStep] + ([HandlerStep] + ([MainStep] + rest)));
    RunAppend(b, run, c, [MainStep] + ([HandlerStep] + ([MainStep] + rest)), t, Anytime);
    if a.handler.rec.Sent? {
      Prepend(a, HandlerStep, ls, t, Anytime);
      ls := [HandlerStep] + ls;
    }
    Prepend(s, Answer(0, 0), ls, t, Anytime);
    ls := [Answer(0, 0)] + ls;
  }

  /** ... and if it comes before busy is stored, the same slot is recorded a second time. */
  lemma {:induction false} RecordsTwice(s: State, c: nat) returns (ls: seq<Label>, t: State)
    requires Wf(s) && s.handler.Refill? && s.handler.rec == Sent(c) && c < |s.mem.busy|
    requires s.mem.present[c] && !s.mem.busy[c] && NoneFreeBelow(s.mem, c)
    requires s.main.Recording? && s.main.frame.Some? && s.main.frame.value.buf == c
    requires (s.main.rec.Scan? && s.main.rec.i <= c) || s.main.rec == Chosen(c)
    requires s.mem.outstanding == []
    ensures RunTo(s, ls, t, AfterBusy) && Wf(t)
    ensures t.mem.outstanding == [c] && Bufs(MainFrame(t)) == [c]
    decreases MainRank(s)
  {
    var u := Next(s, MainStep);
    var rest;
    if s.main.rec.Chosen? {
      rest, t := [], u;
    } else {
      rest, t := RecordsTwice(u, c);
    }
    ls := [MainStep] + rest;
    Prepend(s, MainStep, rest, t, AfterBusy);
  }

  lemma HastyAnswerRecordsTwice(s: State) returns (ls: seq<Label>, t: State)
    requires Inv(s) && Marking(s) && s.main.Idle?
    ensures Enabled(s, Answer(0, 0)) && RunTo(Next(s, Answer(0, 0)), ls, t, AfterBusy) && Wf(t) && !NoDup(Pipeline(t))
  {
    var c := s.handler.rec.i;
    ls, t := RecordsTwice(Next(s, Answer(0, 0)), c);
    var p := Pipeline(t);
    assert p[|p| - 1] == c && p[|p| - 2] == c;
  }

  /** A run in which every answer waits for the store of busy never records a buffer twice. */
  lemma {:induction false} RunKeepsOwnership(s: State, ls: seq<Label>, t: State)
    requires WeakInv(s) && RunTo(s, ls, t, AfterBusy)
    ensures WeakInv(t)
    decreases |ls|
  {
    if ls == [] {
    } else {
      StepKeepsOwnership(s, ls[0]);
      RunKeepsOwnership(Next(s, ls[0]), ls[1..], t);
    }
  }

  /** An answer at s, followed by others that wait for the store of busy, lets some buffer be recorded twice. */
  ghost predicate LeadsToDouble(s: State, l: Label)
    requires Wf(s) && Enabled(s, l)
  {
    exists ls, t :: RunTo(Next(s, l), ls, t, AfterBusy) && Wf(t) && !NoDup(Pipeline(t))
  }

  /** It does if and only if the handler has sent a record and not yet stored its busy. */
  lemma RecordsTwiceIff(s: State)
    requires Inv(s) && Enabled(s, Answer(0, 0))
    ensures LeadsToDouble(s, Answer(0, 0)) <==> Marking(s)
  {
    var u := Next(s, Answer(0, 0));
    if Marking(s) {
      var ls, t := HastyAnswerRecordsTwice(s);
      assert RunTo(u, ls, t, AfterBusy);
    } else {
      StepKeepsOwnership(s, Answer(0, 0));
      forall ls, t | RunTo(u, ls, t, AfterBusy) ensures NoDup(Pipeline(t)) {
        RunKeepsOwnership(u, ls, t);
      }
    }
  }

  /** A scan that failed, starving stored, the event posted and taken: the handler will record again. */
  lemma StarvedRefills(a: State) returns (ls: seq<Label>, t: State)
    requires Inv(a) && a.main.Recording? && a.main.rec.Failed? && a.main.frame.Some?
    requires a.mem.outstanding == [] && a.handler.Waiting? && FreeSlots(a.mem) == {}
    ensures RunTo(a, ls, t, Serial) && Inv(t)
    ensures Marking(t) && Stalling(t) && t.main.Idle? && t.mem.outstanding != []
  {
    var b := Next(a, MainStep);
    var c := Next(b, MainStep);
    var d := Next(c, HandlerStep);
    StepInv(a, MainStep);
    StepInv(b, MainStep);
    StepInv(c, HandlerStep);
    TakenIsBound(a, d);
    var rest;
    rest, t := Refills(d);
    SerialRunInv(d, rest, t);
    Prepend(c, HandlerStep, rest, t, Serial);
    Prepend(b, MainStep, [HandlerStep] + rest, t, Serial);
    Prepend(a, MainStep, [MainStep] + ([HandlerStep] + rest), t, Serial);
    ls := [MainStep] + ([MainStep] + ([HandlerStep] + rest));
  }

  lemma TakenIsBound(a: State, d: State)
    requires Wf(a) && FreeSlots(a.mem) == {} && Inv(d)
    requires d.main.Idle? && d.handler.Took? && d.mem == a.mem.(starving := true) && d.mem.outstanding == []
    ensures BoundToRefill(d)
  {
    TakenIsPresent(d);
    assert FreeSlots(d.mem) == FreeSlots(a.mem);
    assert forall j: nat :: j in FreeSlots(d.mem) <==> j < |d.mem.busy| && d.mem.present[j] && !d.mem.busy[j];
  }

  /** The dangerous moment is within reach, whatever the buffer table. */
  lemma MarkingReachable(present: seq<bool>) returns (ls: seq<Label>, t: State)
    requires exists j :: 0 <= j < |present| && present[j]
    ensures RunTo(Init(present), ls, t, Serial) && Inv(t)
    ensures Marking(t) && Stalling(t) && t.main.Idle? && t.mem.outstanding != []
  {
    var s := Init(present);
    InitInv(present);
    var j: nat :| j < |present| && present[j];
    assert j in FreeSlots(s.mem);
    var run, a := RunsOut(s, Serial);
    SerialRunInv(s, run, a);
    var rest;
    rest, t := StarvedRefills(a);
    RunAppend(s, run, a, rest, t, Serial);
    ls := run + rest;
  }

  lemma StalledRun(present: seq<bool>) returns (ls: seq<Label>, t: State)
    requires exists j :: 0 <= j < |present| && present[j]
    ensures RunTo(Init(present), ls, t, Anytime) && Stuck(t)
  {
    var a, s := MarkingReachable(present);
    var b;
    b, t := HastyAnswerStalls(s);
    AnyRun(Init(present), a, s, Serial);
    RunAppend(Init(present), a, s, b, t, Anytime);
    ls := a + b;
  }

  lemma SerialNeverStuck(present: seq<bool>, ls: seq<Label>, t: State)
    requires exists j :: 0 <= j < |present| && present[j]
    requires RunTo(Init(present), ls, t, Serial)
    ensures !Stuck(t)
  {
    InitInv(present);
    SerialRunInv(Init(present), ls, t);
    NeverStuck(t);
  }

  /**
   Serial dispatch is what the protocol needs: with it no schedule ever gets
   stuck, and without it some schedule does, for every table with a buffer.
   */
  lemma SerialDispatchIsNeeded(present: seq<bool>)
    requires exists j :: 0 <= j < |present| && present[j]
    ensures forall ls, t :: RunTo(Init(present), ls, t, Serial) ==> !Stuck(t)
    ensures exists ls, t :: RunTo(Init(present), ls, t, Anytime) && Stuck(t)
  {
    forall ls, t | RunTo(Init(present), ls, t, Serial) ensures !Stuck(t) {
      SerialNeverStuck(present, ls, t);
    }
    var ls, t := StalledRun(present);
  }

  lemma DoubleRun(present: seq<bool>) returns (ls: seq<Label>, t: State)
    requires exists j :: 0 <= j < |present| && present[j]
    ensures RunTo(Init(present), ls, t, Anytime) && !NoDup(Pipeline(t))
  {
    var a, s := MarkingReachable(present);
    var b;
    b, t := HastyAnswerRecordsTwice(s);
    AnyRun(Init(present), a, s, Serial);
    AnyRun(Next(s, Answer(0, 0)), b, t, AfterBusy);
    Prepend(s, Answer(0, 0), b, t, Anytime);
    RunAppend(Init(present), a, s, [Answer(0, 0)] + b, t, Anytime);
    ls := a + ([Answer(0, 0)] + b);
  }

  lemma NeverDouble(present: seq<bool>, ls: seq<Label>, t: State)
    requires exists j :: 0 <= j < |present| && present[j]
    requires RunTo(Init(present), ls, t, AfterBusy)
    ensures NoDup(Pipeline(t))
  {
    InitInv(present);
    RunKeepsOwnership(Init(present), ls, t);
  }

  /**
   What keeps a buffer from being recorded twice: if every answer waits for
   the store of busy, no schedule does it, and otherwise some schedule does,
   for every table with a buffer.
   */
  lemma StoredBusyIsNeeded(present: seq<bool>)
    requires exists j :: 0 <= j < |present| && present[j]
    ensures forall ls, t :: RunTo(Init(present), ls, t, AfterBusy) ==> NoDup(Pipeline(t))
    ensures exists ls, t :: RunTo(Init(present), ls, t, Anytime) && !NoDup(Pipeline(t))
  {
    forall ls, t | RunTo(Init(present), ls, t, AfterBusy) ensures NoDup(Pipeline(t)) {
      NeverDouble(present, ls, t);
    }
    var ls, t := DoubleRun(present);
  }
}
