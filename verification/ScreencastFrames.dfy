/** What becomes of each record and of each answer over a whole run, however scheduled. */
module ScreencastFrames {
  import opened Sequences
  import opened Screencast
  import opened ScreencastRuns

  /** What the compositor tells about a frame. */
  datatype Stamp = Stamp(time: nat, transform: int)

  /** What it told in the answers of a run, in order. */
  function Answers(ls: seq<Label>): seq<Stamp> {
    if ls == [] then []
    else if ls[0].Answer? then [Stamp(ls[0].time, ls[0].transform)] + Answers(ls[1..])
    else Answers(ls[1..])
  }

  function Stamps(fs: seq<Frame>): seq<Stamp> {
    seq(|fs|, i requires 0 <= i < |fs| => Stamp(fs[i].time, fs[i].transform))
  }

  lemma StepReceives(s: State, l: Label)
    requires Wf(s) && Enabled(s, l)
    ensures Stamps(Next(s, l).received)
            == if l.Answer? then Stamps(s.received) + [Stamp(l.time, l.transform)] else Stamps(s.received)
  {
  }

  /** The frames received are the answers dispatched: time and transform of each, once and in order. */
  lemma {:induction false} ReceivedAreAnswers(s: State, ls: seq<Label>, t: State, d: Dispatch)
    requires Wf(s) && RunTo(s, ls, t, d)
    ensures Stamps(t.received) == Stamps(s.received) + Answers(ls)
    decreases |ls|
  {
    if ls == [] {
      assert Stamps(s.received) + [] == Stamps(s.received);
    } else {
      var u, rest := Next(s, ls[0]), ls[1..];
      StepReceives(s, ls[0]);
      ReceivedAreAnswers(u, rest, t, d);
      if ls[0].Answer? {
        var first := [Stamp(ls[0].time, ls[0].transform)];
        assert Stamps(s.received) + first + Answers(rest) == Stamps(s.received) + (first + Answers(rest));
      }
    }
  }

  /** The slots of all records so far: those answered, then those out. */
  function Recorded(s: State): seq<nat> { Bufs(s.received) + s.mem.outstanding }

  /** The slot a step asks the compositor to record into, if it does. */
  function Requested(s: State, l: Label): Option<nat> {
    if l.MainStep? && s.main.Recording? && s.main.rec.Chosen? then Some(s.main.rec.i)
    else if l.HandlerStep? && s.handler.Refill? && s.handler.rec.Chosen? then Some(s.handler.rec.i)
    else None
  }

  lemma StepRecords(s: State, l: Label)
    requires Wf(s) && Enabled(s, l)
    ensures Recorded(Next(s, l)) == match Requested(s, l) case None => Recorded(s) case Some(c) => Recorded(s) + [c]
  {
    var t := Next(s, l);
    if l.Answer? {
      assert s.mem.outstanding == [s.mem.outstanding[0]] + t.mem.outstanding;
      assert Bufs(t.received) == Bufs(s.received) + [s.mem.outstanding[0]];
    } else if Requested(s, l).Some? {
      assert t.mem.outstanding == s.mem.outstanding + [Requested(s, l).value];
      assert Recorded(t) == Bufs(s.received) + s.mem.outstanding + [Requested(s, l).value];
    }
  }

  /** The slots recorded in a run, in order. */
  function Requests(s: State, ls: seq<Label>): seq<nat>
    requires Wf(s)
    decreases |ls|
  {
    if ls == [] || !Enabled(s, ls[0]) then []
    else match Requested(s, ls[0])
      case None => Requests(Next(s, ls[0]), ls[1..])
      case Some(c) => [c] + Requests(Next(s, ls[0]), ls[1..])
  }

  /** Each record is answered once, and in order: the frames name the slots that were recorded. */
  lemma {:induction false} RecordsAnsweredInOrder(s: State, ls: seq<Label>, t: State, d: Dispatch)
    requires Wf(s) && RunTo(s, ls, t, d)
    ensures Recorded(t) == Recorded(s) + Requests(s, ls)
    decreases |ls|
  {
    if ls == [] {
      assert Recorded(s) + [] == Recorded(s);
    } else {
      var u, rest := Next(s, ls[0]), ls[1..];
      StepRecords(s, ls[0]);
      RecordsAnsweredInOrder(u, rest, t, d);
      if Requested(s, ls[0]).Some? {
        var first := [Requested(s, ls[0]).value];
        assert Recorded(s) + first + Requests(u, rest) == Recorded(s) + (first + Requests(u, rest));
      }
    }
  }

  /** What was received is emitted, in the handler, queued, or in the callback. */
  ghost predicate InTransit(s: State) {
    s.received == s.emitted + HandlerFrame(s) + s.queue + MainFrame(s)
  }

  lemma StepInTransit(s: State, l: Label)
    requires Wf(s) && Enabled(s, l) && InTransit(s)
    ensures InTransit(Next(s, l))
  {
    if l.HandlerStep? {
      HandlerStepLogs(s);
    }
  }

  lemma {:induction false} RunInTransit(s: State, ls: seq<Label>, t: State, d: Dispatch)
    requires Wf(s) && RunTo(s, ls, t, d) && InTransit(s)
    ensures InTransit(t)
    decreases |ls|
  {
    if ls == [] {
    } else {
      StepInTransit(s, ls[0]);
      RunInTransit(Next(s, ls[0]), ls[1..], t, d);
    }
  }

  /**
   In every run from setup, frameRecorded has been emitted for a prefix of the
   answers: with the time and transform of each, and the slots in the order in
   which they were recorded.
   */
  lemma EmittedAreAnswers(present: seq<bool>, ls: seq<Label>, t: State, d: Dispatch)
    requires RunTo(Init(present), ls, t, d)
    ensures Stamps(t.emitted) <= Answers(ls)
    ensures Bufs(t.emitted) <= Requests(Init(present), ls)
  {
    var s := Init(present);
    RunInTransit(s, ls, t, d);
    ReceivedAreAnswers(s, ls, t, d);
    RecordsAnsweredInOrder(s, ls, t, d);
    assert Stamps(s.received) + Answers(ls) == Answers(ls);
    assert Recorded(s) + Requests(s, ls) == Requests(s, ls);
    assert t.emitted <= t.received;
    assert Stamps(t.received)[..|t.emitted|] == Stamps(t.emitted);
    assert Recorded(t)[..|t.emitted|] == Bufs(t.emitted);
  }
}
