/** What is recorded of one finger, from touching to lifting, whatever other fingers do. */
module TouchTracks {
  import opened Sequences
  import opened TouchSequence

  function Ats(es: seq<Event>, id: int): seq<Position> {
    if es == [] then []
    else
      var front, last := es[..|es| - 1], es[|es| - 1];
      if last.Motion? && last.id == id then Ats(front, id) + [last.at] else Ats(front, id)
  }

  function Times(es: seq<Event>, id: int): seq<nat> {
    if es == [] then []
    else
      var front, last := es[..|es| - 1], es[|es| - 1];
      if last.Motion? && last.id == id then Times(front, id) + [last.time] else Times(front, id)
  }

  /** Run, but from any state. */
  function RunFrom(s: State, es: seq<Event>): State {
    if es == [] then s else Step(RunFrom(s, es[..|es| - 1]), es[|es| - 1])
  }

  lemma {:induction false} RunInTwo(es: seq<Event>, fs: seq<Event>)
    ensures Run(es + fs) == RunFrom(Run(es), fs)
  {
    if fs == [] {
      assert es + fs == es;
    } else {
      assert (es + fs)[..|es + fs| - 1] == es + fs[..|fs| - 1];
      RunInTwo(es, fs[..|fs| - 1]);
    }
  }

  /** Point k is the one pressed with this id. */
  predicate PressedAt(s: State, id: int, k: nat, p: Point) {
    s.active && k < |s.points| && s.points[k] == p && p.down && p.id == id && Pressed(s.points, id) == k
  }

  lemma PressedFromSame(ps: seq<Point>, qs: seq<Point>, id: int)
    requires Pressed(ps, id) < |ps| <= |qs|
    requires forall j :: 0 <= j <= Pressed(ps, id) ==> (qs[j].id == id && qs[j].down <==> ps[j].id == id && ps[j].down)
    ensures Pressed(qs, id) == Pressed(ps, id)
  {
    var k := Pressed(ps, id);
    assert qs[k].id == id && qs[k].down;
  }

  /** A point just added is the one pressed, if none was before. */
  lemma DownPresses(s: State, e: Event)
    requires e.Down? && (s.active ==> Pressed(s.points, e.id) == |s.points|)
    ensures PressedAt(Step(s, e), e.id, if s.active then |s.points| else 0,
                      Point(e.id, e.serial, 0, e.surface, [e.at], [e.time], true))
  {
    var t := Step(s, e);
    var k := if s.active then |s.points| else 0;
    assert forall j :: 0 <= j < k ==> t.points[j] == s.points[j];
    assert t.points[k].id == e.id && t.points[k].down;
  }

  /** While its finger is down, a point changes by its own motions only. */
  lemma StepTracks(s: State, e: Event, id: int, k: nat, p: Point)
    requires PressedAt(s, id, k, p) && !e.Cancel? && !(e.Up? && e.id == id)
    ensures PressedAt(Step(s, e), id, k, if e.Motion? && e.id == id
                                         then p.(positions := p.positions + [e.at], timestamps := p.timestamps + [e.time])
                                         else p)
  {
    var t := Step(s, e);
    match e
    case Down(_, _, _, _, _) => PressedFromSame(s.points, t.points, id);
    case Up(serial, time, other) =>
      var l := Pressed(s.points, other);
      if l < |s.points| {
        var lifted := s.points[l := Lifted(s.points[l], serial, time)];
        assert lifted[k].down;
        PressedFromSame(s.points, lifted, id);
      }
    case Motion(_, _, _) => PressedFromSame(s.points, t.points, id);
    case FrameEnd =>
  }

  lemma {:induction false} RunTracks(s: State, id: int, k: nat, p: Point, fs: seq<Event>)
    requires PressedAt(s, id, k, p)
    requires forall e :: e in fs ==> !e.Cancel? && !(e.Up? && e.id == id)
    ensures PressedAt(RunFrom(s, fs), id, k,
                      p.(positions := p.positions + Ats(fs, id), timestamps := p.timestamps + Times(fs, id)))
  {
    if fs == [] {
      assert p.positions + [] == p.positions && p.timestamps + [] == p.timestamps;
    } else {
      var front, last := fs[..|fs| - 1], fs[|fs| - 1];
      assert last in fs && forall e :: e in front ==> e in fs;
      RunTracks(s, id, k, p, front);
      var q := p.(positions := p.positions + Ats(front, id), timestamps := p.timestamps + Times(front, id));
      StepTracks(RunFrom(s, front), last, id, k, q);
      if last.Motion? && last.id == id {
        assert p.positions + Ats(front, id) + [last.at] == p.positions + Ats(fs, id);
        assert p.timestamps + Times(front, id) + [last.time] == p.timestamps + Times(fs, id);
      }
    }
  }

  /**
   From the touch of a finger on, until it is lifted or the sequence is
   cancelled, its point has the data of the touch and the positions and times
   of its own motions, in order; lifting adds the serial and the time of that.
   */
  lemma FingerTracked(es: seq<Event>, touch: Event, fs: seq<Event>, serial: nat, time: nat)
    requires touch.Down? && (Run(es).active ==> Pressed(Run(es).points, touch.id) == |Run(es).points|)
    requires forall e :: e in fs ==> !e.Cancel? && !(e.Up? && e.id == touch.id)
    ensures var ps, k := Run(es + [touch] + fs).points, if Run(es).active then |Run(es).points| else 0;
            && k < |ps|
            && ps[k] == Point(touch.id, touch.serial, 0, touch.surface, [touch.at] + Ats(fs, touch.id),
                              [touch.time] + Times(fs, touch.id), true)
            && var qs := Run(es + [touch] + fs + [Up(serial, time, touch.id)]).points;
               && |qs| == |ps|
               && qs[k] == Point(touch.id, touch.serial, serial, touch.surface, ps[k].positions, ps[k].timestamps + [time], false)
               && forall j :: 0 <= j < |ps| && j != k ==> qs[j] == ps[j]
  {
    var before := es + [touch];
    assert before[..|es|] == es;
    var k := if Run(es).active then |Run(es).points| else 0;
    DownPresses(Run(es), touch);
    RunInTwo(before, fs);
    RunTracks(Run(before), touch.id, k, Point(touch.id, touch.serial, 0, touch.surface, [touch.at], [touch.time], true), fs);
    var all := before + fs;
    assert (all + [Up(serial, time, touch.id)])[..|all|] == all;
    UpStep(Run(all), serial, time, touch.id);
  }

  /** What a point keeps: its id, its touch, and the positions and times so far. */
  predicate Grown(p: Point, q: Point) {
    && q.id == p.id && q.downSerial == p.downSerial && q.surface == p.surface
    && p.positions <= q.positions && p.timestamps <= q.timestamps
  }

  lemma StepKeepsPoints(s: State, e: Event)
    requires !(e.Down? && !s.active)
    ensures var ps := Step(s, e).points;
            |s.points| <= |ps| && forall k :: 0 <= k < |s.points| ==> Grown(s.points[k], ps[k])
  {
    if e.Up? {
      var k := Pressed(s.points, e.id);
      if k < |s.points| {
        assert Step(s, e).points == s.points[k := Lifted(s.points[k], e.serial, e.time)];
      }
    }
  }

  /** Lifted, cancelled or finished, the points of a sequence are kept until a touch starts the next one. */
  lemma {:induction false} PointsKept(es: seq<Event>, fs: seq<Event>)
    requires forall i :: 0 <= i < |fs| && fs[i].Down? ==> RunFrom(Run(es), fs[..i]).active
    ensures var ps, qs := Run(es).points, RunFrom(Run(es), fs).points;
            |ps| <= |qs| && forall k :: 0 <= k < |ps| ==> Grown(ps[k], qs[k])
  {
    if fs != [] {
      var front, last := fs[..|fs| - 1], fs[|fs| - 1];
      assert forall i :: 0 <= i < |front| ==> front[..i] == fs[..i];
      PointsKept(es, front);
      StepKeepsPoints(RunFrom(Run(es), front), last);
    }
  }

  /** Every end of a frame, and nothing else, is signalled as one. */
  function FrameEnds(es: seq<Event>): nat {
    if es == [] then 0 else FrameEnds(es[..|es| - 1]) + (if es[|es| - 1].FrameEnd? then 1 else 0)
  }

  lemma StepFrames(s: State, e: Event)
    ensures multiset(Step(s, e).signals)[FrameFinished] == multiset(s.signals)[FrameFinished] + (if e.FrameEnd? then 1 else 0)
  {
    if e.Up? {
      UpFrames(s, e);
    }
  }

  lemma UpFrames(s: State, e: Event)
    requires e.Up?
    ensures multiset(Step(s, e).signals)[FrameFinished] == multiset(s.signals)[FrameFinished]
  {
    if Pressed(s.points, e.id) < |s.points| {
      UpSignals(s, e);
    }
  }

  lemma {:induction false} FramesSignalled(es: seq<Event>)
    ensures multiset(Run(es).signals)[FrameFinished] == FrameEnds(es)
  {
    if es != [] {
      FramesSignalled(es[..|es| - 1]);
      StepFrames(Run(es[..|es| - 1]), es[|es| - 1]);
    }
  }
}
