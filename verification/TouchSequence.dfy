/** Touch points and the signals of their sequences (src/client/touch.cpp). */
module TouchSequence {
  import opened Sequences

  datatype Position = Position(x: int, y: int)  // wl_fixed_t

  datatype Point = Point(id: int, downSerial: nat, upSerial: nat, surface: Option<nat>,
                         positions: seq<Position>, timestamps: seq<nat>, down: bool)

  datatype Signal = SequenceStarted | PointAdded | PointMoved | PointRemoved | SequenceFinished | SequenceCanceled | FrameFinished

  datatype State = State(active: bool, points: seq<Point>, signals: seq<Signal>)

  datatype Event =
    | Down(serial: nat, time: nat, surface: Option<nat>, id: int, at: Position)
    | Up(serial: nat, time: nat, id: int)
    | Motion(time: nat, id: int, at: Position)
    | Cancel
    | FrameEnd

  /** getPressedPoint: the first point that is down with this id; |ps| if there is none. */
  function Pressed(ps: seq<Point>, id: int): (k: nat)
    ensures k <= |ps|
    ensures k < |ps| ==> ps[k].id == id && ps[k].down
    ensures forall j :: 0 <= j < k ==> !(ps[j].id == id && ps[j].down)
  {
    PressedFrom(ps, id, 0)
  }

  function PressedFrom(ps: seq<Point>, id: int, i: nat): (k: nat)
    requires i <= |ps|
    ensures i <= k <= |ps|
    ensures k < |ps| ==> ps[k].id == id && ps[k].down
    ensures forall j :: i <= j < k ==> !(ps[j].id == id && ps[j].down)
    decreases |ps| - i
  {
    if i == |ps| || (ps[i].id == id && ps[i].down) then i else PressedFrom(ps, id, i + 1)
  }

  function Moved(p: Point, time: nat, at: Position): Point {
    p.(positions := p.positions + [at], timestamps := p.timestamps + [time])
  }

  function Lifted(p: Point, serial: nat, time: nat): Point {
    p.(upSerial := serial, timestamps := p.timestamps + [time], down := false)
  }

  function DownCount(ps: seq<Point>): nat {
    if ps == [] then 0 else DownCount(ps[..|ps| - 1]) + (if ps[|ps| - 1].down then 1 else 0)
  }

  predicate AnyDown(ps: seq<Point>) {
    exists i :: 0 <= i < |ps| && ps[i].down
  }

  function Step(s: State, e: Event): State {
    match e
    case Down(serial, time, surface, id, at) =>
      var p := Point(id, serial, 0, surface, [at], [time], true);
      if s.active then State(true, s.points + [p], s.signals + [PointAdded])
      else State(true, [p], s.signals + [SequenceStarted])
    case Up(serial, time, id) =>
      var k := Pressed(s.points, id);
      if k == |s.points| then s
      else
        var ps := s.points[k := Lifted(s.points[k], serial, time)];
        if AnyDown(ps) then State(s.active, ps, s.signals + [PointRemoved])
        else State(false, ps, s.signals + [PointRemoved, SequenceFinished])
    case Motion(time, id, at) =>
      var k := Pressed(s.points, id);
      if k == |s.points| then s
      else s.(points := s.points[k := Moved(s.points[k], time, at)], signals := s.signals + [PointMoved])
    case Cancel => s.(active := false, signals := s.signals + [SequenceCanceled])
    case FrameEnd => s.(signals := s.signals + [FrameFinished])
  }

  /** Lifting the last point that is down ends the sequence. */
  lemma UpStep(s: State, serial: nat, time: nat, id: int)
    requires Pressed(s.points, id) < |s.points|
    ensures var k := Pressed(s.points, id);
            var lifted := s.points[k := Lifted(s.points[k], serial, time)];
            Step(s, Up(serial, time, id))
            == if AnyDown(lifted) then State(s.active, lifted, s.signals + [PointRemoved])
               else State(false, lifted, s.signals + [PointRemoved, SequenceFinished])
  {
  }

  function Run(es: seq<Event>): State {
    if es == [] then State(false, [], []) else Step(Run(es[..|es| - 1]), es[|es| - 1])
  }

  // ----- Well-bracketed signals -----

  /** Where a reader of the signals is: outside any sequence, inside with n points down, or lost. */
  datatype Phase = Outside | Inside(n: nat) | Broken

  function Read(p: Phase, g: Signal): Phase {
    match g
    case FrameFinished => p
    case SequenceStarted => if p.Outside? then Inside(1) else Broken
    case PointAdded => if p.Inside? && p.n > 0 then Inside(p.n + 1) else Broken
    case PointMoved => if p.Inside? && p.n > 0 then p else Broken
    case PointRemoved => if p.Inside? && p.n > 0 then Inside(p.n - 1) else Broken
    case SequenceFinished => if p == Inside(0) then Outside else Broken
    case SequenceCanceled => if p.Inside? && p.n > 0 then Outside else Broken
  }

  function PhaseAfter(gs: seq<Signal>): Phase { PhaseAt(gs, |gs|) }

  /** Where the reader is after the first n signals. */
  function PhaseAt(gs: seq<Signal>, n: nat): Phase
    requires n <= |gs|
  {
    if n == 0 then Outside else Read(PhaseAt(gs, n - 1), gs[n - 1])
  }

  /**
   The compositor's part: nothing more for points of a cancelled sequence, and
   a cancel only while a sequence is active.
   */
  predicate Proper(s: State, e: Event) {
    match e
    case Up(_, _, id) => s.active || Pressed(s.points, id) == |s.points|
    case Motion(_, id, _) => s.active || Pressed(s.points, id) == |s.points|
    case Cancel => s.active
    case _ => true
  }

  /** Every event was proper when it came. */
  predicate ProperRun(es: seq<Event>) {
    es == [] || (ProperRun(es[..|es| - 1]) && Proper(Run(es[..|es| - 1]), es[|es| - 1]))
  }

  /** `active` says whether a sequence is open, with as many points as are down. */
  ghost predicate Bracketed(s: State) {
    && PhaseAfter(s.signals) == (if s.active then Inside(DownCount(s.points)) else Outside)
    && (s.active ==> DownCount(s.points) > 0)
  }

  lemma {:induction false} PhaseOfPrefix(gs: seq<Signal>, hs: seq<Signal>, n: nat)
    requires n <= |gs| <= |hs|
    requires forall i :: 0 <= i < |gs| ==> hs[i] == gs[i]
    ensures PhaseAt(hs, n) == PhaseAt(gs, n)
  {
    if n == 0 {
    } else {
      PhaseOfPrefix(gs, hs, n - 1);
    }
  }

  lemma PhaseExtend(gs: seq<Signal>, g: Signal)
    ensures PhaseAfter(gs + [g]) == Read(PhaseAfter(gs), g)
  {
    PhaseOfPrefix(gs, gs + [g], |gs|);
  }

  lemma {:induction false} DownCountUpdate(ps: seq<Point>, k: nat, p: Point)
    requires k < |ps|
    ensures DownCount(ps[k := p]) == DownCount(ps) - (if ps[k].down then 1 else 0) + (if p.down then 1 else 0)
  {
    var front := ps[..|ps| - 1];
    if k < |ps| - 1 {
      DownCountUpdate(front, k, p);
      assert ps[k := p][..|ps| - 1] == front[k := p];
    } else {
      assert ps[k := p][..|ps| - 1] == front;
    }
  }

  lemma {:induction false} DownCountZero(ps: seq<Point>)
    ensures DownCount(ps) > 0 <==> AnyDown(ps)
  {
    if ps != [] {
      var front := ps[..|ps| - 1];
      DownCountZero(front);
      if DownCount(front) > 0 {
        var i :| 0 <= i < |front| && front[i].down;
        assert ps[i].down;
      }
      if i :| 0 <= i < |ps| && ps[i].down {
        assert i < |front| ==> front[i].down;
      }
    }
  }

  lemma DownBracketed(s: State, e: Event)
    requires Bracketed(s) && e.Down?
    ensures Bracketed(Step(s, e))
  {
    var p := Point(e.id, e.serial, 0, e.surface, [e.at], [e.time], true);
    assert (s.points + [p])[..|s.points|] == s.points;
    assert [p][..0] == [];
    PhaseExtend(s.signals, if s.active then PointAdded else SequenceStarted);
  }

  lemma UpBracketed(s: State, e: Event)
    requires Bracketed(s) && e.Up? && s.active
    ensures Bracketed(Step(s, e))
  {
    var k := Pressed(s.points, e.id);
    if k < |s.points| {
      var ps := s.points[k := Lifted(s.points[k], e.serial, e.time)];
      DownCountUpdate(s.points, k, Lifted(s.points[k], e.serial, e.time));
      DownCountZero(ps);
      PhaseExtend(s.signals, PointRemoved);
      ReadTwo(s.signals, PointRemoved, SequenceFinished);
    }
  }

  lemma MotionBracketed(s: State, e: Event)
    requires Bracketed(s) && e.Motion? && s.active
    ensures Bracketed(Step(s, e))
  {
    var k := Pressed(s.points, e.id);
    if k < |s.points| {
      DownCountUpdate(s.points, k, Moved(s.points[k], e.time, e.at));
      PhaseExtend(s.signals, PointMoved);
    }
  }

  lemma ProperStepBracketed(s: State, e: Event)
    requires Bracketed(s) && Proper(s, e)
    ensures Bracketed(Step(s, e))
  {
    match e
    case Down(_, _, _, _, _) => DownBracketed(s, e);
    case Up(_, _, _) => if s.active { UpBracketed(s, e); }
    case Motion(_, _, _) => if s.active { MotionBracketed(s, e); }
    case Cancel => PhaseExtend(s.signals, SequenceCanceled);
    case FrameEnd => PhaseExtend(s.signals, FrameFinished);
  }

  lemma ReadTwo(gs: seq<Signal>, g: Signal, h: Signal)
    ensures PhaseAfter(gs + [g, h]) == Read(Read(PhaseAfter(gs), g), h)
  {
    PhaseExtend(gs, g);
    PhaseExtend(gs + [g], h);
    assert gs + [g, h] == gs + [g] + [h];
  }

  lemma UpSignals(s: State, e: Event)
    requires e.Up? && Pressed(s.points, e.id) < |s.points|
    ensures Step(s, e).signals == s.signals + [PointRemoved]
            || Step(s, e).signals == s.signals + [PointRemoved, SequenceFinished]
  {
  }

  lemma ImproperUpBreaks(s: State, e: Event)
    requires PhaseAfter(s.signals).Outside? && e.Up? && Pressed(s.points, e.id) < |s.points|
    ensures PhaseAfter(Step(s, e).signals).Broken?
  {
    UpSignals(s, e);
    if Step(s, e).signals == s.signals + [PointRemoved] {
      PhaseExtend(s.signals, PointRemoved);
    } else {
      ReadTwo(s.signals, PointRemoved, SequenceFinished);
    }
  }

  lemma ImproperMotionBreaks(s: State, e: Event)
    requires PhaseAfter(s.signals).Outside? && e.Motion? && Pressed(s.points, e.id) < |s.points|
    ensures PhaseAfter(Step(s, e).signals).Broken?
  {
    assert Step(s, e).signals == s.signals + [PointMoved];
    PhaseExtend(s.signals, PointMoved);
  }

  lemma ImproperCancelBreaks(s: State)
    requires PhaseAfter(s.signals).Outside?
    ensures PhaseAfter(Step(s, Cancel).signals).Broken?
  {
    PhaseExtend(s.signals, SequenceCanceled);
  }

  lemma ImproperStepBreaks(s: State, e: Event)
    requires Bracketed(s) && !Proper(s, e)
    ensures PhaseAfter(Step(s, e).signals).Broken?
  {
    if e.Up? {
      ImproperUpBreaks(s, e);
    } else if e.Motion? {
      ImproperMotionBreaks(s, e);
    } else {
      ImproperCancelBreaks(s);
    }
  }

  /** What a step adds to the signals. */
  lemma StepSignals(s: State, e: Event)
    ensures Step(s, e).signals == s.signals
            || (exists g :: Step(s, e).signals == s.signals + [g])
            || Step(s, e).signals == s.signals + [PointRemoved, SequenceFinished]
  {
  }

  lemma BrokenStays(s: State, e: Event)
    requires PhaseAfter(s.signals).Broken?
    ensures PhaseAfter(Step(s, e).signals).Broken?
  {
    StepSignals(s, e);
    ReadTwo(s.signals, PointRemoved, SequenceFinished);
    if g :| Step(s, e).signals == s.signals + [g] {
      PhaseExtend(s.signals, g);
    }
  }

  /**
   For every run: the signals are well bracketed, counting the points of each
   sequence, exactly when every event was proper at its time.
   */
  lemma {:induction false} BracketedIffProper(es: seq<Event>)
    ensures !PhaseAfter(Run(es).signals).Broken? <==> ProperRun(es)
    ensures ProperRun(es) ==> Bracketed(Run(es))
  {
    if es != [] {
      var s, last := Run(es[..|es| - 1]), es[|es| - 1];
      BracketedIffProper(es[..|es| - 1]);
      if !ProperRun(es[..|es| - 1]) {
        BrokenStays(s, last);
      } else if Proper(s, last) {
        ProperStepBracketed(s, last);
      } else {
        ImproperStepBreaks(s, last);
      }
    }
  }

  /** The points now kept belong to a cancelled sequence. */
  function Cancelled(es: seq<Event>): bool {
    if es == [] then false
    else
      var last := es[|es| - 1];
      last.Cancel? || (!last.Down? && Cancelled(es[..|es| - 1]))
  }

  lemma ActiveStep(s: State, e: Event, cancelled: bool)
    requires s.active <==> !cancelled && AnyDown(s.points)
    ensures Step(s, e).active <==> !(e.Cancel? || (!e.Down? && cancelled)) && AnyDown(Step(s, e).points)
  {
    var ps, t := s.points, Step(s, e);
    match e
    case Down(_, _, _, _, _) => assert t.points[|t.points| - 1].down;
    case Motion(time, id, at) =>
      var k := Pressed(ps, id);
      if k < |ps| {
        assert t.points == ps[k := Moved(ps[k], time, at)] && t.points[k].down;
      }
    case _ =>
  }

  /** In every run `active` holds exactly while a point that was not cancelled is down. */
  lemma {:induction false} ActiveIffUncancelledDown(es: seq<Event>)
    ensures Run(es).active <==> !Cancelled(es) && AnyDown(Run(es).points)
  {
    if es == [] {
    } else {
      var front, last := es[..|es| - 1], es[|es| - 1];
      ActiveIffUncancelledDown(front);
      ActiveStep(Run(front), last, Cancelled(front));
    }
  }

  ghost predicate Stamped(ps: seq<Point>) {
    forall i :: 0 <= i < |ps| ==> |ps[i].timestamps| == |ps[i].positions| + (if ps[i].down then 0 else 1)
  }

  lemma StepStamps(s: State, e: Event)
    requires Stamped(s.points)
    ensures Stamped(Step(s, e).points)
  {
    var ps := s.points;
    match e
    case Up(serial, time, id) =>
      var k := Pressed(ps, id);
      if k < |ps| {
        assert Step(s, e).points == ps[k := Lifted(ps[k], serial, time)];
      }
    case Motion(time, id, at) =>
      var k := Pressed(ps, id);
      if k < |ps| {
        assert Step(s, e).points == ps[k := Moved(ps[k], time, at)];
      }
    case _ =>
  }

  /** Each point has a timestamp for each position, and one more once it is up. */
  lemma {:induction false} TimestampsMatch(es: seq<Event>)
    ensures forall i :: 0 <= i < |Run(es).points| ==>
              var p := Run(es).points[i];
              |p.timestamps| == |p.positions| + (if p.down then 0 else 1)
  {
    if es == [] {
    } else {
      TimestampsMatch(es[..|es| - 1]);
      StepStamps(Run(es[..|es| - 1]), es[|es| - 1]);
      assert Stamped(Run(es).points);
    }
  }
}
