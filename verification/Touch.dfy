/** The classes of src/client/touch.cpp, proved against the touch sequences. */
module Touch {
  import opened Sequences
  import T = TouchSequence

  class TouchPoint {
    const id: int
    const downSerial: nat
    const surface: Option<nat>
    var upSerial: nat
    var positions: seq<T.Position>
    var timestamps: seq<nat>
    var down: bool

    constructor (id: int, serial: nat, time: nat, surface: Option<nat>, at: T.Position)
      ensures View() == T.Point(id, serial, 0, surface, [at], [time], true)
    {
      this.id, downSerial, this.surface, upSerial := id, serial, surface, 0;
      positions, timestamps, down := [at], [time], true;
    }

    ghost function View(): T.Point
      reads this
    {
      T.Point(id, downSerial, upSerial, surface, positions, timestamps, down)
    }
  }

  class Touch {
    var active: bool
    var points: seq<TouchPoint>
    var signals: seq<T.Signal>  // emitted so far

    ghost function Points(): (ps: seq<T.Point>)
      reads this, points
      ensures |ps| == |points| && forall k :: 0 <= k < |points| ==> ps[k] == points[k].View()
    {
      seq(|points|, i requires 0 <= i < |points| reads this, points => points[i].View())
    }

    ghost function View(): T.State
      reads this, points
    {
      T.State(active, Points(), signals)
    }

    ghost predicate Valid()
      reads this
    {
      NoDup(points)
    }

    constructor ()
      ensures Valid() && View() == T.Run([])
    {
      active, points, signals := false, [], [];
    }

    method GetPressedPoint(id: int) returns (k: nat)
      ensures k == T.Pressed(Points(), id)
    {
      ghost var ps := Points();
      k := 0;
      while k < |points| && !(points[k].id == id && points[k].down)
        invariant 0 <= k <= |points|
        invariant T.Pressed(ps, id) == T.PressedFrom(ps, id, k)
      {
        k := k + 1;
      }
    }

    method TouchDown(serial: nat, time: nat, surface: Option<nat>, id: int, at: T.Position)
      requires Valid()
      modifies this
      ensures Valid()
      ensures View() == T.Step(old(View()), T.Down(serial, time, surface, id, at))
    {
      ghost var ps := Points();
      var tp := new TouchPoint(id, serial, time, surface, at);
      if active {
        points := points + [tp];
        signals := signals + [T.PointAdded];
        assert Points() == ps + [tp.View()];
      } else {
        points := [tp];
        active := true;
        signals := signals + [T.SequenceStarted];
        assert Points() == [tp.View()];
      }
    }

    method AnyDown() returns (found: bool)
      ensures found <==> T.AnyDown(Points())
    {
      for k := 0 to |points|
        invariant forall j :: 0 <= j < k ==> !points[j].down
      {
        if points[k].down {
          assert Points()[k].down;
          return true;
        }
      }
      return false;
    }

    /** The sequence is finished when no point is down any more. */
    method PointLifted()
      modifies `active, `signals
      ensures Points() == old(Points())
      ensures T.AnyDown(Points()) ==> active == old(active) && signals == old(signals) + [T.PointRemoved]
      ensures !T.AnyDown(Points()) ==> !active && signals == old(signals) + [T.PointRemoved, T.SequenceFinished]
    {
      signals := signals + [T.PointRemoved];
      var stillDown := AnyDown();
      if stillDown {
        return;
      }
      active := false;
      signals := signals + [T.SequenceFinished];
      assert signals == old(signals) + [T.PointRemoved, T.SequenceFinished];
    }

    method TouchUp(serial: nat, time: nat, id: int)
      requires Valid()
      modifies this, points
      ensures Valid()
      ensures View() == T.Step(old(View()), T.Up(serial, time, id))
    {
      var k := GetPressedPoint(id);
      if k == |points| {
        return;
      }
      ghost var s := View();
      ghost var lifted := s.points[k := T.Lifted(s.points[k], serial, time)];
      var tp := points[k];
      tp.upSerial := serial;
      tp.timestamps := tp.timestamps + [time];
      tp.down := false;
      assert Points() == lifted;
      PointLifted();
      T.UpStep(s, serial, time, id);
    }

    method TouchMotion(time: nat, id: int, at: T.Position)
      requires Valid()
      modifies this, points
      ensures Valid()
      ensures View() == T.Step(old(View()), T.Motion(time, id, at))
    {
      var k := GetPressedPoint(id);
      if k == |points| {
        return;
      }
      ghost var ps := Points();
      var tp := points[k];
      tp.positions := tp.positions + [at];
      tp.timestamps := tp.timestamps + [time];
      signals := signals + [T.PointMoved];
      assert Points() == ps[k := T.Moved(ps[k], time, at)];
    }

    method TouchFrame()
      requires Valid()
      modifies `signals
      ensures Valid()
      ensures View() == T.Step(old(View()), T.FrameEnd)
    {
      signals := signals + [T.FrameFinished];
    }

    method TouchCancel()
      requires Valid()
      modifies `active, `signals
      ensures Valid()
      ensures View() == T.Step(old(View()), T.Cancel)
    {
      active := false;
      signals := signals + [T.SequenceCanceled];
    }
  }
}
