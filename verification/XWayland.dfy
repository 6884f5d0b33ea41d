/** The classes of declarative/xwayland, proved against the pairing of events. */
module XWayland {
  import opened Sequences
  import Pairing

  class ShellSurface {
    const window: Pairing.WindowId
    var surfaceId: nat
    var surface: Option<nat>

    constructor (window: Pairing.WindowId)
      ensures this.window == window && surfaceId == 0 && surface == None
    {
      this.window, surfaceId, surface := window, 0, None;
    }

    ghost function View(): Pairing.Window
      reads this
    {
      Pairing.Window(surfaceId, surface)
    }

    method SetSurfaceId(id: nat)
      modifies `surfaceId
      ensures View() == Pairing.WithId(old(View()), id)
    {
      if surfaceId > 0 {
        return;
      }
      surfaceId := id;
    }

    method SetSurface(s: Option<nat>)
      modifies `surface
      ensures View() == Pairing.WithSurface(old(View()), s)
    {
      if surface.Some? {
        return;
      }
      surface := s;
    }

    method HandleSurfaceDestroyed()
      modifies `surface
      ensures surface == None
      ensures View() == old(View()).(surface := None)
    {
      surface := None;
    }
  }

  class XWaylandManager {
    var windowsMap: map<Pairing.WindowId, ShellSurface>
    var unpairedWindows: seq<ShellSurface>
    var objects: map<nat, nat>  // what wl_client_get_object finds for the Xwayland client

    ghost predicate Valid()
      reads this
    {
      && (forall w :: w in windowsMap ==> windowsMap[w].window == w)
      && (forall k :: 0 <= k < |unpairedWindows| ==>
            unpairedWindows[k].window in windowsMap && windowsMap[unpairedWindows[k].window] == unpairedWindows[k])
    }

    ghost function View(): Pairing.World
      reads this, windowsMap.Values
    {
      Pairing.World(
        map w | w in windowsMap :: windowsMap[w].View(),
        seq(|unpairedWindows|, i requires 0 <= i < |unpairedWindows| reads this => unpairedWindows[i].window),
        objects)
    }

    constructor ()
      ensures Valid() && View() == Pairing.Run([])
    {
      windowsMap, unpairedWindows, objects := map[], [], map[];
    }

    /** X gives out each window id once. */
    method HandleCreateNotify(w: Pairing.WindowId, ours: bool)
      requires Valid() && w !in windowsMap
      modifies `windowsMap
      ensures Valid()
      ensures View() == Pairing.Step(old(View()), Pairing.CreateNotify(w, ours))
    {
      if ours {
        return;
      }
      var shellSurface := new ShellSurface(w);
      windowsMap := windowsMap[w := shellSurface];
    }

    method HandleSurfaceId(w: Pairing.WindowId, id: nat)
      requires Valid()
      modifies `unpairedWindows, windowsMap.Values
      ensures Valid()
      ensures View() == Pairing.Step(old(View()), Pairing.SurfaceId(w, id))
    {
      if w !in windowsMap {
        return;
      }
      var window := windowsMap[w];
      if window.surface.Some? {
        return;
      }
      ghost var t := View();
      window.SetSurfaceId(id);
      if id in objects {
        window.SetSurface(Some(objects[id]));
      } else {
        window.SetSurface(None);
        unpairedWindows := unpairedWindows + [window];
      }
      assert forall v :: v in windowsMap && v != w ==> windowsMap[v].View() == t.windows[v];
      assert View().windows == Pairing.OnSurfaceId(t, w, id).windows;
      assert View().unpaired == Pairing.OnSurfaceId(t, w, id).unpaired;
    }

    /** The first unpaired window with this id. */
    method FindWaiting(id: nat) returns (k: nat)
      requires Valid()
      ensures k == Pairing.FirstWaiting(View(), id, 0) && k <= |unpairedWindows|
    {
      k := 0;
      while k < |unpairedWindows|
        invariant 0 <= k <= |unpairedWindows|
        invariant Pairing.FirstWaiting(View(), id, 0) == Pairing.FirstWaiting(View(), id, k)
      {
        assert View().windows[View().unpaired[k]] == unpairedWindows[k].View();
        if unpairedWindows[k].surfaceId == id {
          return;
        }
        k := k + 1;
      }
    }

    method PairAt(k: nat, s: nat)
      requires Valid() && k < |unpairedWindows|
      modifies `unpairedWindows, windowsMap.Values
      ensures Valid()
      ensures var t := old(View()); var w := t.unpaired[k];
              View() == Pairing.World(t.windows[w := Pairing.WithSurface(Pairing.WithId(t.windows[w], 0), Some(s))],
                                      t.unpaired[..k] + t.unpaired[k + 1..], t.objects)
    {
      ghost var t := View();
      var window := unpairedWindows[k];
      ghost var w := window.window;
      window.SetSurfaceId(0);
      window.SetSurface(Some(s));
      unpairedWindows := unpairedWindows[..k] + unpairedWindows[k + 1..];
      assert forall v :: v in windowsMap && v != w ==> windowsMap[v].View() == t.windows[v];
      assert View().windows == t.windows[w := Pairing.WithSurface(Pairing.WithId(t.windows[w], 0), Some(s))];
      assert View().unpaired == t.unpaired[..k] + t.unpaired[k + 1..];
    }

    method AddObject(s: nat, id: nat)
      requires Valid()
      modifies `objects
      ensures Valid()
      ensures View() == old(View()).(objects := old(objects)[id := s])
      ensures windowsMap == old(windowsMap) && unpairedWindows == old(unpairedWindows)
    {
      objects := objects[id := s];
    }

    /** handleSurfaceCreated; the surface is found by its id from now on. */
    method HandleSurfaceCreated(s: nat, id: nat, owner: Pairing.Owner)
      requires Valid()
      modifies `unpairedWindows, `objects, windowsMap.Values
      ensures Valid()
      ensures View() == Pairing.Step(old(View()), Pairing.SurfaceCreated(s, id, owner))
    {
      if owner.Foreign? {
        return;
      }
      ghost var t := View();
      var k := FindWaiting(id);
      if k < |unpairedWindows| {
        PairAt(k, s);
      }
      ghost var paired := View();
      if owner.Xwayland? {
        AddObject(s, id);
      }
      Pairing.CreatedInTwoSteps(t, s, id, owner, paired, View());
    }

    /** surfaceDestroyed reaches every window that shows the surface. */
    method TellWindows(s: nat)
      requires Valid()
      modifies windowsMap.Values`surface
      ensures forall w :: w in windowsMap ==>
                windowsMap[w].surface
                == if old(windowsMap[w].surface) == Some(s) then None else old(windowsMap[w].surface)
    {
      var left := windowsMap.Keys;
      while left != {}
        invariant left <= windowsMap.Keys
        invariant forall w :: w in windowsMap ==>
                    windowsMap[w].surface
                    == if w !in left && old(windowsMap[w].surface) == Some(s) then None else old(windowsMap[w].surface)
      {
        var w :| w in left;
        if windowsMap[w].surface == Some(s) {
          windowsMap[w].HandleSurfaceDestroyed();
        }
        left := left - {w};
      }
    }

    /** A surface is gone: its windows are told, and its id no longer finds it. */
    method SurfaceDestroyed(s: nat)
      requires Valid()
      modifies `objects, windowsMap.Values
      ensures Valid()
      ensures View() == Pairing.Step(old(View()), Pairing.SurfaceDestroyed(s))
    {
      ghost var t := View();
      TellWindows(s);
      objects := map id | id in objects && objects[id] != s :: objects[id];
      assert View().windows == Pairing.OnSurfaceDestroyed(t, s).windows;
      assert View().unpaired == t.unpaired;
    }
  }
}
