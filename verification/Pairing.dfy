/**
 How XWayland windows find their Wayland surfaces: X sends WL_SURFACE_ID
 messages and Wayland creates surfaces, in any order
 (declarative/xwayland/xwaylandmanager.cpp, xwayland.cpp, xwaylandshellsurface.cpp).
 */
module Pairing {
  import opened Sequences

  type WindowId = nat
  type ObjectId = nat
  type Surface = nat

  datatype Window = Window(surfaceId: ObjectId, surface: Option<Surface>)

  /** `objects`: the surfaces of the Xwayland client, by protocol object id. */
  datatype World = World(windows: map<WindowId, Window>, unpaired: seq<WindowId>, objects: map<ObjectId, Surface>)

  /** Whose surface it is; Unknown when the surface has no client. */
  datatype Owner = Xwayland | Foreign | Unknown

  datatype Event =
    | CreateNotify(w: WindowId, ours: bool)
    | SurfaceId(w: WindowId, id: ObjectId)
    | SurfaceCreated(s: Surface, id: ObjectId, owner: Owner)
    | SurfaceDestroyed(s: Surface)

  /** setSurfaceId: an id once set stays. */
  function WithId(v: Window, id: ObjectId): Window {
    if v.surfaceId > 0 then v else v.(surfaceId := id)
  }

  /** setSurface: a surface once set stays. */
  function WithSurface(v: Window, s: Option<Surface>): Window {
    if v.surface.Some? then v else v.(surface := s)
  }

  function OnSurfaceId(t: World, w: WindowId, id: ObjectId): World {
    if w !in t.windows || t.windows[w].surface.Some? then t
    else
      var v := WithId(t.windows[w], id);
      if id in t.objects then t.(windows := t.windows[w := WithSurface(v, Some(t.objects[id]))])
      else t.(windows := t.windows[w := v], unpaired := t.unpaired + [w])
  }

  /** The first unpaired window waiting for this id. */
  function FirstWaiting(t: World, id: ObjectId, from: nat): (k: nat)
    ensures from <= |t.unpaired| ==> from <= k <= |t.unpaired|
    ensures from <= k < |t.unpaired| ==> Waits(t, t.unpaired[k], id)
    ensures forall j :: from <= j < k && j < |t.unpaired| ==> !Waits(t, t.unpaired[j], id)
    decreases |t.unpaired| - from
  {
    if from >= |t.unpaired| || Waits(t, t.unpaired[from], id) then from else FirstWaiting(t, id, from + 1)
  }

  predicate Waits(t: World, w: WindowId, id: ObjectId) {
    w in t.windows && t.windows[w].surfaceId == id
  }

  function OnSurfaceCreated(t: World, s: Surface, id: ObjectId, owner: Owner): World {
    if owner.Foreign? then t
    else
      var u := if owner.Xwayland? then t.(objects := t.objects[id := s]) else t;
      var k := FirstWaiting(t, id, 0);
      if k < |t.unpaired| then
        var w := t.unpaired[k];
        u.(windows := t.windows[w := WithSurface(WithId(t.windows[w], 0), Some(s))],
           unpaired := t.unpaired[..k] + t.unpaired[k + 1..])
      else u
  }

  /** Pairing the first waiting window and recording the object make up the whole step. */
  lemma CreatedInTwoSteps(t: World, s: Surface, id: ObjectId, owner: Owner, paired: World, after: World)
    requires !owner.Foreign?
    requires var k := FirstWaiting(t, id, 0);
             paired == if k < |t.unpaired| then
                         World(t.windows[t.unpaired[k] := WithSurface(WithId(t.windows[t.unpaired[k]], 0), Some(s))],
                               t.unpaired[..k] + t.unpaired[k + 1..], t.objects)
                       else t
    requires after == if owner.Xwayland? then paired.(objects := t.objects[id := s]) else paired
    ensures after == OnSurfaceCreated(t, s, id, owner)
  {
  }

  function OnSurfaceDestroyed(t: World, s: Surface): World {
    World(map w | w in t.windows :: if t.windows[w].surface == Some(s) then t.windows[w].(surface := None) else t.windows[w],
          t.unpaired,
          map id | id in t.objects && t.objects[id] != s :: t.objects[id])
  }

  function Step(t: World, e: Event): World {
    match e
    case CreateNotify(w, ours) => if ours then t else t.(windows := t.windows[w := Window(0, None)])
    case SurfaceId(w, id) => OnSurfaceId(t, w, id)
    case SurfaceCreated(s, id, owner) => OnSurfaceCreated(t, s, id, owner)
    case SurfaceDestroyed(s) => OnSurfaceDestroyed(t, s)
  }

  function Run(es: seq<Event>): World {
    if es == [] then World(map[], [], map[]) else Step(Run(es[..|es| - 1]), es[|es| - 1])
  }

  predicate OfXwayland(e: Event) { e.SurfaceCreated? && e.owner.Xwayland? }

  // ----- Runs in which pairing is order-independent -----

  /**
   Windows exist before they send, and send once; ids are not shared; no
   surface of Xwayland is destroyed before it exists and a window has named its
   id; no window names the id of a surface without client.
   */
  ghost predicate Orderly(es: seq<Event>) {
    && (forall i, j :: 0 <= i < |es| && 0 <= j < |es| && es[i].SurfaceDestroyed? && OfXwayland(es[j]) && es[j].s == es[i].s ==>
          j < i && NamesIdBefore(es, i, es[j].id))
    && (forall i :: 0 <= i < |es| && es[i].SurfaceCreated? ==> es[i].id > 0)
    && (forall i, j :: 0 <= i < |es| && 0 <= j < |es| && Clientless(es[i]) && es[j].SurfaceId? ==> es[i].id != es[j].id)
    && (forall i :: 0 <= i < |es| && es[i].SurfaceId? ==>
          es[i].id > 0 && exists j :: 0 <= j < i && es[j] == CreateNotify(es[i].w, false))
    && (forall i, j :: 0 <= i < j < |es| && es[i].CreateNotify? && es[j].CreateNotify? ==> es[i].w != es[j].w)
    && (forall i, j :: 0 <= i < j < |es| && es[i].SurfaceId? && es[j].SurfaceId? ==>
          es[i].w != es[j].w && es[i].id != es[j].id)
    && (forall i, j :: 0 <= i < j < |es| && OfXwayland(es[i]) && OfXwayland(es[j]) ==> es[i].id != es[j].id)
  }

  predicate Clientless(e: Event) { e.SurfaceCreated? && e.owner.Unknown? }

  /** One of the first i events is a message with this id. */
  ghost predicate NamesIdBefore(es: seq<Event>, i: nat, id: ObjectId)
    requires i <= |es|
  {
    exists k :: 0 <= k < i && es[k].SurfaceId? && es[k].id == id
  }

  ghost predicate Named(es: seq<Event>, w: WindowId, id: ObjectId) { SurfaceId(w, id) in es }
  ghost predicate Made(es: seq<Event>, s: Surface, id: ObjectId) { SurfaceCreated(s, id, Xwayland) in es }
  ghost predicate Gone(es: seq<Event>, s: Surface) { SurfaceDestroyed(s) in es }

  /** The ids of all surfaces of Xwayland so far, the destroyed ones included. */
  ghost function MadeIds(es: seq<Event>): set<ObjectId> {
    set e | e in es && OfXwayland(e) :: e.id
  }

  /** The state agrees with the events seen so far. */
  ghost predicate Agrees(es: seq<Event>, t: World) {
    && (forall w: WindowId :: w in t.windows <==> CreateNotify(w, false) in es)
    && (forall id: ObjectId, s: Surface :: (id in t.objects && t.objects[id] == s) <==> Made(es, s, id) && !Gone(es, s))
    && (forall w: WindowId, id: ObjectId :: id > 0 ==> ((w in t.windows && t.windows[w].surfaceId == id) <==> Named(es, w, id)))
  }

  /**
   With `made` ids so far, a window has its surface as long as the surface
   exists, and until it is created the window is on the unpaired list.
   */
  ghost predicate Paired(t: World, made: set<ObjectId>) {
    && (forall w :: w in t.windows ==> t.windows[w].surface == Expected(t, t.windows[w].surfaceId))
    && (forall w: WindowId :: w in t.unpaired <==>
          w in t.windows && t.windows[w].surfaceId > 0 && t.windows[w].surfaceId !in made)
    && NoDup(t.unpaired)
    && (forall v, w :: v in t.windows && w in t.windows && t.windows[v].surfaceId == t.windows[w].surfaceId > 0 ==> v == w)
    && 0 !in made && forall id :: id in t.objects ==> id in made
  }

  function Expected(t: World, id: ObjectId): Option<Surface> {
    if id in t.objects then Some(t.objects[id]) else None
  }

  lemma OrderlyPrefix(es: seq<Event>)
    requires Orderly(es) && es != []
    ensures Orderly(es[..|es| - 1])
  {
    var front := es[..|es| - 1];
    assert forall i :: 0 <= i < |front| ==> front[i] == es[i];
    forall i | 0 <= i < |front| && front[i].SurfaceId?
      ensures exists j :: 0 <= j < i && front[j] == CreateNotify(front[i].w, false)
    {
      var j :| 0 <= j < i && es[j] == CreateNotify(es[i].w, false);
      assert front[j] == es[j];
    }
    forall i, j | 0 <= i < |front| && 0 <= j < |front| && front[i].SurfaceDestroyed? && OfXwayland(front[j])
                  && front[j].s == front[i].s
      ensures j < i && NamesIdBefore(front, i, front[j].id)
    {
      assert j < i && NamesIdBefore(es, i, es[j].id);
      var k :| 0 <= k < i && es[k].SurfaceId? && es[k].id == es[j].id;
      assert front[k] == es[k];
    }
  }

  /** What one more event adds. */
  lemma OneMore(es: seq<Event>, front: seq<Event>, last: Event)
    requires es == front + [last]
    ensures forall e :: e in es <==> e in front || e == last
    ensures forall s: Surface, id: ObjectId :: Made(es, s, id) <==> Made(front, s, id) || last == SurfaceCreated(s, id, Xwayland)
    ensures forall s: Surface :: Gone(es, s) <==> Gone(front, s) || last == SurfaceDestroyed(s)
    ensures forall w: WindowId, id: ObjectId :: Named(es, w, id) <==> Named(front, w, id) || last == SurfaceId(w, id)
  {
  }

  /** The last event of an orderly run is new. */
  lemma LastIsNew(es: seq<Event>, front: seq<Event>, last: Event)
    requires Orderly(es) && es == front + [last]
    ensures last.CreateNotify? ==> CreateNotify(last.w, false) !in front
    ensures last.SurfaceId? ==>
              && CreateNotify(last.w, false) in front
              && (forall id: ObjectId :: !Named(front, last.w, id))
              && (forall w: WindowId :: !Named(front, w, last.id))
    ensures OfXwayland(last) ==> forall s: Surface :: !Made(front, s, last.id)
  {
    assert forall i :: 0 <= i < |front| ==> es[i] == front[i];
    assert es[|front|] == last;
    if last.SurfaceId? {
      var j :| 0 <= j < |front| && es[j] == CreateNotify(last.w, false);
      assert front[j] == es[j];
    }
  }

  /** A surface is not destroyed before it is created, nor before its id is named. */
  lemma GoneLater(es: seq<Event>, front: seq<Event>, last: Event, s: Surface, id: ObjectId)
    requires Orderly(es) && es == front + [last] && Made(es, s, id) && Gone(front, s)
    ensures last != SurfaceCreated(s, id, Xwayland)
    ensures last.SurfaceId? ==> last.id != id
  {
    var i :| 0 <= i < |front| && front[i] == SurfaceDestroyed(s);
    var j :| 0 <= j < |es| && es[j] == SurfaceCreated(s, id, Xwayland);
    assert es[i] == front[i] && es[|front|] == last;
    assert j < i && NamesIdBefore(es, i, id);
    var k :| 0 <= k < i && es[k].SurfaceId? && es[k].id == id;
  }

  lemma MadeIdsHas(es: seq<Event>, id: ObjectId)
    ensures id in MadeIds(es) <==> exists s: Surface :: Made(es, s, id)
  {
    if id in MadeIds(es) {
      var e :| e in es && OfXwayland(e) && e.id == id;
      assert Made(es, e.s, id);
    }
    if s: Surface :| Made(es, s, id) {
      assert OfXwayland(SurfaceCreated(s, id, Xwayland));
    }
  }

  lemma MadeIdsExtend(es: seq<Event>, front: seq<Event>, last: Event)
    requires es == front + [last]
    ensures MadeIds(es) == if OfXwayland(last) then MadeIds(front) + {last.id} else MadeIds(front)
  {
    assert forall e :: e in es <==> e in front || e == last;
  }

  /** A window with the id of a surface still to come waits for it, and is the only one. */
  lemma WaiterFound(t: World, made: set<ObjectId>, id: ObjectId, v: WindowId)
    requires Paired(t, made) && id > 0 && id !in made
    requires v in t.windows && t.windows[v].surfaceId == id
    ensures FirstWaiting(t, id, 0) < |t.unpaired| && t.unpaired[FirstWaiting(t, id, 0)] == v
  {
    var k := FirstWaiting(t, id, 0);
    assert v in t.unpaired;
    var j :| 0 <= j < |t.unpaired| && t.unpaired[j] == v;
    assert Waits(t, v, id);
    assert k < |t.unpaired| && Waits(t, t.unpaired[k], id);
  }

  /** The new surface goes to the window with its id and to no other. */
  lemma CreatedShows(t: World, made: set<ObjectId>, s: Surface, id: ObjectId, v: WindowId)
    requires Paired(t, made) && id > 0 && id !in made && v in t.windows
    ensures var u := OnSurfaceCreated(t, s, id, Xwayland);
            v in u.windows && u.windows[v] == Window(t.windows[v].surfaceId, Expected(u, t.windows[v].surfaceId))
  {
    var k := FirstWaiting(t, id, 0);
    assert t.windows[v].surface == Expected(t, t.windows[v].surfaceId);
    if t.windows[v].surfaceId == id {
      WaiterFound(t, made, id, v);
    } else if k < |t.unpaired| {
      assert Waits(t, t.unpaired[k], id);
    }
  }

  /** It is the only window to leave the unpaired list. */
  lemma CreatedWaits(t: World, made: set<ObjectId>, s: Surface, id: ObjectId, v: WindowId)
    requires Paired(t, made) && id > 0 && id !in made
    ensures var u := OnSurfaceCreated(t, s, id, Xwayland);
            v in u.unpaired <==> v in t.unpaired && t.windows[v].surfaceId != id
  {
    var k := FirstWaiting(t, id, 0);
    if v in t.unpaired && t.windows[v].surfaceId == id {
      WaiterFound(t, made, id, v);
    }
    if k < |t.unpaired| {
      RemoveAt(t.unpaired, k, v);
      assert Waits(t, t.unpaired[k], id);
    }
  }

  lemma CreatedPairs(t: World, made: set<ObjectId>, s: Surface, id: ObjectId)
    requires Paired(t, made) && id > 0 && id !in made
    ensures Paired(OnSurfaceCreated(t, s, id, Xwayland), made + {id})
  {
    var u := OnSurfaceCreated(t, s, id, Xwayland);
    var k := FirstWaiting(t, id, 0);
    CreatedKeeps(t, s, id);
    forall v | v in u.windows
      ensures v in t.windows && u.windows[v] == Window(t.windows[v].surfaceId, Expected(u, t.windows[v].surfaceId))
    {
      CreatedShows(t, made, s, id, v);
    }
    forall v: WindowId
      ensures v in u.unpaired <==> v in u.windows && u.windows[v].surfaceId > 0 && u.windows[v].surfaceId !in made + {id}
    {
      CreatedWaits(t, made, s, id, v);
    }
    if k < |t.unpaired| {
      RemoveAt(t.unpaired, k, t.unpaired[k]);
    }
  }

  lemma RemoveAt(q: seq<nat>, k: nat, v: nat)
    requires NoDup(q) && k < |q|
    ensures NoDup(q[..k] + q[k + 1..])
    ensures v in q[..k] + q[k + 1..] <==> v in q && v != q[k]
  {
    var r := q[..k] + q[k + 1..];
    assert forall i :: 0 <= i < |r| ==> r[i] == q[if i < k then i else i + 1];
    if v in q && v != q[k] {
      var i :| 0 <= i < |q| && q[i] == v;
      assert r[if i < k then i else i - 1] == v;
    }
  }

  lemma WindowCreatedAgrees(es: seq<Event>, front: seq<Event>, w: WindowId, ours: bool, t: World)
    requires Orderly(es) && es == front + [CreateNotify(w, ours)] && Agrees(front, t) && Paired(t, MadeIds(front))
    ensures Agrees(es, Step(t, CreateNotify(w, ours))) && Paired(Step(t, CreateNotify(w, ours)), MadeIds(es))
  {
    LastIsNew(es, front, CreateNotify(w, ours));
    MadeIdsExtend(es, front, CreateNotify(w, ours));
    AddedWindowAgrees(es, front, w, ours, t);
    WindowPairs(t, MadeIds(front), w);
  }

  lemma AddedWindowAgrees(es: seq<Event>, front: seq<Event>, w: WindowId, ours: bool, t: World)
    requires es == front + [CreateNotify(w, ours)] && Agrees(front, t) && CreateNotify(w, false) !in front
    ensures Agrees(es, Step(t, CreateNotify(w, ours)))
  {
    OneMore(es, front, CreateNotify(w, ours));
  }

  lemma WindowPairs(t: World, made: set<ObjectId>, w: WindowId)
    requires Paired(t, made)
    ensures w !in t.windows ==> Paired(t.(windows := t.windows[w := Window(0, None)]), made)
  {
  }

  lemma IdPairs(t: World, made: set<ObjectId>, w: WindowId, id: ObjectId)
    requires Paired(t, made) && id > 0 && (id in made ==> id in t.objects)
    requires w in t.windows && t.windows[w].surfaceId == 0
    requires forall v :: v in t.windows ==> t.windows[v].surfaceId != id
    ensures Paired(OnSurfaceId(t, w, id), made)
  {
    var u := OnSurfaceId(t, w, id);
    assert t.windows[w].surface == Expected(t, 0) == None && w !in t.unpaired;
    assert u.objects == t.objects && u.windows == t.windows[w := Window(id, Expected(t, id))];
    if id in t.objects {
      assert u.unpaired == t.unpaired;
    } else {
      assert u.unpaired == t.unpaired + [w];
      NoDupAppend(t.unpaired, w);
    }
    forall v: WindowId
      ensures v in u.unpaired <==> v in u.windows && u.windows[v].surfaceId > 0 && u.windows[v].surfaceId !in made
    {
      assert v in u.unpaired <==> v in t.unpaired || (v == w && id !in t.objects);
    }
  }

  lemma DestroyedPairs(t: World, made: set<ObjectId>, s: Surface)
    requires Paired(t, made)
    ensures Paired(OnSurfaceDestroyed(t, s), made)
  {
    var u := OnSurfaceDestroyed(t, s);
    forall w | w in u.windows
      ensures w in t.windows && u.windows[w] == Window(t.windows[w].surfaceId, Expected(u, t.windows[w].surfaceId))
    {
      assert t.windows[w].surface == Expected(t, t.windows[w].surfaceId);
    }
  }

  lemma DestroyedAgrees(es: seq<Event>, front: seq<Event>, s: Surface, t: World)
    requires es == front + [SurfaceDestroyed(s)] && Agrees(front, t) && Paired(t, MadeIds(front))
    ensures Agrees(es, OnSurfaceDestroyed(t, s)) && Paired(OnSurfaceDestroyed(t, s), MadeIds(es))
  {
    MadeIdsExtend(es, front, SurfaceDestroyed(s));
    DestroyedPairs(t, MadeIds(front), s);
    LessObjectsAgree(es, front, s, t);
  }

  lemma LessObjectsAgree(es: seq<Event>, front: seq<Event>, s: Surface, t: World)
    requires es == front + [SurfaceDestroyed(s)] && Agrees(front, t)
    ensures Agrees(es, OnSurfaceDestroyed(t, s))
  {
    OneMore(es, front, SurfaceDestroyed(s));
    var u := OnSurfaceDestroyed(t, s);
    forall id: ObjectId, r: Surface
      ensures (id in u.objects && u.objects[id] == r) <==> Made(es, r, id) && !Gone(es, r)
    {
      assert (id in t.objects && t.objects[id] == r) <==> Made(front, r, id) && !Gone(front, r);
    }
  }

  lemma AddedIdAgrees(es: seq<Event>, front: seq<Event>, w: WindowId, id: ObjectId, t: World)
    requires es == front + [SurfaceId(w, id)] && Agrees(front, t) && id > 0
    requires w in t.windows && t.windows[w] == Window(0, None)
    ensures Agrees(es, OnSurfaceId(t, w, id))
  {
    OneMore(es, front, SurfaceId(w, id));
  }

  lemma SurfaceIdAgrees(es: seq<Event>, front: seq<Event>, w: WindowId, id: ObjectId, t: World)
    requires Orderly(es) && es == front + [SurfaceId(w, id)] && Agrees(front, t) && Paired(t, MadeIds(front))
    ensures Agrees(es, OnSurfaceId(t, w, id)) && Paired(OnSurfaceId(t, w, id), MadeIds(es))
  {
    LastIsNew(es, front, SurfaceId(w, id));
    MadeIdsExtend(es, front, SurfaceId(w, id));
    assert es[|front|] == SurfaceId(w, id);
    assert t.windows[w].surfaceId == 0 by {
      assert !Named(front, w, t.windows[w].surfaceId);
    }
    forall v | v in t.windows ensures t.windows[v].surfaceId != id {
      assert !Named(front, v, id);
    }
    MadeIdsHas(front, id);
    if s: Surface :| Made(front, s, id) {
      if Gone(front, s) {
        GoneLater(es, front, SurfaceId(w, id), s, id);
      }
      assert id in t.objects && t.objects[id] == s;
    }
    IdPairs(t, MadeIds(front), w, id);
    AddedIdAgrees(es, front, w, id, t);
  }

  /** Pairing changes no id and no window but the one that waits. */
  lemma CreatedKeeps(t: World, s: Surface, id: ObjectId)
    requires id > 0
    ensures var u := OnSurfaceCreated(t, s, id, Xwayland);
            && u.objects == t.objects[id := s]
            && (forall w: WindowId :: w in u.windows <==> w in t.windows)
            && (forall w :: w in t.windows ==> u.windows[w].surfaceId == t.windows[w].surfaceId)
  {
  }

  lemma AddedObjectAgrees(es: seq<Event>, front: seq<Event>, s: Surface, id: ObjectId, t: World, u: World)
    requires es == front + [SurfaceCreated(s, id, Xwayland)] && Agrees(front, t)
    requires !Gone(front, s) && forall r: Surface :: !Made(front, r, id)
    requires id > 0 && u.objects == t.objects[id := s]
    requires forall w: WindowId :: w in u.windows <==> w in t.windows
    requires forall w :: w in t.windows ==> u.windows[w].surfaceId == t.windows[w].surfaceId
    ensures Agrees(es, u)
  {
    OneMore(es, front, SurfaceCreated(s, id, Xwayland));
    forall a: ObjectId, r: Surface
      ensures (a in u.objects && u.objects[a] == r) <==> Made(es, r, a) && !Gone(es, r)
    {
      assert (a in t.objects && t.objects[a] == r) <==> Made(front, r, a) && !Gone(front, r);
      assert !Made(front, r, id);
    }
  }

  lemma NamedIsNotClientless(es: seq<Event>, front: seq<Event>, s: Surface, id: ObjectId, w: WindowId, named: ObjectId)
    requires Orderly(es) && es == front + [SurfaceCreated(s, id, Unknown)] && Named(front, w, named)
    ensures named != id
  {
    assert es[|front|] == SurfaceCreated(s, id, Unknown) && Clientless(es[|front|]);
    var j :| 0 <= j < |front| && front[j] == SurfaceId(w, named);
    assert es[j] == front[j];
  }

  /** A surface without client that no window waits for changes nothing. */
  lemma ClientlessIsIgnored(es: seq<Event>, front: seq<Event>, s: Surface, id: ObjectId, t: World)
    requires Orderly(es) && es == front + [SurfaceCreated(s, id, Unknown)] && Agrees(front, t)
    ensures OnSurfaceCreated(t, s, id, Unknown) == t
  {
    assert es[|front|] == SurfaceCreated(s, id, Unknown);
    forall w ensures !Waits(t, w, id) {
      if w in t.windows && t.windows[w].surfaceId > 0 {
        NamedIsNotClientless(es, front, s, id, w, t.windows[w].surfaceId);
      }
    }
  }

  lemma SurfaceCreatedAgrees(es: seq<Event>, front: seq<Event>, s: Surface, id: ObjectId, owner: Owner, t: World)
    requires Orderly(es) && es == front + [SurfaceCreated(s, id, owner)] && Agrees(front, t) && Paired(t, MadeIds(front))
    ensures Agrees(es, OnSurfaceCreated(t, s, id, owner)) && Paired(OnSurfaceCreated(t, s, id, owner), MadeIds(es))
  {
    assert es[|front|] == SurfaceCreated(s, id, owner);
    LastIsNew(es, front, SurfaceCreated(s, id, owner));
    OneMore(es, front, SurfaceCreated(s, id, owner));
    MadeIdsExtend(es, front, SurfaceCreated(s, id, owner));
    match owner
    case Xwayland =>
      MadeIdsHas(front, id);
      CreatedPairs(t, MadeIds(front), s, id);
      CreatedKeeps(t, s, id);
      if Gone(front, s) {
        GoneLater(es, front, SurfaceCreated(s, id, Xwayland), s, id);
      }
      AddedObjectAgrees(es, front, s, id, t, OnSurfaceCreated(t, s, id, owner));
    case Foreign =>
    case Unknown =>
      ClientlessIsIgnored(es, front, s, id, t);
  }

  lemma {:induction false} RunPairs(es: seq<Event>)
    requires Orderly(es)
    ensures Agrees(es, Run(es)) && Paired(Run(es), MadeIds(es))
  {
    if es == [] {
    } else {
      var front, last := es[..|es| - 1], es[|es| - 1];
      OrderlyPrefix(es);
      RunPairs(front);
      assert es == front + [last];
      match last
      case CreateNotify(w, ours) => WindowCreatedAgrees(es, front, w, ours, Run(front));
      case SurfaceId(w, id) => SurfaceIdAgrees(es, front, w, id, Run(front));
      case SurfaceCreated(s, id, owner) => SurfaceCreatedAgrees(es, front, s, id, owner, Run(front));
      case SurfaceDestroyed(s) => DestroyedAgrees(es, front, s, Run(front));
    }
  }

  lemma NamedIsPositive(es: seq<Event>, w: WindowId, id: ObjectId)
    requires Orderly(es) && Named(es, w, id)
    ensures id > 0
  {
    var i :| 0 <= i < |es| && es[i] == SurfaceId(w, id);
    assert es[i].SurfaceId? && es[i].id == id;
  }

  lemma PairedWasNamed(es: seq<Event>, t: World, w: WindowId, s: Surface)
    requires Agrees(es, t) && Paired(t, MadeIds(es)) && w in t.windows && t.windows[w].surface == Some(s)
    ensures Named(es, w, t.windows[w].surfaceId) && Made(es, s, t.windows[w].surfaceId) && !Gone(es, s)
  {
    var id := t.windows[w].surfaceId;
    assert t.windows[w].surface == Expected(t, id);
    assert id in t.objects && t.objects[id] == s;
    assert id in MadeIds(es);
  }

  lemma NamedGetsPaired(es: seq<Event>, t: World, w: WindowId, s: Surface, id: ObjectId)
    requires Agrees(es, t) && Paired(t, MadeIds(es)) && id > 0 && Named(es, w, id) && Made(es, s, id) && !Gone(es, s)
    ensures w in t.windows && t.windows[w].surface == Some(s)
  {
    assert w in t.windows && t.windows[w].surfaceId == id;
    assert id in t.objects && t.objects[id] == s;
    assert t.windows[w].surface == Expected(t, id);
  }

  /** A window shows a surface exactly when it named its id, both events happened, and the surface is not destroyed. */
  lemma PairedIff(es: seq<Event>, w: WindowId, s: Surface)
    requires Orderly(es)
    ensures (w in Run(es).windows && Run(es).windows[w].surface == Some(s))
            <==> !Gone(es, s) && exists id: ObjectId :: Named(es, w, id) && Made(es, s, id)
  {
    RunPairs(es);
    if w in Run(es).windows && Run(es).windows[w].surface == Some(s) {
      PairedWasNamed(es, Run(es), w, s);
    }
    forall id: ObjectId | Named(es, w, id) && Made(es, s, id) && !Gone(es, s)
      ensures w in Run(es).windows && Run(es).windows[w].surface == Some(s)
    {
      NamedIsPositive(es, w, id);
      NamedGetsPaired(es, Run(es), w, s, id);
    }
  }

  /** The unpaired list holds, once each, exactly the windows whose surface is still to come. */
  lemma UnpairedIff(es: seq<Event>, w: WindowId)
    requires Orderly(es)
    ensures w in Run(es).unpaired <==> exists id: ObjectId :: Named(es, w, id) && forall s :: !Made(es, s, id)
    ensures NoDup(Run(es).unpaired)
  {
    RunPairs(es);
    var t := Run(es);
    if w in t.unpaired {
      assert Named(es, w, t.windows[w].surfaceId);
      MadeIdsHas(es, t.windows[w].surfaceId);
    }
    if id: ObjectId :| Named(es, w, id) && forall s :: !Made(es, s, id) {
      NamedIsPositive(es, w, id);
      MadeIdsHas(es, id);
      assert w in t.windows && t.windows[w].surfaceId == id;
    }
  }

  lemma SameObjects(es: seq<Event>, fs: seq<Event>, t: World, u: World)
    requires Agrees(es, t) && Agrees(fs, u)
    requires forall e :: e in es <==> e in fs
    ensures t.objects == u.objects
  {
    forall id: ObjectId ensures id in t.objects <==> id in u.objects
      ensures id in t.objects ==> t.objects[id] == u.objects[id]
    {
      if id in t.objects {
        assert Made(es, t.objects[id], id) && !Gone(es, t.objects[id]);
        assert Made(fs, t.objects[id], id) && !Gone(fs, t.objects[id]);
      }
      if id in u.objects {
        assert Made(fs, u.objects[id], id) && !Gone(fs, u.objects[id]);
        assert Made(es, u.objects[id], id) && !Gone(es, u.objects[id]);
      }
    }
  }

  lemma SameIds(es: seq<Event>, fs: seq<Event>, t: World, u: World, w: WindowId)
    requires Agrees(es, t) && Agrees(fs, u)
    requires forall e :: e in es <==> e in fs
    requires w in t.windows
    ensures w in u.windows && t.windows[w].surfaceId == u.windows[w].surfaceId
  {
    var a := t.windows[w].surfaceId;
    assert w in u.windows;
    var b := u.windows[w].surfaceId;
    assert a > 0 ==> Named(es, w, a) && Named(fs, w, a);
    assert b > 0 ==> Named(fs, w, b) && Named(es, w, b);
  }

  lemma SameMade(es: seq<Event>, fs: seq<Event>)
    requires forall e :: e in es <==> e in fs
    ensures MadeIds(es) == MadeIds(fs)
  {
  }

  lemma SameWindows(t: World, u: World, made: set<ObjectId>)
    requires Paired(t, made) && Paired(u, made) && t.objects == u.objects
    requires forall w: WindowId :: w in t.windows <==> w in u.windows
    requires forall w :: w in t.windows ==> t.windows[w].surfaceId == u.windows[w].surfaceId
    ensures t.windows == u.windows
    ensures forall w: WindowId :: w in t.unpaired <==> w in u.unpaired
  {
    forall w | w in t.windows ensures t.windows[w] == u.windows[w] {
      assert t.windows[w].surface == Expected(t, t.windows[w].surfaceId);
      assert u.windows[w].surface == Expected(u, u.windows[w].surfaceId);
    }
  }

  /** Two orderly runs of the same events, in whatever orders, end with the same pairing. */
  lemma OrderDoesNotMatter(es: seq<Event>, fs: seq<Event>)
    requires Orderly(es) && Orderly(fs)
    requires forall e :: e in es <==> e in fs
    ensures Run(es).windows == Run(fs).windows && Run(es).objects == Run(fs).objects
    ensures forall w: WindowId :: w in Run(es).unpaired <==> w in Run(fs).unpaired
  {
    RunPairs(es);
    RunPairs(fs);
    var t, u := Run(es), Run(fs);
    SameObjects(es, fs, t, u);
    SameMade(es, fs);
    forall w: WindowId
      ensures w in t.windows <==> w in u.windows
      ensures w in t.windows ==> t.windows[w].surfaceId == u.windows[w].surfaceId
    {
      if w in t.windows {
        SameIds(es, fs, t, u, w);
      } else if w in u.windows {
        SameIds(fs, es, u, t, w);
      }
    }
    SameWindows(t, u, MadeIds(es));
  }

  /** With a surface without client whose id a window names, the order does matter. */
  lemma ClientlessOrderMatters(w: WindowId, s: Surface, id: ObjectId)
    requires id > 0
    ensures var named := Run([CreateNotify(w, false), SurfaceId(w, id)]);
            var made := Run([CreateNotify(w, false), SurfaceCreated(s, id, Unknown)]);
            && Step(named, SurfaceCreated(s, id, Unknown)).windows == map[w := Window(id, Some(s))]
            && Step(made, SurfaceId(w, id)).windows == map[w := Window(id, None)]
  {
    var start := [CreateNotify(w, false)];
    assert start[..0] == [];
    assert Run(start) == World(map[w := Window(0, None)], [], map[]);
    assert [CreateNotify(w, false), SurfaceId(w, id)][..1] == start;
    assert [CreateNotify(w, false), SurfaceCreated(s, id, Unknown)][..1] == start;
    var named := Run([CreateNotify(w, false), SurfaceId(w, id)]);
    assert named == World(map[w := Window(id, None)], [w], map[]);
    assert FirstWaiting(named, id, 0) == 0;
  }

  // ----- A window that gets a second surface -----

  /** setSurfaceId(0), meant to forget the id, does nothing: a window keeps its first id. */
  lemma FirstIdStays(t: World, e: Event, w: WindowId)
    requires w in t.windows && t.windows[w].surfaceId > 0 && !e.CreateNotify?
    ensures w in Step(t, e).windows && Step(t, e).windows[w].surfaceId == t.windows[w].surfaceId
  {
  }

  /**
   So after its surface is gone, a window can be paired with a new surface
   announced by message only if the surface comes first, or has the old id.
   */
  lemma PairingAgainIff(t: World, w: WindowId, s: Surface, id: ObjectId)
    requires w in t.windows && t.windows[w].surface.None?
    requires id > 0 && id !in t.objects
    requires forall v :: v in t.unpaired ==> !Waits(t, v, id)
    requires w !in t.unpaired
    ensures var before := OnSurfaceId(OnSurfaceCreated(t, s, id, Xwayland), w, id);
            before.windows[w].surface == Some(s)
    ensures var after := OnSurfaceCreated(OnSurfaceId(t, w, id), s, id, Xwayland);
            after.windows[w].surface == Some(s) <==> t.windows[w].surfaceId == 0 || t.windows[w].surfaceId == id
  {
    var u := OnSurfaceId(t, w, id);
    assert u.unpaired[|t.unpaired|] == w;
    forall j | 0 <= j < |t.unpaired| ensures !Waits(u, u.unpaired[j], id) {
      assert t.unpaired[j] in t.unpaired;
    }
  }

  /** A window whose surface was destroyed, with another surface r to come. */
  function LostSurface(w: WindowId, s: Surface, id: ObjectId): seq<Event> {
    [CreateNotify(w, false), SurfaceId(w, id), SurfaceCreated(s, id, Xwayland), SurfaceDestroyed(s)]
  }

  lemma LostSurfaceRun(w: WindowId, s: Surface, id: ObjectId)
    requires id > 0
    ensures Run(LostSurface(w, s, id)) == World(map[w := Window(id, None)], [], map[])
  {
    var es := LostSurface(w, s, id);
    assert es[..3][..2] == es[..2] && es[..2][..1] == es[..1] && es[..1][..0] == [];
    assert Run(es[..1]) == World(map[w := Window(0, None)], [], map[]);
    assert Run(es[..2]) == World(map[w := Window(id, None)], [w], map[]);
    var t := Run(es[..2]);
    assert FirstWaiting(t, id, 0) == 0;
    assert Run(es[..3]) == World(map[w := Window(id, Some(s))], [], map[id := s]);
    assert Run(es) == Step(Run(es[..3]), SurfaceDestroyed(s));
  }

  /** So a run in which a window loses its surface depends on the order of what follows, unless the id is the same. */
  lemma OrderMattersAfterLoss(w: WindowId, s: Surface, id: ObjectId, r: Surface, again: ObjectId)
    requires id > 0 && again > 0
    ensures var t := Run(LostSurface(w, s, id));
            var surfaceFirst := Step(Step(t, SurfaceCreated(r, again, Xwayland)), SurfaceId(w, again));
            var messageFirst := Step(Step(t, SurfaceId(w, again)), SurfaceCreated(r, again, Xwayland));
            && w in surfaceFirst.windows && surfaceFirst.windows[w].surface == Some(r)
            && w in messageFirst.windows && (messageFirst.windows[w].surface == Some(r) <==> again == id)
  {
    LostSurfaceRun(w, s, id);
    PairingAgainIff(Run(LostSurface(w, s, id)), w, r, again);
  }

  // ----- What a window keeps -----

  /** A message changes something exactly when its window is known and shows no surface. */
  lemma MessageIgnoredIff(t: World, w: WindowId, id: ObjectId)
    ensures Step(t, SurfaceId(w, id)) == t <==> w !in t.windows || t.windows[w].surface.Some?
  {
    if w in t.windows && t.windows[w].surface.None? {
      var u := Step(t, SurfaceId(w, id));
      if id in t.objects {
        assert u.windows[w].surface.Some?;
      } else {
        assert |u.unpaired| == |t.unpaired| + 1;
      }
    }
  }

  /** Our own windows and the surfaces of other clients take no part. */
  lemma ForeignIgnored(t: World, w: WindowId, s: Surface, id: ObjectId)
    ensures Step(t, CreateNotify(w, true)) == t && Step(t, SurfaceCreated(s, id, Foreign)) == t
  {
  }

  /** A window shows its surface until that is destroyed, or its window id is given out again. */
  lemma {:induction false} SurfaceStays(es: seq<Event>, fs: seq<Event>, w: WindowId, s: Surface)
    requires w in Run(es).windows && Run(es).windows[w].surface == Some(s)
    requires forall e :: e in fs ==> e != SurfaceDestroyed(s) && e != CreateNotify(w, false)
    ensures w in Run(es + fs).windows && Run(es + fs).windows[w] == Run(es).windows[w]
  {
    if fs == [] {
      assert es + fs == es;
    } else {
      var front, last := fs[..|fs| - 1], fs[|fs| - 1];
      assert last in fs && forall e :: e in front ==> e in fs;
      SurfaceStays(es, front, w, s);
      assert (es + fs)[..|es + fs| - 1] == es + front;
      ShownStays(Run(es + front), last, w, s);
    }
  }

  lemma ShownStays(t: World, e: Event, w: WindowId, s: Surface)
    requires w in t.windows && t.windows[w].surface == Some(s)
    requires e != SurfaceDestroyed(s) && e != CreateNotify(w, false)
    ensures w in Step(t, e).windows && Step(t, e).windows[w] == t.windows[w]
  {
  }

  /** Of two windows that name the same id, the first to do so gets the surface, and the other waits on. */
  lemma FirstNamedFirstServed(t: World, v: WindowId, w: WindowId, id: ObjectId, s: Surface)
    requires v != w && v in t.windows && w in t.windows
    requires t.windows[v] == Window(0, None) && t.windows[w] == Window(0, None)
    requires id > 0 && id !in t.objects && forall x :: x in t.unpaired ==> !Waits(t, x, id) && x != v && x != w
    ensures var u := Step(Step(Step(t, SurfaceId(v, id)), SurfaceId(w, id)), SurfaceCreated(s, id, Xwayland));
            u.windows == t.windows[v := Window(id, Some(s))][w := Window(id, None)] && u.unpaired == t.unpaired + [w]
  {
    var a := Step(Step(t, SurfaceId(v, id)), SurfaceId(w, id));
    assert a.unpaired == t.unpaired + [v] + [w];
    forall j | 0 <= j < |t.unpaired| ensures !Waits(a, a.unpaired[j], id) {
      assert t.unpaired[j] in t.unpaired;
    }
    assert Waits(a, a.unpaired[|t.unpaired|], id);
    assert FirstWaiting(a, id, 0) == |t.unpaired|;
  }
}
