/** What createScreens has to achieve, for connectors that can drive some CRTCs and are wanted or not. */
module ScreenLayout {
  import opened Sequences

  /** Drives: the ids of the CRTCs the connector's encoders allow. */
  datatype Candidate = Unreadable | Candidate(ids: set<nat>, wanted: bool, width: nat)

  datatype Screen = Screen(connector: nat, crtc: nat, x: int, width: nat)

  /** The CRTCs of the screens of connectors before n. */
  function TakenBefore(screens: seq<Screen>, n: nat): set<nat> {
    if screens == [] then {}
    else
      var last := screens[|screens| - 1];
      TakenBefore(screens[..|screens| - 1], n) + (if last.connector < n then {last.crtc} else {})
  }

  ghost predicate HasScreen(screens: seq<Screen>, n: nat) {
    exists s :: s in screens && s.connector == n
  }

  function WidthSum(screens: seq<Screen>): int {
    if screens == [] then 0 else WidthSum(screens[..|screens| - 1]) + screens[|screens| - 1].width
  }

  /** The screens are listed in the order of their connectors. */
  ghost predicate InOrder(screens: seq<Screen>) {
    screens == []
    || (InOrder(screens[..|screens| - 1])
        && forall s :: s in screens[..|screens| - 1] ==> s.connector < screens[|screens| - 1].connector)
  }

  lemma {:induction false} InOrderAt(screens: seq<Screen>, k: nat, l: nat)
    requires InOrder(screens) && k < l < |screens|
    ensures screens[k].connector < screens[l].connector
  {
    var front := screens[..|screens| - 1];
    if l < |front| {
      InOrderAt(front, k, l);
    } else {
      assert front[k] in front;
    }
  }

  ghost predicate Tiled(screens: seq<Screen>) {
    forall k {:trigger WidthSum(screens[..k])} :: 0 <= k < |screens| ==> screens[k].x == WidthSum(screens[..k])
  }

  /** A connector asks for a CRTC that nobody before it has taken. */
  predicate Grants(c: Candidate, taken: set<nat>, id: nat) {
    c.Candidate? && c.wanted && id in c.ids && id !in taken
  }

  /** One of the connector's CRTCs is free, and it is wanted. */
  ghost predicate GrantsAny(c: Candidate, taken: set<nat>) {
    exists id :: Grants(c, taken, id)
  }

  /**
   Each screen has its connector's width and a CRTC that its connector may use and that was free, and a
   connector without screen was not wanted or found none of its CRTCs free.
   */
  ghost predicate Fair(cs: seq<Candidate>, screens: seq<Screen>, n: nat)
    requires n <= |cs|
  {
    && (forall s :: s in screens ==>
          s.connector < n && Grants(cs[s.connector], TakenBefore(screens, s.connector), s.crtc)
          && s.width == cs[s.connector].width)
    && (forall m :: 0 <= m < n && !HasScreen(screens, m) ==> !GrantsAny(cs[m], TakenBefore(screens, m)))
  }

  lemma {:induction false} TakenHas(screens: seq<Screen>, n: nat, s: Screen)
    requires s in screens && s.connector < n
    ensures s.crtc in TakenBefore(screens, n)
  {
    var front, last := screens[..|screens| - 1], screens[|screens| - 1];
    assert screens == front + [last];
    if s != last {
      TakenHas(front, n, s);
    }
  }

  lemma {:induction false} TakenOfEarlier(screens: seq<Screen>, n: nat, m: nat)
    requires forall s :: s in screens ==> s.connector < n
    requires n <= m
    ensures TakenBefore(screens, m) == TakenBefore(screens, n)
  {
    if screens != [] {
      assert screens[|screens| - 1] in screens;
      forall s | s in screens[..|screens| - 1] ensures s.connector < n {
        assert s in screens;
      }
      TakenOfEarlier(screens[..|screens| - 1], n, m);
    }
  }

  lemma TakenUnchanged(screens: seq<Screen>, s: Screen, m: nat)
    requires m <= s.connector
    ensures TakenBefore(screens + [s], m) == TakenBefore(screens, m)
  {
    assert (screens + [s])[..|screens|] == screens;
  }

  lemma FairSkip(cs: seq<Candidate>, screens: seq<Screen>, n: nat)
    requires n < |cs| && Fair(cs, screens, n)
    requires !GrantsAny(cs[n], TakenBefore(screens, n))
    ensures Fair(cs, screens, n + 1) && TakenBefore(screens, n + 1) == TakenBefore(screens, n)
  {
    TakenOfEarlier(screens, n, n + 1);
  }

  lemma FairAdd(cs: seq<Candidate>, screens: seq<Screen>, s: Screen, n: nat, taken: set<nat>)
    requires s.connector == n < |cs| && Fair(cs, screens, n)
    requires taken == TakenBefore(screens, n) && Grants(cs[n], taken, s.crtc) && s.width == cs[n].width
    ensures Fair(cs, screens + [s], n + 1)
    ensures TakenBefore(screens + [s], n + 1) == taken + {s.crtc}
  {
    var after := screens + [s];
    assert forall t :: t in after <==> t in screens || t == s;
    assert after[..|screens|] == screens;
    TakenOfEarlier(screens, n, n + 1);
    forall t | t in after
      ensures t.connector < n + 1 && Grants(cs[t.connector], TakenBefore(after, t.connector), t.crtc)
              && t.width == cs[t.connector].width
    {
      TakenUnchanged(screens, s, t.connector);
    }
    forall m: nat | m < n + 1 && !HasScreen(after, m) ensures !GrantsAny(cs[m], TakenBefore(after, m)) {
      assert s in after;
      TakenUnchanged(screens, s, m);
      assert !HasScreen(screens, m);
    }
  }

  lemma OrderAndTilesAdd(screens: seq<Screen>, s: Screen)
    requires InOrder(screens) && Tiled(screens)
    requires forall t :: t in screens ==> t.connector < s.connector
    requires s.x == WidthSum(screens)
    ensures InOrder(screens + [s]) && Tiled(screens + [s]) && WidthSum(screens + [s]) == s.x + s.width
  {
    var after := screens + [s];
    assert after[..|screens|] == screens;
    forall k | 0 <= k < |after| ensures after[k].x == WidthSum(after[..k]) {
      assert after[..k] == if k < |screens| then screens[..k] else screens;
      assert k < |screens| ==> screens[k].x == WidthSum(screens[..k]);
    }
  }

  /** The screens for the first n connectors, what they have taken, and where the next one goes. */
  ghost predicate LaidOut(cs: seq<Candidate>, screens: seq<Screen>, n: nat, taken: set<nat>, x: int)
    requires n <= |cs|
  {
    && Fair(cs, screens, n) && InOrder(screens) && Tiled(screens)
    && taken == TakenBefore(screens, n) && x == WidthSum(screens)
  }

  lemma LaidOutSkip(cs: seq<Candidate>, screens: seq<Screen>, n: nat, taken: set<nat>, x: int)
    requires n < |cs| && LaidOut(cs, screens, n, taken, x)
    requires !GrantsAny(cs[n], taken)
    ensures LaidOut(cs, screens, n + 1, taken, x)
  {
    FairSkip(cs, screens, n);
  }

  lemma LaidOutAdd(cs: seq<Candidate>, screens: seq<Screen>, n: nat, taken: set<nat>, x: int, s: Screen)
    requires n < |cs| && LaidOut(cs, screens, n, taken, x)
    requires s.connector == n && s.x == x && Grants(cs[n], taken, s.crtc) && s.width == cs[n].width
    ensures LaidOut(cs, screens + [s], n + 1, taken + {s.crtc}, x + s.width)
  {
    FairAdd(cs, screens, s, n, taken);
    OrderAndTilesAdd(screens, s);
  }

  /** What one connector may do: take a free CRTC of its own at x, or nothing if it may not. */
  ghost predicate Step(c: Candidate, n: nat, x: int, taken: set<nat>, screen: Option<Screen>, after: set<nat>) {
    match screen
    case None => after == taken && !GrantsAny(c, taken)
    case Some(s) =>
      s.connector == n && s.x == x && Grants(c, taken, s.crtc) && s.width == c.width && after == taken + {s.crtc}
  }

  function Extended(screens: seq<Screen>, screen: Option<Screen>): seq<Screen> {
    if screen.None? then screens else screens + [screen.value]
  }

  function NextX(x: int, screen: Option<Screen>): int {
    if screen.None? then x else x + screen.value.width
  }

  /** The connectors' turns so far: what came before each, and the screen it got, if any. */
  datatype Turns = Start | After(earlier: Turns, screens: seq<Screen>, taken: set<nat>, x: int, screen: Option<Screen>)

  /** n connectors took their turns one after the other. */
  ghost predicate Served(cs: seq<Candidate>, n: nat, turns: Turns, screens: seq<Screen>, taken: set<nat>, x: int) {
    match turns
    case Start => n == 0 && screens == [] && taken == {} && x == 0
    case After(earlier, screens', taken', x', screen) =>
      && 0 < n <= |cs| && Served(cs, n - 1, earlier, screens', taken', x')
      && Step(cs[n - 1], n - 1, x', taken', screen, taken)
      && screens == Extended(screens', screen) && x == NextX(x', screen)
  }

  lemma TurnTaken(cs: seq<Candidate>, n: nat, turns: Turns, screens: seq<Screen>, taken: set<nat>, x: int,
                  screen: Option<Screen>, after: set<nat>)
    requires n < |cs| && Served(cs, n, turns, screens, taken, x) && Step(cs[n], n, x, taken, screen, after)
    ensures Served(cs, n + 1, After(turns, screens, taken, x, screen), Extended(screens, screen), after, NextX(x, screen))
  {
  }

  lemma LaidOutStep(cs: seq<Candidate>, n: nat, screens: seq<Screen>, taken: set<nat>, x: int,
                    screen: Option<Screen>, after: set<nat>)
    requires n < |cs| && LaidOut(cs, screens, n, taken, x) && Step(cs[n], n, x, taken, screen, after)
    ensures LaidOut(cs, Extended(screens, screen), n + 1, after, NextX(x, screen))
  {
    match screen
    case None => LaidOutSkip(cs, screens, n, taken, x);
    case Some(s) => LaidOutAdd(cs, screens, n, taken, x, s);
  }

  /** Connectors that take what is free in their turn end up with a layout fair to all of them. */
  lemma {:induction false} ServedIsLaidOut(cs: seq<Candidate>, n: nat, turns: Turns, screens: seq<Screen>, taken: set<nat>, x: int)
    requires Served(cs, n, turns, screens, taken, x)
    ensures n <= |cs| && LaidOut(cs, screens, n, taken, x)
    decreases turns
  {
    match turns
    case Start =>
    case After(earlier, screens', taken', x', screen) =>
      ServedIsLaidOut(cs, n - 1, earlier, screens', taken', x');
      LaidOutStep(cs, n - 1, screens', taken', x', screen, taken);
  }

  /** No two screens share a CRTC. */
  lemma CrtcsDistinct(cs: seq<Candidate>, screens: seq<Screen>, n: nat, k: nat, l: nat)
    requires n <= |cs| && Fair(cs, screens, n) && InOrder(screens)
    requires k < l < |screens|
    ensures screens[k].crtc != screens[l].crtc
  {
    assert screens[l] in screens && screens[k] in screens;
    InOrderAt(screens, k, l);
    TakenHas(screens, screens[l].connector, screens[k]);
  }

  /** Screens tile the x axis from 0: each begins where the one before it ends, and none overlap. */
  lemma {:induction false} ScreensTile(screens: seq<Screen>, k: nat, l: nat)
    requires Tiled(screens) && k < l < |screens|
    ensures screens[0].x == 0
    ensures screens[k].x + screens[k].width <= screens[l].x
    ensures l == k + 1 ==> screens[k].x + screens[k].width == screens[l].x
    decreases l - k
  {
    assert screens[..l][..l - 1] == screens[..l - 1];
    assert screens[0].x == WidthSum(screens[..0]) && screens[l].x == WidthSum(screens[..l]);
    assert screens[l - 1].x == WidthSum(screens[..l - 1]);
    if k + 1 < l {
      ScreensTile(screens, k, l - 1);
    }
  }
}
