/** Choice of CRTCs and modes, and screen layout (plugins/egldeviceintegration/kms/eglfskmsdevice.cpp). */
module KmsDevice {
  import opened Sequences
  import opened ModeText
  import opened ScreenLayout

  /** `other` stands for the remaining timings, which memcmp compares too. */
  datatype Mode = Mode(hdisplay: nat, vdisplay: nat, preferred: bool, clock: nat, other: nat)

  datatype Configuration = Off | Preferred | Current | Size(w: int, h: int) | Modeline(mode: Mode)

  /** The configured mode of an output, with the length of its text. */
  datatype Setting = Setting(configuration: Configuration, length: nat)

  /** The text as it is configured, in any case; `modeline`: what parseModeline makes of it. */
  function ReadSetting(text: string, modeline: Option<Mode>): Setting {
    Setting(Configured(Lower(text), modeline), |Lower(text)|)
  }

  function Configured(text: string, modeline: Option<Mode>): Configuration {
    if text == "off" then Off
    else if text == "preferred" then Preferred
    else if text == "current" then Current
    else match ScanSize(text)
      case Some((w, h)) => Size(w, h)
      case None => if modeline.Some? then Modeline(modeline.value) else Preferred
  }

  predicate SmallerInBoth(m: Mode, n: Mode) {
    m.hdisplay < n.hdisplay && m.vdisplay < n.vdisplay
  }

  /** The lowest index from i on at which the mode satisfies the flag, or -1. */
  function Lowest(flags: seq<bool>, i: nat): (k: int)
    requires i <= |flags|
    ensures k == -1 || (i <= k < |flags| && flags[k] && forall j :: i <= j < k ==> !flags[j])
    ensures k == -1 ==> forall j :: i <= j < |flags| ==> !flags[j]
    decreases |flags| - i
  {
    if i == |flags| then -1 else if flags[i] then i else Lowest(flags, i + 1)
  }

  function Fits(modes: seq<Mode>, c: Configuration): (fs: seq<bool>)
    ensures |fs| == |modes|
  {
    seq(|modes|, i requires 0 <= i < |modes| => c.Size? && modes[i].hdisplay == c.w && modes[i].vdisplay == c.h)
  }

  function Equals(modes: seq<Mode>, m: Mode): (fs: seq<bool>)
    ensures |fs| == |modes|
  {
    seq(|modes|, i requires 0 <= i < |modes| => modes[i] == m)
  }

  function Flagged(modes: seq<Mode>): (fs: seq<bool>)
    ensures |fs| == |modes|
  {
    seq(|modes|, i requires 0 <= i < |modes| => modes[i].preferred)
  }

  datatype Scan = Scan(configured: int, current: int, preferred: int, best: int)

  /**
   The scan over the connector's modes, from the last to the first.  Although
   it keeps only one candidate, no mode beats `best` in both dimensions.
   */
  method ScanModes(modes: seq<Mode>, c: Configuration, crtcMode: Mode) returns (s: Scan)
    ensures s.configured == Lowest(Fits(modes, c), 0)
    ensures s.current == Lowest(Equals(modes, crtcMode), 0)
    ensures s.preferred == Lowest(Flagged(modes), 0)
    ensures s.best == BestFrom(modes, 0)
    ensures modes == [] ==> s.best == -1
    ensures modes != [] ==> 0 <= s.best < |modes| && forall j :: 0 <= j < |modes| ==> !SmallerInBoth(modes[s.best], modes[j])
  {
    var preferred, current, configured, best := -1, -1, -1, -1;
    ghost var fits, equals, flagged := Fits(modes, c), Equals(modes, crtcMode), Flagged(modes);
    var i := |modes|;
    while i > 0
      invariant 0 <= i <= |modes|
      invariant configured == Lowest(fits, i)
      invariant current == Lowest(equals, i)
      invariant preferred == Lowest(flagged, i)
      invariant best == BestFrom(modes, i)
    {
      i := i - 1;
      var m := modes[i];
      assert fits[i] == (c.Size? && m.hdisplay == c.w && m.vdisplay == c.h);
      assert equals[i] == (crtcMode == m) && flagged[i] == m.preferred;
      if c.Size? && m.hdisplay == c.w && m.vdisplay == c.h {
        configured := i;
      }
      if crtcMode == m {
        current := i;
      }
      if m.preferred {
        preferred := i;
      }
      if best < 0 {
        best := i;
      } else if SmallerInBoth(modes[best], m) {
        best := i;
      }
    }
    BestIsUnbeaten(modes, 0);
    s := Scan(configured, current, preferred, best);
  }

  /** The candidate after looking at the modes from i on. */
  function BestFrom(modes: seq<Mode>, i: nat): (b: int)
    requires i <= |modes|
    ensures if i == |modes| then b == -1 else i <= b < |modes|
    decreases |modes| - i
  {
    if i == |modes| then -1
    else
      var b := BestFrom(modes, i + 1);
      if b < 0 || SmallerInBoth(modes[b], modes[i]) then i else b
  }

  lemma {:induction false} BestIsUnbeaten(modes: seq<Mode>, i: nat)
    requires i <= |modes|
    ensures i < |modes| ==> forall j :: i <= j < |modes| ==> !SmallerInBoth(modes[BestFrom(modes, i)], modes[j])
    decreases |modes| - i
  {
    if i < |modes| {
      BestIsUnbeaten(modes, i + 1);
    }
  }

  // ----- Selection -----

  /** The list of modes the screen gets, and the index selected in it; -1 for none. */
  datatype Selection = Selection(modes: seq<Mode>, index: int, preferred: int)

  predicate Appended(modes: seq<Mode>, crtcMode: Mode) {
    Lowest(Equals(modes, crtcMode), 0) < 0 && crtcMode.clock != 0
  }

  function Select(modes: seq<Mode>, setting: Setting, crtcMode: Mode): Selection {
    var c := setting.configuration;
    var withLine := if c.Modeline? then modes + [c.mode] else modes;
    var all := if Appended(modes, crtcMode) then withLine + [crtcMode] else withLine;
    // the length of the configuration text, not of the list
    var current := if Appended(modes, crtcMode) then setting.length - 1 else Lowest(Equals(modes, crtcMode), 0);
    var configured := if c.Current? then current else if c.Modeline? then |withLine| - 1 else Lowest(Fits(modes, c), 0);
    var best, preferred := BestFrom(modes, 0), Lowest(Flagged(modes), 0);
    Selection(all,
              if configured >= 0 then configured else if best >= 0 then best else if preferred >= 0 then preferred
              else if current >= 0 then current else -1,
              preferred)
  }

  method SelectMode(connectorModes: seq<Mode>, setting: Setting, crtcMode: Mode) returns (s: Selection)
    ensures s == Select(connectorModes, setting, crtcMode)
  {
    var c := setting.configuration;
    var modes := connectorModes;
    var scan := ScanModes(modes, c, crtcMode);
    var configured, current := scan.configured, scan.current;
    if c.Modeline? {
      modes := modes + [c.mode];
      configured := |modes| - 1;
    }
    if current < 0 && crtcMode.clock != 0 {
      modes := modes + [crtcMode];
      current := setting.length - 1;
    }
    if c.Current? {
      configured := current;
    }
    var selected := -1;
    if configured >= 0 {
      selected := configured;
    } else if scan.best >= 0 {
      selected := scan.best;
    } else if scan.preferred >= 0 {
      selected := scan.preferred;
    } else if current >= 0 {
      selected := current;
    }
    s := Selection(modes, selected, scan.preferred);
  }

  /** The index of the running mode is taken from the wrong length, and used. */
  predicate LengthMixup(modes: seq<Mode>, setting: Setting, crtcMode: Mode) {
    var c := setting.configuration;
    && Appended(modes, crtcMode)
    && (c.Current? || (modes == [] && !c.Modeline?))
    && setting.length > |modes| + 1
  }

  /** The selected index lies in the list exactly when the two lengths are not mixed up. */
  lemma SelectedInRangeIff(modes: seq<Mode>, setting: Setting, crtcMode: Mode)
    ensures var s := Select(modes, setting, crtcMode);
            s.index < |s.modes| <==> !LengthMixup(modes, setting, crtcMode)
  {
  }

  /** The configuration "current" selects the running mode, if that is not the connector's, only by luck. */
  lemma CurrentSelectsRunningIff(modes: seq<Mode>, modeline: Option<Mode>, crtcMode: Mode)
    requires Appended(modes, crtcMode)
    ensures var s := Select(modes, ReadSetting("current", modeline), crtcMode);
            (0 <= s.index < |s.modes| && s.modes[s.index] == crtcMode) <==> |modes| == 6
  {
    WordsInAnyCase("current", modeline);
    var s := Select(modes, ReadSetting("current", modeline), crtcMode);
    assert s.index == 6 && s.modes == modes + [crtcMode];
    if 6 < |modes| {
      assert !Equals(modes, crtcMode)[6];
    }
  }

  /** The same letters but for their case. */
  predicate SameButCase(text: string, word: string) {
    |text| == |word| && forall i :: 0 <= i < |text| ==>
      text[i] == word[i] || ('A' <= text[i] <= 'Z' && text[i] as int - 'A' as int == word[i] as int - 'a' as int)
  }

  /** The words are read in any case. */
  lemma WordsInAnyCase(text: string, modeline: Option<Mode>)
    ensures SameButCase(text, "off") ==> ReadSetting(text, modeline) == Setting(Off, 3)
    ensures SameButCase(text, "preferred") ==> ReadSetting(text, modeline) == Setting(Preferred, 9)
    ensures SameButCase(text, "current") ==> ReadSetting(text, modeline) == Setting(Current, 7)
  {
    InAnyCase(text, "off");
    InAnyCase(text, "preferred");
    InAnyCase(text, "current");
  }

  lemma InAnyCase(text: string, word: string)
    requires forall i :: 0 <= i < |word| ==> 'a' <= word[i] <= 'z'
    ensures SameButCase(text, word) ==> Lower(text) == word
  {
  }

  /** A text that starts with a letter is not a size. */
  lemma LetterIsNoSize(text: string, w: int, h: int)
    requires text != [] && !IsDigit(text[0]) && !IsSpace(text[0]) && text[0] !in {'+', '-'}
    ensures !SizeAt(text, w, h)
  {
  }

  /** How every text is read, whatever the case of its letters. */
  lemma ReadIff(text: string, modeline: Option<Mode>)
    ensures var t, c := Lower(text), ReadSetting(text, modeline).configuration;
            var sized := exists w, h :: SizeAt(t, w, h);
            var word := t in ["off", "preferred", "current"];
            && (c == Off <==> t == "off") && (c == Current <==> t == "current")
            && (forall w, h :: c == Size(w, h) <==> SizeAt(t, w, h))
            && (c.Modeline? <==> !word && !sized && modeline.Some?) && (c.Modeline? ==> c.mode == modeline.value)
            && (c == Preferred <==> t == "preferred" || (!word && !sized && modeline.None?))
  {
    var t := Lower(text);
    forall w, h ensures ScanSize(t) == Some((w, h)) <==> SizeAt(t, w, h) {
      ScanSizeIff(t, w, h);
    }
    if t in ["off", "preferred", "current"] {
      forall w, h ensures !SizeAt(t, w, h) {
        LetterIsNoSize(t, w, h);
      }
    } else if ScanSize(t).Some? {
      assert SizeAt(t, ScanSize(t).value.0, ScanSize(t).value.1);
    }
  }

  /** Mode m is one of the list that no other beats in both dimensions, and the last one or larger than that in both. */
  ghost predicate Unbeaten(modes: seq<Mode>, m: Mode) {
    && m in modes
    && (forall n :: n in modes ==> m.hdisplay >= n.hdisplay || m.vdisplay >= n.vdisplay)
    && (modes[|modes| - 1] == m || (modes[|modes| - 1].hdisplay < m.hdisplay && modes[|modes| - 1].vdisplay < m.vdisplay))
  }

  ghost predicate HasSize(modes: seq<Mode>, w: int, h: int) {
    exists m :: m in modes && m.hdisplay == w && m.vdisplay == h
  }

  /**
   The mode a configuration asks for: the modeline itself, a mode of the
   configured size or the running one if it is listed, and otherwise a mode
   that no other beats; the running one if nothing is listed.  "current" may
   get any mode when another one than those listed is running.
   */
  ghost predicate AskedFor(modes: seq<Mode>, c: Configuration, crtcMode: Mode, m: Mode) {
    if c.Modeline? then m == c.mode
    else if modes == [] then m == crtcMode
    else if c.Size? && HasSize(modes, c.w, c.h) then m in modes && m.hdisplay == c.w && m.vdisplay == c.h
    else if c.Current? && crtcMode in modes then m == crtcMode
    else (c.Current? && crtcMode.clock != 0) || Unbeaten(modes, m)
  }

  lemma SizeSelected(modes: seq<Mode>, setting: Setting, crtcMode: Mode)
    requires setting.configuration.Size?
    ensures var s, c := Select(modes, setting, crtcMode), setting.configuration;
            && (HasSize(modes, c.w, c.h) ==> 0 <= s.index < |modes| && modes[s.index].hdisplay == c.w && modes[s.index].vdisplay == c.h)
            && (!HasSize(modes, c.w, c.h) && modes != [] ==> s.index == BestFrom(modes, 0))
  {
    var c := setting.configuration;
    var fits := Fits(modes, c);
    if HasSize(modes, c.w, c.h) {
      var m :| m in modes && m.hdisplay == c.w && m.vdisplay == c.h;
      var k :| 0 <= k < |modes| && modes[k] == m;
      assert fits[k];
    } else {
      forall k | 0 <= k < |modes| ensures !fits[k] {
        assert modes[k] in modes;
      }
    }
  }

  lemma BestIsBest(modes: seq<Mode>)
    requires modes != []
    ensures Unbeaten(modes, modes[BestFrom(modes, 0)])
  {
    BestIsUnbeaten(modes, 0);
    BestExceedsLast(modes, 0);
  }

  /** The candidate kept is the last mode, or larger than it in both dimensions. */
  lemma {:induction false} BestExceedsLast(modes: seq<Mode>, i: nat)
    requires i < |modes|
    ensures var best, last := modes[BestFrom(modes, i)], modes[|modes| - 1];
            best == last || (last.hdisplay < best.hdisplay && last.vdisplay < best.vdisplay)
    decreases |modes| - i
  {
    if i < |modes| - 1 {
      BestExceedsLast(modes, i + 1);
    }
  }

  lemma CurrentSelected(modes: seq<Mode>, setting: Setting, crtcMode: Mode)
    requires setting.configuration.Current? && crtcMode in modes
    ensures var s := Select(modes, setting, crtcMode); 0 <= s.index < |modes| && modes[s.index] == crtcMode
  {
    var k :| 0 <= k < |modes| && modes[k] == crtcMode;
    assert Equals(modes, crtcMode)[k];
  }

  /** What counts as preferred is the first mode flagged so, and the listed modes come first in the list. */
  lemma PreferredIsFirstFlagged(modes: seq<Mode>, setting: Setting, crtcMode: Mode)
    ensures var s := Select(modes, setting, crtcMode);
            && modes <= s.modes && (crtcMode.clock != 0 ==> crtcMode in s.modes)
            && (s.preferred == -1 <==> forall m :: m in modes ==> !m.preferred)
            && (s.preferred != -1 ==>
                  0 <= s.preferred < |modes| && modes[s.preferred].preferred && forall k :: 0 <= k < s.preferred ==> !modes[k].preferred)
  {
    var s, flags := Select(modes, setting, crtcMode), Flagged(modes);
    assert forall k :: 0 <= k < |modes| ==> flags[k] == modes[k].preferred;
    if crtcMode.clock != 0 && !Appended(modes, crtcMode) {
      assert modes[Lowest(Equals(modes, crtcMode), 0)] == crtcMode;
      assert crtcMode in modes;
    } else if crtcMode.clock != 0 {
      assert s.modes[|s.modes| - 1] == crtcMode;
    }
  }

  /** The mode selected is the one asked for. */
  lemma SelectedIsAskedFor(modes: seq<Mode>, setting: Setting, crtcMode: Mode)
    ensures var s := Select(modes, setting, crtcMode);
            0 <= s.index < |s.modes| ==> AskedFor(modes, setting.configuration, crtcMode, s.modes[s.index])
  {
    var s := Select(modes, setting, crtcMode);
    assert forall k :: 0 <= k < |modes| ==> s.modes[k] == modes[k];
    if modes != [] {
      BestIsBest(modes);
    }
    if setting.configuration.Size? {
      SizeSelected(modes, setting, crtcMode);
    } else if setting.configuration.Current? && crtcMode in modes {
      CurrentSelected(modes, setting, crtcMode);
    }
  }

  // ----- Saving and selecting again -----

  /** What saveConfiguration writes for a screen running mode `index`. */
  function SavedMode(s: Selection): string
    requires 0 <= s.index < |s.modes|
  {
    if s.index == s.preferred then "preferred"
    else SizeText(s.modes[s.index].hdisplay, s.modes[s.index].vdisplay)
  }

  predicate SameSize(m: Mode, n: Mode) {
    m.hdisplay == n.hdisplay && m.vdisplay == n.vdisplay
  }

  /**
   A running mode of the connector, saved and selected again, keeps its size
   exactly when it was not saved as "preferred", or the best mode has its
   size.  `preferred` is any index: the user may have changed it.
   */
  lemma SaveAndSelectAgainIff(modes: seq<Mode>, running: nat, preferred: int, modeline: Option<Mode>, crtcMode: Mode)
    requires running < |modes|
    ensures var s := Select(modes, ReadSetting(SavedMode(Selection(modes, running, preferred)), modeline), crtcMode);
            && 0 <= s.index < |s.modes|
            && (SameSize(s.modes[s.index], modes[running])
                <==> running != preferred || SameSize(modes[BestFrom(modes, 0)], modes[running]))
  {
    var saved := SavedMode(Selection(modes, running, preferred));
    if running == preferred {
      assert saved == "preferred";
      PreferredSelectsBest(modes, modeline, crtcMode);
    } else {
      assert saved == SizeText(modes[running].hdisplay, modes[running].vdisplay);
      SizeComesBack(modes, running, modeline, crtcMode);
    }
  }

  /** The configuration "preferred" asks for the best mode, not for the preferred one. */
  lemma PreferredSelectsBest(modes: seq<Mode>, modeline: Option<Mode>, crtcMode: Mode)
    requires modes != []
    ensures var s := Select(modes, ReadSetting("preferred", modeline), crtcMode);
            && s.index == BestFrom(modes, 0) && 0 <= s.index < |modes|
            && s.index < |s.modes| && s.modes[s.index] == modes[s.index]
  {
    WordsInAnyCase("preferred", modeline);
  }

  lemma SizeComesBack(modes: seq<Mode>, running: nat, modeline: Option<Mode>, crtcMode: Mode)
    requires running < |modes|
    ensures var text := SizeText(modes[running].hdisplay, modes[running].vdisplay);
            var s := Select(modes, ReadSetting(text, modeline), crtcMode);
            0 <= s.index < |modes| && s.modes[s.index] == modes[s.index] && SameSize(modes[s.index], modes[running])
  {
    var w, h := modes[running].hdisplay, modes[running].vdisplay;
    SizeTextRoundTrip(w, h);
    assert ReadSetting(SizeText(w, h), modeline).configuration == Size(w, h);
    var fits := Fits(modes, Size(w, h));
    assert fits[running];
    var k := Lowest(fits, 0);
    assert fits[k];
  }

  /**
   When a mode saved as "preferred" comes back with its size: if every other
   mode is smaller in both dimensions or has its size, and only if none is
   larger in both.
   */
  lemma PreferredComesBack(modes: seq<Mode>, running: nat, modeline: Option<Mode>, crtcMode: Mode)
    requires running < |modes|
    ensures var s := Select(modes, ReadSetting("preferred", modeline), crtcMode);
            && 0 <= s.index < |s.modes|
            && ((forall j :: 0 <= j < |modes| ==> SmallerInBoth(modes[j], modes[running]) || SameSize(modes[j], modes[running]))
                ==> SameSize(s.modes[s.index], modes[running]))
            && (SameSize(s.modes[s.index], modes[running])
                ==> forall j :: 0 <= j < |modes| ==> !SmallerInBoth(modes[running], modes[j]))
  {
    BestIsUnbeaten(modes, 0);
    PreferredSelectsBest(modes, modeline, crtcMode);
    var s := Select(modes, ReadSetting("preferred", modeline), crtcMode);
    assert !SmallerInBoth(modes[s.index], modes[running]);
  }

  /** Among modes that all compare with it, a mode saved as "preferred" comes back exactly when none is larger. */
  lemma PreferredComesBackIff(modes: seq<Mode>, running: nat, modeline: Option<Mode>, crtcMode: Mode)
    requires running < |modes|
    requires forall j :: 0 <= j < |modes| ==>
               SameSize(modes[j], modes[running]) || SmallerInBoth(modes[j], modes[running]) || SmallerInBoth(modes[running], modes[j])
    ensures var s := Select(modes, ReadSetting("preferred", modeline), crtcMode);
            && 0 <= s.index < |s.modes|
            && (SameSize(s.modes[s.index], modes[running])
                <==> forall j :: 0 <= j < |modes| ==> !SmallerInBoth(modes[running], modes[j]))
  {
    PreferredComesBack(modes, running, modeline, crtcMode);
  }

  /** A smaller mode flagged as preferred is saved as "preferred" and replaced by the larger one. */
  lemma PreferredIsReplaced(modeline: Option<Mode>)
    ensures var modes := [Mode(800, 600, true, 1, 0), Mode(1920, 1080, false, 2, 0)];
            var saved := SavedMode(Selection(modes, 0, Lowest(Flagged(modes), 0)));
            var s := Select(modes, ReadSetting(saved, modeline), modes[0]);
            saved == "preferred" && s.index == 1 && !SameSize(s.modes[s.index], modes[0])
  {
    var modes := [Mode(800, 600, true, 1, 0), Mode(1920, 1080, false, 2, 0)];
    assert Flagged(modes)[0] && Lowest(Flagged(modes), 0) == 0;
    assert BestFrom(modes, 2) == -1 && BestFrom(modes, 1) == 1 && BestFrom(modes, 0) == 1;
    SaveAndSelectAgainIff(modes, 0, 0, modeline, modes[0]);
  }

  // ----- CRTCs and layout -----

  /** Whether the kernel tells an encoder, and then a CRTC, for the connector. */
  datatype CrtcQuery = NoEncoder | NoCrtc | Running(mode: Mode)

  /** `encoders`: for each encoder that can be read, the indices of its possible CRTCs. */
  datatype Connector = Connector(encoders: seq<Option<set<nat>>>, setting: Setting,
                                 connected: bool, modes: seq<Mode>, query: CrtcQuery)

  /** Some encoder of the connector can drive CRTC number j. */
  ghost predicate Possible(c: Connector, j: nat) {
    exists i :: 0 <= i < |c.encoders| && c.encoders[i].Some? && j in c.encoders[i].value
  }

  ghost function Drives(crtcs: seq<nat>, c: Connector): set<nat> {
    set j: nat | j < |crtcs| && Possible(c, j) :: crtcs[j]
  }

  method CrtcForConnector(crtcs: seq<nat>, taken: set<nat>, c: Connector) returns (found: Option<nat>)
    ensures found.Some? ==> found.value < |crtcs| && crtcs[found.value] in Drives(crtcs, c) - taken
    ensures found.None? ==> Drives(crtcs, c) <= taken
    // the first free CRTC of the first encoder that lists one, or none if every one they list is taken
    ensures found.Some? ==>
              && crtcs[found.value] !in taken
              && (exists i ::
                    && 0 <= i < |c.encoders| && c.encoders[i].Some? && found.value in c.encoders[i].value
                    && (forall l :: 0 <= l < found.value && l in c.encoders[i].value ==> crtcs[l] in taken)
                    && (forall k, l :: 0 <= k < i && c.encoders[k].Some? && 0 <= l < |crtcs| && l in c.encoders[k].value ==>
                          crtcs[l] in taken))
    ensures found.None? ==>
              forall i, j :: 0 <= i < |c.encoders| && c.encoders[i].Some? && 0 <= j < |crtcs| && j in c.encoders[i].value ==>
                crtcs[j] in taken
  {
    for i := 0 to |c.encoders|
      invariant forall k, j :: 0 <= k < i && c.encoders[k].Some? && 0 <= j < |crtcs| && j in c.encoders[k].value ==>
                  crtcs[j] in taken
    {
      if c.encoders[i].None? {
        continue;
      }
      for j := 0 to |crtcs|
        invariant forall l :: 0 <= l < j && l in c.encoders[i].value ==> crtcs[l] in taken
      {
        var isPossible := j in c.encoders[i].value;
        var isAvailable := crtcs[j] !in taken;
        if isPossible && isAvailable {
          assert Possible(c, j);
          return Some(j);
        }
      }
    }
    return None;
  }

  const ZERO_MODE := Mode(0, 0, false, 0, 0)

  function CrtcMode(c: Connector): Mode {
    if c.query.Running? then c.query.mode else ZERO_MODE
  }

  function Chosen(c: Connector): Selection {
    Select(c.modes, c.setting, CrtcMode(c))
  }

  /** The width of the mode the connector's screen will run, if it gets one. */
  function ChosenWidth(c: Connector): nat {
    var s := Chosen(c);
    if 0 <= s.index < |s.modes| then s.modes[s.index].hdisplay else 0
  }

  /** The reasons, other than a missing CRTC, for which a connector gets no screen. */
  predicate Unwanted(c: Connector) {
    var configuration := c.setting.configuration;
    || configuration.Off?
    || (configuration.Preferred? && !c.connected)
    || c.query.NoCrtc?
    || Chosen(c).index < 0
  }

  /** A connector is not wanted for four reasons: told off, told nothing and unplugged, its CRTC unreadable, or no mode at all. */
  lemma UnwantedIff(c: Connector)
    ensures Unwanted(c) <==>
              || c.setting.configuration == Off
              || (c.setting.configuration == Preferred && !c.connected)
              || c.query == NoCrtc
              || (c.modes == [] && !c.setting.configuration.Modeline?
                  && !(c.query.Running? && c.query.mode.clock > 0 && c.setting.length > 0))
  {
  }

  /** A screen for this connector may be as wide as this. */
  ghost predicate WidthAskedFor(c: Connector, width: nat) {
    exists m :: AskedFor(c.modes, c.setting.configuration, CrtcMode(c), m) && m.hdisplay == width
  }

  lemma ChosenWidthAskedFor(c: Connector)
    requires Sane(c) && !Unwanted(c)
    ensures WidthAskedFor(c, ChosenWidth(c))
  {
    SelectedInRangeIff(c.modes, c.setting, CrtcMode(c));
    SelectedIsAskedFor(c.modes, c.setting, CrtcMode(c));
    var s := Chosen(c);
    assert AskedFor(c.modes, c.setting.configuration, CrtcMode(c), s.modes[s.index]);
  }

  ghost function CandidateOf(crtcs: seq<nat>, c: Option<Connector>): Candidate {
    if c.None? then Unreadable else Candidate(Drives(crtcs, c.value), !Unwanted(c.value), ChosenWidth(c.value))
  }

  ghost function Candidates(crtcs: seq<nat>, cs: seq<Option<Connector>>): seq<Candidate> {
    seq(|cs|, i requires 0 <= i < |cs| => CandidateOf(crtcs, cs[i]))
  }

  /** The screen is as wide as the mode its connector is configured for, on a CRTC that one of its encoders lists. */
  ghost predicate Suits(crtcs: seq<nat>, c: Connector, s: Screen) {
    && WidthAskedFor(c, s.width)
    && exists i, j :: 0 <= i < |c.encoders| && c.encoders[i].Some? && 0 <= j < |crtcs| && j in c.encoders[i].value && crtcs[j] == s.crtc
  }

  ghost predicate AllSuit(crtcs: seq<nat>, connectors: seq<Option<Connector>>, screens: seq<Screen>) {
    forall s :: s in screens ==>
      s.connector < |connectors| && connectors[s.connector].Some? && Suits(crtcs, connectors[s.connector].value, s)
  }

  predicate Sane(c: Connector) {
    !LengthMixup(c.modes, c.setting, CrtcMode(c))
  }

  class EglFSKmsDevice {
    const crtcs: seq<nat>
    var taken: set<nat>  // m_crtc_allocator, the bits as a set

    constructor (crtcs: seq<nat>)
      ensures this.crtcs == crtcs && taken == {}
    {
      this.crtcs, taken := crtcs, {};
    }

    /** `invalid`: the mode list is indexed out of its range. */
    method ScreenForConnector(n: nat, c: Connector, x: int) returns (screen: Option<Screen>, invalid: bool)
      modifies this
      ensures invalid <==> !Sane(c) && GrantsAny(CandidateOf(crtcs, Some(c)), old(taken))
      ensures invalid ==> screen.None? && taken == old(taken)
      ensures !invalid ==> Step(CandidateOf(crtcs, Some(c)), n, x, old(taken), screen, taken)
      ensures screen.Some? ==> Suits(crtcs, c, screen.value)
    {
      invalid := false;
      var crtc := CrtcForConnector(crtcs, taken, c);
      if crtc.None? {
        return None, false;
      }
      assert crtcs[crtc.value] in Drives(crtcs, c) && crtcs[crtc.value] !in taken;
      assert !Unwanted(c) ==> Grants(CandidateOf(crtcs, Some(c)), taken, crtcs[crtc.value]);
      var configuration := c.setting.configuration;
      if configuration.Off? {
        return None, false;
      }
      if configuration.Preferred? && !c.connected {
        return None, false;
      }
      if c.query.NoCrtc? {
        return None, false;
      }
      var selection := SelectMode(c.modes, c.setting, CrtcMode(c));
      if selection.index < 0 {
        return None, false;
      }
      SelectedInRangeIff(c.modes, c.setting, CrtcMode(c));
      if selection.index >= |selection.modes| {
        return None, true;
      }
      ChosenWidthAskedFor(c);
      taken := taken + {crtcs[crtc.value]};
      return Some(Screen(n, crtcs[crtc.value], x, selection.modes[selection.index].hdisplay)), false;
    }

    /**
     One pass over the connectors that can be read.  `served`: how many were
     dealt with before a mode list was indexed out of its range, if one was.
     */
    method CreateScreens(connectors: seq<Option<Connector>>) returns (screens: seq<Screen>, served: nat)
      requires taken == {}
      modifies this
      ensures served <= |connectors|
      ensures LaidOut(Candidates(crtcs, connectors), screens, served, taken, WidthSum(screens))
      ensures AllSuit(crtcs, connectors, screens)
      ensures served < |connectors| ==>
                && connectors[served].Some? && !Sane(connectors[served].value)
                && GrantsAny(Candidates(crtcs, connectors)[served], taken)
    {
      screens := [];
      var x := 0;
      ghost var cs, turns := Candidates(crtcs, connectors), Start;
      for n := 0 to |connectors|
        invariant Served(cs, n, turns, screens, taken, x)
        invariant AllSuit(crtcs, connectors, screens)
      {
        ghost var before := taken;
        var screen, invalid := None, false;
        if connectors[n].Some? {
          screen, invalid := ScreenForConnector(n, connectors[n].value, x);
        }
        if invalid {
          ServedIsLaidOut(cs, n, turns, screens, taken, x);
          return screens, n;
        }
        TurnTaken(cs, n, turns, screens, before, x, screen, taken);
        turns := After(turns, screens, before, x, screen);
        if screen.Some? {
          screens := screens + [screen.value];
          x := x + screen.value.width;
        }
      }
      ServedIsLaidOut(cs, |connectors|, turns, screens, taken, x);
      served := |connectors|;
    }
  }
}
