/**
 * The tray tool (`GlassMenuPro`): a set of pinned windows kept in the
 * top-most band, one alpha for every visible titled window, and a settings
 * file holding the alpha, the monitor flag and the pinned handles.
 */
module GlassMenuReboot {
  import opened Wrappers
  import opened Win32
  import opened Transparency
  import GlassMenuFull

  const DEFAULT_ALPHA: Byte := 200

  /** The keys of the settings file; a key the file lacks is `None`. */
  datatype Settings = Settings(alpha: Option<Byte>, monitor: Option<bool>, pinned: Option<seq<Handle>>)

  /** What the tool keeps in memory between operations. */
  datatype ProState = ProState(pinned: set<Handle>, alpha: Byte, monitor: bool)

  /** Python's `a if a is not None else fallback`: only a missing value falls back. */
  function AlphaIfNone(a: Option<Byte>, fallback: Byte): Byte {
    a.GetOr(fallback)
  }

  /**
   * The two tools default an alpha differently: they disagree exactly on
   * an explicit alpha of 0, which the full tool treats as missing.
   */
  lemma DefaultingRules(a: Option<Byte>, fallback: Byte)
    ensures GlassMenuFull.AlphaOr(a, fallback) != AlphaIfNone(a, fallback) <==> a == Some(0) && fallback != 0
    ensures a.None? ==> GlassMenuFull.AlphaOr(a, fallback) == fallback == AlphaIfNone(a, fallback)
  {
  }

  /** The state the tool starts in, read from the settings file (`None` when there is none or it is unreadable). */
  function Loaded(file: Option<Settings>): (r: ProState)
    ensures file.None? ==> r == ProState({}, DEFAULT_ALPHA, true)
    ensures file.Some? && file.value.pinned.Some? ==> forall h :: h in r.pinned <==> h in file.value.pinned.value
  {
    var s := file.GetOr(Settings(None, None, None));
    ProState((set h | h in s.pinned.GetOr([])), s.alpha.GetOr(DEFAULT_ALPHA), s.monitor.GetOr(true))
  }

  /** The file `save_settings` writes for a state, with the pinned set listed as `xs`. */
  function Stored(st: ProState, xs: seq<Handle>): Settings {
    Settings(Some(st.alpha), Some(st.monitor), Some(xs))
  }

  /** Saving and loading again gives back the same state, whatever order the pinned set was listed in. */
  lemma LoadStored(st: ProState, xs: seq<Handle>)
    requires forall h :: h in xs <==> h in st.pinned
    ensures Loaded(Some(Stored(st, xs))) == st
  {
    var p := Loaded(Some(Stored(st, xs))).pinned;
    forall h
      ensures h in p <==> h in st.pinned
    {
    }
    assert p == st.pinned;
  }

  /** `list(s)`: the elements of a set, each once, in some order. */
  method ToList(s: set<Handle>) returns (xs: seq<Handle>)
    ensures forall h :: h in xs <==> h in s
    ensures forall i, j :: 0 <= i < j < |xs| ==> xs[i] != xs[j]
  {
    xs := [];
    var rest := s;
    while rest != {}
      invariant rest <= s
      invariant forall h :: h in xs <==> h in s && h !in rest
      invariant forall i, j :: 0 <= i < j < |xs| ==> xs[i] != xs[j]
      decreases |rest|
    {
      assert exists h :: h in rest by {
        if forall h :: h !in rest {
          assert false;
        }
      }
      var h :| h in rest;
      xs := xs + [h];
      rest := rest - {h};
    }
  }

  /** The window table together with the pinned set. */
  datatype PinState = PinState(table: Table, pinned: set<Handle>)

  /**
   * One `toggle_pin`: a pinned window leaves the top-most band and the
   * set, any other window joins both. `SetWindowPos` raises on a handle
   * that is not a window, before anything else is done.
   */
  function TogglePinStep(s: PinState, h: Handle): PinState {
    if !IsWindow(s.table, h) then s
    else if h in s.pinned then PinState(s.table[h := s.table[h].(topmost := false)], s.pinned - {h})
    else PinState(s.table[h := s.table[h].(topmost := true)], s.pinned + {h})
  }

  /** Every pinned window is in the top-most band. */
  predicate PinsOnTop(s: PinState) {
    forall h :: h in s.pinned && IsWindow(s.table, h) ==> s.table[h].topmost
  }

  /**
   * A toggle flips the membership of the window, puts its band in line
   * with it, touches no other window, and keeps every pinned window on top.
   */
  lemma TogglePinEffect(s: PinState, h: Handle)
    requires IsWindow(s.table, h)
    ensures var r := TogglePinStep(s, h);
      (h in r.pinned <==> h !in s.pinned)
      && r.pinned - {h} == s.pinned - {h}
      && r.table.Keys == s.table.Keys
      && r.table[h].topmost == (h in r.pinned)
      && r.table[h].(topmost := s.table[h].topmost) == s.table[h]
      && (forall g :: g in s.table && g != h ==> r.table[g] == s.table[g])
    ensures PinsOnTop(s) ==> PinsOnTop(TogglePinStep(s, h))
  {
  }

  /**
   * Toggling twice gives back the state exactly when the window's band
   * already agreed with its membership: a window some other program made
   * top-most, pinned and unpinned again, ends up out of the top-most band.
   */
  lemma ToggleTwice(s: PinState, h: Handle)
    ensures TogglePinStep(TogglePinStep(s, h), h).pinned == s.pinned
    ensures TogglePinStep(TogglePinStep(s, h), h) == s
            <==> !IsWindow(s.table, h) || s.table[h].topmost == (h in s.pinned)
  {
    var r := TogglePinStep(TogglePinStep(s, h), h);
    if IsWindow(s.table, h) {
      if s.table[h].topmost == (h in s.pinned) {
        assert r.table == s.table;
        assert r.pinned == s.pinned;
      } else {
        assert r.table[h].topmost != s.table[h].topmost;
      }
    }
  }

  /** A window moved to the top-most band if `pin` says so. */
  function Raise(w: Window, pin: bool): Window {
    if pin then w.(topmost := true) else w
  }

  /**
   * The table after `apply_all` at alpha `a` over the handles `s`: each
   * gets the reboot tool's applier, and each pinned window among them is
   * moved to the top-most band again.
   */
  function AppliedPinned(t: Table, s: set<Handle>, pinned: set<Handle>, a: Byte): Table {
    map h | h in t ::
      if h in s then Raise(if Accepts(Reboot, t, h) then Layer(t[h], a) else t[h], h in pinned && IsWindow(t, h))
      else t[h]
  }

  /**
   * The bulk apply is the plain applier plus the band: with nothing pinned
   * it is exactly `Applied`; otherwise it differs from it only in the band
   * of the pinned windows it walked, which end up top-most.
   */
  lemma {:induction false} AppliedPinnedSplits(t: Table, s: set<Handle>, pinned: set<Handle>, a: Byte)
    ensures AppliedPinned(t, s, {}, a) == Applied(Reboot, t, s, a)
    ensures var r := AppliedPinned(t, s, pinned, a);
      var plain := Applied(Reboot, t, s, a);
      r.Keys == plain.Keys
      && forall h :: h in r ==>
        r[h].(topmost := plain[h].topmost) == plain[h]
        && r[h].topmost == (plain[h].topmost || (h in s && h in pinned && IsWindow(t, h)))
  {
    var plain := Applied(Reboot, t, s, a);
    var r0 := AppliedPinned(t, s, {}, a);
    forall h | h in t
      ensures r0[h] == plain[h]
    {
    }
    assert r0 == plain;
    var r := AppliedPinned(t, s, pinned, a);
    forall h | h in r
      ensures r[h].(topmost := plain[h].topmost) == plain[h]
      ensures r[h].topmost == (plain[h].topmost || (h in s && h in pinned && IsWindow(t, h)))
    {
      var l := if Accepts(Reboot, t, h) then Layer(t[h], a) else t[h];
      if h in s {
        assert plain[h] == l;
        assert r[h] == Raise(l, h in pinned && IsWindow(t, h));
      }
    }
  }

  /** The pinned windows a bulk apply walked are top-most afterwards, so the bulk apply re-establishes `PinsOnTop` for them. */
  lemma AppliedPinnedOnTop(t: Table, s: set<Handle>, pinned: set<Handle>, a: Byte)
    requires forall h :: h in pinned && IsWindow(t, h) ==> h in s || t[h].topmost
    ensures PinsOnTop(PinState(AppliedPinned(t, s, pinned, a), pinned))
  {
    var r := AppliedPinned(t, s, pinned, a);
    forall h | h in pinned && IsWindow(r, h)
      ensures r[h].topmost
    {
      assert IsWindow(t, h);
    }
  }

  /** A second bulk apply over the same handles, pins and alpha changes nothing. */
  lemma AppliedPinnedIdempotent(t: Table, s: set<Handle>, pinned: set<Handle>, a: Byte)
    ensures var once := AppliedPinned(t, s, pinned, a);
      AppliedPinned(once, s, pinned, a) == once
  {
    var once := AppliedPinned(t, s, pinned, a);
    var twice := AppliedPinned(once, s, pinned, a);
    AppliedPinnedKeepsGuards(t, s, pinned, a);
    assert twice.Keys == once.Keys;
    forall h | h in once
      ensures twice[h] == once[h]
    {
      GuardsDecide(Reboot, t, once, h);
      if h in s {
        var pin := h in pinned && IsWindow(t, h);
        if Accepts(Reboot, t, h) {
          RaisedLayerSettled(t[h], a, pin);
          assert once[h] == Raise(Layer(t[h], a), pin);
          assert twice[h] == Raise(Layer(once[h], a), pin);
        } else {
          assert once[h] == Raise(t[h], pin);
          assert twice[h] == Raise(once[h], pin);
        }
      }
    }
  }

  /** A layered, possibly raised window is settled: layering and raising it again changes nothing. */
  lemma RaisedLayerSettled(w: Window, a: Byte, pin: bool)
    ensures Raise(Layer(Raise(Layer(w, a), pin), a), pin) == Raise(Layer(w, a), pin)
  {
  }

  /** The bulk apply reads and changes nothing the guards depend on. */
  lemma AppliedPinnedKeepsGuards(t: Table, s: set<Handle>, pinned: set<Handle>, a: Byte)
    ensures AppliedPinned(t, s, pinned, a).Keys == t.Keys
    ensures forall h :: h in t ==> SameGuards(t[h], AppliedPinned(t, s, pinned, a)[h])
  {
    var r := AppliedPinned(t, s, pinned, a);
    forall h | h in t
      ensures SameGuards(t[h], r[h])
    {
      var w := t[h];
      var l := if Accepts(Reboot, t, h) then Layer(w, a) else w;
      assert SameGuards(w, l);
      assert SameGuards(l, Raise(l, h in pinned && IsWindow(t, h)));
    }
  }

  /**
   * One step of `apply_all`: the visible titled handle `h` after the
   * handles `done`. The applier and, for a pinned window, the move to the
   * top-most band extend the set of handles walked by `h`.
   */
  lemma ApplyAllStep(t0: Table, done: set<Handle>, pinned: set<Handle>, h: Handle, a: Byte)
    requires IsWindowVisible(t0, h)
    ensures var t := AppliedPinned(t0, done, pinned, a);
      IsWindowVisible(t, h) && GetWindowText(t, h) == GetWindowText(t0, h)
    ensures var t1 := AfterSet(Reboot, AppliedPinned(t0, done, pinned, a), h, a);
      IsWindow(t1, h)
      && (if h in pinned then t1[h := t1[h].(topmost := true)] else t1) == AppliedPinned(t0, done + {h}, pinned, a)
  {
    var t := AppliedPinned(t0, done, pinned, a);
    AppliedPinnedKeepsGuards(t0, done, pinned, a);
    GuardsDecide(Reboot, t0, t, h);
    var t1 := AfterSet(Reboot, t, h, a);
    var t2 := if h in pinned then t1[h := t1[h].(topmost := true)] else t1;
    var goal := AppliedPinned(t0, done + {h}, pinned, a);
    assert t2.Keys == goal.Keys;
    forall g | g in t0
      ensures t2[g] == goal[g]
    {
      if g == h && Accepts(Reboot, t0, h) {
        LayerTwice(t0[h], a);
      }
    }
  }

  class GlassMenuPro {
    var pinned: set<Handle>
    var alpha: Byte
    var monitor: bool
    /** The content of the settings file. */
    var file: Option<Settings>

    function State(): ProState
      reads this
    {
      ProState(pinned, alpha, monitor)
    }

    /** Start-up: the state is read from the settings file. */
    constructor (file: Option<Settings>)
      ensures State() == Loaded(file)
      ensures this.file == file
    {
      var st := Loaded(file);
      pinned := st.pinned;
      alpha := st.alpha;
      monitor := st.monitor;
      this.file := file;
    }

    /** Writes the alpha, the monitor flag and the pinned handles; reading the file back gives the same state. */
    method SaveSettings()
      modifies this`file
      ensures file.Some? && Loaded(file) == State()
      ensures file.Some? && file.value.alpha == Some(alpha) && file.value.monitor == Some(monitor)
      ensures file.Some? && file.value.pinned.Some?
      ensures forall h :: h in file.value.pinned.value <==> h in pinned
    {
      var xs := ToList(pinned);
      file := Some(Stored(State(), xs));
      LoadStored(State(), xs);
    }

    /** The reboot tool's applier: any visible window, with no title or style check. */
    method SetAlpha(desk: Desktop, hwnd: Handle, a: Byte)
      modifies desk`table
      ensures desk.table == AfterSet(Reboot, old(desk.table), hwnd, a)
    {
      if !IsWindow(desk.table, hwnd) || !IsWindowVisible(desk.table, hwnd) {
        return;
      }
      ghost var t0 := desk.table;
      LayerCalls(t0, hwnd, a);
      var style := GetWindowLong(desk.table, hwnd, GWL_EXSTYLE);
      if style & WS_EX_LAYERED == 0 {
        desk.SetWindowLong(hwnd, GWL_EXSTYLE, style | WS_EX_LAYERED);
      }
      // a refusal raises; the handler swallows it
      var _ := desk.SetLayeredWindowAttributes(hwnd, 0, a, LWA_ALPHA);
    }

    /**
     * Pins or unpins a window and saves the settings. When the handle is
     * not a window, `SetWindowPos` raises and nothing changes (`ok` false).
     */
    method TogglePin(desk: Desktop, hwnd: Handle) returns (ok: bool)
      modifies this`pinned, this`file, desk`table
      ensures ok == IsWindow(old(desk.table), hwnd)
      ensures PinState(desk.table, pinned) == TogglePinStep(PinState(old(desk.table), old(pinned)), hwnd)
      ensures ok ==> file.Some? && Loaded(file) == State()
      ensures !ok ==> file == old(file)
    {
      if hwnd in pinned {
        ok := desk.SetWindowPos(hwnd, HWND_NOTOPMOST, 0, 0, 0, 0, SWP_NOMOVE | SWP_NOSIZE);
        if !ok {
          return;
        }
        PlacedKeepsGeometry(old(desk.table)[hwnd], HWND_NOTOPMOST);
        pinned := pinned - {hwnd};
      } else {
        ok := desk.SetWindowPos(hwnd, HWND_TOPMOST, 0, 0, 0, 0, SWP_NOMOVE | SWP_NOSIZE);
        if !ok {
          return;
        }
        PlacedKeepsGeometry(old(desk.table)[hwnd], HWND_TOPMOST);
        pinned := pinned + {hwnd};
      }
      SaveSettings();
    }

    /**
     * Applies `a` (the stored alpha when none is given) to every visible
     * titled window, and moves every pinned one among them to the
     * top-most band again.
     */
    method ApplyAll(desk: Desktop, a: Option<Byte> := None)
      modifies desk`table
      ensures desk.table == AppliedPinned(old(desk.table), Titled(old(desk.table), desk.order, []).Keys,
                                          pinned, AlphaIfNone(a, alpha))
    {
      var x := AlphaIfNone(a, alpha);
      var order := desk.order;
      ghost var t0 := desk.table;
      var i := 0;
      while i < |order|
        invariant 0 <= i <= |order|
        invariant desk.table == AppliedPinned(t0, Titled(t0, order[..i], []).Keys, pinned, x)
      {
        var hwnd := order[i];
        assert order[..i + 1] == order[..i] + [hwnd];
        TitledExtend(t0, order[..i], hwnd, []);
        ghost var done := Titled(t0, order[..i], []).Keys;
        AppliedPinnedKeepsGuards(t0, done, pinned, x);
        GuardsDecide(Reboot, t0, desk.table, hwnd);
        if IsWindowVisible(desk.table, hwnd) && GetWindowText(desk.table, hwnd) != "" {
          ApplyAllStep(t0, done, pinned, hwnd, x);
          assert Titled(t0, order[..i + 1], []).Keys == done + {hwnd};
          SetAlpha(desk, hwnd, x);
          if hwnd in pinned {
            PlacedKeepsGeometry(desk.table[hwnd], HWND_TOPMOST);
            var _ := desk.SetWindowPos(hwnd, HWND_TOPMOST, 0, 0, 0, 0, SWP_NOMOVE | SWP_NOSIZE);
          }
        }
        i := i + 1;
      }
      assert order[..i] == order;
    }

    /** The visible titled windows, each with its title. */
    method EnumWindows(desk: Desktop) returns (wins: map<Handle, string>)
      ensures forall h :: h in wins <==> h in desk.order && IsWindowVisible(desk.table, h) && GetWindowText(desk.table, h) != ""
      ensures forall h :: h in wins ==> wins[h] == GetWindowText(desk.table, h)
    {
      var order := desk.order;
      wins := map[];
      var i := 0;
      while i < |order|
        invariant 0 <= i <= |order|
        invariant wins == Titled(desk.table, order[..i], [])
      {
        var hwnd := order[i];
        assert order[..i + 1] == order[..i] + [hwnd];
        TitledExtend(desk.table, order[..i], hwnd, []);
        if IsWindowVisible(desk.table, hwnd) {
          var title := GetWindowText(desk.table, hwnd);
          if title != "" {
            wins := wins[hwnd := title];
          }
        }
        i := i + 1;
      }
      assert order[..i] == order;
    }
  }
}
