/**
 * The full tool (`GlassMenuLite`): a transparency applier with an
 * exclusion list, a registry `windows` of the windows it has seen, a bulk
 * "apply to all", a rebuild of the registry, and a monitor that, tick by
 * tick, queues the visible titled windows it has not seen before and
 * makes them translucent at the default alpha.
 */
module GlassMenuFull {
  import opened Wrappers
  import opened Win32
  import opened Transparency
  import ExclusionList

  const DEFAULT_ALPHA: Byte := 200
  const DEFAULT_EXCLUDED: seq<string> := ["Program Manager", "Task Switching", "Windows Shell Experience Host"]

  /** The keys of the settings file; a key the file lacks is `None`. */
  datatype Settings = Settings(defaultAlpha: Option<Byte>, excluded: Option<seq<string>>, monitorNew: Option<bool>)

  /** The settings the tool keeps in memory. */
  datatype LiteState = LiteState(defaultAlpha: Byte, excluded: seq<string>, monitorNew: bool)

  /** The settings read from the settings file (`None` when there is no file). */
  function Loaded(file: Option<Settings>): (r: LiteState)
    ensures file.None? ==> r == LiteState(DEFAULT_ALPHA, DEFAULT_EXCLUDED, true)
  {
    var s := file.GetOr(Settings(None, None, None));
    LiteState(s.defaultAlpha.GetOr(DEFAULT_ALPHA), s.excluded.GetOr(DEFAULT_EXCLUDED), s.monitorNew.GetOr(true))
  }

  /** The file `save_settings` writes: every key present. */
  function Saved(st: LiteState): (r: Settings)
    ensures r.defaultAlpha.Some? && r.excluded.Some? && r.monitorNew.Some?
  {
    Settings(Some(st.defaultAlpha), Some(st.excluded), Some(st.monitorNew))
  }

  /** Saving and starting again gives back the same settings. */
  lemma LoadSaved(st: LiteState)
    ensures Loaded(Some(Saved(st))) == st
  {
  }

  /** Python's `alpha or fallback`: None and 0 are both falsy. */
  function AlphaOr(alpha: Option<Byte>, fallback: Byte): Byte {
    if alpha.Some? && alpha.value != 0 then alpha.value else fallback
  }

  /**
   * The (handle, title) pairs one monitor tick queues while it walks the
   * enumeration `hs`: a visible titled handle seen for the first time in
   * this walk, not known from the previous tick, whose title is not excluded.
   */
  function Arrivals(t: Table, hs: seq<Handle>, known: set<Handle>, excluded: seq<string>): seq<(Handle, string)>
    decreases |hs|
  {
    if hs == [] then []
    else
      var p := hs[..|hs| - 1];
      var h := hs[|hs| - 1];
      var title := GetWindowText(t, h);
      if IsWindowVisible(t, h) && title != "" && h !in Titled(t, p, []) && h !in known && title !in excluded
      then Arrivals(t, p, known, excluded) + [(h, title)]
      else Arrivals(t, p, known, excluded)
  }

  /** The registry entries that recording the queued pairs in order produces. */
  function QueueMap(q: seq<(Handle, string)>): map<Handle, string> {
    if q == [] then map[] else QueueMap(q[..|q| - 1])[q[|q| - 1].0 := q[|q| - 1].1]
  }

  /** Every pair of `q` is an entry of `titled` whose handle is not known. */
  predicate NewEntries(q: seq<(Handle, string)>, titled: map<Handle, string>, known: set<Handle>) {
    forall i :: 0 <= i < |q| ==> q[i].0 in titled && titled[q[i].0] == q[i].1 && q[i].0 !in known
  }

  /** Every queued pair is a visible titled handle of the walk, not known, not excluded, with its title. */
  lemma {:induction false} ArrivalsSound(t: Table, hs: seq<Handle>, known: set<Handle>, excluded: seq<string>)
    ensures NewEntries(Arrivals(t, hs, known, excluded), Titled(t, hs, excluded), known)
    decreases |hs|
  {
    if hs != [] {
      var p := hs[..|hs| - 1];
      var h := hs[|hs| - 1];
      assert hs == p + [h];
      ArrivalsSound(t, p, known, excluded);
      TitledExtend(t, p, h, excluded);
      var q0 := Arrivals(t, p, known, excluded);
      var q := Arrivals(t, hs, known, excluded);
      var title := GetWindowText(t, h);
      if IsWindowVisible(t, h) && title != "" && h !in Titled(t, p, []) && h !in known && title !in excluded {
        assert q == q0 + [(h, title)];
        assert h in Titled(t, hs, excluded);
      } else {
        assert q == q0;
      }
      var titled := Titled(t, hs, excluded);
      forall i | 0 <= i < |q|
        ensures q[i].0 in titled && titled[q[i].0] == q[i].1 && q[i].0 !in known
      {
        if i < |q0| {
          assert q[i] == q0[i];
          assert q0[i].0 in Titled(t, p, excluded);
        }
      }
    }
  }

  /** No handle occurs twice in `q`. */
  predicate DistinctHandles(q: seq<(Handle, string)>) {
    forall i, j :: 0 <= i < j < |q| ==> q[i].0 != q[j].0
  }

  /** No handle is queued twice in one tick. */
  lemma {:induction false} ArrivalsDistinct(t: Table, hs: seq<Handle>, known: set<Handle>, excluded: seq<string>)
    ensures DistinctHandles(Arrivals(t, hs, known, excluded))
    decreases |hs|
  {
    if hs != [] {
      var p := hs[..|hs| - 1];
      var h := hs[|hs| - 1];
      var q0 := Arrivals(t, p, known, excluded);
      var q := Arrivals(t, hs, known, excluded);
      ArrivalsDistinct(t, p, known, excluded);
      ArrivalsSound(t, p, known, excluded);
      if q != q0 {
        assert q == q0 + [(h, GetWindowText(t, h))];
        assert h !in Titled(t, p, []);
        forall i, j | 0 <= i < j < |q|
          ensures q[i].0 != q[j].0
        {
          assert q[i] == q0[i];
          assert q0[i].0 in Titled(t, p, excluded);
          if j < |q0| {
            assert q[j] == q0[j];
          }
        }
      }
    }
  }

  /**
   * Recording the queue of one tick adds exactly the new windows: the
   * visible titled handles of the walk that were not known and whose
   * title is not excluded, each with its title.
   */
  lemma {:induction false} ArrivalsExact(t: Table, hs: seq<Handle>, known: set<Handle>, excluded: seq<string>)
    ensures QueueMap(Arrivals(t, hs, known, excluded)) == Titled(t, hs, excluded) - known
    decreases |hs|
  {
    if hs != [] {
      var p := hs[..|hs| - 1];
      var h := hs[|hs| - 1];
      assert hs == p + [h];
      var title := GetWindowText(t, h);
      ArrivalsExact(t, p, known, excluded);
      TitledExtend(t, p, h, excluded);
      var q0 := Arrivals(t, p, known, excluded);
      var q := Arrivals(t, hs, known, excluded);
      if IsWindowVisible(t, h) && title != "" && h !in Titled(t, p, []) && h !in known && title !in excluded {
        assert q[..|q| - 1] == q0;
      } else if IsWindowVisible(t, h) && title != "" && h !in known && title !in excluded {
        assert h in p;
        assert Titled(t, hs, excluded) == Titled(t, p, excluded);
      }
    }
  }

  /** On a desktop whose visible titled windows are all known, a tick queues nothing. */
  lemma {:induction false} NothingNewWhenAllKnown(t: Table, hs: seq<Handle>, known: set<Handle>, excluded: seq<string>)
    requires Titled(t, hs, []).Keys <= known
    ensures Arrivals(t, hs, known, excluded) == []
    decreases |hs|
  {
    if hs != [] {
      var p := hs[..|hs| - 1];
      TitledExtend(t, p, hs[|hs| - 1], []);
      assert hs == p + [hs[|hs| - 1]];
      NothingNewWhenAllKnown(t, p, known, excluded);
    }
  }

  /**
   * One step of a walk that applies the full tool's applier to each
   * visible, titled, non-excluded handle and records it: handle `h` after
   * the prefix `p`. The guards read the same on the partly applied table,
   * and one more call extends both the record and the applied set.
   */
  lemma ApplyStep(excluded: seq<string>, t0: Table, p: seq<Handle>, h: Handle, a: Byte, m: map<Handle, string>)
    ensures var t := Applied(Full(excluded), t0, Titled(t0, p, excluded).Keys, a);
      IsWindow(t, h) == IsWindow(t0, h)
      && IsWindowVisible(t, h) == IsWindowVisible(t0, h)
      && GetWindowText(t, h) == GetWindowText(t0, h)
    ensures var title := GetWindowText(t0, h);
      var t := Applied(Full(excluded), t0, Titled(t0, p, excluded).Keys, a);
      if IsWindowVisible(t0, h) && title != "" && title !in excluded then
        (m + Titled(t0, p, excluded))[h := title] == m + Titled(t0, p + [h], excluded)
        && AfterSet(Full(excluded), t, h, a) == Applied(Full(excluded), t0, Titled(t0, p + [h], excluded).Keys, a)
      else
        Titled(t0, p + [h], excluded) == Titled(t0, p, excluded)
  {
    var done := Titled(t0, p, excluded).Keys;
    var t := Applied(Full(excluded), t0, done, a);
    TitledExtend(t0, p, h, excluded);
    AppliedKeepsGuards(Full(excluded), t0, done, a);
    GuardsDecide(Full(excluded), t0, t, h);
    AppliedExtend(Full(excluded), t0, done, h, a);
    var title := GetWindowText(t0, h);
    if IsWindowVisible(t0, h) && title != "" && title !in excluded {
      assert Titled(t0, p + [h], excluded).Keys == done + {h};
    }
  }

  /** One step of a tick's scan: handle `h` after the prefix `p`. */
  lemma ScanStep(t: Table, p: seq<Handle>, h: Handle, known: set<Handle>, excluded: seq<string>)
    ensures var title := GetWindowText(t, h);
      Titled(t, p + [h], []).Keys ==
        (if IsWindowVisible(t, h) && title != "" then Titled(t, p, []).Keys + {h} else Titled(t, p, []).Keys)
    ensures var title := GetWindowText(t, h);
      Arrivals(t, p + [h], known, excluded) ==
        if IsWindowVisible(t, h) && title != "" && h !in Titled(t, p, []) && h !in known && title !in excluded
        then Arrivals(t, p, known, excluded) + [(h, title)]
        else Arrivals(t, p, known, excluded)
  {
    TitledExtend(t, p, h, []);
    assert (p + [h])[..|p + [h]| - 1] == p;
  }

  /** The entries of `q` whose handle is still a window, in order. */
  function LiveEntries(t: Table, q: seq<(Handle, string)>): (r: seq<(Handle, string)>)
    ensures |r| <= |q|
  {
    if q == [] then []
    else
      var rest := LiveEntries(t, q[..|q| - 1]);
      if IsWindow(t, q[|q| - 1].0) then rest + [q[|q| - 1]] else rest
  }

  /** When every queued handle is a window, none is dropped. */
  lemma {:induction false} LiveEntriesAll(t: Table, q: seq<(Handle, string)>)
    requires forall i :: 0 <= i < |q| ==> IsWindow(t, q[i].0)
    ensures LiveEntries(t, q) == q
  {
    if q != [] {
      LiveEntriesAll(t, q[..|q| - 1]);
      assert q[..|q| - 1] + [q[|q| - 1]] == q;
    }
  }

  /**
   * One step of draining the queue: the entry `e` after the live entries
   * `s` already drained. The window check reads the same on the partly
   * applied table, and applying to a live entry and recording it extends
   * both by that entry.
   */
  lemma DrainStep(excluded: seq<string>, t0: Table, s: seq<(Handle, string)>, e: (Handle, string), a: Byte, m: map<Handle, string>)
    ensures var t := Applied(Full(excluded), t0, QueueMap(s).Keys, a);
      IsWindow(t, e.0) == IsWindow(t0, e.0)
    ensures var t := Applied(Full(excluded), t0, QueueMap(s).Keys, a);
      IsWindow(t0, e.0) ==>
        (m + QueueMap(s))[e.0 := e.1] == m + QueueMap(s + [e])
        && AfterSet(Full(excluded), t, e.0, a) == Applied(Full(excluded), t0, QueueMap(s + [e]).Keys, a)
  {
    var done := QueueMap(s).Keys;
    var t := Applied(Full(excluded), t0, done, a);
    AppliedKeepsGuards(Full(excluded), t0, done, a);
    GuardsDecide(Full(excluded), t0, t, e.0);
    AppliedExtend(Full(excluded), t0, done, e.0, a);
    assert (s + [e])[..|s|] == s;
    assert QueueMap(s + [e]) == QueueMap(s)[e.0 := e.1];
  }

  class GlassMenuLite {
    var windows: map<Handle, string>
    var defaultAlpha: Byte
    var excluded: seq<string>
    var monitorNew: bool
    var windowQueue: seq<(Handle, string)>
    /** The content of the settings file. */
    var file: Option<Settings>

    function State(): LiteState
      reads this
    {
      LiteState(defaultAlpha, excluded, monitorNew)
    }

    /** The monitor drains its queue before it pauses, so between operations the queue is empty. */
    ghost predicate Valid()
      reads this
    {
      windowQueue == []
    }

    /** Start-up: no windows recorded, an empty queue, the settings read from the file. */
    constructor (file: Option<Settings>)
      ensures Valid() && windows == map[]
      ensures State() == Loaded(file)
      ensures this.file == file
    {
      windows := map[];
      windowQueue := [];
      var st := Loaded(file);
      defaultAlpha := st.defaultAlpha;
      excluded := st.excluded;
      monitorNew := st.monitorNew;
      this.file := file;
    }

    /** Writes the settings; starting again from the file gives back the same settings. */
    method SaveSettings()
      modifies this`file
      ensures file == Some(Saved(State()))
      ensures Loaded(file) == State()
    {
      file := Some(Saved(State()));
      LoadSaved(State());
    }

    /**
     * Makes one window translucent. False, with nothing changed, when the
     * handle is not a visible window, has no title or an excluded one,
     * lacks a system menu, or the window refuses the change.
     */
    method SetWindowTransparency(desk: Desktop, hwnd: Handle, alpha: Byte) returns (ok: bool)
      modifies desk`table
      ensures ok == Accepts(Full(excluded), old(desk.table), hwnd)
      ensures desk.table == AfterSet(Full(excluded), old(desk.table), hwnd, alpha)
    {
      if !IsWindow(desk.table, hwnd) || !IsWindowVisible(desk.table, hwnd) {
        return false;
      }
      var title := GetWindowText(desk.table, hwnd);
      if title == "" || title in excluded {
        return false;
      }
      var style := GetWindowLong(desk.table, hwnd, GWL_STYLE);
      if style & WS_SYSMENU == 0 {
        return false;
      }
      ghost var t0 := desk.table;
      LayerCalls(t0, hwnd, alpha);
      var exStyle := GetWindowLong(desk.table, hwnd, GWL_EXSTYLE);
      if exStyle & WS_EX_LAYERED == 0 {
        desk.SetWindowLong(hwnd, GWL_EXSTYLE, exStyle | WS_EX_LAYERED);
      }
      var applied := desk.SetLayeredWindowAttributes(hwnd, 0, alpha, LWA_ALPHA);
      if !applied {
        // the call raised; the handler swallows it
        return false;
      }
      return true;
    }

    /** Back to opaque: exactly the applier at alpha 255, so the same windows are skipped. */
    method ResetTransparency(desk: Desktop, hwnd: Handle) returns (ok: bool)
      modifies desk`table
      ensures ok == Accepts(Full(excluded), old(desk.table), hwnd)
      ensures desk.table == AfterSet(Full(excluded), old(desk.table), hwnd, 255)
    {
      ok := SetWindowTransparency(desk, hwnd, 255);
    }

    /**
     * Applies `alpha or defaultAlpha` to every enumerated visible, titled,
     * non-excluded window and records each of them in `windows`, whether
     * or not the applier succeeded.
     */
    method ApplyToAllWindows(desk: Desktop, alpha: Option<Byte> := None)
      modifies this`windows, desk`table
      ensures windows == old(windows) + Titled(old(desk.table), desk.order, excluded)
      ensures desk.table == Applied(Full(excluded), old(desk.table),
                                    Titled(old(desk.table), desk.order, excluded).Keys,
                                    AlphaOr(alpha, defaultAlpha))
    {
      var a := AlphaOr(alpha, defaultAlpha);
      ghost var t0 := desk.table;
      var i := 0;
      while i < |desk.order|
        invariant 0 <= i <= |desk.order|
        invariant windows == old(windows) + Titled(t0, desk.order[..i], excluded)
        invariant desk.table == Applied(Full(excluded), t0, Titled(t0, desk.order[..i], excluded).Keys, a)
      {
        var hwnd := desk.order[i];
        assert desk.order[..i + 1] == desk.order[..i] + [hwnd];
        ApplyStep(excluded, t0, desk.order[..i], hwnd, a, old(windows));
        if IsWindowVisible(desk.table, hwnd) {
          var title := GetWindowText(desk.table, hwnd);
          if title != "" && title !in excluded {
            var ok := SetWindowTransparency(desk, hwnd, a);
            windows := windows[hwnd := title];
          }
        }
        i := i + 1;
      }
      assert desk.order[..i] == desk.order;
    }

    /**
     * The start of the monitor thread: the visible titled windows become
     * the known set, then everything is applied at the default alpha.
     */
    method MonitorStart(desk: Desktop) returns (known: set<Handle>)
      modifies this`windows, desk`table
      ensures known == Titled(old(desk.table), desk.order, []).Keys
      ensures windows == old(windows) + Titled(old(desk.table), desk.order, excluded)
      ensures desk.table == Applied(Full(excluded), old(desk.table),
                                    Titled(old(desk.table), desk.order, excluded).Keys, defaultAlpha)
    {
      known := {};
      var i := 0;
      while i < |desk.order|
        invariant 0 <= i <= |desk.order|
        invariant desk.table == old(desk.table) && windows == old(windows)
        invariant known == Titled(desk.table, desk.order[..i], []).Keys
      {
        var hwnd := desk.order[i];
        assert desk.order[..i + 1] == desk.order[..i] + [hwnd];
        TitledExtend(desk.table, desk.order[..i], hwnd, []);
        if IsWindowVisible(desk.table, hwnd) && GetWindowText(desk.table, hwnd) != "" {
          known := known + {hwnd};
        }
        i := i + 1;
      }
      assert desk.order[..i] == desk.order;
      ApplyToAllWindows(desk);
    }

    /**
     * One iteration of the monitor loop, given the previous tick's known
     * set. Returns the new known set: the visible titled windows now.
     * Queues the new, non-excluded ones (ghost `queued`), then drains the
     * queue, applying the default alpha and recording each window.
     */
    method MonitorTick(desk: Desktop, known: set<Handle>) returns (current: set<Handle>, ghost queued: seq<(Handle, string)>)
      requires Valid()
      modifies this`windows, this`windowQueue, desk`table
      ensures Valid()
      ensures current == Titled(old(desk.table), desk.order, []).Keys
      ensures queued == Arrivals(old(desk.table), desk.order, known, excluded)
      ensures windows == old(windows) + (Titled(old(desk.table), desk.order, excluded) - known)
      ensures desk.table == Applied(Full(excluded), old(desk.table),
                                    (Titled(old(desk.table), desk.order, excluded) - known).Keys, defaultAlpha)
    {
      ghost var t0 := desk.table;
      current := CheckWindows(desk, known);
      queued := windowQueue;
      ArrivalsExact(t0, desk.order, known, excluded);
      ArrivalsSound(t0, desk.order, known, excluded);
      forall i | 0 <= i < |queued|
        ensures IsWindow(t0, queued[i].0)
      {
        assert queued[i].0 in Titled(t0, desk.order, excluded);
      }
      LiveEntriesAll(t0, queued);
      DrainQueue(desk);
    }

    /**
     * The scan of one tick (the enumeration callback): the visible titled
     * windows now, and the queue of the new, non-excluded ones.
     */
    method CheckWindows(desk: Desktop, known: set<Handle>) returns (current: set<Handle>)
      requires Valid()
      modifies this`windowQueue
      ensures current == Titled(desk.table, desk.order, []).Keys
      ensures windowQueue == Arrivals(desk.table, desk.order, known, excluded)
    {
      var t, order := desk.table, desk.order;
      current := {};
      var i := 0;
      while i < |order|
        invariant 0 <= i <= |order|
        invariant current == Titled(t, order[..i], []).Keys
        invariant windowQueue == Arrivals(t, order[..i], known, excluded)
      {
        var hwnd := order[i];
        assert order[..i + 1] == order[..i] + [hwnd];
        ScanStep(t, order[..i], hwnd, known, excluded);
        if IsWindowVisible(t, hwnd) {
          var title := GetWindowText(t, hwnd);
          if title != "" && hwnd !in current {
            current := current + {hwnd};
            if hwnd !in known && title !in excluded {
              windowQueue := windowQueue + [(hwnd, title)];
            }
          }
        }
        i := i + 1;
      }
      assert order[..i] == order;
    }

    /**
     * Drains the queue: each queued handle that is still a window gets the
     * default alpha and is recorded under its queued title.
     */
    method DrainQueue(desk: Desktop)
      modifies this`windows, this`windowQueue, desk`table
      ensures Valid()
      ensures windows == old(windows) + QueueMap(LiveEntries(old(desk.table), old(windowQueue)))
      ensures desk.table == Applied(Full(excluded), old(desk.table),
                                    QueueMap(LiveEntries(old(desk.table), old(windowQueue))).Keys, defaultAlpha)
    {
      ghost var t0 := desk.table;
      ghost var q := windowQueue;
      ghost var k := 0;
      while windowQueue != []
        invariant 0 <= k <= |q| && windowQueue == q[k..]
        invariant windows == old(windows) + QueueMap(LiveEntries(t0, q[..k]))
        invariant desk.table == Applied(Full(excluded), t0, QueueMap(LiveEntries(t0, q[..k])).Keys, defaultAlpha)
        decreases |windowQueue|
      {
        var hwnd, title := windowQueue[0].0, windowQueue[0].1;
        assert q[..k + 1] == q[..k] + [(hwnd, title)];
        DrainStep(excluded, t0, LiveEntries(t0, q[..k]), (hwnd, title), defaultAlpha, old(windows));
        windowQueue := windowQueue[1..];
        if IsWindow(desk.table, hwnd) {
          var ok := SetWindowTransparency(desk, hwnd, defaultAlpha);
          windows := windows[hwnd := title];
        }
        k := k + 1;
      }
      assert q[..k] == q;
    }

    /** Rebuilds the registry: exactly the visible, titled, non-excluded windows, each with its title. */
    method UpdateWindowsList(desk: Desktop)
      modifies this`windows
      ensures windows == Titled(desk.table, desk.order, excluded)
    {
      var newWindows := map[];
      var i := 0;
      while i < |desk.order|
        invariant 0 <= i <= |desk.order|
        invariant newWindows == Titled(desk.table, desk.order[..i], excluded)
      {
        var hwnd := desk.order[i];
        assert desk.order[..i + 1] == desk.order[..i] + [hwnd];
        TitledExtend(desk.table, desk.order[..i], hwnd, excluded);
        if IsWindowVisible(desk.table, hwnd) {
          var title := GetWindowText(desk.table, hwnd);
          if title != "" && title !in excluded {
            newWindows := newWindows[hwnd := title];
          }
        }
        i := i + 1;
      }
      assert desk.order[..i] == desk.order;
      windows := newWindows;
    }

    /**
     * The dialog's save: the monitor flag and the exclusion list parsed
     * from the text box (`text` is what the box holds, with the newline
     * the box adds at its end), then the settings are written.
     */
    method SaveAction(monitor: bool, text: string)
      modifies this`monitorNew, this`excluded, this`file
      ensures monitorNew == monitor
      ensures excluded == ExclusionList.ParseExcluded(text)
      ensures defaultAlpha == old(defaultAlpha)
      ensures file == Some(Saved(State()))
    {
      monitorNew := monitor;
      excluded := ExclusionList.ParseExcluded(text);
      SaveSettings();
    }

    /**
     * The dialog's "Reset All": every recorded window goes back through
     * the applier at alpha 255, in some order; the table ends the same
     * whatever the order.
     */
    method ResetAll(desk: Desktop)
      modifies desk`table
      ensures desk.table == Applied(Full(excluded), old(desk.table), windows.Keys, 255)
    {
      ghost var t0 := desk.table;
      var rest := windows.Keys;
      while rest != {}
        invariant rest <= windows.Keys
        invariant desk.table == Applied(Full(excluded), t0, windows.Keys - rest, 255)
        decreases |rest|
      {
        assert exists h :: h in rest by {
          if forall h :: h !in rest {
            assert false;
          }
        }
        var hwnd :| hwnd in rest;
        AppliedExtend(Full(excluded), t0, windows.Keys - rest, hwnd, 255);
        assert (windows.Keys - rest) + {hwnd} == windows.Keys - (rest - {hwnd});
        var ok := ResetTransparency(desk, hwnd);
        rest := rest - {hwnd};
      }
    }
  }

  /** A window whose title is excluded is left exactly as it was by any bulk apply. */
  lemma ExcludedNeverTouched(excluded: seq<string>, t: Table, s: set<Handle>, a: Byte, h: Handle)
    requires h in t && GetWindowText(t, h) in excluded
    ensures Applied(Full(excluded), t, s, a)[h] == t[h]
    ensures forall g :: AfterSet(Full(excluded), t, g, a)[h] == t[h]
  {
  }

  /**
   * After a tick, the next tick on an unchanged desktop (up to what the
   * tick itself did) queues nothing: no window is applied twice.
   */
  lemma SecondTickQueuesNothing(excluded: seq<string>, t: Table, order: seq<Handle>, known: set<Handle>, a: Byte)
    ensures var t1 := Applied(Full(excluded), t, (Titled(t, order, excluded) - known).Keys, a);
      Arrivals(t1, order, Titled(t, order, []).Keys, excluded) == []
  {
    var t1 := Applied(Full(excluded), t, (Titled(t, order, excluded) - known).Keys, a);
    AppliedKeepsGuards(Full(excluded), t, (Titled(t, order, excluded) - known).Keys, a);
    forall h | h in order
      ensures IsWindowVisible(t1, h) == IsWindowVisible(t, h) && GetWindowText(t1, h) == GetWindowText(t, h)
    {
      GuardsDecide(Full(excluded), t, t1, h);
    }
    assert Titled(t1, order, []) == Titled(t, order, []);
    NothingNewWhenAllKnown(t1, order, Titled(t, order, []).Keys, excluded);
  }
}
