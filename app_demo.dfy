/**
 * The one-shot demo script: it enumerates every top-level window and
 * makes each visible, titled window with a system menu translucent.
 */
module AppDemo {
  import opened Win32
  import opened Transparency

  const ALPHA_LEVEL: Byte := 200

  /** The handles listed in `hs`. */
  function Members(hs: seq<Handle>): set<Handle> {
    set h | h in hs
  }

  /**
   * The script's applier: a visible window with a title and a system menu
   * gets the layered bit (written even when already set) and the alpha; a
   * refusal raises and is caught, leaving the window as it was.
   */
  method SetWindowTransparency(desk: Desktop, hwnd: Handle, alpha: Byte)
    modifies desk`table
    ensures desk.table == AfterSet(Script, old(desk.table), hwnd, alpha)
  {
    if !IsWindowVisible(desk.table, hwnd) {
      return;
    }
    var windowTitle := GetWindowText(desk.table, hwnd);
    if windowTitle == "" {
      return;
    }
    var style := GetWindowLong(desk.table, hwnd, GWL_STYLE);
    if style & WS_SYSMENU == 0 {
      return;
    }
    ghost var t0 := desk.table;
    LayerCallsUnconditional(t0, hwnd, alpha);
    assert AfterSet(Script, t0, hwnd, alpha) == if t0[hwnd].rejects then t0 else t0[hwnd := Layer(t0[hwnd], alpha)];
    var exStyle := GetWindowLong(desk.table, hwnd, GWL_EXSTYLE);
    desk.SetWindowLong(hwnd, GWL_EXSTYLE, exStyle | WS_EX_LAYERED);
    // a refusal raises; the handler reports it and goes on
    var _ := desk.SetLayeredWindowAttributes(hwnd, 0, alpha, LWA_ALPHA);
  }

  /**
   * The enumeration with its callback: every handle the desktop reports,
   * unfiltered and in the order reported.
   */
  method CollectWindows(desk: Desktop) returns (windows: seq<Handle>)
    ensures |windows| == |desk.order|
    ensures forall i :: 0 <= i < |windows| ==> windows[i] == desk.order[i]
  {
    windows := [];
    var order := desk.order;
    var i := 0;
    while i < |order|
      invariant 0 <= i <= |order|
      invariant windows == order[..i]
    {
      windows := windows + [order[i]];
      i := i + 1;
    }
  }

  /**
   * Collects every enumerated handle, then calls the applier on each in
   * turn with the same alpha.
   */
  method SetTransparencyForAllWindows(desk: Desktop, alpha: Byte := ALPHA_LEVEL)
    modifies desk`table
    ensures desk.table == Applied(Script, old(desk.table), Members(desk.order), alpha)
  {
    var windows := CollectWindows(desk);
    assert windows == desk.order;
    ghost var t0 := desk.table;
    var j := 0;
    while j < |windows|
      invariant 0 <= j <= |windows|
      invariant desk.table == Applied(Script, t0, Members(windows[..j]), alpha)
    {
      var hwnd := windows[j];
      assert Members(windows[..j + 1]) == Members(windows[..j]) + {hwnd} by {
        assert windows[..j + 1] == windows[..j] + [hwnd];
      }
      AppliedExtend(Script, t0, Members(windows[..j]), hwnd, alpha);
      SetWindowTransparency(desk, hwnd, alpha);
      j := j + 1;
    }
    assert windows[..j] == windows;
  }

  /** Running the script a second time changes nothing more. */
  lemma ScriptTwice(t: Table, order: seq<Handle>, alpha: Byte)
    ensures var once := Applied(Script, t, Members(order), alpha);
      Applied(Script, once, Members(order), alpha) == once
  {
    AppliedIdempotent(Script, t, Members(order), alpha);
  }
}
