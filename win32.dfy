/**
 * The part of the Windows window manager the tool talks to through
 * `win32gui`, as an abstract window table. A handle maps to the state of
 * one top-level window; a handle that is not in the table, or whose window
 * is no longer alive, is not a window. Reads are functions of the table;
 * the calls that change a window are methods of `Desktop`.
 */
module Win32 {
  /** An HWND, as Python sees it: an integer. */
  type Handle = int

  /** The BYTE that `SetLayeredWindowAttributes` takes as its alpha. */
  type Byte = x: int | 0 <= x < 256

  const WS_SYSMENU: bv32 := 0x0008_0000
  const WS_EX_LAYERED: bv32 := 0x0008_0000
  const LWA_ALPHA: bv32 := 0x0000_0002
  const SWP_NOSIZE: bv32 := 0x0000_0001
  const SWP_NOMOVE: bv32 := 0x0000_0002

  /** The two style words the tool reads. */
  datatype LongIndex = GWL_STYLE | GWL_EXSTYLE

  /** The two z-order bands the tool moves windows between. */
  datatype InsertAfter = HWND_TOPMOST | HWND_NOTOPMOST

  /**
   * One top-level window. `rejects` marks a window whose owner refuses
   * layered-attribute changes (a protected or elevated window): writes of
   * its extended style are ignored and setting its alpha raises.
   */
  datatype Window = Window(
    alive: bool,
    visible: bool,
    title: string,
    style: bv32,
    exStyle: bv32,
    alpha: Byte,
    topmost: bool,
    x: int, y: int, cx: int, cy: int,
    rejects: bool)

  type Table = map<Handle, Window>

  predicate IsWindow(t: Table, h: Handle) {
    h in t && t[h].alive
  }

  predicate IsWindowVisible(t: Table, h: Handle) {
    IsWindow(t, h) && t[h].visible
  }

  /** The title; the empty string for a handle that is not a window. */
  function GetWindowText(t: Table, h: Handle): string {
    if IsWindow(t, h) then t[h].title else ""
  }

  /** A style word; 0 for a handle that is not a window. */
  function GetWindowLong(t: Table, h: Handle, index: LongIndex): bv32 {
    if !IsWindow(t, h) then 0
    else match index
      case GWL_STYLE => t[h].style
      case GWL_EXSTYLE => t[h].exStyle
  }

  function WithLong(w: Window, index: LongIndex, value: bv32): Window {
    match index
    case GWL_STYLE => w.(style := value)
    case GWL_EXSTYLE => w.(exStyle := value)
  }

  /** What `SetWindowPos` does to a window: a new band, and a new position and size unless the flags keep them. */
  function Placed(w: Window, after: InsertAfter, x: int, y: int, cx: int, cy: int, flags: bv32): Window {
    w.(topmost := after == HWND_TOPMOST,
       x := if flags & SWP_NOMOVE != 0 then w.x else x,
       y := if flags & SWP_NOMOVE != 0 then w.y else y,
       cx := if flags & SWP_NOSIZE != 0 then w.cx else cx,
       cy := if flags & SWP_NOSIZE != 0 then w.cy else cy)
  }

  /** With `SWP_NOMOVE | SWP_NOSIZE` only the band changes: the window neither moves nor resizes. */
  lemma PlacedKeepsGeometry(w: Window, after: InsertAfter)
    ensures Placed(w, after, 0, 0, 0, 0, SWP_NOMOVE | SWP_NOSIZE) == w.(topmost := after == HWND_TOPMOST)
  {
    assert (SWP_NOMOVE | SWP_NOSIZE) & SWP_NOMOVE != 0;
    assert (SWP_NOMOVE | SWP_NOSIZE) & SWP_NOSIZE != 0;
  }

  /**
   * The desktop: the window table and the order in which `EnumWindows`
   * reports the top-level windows (a handle may be reported more than once).
   */
  class Desktop {
    var table: Table
    var order: seq<Handle>

    constructor (table: Table, order: seq<Handle>)
      ensures this.table == table && this.order == order
    {
      this.table := table;
      this.order := order;
    }

    /** Writes a style word; ignored for a handle that is not a window or a window that refuses it. */
    method SetWindowLong(h: Handle, index: LongIndex, value: bv32)
      modifies this`table
      ensures table == if IsWindow(old(table), h) && !old(table)[h].rejects
                       then old(table)[h := WithLong(old(table)[h], index, value)]
                       else old(table)
    {
      if IsWindow(table, h) && !table[h].rejects {
        table := table[h := WithLong(table[h], index, value)];
      }
    }

    /**
     * Sets the alpha of a layered window. Fails (pywin32 raises) for a
     * handle that is not a window, a window that refuses it, or a window
     * that is not layered.
     */
    method SetLayeredWindowAttributes(h: Handle, key: int, alpha: Byte, flags: bv32) returns (ok: bool)
      modifies this`table
      ensures ok == (IsWindow(old(table), h) && !old(table)[h].rejects
                     && old(table)[h].exStyle & WS_EX_LAYERED != 0)
      ensures table == if ok && flags & LWA_ALPHA != 0
                       then old(table)[h := old(table)[h].(alpha := alpha)]
                       else old(table)
    {
      ok := IsWindow(table, h) && !table[h].rejects && table[h].exStyle & WS_EX_LAYERED != 0;
      if ok && flags & LWA_ALPHA != 0 {
        table := table[h := table[h].(alpha := alpha)];
      }
    }

    /** Moves a window between z-order bands; fails (pywin32 raises) for a handle that is not a window. */
    method SetWindowPos(h: Handle, after: InsertAfter, x: int, y: int, cx: int, cy: int, flags: bv32)
      returns (ok: bool)
      modifies this`table
      ensures ok == IsWindow(old(table), h)
      ensures table == if ok then old(table)[h := Placed(old(table)[h], after, x, y, cx, cy, flags)]
                       else old(table)
    {
      ok := IsWindow(table, h);
      if ok {
        table := table[h := Placed(table[h], after, x, y, cx, cy, flags)];
      }
    }
  }
}
