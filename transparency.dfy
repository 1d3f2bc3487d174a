/**
 * What the three transparency appliers decide and do. Each variant checks
 * a chain of guards against the window table; a window that passes them
 * and does not refuse the change ends up layered at the requested alpha,
 * with every other part of its state as it was.
 */
module Transparency {
  import opened Win32

  /** The three appliers: the full tool (with its exclusion list), the reboot tool and the demo script. */
  datatype Variant = Full(excluded: seq<string>) | Reboot | Script

  predicate HasSysMenu(t: Table, h: Handle) {
    GetWindowLong(t, h, GWL_STYLE) & WS_SYSMENU != 0
  }

  /** The guard chain of each variant, in the order the source checks it. */
  predicate Qualifies(v: Variant, t: Table, h: Handle) {
    match v
    case Full(excluded) =>
      IsWindow(t, h) && IsWindowVisible(t, h)
      && GetWindowText(t, h) != "" && GetWindowText(t, h) !in excluded
      && HasSysMenu(t, h)
    case Reboot =>
      IsWindow(t, h) && IsWindowVisible(t, h)
    case Script =>
      IsWindowVisible(t, h) && GetWindowText(t, h) != "" && HasSysMenu(t, h)
  }

  /** The window passes the guards and the OS accepts the change. */
  predicate Accepts(v: Variant, t: Table, h: Handle) {
    Qualifies(v, t, h) && !t[h].rejects
  }

  /** A window made layered at alpha `a`. */
  function Layer(w: Window, a: Byte): (r: Window)
    ensures r.exStyle & WS_EX_LAYERED != 0
    ensures r.exStyle & !WS_EX_LAYERED == w.exStyle & !WS_EX_LAYERED
    ensures r.alpha == a
    ensures r == w.(exStyle := r.exStyle, alpha := a)
  {
    w.(exStyle := w.exStyle | WS_EX_LAYERED, alpha := a)
  }

  /** Setting the layered bit of a word that already has it changes nothing. */
  lemma LayeredAlready(x: bv32)
    requires x & WS_EX_LAYERED != 0
    ensures x | WS_EX_LAYERED == x
  {
  }

  /**
   * What the two writes of an applier do to a window `h` of `t0` that
   * passed its guards: set the layered bit if it is missing, then set the
   * alpha, which fails exactly when the window refuses the change.
   */
  lemma LayerCalls(t0: Table, h: Handle, a: Byte)
    requires IsWindow(t0, h)
    ensures var w := t0[h];
      var t1 := if w.exStyle & WS_EX_LAYERED == 0 && !w.rejects
                then t0[h := w.(exStyle := w.exStyle | WS_EX_LAYERED)] else t0;
      var ok := IsWindow(t1, h) && !t1[h].rejects && t1[h].exStyle & WS_EX_LAYERED != 0;
      ok == !w.rejects
      && (if ok then t1[h := t1[h].(alpha := a)] else t1) == (if w.rejects then t0 else t0[h := Layer(w, a)])
  {
    var w := t0[h];
    if w.exStyle & WS_EX_LAYERED != 0 {
      LayeredAlready(w.exStyle);
    }
  }

  /**
   * The same two writes when the layered bit is written whether or not
   * the window already has it, on a window that accepts them: the alpha
   * call then succeeds, and the result is the layered window.
   */
  lemma LayerCallsUnconditional(t0: Table, h: Handle, a: Byte)
    requires h in t0
    ensures var w1 := t0[h].(exStyle := t0[h].exStyle | WS_EX_LAYERED);
      w1.exStyle & WS_EX_LAYERED != 0
      && t0[h := w1][h := w1.(alpha := a)] == t0[h := Layer(t0[h], a)]
  {
    var w1 := t0[h].(exStyle := t0[h].exStyle | WS_EX_LAYERED);
    LayeredSet(t0[h].exStyle);
    assert w1.(alpha := a) == Layer(t0[h], a);
  }

  /** Setting the layered bit sets it. */
  lemma LayeredSet(x: bv32)
    ensures (x | WS_EX_LAYERED) & WS_EX_LAYERED != 0
  {
  }

  /** The table after one call of a variant's applier on `h`. */
  function AfterSet(v: Variant, t: Table, h: Handle, a: Byte): Table {
    if Accepts(v, t, h) then t[h := Layer(t[h], a)] else t
  }

  /** The table after the applier has been called on every handle of `s`, in any order. */
  function Applied(v: Variant, t: Table, s: set<Handle>, a: Byte): Table {
    map h | h in t :: if h in s && Accepts(v, t, h) then Layer(t[h], a) else t[h]
  }

  /**
   * The visible, titled handles among `hs` whose title is not in
   * `excluded`, each mapped to its title.
   */
  function Titled(t: Table, hs: seq<Handle>, excluded: seq<string>): map<Handle, string> {
    map h | h in hs && IsWindowVisible(t, h) && GetWindowText(t, h) != ""
              && GetWindowText(t, h) !in excluded
          :: GetWindowText(t, h)
  }

  /** Walking one more handle adds it, with its title, exactly when it qualifies. */
  lemma TitledExtend(t: Table, p: seq<Handle>, h: Handle, excluded: seq<string>)
    ensures Titled(t, p + [h], excluded) ==
      if IsWindowVisible(t, h) && GetWindowText(t, h) != "" && GetWindowText(t, h) !in excluded
      then Titled(t, p, excluded)[h := GetWindowText(t, h)]
      else Titled(t, p, excluded)
  {
  }

  /** The parts of a window that the guards read. */
  predicate SameGuards(w1: Window, w2: Window) {
    w1.alive == w2.alive && w1.visible == w2.visible && w1.title == w2.title
    && w1.style == w2.style && w1.rejects == w2.rejects
  }

  /** Every variant's decision depends only on liveness, visibility, title, style and refusal. */
  lemma GuardsDecide(v: Variant, t1: Table, t2: Table, h: Handle)
    requires h in t1 <==> h in t2
    requires h in t1 ==> SameGuards(t1[h], t2[h])
    ensures Qualifies(v, t1, h) == Qualifies(v, t2, h)
    ensures Accepts(v, t1, h) == Accepts(v, t2, h)
    ensures IsWindow(t1, h) == IsWindow(t2, h)
    ensures IsWindowVisible(t1, h) == IsWindowVisible(t2, h)
    ensures GetWindowText(t1, h) == GetWindowText(t2, h)
  {
  }

  /** Applying never changes what the guards read, so a window's eligibility is the same before and after. */
  lemma AppliedKeepsGuards(v: Variant, t: Table, s: set<Handle>, a: Byte)
    ensures Applied(v, t, s, a).Keys == t.Keys
    ensures forall h :: h in t ==> SameGuards(t[h], Applied(v, t, s, a)[h])
  {
  }

  /** The full tool is the demo script's guard chain plus the exclusion list; the reboot tool checks less than both. */
  lemma VariantsNest(excluded: seq<string>, t: Table, h: Handle)
    ensures Accepts(Full(excluded), t, h) <==> Accepts(Script, t, h) && GetWindowText(t, h) !in excluded
    ensures Accepts(Script, t, h) ==> Accepts(Reboot, t, h)
    ensures Accepts(Reboot, t, h) <==> IsWindowVisible(t, h) && !t[h].rejects
  {
  }

  /** One call changes at most the target window, and only its layered bit and alpha. */
  lemma AfterSetChangesOnlyTarget(v: Variant, t: Table, h: Handle, a: Byte, g: Handle)
    requires g in t
    ensures AfterSet(v, t, h, a).Keys == t.Keys
    ensures g != h || !Accepts(v, t, h) ==> AfterSet(v, t, h, a)[g] == t[g]
    ensures g == h && Accepts(v, t, h) ==>
      var w := AfterSet(v, t, h, a)[g];
      w.alpha == a && w.exStyle == t[g].exStyle | WS_EX_LAYERED
      && w.(exStyle := t[g].exStyle, alpha := t[g].alpha) == t[g]
  {
  }

  /** A second call with the same alpha leaves the state the first one produced. */
  lemma AfterSetIdempotent(v: Variant, t: Table, h: Handle, a: Byte)
    ensures AfterSet(v, AfterSet(v, t, h, a), h, a) == AfterSet(v, t, h, a)
  {
    var t1 := AfterSet(v, t, h, a);
    if Accepts(v, t, h) {
      GuardsDecide(v, t, t1, h);
      assert Layer(t1[h], a) == t1[h];
    }
  }

  /** Calling the applier on one more handle extends the set of handles applied to. */
  lemma AppliedExtend(v: Variant, t: Table, s: set<Handle>, h: Handle, a: Byte)
    ensures AfterSet(v, Applied(v, t, s, a), h, a) == Applied(v, t, s + {h}, a)
  {
    var t1 := Applied(v, t, s, a);
    var t2 := Applied(v, t, s + {h}, a);
    AppliedKeepsGuards(v, t, s, a);
    GuardsDecide(v, t, t1, h);
    var r := AfterSet(v, t1, h, a);
    assert r.Keys == t2.Keys;
    forall g | g in t
      ensures r[g] == t2[g]
    {
      if g == h && Accepts(v, t, h) {
        LayerTwice(t[h], a);
      }
    }
  }

  lemma LayerTwice(w: Window, a: Byte)
    ensures Layer(Layer(w, a), a) == Layer(w, a)
  {
  }

  /** Applying to the same handles twice gives the same table as applying once. */
  lemma AppliedIdempotent(v: Variant, t: Table, s: set<Handle>, a: Byte)
    ensures Applied(v, Applied(v, t, s, a), s, a) == Applied(v, t, s, a)
  {
    var t1 := Applied(v, t, s, a);
    AppliedKeepsGuards(v, t, s, a);
    forall h | h in t1
      ensures Applied(v, t1, s, a)[h] == t1[h]
    {
      GuardsDecide(v, t, t1, h);
    }
  }
}
