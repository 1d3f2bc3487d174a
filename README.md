# GlassMenu in Dafny

GlassMenu comes in three variants of one Windows tool. Each makes the top-level windows of other programs translucent. It adds the `WS_EX_LAYERED` extended-style bit to a window and sets the window's alpha.

- **The full tool** (`GlassMenuLite`, module `GlassMenuFull`) has these parts:
  - an exclusion list of titles;
  - a registry `windows` of the windows it has handled, mapped to their titles;
  - "apply to all";
  - a rebuild of the registry;
  - "reset all";
  - a monitor that, tick by tick, queues newly appearing windows and makes them translucent at the default alpha;
  - a settings dialog whose exclusion text is parsed into the list (module `ExclusionList`).
- **The tray tool** (`GlassMenuPro`, module `GlassMenuReboot`) sets one alpha on every visible titled window. It keeps a set of pinned window handles in the top-most z-order band, and it saves and restores that set in its settings file.
- **The demo script** (module `AppDemo`) enumerates every top-level window once. It makes each visible, titled window that has a system menu translucent.

The operating system is replaced by an abstract window table (module `Win32`).

- A handle maps to a window record with these fields:
  - liveness and visibility;
  - the title;
  - the style and extended-style words (`bv32`);
  - the alpha (0..255);
  - the top-most band;
  - position and size;
  - a `rejects` flag for windows whose owner refuses layered-attribute changes.
- The class `Desktop` holds the table and the order in which the enumeration reports handles.
- The calls that change windows are the methods of `Desktop`:
  - `SetWindowLong` is silently ignored by a window that rejects it.
  - `SetLayeredWindowAttributes` fails unless the window is valid, accepting and already layered.
  - `SetWindowPos` fails only on an invalid handle.
- A failure of `SetWindowLong` or `SetLayeredWindowAttributes` stands for the exception that the source catches. A failure of `SetWindowPos` is not caught: `toggle_pin` then leaves without saving or refreshing its menu, which is the unchanged state the model gives.
- Enumeration with a callback becomes a loop over `Desktop.order`.

Module `Transparency` states what the three appliers share:

- `Variant` names the three guard chains. `Qualifies` is a variant's guard chain; `Accepts` adds that the window does not refuse the change.
- `Layer` is the window after a successful apply.
- `AfterSet` is the table after one call.
- `Applied` is the table after calls on a set of handles. The result is the same in any order.
- `Titled` is the visible, titled, non-excluded windows of an enumeration, mapped to their titles.

Each imperative operation of the source is a method. Its `ensures` ties the new state to these functions. The lemmas prove these properties of the functions:

- idempotence;
- the exact set difference of a monitor tick;
- that excluded windows are never touched;
- the pin toggle's effect and when it is its own inverse;
- the settings round trips.

## Model

| member | source | states |
|---|---|---|
| Win32.Desktop.SetWindowLong | glass_menu_full_demo.py:83-84 | Writing the extended-style word changes exactly that word of a valid, accepting window, and nothing for any other handle |
| Win32.Desktop.SetLayeredWindowAttributes | glass_menu_full_demo.py:85 | Setting the alpha succeeds exactly for a valid, accepting, already layered window; only that window's alpha changes |
| Win32.Desktop.SetWindowPos | test_glass_menu_demo_start_reboot.py:64-67 | Moving a window between bands fails exactly on an invalid handle and otherwise changes only that window |
| Win32.Placed | test_glass_menu_demo_start_reboot.py:64-67 | What `SetWindowPos` does to a window: the new band, and the new position and size unless `SWP_NOMOVE` or `SWP_NOSIZE` keeps them |
| Win32.PlacedKeepsGeometry | test_glass_menu_demo_start_reboot.py:64-67 | With `SWP_NOMOVE \| SWP_NOSIZE` only the band changes: position and size stay |
| Transparency.Qualifies | glass_menu_full_demo.py:71-80 | The guard chain of each variant. The full tool needs a valid, visible window with a non-empty title that is not excluded and a style with `WS_SYSMENU`. The tray tool needs a valid, visible window (test_glass_menu_demo_start_reboot.py:55). The demo script needs a visible window with a title and `WS_SYSMENU` (app_Demo.py:13-25) |
| Transparency.Accepts | glass_menu_full_demo.py:85 | A window that passes the variant's guards and does not refuse the alpha call |
| Transparency.AfterSet | glass_menu_full_demo.py:68-91 | The table after one call of a variant's applier: the target layered at the alpha when the variant accepts it, and otherwise the same table |
| Transparency.Applied | glass_menu_full_demo.py:107-116 | The table after the applier has been called on every handle of a set: each accepted handle of the set is layered at the alpha, every other window is kept |
| Transparency.Titled | glass_menu_full_demo.py:169-173 | The enumerated handles that are visible, have a non-empty title and whose title is not excluded, each mapped to its title |
| Transparency.Layer | glass_menu_full_demo.py:82-85 | After a successful apply the layered bit is set, every other extended-style bit is kept, the alpha is the requested one, and nothing else of the window differs |
| Transparency.LayeredAlready | glass_menu_full_demo.py:83-84 | OR-ing the layered bit into a word that already has it leaves the word unchanged, so skipping the write loses nothing |
| Transparency.LayerCalls | glass_menu_full_demo.py:82-85 | The conditional layered-bit write followed by the alpha call succeeds exactly when the window accepts; the result is then the layered window, and otherwise the table is unchanged |
| Transparency.LayerCallsUnconditional | app_Demo.py:28-32 | Writing the layered bit unconditionally and then the alpha gives the same layered window on an accepting window |
| Transparency.LayeredSet | app_Demo.py:29 | OR-ing in the layered bit makes it set |
| Transparency.TitledExtend | glass_menu_full_demo.py:169-173 | Walking one more handle adds it with its title exactly when it is visible, titled and not excluded |
| Transparency.GuardsDecide | glass_menu_full_demo.py:71-80 | Every variant's decision reads only liveness, visibility, title, style and refusal |
| Transparency.AppliedKeepsGuards | glass_menu_full_demo.py:82-85 | A bulk apply keeps every handle and changes nothing the guards read |
| Transparency.VariantsNest | app_Demo.py:11-32 | The full tool accepts exactly what the demo script accepts minus the excluded titles; the script's windows are accepted by the tray tool, which checks only visibility and refusal |
| Transparency.AfterSetChangesOnlyTarget | glass_menu_full_demo.py:82-88 | One call changes at most the target window, and of it only the layered bit and the alpha |
| Transparency.AfterSetIdempotent | glass_menu_full_demo.py:83-85 | A second call with the same alpha leaves the state of the first |
| Transparency.AppliedExtend | glass_menu_full_demo.py:107-116 | One more call extends a bulk apply by that handle |
| Transparency.LayerTwice | glass_menu_full_demo.py:83-85 | Layering a layered window at the same alpha changes nothing |
| Transparency.AppliedIdempotent | glass_menu_full_demo.py:103-116 | A second bulk apply over the same handles with the same alpha changes nothing |
| ExclusionList.IsSpace | glass_menu_full_demo.py:250-251 | The characters `str.isspace` accepts, which are the ones `str.strip()` removes |
| ExclusionList.Join | glass_menu_full_demo.py:223 | `"\n".join(xs)`: the pieces with the separator between consecutive ones |
| ExclusionList.LStrip | glass_menu_full_demo.py:250-251 | The result of a left strip does not start with whitespace |
| ExclusionList.LStripSuffix | glass_menu_full_demo.py:250-251 | A left strip is a suffix of its input |
| ExclusionList.LStripDropsSpace | glass_menu_full_demo.py:250-251 | Everything a left strip drops is whitespace |
| ExclusionList.RStrip | glass_menu_full_demo.py:250-251 | The result of a right strip does not end with whitespace |
| ExclusionList.RStripPrefix | glass_menu_full_demo.py:250-251 | A right strip is a prefix of its input |
| ExclusionList.RStripDropsSpace | glass_menu_full_demo.py:250-251 | Everything a right strip drops is whitespace |
| ExclusionList.Strip | glass_menu_full_demo.py:250-251 | A stripped string has no whitespace at either end |
| ExclusionList.StripAvoids | glass_menu_full_demo.py:250-251 | Stripping introduces no character that was not there |
| ExclusionList.StripKeeps | glass_menu_full_demo.py:250-251 | A string with no whitespace at either end is its own strip |
| ExclusionList.StripIdempotent | glass_menu_full_demo.py:250-251 | Stripping twice is stripping once |
| ExclusionList.Split | glass_menu_full_demo.py:250 | Splitting gives at least one piece, no piece holds the separator, and joining the pieces gives back the text |
| ExclusionList.SplitPrefix | glass_menu_full_demo.py:250 | Separator-free text in front only extends the first piece of a split |
| ExclusionList.SplitJoin | glass_menu_full_demo.py:250 | Splitting a join of separator-free pieces gives back the pieces |
| ExclusionList.JoinEnds | glass_menu_full_demo.py:223 | A join of non-empty pieces starts with the first piece's first character and ends with the last piece's last character |
| ExclusionList.NonBlank | glass_menu_full_demo.py:251 | The kept lines are non-empty and stripped, and carry no newline if the input lines carried none |
| ExclusionList.Lines | glass_menu_full_demo.py:250 | No line of the split text holds a newline |
| ExclusionList.ParseExcluded | glass_menu_full_demo.py:250-251 | Every parsed title is non-empty, stripped and free of newlines |
| ExclusionList.ParsedAreStripped | glass_menu_full_demo.py:250-251 | Stripping a parsed title again changes nothing |
| ExclusionList.NonBlankKeeps | glass_menu_full_demo.py:251 | Lines that are already non-empty and stripped all survive the filter |
| ExclusionList.StripTrailingNewline | glass_menu_full_demo.py:250 | The newline the text box adds after trimmed text is stripped away |
| ExclusionList.JoinStripped | glass_menu_full_demo.py:223 | Joining non-empty trimmed titles gives trimmed, non-empty text |
| ExclusionList.StripShown | glass_menu_full_demo.py:223 | The text the dialog shows, stripped, is the join of the titles |
| ExclusionList.ParseOfShown | glass_menu_full_demo.py:223-251 | Saving the dialog's text unedited gives back the exclusion list, when every title is non-empty, stripped and newline-free |
| GlassMenuFull.AlphaOr | glass_menu_full_demo.py:106 | `alpha or default_alpha`: the given alpha, unless it is missing or 0, in which case the default |
| GlassMenuFull.Arrivals | glass_menu_full_demo.py:138-145 | The (handle, title) pairs `check_callback` queues, in enumeration order: a visible titled handle the first time the walk meets it, if it was not known and its title is not excluded |
| GlassMenuFull.QueueMap | glass_menu_full_demo.py:150-155 | The registry entries that recording the queued pairs in order produces |
| GlassMenuFull.Loaded | glass_menu_full_demo.py:29-33 | Without a settings file the tool starts with alpha 200, the three shell titles excluded and monitoring on |
| GlassMenuFull.Saved | glass_menu_full_demo.py:57-61 | The saved file holds every key |
| GlassMenuFull.LoadSaved | glass_menu_full_demo.py:54-64 | Loading the saved settings gives back the same settings |
| GlassMenuFull.ArrivalsSound | glass_menu_full_demo.py:138-145 | Every queued pair is a visible titled handle of the enumeration, with its title, not known and not excluded |
| GlassMenuFull.ArrivalsDistinct | glass_menu_full_demo.py:141-144 | No handle is queued twice in one tick |
| GlassMenuFull.ArrivalsExact | glass_menu_full_demo.py:138-147 | The queue of a tick records exactly the visible, titled, non-excluded windows minus the known ones |
| GlassMenuFull.NothingNewWhenAllKnown | glass_menu_full_demo.py:138-147 | When every visible titled window is known, a tick queues nothing |
| GlassMenuFull.ApplyStep | glass_menu_full_demo.py:107-113 | One callback step of apply-to-all extends both the registry and the applied set by the handle exactly when it is visible, titled and not excluded |
| GlassMenuFull.ScanStep | glass_menu_full_demo.py:138-145 | One callback step of the scan extends the current set and the queue as the callback does |
| GlassMenuFull.LiveEntries | glass_menu_full_demo.py:150-152 | Keeping the queued entries that are still windows never lengthens the queue |
| GlassMenuFull.LiveEntriesAll | glass_menu_full_demo.py:150-152 | When every queued handle is still a window, the drain drops none |
| GlassMenuFull.DrainStep | glass_menu_full_demo.py:150-155 | Draining one live entry applies the default alpha to it and records it under its queued title |
| GlassMenuFull.GlassMenuLite.constructor | glass_menu_full_demo.py:18-33 | The tool starts with an empty registry and queue and the settings read from the file |
| GlassMenuFull.GlassMenuLite.SaveSettings | glass_menu_full_demo.py:54-66 | The file holds the current settings, and loading it gives them back |
| GlassMenuFull.GlassMenuLite.SetWindowTransparency | glass_menu_full_demo.py:68-91 | True exactly when the window is valid, visible, titled, not excluded, has a system menu and accepts; the table is then the layered window, and otherwise unchanged |
| GlassMenuFull.GlassMenuLite.ResetTransparency | glass_menu_full_demo.py:93-101 | Exactly the applier at alpha 255, with the same result and the same skipped windows |
| GlassMenuFull.GlassMenuLite.ApplyToAllWindows | glass_menu_full_demo.py:103-119 | With `alpha or default_alpha`, every enumerated visible, titled, non-excluded window is applied to and recorded under its title, whether or not the apply succeeded; nothing else changes |
| GlassMenuFull.GlassMenuLite.MonitorStart | glass_menu_full_demo.py:123-132 | The known set is the visible titled windows, and then everything is applied at the default alpha |
| GlassMenuFull.GlassMenuLite.CheckWindows | glass_menu_full_demo.py:136-147 | The current set is the visible titled windows, and the queue holds the new, non-excluded ones in enumeration order |
| GlassMenuFull.GlassMenuLite.DrainQueue | glass_menu_full_demo.py:150-156 | The queue ends empty; each queued handle that is still a window gets the default alpha and a registry entry |
| GlassMenuFull.GlassMenuLite.MonitorTick | glass_menu_full_demo.py:134-156 | The new known set is the visible titled windows; the registry gains exactly the new non-excluded windows and loses nothing; exactly those are applied at the default alpha; the queue ends empty |
| GlassMenuFull.GlassMenuLite.UpdateWindowsList | glass_menu_full_demo.py:165-181 | The registry becomes exactly the visible, titled, non-excluded windows with their titles |
| GlassMenuFull.GlassMenuLite.SaveAction | glass_menu_full_demo.py:246-252 | The monitor flag is the checkbox's value, the exclusion list is the parsed text, the alpha is kept, and the settings are saved |
| GlassMenuFull.GlassMenuLite.ResetAll | glass_menu_full_demo.py:235-244 | Every registered window goes through the applier at 255, so excluded, untitled or menu-less ones are not reset |
| GlassMenuFull.ExcludedNeverTouched | glass_menu_full_demo.py:75-76 | A window whose title is excluded is left exactly as it was by any single or bulk apply |
| GlassMenuFull.SecondTickQueuesNothing | glass_menu_full_demo.py:136-148 | On a desktop changed only by a tick, the next tick queues nothing, so no window is applied twice |
| GlassMenuReboot.AlphaIfNone | test_glass_menu_demo_start_reboot.py:73 | `a if a is not None else self.alpha`: only a missing alpha falls back, so an explicit 0 is used as given |
| GlassMenuReboot.Stored | test_glass_menu_demo_start_reboot.py:50 | The file `save_settings` writes: the alpha, the monitor flag and the pinned set as a list |
| GlassMenuReboot.TogglePinStep | test_glass_menu_demo_start_reboot.py:62-68 | One `toggle_pin`. An invalid handle changes nothing, because `SetWindowPos` raises first. A pinned handle leaves the set and its window goes to the not-top-most band. Any other handle joins the set and its window goes to the top-most band |
| GlassMenuReboot.Raise | test_glass_menu_demo_start_reboot.py:77-78 | A window moved to the top-most band when it is pinned, otherwise unchanged |
| GlassMenuReboot.AppliedPinned | test_glass_menu_demo_start_reboot.py:72-80 | The table `apply_all` leaves: each walked handle gets the tray tool's applier, and each pinned, valid walked window is then moved to the top-most band; every other window is kept |
| GlassMenuReboot.DefaultingRules | test_glass_menu_demo_start_reboot.py:73 | `a if a is not None else alpha` and `a or alpha` disagree exactly on an explicit alpha of 0 |
| GlassMenuReboot.Loaded | test_glass_menu_demo_start_reboot.py:19-24 | Without a settings file the tool starts with nothing pinned, alpha 200 and monitoring on; the pinned set is the set of the listed handles |
| GlassMenuReboot.LoadStored | test_glass_menu_demo_start_reboot.py:47-51 | Loading the stored settings gives back the same state, whatever order the pinned handles were listed in |
| GlassMenuReboot.ToList | test_glass_menu_demo_start_reboot.py:50 | Listing the pinned set gives each handle of the set exactly once and nothing else |
| GlassMenuReboot.TogglePinEffect | test_glass_menu_demo_start_reboot.py:62-68 | A toggle flips the handle's membership, puts its band in line with it, keeps its geometry and every other window, and keeps every pinned window top-most |
| GlassMenuReboot.ToggleTwice | test_glass_menu_demo_start_reboot.py:62-68 | Two toggles always restore the pinned set, and restore the whole state exactly when the handle is not a window or its band already agreed with its membership |
| GlassMenuReboot.AppliedPinnedSplits | test_glass_menu_demo_start_reboot.py:72-80 | Apply-all is the tray tool's applier on every walked window; only the pinned walked windows additionally end up top-most |
| GlassMenuReboot.AppliedPinnedOnTop | test_glass_menu_demo_start_reboot.py:75-78 | After apply-all every pinned window it walked is top-most |
| GlassMenuReboot.AppliedPinnedIdempotent | test_glass_menu_demo_start_reboot.py:72-80 | A second apply-all with the same alpha and pinned set changes nothing |
| GlassMenuReboot.AppliedPinnedKeepsGuards | test_glass_menu_demo_start_reboot.py:72-80 | Apply-all keeps every handle and changes nothing the guards read |
| GlassMenuReboot.ApplyAllStep | test_glass_menu_demo_start_reboot.py:74-79 | One callback step of apply-all extends the walked set by the handle |
| GlassMenuReboot.GlassMenuPro.constructor | test_glass_menu_demo_start_reboot.py:18-26 | The tool starts in the state read from the settings file |
| GlassMenuReboot.GlassMenuPro.SaveSettings | test_glass_menu_demo_start_reboot.py:47-51 | The file lists exactly the pinned handles with the alpha and the monitor flag, and loading it gives back the state |
| GlassMenuReboot.GlassMenuPro.SetAlpha | test_glass_menu_demo_start_reboot.py:53-60 | Any valid visible accepting window is layered at `a`, with no title, exclusion or menu check; nothing else changes |
| GlassMenuReboot.GlassMenuPro.TogglePin | test_glass_menu_demo_start_reboot.py:62-70 | On a valid window the membership flips, the band is set to match the new membership, and the settings are saved; on an invalid handle nothing changes |
| GlassMenuReboot.GlassMenuPro.ApplyAll | test_glass_menu_demo_start_reboot.py:72-80 | With the stored alpha only when none is given, every visible titled window gets the applier and the pinned ones are raised to the top-most band; the pinned set is unchanged |
| GlassMenuReboot.GlassMenuPro.EnumWindows | test_glass_menu_demo_start_reboot.py:82-90 | The keys are exactly the enumerated visible handles with non-empty titles, each mapped to its title |
| AppDemo.CollectWindows | app_Demo.py:38-52 | The callback collects every enumerated handle, unfiltered and in order |
| AppDemo.SetWindowTransparency | app_Demo.py:5-36 | A visible, titled window with a system menu that accepts is layered at the alpha; nothing else changes; there is no exclusion list |
| AppDemo.SetTransparencyForAllWindows | app_Demo.py:45-56 | Every collected window gets the script's applier at the same alpha, 200 unless another alpha is given |
| AppDemo.ScriptTwice | app_Demo.py:45-56 | Running the script twice leaves the state of one run |

## Left out

- The Tkinter dialogs, the pystray icon and menus, and PIL drawing are UI. This covers `show_settings_dialog`, `show_gui`, `create_icon`, `update_menu` and `update_tray_menu`. Of these, only the full tool's settings-dialog actions `apply_action`, `reset_action` and `save_action` are modelled, including the exclusion-text parsing. The tray tool's `show_gui` actions `live` and `save` are not modelled.
- The slider's `int(float(val))` conversion is left out: alpha is an integer in 0..255 throughout, and the full tool's `int(alpha)` is the identity on it.
- The JSON file is modelled as its content. For the full tool `None` means a missing file; for the tray tool it means a missing or unreadable file, since its bare `except` falls back to no settings. Failures to write the file and values of the wrong JSON type are not modelled.
- The full tool fails to start on an unreadable settings file: its handler logs through a logger that is only created after the settings are read, so construction raises. This is not modelled.
- The autostart shortcut (`ensure_autostart`), `run`, `quit`, `main` and the tool's entry points are start-up plumbing.
- `threading.Lock`, the daemon monitor thread and the `Queue`'s thread safety are not modelled. The queue is a sequence, and the monitor is one sequential tick plus its start.
- The monitor thread that `save_action` starts is not modelled.
- `GlassMenuFull.GlassMenuLite.MonitorTick` models one iteration of the loop. The `running`/`monitor_new` condition and the repetition are not modelled; `SecondTickQueuesNothing` relates two successive ticks.
- `time.sleep` pacing is timing only.
- Logging and `print` are side channels.
- The real `win32gui`/`win32con` behaviour is replaced by the window table. A refusal is the `rejects` flag of a window, so a given window either always refuses or never does.
- A window destroyed between two calls of one operation is not modelled.
- `SetWindowPos` never fails on a valid window. An `apply_all` walk cut short by such a failure, which the source does not catch inside its enumeration callback, is therefore not reachable in the model.
- Exceptions other than the refusals above are not modelled. This includes the `NameError` that the demo script's handler can raise when the title was never read.
- `AppDemo.SetTransparencyForAllWindows` states the final table, not the sequence of calls. The result is the same in any order of the collected handles.
- `GlassMenuFull.GlassMenuLite.ResetAll` walks the registry in an unspecified order where the source uses the dictionary's order. The final table is the same in any order.
- `GlassMenuFull.GlassMenuLite.MonitorTick` returns the handles it queued only as a ghost value, because the queue is internal to the tick.
- Choices of the code that the model keeps as they are:
  - The enumeration of visible titled windows does not filter on `WS_SYSMENU`. The full tool and the demo script check the system menu inside the applier; the tray tool never checks it.
  - The appliers return true or false, or nothing; there is no separate no-op result.
  - A tick only adds to the registry. `update_windows_list` would replace it wholesale, but nothing in the tool calls it, so in the tool as written the registry only ever grows.
  - The tray tool persists pinned windows by handle, not by title, and never re-pins by title.
  - Pinning and unpinning restores the band only when the band agreed with the pinned set beforehand (`ToggleTwice`). Unpinning always moves the window to the not-top-most band.
  - There is no enumeration-failure counter.
