/** Applying one resolved key action to the reports being assembled: modifier merging, bounded
    scancode slots, mouse states, and the double-tap layer toggle. */
module Applier {
  import opened Types
  import opened KeyboardState
  import opened Machine

  const DoubleTapSwitchLayerReleaseTimeout := 200

  /** usb_report_updater.c addModifiersToReport: the flags are ORed into the basic report; a
      non-empty merge is remembered with its time for the re-merge of recent modifiers. */
  function AddModifiersToReport(w: World, now: u32, flags: bv8): (r: World)
    ensures w.out.report.modifiers & !r.out.report.modifiers == 0
    ensures flags & !r.out.report.modifiers == 0
    ensures r.out.report.modifiers & !(w.out.report.modifiers | flags) == 0
    ensures r.out == w.out.(report := w.out.report.(modifiers := w.out.report.modifiers | flags))
    ensures flags == 0 ==> r.reg == w.reg
    ensures flags != 0 ==>
      r.reg == w.reg.(lastUpdatedModifierFlags := r.out.report.modifiers, lastModifierReportUpdate := now)
    ensures r.levels == w.levels && r.layers == w.layers
  {
    var merged := w.out.report.modifiers | flags;
    var out := w.out.(report := w.out.report.(modifiers := merged));
    if flags != 0 then
      w.(out := out, reg := w.reg.(lastUpdatedModifierFlags := merged, lastModifierReportUpdate := now))
    else
      w.(out := out)
  }

  /** The keystroke branch of applyKeyAction: a scancode goes into the next free slot of its
      report; a full report drops it, and a basic scancode of zero is not written. */
  function AppendScancode(report: Report, cfg: Config, kind: KeystrokeType, scancode: u16): (r: Report)
    ensures r.modifiers == report.modifiers
    ensures WithinSlots(report, cfg) ==> WithinSlots(r, cfg)
    ensures kind == Basic ==> r.media == report.media && r.system == report.system
    ensures kind == Basic && |report.basic| < cfg.basicMaxKeys && scancode != 0 ==> r.basic == report.basic + [scancode]
    ensures kind == Basic && (|report.basic| >= cfg.basicMaxKeys || scancode == 0) ==> r.basic == report.basic
    ensures kind == Media ==> r.basic == report.basic && r.system == report.system
    ensures kind == Media && |report.media| < cfg.mediaMaxKeys ==> r.media == report.media + [scancode]
    ensures kind == Media && |report.media| >= cfg.mediaMaxKeys ==> r.media == report.media
    ensures kind == System ==> r.basic == report.basic && r.media == report.media
    ensures kind == System && |report.system| < cfg.systemMaxKeys ==> r.system == report.system + [scancode]
    ensures kind == System && |report.system| >= cfg.systemMaxKeys ==> r.system == report.system
  {
    match kind
    case Basic =>
      if |report.basic| >= cfg.basicMaxKeys || scancode == 0 then report
      else report.(basic := report.basic + [scancode])
    case Media =>
      if |report.media| >= cfg.mediaMaxKeys then report
      else report.(media := report.media + [scancode])
    case System =>
      if |report.system| >= cfg.systemMaxKeys then report
      else report.(system := report.system + [scancode])
  }

  /** The slot bounds of all three reports. */
  predicate WithinSlots(report: Report, cfg: Config) {
    |report.basic| <= cfg.basicMaxKeys && |report.media| <= cfg.mediaMaxKeys && |report.system| <= cfg.systemMaxKeys
  }

  function NonZero(scancodes: seq<u16>): (r: seq<u16>)
    ensures forall i | 0 <= i < |r| :: r[i] != 0
  {
    if |scancodes| == 0 then []
    else (if scancodes[0] != 0 then [scancodes[0]] else []) + NonZero(scancodes[1..])
  }

  /** Basic scancodes applied one after another within one cycle. */
  function AppendBasicAll(report: Report, cfg: Config, scancodes: seq<u16>): Report
    decreases |scancodes|
  {
    if |scancodes| == 0 then report
    else AppendBasicAll(AppendScancode(report, cfg, Basic, scancodes[0]), cfg, scancodes[1..])
  }

  function Min(a: int, b: int): int {
    if a < b then a else b
  }

  /** More basic scancodes than the report has slots: the earliest non-zero ones are kept in
      order, the slots already placed are untouched, and the excess is dropped. */
  lemma {:induction false} BasicOverflowKeepsEarliest(report: Report, cfg: Config, scancodes: seq<u16>)
    requires |report.basic| <= cfg.basicMaxKeys
    ensures AppendBasicAll(report, cfg, scancodes).basic ==
      (report.basic + NonZero(scancodes))[..Min(cfg.basicMaxKeys, |report.basic| + |NonZero(scancodes)|)]
    decreases |scancodes|
  {
    if |scancodes| > 0 {
      var sc := scancodes[0];
      var next := AppendScancode(report, cfg, Basic, sc);
      BasicOverflowKeepsEarliest(next, cfg, scancodes[1..]);
      var rest := NonZero(scancodes[1..]);
      if sc == 0 {
        assert NonZero(scancodes) == rest;
      } else if |report.basic| < cfg.basicMaxKeys {
        assert NonZero(scancodes) == [sc] + rest;
        assert report.basic + NonZero(scancodes) == next.basic + rest;
      } else {
        assert NonZero(scancodes) == [sc] + rest;
        assert (report.basic + NonZero(scancodes))[..cfg.basicMaxKeys] == report.basic;
        assert (next.basic + rest)[..cfg.basicMaxKeys] == report.basic;
      }
    }
  }

  /** The candidate of a double tap survives only while no other key's release is applied. */
  function CandidateAfter(layers: LayerState, ref: KeyRef, down: bool): Option<KeyRef> {
    if layers.doubleTapKey.Some? && layers.doubleTapKey.value != ref && !down then None else layers.doubleTapKey
  }

  /** The double-tap condition: a hold-or-double-tap-toggle key applied while its level is up, on
      the base layer, with itself recorded as the candidate less than the window ago. */
  predicate DoubleTapped(w: World, env: Env, ref: KeyRef, action: KeyAction) {
    && action.SwitchLayer?
    && action.mode == HoldAndDoubleTapToggle
    && !Level(w.levels, ref).previous
    && w.layers.previousLayer == BaseLayer
    && w.layers.doubleTapKey == Some(ref)
    && Elapsed(env.now, w.layers.doubleTapStartTime) < env.cfg.doubleTapTimeout
  }

  /** A hold-or-double-tap-toggle key applied while its level is up, on the base layer: the tap
      that either records the key as the double-tap candidate or completes the double tap. */
  predicate TapCandidate(w: World, ref: KeyRef, action: KeyAction) {
    && action.SwitchLayer?
    && action.mode == HoldAndDoubleTapToggle
    && !Level(w.levels, ref).previous
    && w.layers.previousLayer == BaseLayer
  }

  /** usb_report_updater.c handleSwitchLayerAction. The key's `previous` level equals its
      stable level by the time actions are applied. */
  function HandleSwitchLayerAction(w: World, env: Env, ref: KeyRef, action: KeyAction): (r: World)
    ensures r == w.(layers := r.layers)
    ensures r.layers.previousLayer == w.layers.previousLayer
    ensures !action.SwitchLayer? ==> r.layers == w.layers.(doubleTapKey := CandidateAfter(w.layers, ref, Level(w.levels, ref).previous))
    ensures DoubleTapped(w, env, ref, action) ==>
      r.layers.toggledLayer == action.layer && r.layers.isLayerDoubleTapToggled && r.layers.doubleTapTriggerTime == env.now
    ensures r.layers.isLayerDoubleTapToggled && !w.layers.isLayerDoubleTapToggled ==> DoubleTapped(w, env, ref, action)
    ensures r.layers.doubleTapTriggerTime != w.layers.doubleTapTriggerTime ==> DoubleTapped(w, env, ref, action)
  {
    var down := Level(w.levels, ref).previous;
    var l1 := w.layers.(doubleTapKey := CandidateAfter(w.layers, ref, down));
    if !action.SwitchLayer? then w.(layers := l1)
    else
      var l2 :=
        if !down && l1.isLayerDoubleTapToggled && l1.toggledLayer == action.layer
        then l1.(toggledLayer := BaseLayer, isLayerDoubleTapToggled := false)
        else l1;
      var l3 :=
        if down && l2.doubleTapKey == Some(ref) && Elapsed(env.now, l2.doubleTapTriggerTime) > DoubleTapSwitchLayerReleaseTimeout
        then l2.(toggledLayer := BaseLayer)
        else l2;
      var l4 :=
        if !down && l3.previousLayer == BaseLayer && action.mode == HoldAndDoubleTapToggle then
          var l := if l3.doubleTapKey.Some? && Elapsed(env.now, l3.doubleTapStartTime) < env.cfg.doubleTapTimeout
                   then l3.(toggledLayer := action.layer, isLayerDoubleTapToggled := true, doubleTapTriggerTime := env.now)
                   else l3.(doubleTapKey := Some(ref));
          l.(doubleTapStartTime := env.now)
        else l3;
      w.(layers := l4)
  }

  /** A tap of a hold-or-double-tap-toggle key on the base layer leaves the key as the double-tap
      candidate and restarts the double-tap timer. Any other application keeps the timer, and it
      keeps the candidate unless another key's release drops it. */
  lemma SwitchLayerRecordsCandidate(w: World, env: Env, ref: KeyRef, action: KeyAction)
    ensures var r := HandleSwitchLayerAction(w, env, ref, action).layers;
      && (TapCandidate(w, ref, action) ==> r.doubleTapKey == Some(ref) && r.doubleTapStartTime == env.now)
      && (!TapCandidate(w, ref, action) ==>
            && r.doubleTapKey == CandidateAfter(w.layers, ref, Level(w.levels, ref).previous)
            && r.doubleTapStartTime == w.layers.doubleTapStartTime)
  {
  }

  /** Applying the toggling key while it is up, with its layer toggled on, turns the toggle off
      unless this very application is a second tap. */
  lemma UntoggleOnRetapRelease(w: World, env: Env, ref: KeyRef, action: KeyAction)
    requires action.SwitchLayer? && !Level(w.levels, ref).previous
    requires w.layers.isLayerDoubleTapToggled && w.layers.toggledLayer == action.layer
    requires !DoubleTapped(w, env, ref, action)
    ensures HandleSwitchLayerAction(w, env, ref, action).layers.toggledLayer == BaseLayer
    ensures !HandleSwitchLayerAction(w, env, ref, action).layers.isLayerDoubleTapToggled
  {
  }

  /** Applying the candidate key while it is held, more than the release window after the double
      tap triggered, returns the toggled layer to the base layer; the toggle flag is left set. */
  lemma UntoggleWhenHeldPastWindow(w: World, env: Env, ref: KeyRef, action: KeyAction)
    requires action.SwitchLayer? && Level(w.levels, ref).previous
    requires w.layers.doubleTapKey == Some(ref)
    requires Elapsed(env.now, w.layers.doubleTapTriggerTime) > DoubleTapSwitchLayerReleaseTimeout
    ensures HandleSwitchLayerAction(w, env, ref, action).layers.toggledLayer == BaseLayer
    ensures HandleSwitchLayerAction(w, env, ref, action).layers.isLayerDoubleTapToggled == w.layers.isLayerDoubleTapToggled
  {
  }

  /** A double tap across three applications of the same key: released (recording it as the
      candidate), pressed again (which keeps the candidate and its start time), and released within
      the double-tap timeout of the first release. The third application toggles the key's layer. */
  lemma TwoTapsToggleLayer(w1: World, w2: World, w3: World, env1: Env, env2: Env, env3: Env, ref: KeyRef, action: KeyAction)
    requires TapCandidate(w1, ref, action)
    requires w2.layers == HandleSwitchLayerAction(w1, env1, ref, action).layers && Level(w2.levels, ref).previous
    requires w3.layers == HandleSwitchLayerAction(w2, env2, ref, action).layers && !Level(w3.levels, ref).previous
    requires Elapsed(env3.now, env1.now) < env3.cfg.doubleTapTimeout
    ensures var r := HandleSwitchLayerAction(w3, env3, ref, action).layers;
      r.toggledLayer == action.layer && r.isLayerDoubleTapToggled && r.doubleTapTriggerTime == env3.now
  {
    SwitchLayerRecordsCandidate(w1, env1, ref, action);
    SwitchLayerRecordsCandidate(w2, env2, ref, action);
    assert w3.layers.doubleTapKey == Some(ref) && w3.layers.doubleTapStartTime == env1.now;
    assert DoubleTapped(w3, env3, ref, action);
  }

  /** The keystroke branch of applyKeyAction: its modifiers are merged, then its scancode placed. */
  function ApplyKeystroke(w: World, now: u32, cfg: Config, kind: KeystrokeType, scancode: u16, modifiers: bv8): (r: World)
    ensures r == MergeFrame(w, r).(out := r.out)
    ensures r.out == w.out.(report := AppendScancode(w.out.report.(modifiers := w.out.report.modifiers | modifiers), cfg, kind, scancode))
  {
    var w1 := AddModifiersToReport(w, now, modifiers);
    w1.(out := w1.out.(report := AppendScancode(w1.out.report, cfg, kind, scancode)))
  }

  /** usb_report_updater.c applyKeyAction. */
  function ApplyKeyAction(w: World, env: Env, ref: KeyRef, action: KeyAction): (r: World)
    ensures r.reg == w.reg.(lastUpdatedModifierFlags := r.reg.lastUpdatedModifierFlags,
                            lastModifierReportUpdate := r.reg.lastModifierReportUpdate)
    ensures r.levels == w.levels
    ensures r.out.sent == w.out.sent
    ensures r.layers == HandleSwitchLayerAction(w, env, ref, action).layers
    ensures WithinSlots(w.out.report, env.cfg) ==> WithinSlots(r.out.report, env.cfg)
    ensures action.Keystroke? ==> r.out.report == AppendScancode(
      w.out.report.(modifiers := w.out.report.modifiers | action.modifiers), env.cfg, action.kind, action.scancode)
    ensures !action.Keystroke? ==> r.out.report == w.out.report && r.reg == w.reg
    ensures action.Mouse? ==> r.out.mouseStates == w.out.mouseStates + {action.mouseAction}
    ensures !action.Mouse? ==> r.out.mouseStates == w.out.mouseStates
  {
    var w1 := HandleSwitchLayerAction(w, env, ref, action);
    match action
    case Keystroke(kind, scancode, modifiers, _) => ApplyKeystroke(w1, env.now, env.cfg, kind, scancode, modifiers)
    case Mouse(a) => w1.(out := w1.out.(mouseStates := w1.out.mouseStates + {a}))
    case SwitchKeymap(id) => w1.(out := w1.out.(keymapSwitches := w1.out.keymapSwitches + [id]))
    case PlayMacro(id) => w1.(out := w1.out.(macroStarts := w1.out.macroStarts + [id]))
    case _ => w1
  }

  /** Applying an action never clears a modifier bit of the report, and a keystroke's own
      modifiers end up in it. */
  lemma ApplyKeyActionKeepsModifiers(w: World, env: Env, ref: KeyRef, action: KeyAction)
    ensures var r := ApplyKeyAction(w, env, ref, action);
      && w.out.report.modifiers & !r.out.report.modifiers == 0
      && (action.Keystroke? ==> action.modifiers & !r.out.report.modifiers == 0)
  {
  }
}
