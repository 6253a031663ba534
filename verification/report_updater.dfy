/** One report cycle of usb_report_updater.c updateActiveUsbReports: the key scan with debouncing
    and tracking, the longest-pressed search, and the three state handlers run as consecutive
    `if`s, so that one cycle may pass through free typing, waiting and the active state. */
module ReportUpdater {
  import opened Types
  import opened Arrays
  import opened KeyboardState
  import opened Debounce
  import opened Machine
  import opened Executor
  import opened Resolver
  import opened Invariants

  // ---------------------------------------------------------------- the scan order

  /** `a` is visited before `b` by the slot-major scan. */
  predicate ScansBefore(a: KeyRef, b: KeyRef) {
    a.slotId < b.slotId || (a.slotId == b.slotId && a.keyId < b.keyId)
  }

  /** The keys `0 .. keys` of one slot, in order. */
  function SlotRow(slot: u8, keys: nat): (row: seq<KeyRef>)
    requires keys <= 0x100
    ensures |row| == keys
    ensures forall k | 0 <= k < keys :: row[k].slotId == slot && row[k].keyId as nat == k
  {
    seq(keys, k requires 0 <= k < keys => KeyRef(slot, k as u8))
  }

  /** The nested loops over `slotId < slots` and `keyId < keys`. */
  function ScanOrder(slots: nat, keys: nat): (order: seq<KeyRef>)
    requires slots <= 0x100 && keys <= 0x100
    decreases slots
  {
    if slots == 0 then [] else ScanOrder(slots - 1, keys) + SlotRow((slots - 1) as u8, keys)
  }

  /** The scan visits exactly the keys of the configured slots. */
  lemma {:induction false} ScanOrderCovers(slots: nat, keys: nat)
    requires slots <= 0x100 && keys <= 0x100
    ensures forall p | 0 <= p < |ScanOrder(slots, keys)| ::
      (ScanOrder(slots, keys)[p].slotId as nat) < slots && (ScanOrder(slots, keys)[p].keyId as nat) < keys
    ensures forall ref: KeyRef | (ref.slotId as nat) < slots && (ref.keyId as nat) < keys :: ref in ScanOrder(slots, keys)
    decreases slots
  {
    if slots > 0 {
      var prev := ScanOrder(slots - 1, keys);
      var row := SlotRow((slots - 1) as u8, keys);
      ScanOrderCovers(slots - 1, keys);
      assert ScanOrder(slots, keys) == prev + row;
      forall ref: KeyRef | (ref.slotId as nat) < slots && (ref.keyId as nat) < keys
        ensures ref in prev + row
      {
        if (ref.slotId as nat) == slots - 1 {
          assert row[ref.keyId as nat] == ref;
        }
      }
    }
  }

  /** The scan is slot-major and visits each key once: every key comes strictly after the ones
      scanned before it. */
  lemma {:induction false} ScanOrderSorted(slots: nat, keys: nat)
    requires slots <= 0x100 && keys <= 0x100
    ensures forall p, q | 0 <= p < q < |ScanOrder(slots, keys)| ::
      ScansBefore(ScanOrder(slots, keys)[p], ScanOrder(slots, keys)[q])
    decreases slots
  {
    if slots > 0 {
      var prev := ScanOrder(slots - 1, keys);
      var row := SlotRow((slots - 1) as u8, keys);
      var order := prev + row;
      ScanOrderSorted(slots - 1, keys);
      ScanOrderCovers(slots - 1, keys);
      assert ScanOrder(slots, keys) == order;
      forall p, q | 0 <= p < q < |order|
        ensures ScansBefore(order[p], order[q])
      {
        if q < |prev| {
          assert order[p] == prev[p] && order[q] == prev[q];
        } else if p < |prev| {
          assert order[p] == prev[p] && order[q] == row[q - |prev|];
        } else {
          assert order[p] == row[p - |prev|] && order[q] == row[q - |prev|];
        }
      }
    }
  }

  // ---------------------------------------------------------------- scanning keys

  /** The filtered level of `ref` after sampling `raw`, with its time stamp. */
  function Filtered(w: World, env: Env, ref: KeyRef, raw: bool): Debounced {
    ScanLevel(Debounced(Level(w.levels, ref), StampOf(w.stamps, ref)), raw, env.now, env.cfg)
  }

  /** The body of the scan loop for one key: the raw level is filtered by mitigateBouncing, a held
      key is tracked by updateActiveKey, and the filtered level becomes `previous`. A full set
      is an overflow. */
  function ScanKey(w: World, env: Env, ref: KeyRef, raw: bool): (r: Outcome<World>)
    ensures r.Overflow? <==> Filtered(w, env, ref, raw).level.current && UpdateActiveKey(w.reg, env.keymap, env.now, ref).Overflow?
    ensures !Filtered(w, env, ref, raw).level.current ==> r.Ok? && r.value.reg == w.reg
    ensures r.Ok? ==> r.value == w.(reg := r.value.reg, levels := r.value.levels, stamps := r.value.stamps)
    ensures r.Ok? ==> r.value.reg == w.reg.(modifiers := r.value.reg.modifiers, actions := r.value.reg.actions)
    ensures r.Ok? ==> Level(r.value.levels, ref) == Filtered(w, env, ref, raw).level
    ensures r.Ok? ==> forall other | other != ref :: Level(r.value.levels, other) == Level(w.levels, other)
  {
    var d := Filtered(w, env, ref, raw);
    var reg :- if d.level.current then UpdateActiveKey(w.reg, env.keymap, env.now, ref) else Ok(w.reg);
    Ok(w.(reg := reg, levels := WithLevel(w.levels, ref, d.level), stamps := w.stamps[ref := d.timestamp]))
  }

  /** Scanning one key keeps the invariant, leaves a held key tracked, and untracks nothing. */
  lemma ScanKeyTracks(w: World, env: Env, ref: KeyRef, raw: bool)
    requires ScanKey(w, env, ref, raw).Ok?
    ensures var r := ScanKey(w, env, ref, raw).value;
      && (Inv(w.reg) ==> Inv(r.reg))
      && (Level(r.levels, ref).current ==> IsTracked(r.reg, ref))
      && (forall x | IsTracked(w.reg, x) :: IsTracked(r.reg, x))
  {
    var d := Filtered(w, env, ref, raw);
    if d.level.current {
      if Inv(w.reg) {
        UpdateActiveKeyPreservesInv(w.reg, env.keymap, env.now, ref);
      }
      UpdateActiveKeyKeepsTracked(w.reg, env.keymap, env.now, ref);
    }
  }

  /** The scan loop over `order`, first key first; the first overflow ends the cycle. */
  function ScanKeys(w: World, env: Env, order: seq<KeyRef>, raw: KeyRef -> bool): (r: Outcome<World>)
    ensures r.Ok? ==> r.value == w.(reg := r.value.reg, levels := r.value.levels, stamps := r.value.stamps)
    ensures r.Ok? ==> r.value.reg == w.reg.(modifiers := r.value.reg.modifiers, actions := r.value.reg.actions)
    decreases |order|
  {
    if |order| == 0 then Ok(w)
    else
      var w1 :- ScanKeys(w, env, order[..|order| - 1], raw);
      ScanKey(w1, env, order[|order| - 1], raw(order[|order| - 1]))
  }

  /** The scan keeps the invariant, and after it every scanned key whose filtered level is held
      is tracked in one of the two sets. */
  lemma {:induction false} ScanKeysTracksHeld(w: World, env: Env, order: seq<KeyRef>, raw: KeyRef -> bool)
    requires ScanKeys(w, env, order, raw).Ok?
    ensures var r := ScanKeys(w, env, order, raw).value;
      && (Inv(w.reg) ==> Inv(r.reg))
      && (forall ref | ref in order && Level(r.levels, ref).current :: IsTracked(r.reg, ref))
    decreases |order|
  {
    if |order| > 0 {
      var init := order[..|order| - 1];
      var last := order[|order| - 1];
      var w1 := ScanKeys(w, env, init, raw).value;
      ScanKeysTracksHeld(w, env, init, raw);
      ScanKeyTracks(w1, env, last, raw(last));
      var r := ScanKey(w1, env, last, raw(last)).value;
      forall ref | ref in order && Level(r.levels, ref).current
        ensures IsTracked(r.reg, ref)
      {
        if ref != last {
          assert ref in init;
        }
      }
    }
  }

  // ---------------------------------------------------------------- the cycle

  /** The three handlers, each guarded by its own `if` on the state the previous one left. */
  function RunHandlers(w: World, env: Env, longest: Option<PendingKey>): (r: Outcome<World>)
    ensures r.Overflow? ==> w.reg.stateType == FreeType && HandleFreeType(w, env, longest).Overflow?
  {
    var w1 :- if w.reg.stateType == FreeType then HandleFreeType(w, env, longest) else Ok(w);
    var w2 := if w1.reg.stateType == AwaitingSecondaryRoleRelease then HandleAwait(w1, env) else w1;
    Ok(if w2.reg.stateType == SecondaryRoleActive then HandleActive(w2, env) else w2)
  }

  /** The handlers keep the invariant and schedule only keys that never committed. */
  lemma RunHandlersPreservesInv(w: World, env: Env, longest: Option<PendingKey>)
    requires Inv(w.reg) && NoneActivated(w.reg.scheduled)
    ensures var r := RunHandlers(w, env, longest);
      r.Ok? ==> Inv(r.value.reg) && NoneActivated(r.value.reg.scheduled)
  {
    if RunHandlers(w, env, longest).Ok? {
      var w1 := if w.reg.stateType == FreeType then HandleFreeType(w, env, longest).value else w;
      if w.reg.stateType == FreeType {
        HandleFreeTypePreservesInv(w, env, longest);
      }
      var w2 := if w1.reg.stateType == AwaitingSecondaryRoleRelease then HandleAwait(w1, env) else w1;
      if w1.reg.stateType == AwaitingSecondaryRoleRelease {
        HandleAwaitPreservesInv(w1, env);
      }
      if w2.reg.stateType == SecondaryRoleActive {
        HandleActivePreservesInv(w2, env);
      }
    }
  }

  /** The free-typing handler either executes the actions, sending at most one report and
      staying in free typing, or moves to waiting without sending. */
  lemma HandleFreeTypeSends(w: World, env: Env, longest: Option<PendingKey>)
    requires HandleFreeType(w, env, longest).Ok?
    ensures var r := HandleFreeType(w, env, longest).value;
      || (r.reg.stateType == w.reg.stateType && |r.out.sent| <= |w.out.sent| + 1)
      || (r.reg.stateType == AwaitingSecondaryRoleRelease && r.out.sent == w.out.sent)
  {
  }

  /** The waiting handler sends a report only when it executes the actions, and then it returns
      to free typing. */
  lemma HandleAwaitSends(w: World, env: Env)
    ensures var r := HandleAwait(w, env);
      || (r.reg.stateType == FreeType && |r.out.sent| <= |w.out.sent| + 1)
      || (r.reg.stateType == w.reg.stateType && r.out.sent == w.out.sent)
      || (r.reg.stateType == SecondaryRoleActive && r.out.sent == w.out.sent)
  {
    var (w1, trigger) := AwaitReleaseLoop(w, env, |w.reg.modifiers|, false);
    assert w1.out == w.out && w1.reg.stateType == w.reg.stateType;
  }

  /** The active handler executes the actions once. */
  lemma HandleActiveSends(w: World, env: Env)
    ensures |HandleActive(w, env).out.sent| <= |w.out.sent| + 1
  {
  }

  /** executeActions runs at most once per cycle: whichever handlers the cycle passes through, at
      most one report is sent from inside them. */
  lemma RunHandlersSendsAtMostOnce(w: World, env: Env, longest: Option<PendingKey>)
    requires RunHandlers(w, env, longest).Ok?
    ensures |RunHandlers(w, env, longest).value.out.sent| <= |w.out.sent| + 1
  {
    var w1 := if w.reg.stateType == FreeType then HandleFreeType(w, env, longest).value else w;
    if w.reg.stateType == FreeType {
      HandleFreeTypeSends(w, env, longest);
    }
    var w2 := if w1.reg.stateType == AwaitingSecondaryRoleRelease then HandleAwait(w1, env) else w1;
    if w1.reg.stateType == AwaitingSecondaryRoleRelease {
      HandleAwaitSends(w1, env);
    }
    if w2.reg.stateType == SecondaryRoleActive {
      HandleActiveSends(w2, env);
    }
  }

  /** usb_report_updater.c updateActiveUsbReports, with the reports cleared beforehand as
      UpdateUsbReports does. `raw` is the level each key's matrix reported, `layer` what
      GetActiveLayer answers after the scan, and `macro` the report of a playing macro. */
  function Tick(w: World, env: Env, raw: KeyRef -> bool, layer: LayerId, macro: Option<Report>): (r: Outcome<World>)
    requires env.cfg.slotCount as nat <= 0x100 && env.cfg.keysPerSlot as nat <= 0x100
    ensures macro.Some? ==> r == Ok(w.(out := EmptyOutput.(report := macro.value)))
    ensures macro.None? && r.Ok? ==> r.value.layers.previousLayer == r.value.reg.activeLayer
  {
    if macro.Some? then Ok(w.(out := EmptyOutput.(report := macro.value)))
    else
      var w0 := w.(reg := w.reg.(releasedActionKeyEnqueueTime := 0, scheduled := []), out := EmptyOutput);
      var w1 :- ScanKeys(w0, env, ScanOrder(env.cfg.slotCount as nat, env.cfg.keysPerSlot as nat), raw);
      var w2 := w1.(reg := w1.reg.(activeLayer := layer));
      var w3 :- RunHandlers(w2, env, LongestPressed(w2.reg, env.keymap));
      Ok(w3.(layers := w3.layers.(previousLayer := w3.reg.activeLayer)))
  }

  /** A cycle keeps the registry invariant, and every key it schedules for its primary role is
      one whose secondary role never took effect. */
  lemma TickPreservesInv(w: World, env: Env, raw: KeyRef -> bool, layer: LayerId, macro: Option<Report>)
    requires env.cfg.slotCount as nat <= 0x100 && env.cfg.keysPerSlot as nat <= 0x100
    requires Inv(w.reg)
    ensures var r := Tick(w, env, raw, layer, macro);
      r.Ok? ==> Inv(r.value.reg) && |r.value.out.sent| <= 1
    ensures var r := Tick(w, env, raw, layer, macro);
      r.Ok? && macro.None? ==> NoneActivated(r.value.reg.scheduled)
  {
    if macro.None? && Tick(w, env, raw, layer, macro).Ok? {
      var order := ScanOrder(env.cfg.slotCount as nat, env.cfg.keysPerSlot as nat);
      var w0 := w.(reg := w.reg.(releasedActionKeyEnqueueTime := 0, scheduled := []), out := EmptyOutput);
      ScanKeysTracksHeld(w0, env, order, raw);
      var w1 := ScanKeys(w0, env, order, raw).value;
      var w2 := w1.(reg := w1.reg.(activeLayer := layer));
      RunHandlersPreservesInv(w2, env, LongestPressed(w2.reg, env.keymap));
      RunHandlersSendsAtMostOnce(w2, env, LongestPressed(w2.reg, env.keymap));
    }
  }
}
