/** usb_report_updater.c executeActions and its parts: the replay of the keys scheduled for
    immediate execution, the merge of recently reported modifiers, the modifier-only actions,
    the mid-cycle send, and the loop that applies and retires the pending actions. */
module Executor {
  import opened Types
  import opened Arrays
  import opened KeyboardState
  import opened Filtering
  import opened Machine
  import opened Applier

  /** Modifiers reported less than this many milliseconds ago are merged into a replay. */
  const ModifierMergeWindow := 100

  predicate Pressed(levels: Levels, k: PendingKey) {
    Level(levels, k.keyRef).current
  }

  /** Resolve a pending key on the active layer and apply its action. */
  function ApplyPending(w: World, env: Env, k: PendingKey): (r: World)
    ensures r.reg == w.reg.(lastUpdatedModifierFlags := r.reg.lastUpdatedModifierFlags,
                            lastModifierReportUpdate := r.reg.lastModifierReportUpdate)
    ensures r.levels == w.levels && r.out.sent == w.out.sent
    ensures WithinSlots(w.out.report, env.cfg) ==> WithinSlots(r.out.report, env.cfg)
  {
    ApplyKeyAction(w, env, k.keyRef, Resolve(w.reg, env.keymap, k.keyRef))
  }

  /** keyboard_state.c scheduleForImmediateExecution, on the whole cycle state. */
  function ScheduleKey(w: World, env: Env, k: PendingKey): (r: World)
    ensures r.reg == w.reg.(scheduled := w.reg.scheduled + [k], releasedActionKeyEnqueueTime := k.enqueueTime)
    ensures r == w.(reg := r.reg, stamps := r.stamps)
    ensures StampOf(r.stamps, k.keyRef) == env.now
    ensures forall ref | ref != k.keyRef :: StampOf(r.stamps, ref) == StampOf(w.stamps, ref)
  {
    var (reg, stamps) := Schedule(w.reg, w.stamps, env.now, k);
    assert reg.scheduled == w.reg.scheduled + [k];
    w.(reg := reg, stamps := stamps)
  }

  /** Keys applied one after another, first to last. */
  function ApplyAll(w: World, env: Env, ks: seq<PendingKey>): World
    decreases |ks|
  {
    if |ks| == 0 then w else ApplyAll(ApplyPending(w, env, ks[0]), env, ks[1..])
  }

  /** The replay loop of executeActions: from the last scheduled key down to the first. */
  function ReplayScheduled(w: World, env: Env, ks: seq<PendingKey>): (r: World)
    ensures r.reg == w.reg.(lastUpdatedModifierFlags := r.reg.lastUpdatedModifierFlags,
                            lastModifierReportUpdate := r.reg.lastModifierReportUpdate)
    ensures r.levels == w.levels && r.out.sent == w.out.sent
    ensures WithinSlots(w.out.report, env.cfg) ==> WithinSlots(r.out.report, env.cfg)
    decreases |ks|
  {
    if |ks| == 0 then w else ReplayScheduled(ApplyPending(w, env, ks[|ks| - 1]), env, ks[..|ks| - 1])
  }

  /** The scheduled keys are applied in the reverse of the order they were scheduled in. */
  lemma {:induction false} ReplayIsReverseOrder(w: World, env: Env, ks: seq<PendingKey>)
    ensures ReplayScheduled(w, env, ks) == ApplyAll(w, env, Reverse(ks))
    decreases |ks|
  {
    if |ks| > 0 {
      var last := ks[|ks| - 1];
      var rev := Reverse(ks);
      assert rev[0] == last;
      assert rev[1..] == Reverse(ks[..|ks| - 1]);
      ReplayIsReverseOrder(ApplyPending(w, env, last), env, ks[..|ks| - 1]);
    }
  }

  /** Bits kept at one step and kept at the next are kept overall. */
  lemma BitsKeptTransitively(a: bv8, b: bv8, c: bv8)
    requires a & !b == 0 && b & !c == 0
    ensures a & !c == 0
  {
  }

  /** The modifiers a pending key's keystroke carries on the active layer; none for other actions. */
  function OwnModifiers(reg: Registry, km: Keymap, k: PendingKey): bv8 {
    var action := Resolve(reg, km, k.keyRef);
    if action.Keystroke? then action.modifiers else 0
  }

  /** The replay loses no modifier bit of the report. */
  lemma {:induction false} ReplayKeepsByte(w: World, env: Env, ks: seq<PendingKey>)
    ensures w.out.report.modifiers & !ReplayScheduled(w, env, ks).out.report.modifiers == 0
    decreases |ks|
  {
    if |ks| > 0 {
      var last := ks[|ks| - 1];
      var w1 := ApplyPending(w, env, last);
      ApplyKeyActionKeepsModifiers(w, env, last.keyRef, Resolve(w.reg, env.keymap, last.keyRef));
      ReplayKeepsByte(w1, env, ks[..|ks| - 1]);
      BitsKeptTransitively(w.out.report.modifiers, w1.out.report.modifiers, ReplayScheduled(w, env, ks).out.report.modifiers);
    }
  }

  /** Every replayed keystroke's own modifiers end up in the report. */
  lemma {:induction false} ReplayKeepsModifiers(w: World, env: Env, ks: seq<PendingKey>)
    ensures forall k | k in ks :: OwnModifiers(w.reg, env.keymap, k) & !ReplayScheduled(w, env, ks).out.report.modifiers == 0
    decreases |ks|
  {
    if |ks| > 0 {
      var last := ks[|ks| - 1];
      var init := ks[..|ks| - 1];
      var w1 := ApplyPending(w, env, last);
      var m := ReplayScheduled(w, env, ks).out.report.modifiers;
      assert ReplayScheduled(w, env, ks) == ReplayScheduled(w1, env, init);
      ReplayKeepsModifiers(w1, env, init);
      assert forall k :: OwnModifiers(w1.reg, env.keymap, k) == OwnModifiers(w.reg, env.keymap, k);
      ApplyKeyActionKeepsModifiers(w, env, last.keyRef, Resolve(w.reg, env.keymap, last.keyRef));
      ReplayKeepsByte(w1, env, init);
      BitsKeptTransitively(OwnModifiers(w.reg, env.keymap, last), w1.out.report.modifiers, m);
      assert forall k | k in ks :: k in init || k == last;
    }
  }

  /** An action whose keystroke carries modifiers and no scancode, on a key that is held. */
  predicate HeldModifierOnly(w: World, env: Env, k: PendingKey) {
    var action := Resolve(w.reg, env.keymap, k.keyRef);
    Pressed(w.levels, k) && action.Keystroke? && action.scancode == 0
  }

  /** The union of the modifiers of the held modifier-only actions among `acts`. */
  function HeldModifierMask(w: World, env: Env, acts: seq<PendingKey>): bv8
    decreases |acts|
  {
    if |acts| == 0 then 0
    else
      var k := acts[|acts| - 1];
      HeldModifierMask(w, env, acts[..|acts| - 1]) | Contribution(w, env, k)
  }

  /** usb_report_updater.c execModifierActions: the modifiers of every held modifier-only action
      are merged into the report. */
  function ExecModifierActions(w: World, env: Env, acts: seq<PendingKey>): (r: World)
    ensures r == MergeFrame(w, r)
    decreases |acts|
  {
    if |acts| == 0 then w
    else
      var k := acts[|acts| - 1];
      var action := Resolve(w.reg, env.keymap, k.keyRef);
      var w1 := ExecModifierActions(w, env, acts[..|acts| - 1]);
      assert Resolve(w1.reg, env.keymap, k.keyRef) == action;
      assert HeldModifierOnly(w1, env, k) == HeldModifierOnly(w, env, k);
      if HeldModifierOnly(w1, env, k) then AddModifiersToReport(w1, env.now, action.modifiers) else w1
  }

  lemma OrAssoc(a: bv8, b: bv8, c: bv8)
    ensures (a | b) | c == a | (b | c)
  {
  }

  /** The modifiers `k` contributes to the merge: its own, if it is a held modifier-only action. */
  function Contribution(w: World, env: Env, k: PendingKey): bv8 {
    if HeldModifierOnly(w, env, k) then Resolve(w.reg, env.keymap, k.keyRef).modifiers else 0
  }

  /** One step of the loop merges the last action's contribution. */
  lemma ExecModifierStep(w: World, env: Env, acts: seq<PendingKey>)
    requires |acts| > 0
    ensures ExecModifierActions(w, env, acts).out.report.modifiers ==
      ExecModifierActions(w, env, acts[..|acts| - 1]).out.report.modifiers | Contribution(w, env, acts[|acts| - 1])
  {
    var k := acts[|acts| - 1];
    var w1 := ExecModifierActions(w, env, acts[..|acts| - 1]);
    assert Resolve(w1.reg, env.keymap, k.keyRef) == Resolve(w.reg, env.keymap, k.keyRef);
    assert HeldModifierOnly(w1, env, k) == HeldModifierOnly(w, env, k);
  }

  /** The report's modifier byte becomes its old value merged with the held modifier-only
      actions' modifiers. */
  lemma {:induction false} ExecModifierActionsMerges(w: World, env: Env, acts: seq<PendingKey>)
    ensures ExecModifierActions(w, env, acts).out.report.modifiers == w.out.report.modifiers | HeldModifierMask(w, env, acts)
    decreases |acts|
  {
    if |acts| > 0 {
      var init := acts[..|acts| - 1];
      ExecModifierActionsMerges(w, env, init);
      ExecModifierStep(w, env, acts);
      OrAssoc(w.out.report.modifiers, HeldModifierMask(w, env, init), Contribution(w, env, acts[|acts| - 1]));
    }
  }

  /** Every held modifier-only action contributes all of its modifiers to the mask. */
  lemma {:induction false} HeldModifierMaskCovers(w: World, env: Env, acts: seq<PendingKey>)
    ensures forall k | k in acts && HeldModifierOnly(w, env, k) ::
      Resolve(w.reg, env.keymap, k.keyRef).modifiers & !HeldModifierMask(w, env, acts) == 0
    decreases |acts|
  {
    if |acts| > 0 {
      var init := acts[..|acts| - 1];
      HeldModifierMaskCovers(w, env, init);
      assert forall j | j in acts :: j in init || j == acts[|acts| - 1];
    }
  }

  /** A pending action stays tracked only while its key is held and not suppressed. */
  function IsKept(levels: Levels): PendingKey -> bool {
    (k: PendingKey) => Level(levels, k.keyRef).current && !Level(levels, k.keyRef).suppressed
  }

  /** Retiring the pending action at `i`: its key's suppression is cleared and it is untracked. */
  function RetireAction(w: World, i: nat): (r: World)
    requires i < |w.reg.actions|
    ensures r.reg == UntrackActionAt(w.reg, i)
    ensures r.levels == WithLevel(w.levels, w.reg.actions[i].keyRef,
                                  Level(w.levels, w.reg.actions[i].keyRef).(suppressed := false))
    ensures r.out == w.out && r.layers == w.layers
  {
    var ref := w.reg.actions[i].keyRef;
    w.(reg := UntrackActionAt(w.reg, i), levels := WithLevel(w.levels, ref, Level(w.levels, ref).(suppressed := false)))
  }

  /** One iteration of the action loop, on entry `i`: a held or suppressed key is applied; a
      released or suppressed key is then retired. */
  function ActionStep(w: World, env: Env, i: nat): (r: World)
    requires i < |w.reg.actions|
    ensures IsKept(w.levels)(w.reg.actions[i]) ==> r.reg.actions == w.reg.actions && r.levels == w.levels
    ensures !IsKept(w.levels)(w.reg.actions[i]) ==>
      r.reg.actions == Delete(w.reg.actions, i) &&
      r.levels == WithLevel(w.levels, w.reg.actions[i].keyRef,
                            Level(w.levels, w.reg.actions[i].keyRef).(suppressed := false))
    ensures r.reg == w.reg.(actions := r.reg.actions,
                            lastUpdatedModifierFlags := r.reg.lastUpdatedModifierFlags,
                            lastModifierReportUpdate := r.reg.lastModifierReportUpdate)
    ensures r.out.sent == w.out.sent
    ensures WithinSlots(w.out.report, env.cfg) ==> WithinSlots(r.out.report, env.cfg)
  {
    var k := w.reg.actions[i];
    var ks := Level(w.levels, k.keyRef);
    var w1 := if ks.current || ks.suppressed then ApplyPending(w, env, k) else w;
    if !ks.current || ks.suppressed then RetireAction(w1, i) else w1
  }

  /** The action loop of executeActions over `actions[0 .. i)`, from the last entry down. */
  function ActionLoop(w: World, env: Env, i: nat): (r: World)
    requires i <= |w.reg.actions|
    ensures r.reg == w.reg.(actions := r.reg.actions,
                            lastUpdatedModifierFlags := r.reg.lastUpdatedModifierFlags,
                            lastModifierReportUpdate := r.reg.lastModifierReportUpdate)
    ensures r.out.sent == w.out.sent
    ensures WithinSlots(w.out.report, env.cfg) ==> WithinSlots(r.out.report, env.cfg)
    decreases i
  {
    if i == 0 then w else ActionLoop(ActionStep(w, env, i - 1), env, i - 1)
  }

  /** In a run without duplicate identities, the entry at `i - 1` shares its identity with no
      entry before it. */
  lemma LastIsFresh(a: seq<PendingKey>, i: nat)
    requires 0 < i <= |a| && Distinct(Refs(a))
    ensures forall p | 0 <= p < i - 1 :: a[p].keyRef != a[i - 1].keyRef
  {
    forall p | 0 <= p < i - 1
      ensures a[p].keyRef != a[i - 1].keyRef
    {
      assert Refs(a)[p] == a[p].keyRef && Refs(a)[i - 1] == a[i - 1].keyRef;
    }
  }

  /** The slices a step of the descending loop moves between. */
  lemma Slices(a: seq<PendingKey>, i: nat)
    requires 0 < i <= |a|
    ensures a[i - 1..] == [a[i - 1]] + a[i..]
    ensures Delete(a, i - 1)[..i - 1] == a[..i - 1]
    ensures Delete(a, i - 1)[i - 1..] == a[i..]
  {
  }

  lemma RetirePreservesDistinct(w: World, i: nat)
    requires i < |w.reg.actions| && Distinct(Refs(w.reg.actions))
    ensures Distinct(Refs(Delete(w.reg.actions, i)))
  {
    var a := w.reg.actions;
    assert Refs(Delete(a, i)) == Delete(Refs(a), i);
    DistinctDelete(Refs(a), i);
  }

  /** One step of the action loop on entry `i - 1`, seen from the entries still to visit and those
      already visited. */
  lemma ActionStepSplits(w: World, env: Env, i: nat)
    requires 0 < i <= |w.reg.actions| && Distinct(Refs(w.reg.actions))
    ensures var a := w.reg.actions;
      var w2 := ActionStep(w, env, i - 1);
      && Distinct(Refs(w2.reg.actions))
      && i - 1 <= |w2.reg.actions|
      && Filter(w2.reg.actions[..i - 1], IsKept(w2.levels)) == Filter(a[..i - 1], IsKept(w.levels))
      && w2.reg.actions[i - 1..] == (if IsKept(w.levels)(a[i - 1]) then [a[i - 1]] else []) + a[i..]
  {
    var a := w.reg.actions;
    var k := a[i - 1];
    var w2 := ActionStep(w, env, i - 1);
    Slices(a, i);
    RetirePreservesDistinct(w, i - 1);
    if !IsKept(w.levels)(k) {
      LastIsFresh(a, i);
      forall j | j in a[..i - 1]
        ensures IsKept(w2.levels)(j) == IsKept(w.levels)(j)
      {
        var p :| 0 <= p < i - 1 && a[p] == j;
        assert Level(w2.levels, j.keyRef) == Level(w.levels, j.keyRef);
      }
      FilterCongruence(a[..i - 1], IsKept(w2.levels), IsKept(w.levels));
    }
  }

  /** The action loop keeps exactly the held, unsuppressed actions among those it visits, in order. */
  lemma {:induction false} ActionLoopKeepsHeld(w: World, env: Env, i: nat)
    requires i <= |w.reg.actions| && Distinct(Refs(w.reg.actions))
    ensures ActionLoop(w, env, i).reg.actions == Filter(w.reg.actions[..i], IsKept(w.levels)) + w.reg.actions[i..]
    decreases i
  {
    if i > 0 {
      var a := w.reg.actions;
      var keep := IsKept(w.levels);
      var k := a[i - 1];
      var w2 := ActionStep(w, env, i - 1);
      ActionStepSplits(w, env, i);
      ActionLoopKeepsHeld(w2, env, i - 1);
      FilterSnoc(a, i - 1, keep);
      AppendAssoc(Filter(a[..i - 1], keep), if keep(k) then [k] else [], a[i..]);
    }
  }

  /** A key's level after the action loop has visited it: kept as it was while held and
      unsuppressed, else with its suppression cleared. */
  function Retired(levels: Levels, ref: KeyRef): KeyState {
    var ks := Level(levels, ref);
    if ks.current && !ks.suppressed then ks else ks.(suppressed := false)
  }

  /** The action loop changes no key level beyond those of the entries it visits. */
  lemma {:induction false} ActionLoopFrame(w: World, env: Env, i: nat)
    requires i <= |w.reg.actions|
    ensures forall ref | ref !in Refs(w.reg.actions[..i]) :: Level(ActionLoop(w, env, i).levels, ref) == Level(w.levels, ref)
    decreases i
  {
    if i > 0 {
      var a := w.reg.actions;
      var w2 := ActionStep(w, env, i - 1);
      Slices(a, i);
      assert Refs(a[..i]) == Refs(a[..i - 1]) + [a[i - 1].keyRef];
      assert w2.reg.actions[..i - 1] == a[..i - 1];
      ActionLoopFrame(w2, env, i - 1);
    }
  }

  /** One step of the action loop, seen from the key levels and the remaining entries. */
  lemma ActionStepFacts(w: World, env: Env, i: nat)
    requires i < |w.reg.actions| && Distinct(Refs(w.reg.actions))
    ensures var w2 := ActionStep(w, env, i);
      && Level(w2.levels, w.reg.actions[i].keyRef) == Retired(w.levels, w.reg.actions[i].keyRef)
      && (forall ref | ref != w.reg.actions[i].keyRef :: Level(w2.levels, ref) == Level(w.levels, ref))
      && Distinct(Refs(w2.reg.actions))
      && i <= |w2.reg.actions|
      && w2.reg.actions[..i] == w.reg.actions[..i]
  {
    RetirePreservesDistinct(w, i);
    Slices(w.reg.actions, i + 1);
  }

  /** The keys the action loop retires lose their suppression; the keys it keeps are untouched. */
  lemma {:induction false} ActionLoopClearsRetired(w: World, env: Env, i: nat)
    requires i <= |w.reg.actions| && Distinct(Refs(w.reg.actions))
    ensures forall p | 0 <= p < i :: Level(ActionLoop(w, env, i).levels, w.reg.actions[p].keyRef) == Retired(w.levels, w.reg.actions[p].keyRef)
    decreases i
  {
    if i > 0 {
      var a := w.reg.actions;
      var k := a[i - 1];
      LastIsFresh(a, i);
      ActionStepFacts(w, env, i - 1);
      var w2 := ActionStep(w, env, i - 1);
      ActionLoopClearsRetired(w2, env, i - 1);
      ActionLoopFrame(w2, env, i - 1);
      var r := ActionLoop(w2, env, i - 1);
      assert k.keyRef !in Refs(a[..i - 1]);
      forall p | 0 <= p < i
        ensures Level(r.levels, a[p].keyRef) == Retired(w.levels, a[p].keyRef)
      {
        if p < i - 1 {
          assert w2.reg.actions[p] == a[p];
        }
      }
    }
  }

  /** The part of executeActions that runs when keys were scheduled: the replay, the merge of
      modifiers reported within the merge window, the modifier-only actions, and the send. */
  function FlushScheduled(w: World, env: Env): (r: World)
    ensures r.reg == w.reg.(lastUpdatedModifierFlags := r.reg.lastUpdatedModifierFlags,
                            lastModifierReportUpdate := r.reg.lastModifierReportUpdate)
    ensures r.levels == w.levels
    ensures r.out.sent == w.out.sent + [r.out.report]
    ensures WithinSlots(w.out.report, env.cfg) ==> WithinSlots(r.out.report, env.cfg)
  {
    var w1 := ReplayScheduled(w, env, w.reg.scheduled);
    var w2 :=
      if Elapsed(env.now, w1.reg.lastModifierReportUpdate) < ModifierMergeWindow
      then AddModifiersToReport(w1, env.now, w1.reg.lastUpdatedModifierFlags)
      else w1;
    var w3 := ExecModifierActions(w2, env, w2.reg.actions);
    w3.(out := w3.out.(sent := w3.out.sent + [w3.out.report]))
  }

  /** The flushed report holds every held modifier-only action's modifiers, the modifiers after
      the replay, and those of the last non-empty merge when it lies within the merge window. */
  lemma FlushMergesRecentModifiers(w: World, env: Env)
    ensures var w1 := ReplayScheduled(w, env, w.reg.scheduled);
      && (Elapsed(env.now, w1.reg.lastModifierReportUpdate) < ModifierMergeWindow ==>
            w1.reg.lastUpdatedModifierFlags & !FlushScheduled(w, env).out.report.modifiers == 0)
      && w1.out.report.modifiers & !FlushScheduled(w, env).out.report.modifiers == 0
      && forall k | k in w.reg.actions && HeldModifierOnly(w, env, k) ::
           Resolve(w.reg, env.keymap, k.keyRef).modifiers & !FlushScheduled(w, env).out.report.modifiers == 0
  {
    var w1 := ReplayScheduled(w, env, w.reg.scheduled);
    var w2 :=
      if Elapsed(env.now, w1.reg.lastModifierReportUpdate) < ModifierMergeWindow
      then AddModifiersToReport(w1, env.now, w1.reg.lastUpdatedModifierFlags)
      else w1;
    assert w2.reg.actions == w.reg.actions;
    HeldModifierMaskCovers(w2, env, w2.reg.actions);
    ExecModifierActionsMerges(w2, env, w2.reg.actions);
    assert forall k: PendingKey :: HeldModifierOnly(w2, env, k) == HeldModifierOnly(w, env, k);
    assert forall k: PendingKey :: Resolve(w2.reg, env.keymap, k.keyRef) == Resolve(w.reg, env.keymap, k.keyRef);
  }

  /** The flushed report holds every replayed keystroke's own modifiers. */
  lemma FlushKeepsReplayedModifiers(w: World, env: Env)
    ensures forall k | k in w.reg.scheduled ::
      OwnModifiers(w.reg, env.keymap, k) & !FlushScheduled(w, env).out.report.modifiers == 0
  {
    var w1 := ReplayScheduled(w, env, w.reg.scheduled);
    var m := FlushScheduled(w, env).out.report.modifiers;
    FlushMergesRecentModifiers(w, env);
    ReplayKeepsModifiers(w, env, w.reg.scheduled);
    forall k | k in w.reg.scheduled
      ensures OwnModifiers(w.reg, env.keymap, k) & !m == 0
    {
      BitsKeptTransitively(OwnModifiers(w.reg, env.keymap, k), w1.out.report.modifiers, m);
    }
  }

  /** usb_report_updater.c executeActions. */
  function ExecuteActions(w: World, env: Env): (r: World)
    ensures r.reg == w.reg.(actions := r.reg.actions,
                            lastUpdatedModifierFlags := r.reg.lastUpdatedModifierFlags,
                            lastModifierReportUpdate := r.reg.lastModifierReportUpdate)
    ensures |w.reg.scheduled| == 0 ==> r.out.sent == w.out.sent
    ensures |w.reg.scheduled| > 0 ==> |r.out.sent| == |w.out.sent| + 1 && r.out.sent[..|w.out.sent|] == w.out.sent
    ensures WithinSlots(w.out.report, env.cfg) ==> WithinSlots(r.out.report, env.cfg)
  {
    var w1 := if |w.reg.scheduled| > 0 then FlushScheduled(w, env) else w;
    ActionLoop(w1, env, |w1.reg.actions|)
  }

  /** After executeActions no action entry is left whose key is released or suppressed, and
      the survivors keep their order. */
  lemma ExecuteActionsKeepsHeld(w: World, env: Env)
    requires Distinct(Refs(w.reg.actions))
    ensures ExecuteActions(w, env).reg.actions == Filter(w.reg.actions, IsKept(w.levels))
    ensures forall k | k in ExecuteActions(w, env).reg.actions ::
      Level(w.levels, k.keyRef).current && !Level(w.levels, k.keyRef).suppressed
  {
    var w1 := if |w.reg.scheduled| > 0 then FlushScheduled(w, env) else w;
    var a := w.reg.actions;
    assert w1.reg.actions == a && w1.levels == w.levels;
    ActionLoopKeepsHeld(w1, env, |a|);
    assert a[..|a|] == a && a[|a|..] == [];
    FilterMembers(a, IsKept(w.levels));
  }

  /** executeActions clears the suppression of every key it retires, and changes no other key level. */
  lemma ExecuteActionsClearsRetired(w: World, env: Env)
    requires Distinct(Refs(w.reg.actions))
    ensures forall p | 0 <= p < |w.reg.actions| ::
      Level(ExecuteActions(w, env).levels, w.reg.actions[p].keyRef) == Retired(w.levels, w.reg.actions[p].keyRef)
    ensures forall ref | ref !in Refs(w.reg.actions) :: Level(ExecuteActions(w, env).levels, ref) == Level(w.levels, ref)
  {
    var w1 := if |w.reg.scheduled| > 0 then FlushScheduled(w, env) else w;
    var a := w.reg.actions;
    assert w1.reg.actions == a && w1.levels == w.levels;
    ActionLoopClearsRetired(w1, env, |a|);
    ActionLoopFrame(w1, env, |a|);
    assert a[..|a|] == a;
  }
}
