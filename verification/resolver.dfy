/** The three states of the dual-role resolver (usb_report_updater.c): free typing, waiting for
    a key with a secondary role to be released, and the secondary role being active. */
module Resolver {
  import opened Types
  import opened Arrays
  import opened KeyboardState
  import opened Filtering
  import opened Machine
  import opened Applier
  import opened Executor

  /** A pending modifier held longer than this many milliseconds may take its secondary role. */
  const SecRoleKickInThreshold := 250

  /** usb_report_updater.c secondaryRoleTimeoutElapsed: strictly more than the threshold. */
  predicate TimeoutElapsed(now: u32, k: PendingKey) {
    Elapsed(now, k.enqueueTime) > SecRoleKickInThreshold
  }

  /** The timeout compares the unsigned 32-bit difference of the clock and the enqueue time: a key
      enqueued just before the clock wrapped has waited only the few ticks since. */
  lemma TimeoutElapsedMeans(now: u32, k: PendingKey)
    ensures TimeoutElapsed(now, k) <==> (now as int - k.enqueueTime as int) % 0x1_0000_0000 > SecRoleKickInThreshold
  {
  }

  function IsPressed(levels: Levels): PendingKey -> bool {
    (k: PendingKey) => Level(levels, k.keyRef).current
  }

  function IsReleased(levels: Levels): PendingKey -> bool {
    (k: PendingKey) => !Level(levels, k.keyRef).current
  }

  // ---------------------------------------------------------------- free typing

  /** The loop of handleFreeTypeState that hands the held modifiers of `mods` to the action set,
      first to last; a full action set is an overflow. */
  function PromoteModifiers(reg: Registry, levels: Levels, mods: seq<PendingKey>): (r: Outcome<Registry>)
    ensures r.Overflow? ==> r.buffer == ActionSet
    ensures r.Ok? ==> r.value == reg.(actions := r.value.actions)
    decreases |mods|
  {
    if |mods| == 0 then Ok(reg)
    else
      var last := mods[|mods| - 1];
      var r :- PromoteModifiers(reg, levels, mods[..|mods| - 1]);
      if Level(levels, last.keyRef).current then AddAction(r, last) else Ok(r)
  }

  /** The held modifiers are appended in order, and the loop overflows exactly when they do not
      fit. */
  lemma {:induction false} PromoteModifiersAppends(reg: Registry, levels: Levels, mods: seq<PendingKey>)
    requires |reg.actions| <= Capacity
    ensures var r := PromoteModifiers(reg, levels, mods);
      && (r.Ok? <==> |reg.actions| + |Filter(mods, IsPressed(levels))| <= Capacity)
      && (r.Ok? ==> r.value.actions == reg.actions + Filter(mods, IsPressed(levels)))
    decreases |mods|
  {
    var keep := IsPressed(levels);
    if |mods| == 0 {
      assert reg.actions + Filter(mods, keep) == reg.actions;
    } else {
      var init := mods[..|mods| - 1];
      var last := mods[|mods| - 1];
      PromoteModifiersAppends(reg, levels, init);
      FilterSnoc(mods, |mods| - 1, keep);
      assert mods[..|mods|] == mods;
      var r0 := PromoteModifiers(reg, levels, init);
      if r0.Ok? && keep(last) {
        var r := AddAction(r0.value, last);
        if r.Ok? {
          assert r.value.actions == (reg.actions + Filter(init, keep)) + [last];
          AppendAssoc(reg.actions, Filter(init, keep), [last]);
        }
      }
    }
  }

  /** A transition to the await state needs a longest-pressed key with a secondary role while a
      modifier is pending. */
  predicate MayAwait(w: World, env: Env, longest: Option<PendingKey>) {
    longest.Some? && |w.reg.modifiers| > 0 && SecondaryRoleOf(w.reg, env.keymap, longest.value.keyRef) != NoRole
  }

  /** The part of handleFreeTypeState without a transition, up to executeActions: the held pending
      modifiers join the actions, and the modifier set is emptied. */
  function ModifiersToActions(w: World): (r: Outcome<World>)
    ensures r.Overflow? ==> r.buffer == ActionSet
    ensures r.Ok? ==> r.value == w.(reg := w.reg.(actions := r.value.reg.actions, modifiers := []))
  {
    var reg :- PromoteModifiers(w.reg, w.levels, w.reg.modifiers);
    Ok(w.(reg := reg.(modifiers := [])))
  }

  /** Exactly the held pending modifiers are appended to the actions, in order, unless they do
      not fit. */
  lemma ModifiersToActionsAppends(w: World)
    requires |w.reg.actions| <= Capacity
    ensures var r := ModifiersToActions(w);
      && (r.Ok? <==> |w.reg.actions| + |Filter(w.reg.modifiers, IsPressed(w.levels))| <= Capacity)
      && (r.Ok? ==> r.value.reg.actions == w.reg.actions + Filter(w.reg.modifiers, IsPressed(w.levels)))
  {
    PromoteModifiersAppends(w.reg, w.levels, w.reg.modifiers);
  }

  /** usb_report_updater.c handleFreeTypeState. */
  function HandleFreeType(w: World, env: Env, longest: Option<PendingKey>): (r: Outcome<World>)
    ensures MayAwait(w, env, longest) ==> r == Ok(w.(reg := w.reg.(stateType := AwaitingSecondaryRoleRelease)))
    ensures !MayAwait(w, env, longest) ==> (r.Ok? <==> ModifiersToActions(w).Ok?)
    ensures !MayAwait(w, env, longest) && r.Ok? ==> r.value == ExecuteActions(ModifiersToActions(w).value, env)
  {
    if MayAwait(w, env, longest) then Ok(w.(reg := w.reg.(stateType := AwaitingSecondaryRoleRelease)))
    else
      var w1 :- ModifiersToActions(w);
      Ok(ExecuteActions(w1, env))
  }

  // ---------------------------------------------------------------- waiting for a release

  /** The first loop of handleSecondaryRoleReleaseAwaitState over `modifiers[0 .. i)`, from the
      last entry down. With several modifiers pending, a released one only records its enqueue
      time and raises the trigger; a sole released modifier is scheduled unless its timeout has
      elapsed, and is untracked. */
  function AwaitReleaseLoop(w: World, env: Env, i: nat, trigger: bool): (r: (World, bool))
    requires i <= |w.reg.modifiers|
    ensures r.0.reg == w.reg.(modifiers := r.0.reg.modifiers, scheduled := r.0.reg.scheduled,
                              releasedActionKeyEnqueueTime := r.0.reg.releasedActionKeyEnqueueTime)
    ensures r.0 == w.(reg := r.0.reg, stamps := r.0.stamps)
    decreases i
  {
    if i == 0 then (w, trigger)
    else
      var m := w.reg.modifiers[i - 1];
      if Level(w.levels, m.keyRef).current then AwaitReleaseLoop(w, env, i - 1, trigger)
      else if |w.reg.modifiers| > 1 then
        AwaitReleaseLoop(w.(reg := w.reg.(releasedActionKeyEnqueueTime := m.enqueueTime)), env, i - 1, true)
      else
        var w1 := if !TimeoutElapsed(env.now, m) then ScheduleKey(w, env, m) else w;
        AwaitReleaseLoop(w1.(reg := UntrackModifier(w1.reg, i - 1)), env, i - 1, trigger)
  }

  /** With several modifiers pending, the first loop untracks and schedules nothing, and it raises
      the trigger exactly when one of the modifiers is released. */
  lemma {:induction false} AwaitSeveralKeepsModifiers(w: World, env: Env, i: nat, trigger: bool)
    requires i <= |w.reg.modifiers| && |w.reg.modifiers| > 1
    ensures AwaitReleaseLoop(w, env, i, trigger).0.reg.modifiers == w.reg.modifiers
    ensures AwaitReleaseLoop(w, env, i, trigger).0.reg.scheduled == w.reg.scheduled
    ensures AwaitReleaseLoop(w, env, i, trigger).0.levels == w.levels
    ensures AwaitReleaseLoop(w, env, i, trigger).1 <==>
      trigger || exists j | 0 <= j < i :: !Level(w.levels, w.reg.modifiers[j].keyRef).current
    decreases i
  {
    if i > 0 {
      var m := w.reg.modifiers[i - 1];
      if Level(w.levels, m.keyRef).current {
        AwaitSeveralKeepsModifiers(w, env, i - 1, trigger);
      } else {
        AwaitSeveralKeepsModifiers(w.(reg := w.reg.(releasedActionKeyEnqueueTime := m.enqueueTime)), env, i - 1, true);
      }
    }
  }

  /** A sole pending modifier that is released is untracked, and scheduled for its primary role
      exactly when its timeout has not elapsed. */
  lemma AwaitSoleReleasedModifier(w: World, env: Env)
    requires |w.reg.modifiers| == 1 && !Level(w.levels, w.reg.modifiers[0].keyRef).current
    ensures var r := AwaitReleaseLoop(w, env, 1, false);
      && r.0.reg.modifiers == []
      && !r.1
      && (TimeoutElapsed(env.now, w.reg.modifiers[0]) ==> r.0.reg.scheduled == w.reg.scheduled)
      && (!TimeoutElapsed(env.now, w.reg.modifiers[0]) ==> r.0.reg.scheduled == w.reg.scheduled + [w.reg.modifiers[0]])
  {
  }

  /** Some action key has been released while a modifier is still pending. */
  predicate ActionReleasedWhileModifierPending(w: World) {
    |w.reg.modifiers| > 0 && exists i | 0 <= i < |w.reg.actions| :: !Level(w.levels, w.reg.actions[i].keyRef).current
  }

  /** A held pending modifier that may take its secondary role. */
  predicate ModifierActivates(w: World, env: Env, trigger: bool) {
    exists i | 0 <= i < |w.reg.modifiers| ::
      Level(w.levels, w.reg.modifiers[i].keyRef).current && (trigger || TimeoutElapsed(env.now, w.reg.modifiers[i]))
  }

  /** usb_report_updater.c handleSecondaryRoleReleaseAwaitState. */
  function HandleAwait(w: World, env: Env): (r: World)
    ensures var (w1, trigger) := AwaitReleaseLoop(w, env, |w.reg.modifiers|, false);
      var activated := ModifierActivates(w1, env, trigger || ActionReleasedWhileModifierPending(w1));
      && (activated ==> r == w1.(reg := w1.reg.(stateType := SecondaryRoleActive)))
      && (!activated && |w1.reg.modifiers| == 0 ==>
            r.reg.stateType == FreeType && r.reg.modifiers == [] && r.reg.actions == ExecuteActions(w1, env).reg.actions)
      && (!activated && |w1.reg.modifiers| > 0 ==> r == w1)
  {
    var (w1, trigger) := AwaitReleaseLoop(w, env, |w.reg.modifiers|, false);
    var trigger2 := trigger || ActionReleasedWhileModifierPending(w1);
    if ModifierActivates(w1, env, trigger2) then w1.(reg := w1.reg.(stateType := SecondaryRoleActive))
    else if |w1.reg.modifiers| == 0 then
      var w2 := ExecuteActions(w1, env);
      w2.(reg := w2.reg.(stateType := FreeType))
    else w1
  }

  /** With several pending modifiers and none of them held, the waiting handler untracks,
      schedules and sends nothing and stays in the waiting state: only a held key with a secondary
      role can end the wait. */
  lemma AwaitStallsWithoutHeldModifier(w: World, env: Env)
    requires |w.reg.modifiers| > 1
    requires forall i | 0 <= i < |w.reg.modifiers| :: !Level(w.levels, w.reg.modifiers[i].keyRef).current
    ensures var r := HandleAwait(w, env);
      && r.reg.stateType == w.reg.stateType
      && r.reg.modifiers == w.reg.modifiers && r.reg.actions == w.reg.actions
      && r.reg.scheduled == w.reg.scheduled && r.out == w.out
  {
    AwaitSeveralKeepsModifiers(w, env, |w.reg.modifiers|, false);
  }

  // ---------------------------------------------------------------- secondary role active

  /** The first loop of handleActiveSecondaryRoleState over `actions[0 .. n)`: every released
      action key is scheduled for immediate execution, in order. */
  function ScheduleReleasedActions(w: World, env: Env, n: nat): (r: World)
    requires n <= |w.reg.actions|
    ensures r.reg == w.reg.(scheduled := r.reg.scheduled, releasedActionKeyEnqueueTime := r.reg.releasedActionKeyEnqueueTime)
    ensures r == w.(reg := r.reg, stamps := r.stamps)
    decreases n
  {
    if n == 0 then w
    else
      var w1 := ScheduleReleasedActions(w, env, n - 1);
      var k := w1.reg.actions[n - 1];
      if !Level(w1.levels, k.keyRef).current then ScheduleKey(w1, env, k) else w1
  }

  /** The enqueue time of the last entry of `ks`, or `default` when there is none. */
  function LastEnqueueTime(default: u32, ks: seq<PendingKey>): u32 {
    if |ks| == 0 then default else ks[|ks| - 1].enqueueTime
  }

  lemma LastEnqueueTimeAppend(default: u32, ks: seq<PendingKey>, more: seq<PendingKey>)
    ensures LastEnqueueTime(LastEnqueueTime(default, ks), more) == LastEnqueueTime(default, ks + more)
  {
    if |more| > 0 {
      assert (ks + more)[|ks + more| - 1] == more[|more| - 1];
    } else {
      assert ks + more == ks;
    }
  }

  /** One step of the loop: the `n`-th action joins the queue exactly when it is released. */
  lemma ScheduleReleasedStep(w: World, env: Env, n: nat)
    requires 0 < n <= |w.reg.actions|
    ensures var k := w.reg.actions[n - 1];
      ScheduleReleasedActions(w, env, n).reg.scheduled ==
        ScheduleReleasedActions(w, env, n - 1).reg.scheduled + (if IsReleased(w.levels)(k) then [k] else [])
    ensures var k := w.reg.actions[n - 1];
      ScheduleReleasedActions(w, env, n).reg.releasedActionKeyEnqueueTime ==
        LastEnqueueTime(ScheduleReleasedActions(w, env, n - 1).reg.releasedActionKeyEnqueueTime,
                        if IsReleased(w.levels)(k) then [k] else [])
  {
    var w1 := ScheduleReleasedActions(w, env, n - 1);
    var k := w.reg.actions[n - 1];
    assert w1.reg.actions[n - 1] == k;
    assert Level(w1.levels, k.keyRef).current == Level(w.levels, k.keyRef).current;
  }

  /** The queue gains exactly the released actions, in order. */
  lemma {:induction false} ScheduleReleasedActionsContents(w: World, env: Env, n: nat)
    requires n <= |w.reg.actions|
    ensures ScheduleReleasedActions(w, env, n).reg.scheduled ==
      w.reg.scheduled + Filter(w.reg.actions[..n], IsReleased(w.levels))
    decreases n
  {
    if n > 0 {
      var a := w.reg.actions;
      var keep := IsReleased(w.levels);
      ScheduleReleasedActionsContents(w, env, n - 1);
      ScheduleReleasedStep(w, env, n);
      FilterSnoc(a, n - 1, keep);
      AppendAssoc(w.reg.scheduled, Filter(a[..n - 1], keep), if keep(a[n - 1]) then [a[n - 1]] else []);
    }
  }

  /** The released-action time becomes the enqueue time of the last released action, if any. */
  lemma {:induction false} ScheduleReleasedActionsTime(w: World, env: Env, n: nat)
    requires n <= |w.reg.actions|
    ensures ScheduleReleasedActions(w, env, n).reg.releasedActionKeyEnqueueTime ==
      LastEnqueueTime(w.reg.releasedActionKeyEnqueueTime, Filter(w.reg.actions[..n], IsReleased(w.levels)))
    decreases n
  {
    if n > 0 {
      var a := w.reg.actions;
      var keep := IsReleased(w.levels);
      var k := a[n - 1];
      ScheduleReleasedActionsTime(w, env, n - 1);
      ScheduleReleasedStep(w, env, n);
      FilterSnoc(a, n - 1, keep);
      LastEnqueueTimeAppend(w.reg.releasedActionKeyEnqueueTime, Filter(a[..n - 1], keep), if keep(k) then [k] else []);
    }
  }

  /** A held pending modifier whose secondary role takes effect: it is already committed, its
      timeout has elapsed, or it was enqueued before the last released action key. */
  predicate Commits(w: World, env: Env, m: PendingKey) {
    && Level(w.levels, m.keyRef).current
    && (m.activated || TimeoutElapsed(env.now, m) || m.enqueueTime < w.reg.releasedActionKeyEnqueueTime)
  }

  /** Applying a committed modifier's secondary role: a layer switcher sets the active layer, a
      modifier role merges its modifier bits into the report. */
  function CommitRole(w: World, env: Env, m: PendingKey): (r: World)
    ensures r == MergeFrame(w.(reg := w.reg.(activeLayer := r.reg.activeLayer)), r)
    ensures w.out.report.modifiers & !r.out.report.modifiers == 0
    ensures SecondaryRoleOf(w.reg, env.keymap, m.keyRef).LayerSwitcher? ==>
      r == w.(reg := w.reg.(activeLayer := SecondaryRoleOf(w.reg, env.keymap, m.keyRef).layer))
    ensures SecondaryRoleOf(w.reg, env.keymap, m.keyRef).ModifierRole? ==>
      r == AddModifiersToReport(w, env.now, SecondaryRoleOf(w.reg, env.keymap, m.keyRef).mask)
    ensures SecondaryRoleOf(w.reg, env.keymap, m.keyRef).NoRole? ==> r == w
  {
    match SecondaryRoleOf(w.reg, env.keymap, m.keyRef)
    case LayerSwitcher(layer) => w.(reg := w.reg.(activeLayer := layer))
    case ModifierRole(mask) => AddModifiersToReport(w, env.now, mask)
    case NoRole => w
  }

  /** What a commit may change: the modifier entries, the active layer, the report's modifier
      byte and the record of the last modifier merge. */
  function CommitFrame(w: World, r: World): World {
    w.(reg := w.reg.(modifiers := r.reg.modifiers, activeLayer := r.reg.activeLayer,
                     lastUpdatedModifierFlags := r.reg.lastUpdatedModifierFlags,
                     lastModifierReportUpdate := r.reg.lastModifierReportUpdate),
       out := w.out.(report := w.out.report.(modifiers := r.out.report.modifiers)))
  }

  /** One committing modifier at `i`: its role is applied and it is marked activated. */
  function CommitAt(w: World, env: Env, i: nat): (r: World)
    requires i < |w.reg.modifiers|
    ensures r.reg == w.reg.(modifiers := r.reg.modifiers, activeLayer := r.reg.activeLayer,
                            lastUpdatedModifierFlags := r.reg.lastUpdatedModifierFlags,
                            lastModifierReportUpdate := r.reg.lastModifierReportUpdate)
    ensures r.reg.modifiers == w.reg.modifiers[i := w.reg.modifiers[i].(activated := true)]
    ensures r.levels == w.levels && r.layers == w.layers
    ensures r.out == w.out.(report := w.out.report.(modifiers := r.out.report.modifiers))
    ensures w.out.report.modifiers & !r.out.report.modifiers == 0
  {
    var m := w.reg.modifiers[i];
    var w1 := CommitRole(w, env, m);
    w1.(reg := w1.reg.(modifiers := w1.reg.modifiers[i := m.(activated := true)]))
  }

  /** The second loop of handleActiveSecondaryRoleState over `modifiers[0 .. i)`, from the last
      entry down: every committing modifier has its role applied and is marked activated. */
  function CommitLoop(w: World, env: Env, i: nat, active: bool): (r: (World, bool))
    requires i <= |w.reg.modifiers|
    ensures r.0 == CommitFrame(w, r.0)
    ensures |r.0.reg.modifiers| == |w.reg.modifiers|
    decreases i
  {
    if i == 0 then (w, active)
    else if Commits(w, env, w.reg.modifiers[i - 1]) then CommitLoop(CommitAt(w, env, i - 1), env, i - 1, true)
    else CommitLoop(w, env, i - 1, active)
  }

  /** Committing the modifier at `i` marks it and leaves every other entry, and whether each of
      them commits, as it was. */
  lemma CommitAtFacts(w: World, env: Env, i: nat)
    requires i < |w.reg.modifiers|
    ensures var w2 := CommitAt(w, env, i);
      && w2.reg.modifiers[i] == w.reg.modifiers[i].(activated := true)
      && (forall j | 0 <= j < |w.reg.modifiers| && j != i :: w2.reg.modifiers[j] == w.reg.modifiers[j])
      && (forall m: PendingKey :: Commits(w2, env, m) == Commits(w, env, m))
  {
  }

  /** Every committing modifier is left activated and every other entry is unchanged. */
  lemma {:induction false} CommitLoopMarksActivated(w: World, env: Env, i: nat, active: bool)
    requires i <= |w.reg.modifiers|
    ensures var r := CommitLoop(w, env, i, active);
      forall j | 0 <= j < |w.reg.modifiers| ::
        r.0.reg.modifiers[j] ==
          if j < i && Commits(w, env, w.reg.modifiers[j]) then w.reg.modifiers[j].(activated := true) else w.reg.modifiers[j]
    decreases i
  {
    if i > 0 {
      if Commits(w, env, w.reg.modifiers[i - 1]) {
        var w2 := CommitAt(w, env, i - 1);
        CommitAtFacts(w, env, i - 1);
        CommitLoopMarksActivated(w2, env, i - 1, true);
        var r := CommitLoop(w2, env, i - 1, true);
        forall j | 0 <= j < |w.reg.modifiers|
          ensures r.0.reg.modifiers[j] ==
            if j < i && Commits(w, env, w.reg.modifiers[j]) then w.reg.modifiers[j].(activated := true) else w.reg.modifiers[j]
        {
          if j != i - 1 {
            assert w2.reg.modifiers[j] == w.reg.modifiers[j];
          }
        }
      } else {
        CommitLoopMarksActivated(w, env, i - 1, active);
      }
    }
  }

  /** The loop reports a commit exactly when some modifier committed, and without one nothing
      changes. */
  lemma {:induction false} CommitLoopReportsCommit(w: World, env: Env, i: nat, active: bool)
    requires i <= |w.reg.modifiers|
    ensures var r := CommitLoop(w, env, i, active);
      && (r.1 <==> active || exists j | 0 <= j < i :: Commits(w, env, w.reg.modifiers[j]))
      && (!r.1 ==> r.0 == w)
    decreases i
  {
    if i > 0 {
      if Commits(w, env, w.reg.modifiers[i - 1]) {
        CommitAtFacts(w, env, i - 1);
        CommitLoopReportsCommit(CommitAt(w, env, i - 1), env, i - 1, true);
      } else {
        CommitLoopReportsCommit(w, env, i - 1, active);
      }
    }
  }

  /** A released pending modifier whose primary role is still owed: neither committed nor timed out. */
  function EmitsPrimary(now: u32, levels: Levels): PendingKey -> bool {
    (k: PendingKey) => !Level(levels, k.keyRef).current && !TimeoutElapsed(now, k) && !k.activated
  }

  /** One iteration of the third loop, on entry `j`: a released modifier is scheduled if its
      primary role is owed, and untracked. */
  function ReleaseStep(w: World, env: Env, j: nat): (r: World)
    requires j < |w.reg.modifiers|
    ensures var m := w.reg.modifiers[j];
      r.reg.scheduled == w.reg.scheduled + (if EmitsPrimary(env.now, w.levels)(m) then [m] else [])
    ensures IsPressed(w.levels)(w.reg.modifiers[j]) ==> r.reg.modifiers == w.reg.modifiers
    ensures !IsPressed(w.levels)(w.reg.modifiers[j]) ==> r.reg.modifiers == Delete(w.reg.modifiers, j)
    ensures r.reg == w.reg.(modifiers := r.reg.modifiers, scheduled := r.reg.scheduled,
                            releasedActionKeyEnqueueTime := r.reg.releasedActionKeyEnqueueTime)
    ensures r == w.(reg := r.reg, stamps := r.stamps)
  {
    var m := w.reg.modifiers[j];
    if Level(w.levels, m.keyRef).current then w
    else
      var w1 := if !TimeoutElapsed(env.now, m) && !m.activated then ScheduleKey(w, env, m) else w;
      w1.(reg := UntrackModifier(w1.reg, j))
  }

  /** The third loop of handleActiveSecondaryRoleState over `modifiers[0 .. i)`, from the last
      entry down. */
  function ReleaseLoop(w: World, env: Env, i: nat): (r: World)
    requires i <= |w.reg.modifiers|
    ensures r.reg == w.reg.(modifiers := r.reg.modifiers, scheduled := r.reg.scheduled,
                            releasedActionKeyEnqueueTime := r.reg.releasedActionKeyEnqueueTime)
    ensures r == w.(reg := r.reg, stamps := r.stamps)
    ensures |r.reg.modifiers| <= |w.reg.modifiers|
    decreases i
  {
    if i == 0 then w else ReleaseLoop(ReleaseStep(w, env, i - 1), env, i - 1)
  }

  /** One step of the third loop on entry `i - 1`, seen from the entries still to visit and those
      already visited. */
  lemma ReleaseStepSplits(w: World, env: Env, i: nat)
    requires 0 < i <= |w.reg.modifiers|
    ensures var mods := w.reg.modifiers;
      var w2 := ReleaseStep(w, env, i - 1);
      && i - 1 <= |w2.reg.modifiers|
      && w2.reg.modifiers[..i - 1] == mods[..i - 1]
      && w2.reg.modifiers[i - 1..] == (if IsPressed(w.levels)(mods[i - 1]) then [mods[i - 1]] else []) + mods[i..]
  {
    Slices(w.reg.modifiers, i);
  }

  /** The third loop keeps exactly the held modifiers among those it visits, in order. */
  lemma {:induction false} ReleaseLoopKeepsPressed(w: World, env: Env, i: nat)
    requires i <= |w.reg.modifiers|
    ensures ReleaseLoop(w, env, i).reg.modifiers == Filter(w.reg.modifiers[..i], IsPressed(w.levels)) + w.reg.modifiers[i..]
    decreases i
  {
    if i > 0 {
      var mods := w.reg.modifiers;
      var keep := IsPressed(w.levels);
      var m := mods[i - 1];
      var w2 := ReleaseStep(w, env, i - 1);
      ReleaseStepSplits(w, env, i);
      ReleaseLoopKeepsPressed(w2, env, i - 1);
      FilterSnoc(mods, i - 1, keep);
      AppendAssoc(Filter(mods[..i - 1], keep), if keep(m) then [m] else [], mods[i..]);
    }
  }

  /** Reversing a run with at most one more entry at its end puts that entry first. */
  lemma ReverseSnoc(s: seq<PendingKey>, more: seq<PendingKey>)
    requires |more| <= 1
    ensures Reverse(s + more) == more + Reverse(s)
  {
    if |more| == 1 {
      assert (s + more)[..|s + more| - 1] == s;
    } else {
      assert s + more == s;
    }
  }

  /** The third loop schedules exactly the released modifiers whose primary role is owed, last
      entry first. */
  lemma {:induction false} ReleaseLoopSchedulesOwed(w: World, env: Env, i: nat)
    requires i <= |w.reg.modifiers|
    ensures ReleaseLoop(w, env, i).reg.scheduled ==
      w.reg.scheduled + Reverse(Filter(w.reg.modifiers[..i], EmitsPrimary(env.now, w.levels)))
    decreases i
  {
    if i > 0 {
      var mods := w.reg.modifiers;
      var owed := EmitsPrimary(env.now, w.levels);
      var m := mods[i - 1];
      var one := if owed(m) then [m] else [];
      var w2 := ReleaseStep(w, env, i - 1);
      ReleaseStepSplits(w, env, i);
      ReleaseLoopSchedulesOwed(w2, env, i - 1);
      FilterSnoc(mods, i - 1, owed);
      ReverseSnoc(Filter(mods[..i - 1], owed), one);
      AppendAssoc(w.reg.scheduled, one, Reverse(Filter(mods[..i - 1], owed)));
    }
  }

  /** A modifier that was committed is never scheduled for its primary role by the third loop, nor
      one whose timeout has elapsed or that is still held. */
  lemma ReleaseLoopNeverEmitsCommitted(w: World, env: Env, i: nat)
    requires i <= |w.reg.modifiers|
    ensures var r := ReleaseLoop(w, env, i);
      && |w.reg.scheduled| <= |r.reg.scheduled|
      && r.reg.scheduled[..|w.reg.scheduled|] == w.reg.scheduled
      && forall p | |w.reg.scheduled| <= p < |r.reg.scheduled| ::
           !r.reg.scheduled[p].activated && !TimeoutElapsed(env.now, r.reg.scheduled[p])
           && !Level(w.levels, r.reg.scheduled[p].keyRef).current
  {
    var owed := EmitsPrimary(env.now, w.levels);
    var f := Filter(w.reg.modifiers[..i], owed);
    var n := |w.reg.scheduled|;
    var r := ReleaseLoop(w, env, i);
    ReleaseLoopSchedulesOwed(w, env, i);
    FilterSatisfies(w.reg.modifiers[..i], owed);
    assert r.reg.scheduled == w.reg.scheduled + Reverse(f);
    forall p | n <= p < |r.reg.scheduled|
      ensures owed(r.reg.scheduled[p])
    {
      assert r.reg.scheduled[p] == Reverse(f)[p - n] == f[|f| - 1 - (p - n)];
    }
  }

  /** The three loops of handleActiveSecondaryRoleState, before the state update; the flag says
      whether some modifier committed. */
  function ActiveLoops(w: World, env: Env): (r: (World, bool))
    ensures r.0.reg.actions == w.reg.actions && r.0.reg.stateType == w.reg.stateType
    ensures r.0.levels == w.levels && r.0.out.sent == w.out.sent
    ensures |r.0.reg.modifiers| <= |w.reg.modifiers|
  {
    var w1 := ScheduleReleasedActions(w, env, |w.reg.actions|);
    var (w2, active) := CommitLoop(w1, env, |w1.reg.modifiers|, false);
    var w3 := ReleaseLoop(w2, env, |w2.reg.modifiers|);
    (w3, active)
  }

  /** usb_report_updater.c handleActiveSecondaryRoleState: without a commit the resolver falls
      back to waiting (actions still pending) or to free typing; the actions are then executed. */
  function HandleActive(w: World, env: Env): (r: World)
    ensures var (w3, active) := ActiveLoops(w, env);
      && (active ==> r.reg.stateType == w.reg.stateType)
      && (!active && |w.reg.actions| > 0 ==> r.reg.stateType == AwaitingSecondaryRoleRelease)
      && (!active && |w.reg.actions| == 0 ==> r.reg.stateType == FreeType)
      && r.reg.modifiers == w3.reg.modifiers
  {
    var (w3, active) := ActiveLoops(w, env);
    var w4 :=
      if !active then w3.(reg := w3.reg.(stateType := if |w3.reg.actions| > 0 then AwaitingSecondaryRoleRelease else FreeType))
      else w3;
    ExecuteActions(w4, env)
  }
}
