/** The two behaviours a dual-role key exists for, followed through whole handler calls: tapped
    alone it types its primary keystroke, and held while another key is typed it lends that
    keystroke its modifier. */
module Scenarios {
  import opened Types
  import opened KeyboardState
  import opened Machine
  import opened Applier
  import opened Executor
  import opened Resolver

  /** A dual-role key pressed and released alone, before the kick-in threshold, while the resolver
      waits for it: the waiting handler sends a report with its primary scancode and no modifier,
      leaves the active layer alone, and returns to free typing. The 100 ms merge of the last
      modifier report adds nothing because no modifier was reported. */
  lemma TapSendsPrimaryRole(w: World, env: Env, scancode: u16, role: SecondaryRole)
    requires |w.reg.modifiers| == 1 && w.reg.actions == [] && w.reg.scheduled == []
    requires !Level(w.levels, w.reg.modifiers[0].keyRef).current && !TimeoutElapsed(env.now, w.reg.modifiers[0])
    requires role != NoRole && Resolve(w.reg, env.keymap, w.reg.modifiers[0].keyRef) == Keystroke(Basic, scancode, 0, role)
    requires scancode != 0 && env.cfg.basicMaxKeys > 0
    requires w.out.report == EmptyReport && w.reg.lastUpdatedModifierFlags == 0
    ensures var r := HandleAwait(w, env);
      && r.reg.stateType == FreeType && r.reg.modifiers == [] && r.reg.activeLayer == w.reg.activeLayer
      && r.out.sent == w.out.sent + [EmptyReport.(basic := [scancode])]
  {
    var m := w.reg.modifiers[0];
    var ws := ScheduleKey(w, env, m);
    var w1 := ws.(reg := UntrackModifier(ws.reg, 0));
    assert AwaitReleaseLoop(w, env, 1, false) == (w1, false);
    assert w1.reg.modifiers == [] && w1.reg.scheduled == [m] && w1.out == w.out;
    assert !ModifierActivates(w1, env, ActionReleasedWhileModifierPending(w1));
    var wa := ApplyPending(w1, env, m);
    assert ReplayScheduled(w1, env, [m]) == wa;
    assert wa.out.report == EmptyReport.(basic := [scancode]);
    assert wa.reg == w1.reg;
    var w2 :=
      if Elapsed(env.now, wa.reg.lastModifierReportUpdate) < ModifierMergeWindow
      then AddModifiersToReport(wa, env.now, wa.reg.lastUpdatedModifierFlags)
      else wa;
    assert w2.out == wa.out;
    assert ExecModifierActions(w2, env, w2.reg.actions) == w2;
    var wf := FlushScheduled(w1, env);
    assert wf.out.sent == w.out.sent + [EmptyReport.(basic := [scancode])];
    assert ExecuteActions(w1, env) == wf;
  }

  /** The three loops of the active state with one held, committing modifier-role key and one
      held action: the modifier's mask is merged, it is marked activated and kept, and nothing is
      scheduled. */
  lemma CommittedModifierMerges(w: World, env: Env, mask: bv8)
    requires |w.reg.modifiers| == 1 && |w.reg.actions| == 1 && w.reg.scheduled == []
    requires Commits(w, env, w.reg.modifiers[0])
    requires SecondaryRoleOf(w.reg, env.keymap, w.reg.modifiers[0].keyRef) == ModifierRole(mask)
    requires Level(w.levels, w.reg.actions[0].keyRef).current
    ensures var (w3, active) := ActiveLoops(w, env);
      && active
      && w3.out.report == w.out.report.(modifiers := w.out.report.modifiers | mask)
      && w3.reg == w.reg.(modifiers := w3.reg.modifiers,
                          lastUpdatedModifierFlags := w3.reg.lastUpdatedModifierFlags,
                          lastModifierReportUpdate := w3.reg.lastModifierReportUpdate)
      && w3.levels == w.levels && w3.out.sent == w.out.sent && w3.out.mouseStates == w.out.mouseStates
      && |w3.reg.modifiers| == 1 && w3.reg.modifiers[0].activated
  {
    assert ScheduleReleasedActions(w, env, 1) == w;
    var wc := CommitAt(w, env, 0);
    assert CommitLoop(w, env, 1, false) == (wc, true);
    assert ReleaseLoop(wc, env, 1) == wc;
  }

  /** A dual-role key already committed to its modifier role, held while an action key with a
      basic scancode is held: the active handler puts the modifier and the scancode into the same
      report, keeps both keys pending, and stays in the active state. */
  lemma HoldThenTapMergesRole(w: World, env: Env, mask: bv8, scancode: u16)
    requires w.reg.stateType == SecondaryRoleActive
    requires |w.reg.modifiers| == 1 && |w.reg.actions| == 1 && w.reg.scheduled == []
    requires Commits(w, env, w.reg.modifiers[0])
    requires SecondaryRoleOf(w.reg, env.keymap, w.reg.modifiers[0].keyRef) == ModifierRole(mask)
    requires Level(w.levels, w.reg.actions[0].keyRef).current && !Level(w.levels, w.reg.actions[0].keyRef).suppressed
    requires Resolve(w.reg, env.keymap, w.reg.actions[0].keyRef) == Keystroke(Basic, scancode, 0, NoRole)
    requires scancode != 0 && env.cfg.basicMaxKeys > 0
    requires w.out.report == EmptyReport
    ensures var r := HandleActive(w, env);
      && r.reg.stateType == SecondaryRoleActive
      && r.out.report == EmptyReport.(modifiers := mask, basic := [scancode])
      && r.out.sent == w.out.sent
      && r.reg.actions == w.reg.actions
      && |r.reg.modifiers| == 1 && r.reg.modifiers[0].activated
  {
    CommittedModifierMerges(w, env, mask);
    var (wc, active) := ActiveLoops(w, env);
    var a := w.reg.actions[0];
    assert wc.reg.actions == [a];
    var wa := ApplyPending(wc, env, a);
    assert Resolve(wc.reg, env.keymap, a.keyRef) == Keystroke(Basic, scancode, 0, NoRole);
    assert wa.out.report == EmptyReport.(modifiers := mask, basic := [scancode]);
    assert ActionStep(wc, env, 0) == wa;
    assert ExecuteActions(wc, env) == wa;
  }
}
