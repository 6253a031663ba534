/** The registry invariant across the resolver's handlers, and the promise of the `activated`
    flag: every key scheduled for its primary role during a cycle is one that never committed. */
module Invariants {
  import opened Types
  import opened Arrays
  import opened KeyboardState
  import opened Filtering
  import opened Machine
  import opened Executor
  import opened Resolver

  /** Every entry of `b` is an entry of `a`. */
  predicate SubRun(b: seq<PendingKey>, a: seq<PendingKey>) {
    forall k | k in b :: k in a
  }

  /** A run drawn from another tracks no new identity and no committed key the other lacks. */
  lemma SubRunFacts(b: seq<PendingKey>, a: seq<PendingKey>)
    requires SubRun(b, a)
    ensures forall x | x in Refs(b) :: x in Refs(a)
    ensures NoneActivated(a) ==> NoneActivated(b)
  {
    forall x | x in Refs(b)
      ensures x in Refs(a)
    {
      var i :| 0 <= i < |b| && Refs(b)[i] == x;
      assert b[i] in a;
      var j :| 0 <= j < |a| && a[j] == b[i];
      assert Refs(a)[j] == x;
    }
    if NoneActivated(a) {
      forall i | 0 <= i < |b|
        ensures !b[i].activated
      {
        assert b[i] in a;
        var j :| 0 <= j < |a| && a[j] == b[i];
      }
    }
  }

  lemma NoneActivatedConcat(a: seq<PendingKey>, b: seq<PendingKey>)
    ensures NoneActivated(a + b) <==> NoneActivated(a) && NoneActivated(b)
  {
    if NoneActivated(a + b) {
      assert forall i | 0 <= i < |b| :: b[i] == (a + b)[|a| + i];
      assert forall i | 0 <= i < |a| :: a[i] == (a + b)[i];
    }
  }

  /** Replacing the two sets by duplicate-free runs drawn from them keeps the invariant. */
  lemma ShrinkPreservesInv(reg: Registry, mods: seq<PendingKey>, acts: seq<PendingKey>)
    requires Inv(reg)
    requires SubRun(mods, reg.modifiers) && SubRun(acts, reg.actions)
    requires |mods| <= |reg.modifiers| && |acts| <= |reg.actions|
    requires Distinct(Refs(mods)) && Distinct(Refs(acts))
    ensures Inv(reg.(modifiers := mods, actions := acts))
  {
    DistinctConcat(Refs(reg.modifiers), Refs(reg.actions));
    SubRunFacts(mods, reg.modifiers);
    SubRunFacts(acts, reg.actions);
    DistinctConcat(Refs(mods), Refs(acts));
  }

  /** executeActions keeps the invariant: its action loop only untracks. */
  lemma ExecuteActionsPreservesInv(w: World, env: Env)
    requires Inv(w.reg)
    ensures Inv(ExecuteActions(w, env).reg)
  {
    var a := w.reg.actions;
    var keep := IsKept(w.levels);
    DistinctConcat(Refs(w.reg.modifiers), Refs(a));
    ExecuteActionsKeepsHeld(w, env);
    FilterMembers(a, keep);
    FilterDistinct(a, keep);
    ShrinkPreservesInv(w.reg, w.reg.modifiers, Filter(a, keep));
  }

  /** Moving a duplicate-free run of uncommitted modifiers to the end of the actions, and emptying
      the modifier set, keeps the invariant when the actions have room. */
  lemma MoveToActionsPreservesInv(reg: Registry, f: seq<PendingKey>)
    requires Inv(reg) && reg.stateType != SecondaryRoleActive
    requires SubRun(f, reg.modifiers) && Distinct(Refs(f))
    requires |reg.actions| + |f| <= Capacity
    ensures Inv(reg.(modifiers := [], actions := reg.actions + f))
  {
    var r := reg.(modifiers := [], actions := reg.actions + f);
    DistinctConcat(Refs(reg.modifiers), Refs(reg.actions));
    SubRunFacts(f, reg.modifiers);
    DistinctConcat(Refs(reg.actions), Refs(f));
    assert Tracked(r) == Refs(reg.actions) + Refs(f);
    NoneActivatedConcat(reg.actions, f);
  }

  /** Promoting the held modifiers to actions keeps the invariant, outside the active state where
      no modifier is committed. */
  lemma ModifiersToActionsPreservesInv(w: World)
    requires Inv(w.reg) && w.reg.stateType != SecondaryRoleActive
    requires ModifiersToActions(w).Ok?
    ensures Inv(ModifiersToActions(w).value.reg)
  {
    var mods := w.reg.modifiers;
    var keep := IsPressed(w.levels);
    ModifiersToActionsAppends(w);
    DistinctConcat(Refs(mods), Refs(w.reg.actions));
    FilterDistinct(mods, keep);
    FilterMembers(mods, keep);
    MoveToActionsPreservesInv(w.reg, Filter(mods, keep));
  }

  /** handleFreeTypeState keeps the invariant and schedules nothing itself. */
  lemma HandleFreeTypePreservesInv(w: World, env: Env, longest: Option<PendingKey>)
    requires Inv(w.reg) && w.reg.stateType == FreeType
    requires HandleFreeType(w, env, longest).Ok?
    ensures Inv(HandleFreeType(w, env, longest).value.reg)
    ensures HandleFreeType(w, env, longest).value.reg.scheduled == w.reg.scheduled
  {
    if !MayAwait(w, env, longest) {
      ModifiersToActionsPreservesInv(w);
      ExecuteActionsPreservesInv(ModifiersToActions(w).value, env);
    }
  }

  /** Scheduling a released uncommitted modifier (or not) and untracking it keeps the invariant. */
  lemma SoleReleaseKeepsInv(w: World, env: Env, j: nat)
    requires j < |w.reg.modifiers|
    requires Inv(w.reg) && w.reg.stateType != SecondaryRoleActive && NoneActivated(w.reg.scheduled)
    ensures var m := w.reg.modifiers[j];
      var w1 := if !TimeoutElapsed(env.now, m) then ScheduleKey(w, env, m) else w;
      var r := UntrackModifier(w1.reg, j);
      Inv(r) && NoneActivated(r.scheduled) && r.stateType == w.reg.stateType && |r.modifiers| == |w.reg.modifiers| - 1
  {
    var m := w.reg.modifiers[j];
    var w1 := if !TimeoutElapsed(env.now, m) then ScheduleKey(w, env, m) else w;
    NoneActivatedConcat(w.reg.scheduled, [m]);
    assert w1.reg == w.reg.(scheduled := w1.reg.scheduled, releasedActionKeyEnqueueTime := w1.reg.releasedActionKeyEnqueueTime);
    UntrackModifierPreservesInv(w1.reg, j);
  }

  /** The first loop of the await state keeps the invariant, and what it schedules is an
      uncommitted modifier. */
  lemma {:induction false} AwaitReleaseLoopPreservesInv(w: World, env: Env, i: nat, trigger: bool)
    requires i <= |w.reg.modifiers|
    requires Inv(w.reg) && w.reg.stateType != SecondaryRoleActive && NoneActivated(w.reg.scheduled)
    ensures var r := AwaitReleaseLoop(w, env, i, trigger).0;
      Inv(r.reg) && NoneActivated(r.reg.scheduled)
    decreases i
  {
    if i > 0 {
      var m := w.reg.modifiers[i - 1];
      if Level(w.levels, m.keyRef).current {
        AwaitReleaseLoopPreservesInv(w, env, i - 1, trigger);
      } else if |w.reg.modifiers| > 1 {
        AwaitReleaseLoopPreservesInv(w.(reg := w.reg.(releasedActionKeyEnqueueTime := m.enqueueTime)), env, i - 1, true);
      } else {
        var w1 := if !TimeoutElapsed(env.now, m) then ScheduleKey(w, env, m) else w;
        var w2 := w1.(reg := UntrackModifier(w1.reg, i - 1));
        SoleReleaseKeepsInv(w, env, i - 1);
        AwaitReleaseLoopPreservesInv(w2, env, i - 1, trigger);
      }
    }
  }

  /** handleSecondaryRoleReleaseAwaitState keeps the invariant and schedules only uncommitted keys. */
  lemma HandleAwaitPreservesInv(w: World, env: Env)
    requires Inv(w.reg) && w.reg.stateType == AwaitingSecondaryRoleRelease && NoneActivated(w.reg.scheduled)
    ensures Inv(HandleAwait(w, env).reg) && NoneActivated(HandleAwait(w, env).reg.scheduled)
  {
    var (w1, trigger) := AwaitReleaseLoop(w, env, |w.reg.modifiers|, false);
    AwaitReleaseLoopPreservesInv(w, env, |w.reg.modifiers|, false);
    ExecuteActionsPreservesInv(w1, env);
  }

  /** The first loop of the active state schedules released actions, none of them committed. */
  lemma ScheduleReleasedActionsPreservesInv(w: World, env: Env)
    requires Inv(w.reg) && NoneActivated(w.reg.scheduled)
    ensures var r := ScheduleReleasedActions(w, env, |w.reg.actions|);
      Inv(r.reg) && NoneActivated(r.reg.scheduled)
  {
    var a := w.reg.actions;
    var keep := IsReleased(w.levels);
    ScheduleReleasedActionsContents(w, env, |a|);
    assert a[..|a|] == a;
    FilterMembers(a, keep);
    SubRunFacts(Filter(a, keep), a);
    NoneActivatedConcat(w.reg.scheduled, Filter(a, keep));
  }

  /** Marking committed modifiers changes no identity, so the invariant holds in the active state. */
  lemma CommitLoopPreservesInv(w: World, env: Env)
    requires Inv(w.reg) && w.reg.stateType == SecondaryRoleActive
    ensures var r := CommitLoop(w, env, |w.reg.modifiers|, false).0;
      Inv(r.reg) && r.reg.scheduled == w.reg.scheduled
  {
    var r := CommitLoop(w, env, |w.reg.modifiers|, false).0;
    CommitLoopMarksActivated(w, env, |w.reg.modifiers|, false);
    assert Refs(r.reg.modifiers) == Refs(w.reg.modifiers);
  }

  /** The third loop of the active state keeps the invariant and schedules only uncommitted keys. */
  lemma ReleaseLoopPreservesInv(w: World, env: Env)
    requires Inv(w.reg) && NoneActivated(w.reg.scheduled)
    ensures var r := ReleaseLoop(w, env, |w.reg.modifiers|);
      Inv(r.reg) && NoneActivated(r.reg.scheduled)
  {
    var mods := w.reg.modifiers;
    var keep := IsPressed(w.levels);
    var r := ReleaseLoop(w, env, |mods|);
    ReleaseLoopKeepsPressed(w, env, |mods|);
    assert mods[..|mods|] == mods && mods[|mods|..] == [];
    assert r.reg.modifiers == Filter(mods, keep);
    DistinctConcat(Refs(mods), Refs(w.reg.actions));
    FilterDistinct(mods, keep);
    FilterMembers(mods, keep);
    ShrinkPreservesInv(w.reg, Filter(mods, keep), w.reg.actions);
    ReleaseLoopNeverEmitsCommitted(w, env, |mods|);
    var n := |w.reg.scheduled|;
    forall p | 0 <= p < |r.reg.scheduled|
      ensures !r.reg.scheduled[p].activated
    {
      if p < n {
        assert r.reg.scheduled[p] == r.reg.scheduled[..n][p];
      }
    }
  }

  /** Without a commit, every modifier the third loop keeps is held and uncommitted: the
      fallback out of the active state restores the invariant's demand on the modifiers. */
  lemma NoCommitLeavesNoneActivated(w: World, env: Env)
    requires !CommitLoop(w, env, |w.reg.modifiers|, false).1
    ensures NoneActivated(ReleaseLoop(CommitLoop(w, env, |w.reg.modifiers|, false).0, env, |w.reg.modifiers|).reg.modifiers)
  {
    var mods := w.reg.modifiers;
    var keep := IsPressed(w.levels);
    CommitLoopReportsCommit(w, env, |mods|, false);
    ReleaseLoopKeepsPressed(w, env, |mods|);
    assert mods[..|mods|] == mods && mods[|mods|..] == [];
    var f := Filter(mods, keep);
    FilterMembers(mods, keep);
    forall i | 0 <= i < |f|
      ensures !f[i].activated
    {
      assert f[i] in mods;
      var j :| 0 <= j < |mods| && mods[j] == f[i];
      assert !Commits(w, env, mods[j]);
    }
  }

  /** handleActiveSecondaryRoleState keeps the invariant, also when it falls back to another
      state, and schedules only uncommitted keys. */
  lemma HandleActivePreservesInv(w: World, env: Env)
    requires Inv(w.reg) && w.reg.stateType == SecondaryRoleActive && NoneActivated(w.reg.scheduled)
    ensures Inv(HandleActive(w, env).reg) && NoneActivated(HandleActive(w, env).reg.scheduled)
  {
    var w1 := ScheduleReleasedActions(w, env, |w.reg.actions|);
    ScheduleReleasedActionsPreservesInv(w, env);
    var (w2, active) := CommitLoop(w1, env, |w1.reg.modifiers|, false);
    CommitLoopPreservesInv(w1, env);
    var w3 := ReleaseLoop(w2, env, |w2.reg.modifiers|);
    ReleaseLoopPreservesInv(w2, env);
    if !active {
      NoCommitLeavesNoneActivated(w1, env);
    }
    var w4 :=
      if !active then w3.(reg := w3.reg.(stateType := if |w3.reg.actions| > 0 then AwaitingSecondaryRoleRelease else FreeType))
      else w3;
    ExecuteActionsPreservesInv(w4, env);
    assert HandleActive(w, env) == ExecuteActions(w4, env);
  }
}
