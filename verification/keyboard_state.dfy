/** The pending-key registry: the bounded modifier and action sets, the immediate-execution
    queue, and the scratch fields of the dual-role resolver. */
module KeyboardState {
  import opened Types
  import opened Arrays

  /** Both `modifiers` and `actions` are arrays of ten entries. */
  const Capacity := 10

  /** The resolver's three states, stored as 0, 1 and 2 in `stateType`. */
  datatype ResolverState = FreeType | AwaitingSecondaryRoleRelease | SecondaryRoleActive

  /** The registry. Each set holds its live entries `[0, count)` in insertion order.
      `scheduled` holds the snapshots scheduled for immediate execution during the current tick. */
  datatype Registry = Registry(
    modifiers: seq<PendingKey>,
    actions: seq<PendingKey>,
    scheduled: seq<PendingKey>,
    activeLayer: LayerId,
    releasedActionKeyEnqueueTime: u32,
    stateType: ResolverState,
    lastUpdatedModifierFlags: bv8,
    lastModifierReportUpdate: u32)

  const InitialRegistry := Registry([], [], [], BaseLayer, 0, FreeType, 0, 0)

  predicate Distinct(s: seq<KeyRef>) {
    forall i, j | 0 <= i < j < |s| :: s[i] != s[j]
  }

  predicate NoneActivated(s: seq<PendingKey>) {
    forall i | 0 <= i < |s| :: !s[i].activated
  }

  /** Every tracked identity: the modifiers followed by the actions. */
  function Tracked(reg: Registry): seq<KeyRef> {
    Refs(reg.modifiers) + Refs(reg.actions)
  }

  /** The registry invariant: both sets within capacity; no identity twice, within a set or
      across the two; only a modifier in the secondary-role-active state can be committed. */
  predicate Inv(reg: Registry) {
    && |reg.modifiers| <= Capacity
    && |reg.actions| <= Capacity
    && Distinct(Tracked(reg))
    && NoneActivated(reg.actions)
    && (reg.stateType != SecondaryRoleActive ==> NoneActivated(reg.modifiers))
  }

  /** The invariant says what the registry promises: no duplicate and no cross-membership. */
  lemma InvMeansNoDuplicates(reg: Registry)
    requires Inv(reg)
    ensures forall i, j | 0 <= i < j < |reg.modifiers| :: reg.modifiers[i].keyRef != reg.modifiers[j].keyRef
    ensures forall i, j | 0 <= i < j < |reg.actions| :: reg.actions[i].keyRef != reg.actions[j].keyRef
    ensures forall i, j | 0 <= i < |reg.modifiers| && 0 <= j < |reg.actions| ::
      reg.modifiers[i].keyRef != reg.actions[j].keyRef
  {
    var t := Tracked(reg);
    var m := |reg.modifiers|;
    forall i, j | 0 <= i < j < m
      ensures reg.modifiers[i].keyRef != reg.modifiers[j].keyRef
    {
      assert t[i] == reg.modifiers[i].keyRef && t[j] == reg.modifiers[j].keyRef;
    }
    forall i, j | 0 <= i < j < |reg.actions|
      ensures reg.actions[i].keyRef != reg.actions[j].keyRef
    {
      assert t[m + i] == reg.actions[i].keyRef && t[m + j] == reg.actions[j].keyRef;
    }
    forall i, j | 0 <= i < m && 0 <= j < |reg.actions|
      ensures reg.modifiers[i].keyRef != reg.actions[j].keyRef
    {
      assert t[i] == reg.modifiers[i].keyRef && t[m + j] == reg.actions[j].keyRef;
    }
  }

  lemma DistinctDelete(s: seq<KeyRef>, i: nat)
    requires i < |s| && Distinct(s)
    ensures Distinct(Delete(s, i))
  {
    var d := Delete(s, i);
    forall p, q | 0 <= p < q < |d|
      ensures d[p] != d[q]
    {
      var p' := if p < i then p else p + 1;
      var q' := if q < i then q else q + 1;
      assert d[p] == s[p'] && d[q] == s[q'] && p' < q';
    }
  }

  lemma DistinctInsert(a: seq<KeyRef>, x: KeyRef, b: seq<KeyRef>)
    requires Distinct(a + b) && x !in a + b
    ensures Distinct(a + [x] + b)
  {
    var s := a + [x] + b;
    forall p, q | 0 <= p < q < |s|
      ensures s[p] != s[q]
    {
      if p == |a| {
        assert s[q] == (a + b)[q - 1];
      } else if q == |a| {
        assert s[p] == (a + b)[p];
      } else {
        var p' := if p < |a| then p else p - 1;
        var q' := if q < |a| then q else q - 1;
        assert s[p] == (a + b)[p'] && s[q] == (a + b)[q'];
      }
    }
  }

  function Resolve(reg: Registry, km: Keymap, ref: KeyRef): KeyAction {
    km(reg.activeLayer, ref)
  }

  /** keyboard_state.c secondaryRole: only a keystroke can carry a secondary role. */
  function SecondaryRoleOf(reg: Registry, km: Keymap, ref: KeyRef): (role: SecondaryRole)
    ensures !Resolve(reg, km, ref).Keystroke? ==> role == NoRole
    ensures Resolve(reg, km, ref).Keystroke? ==> role == Resolve(reg, km, ref).secondaryRole
  {
    var action := Resolve(reg, km, ref);
    if action.Keystroke? then action.secondaryRole else NoRole
  }

  /** keyboard_state.c addAction: `InsertAt(actions, key, actionCount, actionCount)`, an append
      into slot `actionCount`; slot 10 does not exist. */
  function AddAction(reg: Registry, k: PendingKey): (r: Outcome<Registry>)
    ensures r.Ok? <==> |reg.actions| < Capacity
    ensures r.Overflow? ==> r.buffer == ActionSet
    ensures r.Ok? ==> |r.value.actions| == |reg.actions| + 1
    ensures r.Ok? ==> r.value.actions[..|reg.actions|] == reg.actions && r.value.actions[|reg.actions|] == k
    ensures r.Ok? ==> r.value == reg.(actions := r.value.actions)
  {
    if |reg.actions| < Capacity then Ok(reg.(actions := reg.actions + [k])) else Overflow(ActionSet)
  }

  /** keyboard_state.c addModifier: the same append on the modifier set. */
  function AddModifier(reg: Registry, k: PendingKey): (r: Outcome<Registry>)
    ensures r.Ok? <==> |reg.modifiers| < Capacity
    ensures r.Overflow? ==> r.buffer == ModifierSet
    ensures r.Ok? ==> |r.value.modifiers| == |reg.modifiers| + 1
    ensures r.Ok? ==> r.value.modifiers[..|reg.modifiers|] == reg.modifiers && r.value.modifiers[|reg.modifiers|] == k
    ensures r.Ok? ==> r.value == reg.(modifiers := r.value.modifiers)
  {
    if |reg.modifiers| < Capacity then Ok(reg.(modifiers := reg.modifiers + [k])) else Overflow(ModifierSet)
  }

  /** keyboard_state.c untrackModifier: `RemoveAt(modifiers, i, modifierCount--)`. */
  function UntrackModifier(reg: Registry, i: nat): (r: Registry)
    requires i < |reg.modifiers|
    ensures |r.modifiers| == |reg.modifiers| - 1
    ensures r.modifiers[..i] == reg.modifiers[..i] && r.modifiers[i..] == reg.modifiers[i + 1..]
    ensures r == reg.(modifiers := r.modifiers)
  {
    reg.(modifiers := Delete(reg.modifiers, i))
  }

  /** keyboard_state.c untrackActionAt: `RemoveAt(actions, i, actionCount--)`. */
  function UntrackActionAt(reg: Registry, i: nat): (r: Registry)
    requires i < |reg.actions|
    ensures |r.actions| == |reg.actions| - 1
    ensures r.actions[..i] == reg.actions[..i] && r.actions[i..] == reg.actions[i + 1..]
    ensures r == reg.(actions := r.actions)
  {
    reg.(actions := Delete(reg.actions, i))
  }

  lemma UntrackModifierPreservesInv(reg: Registry, i: nat)
    requires Inv(reg) && i < |reg.modifiers|
    ensures Inv(UntrackModifier(reg, i))
  {
    var r := UntrackModifier(reg, i);
    assert Refs(r.modifiers) == Delete(Refs(reg.modifiers), i);
    assert Tracked(r) == Delete(Tracked(reg), i);
    DistinctDelete(Tracked(reg), i);
  }

  lemma UntrackActionPreservesInv(reg: Registry, i: nat)
    requires Inv(reg) && i < |reg.actions|
    ensures Inv(UntrackActionAt(reg, i))
  {
    var r := UntrackActionAt(reg, i);
    var m := |reg.modifiers|;
    assert Refs(r.actions) == Delete(Refs(reg.actions), i);
    assert Tracked(r) == Delete(Tracked(reg), m + i);
    DistinctDelete(Tracked(reg), m + i);
  }

  /** keyboard_state.c isTracked: present in either set, by identity. */
  function IsTracked(reg: Registry, ref: KeyRef): (b: bool)
    ensures b <==> ((exists i | 0 <= i < |reg.modifiers| :: reg.modifiers[i].keyRef == ref)
                    || (exists i | 0 <= i < |reg.actions| :: reg.actions[i].keyRef == ref))
  {
    Position(reg.modifiers, ref) >= 0 || Position(reg.actions, ref) >= 0
  }

  lemma IsTrackedMeansInTracked(reg: Registry, ref: KeyRef)
    ensures IsTracked(reg, ref) <==> ref in Tracked(reg)
  {
    var t := Tracked(reg);
    var m := |reg.modifiers|;
    assert forall i | 0 <= i < |reg.actions| :: t[m + i] == reg.actions[i].keyRef;
    assert forall i | 0 <= i < m :: t[i] == reg.modifiers[i].keyRef;
    if ref in t {
      var p :| 0 <= p < |t| && t[p] == ref;
      if p >= m {
        assert reg.actions[p - m].keyRef == ref;
      }
    }
  }

  /** keyboard_state.c updateActiveKey: a pressed key that is not yet tracked goes to the tail of
      the modifier set when its action has a secondary role, else to the tail of the action set. */
  function UpdateActiveKey(reg: Registry, km: Keymap, now: u32, ref: KeyRef): (r: Outcome<Registry>)
    ensures IsTracked(reg, ref) ==> r == Ok(reg)
    ensures !IsTracked(reg, ref) && SecondaryRoleOf(reg, km, ref) != NoRole ==>
      r == AddModifier(reg, PendingKey(now, ref, false))
    ensures !IsTracked(reg, ref) && SecondaryRoleOf(reg, km, ref) == NoRole ==>
      r == AddAction(reg, PendingKey(now, ref, false))
  {
    var key := PendingKey(now, ref, false);
    var hasSecondaryRole := SecondaryRoleOf(reg, km, ref) != NoRole;
    if !IsTracked(reg, ref) then
      if hasSecondaryRole then AddModifier(reg, key) else AddAction(reg, key)
    else
      Ok(reg)
  }

  lemma AddModifierPreservesInv(reg: Registry, k: PendingKey)
    requires Inv(reg) && k.keyRef !in Tracked(reg) && !k.activated
    requires AddModifier(reg, k).Ok?
    ensures Inv(AddModifier(reg, k).value)
  {
    var r := AddModifier(reg, k).value;
    assert Refs(r.modifiers) == Refs(reg.modifiers) + [k.keyRef];
    assert Tracked(r) == Refs(reg.modifiers) + [k.keyRef] + Refs(reg.actions);
    DistinctInsert(Refs(reg.modifiers), k.keyRef, Refs(reg.actions));
  }

  lemma AddActionPreservesInv(reg: Registry, k: PendingKey)
    requires Inv(reg) && k.keyRef !in Tracked(reg) && !k.activated
    requires AddAction(reg, k).Ok?
    ensures Inv(AddAction(reg, k).value)
  {
    var r := AddAction(reg, k).value;
    assert Refs(r.actions) == Refs(reg.actions) + [k.keyRef];
    assert Tracked(r) == Tracked(reg) + [k.keyRef] + [];
    DistinctInsert(Tracked(reg), k.keyRef, []);
  }

  /** Tracking keeps the invariant, and leaves the identity tracked. */
  lemma UpdateActiveKeyPreservesInv(reg: Registry, km: Keymap, now: u32, ref: KeyRef)
    requires Inv(reg)
    requires UpdateActiveKey(reg, km, now, ref).Ok?
    ensures var r := UpdateActiveKey(reg, km, now, ref).value;
      Inv(r) && IsTracked(r, ref) && r.scheduled == reg.scheduled && r.stateType == reg.stateType
  {
    var k := PendingKey(now, ref, false);
    IsTrackedMeansInTracked(reg, ref);
    if !IsTracked(reg, ref) {
      if SecondaryRoleOf(reg, km, ref) != NoRole {
        AddModifierPreservesInv(reg, k);
        assert AddModifier(reg, k).value.modifiers[|reg.modifiers|] == k;
      } else {
        AddActionPreservesInv(reg, k);
        assert AddAction(reg, k).value.actions[|reg.actions|] == k;
      }
    }
  }

  /** Tracking a key leaves it tracked and untracks nothing. */
  lemma UpdateActiveKeyKeepsTracked(reg: Registry, km: Keymap, now: u32, ref: KeyRef)
    requires UpdateActiveKey(reg, km, now, ref).Ok?
    ensures var r := UpdateActiveKey(reg, km, now, ref).value;
      IsTracked(r, ref) && forall x | IsTracked(reg, x) :: IsTracked(r, x)
  {
    var r := UpdateActiveKey(reg, km, now, ref).value;
    if !IsTracked(reg, ref) {
      var k := PendingKey(now, ref, false);
      if SecondaryRoleOf(reg, km, ref) != NoRole {
        assert r.modifiers[|reg.modifiers|] == k;
      } else {
        assert r.actions[|reg.actions|] == k;
      }
      forall x | IsTracked(reg, x)
        ensures IsTracked(r, x)
      {
        if i :| 0 <= i < |reg.modifiers| && reg.modifiers[i].keyRef == x {
          assert r.modifiers[i] == reg.modifiers[i];
        } else {
          var i :| 0 <= i < |reg.actions| && reg.actions[i].keyRef == x;
          assert r.actions[i] == reg.actions[i];
        }
      }
    }
  }

  /** The longest-pressed scan over one set: a strictly older eligible key replaces the candidate. */
  function OlderScan(ks: seq<PendingKey>, best: Option<PendingKey>, eligible: PendingKey -> bool): (r: Option<PendingKey>)
    ensures r == best || (r.Some? && r.value in ks && eligible(r.value))
    ensures best.Some? ==> r.Some? && r.value.enqueueTime <= best.value.enqueueTime
    ensures forall k | k in ks && eligible(k) :: r.Some? && r.value.enqueueTime <= k.enqueueTime
    ensures r != best ==> best.None? || r.value.enqueueTime < best.value.enqueueTime
    decreases |ks|
  {
    if |ks| == 0 then best
    else
      var k := ks[0];
      var next := if (best.None? || best.value.enqueueTime > k.enqueueTime) && eligible(k) then Some(k) else best;
      OlderScan(ks[1..], next, eligible)
  }

  /** Ties go to the earlier entry: a key that replaces the candidate is preceded only by strictly
      younger eligible keys. */
  lemma {:induction false} OlderScanPrefersEarliest(ks: seq<PendingKey>, best: Option<PendingKey>, eligible: PendingKey -> bool)
    returns (i: nat)
    requires OlderScan(ks, best, eligible) != best
    ensures i < |ks| && ks[i] == OlderScan(ks, best, eligible).value
    ensures forall j | 0 <= j < i && eligible(ks[j]) :: ks[j].enqueueTime > ks[i].enqueueTime
    decreases |ks|
  {
    var r := OlderScan(ks, best, eligible);
    var k := ks[0];
    var next := if (best.None? || best.value.enqueueTime > k.enqueueTime) && eligible(k) then Some(k) else best;
    assert r == OlderScan(ks[1..], next, eligible);
    if r == next {
      i := 0;
    } else {
      var i' := OlderScanPrefersEarliest(ks[1..], next, eligible);
      i := i' + 1;
      assert ks[i] == ks[1..][i'];
      if eligible(k) {
        assert next.Some? && next.value.enqueueTime <= k.enqueueTime;
      }
      forall j | 0 <= j < i && eligible(ks[j])
        ensures ks[j].enqueueTime > ks[i].enqueueTime
      {
        if j > 0 {
          assert ks[j] == ks[1..][j - 1];
        }
      }
    }
  }

  /** An action key is a longest-pressed candidate only when it is a keystroke with a scancode. */
  predicate HasScancode(action: KeyAction) {
    action.Keystroke? && action.scancode != 0
  }

  /** keyboard_state.c updateLongestPressedKey, starting from no candidate: the oldest modifier,
      or an action with a scancode that is strictly older than every modifier. */
  function LongestPressed(reg: Registry, km: Keymap): (r: Option<PendingKey>)
    ensures r.None? <==> |reg.modifiers| == 0 && forall a | a in reg.actions :: !HasScancode(Resolve(reg, km, a.keyRef))
    ensures r.Some? ==> r.value in reg.modifiers || (r.value in reg.actions && HasScancode(Resolve(reg, km, r.value.keyRef)))
    ensures r.Some? ==> forall m | m in reg.modifiers :: r.value.enqueueTime <= m.enqueueTime
    ensures r.Some? ==> forall a | a in reg.actions && HasScancode(Resolve(reg, km, a.keyRef)) ::
      r.value.enqueueTime <= a.enqueueTime
    ensures r.Some? && r.value !in reg.modifiers ==> forall m | m in reg.modifiers :: r.value.enqueueTime < m.enqueueTime
  {
    var fromModifiers := OlderScan(reg.modifiers, None, (k: PendingKey) => true);
    assert |reg.modifiers| > 0 ==> reg.modifiers[0] in reg.modifiers;
    OlderScan(reg.actions, fromModifiers, (k: PendingKey) => HasScancode(Resolve(reg, km, k.keyRef)))
  }

  /** keyboard_state.c scheduleForImmediateExecution: the queue gains a copy of the key at its end,
      the key's enqueue time becomes the released-action time, and the key's time stamp becomes
      the current time. */
  function Schedule(reg: Registry, stamps: Stamps, now: u32, k: PendingKey): (r: (Registry, Stamps))
    ensures |r.0.scheduled| == |reg.scheduled| + 1
    ensures r.0.scheduled[..|reg.scheduled|] == reg.scheduled && r.0.scheduled[|reg.scheduled|] == k
    ensures r.0 == reg.(scheduled := r.0.scheduled, releasedActionKeyEnqueueTime := k.enqueueTime)
    ensures StampOf(r.1, k.keyRef) == now
    ensures forall ref | ref != k.keyRef :: StampOf(r.1, ref) == StampOf(stamps, ref)
  {
    (reg.(scheduled := reg.scheduled + [k], releasedActionKeyEnqueueTime := k.enqueueTime),
     stamps[k.keyRef := now])
  }
}
