/** The immediate-execution buffer, as declared and as used. The declaration has four slots and a
    write goes to index `amount % 5`, so the fifth key scheduled in one cycle lands outside the
    buffer, while the active state can schedule more than four keys in one cycle. The rest of
    the model keeps the queue as an unbounded sequence (KeyboardState.Schedule), the behaviour
    the replay loop of executeActions assumes. */
module ImmediateQueue {
  import opened Types
  import opened KeyboardState
  import opened Filtering
  import opened Machine
  import opened Resolver

  /** keyboard_state.h: `pending_key_t scheduledForImmediateExecution[4]`. */
  const QueueSlots := 4

  /** The buffer as declared: its four slots and the `uint8_t` count of writes. */
  datatype Queue = Queue(slots: seq<PendingKey>, amount: u8)

  /** keyboard_state.c scheduleForImmediateExecution as written: the key is stored at index
      `amount % 5` and the count grows by one, wrapping at 256. Index 4 is outside the buffer. */
  function WriteAsWritten(q: Queue, k: PendingKey): (r: Outcome<Queue>)
    requires |q.slots| == QueueSlots
    ensures r.Overflow? <==> q.amount % 5 == 4
    ensures r.Overflow? ==> r.buffer == ImmediateQueue
    ensures r.Ok? ==> |r.value.slots| == QueueSlots && r.value.slots[q.amount % 5] == k
    ensures r.Ok? ==> forall i | 0 <= i < QueueSlots && i != (q.amount % 5) as int :: r.value.slots[i] == q.slots[i]
  {
    var index := (q.amount % 5) as nat;
    if index < QueueSlots then Ok(Queue(q.slots[index := k], ((q.amount as nat + 1) % 0x100) as u8))
    else Overflow(ImmediateQueue)
  }

  /** A cycle's writes into the buffer as written, first to last. */
  function WriteAllAsWritten(q: Queue, ks: seq<PendingKey>): (r: Outcome<Queue>)
    requires |q.slots| == QueueSlots
    ensures r.Ok? ==> |r.value.slots| == QueueSlots
    ensures r.Overflow? ==> r.buffer == ImmediateQueue
    decreases |ks|
  {
    if |ks| == 0 then Ok(q)
    else
      var q1 :- WriteAllAsWritten(q, ks[..|ks| - 1]);
      WriteAsWritten(q1, ks[|ks| - 1])
  }

  /** A write below index 4 extends the filled prefix by the key. */
  lemma WriteExtendsPrefix(q: Queue, k: PendingKey, prefix: seq<PendingKey>)
    requires |q.slots| == QueueSlots && |prefix| < QueueSlots
    requires q.amount as nat == |prefix| && q.slots[..|prefix|] == prefix
    ensures var r := WriteAsWritten(q, k);
      r.Ok? && r.value.amount as nat == |prefix| + 1 && r.value.slots[..|prefix| + 1] == prefix + [k]
  {
    var r := WriteAsWritten(q, k).value;
    forall i | 0 <= i < |prefix|
      ensures r.slots[i] == prefix[i]
    {
      assert r.slots[i] == q.slots[i] == q.slots[..|prefix|][i];
    }
  }

  /** Up to four writes from an empty count stay in bounds, fill slots `0 .. |ks|` in order, and
      leave the count at the number of keys. */
  lemma {:induction false} AsWrittenFillsInOrder(slots: seq<PendingKey>, ks: seq<PendingKey>)
    requires |slots| == QueueSlots && |ks| <= QueueSlots
    ensures var r := WriteAllAsWritten(Queue(slots, 0), ks);
      r.Ok? && r.value.amount as nat == |ks| && r.value.slots[..|ks|] == ks
    decreases |ks|
  {
    if |ks| > 0 {
      var n := |ks| - 1;
      AsWrittenFillsInOrder(slots, ks[..n]);
      var q1 := WriteAllAsWritten(Queue(slots, 0), ks[..n]).value;
      WriteExtendsPrefix(q1, ks[n], ks[..n]);
      assert ks[..n] + [ks[n]] == ks;
    }
  }

  /** Once a write has overrun the buffer, the cycle's later writes do not undo it. */
  lemma {:induction false} OverrunPersists(q: Queue, ks: seq<PendingKey>, m: nat)
    requires |q.slots| == QueueSlots && m <= |ks|
    requires WriteAllAsWritten(q, ks[..m]).Overflow?
    ensures WriteAllAsWritten(q, ks) == Overflow(ImmediateQueue)
    decreases |ks|
  {
    if m == |ks| {
      assert ks[..m] == ks;
    } else {
      var n := |ks| - 1;
      assert ks[..n][..m] == ks[..m];
      OverrunPersists(q, ks[..n], m);
    }
  }

  /** The fifth write of a cycle overruns the buffer, whatever the keys. */
  lemma FifthWriteOverruns(slots: seq<PendingKey>, ks: seq<PendingKey>)
    requires |slots| == QueueSlots && |ks| >= 5
    ensures WriteAllAsWritten(Queue(slots, 0), ks) == Overflow(ImmediateQueue)
  {
    AsWrittenFillsInOrder(slots, ks[..4]);
    assert ks[..5][..4] == ks[..4];
    OverrunPersists(Queue(slots, 0), ks, 5);
  }

  /** The corrected queue: every scheduled key is kept, in the order it was scheduled. */
  function ScheduleAll(reg: Registry, stamps: Stamps, now: u32, ks: seq<PendingKey>): (r: (Registry, Stamps))
    decreases |ks|
  {
    if |ks| == 0 then (reg, stamps)
    else
      var (reg1, stamps1) := ScheduleAll(reg, stamps, now, ks[..|ks| - 1]);
      Schedule(reg1, stamps1, now, ks[|ks| - 1])
  }

  /** However many keys a cycle schedules, the corrected queue holds all of them, in order, and
      the released-action time is that of the last one. */
  lemma {:induction false} ScheduleAllKeepsEveryKey(reg: Registry, stamps: Stamps, now: u32, ks: seq<PendingKey>)
    ensures ScheduleAll(reg, stamps, now, ks).0.scheduled == reg.scheduled + ks
    ensures ScheduleAll(reg, stamps, now, ks).0.releasedActionKeyEnqueueTime == LastEnqueueTime(reg.releasedActionKeyEnqueueTime, ks)
    decreases |ks|
  {
    if |ks| > 0 {
      var n := |ks| - 1;
      ScheduleAllKeepsEveryKey(reg, stamps, now, ks[..n]);
      assert ks == ks[..n] + [ks[n]];
      AppendAssoc(reg.scheduled, ks[..n], [ks[n]]);
    }
  }

  /** Where the buffer as written stays in bounds, it holds exactly what the corrected queue holds. */
  lemma AsWrittenAgreesWithCorrected(slots: seq<PendingKey>, reg: Registry, stamps: Stamps, now: u32, ks: seq<PendingKey>)
    requires |slots| == QueueSlots && |ks| <= QueueSlots && reg.scheduled == []
    ensures var q := WriteAllAsWritten(Queue(slots, 0), ks);
      q.Ok? && q.value.amount as nat == |ks| && q.value.slots[..|ks|] == ScheduleAll(reg, stamps, now, ks).0.scheduled
  {
    AsWrittenFillsInOrder(slots, ks);
    ScheduleAllKeepsEveryKey(reg, stamps, now, ks);
  }

  /** When five or more action keys are released in a cycle of the secondary-role-active state,
      the first loop of handleActiveSecondaryRoleState overruns the buffer as written. */
  lemma ActiveStateOverrunsBuffer(w: World, env: Env, slots: seq<PendingKey>)
    requires |slots| == QueueSlots && w.reg.scheduled == []
    requires |Filter(w.reg.actions, IsReleased(w.levels))| >= 5
    ensures var sched := ScheduleReleasedActions(w, env, |w.reg.actions|).reg.scheduled;
      WriteAllAsWritten(Queue(slots, 0), sched) == Overflow(ImmediateQueue)
  {
    var a := w.reg.actions;
    var f := Filter(a, IsReleased(w.levels));
    ScheduleReleasedActionsContents(w, env, |a|);
    assert a[..|a|] == a;
    assert ScheduleReleasedActions(w, env, |a|).reg.scheduled == f;
    FifthWriteOverruns(slots, f);
  }

  /** A state the invariant allows with five released actions: a held dual-role key and five
      action keys all released in the same scan, in the secondary-role-active state. */
  function FiveReleasedWorld(): (w: World)
    ensures Inv(w.reg) && w.reg.stateType == SecondaryRoleActive && w.reg.scheduled == []
    ensures |w.reg.actions| == 5 && forall i | 0 <= i < 5 :: !Level(w.levels, w.reg.actions[i].keyRef).current
  {
    var held := KeyRef(1, 0);
    var acts := seq(5, i requires 0 <= i < 5 => PendingKey(0, KeyRef(0, i as u8), false));
    assert forall i, j | 0 <= i < j < 5 :: acts[i].keyRef != acts[j].keyRef;
    var reg := Registry([PendingKey(0, held, false)], acts, [], BaseLayer, 0, SecondaryRoleActive, 0, 0);
    assert Tracked(reg)[0] == held;
    assert forall i | 1 <= i < 6 :: Tracked(reg)[i] == acts[i - 1].keyRef;
    World(reg, map[held := KeyState(true, true, false, false)], map[], LayerState(None, 0, 0, false, BaseLayer, BaseLayer), EmptyOutput)
  }

  /** That state meets the overrun condition: all five actions are released. */
  lemma FiveReleasedWorldOverruns(env: Env, slots: seq<PendingKey>)
    requires |slots| == QueueSlots
    ensures var w := FiveReleasedWorld();
      WriteAllAsWritten(Queue(slots, 0), ScheduleReleasedActions(w, env, |w.reg.actions|).reg.scheduled) == Overflow(ImmediateQueue)
  {
    var w := FiveReleasedWorld();
    FilterAllKept(w.reg.actions, IsReleased(w.levels));
    ActiveStateOverrunsBuffer(w, env, slots);
  }

  /** A filter that every entry passes keeps the whole run. */
  lemma {:induction false} FilterAllKept(s: seq<PendingKey>, keep: PendingKey -> bool)
    requires forall i | 0 <= i < |s| :: keep(s[i])
    ensures Filter(s, keep) == s
    decreases |s|
  {
    if |s| > 0 {
      FilterAllKept(s[..|s| - 1], keep);
    }
  }
}
