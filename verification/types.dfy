/** Machine integers, key identities, key levels and key actions shared by every layer of the
    dual-role key resolver. */
module Types {

  type u8 = x: int | 0 <= x < 0x100
  type u16 = x: int | 0 <= x < 0x1_0000
  type u32 = x: int | 0 <= x < 0x1_0000_0000

  datatype Option<+T> = None | Some(value: T)

  /** Milliseconds between two readings of the 32-bit millisecond clock: unsigned subtraction wraps. */
  function Elapsed(now: u32, since: u32): (d: u32)
    ensures since <= now ==> d == now - since
    ensures now < since ==> d == now - since + 0x1_0000_0000
  {
    (now - since) % 0x1_0000_0000
  }

  /** Identity of a physical key: the module slot and the key index within that module's matrix. */
  datatype KeyRef = KeyRef(slotId: u8, keyId: u8)

  /** The debounced level of one physical key. */
  datatype KeyState = KeyState(
    current: bool,
    previous: bool,
    debouncing: bool,
    suppressed: bool)

  const IdleKey := KeyState(false, false, false, false)

  /** The table of key levels, one entry per matrix position. */
  type Levels = map<KeyRef, KeyState>

  /** The level a key reference points to; a position the table does not hold reads as idle. */
  function Level(levels: Levels, ref: KeyRef): KeyState {
    if ref in levels then levels[ref] else IdleKey
  }

  function WithLevel(levels: Levels, ref: KeyRef, ks: KeyState): (r: Levels)
    ensures Level(r, ref) == ks
    ensures forall other :: other != ref ==> Level(r, other) == Level(levels, other)
  {
    levels[ref := ks]
  }

  /** The time stamps of the key states: when debouncing started, or when the key was last
      scheduled for immediate execution. They live in a table of their own, beside the levels. */
  type Stamps = map<KeyRef, u32>

  /** The time stamp of a key; a position the table does not hold reads as zero. */
  function StampOf(stamps: Stamps, ref: KeyRef): u32 {
    if ref in stamps then stamps[ref] else 0
  }

  /** A key waiting for its role to be decided. */
  datatype PendingKey = PendingKey(
    enqueueTime: u32,    // when the key started to wait for its role
    keyRef: KeyRef,
    activated: bool)     // the secondary role is committed: the primary role must never be emitted

  type LayerId = u8
  const BaseLayer: LayerId := 0

  /** The decoded secondary role of a keystroke; `NoRole` is the zero code. */
  datatype SecondaryRole = NoRole | LayerSwitcher(layer: LayerId) | ModifierRole(mask: bv8)

  datatype KeystrokeType = Basic | Media | System

  datatype SwitchLayerMode = HoldAndDoubleTapToggle | Toggle | Hold

  datatype KeyAction =
    | NoAction
    | Keystroke(kind: KeystrokeType, scancode: u16, modifiers: bv8, secondaryRole: SecondaryRole)
    | Mouse(mouseAction: nat)
    | SwitchLayer(layer: LayerId, mode: SwitchLayerMode)
    | SwitchKeymap(keymapId: nat)
    | PlayMacro(macroId: nat)

  /** The keymap lookup `CurrentKeymap[layer][slot][key]`, supplied from outside the core. */
  type Keymap = (LayerId, KeyRef) -> KeyAction

  /** Build-time and configuration constants that the core reads but does not define. */
  datatype Config = Config(
    debounceTimePress: u8,
    debounceTimeRelease: u8,
    basicMaxKeys: nat,
    mediaMaxKeys: nat,
    systemMaxKeys: nat,
    slotCount: u8,
    keysPerSlot: u8,
    doubleTapTimeout: u16)

  /** Which fixed-capacity array a write would have overrun. */
  datatype Buffer = ModifierSet | ActionSet | ImmediateQueue

  /** The result of an operation that writes into a fixed-capacity array. */
  datatype Outcome<+T> = Ok(value: T) | Overflow(buffer: Buffer) {
    predicate IsFailure() {
      Overflow?
    }

    function PropagateFailure<U>(): Outcome<U>
      requires Overflow?
    {
      Overflow(buffer)
    }

    function Extract(): T
      requires Ok?
    {
      value
    }
  }
}
