/** The state one report cycle reads and writes: the registry, the key levels, the layer-toggle
    statics, and the reports being filled. */
module Machine {
  import opened Types
  import opened KeyboardState

  /** The keyboard reports being assembled: the basic report's modifier byte and the scancodes
      placed so far in the basic, media and system reports (their lengths are the slot indices). */
  datatype Report = Report(modifiers: bv8, basic: seq<u16>, media: seq<u16>, system: seq<u16>)

  const EmptyReport := Report(0, [], [], [])

  /** What a cycle hands to the outside: the reports, the mouse states raised for the kinetic
      processor, the report snapshots sent mid-cycle, and the keymap switches and macro starts
      requested from collaborators. */
  datatype Output = Output(
    report: Report,
    mouseStates: set<nat>,
    sent: seq<Report>,
    keymapSwitches: seq<nat>,
    macroStarts: seq<nat>)

  const EmptyOutput := Output(EmptyReport, {}, [], [], [])

  /** The statics of the double-tap layer toggle, the toggled layer, and the layer of the
      previous cycle. */
  datatype LayerState = LayerState(
    doubleTapKey: Option<KeyRef>,
    doubleTapStartTime: u32,
    doubleTapTriggerTime: u32,
    isLayerDoubleTapToggled: bool,
    toggledLayer: LayerId,
    previousLayer: LayerId)

  datatype World = World(reg: Registry, levels: Levels, stamps: Stamps, layers: LayerState, out: Output)

  /** The inputs of one cycle that stay fixed during it: the clock, the keymap, the configuration. */
  datatype Env = Env(now: u32, keymap: Keymap, cfg: Config)

  /** `w` with the report's modifier byte and the record of the last modifier merge taken from `r`:
      everything a modifier merge may change. */
  function MergeFrame(w: World, r: World): World {
    w.(reg := w.reg.(lastUpdatedModifierFlags := r.reg.lastUpdatedModifierFlags,
                     lastModifierReportUpdate := r.reg.lastModifierReportUpdate),
       out := w.out.(report := w.out.report.(modifiers := r.out.report.modifiers)))
  }
}
