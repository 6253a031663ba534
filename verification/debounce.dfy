/** The per-key debounce filter of the report updater. The first edge of a level change passes
    at once; for the following timeout the stable level is held, whatever the raw samples say. */
module Debounce {
  import opened Types

  /** `(uint8_t)(CurrentTime - timestamp)`: the elapsed time truncated to eight bits. */
  function Elapsed8(now: u32, since: u32): (d: u8)
    ensures d == (now - since) % 0x100
  {
    Elapsed(now, since) % 0x100
  }

  /** The part of a key state the debounce filter reads and writes: the level and its time stamp. */
  datatype Debounced = Debounced(level: KeyState, timestamp: u32)

  /** The hold time after an edge: the press timeout when the last stable level is pressed, the
      release timeout when it is released. */
  function DebounceTimeout(ks: KeyState, cfg: Config): (t: u8)
    ensures ks.previous ==> t == cfg.debounceTimePress
    ensures !ks.previous ==> t == cfg.debounceTimeRelease
  {
    if ks.previous then cfg.debounceTimePress else cfg.debounceTimeRelease
  }

  /** usb_report_updater.c mitigateBouncing, applied after the raw level was written into `current`. */
  function MitigateBouncing(d: Debounced, now: u32, cfg: Config): (r: Debounced)
    ensures r.level.previous == d.level.previous && r.level.suppressed == d.level.suppressed
    ensures d.level.debouncing && Elapsed8(now, d.timestamp) <= DebounceTimeout(d.level, cfg) ==>
      r.level.current == d.level.previous && r.level.debouncing && r.timestamp == d.timestamp
    ensures d.level.debouncing && Elapsed8(now, d.timestamp) > DebounceTimeout(d.level, cfg) ==>
      r.level.current == d.level.current && !r.level.debouncing && r.timestamp == d.timestamp
    ensures !d.level.debouncing && d.level.previous != d.level.current ==>
      r.level.current == d.level.current && r.level.debouncing && r.timestamp == now
    ensures !d.level.debouncing && d.level.previous == d.level.current ==> r == d
  {
    var ks := d.level;
    var timeout := DebounceTimeout(ks, cfg);
    if ks.debouncing then
      if Elapsed8(now, d.timestamp) > timeout then d.(level := ks.(debouncing := false))
      else d.(level := ks.(current := ks.previous))
    else if ks.previous != ks.current then
      Debounced(ks.(debouncing := true), now)
    else
      d
  }

  /** One scan of one key: sample the raw level, filter it, and remember the result as `previous`. */
  function ScanLevel(d: Debounced, raw: bool, now: u32, cfg: Config): (r: Debounced)
    ensures r.level.previous == r.level.current
  {
    var filtered := MitigateBouncing(d.(level := d.level.(current := raw)), now, cfg);
    filtered.(level := filtered.level.(previous := filtered.level.current))
  }

  datatype Sample = Sample(time: u32, raw: bool)

  /** The stable level after each of a run of scans of one key. */
  function Run(d: Debounced, samples: seq<Sample>, cfg: Config): (levels: seq<bool>)
    ensures |levels| == |samples|
    decreases |samples|
  {
    if |samples| == 0 then []
    else
      var next := ScanLevel(d, samples[0].raw, samples[0].time, cfg);
      [next.level.current] + Run(next, samples[1..], cfg)
  }

  /** While the hold window after an edge lasts, no raw sample reaches the stable level. */
  lemma {:induction false} BounceSuppressedWithinWindow(d: Debounced, samples: seq<Sample>, cfg: Config)
    requires d.level.debouncing && d.level.previous == d.level.current
    requires forall i | 0 <= i < |samples| :: Elapsed8(samples[i].time, d.timestamp) <= DebounceTimeout(d.level, cfg)
    ensures forall i | 0 <= i < |samples| :: Run(d, samples, cfg)[i] == d.level.current
    decreases |samples|
  {
    if |samples| > 0 {
      var next := ScanLevel(d, samples[0].raw, samples[0].time, cfg);
      assert next == d;
      assert forall i | 0 <= i < |samples[1..]| :: samples[1..][i] == samples[i + 1];
      BounceSuppressedWithinWindow(next, samples[1..], cfg);
    }
  }

  /** A level change on a settled key reaches the stable level at its first sample and exactly
      once: the samples that follow within the hold window all read as the new level. */
  lemma EdgePassesOnce(d: Debounced, samples: seq<Sample>, cfg: Config)
    requires !d.level.debouncing && d.level.previous == d.level.current
    requires |samples| > 0 && samples[0].raw != d.level.current
    requires forall i | 1 <= i < |samples| ::
      Elapsed8(samples[i].time, samples[0].time) <= DebounceTimeout(d.level.(previous := samples[0].raw), cfg)
    ensures forall i | 0 <= i < |samples| :: Run(d, samples, cfg)[i] == samples[0].raw
  {
    var next := ScanLevel(d, samples[0].raw, samples[0].time, cfg);
    assert next.level.current == samples[0].raw && next.level.debouncing && next.timestamp == samples[0].time;
    assert DebounceTimeout(next.level, cfg) == DebounceTimeout(d.level.(previous := samples[0].raw), cfg);
    assert forall i | 0 <= i < |samples[1..]| :: samples[1..][i] == samples[i + 1];
    BounceSuppressedWithinWindow(next, samples[1..], cfg);
  }

  /** Once the hold window has run out, the raw sample is authoritative again and debouncing ends. */
  lemma WindowEndsWithRawLevel(d: Debounced, raw: bool, now: u32, cfg: Config)
    requires d.level.debouncing && Elapsed8(now, d.timestamp) > DebounceTimeout(d.level, cfg)
    ensures ScanLevel(d, raw, now, cfg).level.current == raw
    ensures !ScanLevel(d, raw, now, cfg).level.debouncing
  {
  }
}
