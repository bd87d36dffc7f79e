/**
 * The input events the statistics engine consumes (the `rdev` crate's `Key`,
 * `EventType` and `Event`) and the parts of `std::time` it relies on.
 *
 * Timestamps are integers counting nanoseconds since the UNIX epoch, so
 * `UNIX_EPOCH` is 0 and a clock reading before the epoch is negative.
 */
module Events {
  import opened Wrappers

  /** Nanoseconds in one second. */
  const NANOS: nat := 1_000_000_000

  /**
   * A physical or logical key. `rdev` has one variant per named key
   * (`KeyA`, `ShiftLeft`, ...), stood for here by the variant's name, and
   * `Unknown(code)` for raw key codes it does not name.
   */
  datatype Key = Named(name: string) | Unknown(code: nat)

  /** The kind of an input event; pointer coordinates and wheel deltas are not kept. */
  datatype EventType =
    | KeyPress(key: Key)
    | KeyRelease(key: Key)
    | ButtonPress(button: nat)
    | ButtonRelease(button: nat)
    | MouseMove
    | Wheel

  /** An input event: when it happened, what it was, and the OS text for it, if any. */
  datatype Event = Event(time: int, eventType: EventType, name: Option<string>)

  /**
   * `SystemTime::duration_since`: the non-negative duration from `earlier`
   * to `later`, or `None` (the `Err` case) when `later` is before `earlier`.
   */
  function DurationSince(later: int, earlier: int): (d: Option<nat>)
    ensures d.Some? <==> later >= earlier
    ensures d.Some? ==> earlier + d.value == later
  {
    if later >= earlier then Some(later - earlier) else None
  }

  /** `Duration::as_secs`: the whole seconds in a duration, rounded down. */
  function WholeSeconds(d: nat): (s: nat)
    ensures s * NANOS <= d < (s + 1) * NANOS
  {
    d / NANOS
  }

  /** Whole seconds of a duration stay under `n` exactly when the duration is under `n` seconds. */
  lemma WholeSecondsBelow(d: nat, n: nat)
    ensures WholeSeconds(d) < n <==> d < n * NANOS
  {
    var s := WholeSeconds(d);
    if s < n {
      assert (s + 1) * NANOS <= n * NANOS;
    } else {
      assert n * NANOS <= s * NANOS;
    }
  }
}
