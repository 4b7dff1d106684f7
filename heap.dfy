/**
 * The heap accountant: a running 32-bit estimate of the bytes still free,
 * lowered on every allocation notification and raised on every release
 * notification. It knows nothing about fragmentation and never checks for
 * underflow, so the counter wraps like the C `unsigned long` it models.
 */
module Heap {
  import opened Uint

  /** One notification from the allocator hooks. */
  datatype Event = Alloc(size: u32) | Free(size: u32)

  /** The counter after one notification. */
  function Apply(remaining: u32, e: Event): (r: u32)
    ensures e.Alloc? ==> Add32(r, e.size) == remaining
    ensures e.Free? ==> Sub32(r, e.size) == remaining
  {
    match e
    case Alloc(n) => Sub32(remaining, n)
    case Free(n) => Add32(remaining, n)
  }

  /** The counter after the notifications `events`, in order, starting from `start`. */
  function Replay(start: u32, events: seq<Event>): u32
  {
    if events == [] then start
    else Apply(Replay(start, events[..|events| - 1]), events[|events| - 1])
  }

  /** Bytes released minus bytes allocated over `events`, as an exact integer. */
  function Net(events: seq<Event>): int
  {
    if events == [] then 0
    else
      var e := events[|events| - 1];
      Net(events[..|events| - 1]) + (match e case Alloc(n) => -(n as int) case Free(n) => n as int)
  }

  /** The counter always equals the start value plus the exact net change, reduced modulo 2^32. */
  lemma {:induction false} ReplayIsNetModulo(start: u32, events: seq<Event>)
    ensures Replay(start, events) as int == (start as int + Net(events)) % TWO_TO_THE_32
  {
    if events != [] {
      var prefix := events[..|events| - 1];
      ReplayIsNetModulo(start, prefix);
      var before := Replay(start, prefix);
      match events[|events| - 1]
      case Alloc(n) =>
        ModShift(start as int + Net(prefix), before as int, -(n as int));
      case Free(n) =>
        ModShift(start as int + Net(prefix), before as int, n as int);
    }
  }

  /** Adding the same amount to two values that agree modulo 2^32 keeps them in agreement. */
  lemma ModShift(x: int, y: int, d: int)
    requires 0 <= y < TWO_TO_THE_32 && x % TWO_TO_THE_32 == y
    ensures (x + d) % TWO_TO_THE_32 == (y + d) % TWO_TO_THE_32
  {
    var q := x / TWO_TO_THE_32;
    assert x == q * TWO_TO_THE_32 + y;
    assert x + d == (y + d) + q * TWO_TO_THE_32;
  }

  /** Any notification sequence that releases exactly what it allocated leaves the counter where it started. */
  lemma BalancedReplayRestores(start: u32, events: seq<Event>)
    requires Net(events) == 0
    ensures Replay(start, events) == start
  {
    ReplayIsNetModulo(start, events);
  }

  /** `MALLOC(n)` followed by `FREE(n)` leaves the counter unchanged. */
  lemma AllocThenFreeRestores(start: u32, n: u32)
    ensures Replay(start, [Alloc(n), Free(n)]) == start
  {
    var events := [Alloc(n), Free(n)];
    assert events[..1] == [Alloc(n)];
    assert events[..1][..0] == [];
    assert Replay(start, events[..1]) == Sub32(start, n);
    AddUndoesSub(start, n);
  }
}
