/**
 * The idle-starvation watchdog test made on every tick: the system is
 * declared hung when infinite-loop detection is on and more than the
 * configured number of ticks have passed since the idle hook last ran.
 * The tick difference is taken in 32-bit unsigned arithmetic.
 */
module Watchdog {
  import opened Uint

  /** The condition of the tick hook's fatal branch. */
  predicate Trips(infLoopDet: bool, currentTime: u32, lastIdleTime: u32, maxTicksWithoutIdle: u32)
  {
    infLoopDet && Sub32(currentTime, lastIdleTime) > maxTicksWithoutIdle
  }

  /**
   * Whatever the tick counter did in between (wrap-around included), the
   * watchdog trips exactly when detection is on and the true number of ticks
   * since the last idle entry exceeds the threshold, for any true distance
   * below 2^32.
   */
  lemma TripsIffElapsedExceeds(infLoopDet: bool, lastIdleTime: u32, elapsed: int, maxTicksWithoutIdle: u32)
    requires 0 <= elapsed < TWO_TO_THE_32
    ensures Trips(infLoopDet, ((lastIdleTime as int + elapsed) % TWO_TO_THE_32) as u32, lastIdleTime, maxTicksWithoutIdle)
            <==> infLoopDet && elapsed > maxTicksWithoutIdle as int
  {
    ElapsedAcrossWrap(lastIdleTime, elapsed);
  }

  /** A distance exactly equal to the threshold does not trip. */
  lemma ThresholdDoesNotTrip(infLoopDet: bool, lastIdleTime: u32, maxTicksWithoutIdle: u32)
    ensures !Trips(infLoopDet, Add32(lastIdleTime, maxTicksWithoutIdle), lastIdleTime, maxTicksWithoutIdle)
  {
    TripsIffElapsedExceeds(infLoopDet, lastIdleTime, maxTicksWithoutIdle as int, maxTicksWithoutIdle);
  }

  /** One tick beyond the threshold trips, when detection is on. */
  lemma OneBeyondThresholdTrips(lastIdleTime: u32, maxTicksWithoutIdle: u32)
    requires maxTicksWithoutIdle as int + 1 < TWO_TO_THE_32
    ensures Trips(true, Add32(lastIdleTime, maxTicksWithoutIdle + 1), lastIdleTime, maxTicksWithoutIdle)
  {
    TripsIffElapsedExceeds(true, lastIdleTime, maxTicksWithoutIdle as int + 1, maxTicksWithoutIdle);
  }

  /** With detection off the watchdog never trips. */
  lemma DisabledNeverTrips(currentTime: u32, lastIdleTime: u32, maxTicksWithoutIdle: u32)
    ensures !Trips(false, currentTime, lastIdleTime, maxTicksWithoutIdle)
  {
  }
}
