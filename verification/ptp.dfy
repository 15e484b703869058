/** The arithmetic of one PTP delay request-response exchange (section 11.3
    of IEEE 1588-2008): the offset a follower computes from the four
    timestamps, the adjusted clock `SystemTime`, and the wait before the
    common unblock deadline. */
module Ptp {
  import opened Timestamps

  /** Margin the master adds to its clock to form the unblock deadline. */
  const UNBLOCK_DELAY: u32 := 500

  /** `SystemTime()`: the raw clock plus the int offset, stored in a
      timestamp_t. Subtracting the offset again gives the raw clock back. */
  function Adjusted(raw: u32, offset: i32): (t: u32)
    ensures Wrap32(t - offset) == raw
    ensures offset == 0 ==> t == raw
  {
    Add32(raw, offset)
  }

  /** The follower's offset:
        offset = -((int)(T1' - T1) + (int)(T2 - T2')) / 2
      with T1 the master's SYNC_PING send time (master clock), T1' its arrival
      (follower clock), T2 the DELAY_REQ departure (follower clock) and T2'
      its arrival (master clock). The differences are uint32_t, read back as
      int; the int sum and its negation wrap on overflow; `/ 2` truncates. */
  function OffsetEstimate(t1: u32, t1Arrival: u32, t2: u32, t2Arrival: u32): (offset: i32)
    ensures -0x4000_0000 <= offset < 0x4000_0000
  {
    var forward := AsSigned(Sub32(t1Arrival, t1));
    var backward := AsSigned(Sub32(t2, t2Arrival));
    Half(WrapI32(-(WrapI32(forward + backward) as int)))
  }

  /** Symmetric-delay cancellation. If the follower's clock runs `skew` ahead
      of the master's and both one-way trips take `delay`, then
        T1' = T1 + delay + skew   (follower clock)
        T2' = T2 - skew + delay   (master clock)
      and the estimate is exactly -skew, whatever the delay and whatever
      wrap-around the four timestamps went through. */
  lemma {:induction false} SymmetricDelayCancels(t1: u32, t2: u32, delay: int, skew: int)
    requires -0x2000_0000 <= delay < 0x2000_0000
    requires -0x2000_0000 <= skew < 0x2000_0000
    ensures OffsetEstimate(t1, Add32(t1, delay + skew), t2, Add32(t2, delay - skew)) == -skew
  {
    var t1Arrival := Add32(t1, delay + skew);
    var t2Arrival := Add32(t2, delay - skew);
    assert (t1 + delay + skew - t1Arrival) % TWO_32 == 0;
    SignedDifference(t1Arrival, t1, delay + skew);
    assert (t2 + delay - skew - t2Arrival) % TWO_32 == 0;
    SignedDifference(t2, t2Arrival, skew - delay);
  }

  /** The follower's clock is the master's shifted by `skew`; adding the
      estimated offset -skew makes the follower's `SystemTime` read the
      master's clock. */
  lemma {:induction false} FollowerClockAgrees(masterRaw: u32, skew: int)
    requires -TWO_31 < skew < TWO_31
    ensures Adjusted(Add32(masterRaw, skew), -skew) == masterRaw
  {
    var followerRaw := Add32(masterRaw, skew);
    assert (masterRaw + skew - followerRaw) % TWO_32 == 0;
    var t := Adjusted(followerRaw, -skew);
    assert (followerRaw - skew - t) % TWO_32 == 0;
    assert (masterRaw - t) % TWO_32 == 0 by {
      assert masterRaw - t == (masterRaw + skew - followerRaw) + (followerRaw - skew - t);
    }
  }

  /** End to end: after one exchange with symmetric delays, the follower's
      adjusted clock agrees with the master's raw clock at every instant. */
  lemma {:induction false} ExchangeSynchronises(t1: u32, t2: u32, delay: int, skew: int, masterNow: u32)
    requires -0x2000_0000 <= delay < 0x2000_0000
    requires -0x2000_0000 <= skew < 0x2000_0000
    ensures var offset := OffsetEstimate(t1, Add32(t1, delay + skew), t2, Add32(t2, delay - skew));
            Adjusted(Add32(masterNow, skew), offset) == masterNow
  {
    SymmetricDelayCancels(t1, t2, delay, skew);
    FollowerClockAgrees(masterNow, skew);
  }

  /** The scenario of three boards: symmetric 20 ms links and a follower
      running 50 ms ahead of the master give the offset -50. */
  lemma ScenarioOffset()
    ensures OffsetEstimate(1000, 1070, 2050, 2020) == -50
  {
  }

  /** `time_to_unblock - SystemTime()`: the argument of the final sleep. */
  function BarrierWait(deadline: u32, now: u32): (wait: u32)
    ensures Add32(now, wait) == deadline
  {
    Sub32(deadline, now)
  }

  /** A node that sleeps exactly the computed wait wakes with its adjusted
      clock reading the deadline, whatever its offset: all nodes that agree
      on the deadline leave together on their adjusted clocks. */
  lemma {:induction false} WakeAtDeadline(deadline: u32, raw: u32, offset: i32)
    ensures var wait := BarrierWait(deadline, Adjusted(raw, offset));
            Adjusted(Add32(raw, wait), offset) == deadline
  {
    var now := Adjusted(raw, offset);
    var wait := BarrierWait(deadline, now);
    Add32Add(raw, wait, offset);
    Add32Add(raw, offset, wait);
    assert wait + offset == offset + wait;
  }

  /** The master's wait: it reads its clock `elapsed` ms after forming the
      deadline `start + UNBLOCK_DELAY`. While the deadline is still ahead the
      wait is the time remaining; once it has passed, the uint32_t difference
      wraps and the wait is close to 2^32 ms. */
  lemma {:induction false} MasterWait(start: u32, elapsed: int)
    requires 0 <= elapsed < TWO_31
    ensures elapsed <= UNBLOCK_DELAY ==>
              BarrierWait(Add32(start, UNBLOCK_DELAY), Add32(start, elapsed)) == UNBLOCK_DELAY - elapsed
    ensures elapsed > UNBLOCK_DELAY ==>
              BarrierWait(Add32(start, UNBLOCK_DELAY), Add32(start, elapsed)) == TWO_32 - (elapsed - UNBLOCK_DELAY)
  {
    var deadline := Add32(start, UNBLOCK_DELAY);
    var now := Add32(start, elapsed);
    var wait := BarrierWait(deadline, now);
    assert (now + wait - deadline) % TWO_32 == 0;
    assert (start + UNBLOCK_DELAY - deadline) % TWO_32 == 0;
    assert (start + elapsed - now) % TWO_32 == 0;
    assert (wait - (UNBLOCK_DELAY - elapsed)) % TWO_32 == 0 by {
      assert wait - (UNBLOCK_DELAY - elapsed)
          == (now + wait - deadline) - (start + UNBLOCK_DELAY - deadline)
             + (start + elapsed - now);
    }
    if elapsed <= UNBLOCK_DELAY {
      assert 0 <= UNBLOCK_DELAY - elapsed < TWO_32;
    } else {
      assert 0 < TWO_32 - (elapsed - UNBLOCK_DELAY) < TWO_32;
      assert (wait - (TWO_32 - (elapsed - UNBLOCK_DELAY))) % TWO_32 == 0 by {
        assert wait - (TWO_32 - (elapsed - UNBLOCK_DELAY)) == (wait - (UNBLOCK_DELAY - elapsed)) - TWO_32;
      }
    }
  }
}
