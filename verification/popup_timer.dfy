/**
  The auto-close timer: what a run of idle ticks with no attack in between
  does to a mount. The threshold is compared with the idle counter before it
  is advanced, so an open mount with a zeroed counter stays open for
  `closeDelay + 1` idle ticks and starts rotating to its rest facing on tick
  `closeDelay + 2`.
 */
module PopupTimer {
  import opened PopupTurret

  /** The mount after `n` idle ticks during which the turret reports `turretFacing`. */
  function TickIdleN(info: Info, m: Mount, turretFacing: int32, n: nat): (r: Mount)
    decreases n
  {
    if n == 0 then m else TickIdleN(info, TickIdle(info, m, turretFacing), turretFacing, n - 1)
  }

  /**
    Below the threshold an open mount only counts: after `n` ticks that all
    compare a value not above `closeDelay`, it is the same mount with the
    counter advanced by `n`.
   */
  lemma {:induction false} OpenCountsWhileUnderDelay(info: Info, m: Mount, turretFacing: int32, n: nat)
    requires m.state == Open
    requires info.closeDelay < INT32_MAX
    requires m.idleTicks + n <= info.closeDelay + 1
    ensures m.idleTicks + n <= INT32_MAX
    ensures TickIdleN(info, m, turretFacing, n) == m.(idleTicks := m.idleTicks + n)
    decreases n
  {
    if n > 0 {
      var m1 := TickIdle(info, m, turretFacing);
      assert m1 == m.(idleTicks := m.idleTicks + 1);
      OpenCountsWhileUnderDelay(info, m1, turretFacing, n - 1);
    }
  }

  /**
    The tick after the counter has reached `closeDelay + 1` is the one that
    starts the rotation to the rest facing, and it still advances the counter.
   */
  lemma RotatesOnceOverDelay(info: Info, m: Mount, turretFacing: int32)
    requires m.state == Open && m.idleTicks == info.closeDelay + 1
    ensures var r := TickIdle(info, m, turretFacing);
            r.state == Rotating && r.desiredFacing == Some(info.defaultFacing) &&
            r.idleTicks == WrappingIncrement(m.idleTicks) && r.pending == m.pending
  {
  }

  /**
    From a freshly zeroed counter and no attack in between: the mount is
    still open after each of the first `closeDelay + 1` idle ticks, and
    rotating towards its rest facing after tick `closeDelay + 2`.
   */
  lemma AutoCloseTimer(info: Info, m: Mount, turretFacing: int32, k: nat)
    requires m.state == Open && m.idleTicks == 0
    requires -1 <= info.closeDelay < INT32_MAX
    ensures k <= info.closeDelay + 1 ==> TickIdleN(info, m, turretFacing, k).state == Open
    ensures k == info.closeDelay + 2 ==>
              TickIdleN(info, m, turretFacing, k).state == Rotating &&
              TickIdleN(info, m, turretFacing, k).desiredFacing == Some(info.defaultFacing)
  {
    if k <= info.closeDelay + 1 {
      OpenCountsWhileUnderDelay(info, m, turretFacing, k);
    } else if k == info.closeDelay + 2 {
      var n := info.closeDelay + 1;
      OpenCountsWhileUnderDelay(info, m, turretFacing, n);
      TickIdleNSplit(info, m, turretFacing, n);
      RotatesOnceOverDelay(info, TickIdleN(info, m, turretFacing, n), turretFacing);
    }
  }

  /** One more tick after `n` ticks is `n + 1` ticks. */
  lemma {:induction false} TickIdleNSplit(info: Info, m: Mount, turretFacing: int32, n: nat)
    ensures TickIdleN(info, m, turretFacing, n + 1) ==
            TickIdle(info, TickIdleN(info, m, turretFacing, n), turretFacing)
    decreases n
  {
    if n > 0 {
      TickIdleNSplit(info, TickIdle(info, m, turretFacing), turretFacing, n - 1);
    }
  }

  /**
    With the largest `int` as the delay the comparison never succeeds: the
    counter wraps round instead, and the mount stays open for ever.
   */
  lemma {:induction false} MaximalDelayNeverCloses(info: Info, m: Mount, turretFacing: int32, n: nat)
    requires m.state == Open && info.closeDelay == INT32_MAX
    ensures TickIdleN(info, m, turretFacing, n).state == Open
    ensures TickIdleN(info, m, turretFacing, n).desiredFacing == m.desiredFacing
    ensures (TickIdleN(info, m, turretFacing, n).idleTicks - m.idleTicks - n) % 0x1_0000_0000 == 0
    decreases n
  {
    if n > 0 {
      MaximalDelayNeverCloses(info, TickIdle(info, m, turretFacing), turretFacing, n - 1);
    }
  }

  /**
    Idle ticks do nothing, however many there are, to a mount that is closed,
    in the middle of a clip, or rotating while the turret is not yet at its
    rest facing.
   */
  lemma {:induction false} IdleTicksInertElsewhere(info: Info, m: Mount, turretFacing: int32, n: nat)
    requires m.state == Closed || m.state == Transitioning ||
             (m.state == Rotating && turretFacing != info.defaultFacing)
    ensures TickIdleN(info, m, turretFacing, n) == m
    decreases n
  {
    if n > 0 {
      IdleTicksInertElsewhere(info, TickIdle(info, m, turretFacing), turretFacing, n - 1);
    }
  }

  /**
    The whole closing sequence with the default tunables, from a fresh mount
    whose turret already points at its rest facing: open after 126 idle
    ticks, rotating after the 127th, transitioning with the closing clip
    registered after the 128th, and closed, taking half damage, once the
    closing clip has finished.
   */
  lemma DefaultClosingScenario(m: Mount)
    requires m.state == Open && m.idleTicks == 0
    ensures TickIdleN(DefaultInfo, m, 0, 126).state == Open
    ensures TickIdleN(DefaultInfo, m, 0, 127).state == Rotating
    ensures TickIdleN(DefaultInfo, m, 0, 128).state == Transitioning
    ensures TickIdleN(DefaultInfo, m, 0, 128).pending == Some(Closing)
    ensures ClosingDone(TickIdleN(DefaultInfo, m, 0, 128)).state == Closed
    ensures GetDamageModifier(DefaultInfo, ClosingDone(TickIdleN(DefaultInfo, m, 0, 128))) == 50
  {
    AutoCloseTimer(DefaultInfo, m, 0, 126);
    AutoCloseTimer(DefaultInfo, m, 0, 127);
    OpenCountsWhileUnderDelay(DefaultInfo, m, 0, 126);
    TickIdleNSplit(DefaultInfo, m, 0, 126);
    TickIdleNSplit(DefaultInfo, m, 0, 127);
  }
}
