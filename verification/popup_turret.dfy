/**
  The popup turret of a defensive structure: a weapon mount that has to rise
  out of its enclosure before it can engage, and retracts again after a
  period of inactivity. While retracted it takes a configured percentage of
  incoming damage.

  The mount is a small state machine driven by four entry points (the attack
  eligibility query, the idle tick, the construction-complete notification and
  the damage-modifier query) and by two deferred callbacks that the animation
  player fires when the "opening" or "closing" clip has finished. Every entry
  point is a pure function here: it takes the current mount and its inputs
  and returns the next mount (and, for the eligibility query, the verdict).
 */
module PopupTurret {

  /** A value that may be absent, standing for a C# nullable. */
  datatype Option<T> = None | Some(value: T)

  const INT32_MIN: int := -0x8000_0000
  const INT32_MAX: int := 0x7FFF_FFFF

  /** The C# `int` the source computes with. */
  type int32 = x: int | INT32_MIN <= x <= INT32_MAX

  /**
    The C# `x++` on an `int` in an unchecked context: the successor, except
    that the largest value wraps round to the smallest.
   */
  function WrappingIncrement(x: int32): (r: int32)
    ensures (r - x - 1) % 0x1_0000_0000 == 0
    ensures x < INT32_MAX ==> r == x + 1
  {
    if x == INT32_MAX then INT32_MIN as int32 else x + 1
  }

  /** The four postures of the mount. */
  datatype PopupState = Open | Rotating | Transitioning | Closed

  /** The once-played clips ("opening", "closing") whose completion the mount waits for. */
  datatype Anim = Opening | Closing

  /** Per-actor-type tunables, fixed when the rules are loaded. */
  datatype Info = Info(closeDelay: int32, defaultFacing: int32, closedDamageMultiplier: int32)

  /** The tunables as the rules declare them when a map does not override them. */
  const DefaultInfo: Info := Info(125, 0, 50)

  /**
    Everything one mount reads or writes.
    - `state`, `idleTicks`, `skippedMakeAnimation`: the mount's own fields.
    - `desiredFacing`: the turret facing the mount itself last commanded;
      writes made by the turret's own aiming are not tracked.
    - `pending`: the once-played clip whose completion callback the
      animation player currently holds on the mount's behalf, if any.
    - `loopClip`: the repeating clip the mount last asked the animation
      player for, if any.
   */
  datatype Mount = Mount(
    state: PopupState,
    idleTicks: int32,
    desiredFacing: Option<int32>,
    pending: Option<Anim>,
    loopClip: Option<string>,
    skippedMakeAnimation: bool)

  /**
    A freshly created mount: open, with a zeroed idle counter and no clip
    outstanding. `skipped` says whether the actor was spawned already built;
    `turretDesired` is whatever the turret itself started with.
   */
  function Initial(skipped: bool, turretDesired: Option<int32>): (m: Mount)
    ensures m.state == Open && m.idleTicks == 0
    ensures m.pending == None && m.loopClip == None
    ensures m.skippedMakeAnimation == skipped && m.desiredFacing == turretDesired
  {
    Mount(Open, 0, turretDesired, None, None, skipped)
  }

  /** The answer of the eligibility query together with the mount it leaves behind. */
  datatype Verdict = Verdict(allowed: bool, next: Mount)

  /** The guards of the eligibility query that come before any side effect. */
  predicate AttackGuardsPass(m: Mount, buildComplete: bool, baseAllows: bool)
  {
    m.state != Transitioning && buildComplete && baseAllows
  }

  /**
    The eligibility query, polled by the combat pipeline for a candidate target.
    `buildComplete` is the structure's construction flag, `baseAllows` the
    verdict of the plain turreted-attack check (range, ammunition, cooldown)
    and `faced` what the turret's FaceTarget reports; the last is only
    consulted in the Open and Rotating states.
   */
  function CanAttack(m: Mount, buildComplete: bool, baseAllows: bool, faced: bool): (r: Verdict)
    // The mount engages only when raised, built, allowed and aimed, and then always.
    ensures r.allowed <==>
              (m.state == Open || m.state == Rotating) && buildComplete && baseAllows && faced
    // A denial by one of the guards has no side effect at all.
    ensures !AttackGuardsPass(m, buildComplete, baseAllows) ==> r.next == m
    // Passing the guards always counts as activity and clears the idle timer.
    ensures AttackGuardsPass(m, buildComplete, baseAllows) ==> r.next.idleTicks == 0
    // A closed mount starts to open and registers the opening callback.
    ensures AttackGuardsPass(m, buildComplete, baseAllows) && m.state == Closed ==>
              r.next.state == Transitioning && r.next.pending == Some(Opening)
    // A raised mount keeps its posture: Rotating is never turned back to Open here.
    ensures m.state != Closed ==> r.next.state == m.state && r.next.pending == m.pending
    ensures r.next.desiredFacing == m.desiredFacing && r.next.loopClip == m.loopClip
    ensures r.next.skippedMakeAnimation == m.skippedMakeAnimation
  {
    if m.state == Transitioning || !buildComplete then
      Verdict(false, m)
    else if !baseAllows then
      Verdict(false, m)
    else
      var active := m.(idleTicks := 0);
      if m.state == Closed then
        Verdict(false, active.(state := Transitioning, pending := Some(Opening)))
      else
        assert m.state == Open || m.state == Rotating;
        Verdict(faced, active)
  }

  /**
    The idle tick, called once per simulation tick while the actor has nothing
    else to do. `turretFacing` is the turret's current facing.
    The idle counter is advanced only in the Open state, because the counter
    update sits on the right of a short-circuit `&&`; the threshold is compared
    with the value before the increment.
   */
  function TickIdle(info: Info, m: Mount, turretFacing: int32): (r: Mount)
    ensures m.state == Open ==> r.idleTicks == WrappingIncrement(m.idleTicks)
    ensures m.state == Open ==>
              (r.state == Rotating <==> m.idleTicks > info.closeDelay) &&
              (r.state == Open <==> m.idleTicks <= info.closeDelay)
    ensures m.state == Open && m.idleTicks > info.closeDelay ==>
              r.desiredFacing == Some(info.defaultFacing)
    ensures m.state == Open && m.idleTicks <= info.closeDelay ==>
              r.desiredFacing == m.desiredFacing
    ensures m.state == Open ==> r.pending == m.pending
    ensures m.state == Rotating && turretFacing == info.defaultFacing ==>
              r == m.(state := Transitioning, pending := Some(Closing))
    // Every other combination falls through both branches untouched.
    ensures (m.state == Transitioning || m.state == Closed ||
             (m.state == Rotating && turretFacing != info.defaultFacing)) ==> r == m
    // The tick never closes the mount itself: closing waits for the animation.
    ensures r.state == Closed <==> m.state == Closed
    ensures r.loopClip == m.loopClip && r.skippedMakeAnimation == m.skippedMakeAnimation
  {
    if m.state == Open && m.idleTicks > info.closeDelay then
      m.(idleTicks := WrappingIncrement(m.idleTicks),
         desiredFacing := Some(info.defaultFacing),
         state := Rotating)
    else if m.state == Open then
      m.(idleTicks := WrappingIncrement(m.idleTicks))
    else if m.state == Rotating && turretFacing == info.defaultFacing then
      m.(state := Transitioning, pending := Some(Closing))
    else
      m
  }

  /**
    The callback registered with the "opening" clip: the mount is up and
    the repeating "idle" clip starts. It fires whatever the state is.
   */
  function OpeningDone(m: Mount): (r: Mount)
    ensures r.state == Open && r.pending == None && r.loopClip == Some("idle")
    ensures r.idleTicks == m.idleTicks && r.desiredFacing == m.desiredFacing
    ensures r.skippedMakeAnimation == m.skippedMakeAnimation
  {
    m.(state := Open, pending := None, loopClip := Some("idle"))
  }

  /**
    The callback registered with the "closing" clip: the mount is down, the
    repeating "closed-idle" clip starts and the turret is left without a
    facing to aim for.
   */
  function ClosingDone(m: Mount): (r: Mount)
    ensures r.state == Closed && r.pending == None && r.loopClip == Some("closed-idle")
    ensures r.desiredFacing == None
    ensures r.idleTicks == m.idleTicks && r.skippedMakeAnimation == m.skippedMakeAnimation
  {
    m.(state := Closed, pending := None, loopClip := Some("closed-idle"), desiredFacing := None)
  }

  /**
    The construction-complete notification. An actor spawned already built
    goes straight to the closed posture, without any transition clip; any
    other actor keeps the posture it has.
   */
  function BuildingComplete(m: Mount): (r: Mount)
    ensures m.skippedMakeAnimation ==>
              r.state == Closed && r.desiredFacing == None && r.loopClip == Some("closed-idle")
    ensures m.skippedMakeAnimation ==> r.pending == m.pending && r.idleTicks == m.idleTicks
    ensures !m.skippedMakeAnimation ==> r == m
    ensures r.skippedMakeAnimation == m.skippedMakeAnimation
  {
    if m.skippedMakeAnimation then
      m.(state := Closed, loopClip := Some("closed-idle"), desiredFacing := None)
    else
      m
  }

  /**
    The percentage of incoming damage the actor takes: the configured
    multiplier while the mount is closed, and the unmodified 100 otherwise.
   */
  function GetDamageModifier(info: Info, m: Mount): (r: int32)
    ensures m.state == Closed ==> r == info.closedDamageMultiplier
    ensures m.state != Closed ==> r == 100
  {
    if m.state == Closed then info.closedDamageMultiplier else 100
  }
}
