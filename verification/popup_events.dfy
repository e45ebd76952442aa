/**
  The mount as the engine drives it: a sequence of events, each one a call
  of an entry point or the firing of an animation callback, in an order the
  engine chooses. The only constraint on the order is that an animation
  callback fires only while the player holds it, and that the construction
  notification of an actor spawned already built does not arrive while a
  clip is in flight.

  The invariant kept along every such trace: the mount is Transitioning
  exactly when a completion callback is outstanding, and a closed mount
  commands no turret facing.
 */
module PopupEvents {
  import opened PopupTurret

  /** One thing that can happen to a mount. */
  datatype Event =
    | Attack(buildComplete: bool, baseAllows: bool, faced: bool)
    | Idle(turretFacing: int32)
    | BuildDone
    | OpeningFinished
    | ClosingFinished

  /** Whether the engine can deliver `e` to `m`. */
  predicate Enabled(m: Mount, e: Event)
  {
    match e
    case OpeningFinished => m.pending == Some(Opening)
    case ClosingFinished => m.pending == Some(Closing)
    case BuildDone => !m.skippedMakeAnimation || m.state != Transitioning
    case _ => true
  }

  /** The mount after `e`; the verdict of an eligibility query is dropped. */
  function Step(info: Info, m: Mount, e: Event): (r: Mount)
  {
    match e
    case Attack(b, a, f) => CanAttack(m, b, a, f).next
    case Idle(facing) => TickIdle(info, m, facing)
    case BuildDone => BuildingComplete(m)
    case OpeningFinished => OpeningDone(m)
    case ClosingFinished => ClosingDone(m)
  }

  /** The mount after every event of `es`, in order. */
  function Run(info: Info, m: Mount, es: seq<Event>): (r: Mount)
    decreases |es|
  {
    if es == [] then m else Run(info, Step(info, m, es[0]), es[1..])
  }

  /** Every event of `es` is enabled at the point it is delivered. */
  predicate Admissible(info: Info, m: Mount, es: seq<Event>)
    decreases |es|
  {
    es == [] || (Enabled(m, es[0]) && Admissible(info, Step(info, m, es[0]), es[1..]))
  }

  /** The reachability invariant. */
  predicate Inv(m: Mount)
  {
    (m.state == Transitioning <==> m.pending.Some?) &&
    (m.state == Closed ==> m.desiredFacing == None)
  }

  /** A fresh mount satisfies the invariant whatever the turret starts with. */
  lemma InitialInv(skipped: bool, turretDesired: Option<int32>)
    ensures Inv(Initial(skipped, turretDesired))
  {
  }

  /** Every enabled event keeps the invariant. */
  lemma StepPreservesInv(info: Info, m: Mount, e: Event)
    requires Inv(m) && Enabled(m, e)
    ensures Inv(Step(info, m, e))
  {
  }

  /** Every admissible trace keeps the invariant. */
  lemma {:induction false} RunPreservesInv(info: Info, m: Mount, es: seq<Event>)
    requires Inv(m) && Admissible(info, m, es)
    ensures Inv(Run(info, m, es))
    decreases |es|
  {
    if es != [] {
      StepPreservesInv(info, m, es[0]);
      RunPreservesInv(info, Step(info, m, es[0]), es[1..]);
    }
  }

  /** Every mount reachable from creation by an admissible trace satisfies the invariant. */
  lemma ReachableInv(info: Info, skipped: bool, turretDesired: Option<int32>, es: seq<Event>)
    requires Admissible(info, Initial(skipped, turretDesired), es)
    ensures Inv(Run(info, Initial(skipped, turretDesired), es))
  {
    InitialInv(skipped, turretDesired);
    RunPreservesInv(info, Initial(skipped, turretDesired), es);
  }

  /**
    While a clip is in flight the mount refuses every eligibility query,
    without side effect, whatever the other checks say.
   */
  lemma InFlightClipBlocksAttack(m: Mount, buildComplete: bool, baseAllows: bool, faced: bool)
    requires Inv(m) && m.pending.Some?
    ensures !CanAttack(m, buildComplete, baseAllows, faced).allowed
    ensures CanAttack(m, buildComplete, baseAllows, faced).next == m
  {
  }

  /**
    No second opening or closing sequence starts while one is in flight:
    every enabled event other than the matching completion leaves the
    outstanding callback and the Transitioning posture in place.
   */
  lemma NoClipRestartedInFlight(info: Info, m: Mount, e: Event)
    requires Inv(m) && m.pending.Some? && Enabled(m, e)
    requires !e.OpeningFinished? && !e.ClosingFinished?
    ensures Step(info, m, e).pending == m.pending
    ensures Step(info, m, e).state == Transitioning
  {
  }

  /**
    A clip in flight always has its completion enabled, and firing it leaves
    the mount settled (open after opening, closed after closing).
   */
  lemma InFlightClipCompletes(info: Info, m: Mount)
    requires Inv(m) && m.state == Transitioning
    ensures m.pending == Some(Opening) ==>
              Enabled(m, OpeningFinished) && Step(info, m, OpeningFinished).state == Open
    ensures m.pending == Some(Closing) ==>
              Enabled(m, ClosingFinished) && Step(info, m, ClosingFinished).state == Closed
    ensures Enabled(m, OpeningFinished) || Enabled(m, ClosingFinished)
  {
    match m.pending.value
    case Opening =>
    case Closing =>
  }

  /**
    The damage taken changes only when the mount goes down (the closing
    callback or an already-built actor finishing construction) or starts to
    rise from the closed posture; idle ticks and the opening callback never
    change it in a reachable mount.
   */
  lemma DamageModifierChanges(info: Info, m: Mount, e: Event)
    requires Inv(m) && Enabled(m, e)
    requires GetDamageModifier(info, Step(info, m, e)) != GetDamageModifier(info, m)
    ensures e.ClosingFinished? || e.BuildDone? || (e.Attack? && m.state == Closed)
    ensures info.closedDamageMultiplier != 100
  {
  }

  /**
    The reopening cycle: a closed mount asked to engage refuses this time and
    starts opening; once the opening callback fires, the next query proceeds
    to the aiming check and its verdict is the turret's.
   */
  lemma ReopenCycle(m: Mount, faced: bool)
    requires m.state == Closed
    ensures var first := CanAttack(m, true, true, faced);
            !first.allowed && first.next.state == Transitioning &&
            first.next.pending == Some(Opening) &&
            var reopened := OpeningDone(first.next);
            reopened.state == Open &&
            var second := CanAttack(reopened, true, true, faced);
            second.allowed == faced && second.next.state == Open && second.next.idleTicks == 0
  {
  }

  /**
    An actor spawned already built settles in the closed posture as soon as
    construction completes: no clip is involved, the invariant holds and the
    reduced damage applies at once. Any other actor stays as it was created.
   */
  lemma SpawnedBuiltStartsClosed(info: Info, skipped: bool, turretDesired: Option<int32>)
    ensures var r := Step(info, Initial(skipped, turretDesired), BuildDone);
            Inv(r) && r.pending == None &&
            (skipped ==> r.state == Closed &&
                         GetDamageModifier(info, r) == info.closedDamageMultiplier) &&
            (!skipped ==> r == Initial(skipped, turretDesired))
  {
  }
}
