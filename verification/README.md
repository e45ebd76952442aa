# Popup turret state machine

A Dafny model of `AttackPopupTurreted`, OpenRA's trait for a defensive
structure whose turret rises out of the ground before it can fire and sinks
back after a spell of inactivity. The turret is in one of four postures: `Open`, `Rotating`,
`Transitioning` and `Closed`. It takes a configured percentage of incoming
damage while it is `Closed`.

The model has three modules:

- `PopupTurret` (`popup_turret.dfy`) holds the mount record and one pure
  function per entry point. The entry points are the attack-eligibility query
  `CanAttack`, the idle tick `TickIdle`, the construction notification
  `BuildingComplete` and the damage query `GetDamageModifier`. There is also
  one function per animation-completion callback: `OpeningDone` and
  `ClosingDone`. The tunables `CloseDelay`, `DefaultFacing` and
  `ClosedDamageMultiplier` form an `Info` record. `DefaultInfo` holds their
  defaults (125, 0 and 50). The C# `int` fields are an `int32` subset type.
  The unchecked `idleTicks++` wraps at the top of that range.
- `PopupEvents` (`popup_events.dfy`) delivers an event alphabet in any order
  the engine likes. The only limits are these: a completion callback fires
  only while the animation player holds it, and construction of an actor
  spawned already built does not complete while a clip is in flight. Along every such trace the model keeps
  one invariant. The mount is `Transitioning` exactly when a callback is
  outstanding. A closed mount commands no turret facing.
- `PopupTimer` (`popup_timer.dfy`) covers runs of idle ticks: when the
  auto-close timer fires, and the complete closing sequence under the
  default tunables.

Collaborators the mount only consults are plain inputs. These are the base
turreted-attack check, the structure's `BuildComplete` flag, the turret's
`FaceTarget` answer and the turret's current facing. The turret's
`DesiredFacing`, which the mount writes, is a field of the record. So is the
animation player's state as the mount sees it: `pending` is the once-played
clip whose callback is outstanding, and `loopClip` is the last repeating clip
asked for.

Two behaviours of the code worth stating directly:

- `CloseDelay` is documented as how many game ticks should pass before the
  turret closes (AttackPopupTurreted.cs:21). The threshold test
  `idleTicks++ > CloseDelay` compares the value *before* the increment, so
  `CloseDelay + 1` idle ticks pass with the turret still open. With the
  default delay of 125 it starts rotating on the 127th idle tick
  (`AutoCloseTimer`, `DefaultClosingScenario`). The counter advances only in
  `Open`, because the increment sits on the right of a short-circuit `&&`.
  It also advances on the tick that switches to `Rotating`.
- An attack query does not reopen a turret that is rotating towards its rest
  facing: `CanAttack` never moves a `Rotating` turret back to `Open`. When the guards
  pass it clears the idle counter and returns the turret's facing verdict.
  The posture stays `Rotating` (see the `CanAttack` contract).

## Model

| member | source | states |
|---|---|---|
| PopupTurret.WrappingIncrement | OpenRA.Mods.Cnc/Traits/AttackPopupTurreted.cs:77 | `idleTicks++` yields the successor modulo 2^32 and stays in the `int` range; below the maximum it is the plain successor |
| PopupTurret.Initial | OpenRA.Mods.Cnc/Traits/AttackPopupTurreted.cs:38-49 | a new mount is Open with a zero idle counter, no clip outstanding, and the spawned-built flag it was created with |
| PopupTurret.CanAttack | OpenRA.Mods.Cnc/Traits/AttackPopupTurreted.cs:52-73 | the query allows an attack iff the mount is Open or Rotating, built, allowed by the base check and faced; a guard denial (Transitioning, unbuilt, base denies) changes nothing; passing the guards zeroes the idle counter; from Closed it refuses, moves to Transitioning and registers the opening callback; otherwise the posture is kept (Rotating is never reopened) |
| PopupTurret.TickIdle | OpenRA.Mods.Cnc/Traits/AttackPopupTurreted.cs:75-92 | in Open the counter advances by one (wrapping) and the mount turns to Rotating, aiming at the rest facing, iff the pre-increment value exceeds the delay; in Rotating at the rest facing it moves to Transitioning with the closing callback and the counter untouched; every other case is a no-op; a tick never closes the mount |
| PopupTurret.OpeningDone | OpenRA.Mods.Cnc/Traits/AttackPopupTurreted.cs:64-68 | the opening callback leaves the mount Open with no callback outstanding and the "idle" loop playing; counter and facing untouched |
| PopupTurret.ClosingDone | OpenRA.Mods.Cnc/Traits/AttackPopupTurreted.cs:85-90 | the closing callback leaves the mount Closed with no callback outstanding, the "closed-idle" loop playing and no desired facing; counter untouched |
| PopupTurret.BuildingComplete | OpenRA.Mods.Cnc/Traits/AttackPopupTurreted.cs:94-102 | with the spawned-built flag the mount goes straight to Closed with no desired facing and the "closed-idle" loop, leaving any outstanding callback alone; without it nothing changes |
| PopupTurret.GetDamageModifier | OpenRA.Mods.Cnc/Traits/AttackPopupTurreted.cs:104-107 | the damage percentage is the configured closed multiplier in Closed and 100 in every other posture |
| PopupEvents.InitialInv | OpenRA.Mods.Cnc/Traits/AttackPopupTurreted.cs:38-39 | a new mount satisfies the invariant: Transitioning iff a callback is outstanding, and no facing while Closed |
| PopupEvents.StepPreservesInv | OpenRA.Mods.Cnc/Traits/AttackPopupTurreted.cs:52-102 | every enabled event keeps the invariant |
| PopupEvents.RunPreservesInv | OpenRA.Mods.Cnc/Traits/AttackPopupTurreted.cs:52-102 | every admissible event trace keeps the invariant |
| PopupEvents.ReachableInv | OpenRA.Mods.Cnc/Traits/AttackPopupTurreted.cs:38-102 | every mount reachable from creation satisfies the invariant |
| PopupEvents.InFlightClipBlocksAttack | OpenRA.Mods.Cnc/Traits/AttackPopupTurreted.cs:54-55 | in a reachable mount with a callback outstanding, every eligibility query is refused without side effect |
| PopupEvents.NoClipRestartedInFlight | OpenRA.Mods.Cnc/Traits/AttackPopupTurreted.cs:54-91 | while a clip is in flight no event but its own completion changes the outstanding callback or leaves Transitioning, so no second opening or closing sequence starts |
| PopupEvents.InFlightClipCompletes | OpenRA.Mods.Cnc/Traits/AttackPopupTurreted.cs:64-90 | a Transitioning reachable mount always has its completion enabled, and the completion settles it Open after opening and Closed after closing |
| PopupEvents.DamageModifierChanges | OpenRA.Mods.Cnc/Traits/AttackPopupTurreted.cs:104-107 | in a reachable mount the damage percentage changes only on the closing callback, on construction completing, or on an attack query that starts opening a Closed mount, and only if the closed multiplier is not 100 |
| PopupEvents.ReopenCycle | OpenRA.Mods.Cnc/Traits/AttackPopupTurreted.cs:60-72 | a Closed mount asked to engage refuses and starts opening; after the opening callback the next query returns the turret's facing verdict and leaves the mount Open with a zero counter |
| PopupEvents.SpawnedBuiltStartsClosed | OpenRA.Mods.Cnc/Traits/AttackPopupTurreted.cs:94-102 | completing construction of a fresh spawned-built mount gives Closed with no clip involved, the invariant and the closed multiplier; for any other mount it changes nothing |
| PopupTimer.OpenCountsWhileUnderDelay | OpenRA.Mods.Cnc/Traits/AttackPopupTurreted.cs:77 | below the threshold, n idle ticks of an Open mount only advance its counter by n |
| PopupTimer.RotatesOnceOverDelay | OpenRA.Mods.Cnc/Traits/AttackPopupTurreted.cs:77-81 | the tick that sees the counter at delay + 1 turns the mount to Rotating, aims at the rest facing, and still advances the counter |
| PopupTimer.AutoCloseTimer | OpenRA.Mods.Cnc/Traits/AttackPopupTurreted.cs:77-81 | from a zero counter with no attacks, the mount is Open after each of the first delay + 1 idle ticks and Rotating towards the rest facing after tick delay + 2 |
| PopupTimer.MaximalDelayNeverCloses | OpenRA.Mods.Cnc/Traits/AttackPopupTurreted.cs:77 | with the largest `int` as delay, n idle ticks advance the counter by n modulo 2^32 (it wraps instead of exceeding the delay), and any number of idle ticks leaves the mount Open with its facing untouched |
| PopupTimer.IdleTicksInertElsewhere | OpenRA.Mods.Cnc/Traits/AttackPopupTurreted.cs:75-92 | any number of idle ticks leaves a Closed or Transitioning mount unchanged, and also a Rotating mount whose turret is away from the rest facing |
| PopupTimer.DefaultClosingScenario | OpenRA.Mods.Cnc/Traits/AttackPopupTurreted.cs:22-107 | with the default tunables and the turret at rest facing: Open after 126 idle ticks, Rotating after 127, Transitioning with the closing callback after 128, then Closed with damage at 50 percent once the clip ends |

## Left out

- Animation playback: the model records which once-played clip's callback is outstanding and which loop was last requested. It does not model timing or rendering.
- The base turreted-attack check and the turret's `FaceTarget` are boolean inputs. `Turreted` is not part of this model, so neither are its own effects. One of those is that `FaceTarget` rewrites `DesiredFacing`. The model's `desiredFacing` changes only through the mount's own writes.
- The structure's `BuildComplete` flag is an input to `CanAttack`. The structure lifecycle that sets it is outside the model.
- Construction plumbing is left out: the `Create` factory, the trait lookups and the `SkipMakeAnimsInit` lookup. The last one becomes the `skipped` argument of `Initial`. A turret is assumed to exist; the null case of `FirstOrDefault` is not modelled.
- The `attacker` and `warhead` parameters of `GetDamageModifier` are dropped, because they are unused.
- Engine scheduling: events arrive in any order. The only limits are those in `PopupEvents.Enabled`.
- PopupEvents.ReachableInv: the invariant is proved only for traces where construction of a spawned-built actor does not complete during a clip. If the engine delivered it then, the mount would be Closed with a callback still outstanding. For any other actor construction completing is a no-op and is allowed at any time. This is a scheduling assumption, not a promise of the trait.
