# Mobile charger process model

A Dafny model of the mobile charger (MC) of a wireless rechargeable sensor network simulation,
the class `MobileCharger` of `physical_env/mc/MobileCharger.py`. A charger travels to sensor
nodes and replenishes them. It spends energy moving and charging. It is clamped at an energy
floor (the threshold), below which it becomes depleted. It refills at the base station.

The model has one module per concern:

- `MobileCharger` (`mobile_charger.dfy`): the charger state, the physical constants, the energy
  floor `checkStatus` and the constructor.
- `Motion` (`motion.dfy`): `move` and `move_step`, a loop of motion slices of at most one time
  unit, each capped by the energy headroom.
- `Charging` (`charging.dfy`): `charge` and `charge_step`. The charger captures the nodes in
  range once, then runs slices of at most one time unit, connecting and disconnecting the
  captured nodes in every slice.
- `BaseRecharge` (`base_recharge.dfy`): `recharge`, the refill at the base station.
- `Dispatch` (`dispatch.dfy`): `operate_step`. It estimates the energy an action needs and
  either runs it (move, then charge) or overrides it with a trip to the base and a refill.
- `Scenarios` (`scenarios.dfy`): two worked dispatch cases.

The model uses these stand-ins:

- Every generator of the source becomes a pure function from the state before to the state
  after.
- The SimPy clock is the field `now`, advanced by every timeout.
- The calls `charger_connection` / `charger_disconnection` on the nodes are recorded as a trace
  of `Event`s.
- The charging rate in force during slice `k` of a charging call is set by the nodes' own code.
  The model takes it as the input `rate(k)`.
- Distances are measured by a `Metric` parameter, which stands in for the Euclidean distance.
- Reals are exact.

`RateEstimate`, `UsedEnergy` and `Rejects` are plain definitions of the feasibility estimate
(source lines 104-112). They are used in the contracts of `Dispatch` and carry no contract of
their own.

## Model

| member | source | states |
|---|---|---|
| MobileCharger.CheckStatus | physical_env/mc/MobileCharger.py:124-130 | energy ends at the larger of itself and the threshold; depleted afterwards iff depleted before or energy was at or below the threshold; nothing else changes |
| MobileCharger.CheckStatusIdempotent | physical_env/mc/MobileCharger.py:124-130 | a second check changes nothing |
| MobileCharger.CheckStatusNeverActivates | physical_env/mc/MobileCharger.py:124-130 | a check leaves the charger active iff it was active with energy above the threshold: it never reactivates |
| MobileCharger.Init | physical_env/mc/MobileCharger.py:6-30 | a new charger holds max(capacity, threshold), is active iff capacity exceeds the threshold, has no action, is moving, and satisfies the between-operations invariant |
| Motion.MoveSpan | physical_env/mc/MobileCharger.py:86 | a motion slice lies in [0, 1], never overshoots the remaining time, never costs more than the headroom, and is limited by one of the three bounds; it is 0 iff the energy is at the threshold |
| Motion.MoveStep | physical_env/mc/MobileCharger.py:68-71 | one motion slice advances the clock by t, shifts the location by the slice's vector, debits exactly pm times t times velocity, and changes nothing else, status included |
| Motion.MoveLoop | physical_env/mc/MobileCharger.py:82-91 | the loop's time stays within the trip; the clock advances by the time spent; energy stays at or above the floor; only location, energy and clock change; an active charger either arrives or stalls at the floor; a depleted one runs exactly one slice |
| Motion.MoveLoopEnergy | physical_env/mc/MobileCharger.py:68-91 | the loop debits exactly pm times velocity times the time it spends |
| Motion.MoveLoopStalls | physical_env/mc/MobileCharger.py:82-91 | the loop stalls (span 0 forever) iff the charger is active and the rest of the trip costs more than the headroom |
| Motion.MoveLoopFollowsSegment | physical_env/mc/MobileCharger.py:68-87 | the slices keep the charger on the straight segment: the location is the point reached after the time spent |
| Motion.StallsWhenOverdrawn | physical_env/mc/MobileCharger.py:86-90 | a trip stalls iff the charger is active and pm times the distance exceeds the headroom |
| Motion.Move | physical_env/mc/MobileCharger.py:74-91 | a zero distance returns at once; otherwise it stalls iff `Stalls`, and an active charger that does not stall arrives at the destination after distance over velocity, having paid pm times the distance; energy never drops below the floor; status never changes; the charger ends on the segment to the destination, at the point reached after the time spent; a depleted charger stops after one slice of at most one time unit, and at the floor does not move |
| Motion.MoveArrives | physical_env/mc/MobileCharger.py:74-91 | a trip the headroom covers ends at the destination, active, with the exact cost and duration |
| Charging.InRange | physical_env/mc/MobileCharger.py:52-55 | the captured nodes are exactly the network's nodes within charging range of the location, alive or not |
| Charging.InRangeAppend | physical_env/mc/MobileCharger.py:52-55 | capturing distributes over concatenation of the node list, so the captured nodes keep network order and multiplicity |
| Charging.ChargeStep | physical_env/mc/MobileCharger.py:32-47 | a slice debits rate times t, advances the clock by t, lowers the action's remaining time by t but not below 0, zeroes the charging rate, and changes nothing else |
| Charging.ChargeStepBalanced | physical_env/mc/MobileCharger.py:38-45 | within a slice every captured node is connected, then every one is disconnected, in network order |
| Charging.ChargeSpan | physical_env/mc/MobileCharger.py:57-59 | a charging slice lies between 0 and min(remaining, 1), and equals that bound when no rate is in force |
| Charging.ChargeSpanWithinHeadroom | physical_env/mc/MobileCharger.py:57-59 | with a rate in force the slice draws at most the headroom, and all of it when the cap is what limits the slice |
| Charging.ChargeLoop | physical_env/mc/MobileCharger.py:56-65 | the loop runs at least one slice; the slices add up to at most the charging time, and to all of it unless the charger ends depleted; a depleted charger runs one slice; the energy ends at the floor or above, and depleted iff it started depleted or reached the floor; no rate is left over |
| Charging.ChargeLoopSpans | physical_env/mc/MobileCharger.py:56-65 | every slice lasts between 0 and 1, and every slice but the last lasts exactly 1, apart from a first slice cut short by a rate in force on entry |
| Charging.ChargeLoopEnergy | physical_env/mc/MobileCharger.py:56-65 | the energy ends at max(threshold, entry energy minus the draw of every slice at its rate) |
| Charging.ChargeLoopClock | physical_env/mc/MobileCharger.py:56-65 | the clock advances by exactly the total length of the slices |
| Charging.ChargeLoopActionTime | physical_env/mc/MobileCharger.py:32-65 | the current action's remaining time goes down by the total time charged, but not below 0; the rest of the action is untouched |
| Charging.ChargeLoopEvents | physical_env/mc/MobileCharger.py:32-65 | the loop makes one connect/disconnect session on the captured nodes per slice |
| Charging.Charge | physical_env/mc/MobileCharger.py:49-66 | combines the loop's properties for one call: slice shape; the slices add up to at most the charging time, and to all of it unless depleted; depleted iff it started depleted or reached the floor; energy accounting, clock and action time; one connect/disconnect session on the captured nodes per slice; location and phase unchanged |
| Charging.ChargeCallsCapturedNodes | physical_env/mc/MobileCharger.py:49-66 | every node the call connects or disconnects was in range when the call started, and the nodes disconnected are the nodes connected, in order |
| Charging.SessionsBalanced | physical_env/mc/MobileCharger.py:38-45 | over any number of slices the disconnections match the connections and only captured nodes are called |
| Charging.SessionShape | physical_env/mc/MobileCharger.py:38-45 | one session connects and disconnects exactly the captured nodes, every connection first |
| BaseRecharge.Recharge | physical_env/mc/MobileCharger.py:93-97 | within epsilon of the base the charger is put on the base with full capacity; otherwise nothing changes; status and clock never change; the invariant is kept |
| BaseRecharge.RechargeIdempotent | physical_env/mc/MobileCharger.py:93-97 | a second refill changes nothing |
| Dispatch.EligibleNodes | physical_env/mc/MobileCharger.py:106-107 | the nodes the estimate counts are exactly the alive nodes in range of the charger |
| Dispatch.EligibleNodesAppend | physical_env/mc/MobileCharger.py:106-107 | selecting the eligible nodes distributes over concatenation of the node list, so they keep network order and multiplicity |
| Dispatch.ReturnToBase | physical_env/mc/MobileCharger.py:113-117 | the override sets the base with time 0 as current action and phase moving, moves to the base, and refills unless the motion stalls; it charges nothing |
| Dispatch.RunAction | physical_env/mc/MobileCharger.py:118-122 | the accept branch takes the action, moves, and unless the motion stalls switches to charging and charges for the action's time, counting it down by the time charged |
| Dispatch.OperateStep | physical_env/mc/MobileCharger.py:99-122 | a step starts one or two sub-processes and hangs iff it starts only one; a depleted charger stays depleted; energy ends at the floor or above unless the step ends with a refill; no rate is left over when none was in force on entry; with capacity at least the threshold a step keeps the between-operations invariant (energy at the floor or above, no rate left over) |
| Dispatch.OverrideNeverCharges | physical_env/mc/MobileCharger.py:112-117 | a rejected action moves to the base first, never charges, and leaves the base with time 0 as current action |
| Dispatch.AcceptNeverRefills | physical_env/mc/MobileCharger.py:118-122 | an accepted action moves to its destination first and never refills; after a stall the action is current and untouched; otherwise the phase is charging and the action's time is counted down |
| Dispatch.RateEstimateOverEligible | physical_env/mc/MobileCharger.py:105-108 | the estimated charging power is the plain sum of alpha over (d + beta)^2 over the eligible nodes |
| Dispatch.EligibleAreAliveCaptured | physical_env/mc/MobileCharger.py:106-107 | the nodes the estimate counts are the alive ones among those `charge` would capture at the same location |
| Dispatch.RejectReturnsToBase | physical_env/mc/MobileCharger.py:112-117 | a rejected action whose trip home the headroom covers ends on the base with a full battery, active |
| Dispatch.AcceptMovesThenCharges | physical_env/mc/MobileCharger.py:118-122 | an accepted action whose trip the headroom covers ends at its destination in the charging phase |
| Dispatch.AcceptDebitsTripAndCharge | physical_env/mc/MobileCharger.py:118-122 | such an action costs the trip plus every slice's draw, clamped once at the floor, and charges for its full time unless the floor is reached |
| Dispatch.RunActionArrives | physical_env/mc/MobileCharger.py:118-122 | the accept branch on its own: a covered trip arrives and starts charging |
| Dispatch.RunActionDebits | physical_env/mc/MobileCharger.py:118-122 | the accept branch on its own: the trip cost plus the charge draw, clamped once |
| Dispatch.DepletedAtFloorStays | physical_env/mc/MobileCharger.py:99-122 | when no charging slice draws negative power, a depleted charger at the floor stays depleted through any step; it neither moves nor spends, and its energy changes only by a refill when already at the base |
| Scenarios.FarActionReturnsToBase | physical_env/mc/MobileCharger.py:99-117 | capacity 100, threshold 10, destination (50, 0): estimate 100 > 90.5, so the action is rejected and the charger stays at the base with energy 100 |
| Scenarios.NearActionAccepted | physical_env/mc/MobileCharger.py:104-112 | destination (10, 0), one alive node there, time 5: the estimate is within 90.5, so the action is accepted |
| Scenarios.NearActionCharges | physical_env/mc/MobileCharger.py:99-122 | that action ends at (10, 0) charging, with energy max(10, 90 minus the charge draw), and charges for 5 unless the floor is reached |

## Left out

- The policy that chooses the actions, and the `env`, `net` and `id` wiring: actions, the network and the clock are inputs.
- SimPy scheduling: interleaving with other chargers and with the nodes during a timeout is not modelled. A timeout only advances `now`.
- The nodes' side of `charger_connection` / `charger_disconnection`: calls are recorded as events. The charging rate the nodes set is the input `rate(k)`. Whether the nodes ever leave a negative rate is not constrained.
- Euclidean distance and numpy arrays: distances come from a `Metric` parameter and points are pairs of reals. Only the distances the model needs are constrained. `move` measures its distance once on entry and takes the remaining time as total minus elapsed, which is exact on the straight segment it travels in real arithmetic. The source re-measures from the live location each slice.
- Floating-point rounding: reals are exact, so `moving_time <= 0` and `tmp == 0` behave as in exact arithmetic.
- The telemetry fields `chargingTime`, `movingTime` and `destination`, which nothing in the class reads.
- Aliasing of `cur_phy_action`: the accept branch stores the caller's list, which `charge_step` then mutates in place. The model stores a value and does not model the caller seeing the change.
- Motion.Move: a stalled trip (headroom exhausted with distance left, still active) makes the source loop forever with span 0. The model returns a `Stalled` outcome instead, and `OperateStep` reports such a step as `hung`.
- Motion.Move: requires positive velocity and cost per distance. The source divides by both; a zero raises, and negative values are outside the model.
- Charging.Charge: requires a non-negative charging time, because a negative slice makes the SimPy timeout raise. It also requires a non-negative rate on entry and energy at the floor or above, which every operation keeps when the capacity is at least the threshold (`Dispatch.OperateStep`).
- Dispatch.OperateStep: requires every denominator of the estimate to be nonzero. A denominator is zero only for a non-physical beta equal to minus a distance; the source's floating-point division then yields an infinite or NaN estimate (a NaN estimate accepts the action, since no comparison with NaN holds), which real arithmetic has no counterpart for. It also requires non-negative distances and, for an accepted action, a non-negative charging time.

Behaviour of the code worth noting:

- `move` never calls `checkStatus`, so motion never changes the status. The headroom cap keeps its energy at the floor or above.
- `recharge` refills the energy but does not reset the status. A depleted charger stays depleted after a refill (`BaseRecharge.Recharge`, `Dispatch.DepletedAtFloorStays`).
- `charge` always runs at least one slice, even with zero charging time or a depleted charger.
- The estimate measures each node from the charger's current location, not from the destination. In the second worked case the node is 10 away from the base, so the estimate is 20 plus at most 5/121 and the action is accepted (`Scenarios.NearActionAccepted`).
