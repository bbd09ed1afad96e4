/** The dispatch controller `operate_step`: it estimates the energy an action needs and either
    runs it (move to the destination, then charge) or overrides it with a return to the base
    station followed by a refill. */
module Dispatch {
  import opened MobileCharger
  import opened Motion
  import opened Charging
  import opened BaseRecharge

  /** A sub-process `operate_step` starts, in the order it starts them. */
  datatype Process = MoveTo(dest: Point) | ChargeFor(time: real) | RechargeAtBase

  /** The outcome of one `operate_step`: the sub-processes started, the final state, whether the
      step hangs in a stalled motion (and so never returns), and the charging slices run. */
  datatype StepResult = StepResult(ran: seq<Process>, mc: Charger, hung: bool, charged: seq<real>)

  /** Whether the feasibility estimate counts node `n`: alive and within charging range of the
      charger's location `loc`. */
  predicate Eligible(spec: PhySpec, metric: Metric, loc: Point, n: Node) {
    metric(n.location, loc) <= spec.chargingRange && n.alive
  }

  /** Every denominator of the estimate is nonzero. */
  predicate Denominators(spec: PhySpec, metric: Metric, nodes: seq<Node>, loc: Point) {
    forall n :: n in nodes && Eligible(spec, metric, loc, n) ==> metric(loc, n.location) + spec.beta != 0.0
  }

  /** The estimated charging power one node draws: alpha over the squared distance plus beta. */
  function Intensity(spec: PhySpec, metric: Metric, loc: Point, n: Node): real
    requires metric(loc, n.location) + spec.beta != 0.0
  {
    var d := metric(loc, n.location) + spec.beta;
    spec.alpha / (d * d)
  }

  /** The estimated charging power of `nodes`, summed in network order over the eligible ones. */
  function RateEstimate(spec: PhySpec, metric: Metric, nodes: seq<Node>, loc: Point): real
    requires Denominators(spec, metric, nodes, loc)
    decreases |nodes|
  {
    if |nodes| == 0 then 0.0
    else
      assert nodes[0] in nodes;
      (if Eligible(spec, metric, loc, nodes[0]) then Intensity(spec, metric, loc, nodes[0]) else 0.0)
        + RateEstimate(spec, metric, nodes[1..], loc)
  }

  /** The eligible nodes, in network order. */
  function EligibleNodes(spec: PhySpec, metric: Metric, nodes: seq<Node>, loc: Point): (r: seq<Node>)
    decreases |nodes|
    ensures forall n :: n in r <==> n in nodes && Eligible(spec, metric, loc, n)
  {
    if |nodes| == 0 then []
    else
      var rest := EligibleNodes(spec, metric, nodes[1..], loc);
      assert forall n :: n in nodes <==> n == nodes[0] || n in nodes[1..];
      if Eligible(spec, metric, loc, nodes[0]) then [nodes[0]] + rest else rest
  }

  /** Selecting the eligible nodes distributes over concatenation: they keep their network
      order and their multiplicity. */
  lemma {:induction false} EligibleNodesAppend(spec: PhySpec, metric: Metric, a: seq<Node>, b: seq<Node>, loc: Point)
    decreases |a|
    ensures EligibleNodes(spec, metric, a + b, loc) == EligibleNodes(spec, metric, a, loc) + EligibleNodes(spec, metric, b, loc)
  {
    if |a| == 0 {
      assert a + b == b;
    } else {
      assert (a + b)[0] == a[0];
      assert (a + b)[1..] == a[1..] + b;
      EligibleNodesAppend(spec, metric, a[1..], b, loc);
    }
  }

  /** The alive nodes of `nodes`, in order. */
  function AliveOnly(nodes: seq<Node>): seq<Node>
    decreases |nodes|
  {
    if |nodes| == 0 then [] else (if nodes[0].alive then [nodes[0]] else []) + AliveOnly(nodes[1..])
  }

  /** The plain sum of the intensities of `nodes`. */
  function IntensitySum(spec: PhySpec, metric: Metric, nodes: seq<Node>, loc: Point): real
    requires forall n :: n in nodes ==> metric(loc, n.location) + spec.beta != 0.0
    decreases |nodes|
  {
    if |nodes| == 0 then 0.0
    else
      assert nodes[0] in nodes;
      Intensity(spec, metric, loc, nodes[0]) + IntensitySum(spec, metric, nodes[1..], loc)
  }

  /** The estimate of the energy an action needs: the trip to the destination, the estimated
      charging power times the charging time, and the trip from the destination back to base. */
  function UsedEnergy(spec: PhySpec, metric: Metric, mc: Charger, net: Net, action: PhyAction): real
    requires Denominators(spec, metric, net.nodes, mc.location)
  {
    var dest := Point(action.x, action.y);
    metric(dest, mc.location) * spec.pm
      + RateEstimate(spec, metric, net.nodes, mc.location) * action.time
      + metric(dest, net.base) * spec.pm
  }

  /** The action is overridden when its estimate exceeds the energy above the floor plus a
      margin of half a percent of the capacity. */
  predicate Rejects(spec: PhySpec, metric: Metric, mc: Charger, net: Net, action: PhyAction)
    requires Denominators(spec, metric, net.nodes, mc.location)
  {
    UsedEnergy(spec, metric, mc, net, action) > mc.energy - spec.threshold + spec.capacity / 200.0
  }

  /** What a call of `operate_step` needs: motion can divide by velocity and cost, the energy is
      at the floor or above, the rate left over is not negative, the estimate divides by
      nonzero values, distances are not negative, and an accepted action has a charging time
      that is not negative. */
  predicate CanOperate(spec: PhySpec, metric: Metric, mc: Charger, net: Net, action: PhyAction) {
    && CanMove(spec) && mc.energy >= spec.threshold && mc.chargingRate >= 0.0
    && Denominators(spec, metric, net.nodes, mc.location)
    && metric(Point(action.x, action.y), mc.location) >= 0.0 && metric(net.base, mc.location) >= 0.0
    && (action.time >= 0.0 || Rejects(spec, metric, mc, net, action))
  }

  /** The override branch of `operate_step`: the current action becomes the base with no
      charging time, the charger moves to the base and, unless the motion stalls, refills. */
  function ReturnToBase(spec: PhySpec, metric: Metric, mc: Charger, net: Net): (r: StepResult)
    requires CanMove(spec) && mc.energy >= spec.threshold && metric(net.base, mc.location) >= 0.0
    ensures r.ran == (if r.hung then [MoveTo(net.base)] else [MoveTo(net.base), RechargeAtBase])
    ensures r.hung <==> Stalls(spec, mc, metric(net.base, mc.location))
    ensures r.charged == [] && r.mc.actionType == Moving
    ensures r.mc.curAction == Some(PhyAction(net.base.x, net.base.y, 0.0))
    ensures r.mc.status == mc.status && r.mc.chargingRate == mc.chargingRate
    ensures r.hung ==> r.mc.energy >= spec.threshold
  {
    var mc1 := mc.(curAction := Some(PhyAction(net.base.x, net.base.y, 0.0)), actionType := Moving);
    var m := Move(spec, mc1, net.base, metric(net.base, mc1.location));
    if m.Stalled? then StepResult([MoveTo(net.base)], m.mc, true, [])
    else StepResult([MoveTo(net.base), RechargeAtBase], Recharge(spec, m.mc, net, metric), false, [])
  }

  /** The accept branch of `operate_step`: the action becomes the current action, the charger
      moves to its destination and, unless the motion stalls, switches to charging and charges
      for the action's charging time. */
  function RunAction(spec: PhySpec, metric: Metric, rate: nat -> real, mc: Charger, net: Net, action: PhyAction): (r: StepResult)
    requires CanMove(spec) && mc.energy >= spec.threshold && mc.chargingRate >= 0.0
    requires metric(Point(action.x, action.y), mc.location) >= 0.0 && action.time >= 0.0
    ensures r.ran == (if r.hung then [MoveTo(Point(action.x, action.y))]
                      else [MoveTo(Point(action.x, action.y)), ChargeFor(action.time)])
    ensures r.hung <==> Stalls(spec, mc, metric(Point(action.x, action.y), mc.location))
    ensures r.hung ==> r.mc.actionType == Moving && r.mc.curAction == Some(action) && r.charged == []
    ensures !r.hung ==> r.mc.actionType == Charging && |r.charged| >= 1
    ensures !r.hung ==> r.mc.curAction == Some(action.(time := Max(0.0, action.time - Sum(r.charged))))
    ensures r.mc.energy >= spec.threshold
    ensures mc.status == Depleted ==> r.mc.status == Depleted
    ensures mc.chargingRate == 0.0 ==> r.mc.chargingRate == 0.0
  {
    var dest := Point(action.x, action.y);
    var mc1 := mc.(curAction := Some(action), actionType := Moving);
    var m := Move(spec, mc1, dest, metric(dest, mc1.location));
    if m.Stalled? then StepResult([MoveTo(dest)], m.mc, true, [])
    else
      var c := Charge(spec, m.mc.(actionType := Charging), net, metric, rate, action.time);
      StepResult([MoveTo(dest), ChargeFor(action.time)], c.mc, false, c.spans)
  }

  /** `operate_step`: the override branch when the estimate rejects the action, the accept
      branch otherwise. It starts at least one sub-process and hangs exactly when it starts no
      second one; a depleted charger stays depleted; the energy ends at the floor or above
      unless the step ends with a refill; no charging rate is left over. A refill fills to the
      capacity, so with a capacity at least the threshold a step keeps `Inv`. */
  function OperateStep(spec: PhySpec, metric: Metric, rate: nat -> real, mc: Charger, net: Net, action: PhyAction): (r: StepResult)
    requires CanOperate(spec, metric, mc, net, action)
    ensures |r.ran| >= 1 && (r.hung <==> |r.ran| == 1)
    ensures mc.status == Depleted ==> r.mc.status == Depleted
    ensures r.mc.energy >= spec.threshold || r.ran[|r.ran| - 1] == RechargeAtBase
    ensures mc.chargingRate == 0.0 ==> r.mc.chargingRate == 0.0
    ensures Inv(spec, mc) && spec.capacity >= spec.threshold ==> Inv(spec, r.mc)
  {
    if Rejects(spec, metric, mc, net, action) then ReturnToBase(spec, metric, mc, net)
    else RunAction(spec, metric, rate, mc, net, action)
  }

  /** An overridden action starts a motion to the base and, unless it stalls, a refill; it never
      charges, and it leaves the base with no charging time as current action, phase moving. */
  lemma OverrideNeverCharges(spec: PhySpec, metric: Metric, rate: nat -> real, mc: Charger, net: Net, action: PhyAction)
    requires CanOperate(spec, metric, mc, net, action) && Rejects(spec, metric, mc, net, action)
    ensures var r := OperateStep(spec, metric, rate, mc, net, action);
      && r.ran[0] == MoveTo(net.base) && (forall i :: 0 <= i < |r.ran| ==> !r.ran[i].ChargeFor?)
      && r.charged == [] && r.mc.actionType == Moving
      && r.mc.curAction == Some(PhyAction(net.base.x, net.base.y, 0.0))
      && (r.hung <==> Stalls(spec, mc, metric(net.base, mc.location)))
  {
  }

  /** An accepted action starts a motion to its destination and, unless it stalls, a charging
      process for its charging time; it never refills. After a stalled motion the action is
      current with its time untouched and the phase is moving; otherwise the phase is charging
      and the action's time is counted down by the time charged. */
  lemma AcceptNeverRefills(spec: PhySpec, metric: Metric, rate: nat -> real, mc: Charger, net: Net, action: PhyAction)
    requires CanOperate(spec, metric, mc, net, action) && !Rejects(spec, metric, mc, net, action)
    ensures var r := OperateStep(spec, metric, rate, mc, net, action);
      && r.ran[0] == MoveTo(Point(action.x, action.y))
      && (forall i :: 0 <= i < |r.ran| ==> !r.ran[i].RechargeAtBase?)
      && (r.hung <==> Stalls(spec, mc, metric(Point(action.x, action.y), mc.location)))
      && (r.hung ==> r.mc.actionType == Moving && r.mc.curAction == Some(action) && r.charged == [])
      && (!r.hung ==> (r.ran[1] == ChargeFor(action.time) && r.mc.actionType == Charging
                       && r.mc.curAction == Some(action.(time := Max(0.0, action.time - Sum(r.charged))))))
  {
  }

  /** The estimate is the plain sum of intensities over the eligible nodes: nodes out of range
      or dead add nothing. */
  lemma {:induction false} RateEstimateOverEligible(spec: PhySpec, metric: Metric, nodes: seq<Node>, loc: Point)
    requires Denominators(spec, metric, nodes, loc)
    decreases |nodes|
    ensures RateEstimate(spec, metric, nodes, loc) == IntensitySum(spec, metric, EligibleNodes(spec, metric, nodes, loc), loc)
  {
    if |nodes| > 0 {
      RateEstimateOverEligible(spec, metric, nodes[1..], loc);
      var rest := EligibleNodes(spec, metric, nodes[1..], loc);
      if Eligible(spec, metric, loc, nodes[0]) {
        assert ([nodes[0]] + rest)[1..] == rest;
      }
    }
  }

  /** The nodes the estimate counts are the alive ones among the nodes `charge` would capture
      at the same location, which captures dead nodes as well. */
  lemma {:induction false} EligibleAreAliveCaptured(spec: PhySpec, metric: Metric, nodes: seq<Node>, loc: Point)
    decreases |nodes|
    ensures EligibleNodes(spec, metric, nodes, loc) == AliveOnly(InRange(spec, metric, nodes, loc))
  {
    if |nodes| > 0 {
      EligibleAreAliveCaptured(spec, metric, nodes[1..], loc);
      var captured := InRange(spec, metric, nodes[1..], loc);
      if metric(nodes[0].location, loc) <= spec.chargingRange {
        assert ([nodes[0]] + captured)[1..] == captured;
      }
    }
  }

  /** An overridden action whose trip home the headroom covers brings the charger onto the base
      with a full battery, given a distance that is zero only between equal points and an
      epsilon that is not negative. */
  lemma RejectReturnsToBase(spec: PhySpec, metric: Metric, rate: nat -> real, mc: Charger, net: Net, action: PhyAction)
    requires CanOperate(spec, metric, mc, net, action) && Rejects(spec, metric, mc, net, action)
    requires mc.status == Active && spec.pm * metric(net.base, mc.location) <= mc.energy - spec.threshold
    requires metric(net.base, mc.location) == 0.0 ==> mc.location == net.base
    requires metric(net.base, net.base) <= spec.epsilon
    ensures var r := OperateStep(spec, metric, rate, mc, net, action);
      && r.ran == [MoveTo(net.base), RechargeAtBase]
      && r.mc.location == net.base && r.mc.energy == spec.capacity && r.mc.status == Active
  {
    StallsWhenOverdrawn(spec, mc, metric(net.base, mc.location));
  }

  /** An accepted action whose trip the headroom covers moves the charger onto the destination
      and charges there. */
  lemma AcceptMovesThenCharges(spec: PhySpec, metric: Metric, rate: nat -> real, mc: Charger, net: Net, action: PhyAction)
    requires CanOperate(spec, metric, mc, net, action) && !Rejects(spec, metric, mc, net, action)
    requires mc.status == Active && spec.pm * metric(Point(action.x, action.y), mc.location) <= mc.energy - spec.threshold
    requires metric(Point(action.x, action.y), mc.location) > 0.0
    ensures var r := OperateStep(spec, metric, rate, mc, net, action);
      && r.ran == [MoveTo(Point(action.x, action.y)), ChargeFor(action.time)]
      && r.mc.location == Point(action.x, action.y) && r.mc.actionType == Charging
  {
    RunActionArrives(spec, metric, rate, mc, net, action);
  }

  /** Such an action costs exactly the trip plus every charging slice's draw, clamped once at the
      floor, and unless the floor is reached it charges for exactly its charging time. */
  lemma AcceptDebitsTripAndCharge(spec: PhySpec, metric: Metric, rate: nat -> real, mc: Charger, net: Net, action: PhyAction)
    requires CanOperate(spec, metric, mc, net, action) && !Rejects(spec, metric, mc, net, action)
    requires mc.status == Active && spec.pm * metric(Point(action.x, action.y), mc.location) <= mc.energy - spec.threshold
    requires metric(Point(action.x, action.y), mc.location) > 0.0
    ensures var r := OperateStep(spec, metric, rate, mc, net, action);
      && r.mc.energy == Max(spec.threshold, mc.energy - spec.pm * metric(Point(action.x, action.y), mc.location) - Debit(rate, 0, r.charged))
      && (r.mc.status == Active ==> Sum(r.charged) == action.time)
  {
    RunActionDebits(spec, metric, rate, mc, net, action);
  }

  lemma RunActionArrives(spec: PhySpec, metric: Metric, rate: nat -> real, mc: Charger, net: Net, action: PhyAction)
    requires CanMove(spec) && mc.energy >= spec.threshold && mc.chargingRate >= 0.0 && action.time >= 0.0
    requires mc.status == Active && spec.pm * metric(Point(action.x, action.y), mc.location) <= mc.energy - spec.threshold
    requires metric(Point(action.x, action.y), mc.location) > 0.0
    ensures var r := RunAction(spec, metric, rate, mc, net, action);
      && r.ran == [MoveTo(Point(action.x, action.y)), ChargeFor(action.time)]
      && r.mc.location == Point(action.x, action.y) && r.mc.actionType == Charging
  {
    var dest := Point(action.x, action.y);
    var mc1 := mc.(curAction := Some(action), actionType := Moving);
    MoveArrives(spec, mc1, dest, metric(dest, mc.location));
  }

  lemma RunActionDebits(spec: PhySpec, metric: Metric, rate: nat -> real, mc: Charger, net: Net, action: PhyAction)
    requires CanMove(spec) && mc.energy >= spec.threshold && mc.chargingRate >= 0.0 && action.time >= 0.0
    requires mc.status == Active && spec.pm * metric(Point(action.x, action.y), mc.location) <= mc.energy - spec.threshold
    requires metric(Point(action.x, action.y), mc.location) > 0.0
    ensures var r := RunAction(spec, metric, rate, mc, net, action);
      && r.mc.energy == Max(spec.threshold, mc.energy - spec.pm * metric(Point(action.x, action.y), mc.location) - Debit(rate, 0, r.charged))
      && (r.mc.status == Active ==> Sum(r.charged) == action.time)
  {
    var dest := Point(action.x, action.y);
    var dist := metric(dest, mc.location);
    var mc1 := mc.(curAction := Some(action), actionType := Moving);
    MoveArrives(spec, mc1, dest, dist);
    var m := Move(spec, mc1, dest, dist);
    var e := m.mc.energy;
    assert e == mc.energy - spec.pm * dist;
    RunActionCharges(spec, metric, rate, mc, net, action);
  }

  /** Past a motion that does not stall, the accept branch ends as the charging call from the
      motion's end state, switched to the charging phase. */
  lemma RunActionCharges(spec: PhySpec, metric: Metric, rate: nat -> real, mc: Charger, net: Net, action: PhyAction)
    requires CanMove(spec) && mc.energy >= spec.threshold && mc.chargingRate >= 0.0 && action.time >= 0.0
    requires metric(Point(action.x, action.y), mc.location) >= 0.0
    requires !Stalls(spec, mc, metric(Point(action.x, action.y), mc.location))
    ensures var dest := Point(action.x, action.y);
      var m := Move(spec, mc.(curAction := Some(action), actionType := Moving), dest, metric(dest, mc.location));
      var c := Charge(spec, m.mc.(actionType := Charging), net, metric, rate, action.time);
      RunAction(spec, metric, rate, mc, net, action) == StepResult([MoveTo(dest), ChargeFor(action.time)], c.mc, false, c.spans)
  {
  }

  /** A depleted charger at the floor stays depleted and at the floor through any step when no
      slice draws negative power; it does not move, and its energy changes only by a refill when
      it already lies within epsilon of the base. */
  lemma DepletedAtFloorStays(spec: PhySpec, metric: Metric, rate: nat -> real, mc: Charger, net: Net, action: PhyAction)
    requires CanOperate(spec, metric, mc, net, action)
    requires mc.status == Depleted && mc.energy == spec.threshold
    requires forall k :: rate(k) >= 0.0
    ensures var r := OperateStep(spec, metric, rate, mc, net, action);
      && !r.hung && r.mc.status == Depleted
      && ((r.mc.location == mc.location && r.mc.energy == spec.threshold)
          || (r.ran == [MoveTo(net.base), RechargeAtBase] && AtBase(spec, mc, net, metric)
              && r.mc.location == net.base && r.mc.energy == spec.capacity))
  {
    var r := OperateStep(spec, metric, rate, mc, net, action);
    if !Rejects(spec, metric, mc, net, action) {
      var dest := Point(action.x, action.y);
      var mc1 := mc.(curAction := Some(action), actionType := Moving);
      var m := Move(spec, mc1, dest, metric(dest, mc1.location));
      assert m.mc == mc1;
      var c := Charge(spec, m.mc.(actionType := Charging), net, metric, rate, action.time);
      assert |c.spans| == 1 && c.spans[0] >= 0.0;
      DrawnNonnegative(rate(0), c.spans[0]);
      assert Debit(rate, 0, c.spans) == Drawn(rate(0), c.spans[0]);
    }
  }
}
