/** Two worked dispatch cases for a charger of capacity 100, threshold 10, velocity 1 and a cost
    of 1 per unit of distance, starting full at the base station (0, 0). Only the distances the
    cases use are fixed; the metric is otherwise arbitrary. */
module Scenarios {
  import opened MobileCharger
  import opened Motion
  import opened Charging
  import opened Dispatch

  predicate Unit(spec: PhySpec) {
    spec.capacity == 100.0 && spec.threshold == 10.0 && spec.velocity == 1.0 && spec.pm == 1.0
  }

  /** A trip to (50, 0) and back is estimated at 100, over the 90.5 the charger may spend, so the
      action is overridden: the charger stays at the base, refills to the energy it already has
      and takes the base as its current action. */
  lemma FarActionReturnsToBase(spec: PhySpec, metric: Metric, rate: nat -> real, now: real)
    requires Unit(spec) && spec.epsilon >= 0.0
    requires metric(Point(50.0, 0.0), Point(0.0, 0.0)) == 50.0 && metric(Point(0.0, 0.0), Point(0.0, 0.0)) == 0.0
    ensures var mc := Init(spec, Point(0.0, 0.0), now);
      var net := Net([], Point(0.0, 0.0));
      var action := PhyAction(50.0, 0.0, 0.0);
      && CanOperate(spec, metric, mc, net, action) && Rejects(spec, metric, mc, net, action)
      && var r := OperateStep(spec, metric, rate, mc, net, action);
      && r.ran == [MoveTo(Point(0.0, 0.0)), RechargeAtBase]
      && r.mc.location == Point(0.0, 0.0) && r.mc.energy == 100.0 && r.mc.now == now
      && r.mc.curAction == Some(PhyAction(0.0, 0.0, 0.0)) && r.mc.status == Active
  {
    var mc := Init(spec, Point(0.0, 0.0), now);
    var net := Net([], Point(0.0, 0.0));
    var action := PhyAction(50.0, 0.0, 0.0);
    assert UsedEnergy(spec, metric, mc, net, action) == 100.0;
    StallsWhenOverdrawn(spec, mc.(curAction := Some(PhyAction(0.0, 0.0, 0.0))), 0.0);
    OverrideNeverCharges(spec, metric, rate, mc, net, action);
    assert OperateStep(spec, metric, rate, mc, net, action) == ReturnToBase(spec, metric, mc, net);
  }

  /** The near action of `NearActionCharges`: a trip to (10, 0) to charge one alive node there
      for 5 time units is estimated at no more than 20 + 5/121 (the node is measured from the
      base, 10 away), within the 90.5 the charger may spend, so the action is accepted. */
  lemma NearActionAccepted(spec: PhySpec, metric: Metric, now: real, id: nat)
    requires Unit(spec) && spec.alpha == 1.0 && spec.beta == 1.0
    requires metric(Point(10.0, 0.0), Point(0.0, 0.0)) == 10.0 && metric(Point(0.0, 0.0), Point(10.0, 0.0)) == 10.0
    requires metric(Point(0.0, 0.0), Point(0.0, 0.0)) == 0.0
    ensures var mc := Init(spec, Point(0.0, 0.0), now);
      var net := Net([Node(id, Point(10.0, 0.0), true)], Point(0.0, 0.0));
      var action := PhyAction(10.0, 0.0, 5.0);
      CanOperate(spec, metric, mc, net, action) && !Rejects(spec, metric, mc, net, action)
  {
    var mc := Init(spec, Point(0.0, 0.0), now);
    var net := Net([Node(id, Point(10.0, 0.0), true)], Point(0.0, 0.0));
    assert Denominators(spec, metric, net.nodes, mc.location);
    assert net.nodes[1..] == [];
    assert RateEstimate(spec, metric, net.nodes, mc.location) <= 1.0 / 121.0;
  }

  /** The near action runs: the charger ends at (10, 0) charging, having spent 10 on the trip
      plus the draw of its charging slices, which add up to the 5 time units unless the floor
      is reached. */
  lemma NearActionCharges(spec: PhySpec, metric: Metric, rate: nat -> real, now: real, id: nat)
    requires Unit(spec) && spec.alpha == 1.0 && spec.beta == 1.0
    requires metric(Point(10.0, 0.0), Point(0.0, 0.0)) == 10.0 && metric(Point(0.0, 0.0), Point(10.0, 0.0)) == 10.0
    requires metric(Point(0.0, 0.0), Point(0.0, 0.0)) == 0.0
    ensures var mc := Init(spec, Point(0.0, 0.0), now);
      var net := Net([Node(id, Point(10.0, 0.0), true)], Point(0.0, 0.0));
      var action := PhyAction(10.0, 0.0, 5.0);
      && CanOperate(spec, metric, mc, net, action) && !Rejects(spec, metric, mc, net, action)
      && var r := OperateStep(spec, metric, rate, mc, net, action);
      && r.ran == [MoveTo(Point(10.0, 0.0)), ChargeFor(5.0)]
      && r.mc.location == Point(10.0, 0.0) && r.mc.actionType == Charging
      && r.mc.energy == Max(10.0, 90.0 - Debit(rate, 0, r.charged))
      && (r.mc.status == Active ==> Sum(r.charged) == 5.0)
  {
    var mc := Init(spec, Point(0.0, 0.0), now);
    var net := Net([Node(id, Point(10.0, 0.0), true)], Point(0.0, 0.0));
    var action := PhyAction(10.0, 0.0, 5.0);
    NearActionAccepted(spec, metric, now, id);
    AcceptMovesThenCharges(spec, metric, rate, mc, net, action);
    AcceptDebitsTripAndCharge(spec, metric, rate, mc, net, action);
  }
}
