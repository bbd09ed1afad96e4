/** The base-station refill: a charger close enough to the base is put exactly on it and filled
    to capacity. The refill takes no time and never touches the status, so a depleted charger
    stays depleted even with a full battery. */
module BaseRecharge {
  import opened MobileCharger

  /** Whether the charger is close enough to the base to refill. */
  predicate AtBase(spec: PhySpec, mc: Charger, net: Net, metric: Metric) {
    metric(mc.location, net.base) <= spec.epsilon
  }

  /** `recharge`. */
  function Recharge(spec: PhySpec, mc: Charger, net: Net, metric: Metric): (r: Charger)
    ensures AtBase(spec, mc, net, metric) ==> r.location == net.base && r.energy == spec.capacity
    ensures !AtBase(spec, mc, net, metric) ==> r == mc
    ensures r.status == mc.status && r.now == mc.now
    ensures r == mc.(location := r.location, energy := r.energy)
    ensures Inv(spec, mc) && spec.capacity >= spec.threshold ==> Inv(spec, r)
  {
    if AtBase(spec, mc, net, metric) then mc.(location := net.base, energy := spec.capacity) else mc
  }

  /** A second refill changes nothing, whether or not the first one took place. */
  lemma RechargeIdempotent(spec: PhySpec, mc: Charger, net: Net, metric: Metric)
    ensures Recharge(spec, Recharge(spec, mc, net, metric), net, metric) == Recharge(spec, mc, net, metric)
  {
  }
}
