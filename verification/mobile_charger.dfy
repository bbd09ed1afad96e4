/** State of one mobile charger (MC) of a wireless rechargeable sensor network: where it is,
    how much energy it holds, whether it is still active, what it is doing, and the virtual
    clock of the simulation it runs in. Also the energy floor `CheckStatus` and the initial
    state the constructor builds. */
module MobileCharger {

  datatype Option<T> = None | Some(value: T)

  datatype Point = Point(x: real, y: real)

  /** The distance between two points as the simulation measures it (Euclidean in the
      system). It is a parameter because real arithmetic here has no square root. */
  type Metric = (Point, Point) -> real

  /** A sensor node as the charger sees it: an opaque id, a location and whether it is alive. */
  datatype Node = Node(id: nat, location: Point, alive: bool)

  /** The network the charger works in: its nodes, in list order, and the base station. */
  datatype Net = Net(nodes: seq<Node>, base: Point)

  /** The physical constants of a charger, fixed at construction. */
  datatype PhySpec = PhySpec(
    capacity: real,
    alpha: real,
    beta: real,
    threshold: real,
    velocity: real,
    pm: real,
    chargingRange: real,
    epsilon: real)

  /** The source encodes these as the integers 0 and 1. */
  datatype Status = Depleted | Active

  datatype ActionType = Moving | Charging

  /** An action of the policy: a destination and a charging time. */
  datatype PhyAction = PhyAction(x: real, y: real, time: real)

  datatype Charger = Charger(
    location: Point,
    energy: real,
    status: Status,
    chargingRate: real,
    curAction: Option<PhyAction>,
    actionType: ActionType,
    now: real)

  function Min(a: real, b: real): real { if a <= b then a else b }

  function Max(a: real, b: real): real { if a >= b then a else b }

  /** What motion divides by: a positive velocity and a positive cost per unit of distance. */
  predicate CanMove(spec: PhySpec) {
    spec.velocity > 0.0 && spec.pm > 0.0
  }

  /** What every operation keeps between two operations: energy at or above the floor and
      no charging rate left over from a charging slice. */
  predicate Inv(spec: PhySpec, mc: Charger) {
    spec.threshold <= mc.energy && mc.chargingRate == 0.0
  }

  /** The energy floor: at or below the threshold, energy is clamped to the threshold and the
      charger becomes depleted; above it nothing changes. */
  function CheckStatus(spec: PhySpec, mc: Charger): (r: Charger)
    ensures r.energy == Max(mc.energy, spec.threshold)
    ensures r.energy >= spec.threshold
    ensures r.status == Depleted <==> mc.status == Depleted || mc.energy <= spec.threshold
    ensures r == mc.(energy := r.energy, status := r.status)
  {
    if mc.energy <= spec.threshold then mc.(status := Depleted, energy := spec.threshold)
    else mc
  }

  /** A second check changes nothing. */
  lemma CheckStatusIdempotent(spec: PhySpec, mc: Charger)
    ensures CheckStatus(spec, CheckStatus(spec, mc)) == CheckStatus(spec, mc)
  {
  }

  /** A depleted charger stays depleted through a check; an active one stays active
      exactly when its energy is above the threshold. */
  lemma CheckStatusNeverActivates(spec: PhySpec, mc: Charger)
    ensures CheckStatus(spec, mc).status == Active <==> mc.status == Active && mc.energy > spec.threshold
  {
  }

  /** The constructor: full energy, active, no action, then one energy check. */
  function Init(spec: PhySpec, location: Point, now: real): (r: Charger)
    ensures r.location == location && r.now == now
    ensures r.energy == Max(spec.capacity, spec.threshold)
    ensures r.status == Active <==> spec.capacity > spec.threshold
    ensures r.curAction == None && r.actionType == Moving
    ensures Inv(spec, r)
  {
    CheckStatus(spec, Charger(location, spec.capacity, Active, 0.0, None, Moving, now))
  }

  /** Taking a non-negative amount off a remaining time never raises its floor, and taking a
      whole unit lowers it by one: the termination measure of the slice loops. */
  lemma FloorFacts(a: real, b: real)
    requires 0.0 <= b
    ensures (a - b).Floor <= a.Floor
    ensures b == 1.0 ==> (a - b).Floor == a.Floor - 1
  {
  }
}
