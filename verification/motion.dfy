/** The motion process: the charger moves toward a destination at constant velocity in slices
    of at most one time unit, each further capped by the time its energy headroom allows.
    Motion never checks the energy floor, so it never changes the charger's status.

    The distance to the destination is measured once, on entry. The source re-measures the
    remaining distance from the live location on every iteration; on the straight segment the
    charger follows, that remaining distance is the entry distance minus the distance travelled,
    so the remaining time is the total time minus the time elapsed. */
module Motion {
  import opened MobileCharger

  /** How a call of `move` ends. `Moved`: the process returned. `Stalled`: the energy headroom
      ran out with distance left and status still active, so every later slice has length 0 and
      the loop repeats the same state forever. `elapsed` is the motion time spent and `slices`
      the number of slices of nonzero length or, for `Moved`, the number of slices run. */
  datatype MoveResult =
    | Moved(mc: Charger, elapsed: real, slices: nat)
    | Stalled(mc: Charger, elapsed: real, slices: nat)

  /** The energy a slice of `t` time units of motion costs. */
  function MoveCost(spec: PhySpec, t: real): real {
    spec.pm * t * spec.velocity
  }

  /** The point reached after `elapsed` of the `total` moving time from `start` to `dest`. */
  function Along(start: Point, dest: Point, total: real, elapsed: real): Point
    requires total != 0.0
  {
    Point(start.x + (dest.x - start.x) / total * elapsed, start.y + (dest.y - start.y) / total * elapsed)
  }

  /** The location shift of a slice of length `span`. */
  function Offset(start: Point, dest: Point, total: real, span: real): Point
    requires total != 0.0
  {
    Point((dest.x - start.x) / total * span, (dest.y - start.y) / total * span)
  }

  /** The length of one motion slice: the remaining time, one time unit, or the time the energy
      above the threshold lasts, whichever is least. It is the longest slice that neither
      overshoots the destination, nor exceeds one time unit, nor costs more than the headroom. */
  function MoveSpan(spec: PhySpec, mc: Charger, remaining: real): (span: real)
    requires CanMove(spec) && mc.energy >= spec.threshold && remaining > 0.0
    ensures 0.0 <= span <= 1.0 && span <= remaining
    ensures MoveCost(spec, span) <= mc.energy - spec.threshold
    ensures span == 1.0 || span == remaining || MoveCost(spec, span) == mc.energy - spec.threshold
    ensures span == 0.0 <==> mc.energy == spec.threshold
  {
    var h := mc.energy - spec.threshold;
    var span := Min(Min(remaining, 1.0), h / (spec.pm * spec.velocity));
    SpanCost(spec, h, span);
    span
  }

  /** One slice of motion: wait `t`, shift the location by `vector`, pay for the distance. */
  function MoveStep(spec: PhySpec, mc: Charger, vector: Point, t: real): (r: Charger)
    ensures r.energy == mc.energy - MoveCost(spec, t)
    ensures r.now == mc.now + t
    ensures r.location.x - mc.location.x == vector.x && r.location.y - mc.location.y == vector.y
    ensures r == mc.(location := r.location, energy := r.energy, now := r.now)
  {
    mc.(now := mc.now + t,
        location := Point(mc.location.x + vector.x, mc.location.y + vector.y),
        energy := mc.energy - MoveCost(spec, t))
  }

  /** The loop of `move`, from `elapsed` of `total` moving time on. With status active it ends
      either having arrived (elapsed reaches total) or stalled with the energy at the threshold;
      with status depleted it runs exactly one slice. Status never changes. */
  function MoveLoop(spec: PhySpec, mc: Charger, start: Point, dest: Point, total: real, elapsed: real): (r: MoveResult)
    requires CanMove(spec) && mc.energy >= spec.threshold
    requires 0.0 <= elapsed < total
    decreases (total - elapsed).Floor + (if mc.energy > spec.threshold then 1 else 0)
    ensures elapsed <= r.elapsed <= total
    ensures r.mc.now == mc.now + (r.elapsed - elapsed)
    ensures r.mc.energy >= spec.threshold
    ensures r.mc == mc.(location := r.mc.location, energy := r.mc.energy, now := r.mc.now)
    ensures r.Stalled? ==> mc.status == Active && r.mc.energy == spec.threshold && r.elapsed < total
    ensures r.Moved? && mc.status == Active ==> r.elapsed == total
    ensures mc.status == Depleted ==> r.Moved? && r.slices == 1 && r.elapsed == elapsed + MoveSpan(spec, mc, total - elapsed)
  {
    var remaining := total - elapsed;
    var span := MoveSpan(spec, mc, remaining);
    if span == 0.0 && mc.status == Active then
      Stalled(mc, elapsed, 0)
    else
      var next := MoveStep(spec, mc, Offset(start, dest, total, span), span);
      if remaining - span <= 0.0 || mc.status == Depleted then
        Moved(next, elapsed + span, 1)
      else
        FloorFacts(remaining, span);
        assert total - (elapsed + span) == remaining - span;
        assert mc.status == Active && span != 0.0;
        assert mc.energy != spec.threshold;
        var r := MoveLoop(spec, next, start, dest, total, elapsed + span);
        r.(slices := r.slices + 1)
  }

  /** Energy accounting of the loop: it debits exactly the cost of the time it spends. */
  lemma {:induction false} MoveLoopEnergy(spec: PhySpec, mc: Charger, start: Point, dest: Point, total: real, elapsed: real)
    requires CanMove(spec) && mc.energy >= spec.threshold
    requires 0.0 <= elapsed < total
    decreases MoveLoop(spec, mc, start, dest, total, elapsed).slices
    ensures var r := MoveLoop(spec, mc, start, dest, total, elapsed);
      r.mc.energy == mc.energy - MoveCost(spec, r.elapsed - elapsed)
  {
    var span := MoveSpan(spec, mc, total - elapsed);
    var r := MoveLoop(spec, mc, start, dest, total, elapsed);
    if span == 0.0 && mc.status == Active {
      CostSplit(spec, elapsed, elapsed, 0.0);
    } else {
      var next := MoveStep(spec, mc, Offset(start, dest, total, span), span);
      if (total - elapsed) - span <= 0.0 || mc.status == Depleted {
        CostSplit(spec, elapsed + span, elapsed, span);
      } else {
        var rest := MoveLoop(spec, next, start, dest, total, elapsed + span);
        MoveLoopEnergy(spec, next, start, dest, total, elapsed + span);
        CostSplit(spec, rest.elapsed, elapsed, span);
      }
    }
  }

  /** With status active the loop stalls exactly when the remaining trip costs more than the
      energy above the threshold; with status depleted it never stalls. */
  lemma {:induction false} MoveLoopStalls(spec: PhySpec, mc: Charger, start: Point, dest: Point, total: real, elapsed: real)
    requires CanMove(spec) && mc.energy >= spec.threshold
    requires 0.0 <= elapsed < total
    decreases MoveLoop(spec, mc, start, dest, total, elapsed).slices
    ensures MoveLoop(spec, mc, start, dest, total, elapsed).Stalled? <==>
      mc.status == Active && MoveCost(spec, total - elapsed) > mc.energy - spec.threshold
  {
    var span := MoveSpan(spec, mc, total - elapsed);
    if span == 0.0 && mc.status == Active {
      CostPositive(spec, total - elapsed);
    } else {
      var next := MoveStep(spec, mc, Offset(start, dest, total, span), span);
      if (total - elapsed) - span <= 0.0 || mc.status == Depleted {
        assert mc.status == Active ==> span == total - elapsed;
      } else {
        MoveLoopStalls(spec, next, start, dest, total, elapsed + span);
        CostSplit(spec, total, elapsed, span);
      }
    }
  }

  /** The slices keep the charger on the segment from `start` to `dest`: the location after the
      loop is the point reached after the time the loop spent. */
  lemma {:induction false} MoveLoopFollowsSegment(spec: PhySpec, mc: Charger, start: Point, dest: Point, total: real, elapsed: real)
    requires CanMove(spec) && mc.energy >= spec.threshold
    requires 0.0 <= elapsed < total
    requires mc.location == Along(start, dest, total, elapsed)
    decreases MoveLoop(spec, mc, start, dest, total, elapsed).slices
    ensures var r := MoveLoop(spec, mc, start, dest, total, elapsed);
      r.mc.location == Along(start, dest, total, r.elapsed)
  {
    var span := MoveSpan(spec, mc, total - elapsed);
    if span == 0.0 && mc.status == Active {
    } else {
      var next := MoveStep(spec, mc, Offset(start, dest, total, span), span);
      AlongStep(start, dest, total, elapsed, span);
      if (total - elapsed) - span <= 0.0 || mc.status == Depleted {
      } else {
        MoveLoopFollowsSegment(spec, next, start, dest, total, elapsed + span);
      }
    }
  }

  /** Whether a trip of length `dist` stalls: the charger is active and the trip costs more
      than the energy above the floor. */
  predicate Stalls(spec: PhySpec, mc: Charger, dist: real)
    requires CanMove(spec)
  {
    mc.status == Active && MoveCost(spec, dist / spec.velocity) > mc.energy - spec.threshold
  }

  /** A trip stalls exactly when the charger is active and its distance times the cost per
      unit of distance exceeds the energy above the floor. */
  lemma StallsWhenOverdrawn(spec: PhySpec, mc: Charger, dist: real)
    requires CanMove(spec) && dist >= 0.0
    ensures Stalls(spec, mc, dist) <==> mc.status == Active && spec.pm * dist > mc.energy - spec.threshold
  {
    TripCost(spec, dist);
  }

  /** `move`: returns at once for a zero distance; otherwise runs the slice loop. `dist` is the
      distance from the charger's location to `dest`. The charger ends on the segment to `dest`,
      at the point reached after the time spent; a depleted charger stops after one slice. */
  function Move(spec: PhySpec, mc: Charger, dest: Point, dist: real): (r: MoveResult)
    requires CanMove(spec) && mc.energy >= spec.threshold && dist >= 0.0
    ensures dist == 0.0 ==> r == Moved(mc, 0.0, 0)
    ensures r.Stalled? <==> Stalls(spec, mc, dist)
    ensures r.Moved? && mc.status == Active && dist > 0.0 ==> r.mc.location == dest
    ensures r.Moved? && mc.status == Active ==> r.elapsed == dist / spec.velocity
    ensures r.Moved? && mc.status == Active ==> r.mc.energy == mc.energy - spec.pm * dist
    ensures 0.0 <= r.elapsed <= dist / spec.velocity
    ensures r.mc.energy == mc.energy - MoveCost(spec, r.elapsed)
    ensures r.mc.energy >= spec.threshold
    ensures r.mc.now == mc.now + r.elapsed
    ensures r.mc == mc.(location := r.mc.location, energy := r.mc.energy, now := r.mc.now)
    ensures mc.status == Depleted && mc.energy == spec.threshold ==> r.Moved? && r.mc == mc
    ensures mc.status == Depleted ==> r.Moved? && r.elapsed <= 1.0
    ensures dist > 0.0 ==> r.mc.location == Along(mc.location, dest, dist / spec.velocity, r.elapsed)
  {
    var total := dist / spec.velocity;
    TripCost(spec, dist);
    if total == 0.0 then
      Moved(mc, 0.0, 0)
    else
      var r := MoveLoop(spec, mc, mc.location, dest, total, 0.0);
      AlongStart(mc.location, dest, total);
      AlongEnd(mc.location, dest, total);
      MoveLoopEnergy(spec, mc, mc.location, dest, total, 0.0);
      MoveLoopStalls(spec, mc, mc.location, dest, total, 0.0);
      MoveLoopFollowsSegment(spec, mc, mc.location, dest, total, 0.0);
      r
  }

  /** A trip the headroom covers ends at the destination, having cost exactly the distance times
      the cost per unit of distance and taken exactly the distance over the velocity. */
  lemma MoveArrives(spec: PhySpec, mc: Charger, dest: Point, dist: real)
    requires CanMove(spec) && mc.energy >= spec.threshold && dist > 0.0
    requires mc.status == Active && spec.pm * dist <= mc.energy - spec.threshold
    ensures var r := Move(spec, mc, dest, dist);
      && r.Moved? && r.mc.location == dest && r.mc.status == Active
      && r.mc.energy == mc.energy - spec.pm * dist
      && r.mc.now == mc.now + dist / spec.velocity
  {
    StallsWhenOverdrawn(spec, mc, dist);
  }

  // Real-arithmetic facts the proofs above use, each kept to its own small proof.

  lemma SpanCost(spec: PhySpec, h: real, span: real)
    requires CanMove(spec) && h >= 0.0
    requires span == Min(Min(span, 1.0), h / (spec.pm * spec.velocity))
    requires span >= 0.0
    ensures MoveCost(spec, span) <= h
    ensures span == h / (spec.pm * spec.velocity) ==> MoveCost(spec, span) == h
    ensures h / (spec.pm * spec.velocity) >= 0.0
    ensures h / (spec.pm * spec.velocity) == 0.0 <==> h == 0.0
  {
    var c := spec.pm * spec.velocity;
    assert c > 0.0;
    assert c * (h / c) == h;
    assert span <= h / c;
    assert c * span <= c * (h / c);
    assert MoveCost(spec, span) == c * span;
  }

  lemma CostSplit(spec: PhySpec, e1: real, e0: real, s: real)
    ensures MoveCost(spec, e1 - e0) == MoveCost(spec, e1 - (e0 + s)) + MoveCost(spec, s)
  {
    var c := spec.pm * spec.velocity;
    assert e1 - e0 == (e1 - (e0 + s)) + s;
    assert c * (e1 - e0) == c * (e1 - (e0 + s)) + c * s;
    assert MoveCost(spec, e1 - e0) == c * (e1 - e0);
    assert MoveCost(spec, e1 - (e0 + s)) == c * (e1 - (e0 + s));
    assert MoveCost(spec, s) == c * s;
  }

  lemma CostPositive(spec: PhySpec, t: real)
    requires CanMove(spec) && t > 0.0
    ensures MoveCost(spec, t) > 0.0
  {
    assert spec.pm * t > 0.0;
  }

  lemma TripCost(spec: PhySpec, dist: real)
    requires CanMove(spec) && dist >= 0.0
    ensures dist / spec.velocity >= 0.0
    ensures dist / spec.velocity == 0.0 <==> dist == 0.0
    ensures MoveCost(spec, dist / spec.velocity) == spec.pm * dist
    ensures MoveCost(spec, 0.0) == 0.0
  {
    assert dist / spec.velocity * spec.velocity == dist;
    assert spec.pm * (dist / spec.velocity) * spec.velocity == spec.pm * (dist / spec.velocity * spec.velocity);
  }

  lemma AlongStep(start: Point, dest: Point, total: real, elapsed: real, span: real)
    requires total != 0.0
    ensures var p := Along(start, dest, total, elapsed);
      Along(start, dest, total, elapsed + span)
        == Point(p.x + Offset(start, dest, total, span).x, p.y + Offset(start, dest, total, span).y)
  {
    var a := (dest.x - start.x) / total;
    var b := (dest.y - start.y) / total;
    assert a * (elapsed + span) == a * elapsed + a * span;
    assert b * (elapsed + span) == b * elapsed + b * span;
  }

  lemma AlongStart(start: Point, dest: Point, total: real)
    requires total != 0.0
    ensures Along(start, dest, total, 0.0) == start
  {
  }

  lemma AlongEnd(start: Point, dest: Point, total: real)
    requires total != 0.0
    ensures Along(start, dest, total, total) == dest
  {
    assert (dest.x - start.x) / total * total == dest.x - start.x;
    assert (dest.y - start.y) / total * total == dest.y - start.y;
  }
}
