/** The charging process: the charger captures the nodes in range once, then charges them in
    slices of at most one time unit, re-checking the energy floor after every slice.

    How much power the connected nodes draw is decided by the nodes themselves when they are
    connected; the model takes the charging rate in force during slice `k` of a call as the
    input `rate(k)`. */
module Charging {
  import opened MobileCharger

  /** A call the charger makes on a node: `charger_connection` or `charger_disconnection`. */
  datatype Event = Connect(node: Node) | Disconnect(node: Node)

  /** The outcome of one `charge_step`: the new state and the calls made on the nodes. */
  datatype Slice = Slice(mc: Charger, events: seq<Event>)

  /** The outcome of one `charge`: the final state, the length of every slice run, in order,
      and the calls made on the nodes over the whole run. */
  datatype ChargeRun = ChargeRun(mc: Charger, spans: seq<real>, events: seq<Event>)

  /** The energy a slice of `t` time units at charging rate `rate` costs. */
  function Drawn(rate: real, t: real): real {
    rate * t
  }

  /** A slice drawing no negative power costs no negative energy. */
  lemma DrawnNonnegative(rate: real, t: real)
    requires rate >= 0.0 && t >= 0.0
    ensures Drawn(rate, t) >= 0.0
  {
  }

  /** The energy the slices `spans` cost when the first of them is slice `k` of the run. */
  function Debit(rate: nat -> real, k: nat, spans: seq<real>): real
    decreases |spans|
  {
    if |spans| == 0 then 0.0 else Drawn(rate(k), spans[0]) + Debit(rate, k + 1, spans[1..])
  }

  /** The total length of a sequence of slices. */
  function Sum(spans: seq<real>): real
    decreases |spans|
  {
    if |spans| == 0 then 0.0 else spans[0] + Sum(spans[1..])
  }

  /** The nodes `charge` captures: every node within charging range of `loc`, alive or not,
      in network order. */
  function InRange(spec: PhySpec, metric: Metric, nodes: seq<Node>, loc: Point): (r: seq<Node>)
    decreases |nodes|
    ensures forall n :: n in r <==> n in nodes && metric(n.location, loc) <= spec.chargingRange
    ensures |r| <= |nodes|
  {
    if |nodes| == 0 then []
    else
      var rest := InRange(spec, metric, nodes[1..], loc);
      assert forall n :: n in nodes <==> n == nodes[0] || n in nodes[1..];
      if metric(nodes[0].location, loc) <= spec.chargingRange then [nodes[0]] + rest else rest
  }

  /** Capturing distributes over concatenation: the captured nodes keep their network order
      and their multiplicity. */
  lemma {:induction false} InRangeAppend(spec: PhySpec, metric: Metric, a: seq<Node>, b: seq<Node>, loc: Point)
    decreases |a|
    ensures InRange(spec, metric, a + b, loc) == InRange(spec, metric, a, loc) + InRange(spec, metric, b, loc)
  {
    if |a| == 0 {
      assert a + b == b;
    } else {
      assert (a + b)[0] == a[0];
      assert (a + b)[1..] == a[1..] + b;
      InRangeAppend(spec, metric, a[1..], b, loc);
    }
  }

  /** The calls of one slice: connect every captured node, then disconnect every one. */
  function Session(nodes: seq<Node>): seq<Event>
    decreases |nodes|
  {
    Connects(nodes) + Disconnects(nodes)
  }

  function Connects(nodes: seq<Node>): seq<Event>
    decreases |nodes|
  {
    if |nodes| == 0 then [] else [Connect(nodes[0])] + Connects(nodes[1..])
  }

  function Disconnects(nodes: seq<Node>): seq<Event>
    decreases |nodes|
  {
    if |nodes| == 0 then [] else [Disconnect(nodes[0])] + Disconnects(nodes[1..])
  }

  /** The calls of `n` slices in a row. */
  function Sessions(nodes: seq<Node>, n: nat): seq<Event>
    decreases n
  {
    if n == 0 then [] else Session(nodes) + Sessions(nodes, n - 1)
  }

  /** The nodes connected by `events`, in the order they are connected. */
  function Connected(events: seq<Event>): seq<Node>
    decreases |events|
  {
    if |events| == 0 then []
    else (if events[0].Connect? then [events[0].node] else []) + Connected(events[1..])
  }

  /** The nodes disconnected by `events`, in the order they are disconnected. */
  function Disconnected(events: seq<Event>): seq<Node>
    decreases |events|
  {
    if |events| == 0 then []
    else (if events[0].Disconnect? then [events[0].node] else []) + Disconnected(events[1..])
  }

  /** `charge_step`: one slice of `t` time units at charging rate `rate`. The slice costs exactly
      its drawn energy, the remaining charging time of the current action goes down by `t` but
      not below zero, and the charging rate is left at zero. Nothing clamps the energy here: it
      may end below the threshold. */
  function ChargeStep(mc: Charger, nodes: seq<Node>, rate: real, t: real): (r: Slice)
    requires mc.curAction.Some?
    ensures r.mc.energy == mc.energy - Drawn(rate, t)
    ensures r.mc.now == mc.now + t
    ensures r.mc.curAction.Some? && r.mc.curAction.value.time >= 0.0
    ensures r.mc.curAction.value.time == Max(0.0, mc.curAction.value.time - t)
    ensures r.mc.curAction.value == mc.curAction.value.(time := r.mc.curAction.value.time)
    ensures r.mc == mc.(energy := r.mc.energy, now := r.mc.now, curAction := r.mc.curAction, chargingRate := 0.0)
  {
    var a := mc.curAction.value;
    Slice(mc.(now := mc.now + t,
              energy := mc.energy - Drawn(rate, t),
              curAction := Some(a.(time := Max(0.0, a.time - t))),
              chargingRate := 0.0),
          Session(nodes))
  }

  /** Within one slice every node is connected before any is disconnected, and the nodes
      disconnected are exactly the nodes connected, in the same order. */
  lemma ChargeStepBalanced(mc: Charger, nodes: seq<Node>, rate: real, t: real)
    requires mc.curAction.Some?
    ensures var events := ChargeStep(mc, nodes, rate, t).events;
      && Connected(events) == nodes && Disconnected(events) == nodes
      && forall i, j :: 0 <= i < j < |events| ==> !(events[i].Disconnect? && events[j].Connect?)
  {
    SessionShape(nodes);
  }

  /** The length of the next charging slice: the remaining time or one time unit, whichever is
      less, further capped by the time the energy above the threshold lasts at the charging
      rate in force before the slice. That rate is zero after every slice, so the cap can only
      act on the first slice of a call. */
  function ChargeSpan(spec: PhySpec, mc: Charger, tmp: real): (span: real)
    requires tmp >= 0.0 && mc.chargingRate >= 0.0 && mc.energy >= spec.threshold
    ensures 0.0 <= span <= Min(tmp, 1.0)
    ensures mc.chargingRate == 0.0 ==> span == Min(tmp, 1.0)
  {
    var span := Min(tmp, 1.0);
    if mc.chargingRate != 0.0 then
      var cap := (mc.energy - spec.threshold) / mc.chargingRate;
      CapNonnegative(mc.energy - spec.threshold, mc.chargingRate);
      Min(span, cap)
    else
      span
  }

  /** With a charging rate in force, the capped slice draws no more than the energy above the
      floor, and all of it when the cap is what limits the slice. */
  lemma ChargeSpanWithinHeadroom(spec: PhySpec, mc: Charger, tmp: real)
    requires tmp >= 0.0 && mc.chargingRate > 0.0 && mc.energy >= spec.threshold
    ensures var span := ChargeSpan(spec, mc, tmp);
      && Drawn(mc.chargingRate, span) <= mc.energy - spec.threshold
      && (span == Min(tmp, 1.0) || Drawn(mc.chargingRate, span) == mc.energy - spec.threshold)
  {
    var h := mc.energy - spec.threshold;
    var cap := h / mc.chargingRate;
    var span := ChargeSpan(spec, mc, tmp);
    assert mc.chargingRate * cap == h;
    assert span <= cap;
    assert mc.chargingRate * span <= mc.chargingRate * cap;
  }

  lemma CapNonnegative(h: real, rate: real)
    requires h >= 0.0 && rate > 0.0
    ensures h / rate >= 0.0
  {
  }

  /** The loop of `charge`, with `tmp` charging time left and slice `k` next. It runs at least
      one slice; every slice lasts between 0 and 1 time unit and, apart from the first and the
      last, exactly 1; the slices never outlast the charging time and, unless the floor was
      reached, add up to it exactly; a charger entering depleted runs a single slice. The
      energy ends at the floor or above, and at the floor exactly when the charger ends
      depleted. The energy accounting, the clock
      and the current action's time move by the time charged (see the lemmas below). */
  function ChargeLoop(spec: PhySpec, mc: Charger, nodes: seq<Node>, rate: nat -> real, k: nat, tmp: real): (r: ChargeRun)
    requires mc.curAction.Some?
    requires tmp >= 0.0 && mc.chargingRate >= 0.0 && mc.energy >= spec.threshold
    decreases tmp.Floor + (if mc.chargingRate != 0.0 then 1 else 0)
    ensures |r.spans| >= 1
    ensures 0.0 <= Sum(r.spans) <= tmp
    ensures r.mc.status == Active ==> Sum(r.spans) == tmp
    ensures mc.status == Depleted ==> |r.spans| == 1
    ensures r.mc.energy >= spec.threshold
    ensures r.mc.curAction.Some? && r.mc.chargingRate == 0.0
    ensures r.mc.status == Depleted <==> mc.status == Depleted || r.mc.energy == spec.threshold
    ensures r.mc == mc.(energy := r.mc.energy, status := r.mc.status, now := r.mc.now,
                        curAction := r.mc.curAction, chargingRate := 0.0)
  {
    var span := ChargeSpan(spec, mc, tmp);
    var step := ChargeStep(mc, nodes, rate(k), span);
    var after := CheckStatus(spec, step.mc);
    var left := tmp - span;
    assert Sum([span]) == span;
    if left == 0.0 || after.status == Depleted then
      ChargeRun(after, [span], step.events)
    else
      FloorFacts(tmp, span);
      var rest := ChargeLoop(spec, after, nodes, rate, k + 1, left);
      var spans := [span] + rest.spans;
      assert spans[1..] == rest.spans;
      ChargeRun(rest.mc, spans, step.events + rest.events)
  }

  /** The shape of a run's slices: each lasts between 0 and 1 time unit, and each but the last
      lasts exactly 1, except possibly the first when `capped`. */
  predicate SliceShape(spans: seq<real>, capped: bool) {
    && (forall i :: 0 <= i < |spans| ==> 0.0 <= spans[i] <= 1.0)
    && (forall i :: (if capped then 1 else 0) <= i < |spans| - 1 ==> spans[i] == 1.0)
  }

  /** Every slice lasts between 0 and 1 time unit and every slice but the first and the last
      exactly 1; with no charging rate in force on entry, the first too. */
  lemma {:induction false} ChargeLoopSpans(spec: PhySpec, mc: Charger, nodes: seq<Node>, rate: nat -> real, k: nat, tmp: real)
    requires mc.curAction.Some?
    requires tmp >= 0.0 && mc.chargingRate >= 0.0 && mc.energy >= spec.threshold
    decreases |ChargeLoop(spec, mc, nodes, rate, k, tmp).spans|
    ensures SliceShape(ChargeLoop(spec, mc, nodes, rate, k, tmp).spans, mc.chargingRate != 0.0)
  {
    var span := ChargeSpan(spec, mc, tmp);
    var step := ChargeStep(mc, nodes, rate(k), span);
    var after := CheckStatus(spec, step.mc);
    var left := tmp - span;
    var spans := ChargeLoop(spec, mc, nodes, rate, k, tmp).spans;
    if left == 0.0 || after.status == Depleted {
      assert spans == [span];
    } else {
      var rest := ChargeLoop(spec, after, nodes, rate, k + 1, left).spans;
      assert spans == [span] + rest;
      ChargeLoopSpans(spec, after, nodes, rate, k + 1, left);
      assert SliceShape(rest, false);
      assert span == 1.0 || mc.chargingRate != 0.0;
      forall i | 1 <= i < |spans|
        ensures spans[i] == rest[i - 1]
      {
      }
    }
  }

  /** Energy accounting of the charging loop: the entry energy less the draw of every slice, at
      the rate in force during that slice, clamped once at the floor. Only the last slice can
      reach the floor, since the loop stops there. */
  lemma {:induction false} ChargeLoopEnergy(spec: PhySpec, mc: Charger, nodes: seq<Node>, rate: nat -> real, k: nat, tmp: real)
    requires mc.curAction.Some?
    requires tmp >= 0.0 && mc.chargingRate >= 0.0 && mc.energy >= spec.threshold
    decreases |ChargeLoop(spec, mc, nodes, rate, k, tmp).spans|
    ensures var r := ChargeLoop(spec, mc, nodes, rate, k, tmp);
      r.mc.energy == Max(spec.threshold, mc.energy - Debit(rate, k, r.spans))
  {
    var span := ChargeSpan(spec, mc, tmp);
    var step := ChargeStep(mc, nodes, rate(k), span);
    var after := CheckStatus(spec, step.mc);
    var left := tmp - span;
    var r := ChargeLoop(spec, mc, nodes, rate, k, tmp);
    if left == 0.0 || after.status == Depleted {
      assert r.spans == [span];
      assert Debit(rate, k, [span]) == Drawn(rate(k), span) + Debit(rate, k + 1, []);
    } else {
      var rest := ChargeLoop(spec, after, nodes, rate, k + 1, left);
      assert r.spans == [span] + rest.spans && r.mc == rest.mc;
      ChargeLoopEnergy(spec, after, nodes, rate, k + 1, left);
      assert ([span] + rest.spans)[1..] == rest.spans;
      assert Debit(rate, k, r.spans) == Drawn(rate(k), span) + Debit(rate, k + 1, rest.spans);
      assert after.energy == mc.energy - Drawn(rate(k), span);
    }
  }

  /** The clock advances by exactly the total length of the slices run. */
  lemma {:induction false} ChargeLoopClock(spec: PhySpec, mc: Charger, nodes: seq<Node>, rate: nat -> real, k: nat, tmp: real)
    requires mc.curAction.Some?
    requires tmp >= 0.0 && mc.chargingRate >= 0.0 && mc.energy >= spec.threshold
    decreases |ChargeLoop(spec, mc, nodes, rate, k, tmp).spans|
    ensures var r := ChargeLoop(spec, mc, nodes, rate, k, tmp);
      r.mc.now == mc.now + Sum(r.spans)
  {
    var span := ChargeSpan(spec, mc, tmp);
    var step := ChargeStep(mc, nodes, rate(k), span);
    var after := CheckStatus(spec, step.mc);
    var left := tmp - span;
    var r := ChargeLoop(spec, mc, nodes, rate, k, tmp);
    if left == 0.0 || after.status == Depleted {
      assert r.spans == [span] && Sum([span]) == span;
    } else {
      var rest := ChargeLoop(spec, after, nodes, rate, k + 1, left);
      assert r.spans == [span] + rest.spans && r.mc == rest.mc;
      ChargeLoopClock(spec, after, nodes, rate, k + 1, left);
      assert ([span] + rest.spans)[1..] == rest.spans;
    }
  }

  /** The current action's remaining time goes down by the total length of the slices run, but
      not below zero; the rest of the action is untouched. */
  lemma {:induction false} ChargeLoopActionTime(spec: PhySpec, mc: Charger, nodes: seq<Node>, rate: nat -> real, k: nat, tmp: real)
    requires mc.curAction.Some?
    requires tmp >= 0.0 && mc.chargingRate >= 0.0 && mc.energy >= spec.threshold
    decreases |ChargeLoop(spec, mc, nodes, rate, k, tmp).spans|
    ensures var r := ChargeLoop(spec, mc, nodes, rate, k, tmp);
      r.mc.curAction == Some(mc.curAction.value.(time := Max(0.0, mc.curAction.value.time - Sum(r.spans))))
  {
    var span := ChargeSpan(spec, mc, tmp);
    var step := ChargeStep(mc, nodes, rate(k), span);
    var after := CheckStatus(spec, step.mc);
    var left := tmp - span;
    var r := ChargeLoop(spec, mc, nodes, rate, k, tmp);
    if left == 0.0 || after.status == Depleted {
      assert r.spans == [span] && Sum([span]) == span;
    } else {
      var rest := ChargeLoop(spec, after, nodes, rate, k + 1, left);
      assert r.spans == [span] + rest.spans && r.mc == rest.mc;
      ChargeLoopActionTime(spec, after, nodes, rate, k + 1, left);
      assert ([span] + rest.spans)[1..] == rest.spans;
      assert Sum(r.spans) == span + Sum(rest.spans);
    }
  }

  /** Each slice of the loop makes the calls of one session on the captured nodes. */
  lemma {:induction false} ChargeLoopEvents(spec: PhySpec, mc: Charger, nodes: seq<Node>, rate: nat -> real, k: nat, tmp: real)
    requires mc.curAction.Some?
    requires tmp >= 0.0 && mc.chargingRate >= 0.0 && mc.energy >= spec.threshold
    decreases |ChargeLoop(spec, mc, nodes, rate, k, tmp).spans|
    ensures var r := ChargeLoop(spec, mc, nodes, rate, k, tmp);
      r.events == Sessions(nodes, |r.spans|)
  {
    var span := ChargeSpan(spec, mc, tmp);
    var step := ChargeStep(mc, nodes, rate(k), span);
    var after := CheckStatus(spec, step.mc);
    var left := tmp - span;
    var r := ChargeLoop(spec, mc, nodes, rate, k, tmp);
    if left == 0.0 || after.status == Depleted {
      assert Sessions(nodes, 1) == Session(nodes) + [];
    } else {
      var rest := ChargeLoop(spec, after, nodes, rate, k + 1, left);
      assert r.spans == [span] + rest.spans && r.events == step.events + rest.events;
      ChargeLoopEvents(spec, after, nodes, rate, k + 1, left);
    }
  }

  /** `charge`: captures the nodes in range of the charger's location, then runs the slice
      loop for `chargingTime`. Every node the run connects was in range when it started, and
      every node it connects it also disconnects. */
  function Charge(spec: PhySpec, mc: Charger, net: Net, metric: Metric, rate: nat -> real, chargingTime: real): (r: ChargeRun)
    requires mc.curAction.Some?
    requires chargingTime >= 0.0 && mc.chargingRate >= 0.0 && mc.energy >= spec.threshold
    ensures |r.spans| >= 1
    ensures SliceShape(r.spans, mc.chargingRate != 0.0)
    ensures mc.status == Depleted ==> |r.spans| == 1
    ensures 0.0 <= Sum(r.spans) <= chargingTime
    ensures r.mc.status == Active ==> Sum(r.spans) == chargingTime
    ensures r.mc.status == Depleted <==> mc.status == Depleted || r.mc.energy == spec.threshold
    ensures r.events == Sessions(InRange(spec, metric, net.nodes, mc.location), |r.spans|)
    ensures r.mc.now == mc.now + Sum(r.spans)
    ensures r.mc.curAction == Some(mc.curAction.value.(time := Max(0.0, mc.curAction.value.time - Sum(r.spans))))
    ensures r.mc.energy >= spec.threshold && r.mc.chargingRate == 0.0
    ensures r.mc.location == mc.location && r.mc.actionType == mc.actionType
    ensures mc.status == Depleted ==> r.mc.status == Depleted
    ensures r.mc.energy == Max(spec.threshold, mc.energy - Debit(rate, 0, r.spans))
  {
    var nodes := InRange(spec, metric, net.nodes, mc.location);
    var r := ChargeLoop(spec, mc, nodes, rate, 0, chargingTime);
    ChargeLoopSpans(spec, mc, nodes, rate, 0, chargingTime);
    ChargeLoopEnergy(spec, mc, nodes, rate, 0, chargingTime);
    ChargeLoopClock(spec, mc, nodes, rate, 0, chargingTime);
    ChargeLoopActionTime(spec, mc, nodes, rate, 0, chargingTime);
    ChargeLoopEvents(spec, mc, nodes, rate, 0, chargingTime);
    r
  }

  /** Every node a call of `charge` connects or disconnects was within range of the charger when
      the call started, and the nodes it disconnects are the nodes it connects, in order. */
  lemma ChargeCallsCapturedNodes(spec: PhySpec, mc: Charger, net: Net, metric: Metric, rate: nat -> real, chargingTime: real)
    requires mc.curAction.Some?
    requires chargingTime >= 0.0 && mc.chargingRate >= 0.0 && mc.energy >= spec.threshold
    ensures var r := Charge(spec, mc, net, metric, rate, chargingTime);
      && (forall e :: e in r.events ==> e.node in net.nodes && metric(e.node.location, mc.location) <= spec.chargingRange)
      && Connected(r.events) == Disconnected(r.events)
  {
    var nodes := InRange(spec, metric, net.nodes, mc.location);
    var r := ChargeLoop(spec, mc, nodes, rate, 0, chargingTime);
    ChargeLoopEvents(spec, mc, nodes, rate, 0, chargingTime);
    SessionsBalanced(nodes, |r.spans|);
    forall e | e in r.events
      ensures e.node in net.nodes && metric(e.node.location, mc.location) <= spec.chargingRange
    {
      assert e.node in nodes;
    }
  }

  /** Over any number of slices, every call is on a captured node and the nodes disconnected are
      the nodes connected, in the same order. */
  lemma {:induction false} SessionsBalanced(nodes: seq<Node>, n: nat)
    decreases n
    ensures Connected(Sessions(nodes, n)) == Disconnected(Sessions(nodes, n))
    ensures forall e :: e in Sessions(nodes, n) ==> e.node in nodes
  {
    if n > 0 {
      SessionShape(nodes);
      SessionsBalanced(nodes, n - 1);
      ConnectedAppend(Session(nodes), Sessions(nodes, n - 1));
    }
  }

  /** One session connects and disconnects exactly the captured nodes, every connection before
      every disconnection. */
  lemma {:induction false} SessionShape(nodes: seq<Node>)
    ensures Connected(Session(nodes)) == nodes && Disconnected(Session(nodes)) == nodes
    ensures forall i, j :: 0 <= i < j < |Session(nodes)| ==> !(Session(nodes)[i].Disconnect? && Session(nodes)[j].Connect?)
    ensures forall e :: e in Session(nodes) ==> e.node in nodes
  {
    ConnectsShape(nodes);
    DisconnectsShape(nodes);
    ConnectedAppend(Connects(nodes), Disconnects(nodes));
  }

  lemma {:induction false} ConnectsShape(nodes: seq<Node>)
    decreases |nodes|
    ensures |Connects(nodes)| == |nodes|
    ensures forall i :: 0 <= i < |nodes| ==> Connects(nodes)[i] == Connect(nodes[i])
    ensures Connected(Connects(nodes)) == nodes && Disconnected(Connects(nodes)) == []
  {
    if |nodes| > 0 {
      ConnectsShape(nodes[1..]);
      ConnectedAppend([Connect(nodes[0])], Connects(nodes[1..]));
      assert nodes == [nodes[0]] + nodes[1..];
    }
  }

  lemma {:induction false} DisconnectsShape(nodes: seq<Node>)
    decreases |nodes|
    ensures |Disconnects(nodes)| == |nodes|
    ensures forall i :: 0 <= i < |nodes| ==> Disconnects(nodes)[i] == Disconnect(nodes[i])
    ensures Disconnected(Disconnects(nodes)) == nodes && Connected(Disconnects(nodes)) == []
  {
    if |nodes| > 0 {
      DisconnectsShape(nodes[1..]);
      ConnectedAppend([Disconnect(nodes[0])], Disconnects(nodes[1..]));
      assert nodes == [nodes[0]] + nodes[1..];
    }
  }

  /** Projecting the connections and disconnections out of a trace commutes with appending. */
  lemma {:induction false} ConnectedAppend(a: seq<Event>, b: seq<Event>)
    decreases |a|
    ensures Connected(a + b) == Connected(a) + Connected(b)
    ensures Disconnected(a + b) == Disconnected(a) + Disconnected(b)
  {
    if |a| > 0 {
      assert (a + b)[1..] == a[1..] + b;
      ConnectedAppend(a[1..], b);
    } else {
      assert a + b == b;
    }
  }
}
