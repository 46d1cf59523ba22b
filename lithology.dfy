/**
 * The rock/till lithology blend shared by the BasicSaRt (C00) and BasicThRt (802)
 * models: the sigmoid weight of the surface's height above the buried contact,
 * the weighted average of two material values, their per-node versions, the
 * selection of flooded nodes from the depression router's status flags, and the
 * in-place overwrite of a node field.
 */
module Lithology {

  /** What the blend relies on about numpy's `exp`: it is positive everywhere,
      `exp(0) = 1`, and it is non-decreasing. Floating-point rounding is not modelled. */
  ghost predicate ExpLaw(exp: real -> real) {
    && (forall x :: exp(x) > 0.0)
    && exp(0.0) == 1.0
    && (forall x, y :: x <= y ==> exp(x) <= exp(y))
  }

  /** The erodibility weight F = 1 / (1 + exp(-(z - b) / D*)) of a node whose surface is
      at `z` and whose rock/till contact is at `b`, for contact-zone width `width` (D*). */
  function ContactWeight(exp: real -> real, z: real, b: real, width: real): (w: real)
    requires ExpLaw(exp) && width != 0.0
    ensures 0.0 < w < 1.0
  {
    var e := exp(-(z - b) / width);
    assert 1.0 < 1.0 + e;
    1.0 / (1.0 + e)
  }

  /** The weight is one half exactly where the surface meets the contact. */
  lemma WeightAtContact(exp: real -> real, z: real, width: real)
    requires ExpLaw(exp) && width != 0.0
    ensures ContactWeight(exp, z, z, width) == 0.5
  {
  }

  /** For a positive width, the weight never decreases as the surface rises above the contact. */
  lemma WeightMonotone(exp: real -> real, z1: real, z2: real, b: real, width: real)
    requires ExpLaw(exp) && width > 0.0 && z1 <= z2
    ensures ContactWeight(exp, z1, b, width) <= ContactWeight(exp, z2, b, width)
  {
    var a1, a2 := -(z1 - b) / width, -(z2 - b) / width;
    assert a2 <= a1 by {
      assert (z2 - b) / width - (z1 - b) / width == (z2 - z1) / width;
    }
    var e1, e2 := exp(a1), exp(a2);
    assert 0.0 < e2 <= e1;
    ReciprocalAntitone(1.0 + e2, 1.0 + e1);
  }

  lemma ReciprocalAntitone(x: real, y: real)
    requires 0.0 < x <= y
    ensures 1.0 / y <= 1.0 / x
  {
    var rx, ry := 1.0 / x, 1.0 / y;
    assert rx * x == 1.0 && ry * y == 1.0;
    assert ry * x <= ry * y by { MulLeftMono(ry, x, y); }
    assert ry * x <= rx * x;
    if ry > rx {
      MulLeftMono(x, rx, ry);
      assert false;
    }
  }

  /** Multiplying by a non-negative factor keeps the order. */
  lemma MulLeftMono(c: real, x: real, y: real)
    requires 0.0 <= c && x <= y
    ensures c * x <= c * y
  {
    assert c * y - c * x == c * (y - x);
  }

  /** K = F * K_till + (1 - F) * K_rock: the value at a node whose till weight is `w`. */
  function Blend(w: real, till: real, rock: real): (k: real)
    ensures w == 1.0 ==> k == till
    ensures w == 0.0 ==> k == rock
    ensures till == rock ==> k == till
  {
    w * till + (1.0 - w) * rock
  }

  function Min(x: real, y: real): real { if x <= y then x else y }
  function Max(x: real, y: real): real { if x <= y then y else x }

  /** `v` lies between the rock and the till value, whichever is larger. */
  predicate Between(v: real, rock: real, till: real) {
    Min(rock, till) <= v <= Max(rock, till)
  }

  /** A weight in [0, 1] makes the blend a convex combination of the two values. */
  lemma BlendBetween(w: real, till: real, rock: real)
    requires 0.0 <= w <= 1.0
    ensures Between(Blend(w, till, rock), rock, till)
  {
    var d := till - rock;
    assert Blend(w, till, rock) == rock + w * d;
    if 0.0 <= d {
      ScaleWithin(d, w);
    } else {
      ScaleWithin(-d, w);
      assert w * d == -(-d * w);
    }
  }

  /** A non-negative quantity scaled by a weight in [0, 1] stays within [0, itself]. */
  lemma ScaleWithin(c: real, w: real)
    requires 0.0 <= c && 0.0 <= w <= 1.0
    ensures 0.0 <= c * w <= c
  {
    assert c - c * w == c * (1.0 - w);
  }

  /** The blend at the contact is the plain mean of the two values. */
  lemma BlendAtContact(exp: real -> real, z: real, width: real, till: real, rock: real)
    requires ExpLaw(exp) && width != 0.0
    ensures Blend(ContactWeight(exp, z, z, width), till, rock) == 0.5 * till + 0.5 * rock
  {
    WeightAtContact(exp, z, width);
  }

  /** Every entry lies in the unit interval. */
  predicate UnitInterval(wt: seq<real>) {
    forall i :: 0 <= i < |wt| ==> 0.0 <= wt[i] <= 1.0
  }

  /** The weight array after `erody_wt[data_nodes] = F(z, b)`: the entries at data
      nodes are recomputed from the surface `z` and the contact `b`; every other entry
      keeps its value `wt[i]`. */
  function WeightsAt(wt: seq<real>, z: seq<real>, b: seq<real>, nodes: seq<nat>,
                     exp: real -> real, width: real): (r: seq<real>)
    requires |z| == |wt| && |b| == |wt| && ExpLaw(exp) && width != 0.0
    ensures |r| == |wt|
    ensures forall i :: 0 <= i < |wt| && i !in nodes ==> r[i] == wt[i]
    ensures forall i :: 0 <= i < |wt| && i in nodes ==> 0.0 < r[i] < 1.0
  {
    seq(|wt|, i requires 0 <= i < |wt| =>
      if i in nodes then ContactWeight(exp, z[i], b[i], width) else wt[i])
  }

  /** At a data node the update leaves exactly the contact weight of that node's surface
      and contact elevations. */
  lemma WeightsAtDataNodes(wt: seq<real>, z: seq<real>, b: seq<real>, nodes: seq<nat>,
                           exp: real -> real, width: real)
    requires |z| == |wt| && |b| == |wt| && ExpLaw(exp) && width != 0.0
    ensures forall i :: 0 <= i < |wt| && i in nodes ==>
              WeightsAt(wt, z, b, nodes, exp, width)[i] == ContactWeight(exp, z[i], b[i], width)
  {
  }

  /** Weights that start in [0, 1] (initially all 0) stay in [0, 1] after an update. */
  lemma WeightsStayInUnitInterval(wt: seq<real>, z: seq<real>, b: seq<real>, nodes: seq<nat>,
                                  exp: real -> real, width: real)
    requires |z| == |wt| && |b| == |wt| && ExpLaw(exp) && width != 0.0
    requires UnitInterval(wt)
    ensures UnitInterval(WeightsAt(wt, z, b, nodes, exp, width))
  {
  }

  /** The blended field `erody[:] = erody_wt * till + (1 - erody_wt) * rock`. */
  function BlendAll(wt: seq<real>, till: real, rock: real): (r: seq<real>)
    ensures |r| == |wt|
    ensures forall i :: 0 <= i < |wt| && wt[i] == 1.0 ==> r[i] == till
    ensures forall i :: 0 <= i < |wt| && wt[i] == 0.0 ==> r[i] == rock
  {
    seq(|wt|, i requires 0 <= i < |wt| => Blend(wt[i], till, rock))
  }

  /** With weights in [0, 1], every blended entry lies between the rock and the till value. */
  lemma BlendAllBetween(wt: seq<real>, till: real, rock: real)
    requires UnitInterval(wt)
    ensures forall i :: 0 <= i < |wt| ==> Between(BlendAll(wt, till, rock)[i], rock, till)
  {
    forall i | 0 <= i < |wt|
      ensures Between(BlendAll(wt, till, rock)[i], rock, till)
    {
      BlendBetween(wt[i], till, rock);
    }
  }

  /** `wt[nodes] = 1 / (1 + exp(-(z[nodes] - b[nodes]) / width))`: the weight rewritten in
      place at the listed nodes only. */
  method SetWeights(wt: array<real>, z: seq<real>, b: seq<real>, nodes: seq<nat>,
                    exp: real -> real, width: real)
    requires |z| == wt.Length && |b| == wt.Length && ExpLaw(exp) && width != 0.0
    modifies wt
    ensures wt[..] == WeightsAt(old(wt[..]), z, b, nodes, exp, width)
  {
    ghost var weights := WeightsAt(wt[..], z, b, nodes, exp, width);
    forall i | 0 <= i < wt.Length && i in nodes {
      wt[i] := ContactWeight(exp, z[i], b[i], width);
    }
    assert wt[..] == weights;
  }

  /** `a[:] = s`: every entry of the array replaced in place. */
  method Overwrite(a: array<real>, s: seq<real>)
    requires |s| == a.Length
    modifies a
    ensures a[..] == s
  {
    forall i | 0 <= i < a.Length {
      a[i] := s[i];
    }
  }

  /** The status the depression finder gives a node inside a flooded depression. */
  const Flooded: int := 3

  /** `np.where(flood_status == 3)[0]`: the indices of the flooded nodes, in ascending order. */
  function FloodedNodes(status: seq<int>): (r: seq<nat>)
    ensures forall k, l :: 0 <= k < l < |r| ==> r[k] < r[l]
    ensures forall i :: i in r <==> 0 <= i < |status| && status[i] == Flooded
  {
    if |status| == 0 then []
    else
      var last := |status| - 1;
      var front := FloodedNodes(status[..last]);
      assert forall i :: 0 <= i < last ==> status[..last][i] == status[i];
      assert forall k :: 0 <= k < |front| ==> front[k] in front;
      if status[last] == Flooded then front + [last] else front
  }
}
