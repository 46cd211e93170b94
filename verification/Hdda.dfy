/** The hierarchical DDA of PNanoVDB.h: a ray steps from block to block, and blocks change
    size on the way.  Times and positions are exact reals; rounding is left out, so what is
    said of them here holds of the source in exact arithmetic. */
module Hdda {
  import Arith
  import opened Bits

  const FLOAT_MAX := 100000000000000000000000000000000000000.0

  /** One component of pnanovdb_hdda_t. */
  datatype Axis = Axis(voxel: int, step: int, delta: real, next: real)

  ghost predicate IsPow2(dim: int) {
    exists k: nat :: dim == Pow2(k)
  }

  /** `x & ~(dim - 1)`. */
  function Align(x: int, dim: int): int {
    And(x, Not(dim - 1))
  }

  lemma AlignRoundsDown(x: int, dim: int)
    requires IsPow2(dim)
    ensures dim > 0 && Align(x, dim) == x / dim * dim
    ensures Align(x, dim) % dim == 0 && Align(x, dim) <= x < Align(x, dim) + dim
  {
    var k: nat :| dim == Pow2(k);
    var q := x / dim;
    assert Align(x, dim) == q * dim by {
      MaskIsRemainder(x, k);
      ShrIsDivision(x, k);
      ShlIsMultiplication(q, k);
    }
    MultiplesAround(x, dim, q);
  }

  lemma MultiplesAround(x: int, d: int, q: int)
    requires d > 0 && q == x / d
    ensures (q * d) % d == 0 && q * d <= x < q * d + d
  {
    assert x == d * q + x % d;
    assert d * q == q * d;
    Arith.DivModUnique(q, 0, d);
  }

  /** One power of two divides the other. */
  lemma {:induction false} Divides(i: nat, j: nat)
    requires i <= j
    ensures Pow2(j) % Pow2(i) == 0 && Pow2(j) == Pow2(i) * Pow2(j - i)
  {
    Pow2Sum(i, j - i);
    Arith.DivModUnique(Pow2(j - i), 0, Pow2(i));
  }

  /** A multiple of the larger is a multiple of the smaller. */
  lemma MultipleOfSmaller(v: int, d: int, e: int)
    requires IsPow2(d) && IsPow2(e) && e <= d && v % d == 0
    ensures v % e == 0 && d % e == 0
  {
    var i: nat :| e == Pow2(i);
    var j: nat :| d == Pow2(j);
    Ordered(i, j);
    Divides(i, j);
    MultipleOfProduct(v, e, Pow2(j - i));
  }

  lemma MultipleOfProduct(v: int, e: int, f: int)
    requires e > 0 && f > 0 && e * f > 0 && v % (e * f) == 0
    ensures v % e == 0
  {
    var q := v / (e * f);
    assert v == (e * f) * q;
    assert (e * f) * q == e * (f * q);
    Arith.DivModUnique(f * q, 0, e);
  }

  lemma {:induction false} Ordered(i: nat, j: nat)
    requires Pow2(i) <= Pow2(j)
    ensures i <= j
    decreases i
  {
    if i > 0 && j > 0 {
      Ordered(i - 1, j - 1);
    }
  }

  /* ---- update: the new block and the old one ---- */

  /** The clamp of pnanovdb_hdda_update, for any position of the ray. */
  function Clamped(voxel: int, oldDim: int, dim: int, floored: int): int {
    var max, min := Align(voxel + oldDim - 1, dim), Align(voxel, dim);
    var v := Align(floored, dim);
    var upper := if v < max then v else max;
    if upper > min then upper else min
  }

  /** A smaller block lies inside the old one, a larger one encloses it. */
  lemma ClampedIsNested(voxel: int, oldDim: int, dim: int, floored: int)
    requires IsPow2(oldDim) && IsPow2(dim) && voxel % oldDim == 0
    ensures dim > 0 && Clamped(voxel, oldDim, dim, floored) % dim == 0
    ensures dim <= oldDim ==> voxel <= Clamped(voxel, oldDim, dim, floored) &&
                              Clamped(voxel, oldDim, dim, floored) + dim <= voxel + oldDim
    ensures dim >= oldDim ==> Clamped(voxel, oldDim, dim, floored) <= voxel &&
                              voxel + oldDim <= Clamped(voxel, oldDim, dim, floored) + dim
  {
    var max, min, f := Align(voxel + oldDim - 1, dim), Align(voxel, dim), Align(floored, dim);
    AlignRoundsDown(voxel + oldDim - 1, dim);
    AlignRoundsDown(voxel, dim);
    AlignRoundsDown(floored, dim);
    AlignRoundsDown(voxel, oldDim);
    if dim <= oldDim {
      MultipleOfSmaller(voxel, oldDim, dim);
      ShrinkingBounds(voxel, oldDim, dim, max, min);
    }
    if dim >= oldDim {
      MultipleOfSmaller(min, dim, oldDim);
      MultipleOfSmaller(0, dim, oldDim);
      GrowingBounds(voxel, oldDim, dim, max, min);
    }
  }

  lemma ShrinkingBounds(v: int, d: int, e: int, max: int, min: int)
    requires 0 < e <= d && v % e == 0 && d % e == 0
    requires max % e == 0 && max <= v + d - 1 < max + e && min % e == 0 && min <= v < min + e
    ensures min == v && max == v + d - e
  {
    SameMultiple(min, v, v, e);
    SumOfMultiples(v, d, e);
    SumOfMultiples(v + d, -e, e);
    Arith.DivModUnique(-1, 0, e);
    SameMultiple(max, v + d - e, v + d - 1, e);
  }

  lemma GrowingBounds(v: int, d: int, e: int, max: int, min: int)
    requires 0 < d <= e && v % d == 0 && e % d == 0 && min % d == 0
    requires max % e == 0 && max <= v + d - 1 < max + e && min % e == 0 && min <= v < min + e
    ensures max == min && v + d <= min + e
  {
    SumOfMultiples(min, e, d);
    NextMultiple(min + e, v, d);
    SameMultiple(min, max, v + d - 1, e);
  }

  lemma SumOfMultiples(a: int, b: int, d: int)
    requires d > 0 && a % d == 0
    requires b % d == 0 || b == -d
    ensures (a + b) % d == 0
  {
    if b == -d {
      Arith.DivModUnique(-1, 0, d);
    }
    var p, q := a / d, b / d;
    assert a == d * p && b == d * q;
    assert a + b == d * (p + q);
    Arith.DivModUnique(p + q, 0, d);
  }

  /** Multiples of e: the one below x is at most x - e. */
  lemma NextMultiple(x: int, m: int, e: int)
    requires e > 0 && m % e == 0 && x % e == 0 && m < x
    ensures m + e <= x
  {
    var p, q := m / e, x / e;
    Distribute(e, q, p);
    AtLeastOne(e, q - p);
  }

  lemma Distribute(e: int, q: int, p: int)
    ensures e * (q - p) == e * q - e * p
  {
  }

  lemma AtLeastOne(e: int, t: int)
    requires e > 0 && e * t > 0
    ensures e * t >= e
  {
    assert t <= 0 ==> e * t <= 0;
    assert t >= 1 ==> e * t >= e;
  }

  lemma SameMultiple(a: int, b: int, x: int, e: int)
    requires e > 0 && a % e == 0 && b % e == 0 && a <= x < a + e && b <= x < b + e
    ensures a == b
  {
    if a < b {
      NextMultiple(b, a, e);
    }
    if b < a {
      NextMultiple(a, b, e);
    }
  }

  /** Of the smaller blocks in the old one, c is the one nearest to the ray. */
  predicate IsNearest(c: int, dim: int, voxel: int, oldDim: int, floored: int) {
    if floored < voxel then c == voxel
    else if floored >= voxel + oldDim then c == voxel + oldDim - dim
    else c <= floored < c + dim
  }

  lemma ClampedIsNearest(voxel: int, oldDim: int, dim: int, floored: int)
    requires IsPow2(oldDim) && IsPow2(dim) && dim <= oldDim && voxel % oldDim == 0
    ensures IsNearest(Clamped(voxel, oldDim, dim, floored), dim, voxel, oldDim, floored)
  {
    var max, min, v := Align(voxel + oldDim - 1, dim), Align(voxel, dim), Align(floored, dim);
    AlignRoundsDown(voxel + oldDim - 1, dim);
    AlignRoundsDown(voxel, dim);
    AlignRoundsDown(floored, dim);
    MultipleOfSmaller(voxel, oldDim, dim);
    ShrinkingBounds(voxel, oldDim, dim, max, min);
    if voxel <= floored < voxel + oldDim {
      SumOfMultiples(max, dim, dim);
      SumOfMultiples(v, dim, dim);
      NextMultiple(max + dim, v, dim);
      NextMultiple(v + dim, min, dim);
    }
  }

  /* ---- rays ---- */

  /** The position of the ray along an axis. */
  function Pos(o: real, d: real, t: real): real {
    d * t + o
  }

  /** The ray starts at its origin and moves with its direction. */
  lemma PosIsOnRay(o: real, d: real, t: real)
    ensures Pos(o, d, t) == o + t * d
  {
  }

  /** pnanovdb_hdda_init along an axis. */
  function InitAxis(o: real, d: real, tmin: real, dim: nat): Axis {
    var pos := Pos(o, d, tmin);
    StartAxis(Align(pos.Floor, dim), pos, d, tmin, dim)
  }

  function StartAxis(voxel: int, pos: real, d: real, tmin: real, dim: nat): Axis {
    if d == 0.0 then Axis(voxel, 0, 0.0, FLOAT_MAX)
    else
      var inverse := 1.0 / d;
      if inverse > 0.0 then Axis(voxel, 1, inverse, tmin + ((voxel + dim) as real - pos) * inverse)
      else Axis(voxel, -1, -inverse, tmin + (voxel as real - pos) * inverse)
  }

  /** pnanovdb_hdda_update along an axis. */
  function UpdateAxis(a: Axis, oldDim: nat, dim: nat, tmin: real, o: real, d: real): Axis
    requires a.step != 0 ==> d != 0.0
  {
    var pos := Pos(o, d, tmin);
    MoveAxis(a, Clamped(a.voxel, oldDim, dim, pos.Floor), dim, tmin, pos, d)
  }

  function MoveAxis(a: Axis, voxel: int, dim: nat, tmin: real, pos: real, d: real): Axis
    requires a.step != 0 ==> d != 0.0
  {
    if a.step == 0 then a.(voxel := voxel)
    else
      var inverse := 1.0 / d;
      var next := tmin + (voxel as real - pos) * inverse;
      a.(voxel := voxel, next := if a.step > 0 then next + dim as real * inverse else next)
  }

  /** The explicit check that forces the ray forward when rounding has stalled it. */
  function Forced(next: real, tmin: real): real {
    if next <= tmin then next + (tmin - 0.999999 * next + 0.000001) else next
  }

  /** The time that a step leads to. */
  lemma StepTime(next: real, tmin: real)
    ensures next > tmin ==> Forced(next, tmin) == next
    ensures next <= tmin ==> Forced(next, tmin) == tmin + (next + 1.0) * 0.000001
    ensures Forced(next, tmin) > tmin <==> next > tmin || next > -1.0
  {
  }

  /** pnanovdb_hdda_step along the chosen axis. */
  function StepAxis(a: Axis, dim: nat, tmin: real): Axis {
    a.(voxel := a.voxel + dim * a.step, next := Forced(a.next, tmin) + dim as real * a.delta)
  }

  /** What exact arithmetic keeps along an axis: the block contains the ray at tmin, and next is
      the time when the ray reaches the face of the block ahead of it. */
  ghost predicate AxisOk(a: Axis, dim: nat, tmin: real, o: real, d: real) {
    && a.step == (if d > 0.0 then 1 else if d < 0.0 then -1 else 0)
    && a.delta * d == a.step as real
    && a.voxel as real <= Pos(o, d, tmin) <= (a.voxel + dim) as real
    && (d != 0.0 ==> Pos(o, d, a.next) == Face(a, dim))
  }

  /** The time up to which an axis without motion does not step. */
  predicate Never(next: real) {
    next >= 100000000000000000000000000000000000000.0
  }

  /** The step has the sign of the direction, and an axis without motion waits. */
  predicate FollowsAlong(a: Axis, d: real) {
    && a.step == (if d > 0.0 then 1 else if d < 0.0 then -1 else 0)
    && (d == 0.0 ==> a.delta == 0.0 && Never(a.next))
  }

  lemma InitFollows(o: real, d: real, tmin: real, dim: nat)
    requires AxisOk(InitAxis(o, d, tmin, dim), dim, tmin, o, d)
    ensures FollowsAlong(InitAxis(o, d, tmin, dim), d)
  {
  }

  /** Whatever its time, a step keeps that. */
  lemma StepFollows(a: Axis, dim: nat, tmin: real, d: real)
    requires FollowsAlong(a, d)
    ensures var b := StepAxis(a, dim, tmin);
            && FollowsAlong(b, d)
            && b.voxel == if d > 0.0 then a.voxel + dim else if d < 0.0 then a.voxel - dim else a.voxel
  {
    if d == 0.0 {
      StepTime(a.next, tmin);
    }
  }

  function Face(a: Axis, dim: nat): real {
    if a.step > 0 then (a.voxel + dim) as real else a.voxel as real
  }

  lemma Inverse(d: real)
    requires d != 0.0
    ensures (1.0 / d) * d == 1.0 && (1.0 / d > 0.0 <==> d > 0.0)
  {
  }

  /** The time of reaching a coordinate. */
  lemma CrossTime(o: real, d: real, t: real, c: real)
    requires d != 0.0
    ensures Pos(o, d, t + (c - Pos(o, d, t)) * (1.0 / d)) == c
  {
    Inverse(d);
    var x, i := c - Pos(o, d, t), 1.0 / d;
    assert d * (t + x * i) == d * t + x * (i * d);
  }

  lemma InitAxisOk(o: real, d: real, tmin: real, dim: nat)
    requires IsPow2(dim)
    ensures dim > 0 && AxisOk(InitAxis(o, d, tmin, dim), dim, tmin, o, d) && InitAxis(o, d, tmin, dim).voxel % dim == 0
  {
    var pos := Pos(o, d, tmin);
    AlignRoundsDown(pos.Floor, dim);
    StartAxisOk(Align(pos.Floor, dim), o, d, tmin, dim);
  }

  lemma StartAxisOk(voxel: int, o: real, d: real, tmin: real, dim: nat)
    requires voxel as real <= Pos(o, d, tmin) <= (voxel + dim) as real
    ensures AxisOk(StartAxis(voxel, Pos(o, d, tmin), d, tmin, dim), dim, tmin, o, d)
  {
    if d != 0.0 {
      Inverse(d);
      CrossTime(o, d, tmin, (voxel + dim) as real);
      CrossTime(o, d, tmin, voxel as real);
    }
  }

  lemma UpdateAxisOk(a: Axis, oldDim: nat, dim: nat, tmin: real, o: real, d: real)
    requires IsPow2(oldDim) && IsPow2(dim) && oldDim > 0 && a.voxel % oldDim == 0 && AxisOk(a, oldDim, tmin, o, d)
    ensures dim > 0 && AxisOk(UpdateAxis(a, oldDim, dim, tmin, o, d), dim, tmin, o, d)
  {
    var pos := Pos(o, d, tmin);
    ClampedContains(a.voxel, oldDim, dim, pos);
    MovedAxisOk(a, Clamped(a.voxel, oldDim, dim, pos.Floor), oldDim, dim, tmin, o, d);
  }

  /** At any time, on the ray or not, a moving axis gets the time of reaching the face ahead. */
  lemma MovedNext(a: Axis, voxel: int, dim: nat, tmin: real, o: real, d: real)
    requires a.step != 0 ==> d != 0.0
    ensures var b := MoveAxis(a, voxel, dim, tmin, Pos(o, d, tmin), d);
            && b.step == a.step && b.delta == a.delta
            && if a.step != 0 then Pos(o, d, b.next) == Face(b, dim) else b.next == a.next
  {
    if a.step != 0 {
      CrossTime(o, d, tmin, voxel as real);
      CrossTime(o, d, tmin, (voxel + dim) as real);
      SumOfTimes(voxel as real - Pos(o, d, tmin), dim as real, 1.0 / d);
    }
  }

  lemma MovedAxisOk(a: Axis, voxel: int, oldDim: nat, dim: nat, tmin: real, o: real, d: real)
    requires AxisOk(a, oldDim, tmin, o, d) && voxel as real <= Pos(o, d, tmin) <= (voxel + dim) as real
    ensures AxisOk(MoveAxis(a, voxel, dim, tmin, Pos(o, d, tmin), d), dim, tmin, o, d)
  {
    if d != 0.0 {
      MovedNext(a, voxel, dim, tmin, o, d);
    }
  }

  lemma SumOfTimes(x: real, y: real, i: real)
    ensures x * i + y * i == (x + y) * i
  {
  }

  /** A block that contains the ray is replaced by one that contains it. */
  lemma ClampedContains(voxel: int, oldDim: nat, dim: nat, pos: real)
    requires IsPow2(oldDim) && IsPow2(dim) && oldDim > 0 && voxel % oldDim == 0
    requires voxel as real <= pos <= (voxel + oldDim) as real
    ensures var v := Clamped(voxel, oldDim, dim, pos.Floor);
            dim > 0 && v as real <= pos <= (v + dim) as real
  {
    var max, min, f := Align(voxel + oldDim - 1, dim), Align(voxel, dim), Align(pos.Floor, dim);
    ClampedIsNested(voxel, oldDim, dim, pos.Floor);
    AlignRoundsDown(voxel + oldDim - 1, dim);
    AlignRoundsDown(voxel, dim);
    AlignRoundsDown(pos.Floor, dim);
    if dim <= oldDim {
      MultipleOfSmaller(voxel, oldDim, dim);
      ShrinkingBounds(voxel, oldDim, dim, max, min);
    }
  }

  /** Moving along the ray towards a face, without passing the time of reaching it. */
  lemma Between(o: real, d: real, t: real, t': real, next: real)
    requires t <= t' <= next
    ensures d >= 0.0 ==> Pos(o, d, t) <= Pos(o, d, t') <= Pos(o, d, next)
    ensures d <= 0.0 ==> Pos(o, d, next) <= Pos(o, d, t') <= Pos(o, d, t)
  {
    Scale(d, t, t');
    Scale(d, t', next);
  }

  lemma Scale(d: real, a: real, b: real)
    requires a <= b
    ensures d >= 0.0 ==> d * a <= d * b
    ensures d <= 0.0 ==> d * b <= d * a
  {
    assert d * b - d * a == d * (b - a);
  }

  /** The block contains the ray until next. */
  lemma StaysInside(a: Axis, dim: nat, tmin: real, t: real, o: real, d: real)
    requires AxisOk(a, dim, tmin, o, d) && tmin <= t && (d != 0.0 ==> t <= a.next)
    ensures a.voxel as real <= Pos(o, d, t) <= (a.voxel + dim) as real
    ensures AxisOk(a, dim, t, o, d)
  {
    if d != 0.0 {
      Between(o, d, tmin, t, a.next);
    }
  }

  lemma StepAxisOk(a: Axis, dim: nat, tmin: real, o: real, d: real)
    requires AxisOk(a, dim, tmin, o, d) && tmin < a.next
    ensures AxisOk(StepAxis(a, dim, tmin), dim, a.next, o, d)
  {
    StaysInside(a, dim, tmin, a.next, o, d);
    if d != 0.0 {
      var r := dim as real;
      assert Pos(o, d, a.next + r * a.delta) == Pos(o, d, a.next) + r * (a.delta * d) by {
        assert d * (a.next + r * a.delta) == d * a.next + r * (a.delta * d);
      }
    }
  }

  lemma BlockAfter(voxel: int, dim: nat, step: int)
    requires dim > 0 && voxel % dim == 0
    ensures (voxel + dim * step) % dim == 0
  {
    var q := voxel / dim;
    assert voxel + dim * step == dim * (q + step);
    Arith.DivModUnique(q + step, 0, dim);
  }

  /** One block lies inside the other. */
  ghost predicate Nested(voxel: int, dim: nat, voxel': int, dim': nat) {
    && (dim' <= dim ==> voxel <= voxel' && voxel' + dim' <= voxel + dim)
    && (dim' >= dim ==> voxel' <= voxel && voxel + dim <= voxel' + dim')
  }

  /** All axes follow the ray. */
  ghost predicate AllFollow(axes: seq<Axis>, direction: seq<real>) {
    |axes| == |direction| == 3 && forall k | 0 <= k < 3 :: FollowsAlong(axes[k], direction[k])
  }

  /** The block has moved by its own size, the way of the ray, along one axis on which it moves. */
  ghost predicate Advances(before: seq<Axis>, after: seq<Axis>, dim: nat, direction: seq<real>)
    requires |before| == |after| == |direction| == 3
  {
    exists k | 0 <= k < 3 && direction[k] != 0.0 ::
      && after == before[k := after[k]]
      && after[k].voxel == if direction[k] > 0.0 then before[k].voxel + dim else before[k].voxel - dim
  }

  /** A step along an axis of least next; the ray moves unless it moves along no axis. */
  lemma StepAdvances(axes: seq<Axis>, k: nat, dim: nat, tmin: real, direction: seq<real>)
    requires |axes| == |direction| == 3 && k < 3 && forall i | 0 <= i < 3 :: axes[k].next <= axes[i].next
    ensures var after := axes[k := StepAxis(axes[k], dim, tmin)];
            AllFollow(axes, direction) ==>
              && AllFollow(after, direction)
              && ((exists i | 0 <= i < 3 :: direction[i] != 0.0 && !Never(axes[i].next)) ==>
                    Advances(axes, after, dim, direction))
  {
    if AllFollow(axes, direction) {
      var after := axes[k := StepAxis(axes[k], dim, tmin)];
      StepFollows(axes[k], dim, tmin, direction[k]);
      if exists i | 0 <= i < 3 :: direction[i] != 0.0 && !Never(axes[i].next) {
        assert direction[k] != 0.0;
        assert after == axes[k := after[k]];
      }
    }
  }

  /** A block that the ray visits, when it enters it and when it would leave it. */
  datatype Visit = Visit(corner: seq<int>, dim: nat, tmin: real, next: real)

  class HddaState {
    var dim: nat
    var tmin: real
    var tmax: real
    var axes: seq<Axis>

    /** Blocks are cubes of a power of two, aligned to their size. */
    ghost predicate Aligned()
      reads this
    {
      |axes| == 3 && IsPow2(dim) && dim > 0 && forall k | 0 <= k < 3 :: axes[k].voxel % dim == 0
    }

    /** Update divides by the direction along the axes that step. */
    ghost predicate CanUpdate(direction: seq<real>)
      requires |direction| == 3
      reads this
    {
      |axes| == 3 && forall k | 0 <= k < 3 :: axes[k].step != 0 ==> direction[k] != 0.0
    }

    /** Steps follow the signs of the direction. */
    ghost predicate Follows(direction: seq<real>)
      requires |direction| == 3
      reads this
    {
      AllFollow(axes, direction)
    }

    /** The block contains the ray at tmin, and the times of reaching its faces are right. */
    ghost predicate OnRay(origin: seq<real>, direction: seq<real>)
      requires |origin| == 3 && |direction| == 3
      reads this
    {
      |axes| == 3 && forall k | 0 <= k < 3 :: AxisOk(axes[k], dim, tmin, origin[k], direction[k])
    }

    /** pnanovdb_hdda_init. */
    constructor (origin: seq<real>, tmin: real, direction: seq<real>, tmax: real, dim: nat)
      requires |origin| == 3 && |direction| == 3 && IsPow2(dim)
      ensures this.dim == dim && this.tmin == tmin && this.tmax == tmax
      ensures Aligned() && Follows(direction) && OnRay(origin, direction)
      ensures forall k | 0 <= k < 3 :: axes[k] == InitAxis(origin[k], direction[k], tmin, dim)
    {
      this.dim, this.tmin, this.tmax := dim, tmin, tmax;
      axes := [InitAxis(origin[0], direction[0], tmin, dim), InitAxis(origin[1], direction[1], tmin, dim),
               InitAxis(origin[2], direction[2], tmin, dim)];
      new;
      InitAxisOk(origin[0], direction[0], tmin, dim);
      InitAxisOk(origin[1], direction[1], tmin, dim);
      InitAxisOk(origin[2], direction[2], tmin, dim);
      InitFollows(origin[0], direction[0], tmin, dim);
      InitFollows(origin[1], direction[1], tmin, dim);
      InitFollows(origin[2], direction[2], tmin, dim);
    }

    /** pnanovdb_hdda_update: wherever the ray is, the new block is nested with the old one. */
    method Update(origin: seq<real>, direction: seq<real>, newDim: nat) returns (changed: bool)
      requires |origin| == 3 && |direction| == 3 && IsPow2(newDim) && Aligned() && CanUpdate(direction)
      modifies this
      ensures changed == (newDim != old(dim)) && dim == newDim && tmin == old(tmin) && tmax == old(tmax)
      ensures |axes| == 3 && forall k | 0 <= k < 3 ::
                axes[k] == if changed then UpdateAxis(old(axes)[k], old(dim), dim, tmin, origin[k], direction[k])
                           else old(axes)[k]
      ensures Aligned() && CanUpdate(direction) && (old(Follows(direction)) ==> Follows(direction))
      ensures forall k | 0 <= k < 3 ::
                Nested(old(axes)[k].voxel, old(dim), axes[k].voxel, dim) && axes[k].step == old(axes)[k].step
      ensures changed ==> forall k | 0 <= k < 3 ::
                && axes[k].delta == old(axes)[k].delta
                && if axes[k].step != 0 then Pos(origin[k], direction[k], axes[k].next) == Face(axes[k], dim)
                   else axes[k].next == old(axes)[k].next
      ensures changed && newDim < old(dim) ==> forall k | 0 <= k < 3 ::
                IsNearest(axes[k].voxel, newDim, old(axes)[k].voxel, old(dim), Pos(origin[k], direction[k], tmin).Floor)
      ensures old(OnRay(origin, direction)) ==> OnRay(origin, direction)
    {
      if dim == newDim {
        return false;
      }
      ghost var axes0 := axes;
      forall k | 0 <= k < 3
        ensures newDim > 0
        ensures var a := UpdateAxis(axes0[k], dim, newDim, tmin, origin[k], direction[k]);
                && a.voxel % newDim == 0 && Nested(axes0[k].voxel, dim, a.voxel, newDim) && a.step == axes0[k].step
                && (AxisOk(axes0[k], dim, tmin, origin[k], direction[k]) ==>
                    AxisOk(a, newDim, tmin, origin[k], direction[k]))
                && a.delta == axes0[k].delta
                && (if a.step != 0 then Pos(origin[k], direction[k], a.next) == Face(a, newDim)
                    else a.next == axes0[k].next)
                && (newDim < dim ==>
                    IsNearest(a.voxel, newDim, axes0[k].voxel, dim, Pos(origin[k], direction[k], tmin).Floor))
      {
        var floored := Pos(origin[k], direction[k], tmin).Floor;
        MovedNext(axes0[k], Clamped(axes0[k].voxel, dim, newDim, floored), newDim, tmin, origin[k], direction[k]);
        if newDim < dim {
          ClampedIsNearest(axes0[k].voxel, dim, newDim, floored);
        }
        ClampedIsNested(axes0[k].voxel, dim, newDim, floored);
        if AxisOk(axes0[k], dim, tmin, origin[k], direction[k]) {
          UpdateAxisOk(axes0[k], dim, newDim, tmin, origin[k], direction[k]);
        }
      }
      axes := [UpdateAxis(axes[0], dim, newDim, tmin, origin[0], direction[0]),
               UpdateAxis(axes[1], dim, newDim, tmin, origin[1], direction[1]),
               UpdateAxis(axes[2], dim, newDim, tmin, origin[2], direction[2])];
      dim := newDim;
      return true;
    }

    /** The axis that pnanovdb_hdda_step moves along. */
    function Chosen(): (k: nat)
      requires |axes| == 3
      reads this
      ensures k < 3 && forall i | 0 <= i < 3 :: axes[k].next <= axes[i].next
      ensures forall i | k < i < 3 :: axes[k].next < axes[i].next
    {
      if axes[0].next < axes[1].next && axes[0].next < axes[2].next then 0
      else if axes[1].next < axes[2].next then 1 else 2
    }

    /** The current block. */
    function Here(): Visit
      requires |axes| == 3
      reads this
    {
      Visit([axes[0].voxel, axes[1].voxel, axes[2].voxel], dim, tmin, axes[Chosen()].next)
    }

    /** pnanovdb_hdda_step: one block along an axis of least next.  In exact arithmetic the ray
        enters the new block at the new tmin, unless the forward check had to intervene; and,
        again in exact arithmetic, time moves forward exactly when next was ahead or exceeds -1.
        The check is there for rounding, about which this says nothing. */
    method Step() returns (inside: bool)
      requires Aligned()
      modifies this
      ensures dim == old(dim) && tmax == old(tmax) && inside == (tmin <= tmax)
      ensures Aligned()
      ensures var k := old(Chosen());
              && axes == old(axes)[k := StepAxis(old(axes)[k], dim, old(tmin))]
              && axes[k].voxel == old(axes)[k].voxel + dim * axes[k].step
              && tmin == Forced(old(axes)[k].next, old(tmin))
              && (old(axes)[k].next > old(tmin) ==> tmin == old(axes)[k].next)
              && (old(axes)[k].next <= old(tmin) ==> tmin == old(tmin) + (old(axes)[k].next + 1.0) * 0.000001)
              && axes[k].next == tmin + dim as real * axes[k].delta && axes[k].delta == old(axes)[k].delta
              && (tmin > old(tmin) <==> old(axes)[k].next > old(tmin) || old(axes)[k].next > -1.0)
      ensures forall direction: seq<real> | |direction| == 3 && old(Follows(direction)) ::
                && Follows(direction)
                && ((exists i | 0 <= i < 3 :: direction[i] != 0.0 && !Never(old(axes)[i].next)) ==>
                      Advances(old(axes), axes, dim, direction))
      ensures forall origin: seq<real>, direction: seq<real> |
                |origin| == 3 && |direction| == 3 && old(OnRay(origin, direction)) ::
                old(axes[Chosen()].next > tmin) ==> OnRay(origin, direction)
    {
      var k := Chosen();
      var a := axes[k];
      ghost var axes0, tmin0 := axes, tmin;
      axes := axes[k := StepAxis(a, dim, tmin)];
      tmin := Forced(a.next, tmin);
      BlockAfter(a.voxel, dim, a.step);
      StepTime(a.next, tmin0);
      forall direction: seq<real> | |direction| == 3 && AllFollow(axes0, direction)
        ensures AllFollow(axes, direction)
        ensures (exists i | 0 <= i < 3 :: direction[i] != 0.0 && !Never(axes0[i].next)) ==>
                  Advances(axes0, axes, dim, direction)
      {
        StepAdvances(axes0, k, dim, tmin0, direction);
      }
      forall origin: seq<real>, direction: seq<real> | |origin| == 3 && |direction| == 3 && a.next > tmin0 &&
               (forall i | 0 <= i < 3 :: AxisOk(axes0[i], dim, tmin0, origin[i], direction[i]))
        ensures OnRay(origin, direction)
      {
        forall i | 0 <= i < 3 ensures AxisOk(axes[i], dim, tmin, origin[i], direction[i]) {
          if i == k {
            StepAxisOk(a, dim, tmin0, origin[i], direction[i]);
          } else {
            StaysInside(axes0[i], dim, tmin0, a.next, origin[i], direction[i]);
          }
        }
      }
      inside := tmin <= tmax;
    }
  }

  /** A ray that starts on the face ahead of it at time -8: even in exact arithmetic its first
      step moves time back. */
  method FirstStepBack() returns (hdda: HddaState)
    ensures fresh(hdda) && hdda.tmin < -8.0
  {
    assert 8 == Pow2(3) && IsPow2(8);
    AlignRoundsDown(8, 8);
    hdda := new HddaState([0.0, 0.0, 0.0], -8.0, [-1.0, 0.0, 0.0], 100.0, 8);
    assert hdda.axes[0].next == -8.0;
    var _ := hdda.Step();
  }

  datatype Move = CallUpdate(dim: nat) | CallStep

  /** The ray at some time, along an axis. */
  ghost predicate Inside(corner: int, dim: nat, o: real, d: real, t: real) {
    corner as real <= o + t * d <= (corner + dim) as real
  }

  ghost predicate Contains(b: Visit, origin: seq<real>, direction: seq<real>, t: real)
    requires |origin| == 3 && |direction| == 3
  {
    && |b.corner| == 3
    && forall k | 0 <= k < 3 :: Inside(b.corner[k], b.dim, origin[k], direction[k], t)
  }

  ghost predicate Visited(visits: seq<Visit>, origin: seq<real>, direction: seq<real>, t: real)
    requires |origin| == 3 && |direction| == 3
  {
    exists n | 0 <= n < |visits| :: Contains(visits[n], origin, direction, t)
  }

  /** From one time to another the ray is always in some visited block. */
  ghost predicate Covers(visits: seq<Visit>, origin: seq<real>, direction: seq<real>, first: real, last: real)
    requires |origin| == 3 && |direction| == 3
  {
    forall t | first <= t <= last :: Visited(visits, origin, direction, t)
  }

  /** The ray is in the block for some time. */
  ghost predicate StaysIn(b: Visit, origin: seq<real>, direction: seq<real>, from: real, to: real)
    requires |origin| == 3 && |direction| == 3
  {
    forall t | from <= t <= to :: Contains(b, origin, direction, t)
  }

  lemma StaysAlong(a: Axis, dim: nat, tmin: real, t: real, o: real, d: real)
    requires AxisOk(a, dim, tmin, o, d) && tmin <= t && (d == 0.0 || t == tmin || t <= a.next)
    ensures Inside(a.voxel, dim, o, d, t)
  {
    PosIsOnRay(o, d, t);
    if t > tmin {
      StaysInside(a, dim, tmin, t, o, d);
    }
  }

  /** Until the least next time the ray stays in the block. */
  lemma StaysUntil(axes: seq<Axis>, k: nat, b: Visit, tmin: real, origin: seq<real>, direction: seq<real>, to: real)
    requires |origin| == 3 && |direction| == 3 && |axes| == 3 && k < 3 && tmin <= to
    requires forall i | 0 <= i < 3 :: AxisOk(axes[i], b.dim, tmin, origin[i], direction[i])
    requires to == tmin || (to == axes[k].next && forall i | 0 <= i < 3 :: axes[k].next <= axes[i].next)
    requires b.corner == [axes[0].voxel, axes[1].voxel, axes[2].voxel]
    ensures StaysIn(b, origin, direction, tmin, to)
  {
    forall t | tmin <= t <= to ensures Contains(b, origin, direction, t) {
      StaysAlong(axes[0], b.dim, tmin, t, origin[0], direction[0]);
      StaysAlong(axes[1], b.dim, tmin, t, origin[1], direction[1]);
      StaysAlong(axes[2], b.dim, tmin, t, origin[2], direction[2]);
      forall i | 0 <= i < 3 ensures Inside(b.corner[i], b.dim, origin[i], direction[i], t) {
        assert b.corner[i] == axes[i].voxel;
      }
    }
  }

  /** Time goes on in the last block, and then another one is entered. */
  lemma CoversOn(visits: seq<Visit>, b: Visit, origin: seq<real>, direction: seq<real>, first: real, tmin: real,
                 to: real)
    requires |origin| == 3 && |direction| == 3 && visits != []
    requires Covers(visits, origin, direction, first, tmin)
    requires StaysIn(visits[|visits| - 1], origin, direction, tmin, to)
    ensures Covers(visits + [b], origin, direction, first, to)
  {
    forall t | first <= t <= to ensures Visited(visits + [b], origin, direction, t) {
      if t <= tmin {
        assert Visited(visits, origin, direction, t);
        var n :| 0 <= n < |visits| && Contains(visits[n], origin, direction, t);
        assert (visits + [b])[n] == visits[n];
      } else {
        assert (visits + [b])[|visits| - 1] == visits[|visits| - 1];
      }
    }
  }

  /** A step that the forward check has to intervene in. */
  predicate IsForced(m: Move, a: Visit) {
    m.CallStep? && a.next <= a.tmin
  }

  /** A move from block to block: an update changes the size, and a step goes on to the next time. */
  ghost predicate IsMove(m: Move, a: Visit, b: Visit) {
    match m
    case CallUpdate(dim) => b.dim == dim && b.tmin == a.tmin
    case CallStep => b.dim == a.dim && b.tmin == if a.next > a.tmin then a.next else a.tmin + (a.next + 1.0) * 0.000001
  }

  /** The blocks visited by some moves, and whether one of these was forced. */
  ghost predicate IsTour(moves: seq<Move>, visits: seq<Visit>, forced: bool) {
    && |visits| == |moves| + 1
    && (forall n | 0 <= n < |moves| :: IsMove(moves[n], visits[n], visits[n + 1]))
    && (forced <==> exists n | 0 <= n < |moves| :: IsForced(moves[n], visits[n]))
  }

  lemma TourOn(moves: seq<Move>, visits: seq<Visit>, forced: bool, m: Move, b: Visit)
    requires IsTour(moves, visits, forced) && IsMove(m, visits[|moves|], b)
    ensures IsTour(moves + [m], visits + [b], forced || IsForced(m, visits[|moves|]))
  {
    var moves', visits' := moves + [m], visits + [b];
    forall n | 0 <= n < |moves'| ensures IsMove(moves'[n], visits'[n], visits'[n + 1]) {
      if n < |moves| {
        assert IsMove(moves[n], visits[n], visits[n + 1]);
      }
    }
    assert forall n | 0 <= n < |moves| :: IsForced(moves'[n], visits'[n]) <==> IsForced(moves[n], visits[n]);
    assert IsForced(moves'[|moves|], visits'[|moves|]) <==> IsForced(m, visits[|moves|]);
    if forced {
      var n :| 0 <= n < |moves| && IsForced(moves[n], visits[n]);
      assert IsForced(moves'[n], visits'[n]);
    }
  }

  /** One move of a run. */
  method Go(hdda: HddaState, m: Move, origin: seq<real>, direction: seq<real>)
    requires |origin| == 3 && |direction| == 3 && (m.CallUpdate? ==> IsPow2(m.dim))
    requires hdda.Aligned() && hdda.Follows(direction)
    modifies hdda
    ensures hdda.Aligned() && hdda.Follows(direction) && IsMove(m, old(hdda.Here()), hdda.Here())
    ensures old(hdda.OnRay(origin, direction)) && !IsForced(m, old(hdda.Here())) ==>
              && hdda.OnRay(origin, direction) && old(hdda.tmin) <= hdda.tmin
              && StaysIn(old(hdda.Here()), origin, direction, old(hdda.tmin), hdda.tmin)
  {
    if hdda.OnRay(origin, direction) && !IsForced(m, hdda.Here()) {
      var k := hdda.Chosen();
      StaysUntil(hdda.axes, k, hdda.Here(), hdda.tmin, origin, direction,
                 if m.CallStep? then hdda.axes[k].next else hdda.tmin);
    }
    match m {
      case CallUpdate(dim) => var _ := hdda.Update(origin, direction, dim);
      case CallStep => var _ := hdda.Step();
    }
  }

  /** From init on, any run of updates and steps keeps the block aligned; and in exact arithmetic,
      as long as the forward check never intervenes, the block is on the ray, time never goes
      back, and no part of the ray up to then is outside all blocks visited. */
  method Run(origin: seq<real>, tmin: real, direction: seq<real>, tmax: real, dim: nat, moves: seq<Move>)
    returns (hdda: HddaState, forced: bool, visits: seq<Visit>)
    requires |origin| == 3 && |direction| == 3 && IsPow2(dim)
    requires forall m | m in moves && m.CallUpdate? :: IsPow2(m.dim)
    ensures fresh(hdda) && hdda.Aligned() && hdda.Follows(direction)
    ensures IsTour(moves, visits, forced)
    ensures visits[0].dim == dim && visits[0].tmin == tmin && visits[|moves|] == hdda.Here()
    ensures !forced ==> hdda.OnRay(origin, direction) && tmin <= hdda.tmin
    ensures !forced ==> Covers(visits, origin, direction, tmin, hdda.tmin)
  {
    hdda := new HddaState(origin, tmin, direction, tmax, dim);
    forced, visits := false, [hdda.Here()];
    StaysUntil(hdda.axes, 0, hdda.Here(), tmin, origin, direction, tmin);
    assert Contains(visits[0], origin, direction, tmin);
    for n := 0 to |moves|
      invariant fresh(hdda) && hdda.Aligned() && hdda.Follows(direction)
      invariant IsTour(moves[..n], visits, forced)
      invariant visits[0].dim == dim && visits[0].tmin == tmin && visits[n] == hdda.Here()
      invariant !forced ==> hdda.OnRay(origin, direction) && tmin <= hdda.tmin
      invariant !forced ==> Covers(visits, origin, direction, tmin, hdda.tmin)
    {
      assert moves[n] in moves && moves[..n + 1] == moves[..n] + [moves[n]];
      ghost var before := hdda.tmin;
      Go(hdda, moves[n], origin, direction);
      TourOn(moves[..n], visits, forced, moves[n], hdda.Here());
      forced := forced || IsForced(moves[n], visits[n]);
      if !forced {
        CoversOn(visits, hdda.Here(), origin, direction, tmin, before, hdda.tmin);
      }
      visits := visits + [hdda.Here()];
    }
    assert moves[..|moves|] == moves;
  }
}
