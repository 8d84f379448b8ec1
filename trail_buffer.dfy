/**
 * The pointer-trail buffer of the animated hero background (class
 * `TouchTexture` of liquid-gradient.js): a list of trail points, each with a
 * position, an integer age, a unit direction and a capped force, plus the last
 * raw pointer position.  Pointer moves append points (`AddTouch`); every frame
 * ages and moves every point and drops the ones older than `MaxAge` (`Update`).
 */
module TrailBuffer {
  import opened Wrappers
  import opened RealArith

  /** A point is removed once its age exceeds this many frames. */
  const MaxAge: int := 64
  /** Base migration speed per frame, `1 / maxAge`. */
  const Speed: real := 1.0 / 64.0
  /** Squared distance is scaled by this before the force is capped. */
  const ForceScale: real := 20000.0
  /** Largest force a point can carry. */
  const MaxForce: real := 2.0

  /** A normalised pointer position, origin bottom-left. */
  datatype Pos = Pos(x: real, y: real)

  /** One trail point: position, age in frames, force and direction of motion. */
  datatype Point = Point(x: real, y: real, age: int, force: real, vx: real, vy: real)

  /** The state of the buffer as a value: the trail and the last pointer position. */
  datatype Trail = Trail(points: seq<Point>, last: Option<Pos>)

  /**
   * Force deposited for a move of squared length `dd`: `Math.min(dd * 20000, 2.0)`.
   */
  function Force(dd: real): (f: real)
    ensures dd >= 0.0 ==> 0.0 <= f <= MaxForce
    ensures dd > 0.0 ==> f > 0.0
    ensures f == MaxForce <==> dd * ForceScale >= MaxForce
    ensures f <= dd * ForceScale
  {
    if dd * ForceScale < MaxForce then dd * ForceScale else MaxForce
  }

  /** More movement never gives less force, up to the cap. */
  lemma ForceMonotone(dd1: real, dd2: real)
    requires dd1 <= dd2
    ensures Force(dd1) <= Force(dd2)
  {
  }

  /** `d` is the length of a vector whose squared length is `dd` (what `Math.sqrt` returns). */
  predicate IsLength(d: real, dd: real) {
    d >= 0.0 && Sq(d) == dd
  }

  /** Squared distance between two positions. */
  function SqDist(p: Pos, q: Pos): real {
    Sq(p.x - q.x) + Sq(p.y - q.y)
  }

  /** Two different positions are a positive squared distance apart. */
  lemma SqDistPositive(p: Pos, q: Pos)
    requires p != q
    ensures SqDist(p, q) > 0.0
  {
    SqSign(p.x - q.x);
    SqSign(p.y - q.y);
  }

  /** The caller supplied the length of the move whenever `Touch` needs a direction. */
  predicate LengthSupplied(t: Trail, p: Pos, d: real) {
    t.last.Some? && p != t.last.value ==> IsLength(d, SqDist(p, t.last.value))
  }

  /**
   * Dividing a non-zero move by its length gives a unit vector pointing the
   * same way as the move.
   */
  lemma UnitDirection(dx: real, dy: real, d: real)
    requires (dx != 0.0 || dy != 0.0) && IsLength(d, Sq(dx) + Sq(dy))
    ensures d > 0.0
    ensures (dx / d) * d == dx && (dy / d) * d == dy
    ensures Sq(dx / d) + Sq(dy / d) == 1.0
  {
    SqSign(dx);
    SqSign(dy);
    SqSign(d);
    SqQuotient(dx, d);
    SqQuotient(dy, d);
    CancelSum(Sq(dx / d), Sq(dy / d), Sq(d), Sq(dx), Sq(dy));
  }

  /** The new point created by a move from `last` to `p`, whose length is `d`. */
  function Deposit(last: Pos, p: Pos, d: real): (q: Point)
    requires p != last && IsLength(d, SqDist(p, last))
    ensures q.x == p.x && q.y == p.y && q.age == 0
    ensures 0.0 < q.force <= MaxForce
    ensures q.vx * d == p.x - last.x && q.vy * d == p.y - last.y
    ensures Sq(q.vx) + Sq(q.vy) == 1.0
  {
    var dx := p.x - last.x;
    var dy := p.y - last.y;
    SqDistPositive(p, last);
    UnitDirection(dx, dy, d);
    Point(p.x, p.y, 0, Force(SqDist(p, last)), dx / d, dy / d)
  }

  /**
   * `addTouch(p)`: the first touch appends a force-0, direction-0 point; a
   * touch at exactly the last position does nothing; any other touch appends
   * one point carrying the direction and capped force of the move.  In both
   * appending cases `last` becomes `p`.
   */
  function Touch(t: Trail, p: Pos, d: real): (r: Trail)
    requires LengthSupplied(t, p, d)
    ensures t.last.None? ==>
      r.points == t.points + [Point(p.x, p.y, 0, 0.0, 0.0, 0.0)] && r.last == Some(p)
    ensures t.last == Some(p) ==> r == t
    ensures t.last.Some? && t.last.value != p ==>
      && |r.points| == |t.points| + 1
      && r.points[..|t.points|] == t.points
      && r.points[|t.points|].x == p.x && r.points[|t.points|].y == p.y
      && r.points[|t.points|].age == 0
      && 0.0 < r.points[|t.points|].force <= MaxForce
      && r.points[|t.points|].force == Force(SqDist(p, t.last.value))
      && r.points[|t.points|].vx * d == p.x - t.last.value.x
      && r.points[|t.points|].vy * d == p.y - t.last.value.y
      && Sq(r.points[|t.points|].vx) + Sq(r.points[|t.points|].vy) == 1.0
      && r.last == Some(p)
  {
    match t.last
    case None => Trail(t.points + [Point(p.x, p.y, 0, 0.0, 0.0, 0.0)], Some(p))
    case Some(last) =>
      if p.x - last.x == 0.0 && p.y - last.y == 0.0 then t
      else
        var q := Deposit(last, p, d);
        assert (t.points + [q])[..|t.points|] == t.points;
        Trail(t.points + [q], Some(p))
  }

  /** Touching twice at the same position creates no point the second time. */
  lemma TouchRepeatIsNoOp(t: Trail, p: Pos, d: real, d': real)
    requires LengthSupplied(t, p, d)
    ensures LengthSupplied(Touch(t, p, d), p, d')
    ensures Touch(Touch(t, p, d), p, d') == Touch(t, p, d)
  {
  }

  /** The per-frame migration factor of a point: `force * speed * (1 - age / maxAge)`. */
  function StepFactor(p: Point): (f: real)
    ensures p.force == 0.0 || p.age == MaxAge ==> f == 0.0
    ensures 0.0 <= p.force && p.age <= MaxAge ==> 0.0 <= f
  {
    var c := p.force * Speed;
    var a := 1.0 - (p.age as real) / (MaxAge as real);
    if 0.0 <= p.force && p.age <= MaxAge then
      MulNonNegative(c, a, c * a);
      c * a
    else
      c * a
  }

  /** One frame of a single point: move along its direction by `StepFactor`, then age by one. */
  function Aged(p: Point): (q: Point)
    ensures q.age == p.age + 1
    ensures q.force == p.force && q.vx == p.vx && q.vy == p.vy
    ensures (q.x - p.x) * p.vy == (q.y - p.y) * p.vx
    ensures 0.0 <= p.force && p.age <= MaxAge && 0.0 <= p.vx ==> p.x <= q.x
  {
    var f := StepFactor(p);
    var q := Point(p.x + p.vx * f, p.y + p.vy * f, p.age + 1, p.force, p.vx, p.vy);
    if 0.0 <= p.force && p.age <= MaxAge && 0.0 <= p.vx then
      MulNonNegative(p.vx, f, p.vx * f);
      q
    else
      q
  }

  /**
   * The migration factor lies in [0, force/64] for a live point, is 0 at
   * age `MaxAge`, and shrinks as the point ages.
   */
  lemma StepFactorBounds(p: Point)
    requires 0 <= p.age <= MaxAge && 0.0 <= p.force
    ensures 0.0 <= StepFactor(p) <= p.force * Speed
    ensures p.age == MaxAge ==> StepFactor(p) == 0.0
    ensures p.age < MaxAge ==> StepFactor(Aged(p)) <= StepFactor(p)
  {
    var a := (p.age as real) / (MaxAge as real);
    var c := p.force * Speed;
    assert 0.0 <= a <= 1.0;
    assert 0.0 <= c;
    assert StepFactor(p) == c * (1.0 - a);
    MulNonNegative(c, 1.0 - a, c * (1.0 - a));
    MulNonNegative(c, a, c * a);
    if p.age < MaxAge {
      var b := ((p.age + 1) as real) / (MaxAge as real);
      assert a <= b;
      assert StepFactor(Aged(p)) == (p.force * Speed) * (1.0 - b);
    }
  }

  /** A point deposited with force 0 (the first touch) never moves. */
  lemma ZeroForceNeverMoves(p: Point)
    requires p.force == 0.0
    ensures Aged(p).x == p.x && Aged(p).y == p.y
    ensures Aged(p).force == 0.0
  {
  }

  /**
   * `update()`: every point is aged by one frame and the ones whose new age
   * exceeds `MaxAge` are dropped; the survivors keep their relative order.
   */
  function Advance(s: seq<Point>): (r: seq<Point>)
    ensures |r| <= |s|
    ensures forall k :: 0 <= k < |r| ==> r[k].age <= MaxAge
    ensures (forall k :: 0 <= k < |s| ==> s[k].age >= 0) ==>
      forall k :: 0 <= k < |r| ==> 1 <= r[k].age
  {
    if s == [] then []
    else
      var q := Aged(s[0]);
      var rest := Advance(s[1..]);
      assert forall k :: 1 <= k < |s| ==> s[1..][k - 1] == s[k];
      if q.age > MaxAge then rest else [q] + rest
  }

  /** The indices, in increasing order, of the points of `s[i..]` that survive a frame. */
  function SurvivorIndices(s: seq<Point>, i: nat): seq<nat>
    requires i <= |s|
    decreases |s| - i
  {
    if i == |s| then []
    else if s[i].age + 1 > MaxAge then SurvivorIndices(s, i + 1)
    else [i] + SurvivorIndices(s, i + 1)
  }

  /** `idx` lists indices in strictly increasing order. */
  ghost predicate Increasing(idx: seq<nat>) {
    forall k, l :: 0 <= k < l < |idx| ==> idx[k] < idx[l]
  }

  /** `r` holds, in order, the aged copies of the points of `s` at the indices `idx`. */
  ghost predicate Picks(r: seq<Point>, s: seq<Point>, idx: seq<nat>) {
    && |r| == |idx|
    && forall k :: 0 <= k < |idx| ==> idx[k] < |s| && r[k] == Aged(s[idx[k]])
  }

  /** `idx` holds exactly the indices from `i` on of the points that survive a frame. */
  ghost predicate ExactlySurvivors(s: seq<Point>, i: nat, idx: seq<nat>) {
    && (forall k :: 0 <= k < |idx| ==> i <= idx[k] < |s|)
    && (forall j :: i <= j < |s| ==> (j in idx <==> s[j].age + 1 <= MaxAge))
  }

  /** The survivor indices are the right ones, in increasing order. */
  lemma {:induction false} SurvivorIndicesCorrect(s: seq<Point>, i: nat)
    requires i <= |s|
    ensures Increasing(SurvivorIndices(s, i))
    ensures ExactlySurvivors(s, i, SurvivorIndices(s, i))
    decreases |s| - i
  {
    if i < |s| {
      SurvivorIndicesCorrect(s, i + 1);
      var idx, idx' := SurvivorIndices(s, i), SurvivorIndices(s, i + 1);
      if s[i].age + 1 <= MaxAge {
        assert idx == [i] + idx';
        assert forall k :: 0 < k < |idx| ==> idx[k] == idx'[k - 1];
        assert forall j :: i < j < |s| ==> (j in idx <==> j in idx');
      }
    }
  }

  /** `Advance(s[i..])` is made of the aged survivors of `s[i..]`, in their original order. */
  lemma {:induction false} AdvancePicksSurvivors(s: seq<Point>, i: nat)
    requires i <= |s|
    ensures Picks(Advance(s[i..]), s, SurvivorIndices(s, i))
    decreases |s| - i
  {
    if i < |s| {
      AdvancePicksSurvivors(s, i + 1);
      var idx, idx' := SurvivorIndices(s, i), SurvivorIndices(s, i + 1);
      var tail := Advance(s[i + 1..]);
      assert s[i..][1..] == s[i + 1..];
      assert s[i..][0] == s[i];
      if s[i].age + 1 > MaxAge {
        assert Advance(s[i..]) == tail;
      } else {
        assert Advance(s[i..]) == [Aged(s[i])] + tail;
        assert idx == [i] + idx';
      }
    }
  }

  /**
   * `update` removes exactly the points whose new age exceeds `MaxAge`: the
   * result is the aged copies of the other points, in their original order.
   */
  lemma AdvanceRemovesExactlyExpired(s: seq<Point>)
    ensures var idx := SurvivorIndices(s, 0);
      && Picks(Advance(s), s, idx)
      && Increasing(idx)
      && (forall j :: 0 <= j < |s| ==> (j in idx <==> s[j].age < MaxAge))
  {
    AdvancePicksSurvivors(s, 0);
    SurvivorIndicesCorrect(s, 0);
    assert s[0..] == s;
  }

  /** The frame-by-frame evolution of a trail that receives no further input. */
  function AdvanceN(s: seq<Point>, n: nat): seq<Point>
    decreases n
  {
    if n == 0 then s else AdvanceN(Advance(s), n - 1)
  }

  /** One frame raises the age of every surviving point by one. */
  lemma {:induction false} AdvanceRaisesAges(s: seq<Point>, m: int)
    requires forall k :: 0 <= k < |s| ==> s[k].age >= m
    ensures forall k :: 0 <= k < |Advance(s)| ==> Advance(s)[k].age >= m + 1
  {
    AdvanceRemovesExactlyExpired(s);
  }

  /** After `n` input-free frames every remaining point is at least `n` frames older. */
  lemma {:induction false} AdvanceNAges(s: seq<Point>, n: nat, m: int)
    requires forall k :: 0 <= k < |s| ==> s[k].age >= m
    ensures forall k :: 0 <= k < |AdvanceN(s, n)| ==> AdvanceN(s, n)[k].age >= m + n
    decreases n
  {
    if n > 0 {
      AdvanceRaisesAges(s, m);
      AdvanceNAges(Advance(s), n - 1, m + 1);
    }
  }

  /** With no further input the trail is empty after `MaxAge + 1` frames. */
  lemma TrailEmptiesAfterMaxAgePlusOne(s: seq<Point>)
    requires forall k :: 0 <= k < |s| ==> s[k].age >= 0
    ensures AdvanceN(s, MaxAge + 1) == []
  {
    AdvanceNAges(s, MaxAge, 0);
    var r := AdvanceN(s, MaxAge);
    assert AdvanceN(s, MaxAge + 1) == AdvanceN(Advance(s), MaxAge);
    AdvanceNShift(s, MaxAge);
    assert AdvanceN(s, MaxAge + 1) == Advance(r);
    if Advance(r) != [] {
      assert Advance(r)[0].age <= MaxAge;
      AdvanceRaisesAges(r, MaxAge);
    }
  }

  /** Taking one more frame at the end is the same as one more frame at the start. */
  lemma {:induction false} AdvanceNShift(s: seq<Point>, n: nat)
    ensures AdvanceN(s, n + 1) == Advance(AdvanceN(s, n))
    decreases n
  {
    if n > 0 {
      AdvanceNShift(Advance(s), n - 1);
    }
  }

  /**
   * A single point of age `a` lives exactly `MaxAge - a` more frames: it is
   * still there, `k` frames older, while its age stays within `MaxAge`, and
   * one frame later it is gone.
   */
  lemma {:induction false} PointLifetime(p: Point, k: nat)
    requires 0 <= p.age && p.age + k <= MaxAge
    ensures |AdvanceN([p], k)| == 1 && AdvanceN([p], k)[0].age == p.age + k
    ensures p.age + k == MaxAge ==> AdvanceN([p], k + 1) == []
    decreases k
  {
    if k > 0 {
      assert Advance([p]) == [Aged(p)];
      PointLifetime(Aged(p), k - 1);
    } else {
      assert [p][1..] == [];
    }
    if p.age + k == MaxAge {
      AdvanceNShift([p], k);
      var r := AdvanceN([p], k);
      assert r == [r[0]];
      assert r[1..] == [];
    }
  }

  /** Points are kept oldest first: ages never increase along the trail. */
  ghost predicate OldestFirst(s: seq<Point>) {
    forall i, j :: 0 <= i < j < |s| ==> s[i].age >= s[j].age
  }

  /** A frame keeps the trail oldest first. */
  lemma AdvanceKeepsOldestFirst(s: seq<Point>)
    requires OldestFirst(s)
    ensures OldestFirst(Advance(s))
  {
    AdvanceRemovesExactlyExpired(s);
  }

  /** The per-point invariant: age within the lifetime, force within the cap, and a unit or zero direction. */
  ghost predicate WellFormed(q: Point) {
    && 0 <= q.age <= MaxAge
    && ((q.force == 0.0 && q.vx == 0.0 && q.vy == 0.0)
        || (0.0 < q.force <= MaxForce && Sq(q.vx) + Sq(q.vy) == 1.0))
  }

  /** The whole-buffer invariant. */
  ghost predicate TrailValid(t: Trail) {
    && (forall k :: 0 <= k < |t.points| ==> WellFormed(t.points[k]))
    && OldestFirst(t.points)
    && (t.last.None? ==> t.points == [])
  }

  /** A touch keeps the buffer invariant. */
  lemma TouchKeepsValid(t: Trail, p: Pos, d: real)
    requires TrailValid(t) && LengthSupplied(t, p, d)
    ensures TrailValid(Touch(t, p, d))
  {
    var r := Touch(t, p, d);
    if r != t {
      assert r.points == t.points + [r.points[|t.points|]];
    }
  }

  /** A frame keeps the buffer invariant. */
  lemma AdvanceKeepsValid(t: Trail)
    requires TrailValid(t)
    ensures TrailValid(Trail(Advance(t.points), t.last))
  {
    AdvanceRemovesExactlyExpired(t.points);
    AdvanceKeepsOldestFirst(t.points);
  }

  /** Age, in frames, at which the stamp intensity stops rising: `maxAge * 0.3`. */
  const EaseInEnd: real := 0.3 * (MaxAge as real)
  /** Number of frames over which the intensity falls back to zero: `maxAge * 0.7`. */
  const FadeSpan: real := 0.7 * (MaxAge as real)

  /** The falling branch of the stamp envelope: `-t * (t - 2)` with `t = 1 - (age - 0.3 maxAge) / (0.7 maxAge)`. */
  function EaseOut(age: int): (e: real)
    ensures e <= 1.0
    ensures age == MaxAge ==> e == 0.0
  {
    var u := ((age as real) - EaseInEnd) / FadeSpan;
    var t := 1.0 - u;
    FallingBranch(u);
    SqSign(u);
    assert age == MaxAge ==> u == 1.0;
    -t * (t - 2.0)
  }

  /**
   * Stamp intensity of a point as drawn into the raster: the envelope of its
   * age times its force.  `easeIn` is the value of the quarter-sine rise,
   * `Math.sin(age / (0.3 maxAge) * PI / 2)`, used for young points.
   */
  function Intensity(p: Point, easeIn: real): (i: real)
    ensures p.force == 0.0 ==> i == 0.0
    ensures p.age == MaxAge ==> i == 0.0
    ensures (p.age as real) < EaseInEnd ==> i == easeIn * p.force
  {
    (if (p.age as real) < EaseInEnd then easeIn else EaseOut(p.age)) * p.force
  }

  /** The falling branch is one minus the square of the fraction of the fade already done. */
  lemma EaseOutAsSquare(age: int)
    ensures EaseOut(age) == 1.0 - Sq(((age as real) - EaseInEnd) / FadeSpan)
  {
    FallingBranch(((age as real) - EaseInEnd) / FadeSpan);
  }

  /** `-t * (t - 2)` with `t = 1 - u` is `1 - u^2`. */
  lemma FallingBranch(u: real)
    ensures -(1.0 - u) * ((1.0 - u) - 2.0) == 1.0 - Sq(u)
  {
    calc {
      -(1.0 - u) * ((1.0 - u) - 2.0);
      (1.0 - u) * (1.0 + u);
      1.0 - u * u;
    }
  }

  /**
   * Over the falling part of a point's life the envelope lies in [0, 1], is
   * 0 exactly at `MaxAge`, and never rises as the point ages.
   */
  lemma EaseOutShape(age: int, older: int)
    requires EaseInEnd <= age as real && age <= older <= MaxAge
    ensures 0.0 <= EaseOut(age) <= 1.0
    ensures EaseOut(MaxAge) == 0.0
    ensures EaseOut(older) <= EaseOut(age)
  {
    var u := ((age as real) - EaseInEnd) / FadeSpan;
    var v := ((older as real) - EaseInEnd) / FadeSpan;
    assert 0.0 <= u <= v <= 1.0;
    EaseOutAsSquare(age);
    EaseOutAsSquare(older);
    EaseOutAsSquare(MaxAge);
    SqSign(u);
    SqMonotone(u, v);
    SqMonotone(v, 1.0);
    assert ((MaxAge as real) - EaseInEnd) / FadeSpan == 1.0;
  }

  /**
   * A drawn point of the invariant's shape stamps an intensity between 0 and
   * its force (so at most 2), and a point at `MaxAge` stamps nothing.
   */
  lemma IntensityWithinForce(p: Point, easeIn: real)
    requires WellFormed(p) && 0.0 <= easeIn <= 1.0
    ensures 0.0 <= Intensity(p, easeIn) <= p.force <= MaxForce
    ensures p.age == MaxAge ==> Intensity(p, easeIn) == 0.0
  {
    var e := if (p.age as real) < EaseInEnd then easeIn else EaseOut(p.age);
    if EaseInEnd <= p.age as real {
      EaseOutShape(p.age, MaxAge);
    }
    ScaleWithin(e, p.force, Intensity(p, easeIn));
  }

  /** `s` in reverse order. */
  function Reversed(s: seq<Point>): (r: seq<Point>)
    ensures |r| == |s|
    ensures forall k :: 0 <= k < |s| ==> r[k] == s[|s| - 1 - k]
  {
    if s == [] then [] else Reversed(s[1..]) + [s[0]]
  }
}
