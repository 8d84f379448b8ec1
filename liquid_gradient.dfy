/**
 * The stateful objects of the animated hero background (liquid-gradient.js):
 * the pointer-trail buffer `TouchTexture`, the time uniform of
 * `GradientBackground`, and the input filter and frame step of `App`.
 * Their behaviour is specified by the value-level functions of `TrailBuffer`.
 */
module LiquidGradient {
  import opened Wrappers
  import opened RealArith
  import opened TrailBuffer

  /** The trail buffer: the live trail points and the last pointer position. */
  class TouchTexture {
    var trail: seq<Point>
    var last: Option<Pos>

    /** A fresh buffer holds no point and no last position. */
    constructor ()
      ensures trail == [] && last == None
    {
      trail := [];
      last := None;
    }

    /** The buffer as a value. */
    function State(): Trail
      reads this
    {
      Trail(trail, last)
    }

    /** The buffer invariant: every point well formed, oldest first, no point before the first touch. */
    ghost predicate Valid()
      reads this
    {
      TrailValid(State())
    }

    /**
     * `addTouch(point)`.  `d` stands for `Math.sqrt(dd)`: it must be the
     * length of the move whenever a direction is computed.
     */
    method AddTouch(p: Pos, d: real)
      requires LengthSupplied(State(), p, d)
      modifies this
      ensures State() == Touch(old(State()), p, d)
      ensures old(Valid()) ==> Valid()
    {
      ghost var before := State();
      var force, vx, vy := 0.0, 0.0, 0.0;
      if last.Some? {
        var dx := p.x - last.value.x;
        var dy := p.y - last.value.y;
        if dx == 0.0 && dy == 0.0 {
          return;
        }
        var dd := Sq(dx) + Sq(dy);
        UnitDirection(dx, dy, d);
        vx := dx / d;
        vy := dy / d;
        force := Force(dd);
      }
      last := Some(p);
      trail := trail + [Point(p.x, p.y, 0, force, vx, vy)];
      if old(Valid()) {
        TouchKeepsValid(before, p, d);
      }
    }

    /**
     * `update()`: walks the trail from the newest point to the oldest, moves
     * and ages each point, splices out the ones older than `MaxAge` and
     * draws the others.  `drawn` lists the points drawn, in drawing order.
     */
    method Update() returns (drawn: seq<Point>)
      modifies this
      ensures trail == Advance(old(trail)) && last == old(last)
      ensures drawn == Reversed(trail)
      ensures old(Valid()) ==> Valid()
    {
      ghost var s := trail;
      drawn := [];
      var i := |trail| - 1;
      while i >= 0
        invariant -1 <= i < |s|
        invariant last == old(last)
        invariant trail == s[..i + 1] + Advance(s[i + 1..])
        invariant drawn == Reversed(Advance(s[i + 1..]))
        decreases i
      {
        var point := trail[i];
        UpdateStep(s, i);
        var q := Aged(point);
        if q.age > MaxAge {
          trail := trail[..i] + trail[i + 1..];
        } else {
          trail := trail[i := q];
          drawn := drawn + [q];
        }
        i := i - 1;
      }
      assert s[0..] == s;
      if old(Valid()) {
        AdvanceKeepsValid(Trail(s, last));
      }
    }
  }

  /**
   * One step of the backward walk of `update()` at index `i`: the trail
   * `s[..i + 1] + Advance(s[i + 1..])` becomes `s[..i] + Advance(s[i..])`,
   * by splicing out index `i` or by replacing it with its aged copy.
   */
  lemma UpdateStep(s: seq<Point>, i: int)
    requires 0 <= i < |s|
    ensures var t, rest := s[..i + 1] + Advance(s[i + 1..]), Advance(s[i + 1..]);
      && t[i] == s[i]
      && (Aged(s[i]).age > MaxAge ==>
            t[..i] + t[i + 1..] == s[..i] + Advance(s[i..]) && Advance(s[i..]) == rest)
      && (Aged(s[i]).age <= MaxAge ==>
            && t[i := Aged(s[i])] == s[..i] + Advance(s[i..])
            && Advance(s[i..]) == [Aged(s[i])] + rest
            && Reversed(Advance(s[i..])) == Reversed(rest) + [Aged(s[i])])
  {
    var rest := Advance(s[i + 1..]);
    var t := s[..i + 1] + rest;
    var q := Aged(s[i]);
    assert s[i..][0] == s[i] && s[i..][1..] == s[i + 1..];
    assert Advance(s[i..]) == if q.age > MaxAge then rest else [q] + rest;
    assert t[..i] == s[..i];
    assert t[i + 1..] == rest;
    if q.age <= MaxAge {
      assert t[i := q] == s[..i] + ([q] + rest);
      assert ([q] + rest)[1..] == rest;
      assert Reversed([q] + rest) == Reversed(rest) + [q];
    }
  }

  /** The part of `GradientBackground` that changes per frame and per resize. */
  class GradientBackground {
    /** The `uTime` uniform: seconds of animation accumulated so far. */
    var time: real
    /** The `uResolution` uniform. */
    var width: real
    var height: real

    /** The uniforms start at time 0 with the window size as resolution. */
    constructor (innerWidth: real, innerHeight: real)
      ensures time == 0.0 && width == innerWidth && height == innerHeight
    {
      time := 0.0;
      width := innerWidth;
      height := innerHeight;
    }

    /** `update(delta)`: the time uniform advances by exactly `delta`. */
    method Update(delta: real)
      modifies this
      ensures time == old(time) + delta
      ensures width == old(width) && height == old(height)
      ensures delta >= 0.0 ==> time >= old(time)
    {
      time := time + delta;
    }

    /** `onResize(width, height)`: only the resolution changes, never the time. */
    method OnResize(newWidth: real, newHeight: real)
      modifies this
      ensures width == newWidth && height == newHeight
      ensures time == old(time)
    {
      width := newWidth;
      height := newHeight;
    }
  }

  /** The container's bounding client rectangle. */
  datatype Rect = Rect(left: real, top: real, width: real, height: real)

  /**
   * The input filter of `onMouseMove`: the pointer, taken relative to the
   * container, is forwarded only when it lies inside the rectangle (borders
   * included), scaled to [0, 1] with the y axis flipped to point up.
   */
  function Normalise(clientX: real, clientY: real, rect: Rect): (r: Option<Pos>)
    requires rect.width > 0.0 && rect.height > 0.0
    ensures r.Some? <==>
      0.0 <= clientX - rect.left <= rect.width && 0.0 <= clientY - rect.top <= rect.height
    ensures r.Some? ==> 0.0 <= r.value.x <= 1.0 && 0.0 <= r.value.y <= 1.0
    ensures r.Some? ==> r.value.x * rect.width == clientX - rect.left
    ensures r.Some? ==> (1.0 - r.value.y) * rect.height == clientY - rect.top
  {
    var x := clientX - rect.left;
    var y := clientY - rect.top;
    if 0.0 <= x <= rect.width && 0.0 <= y <= rect.height then
      UnitFraction(x, rect.width);
      UnitFraction(y, rect.height);
      Some(Pos(x / rect.width, 1.0 - y / rect.height))
    else
      None
  }

  /** A part of a positive whole is a fraction in [0, 1] of it. */
  lemma UnitFraction(x: real, w: real)
    requires 0.0 <= x <= w && w > 0.0
    ensures 0.0 <= x / w <= 1.0 && (x / w) * w == x
  {
    assert (x / w) * w == x;
    assert 0.0 <= x / w;
    assert (w - x) / w >= 0.0;
    CancelSum(x / w, (w - x) / w, w, x, w - x);
  }

  /** The application: the trail buffer, the gradient uniforms and the last forwarded pointer. */
  class App {
    const touchTexture: TouchTexture
    const gradientBackground: GradientBackground
    var mouse: Option<Pos>

    /** Wires up a fresh trail buffer and fresh uniforms. */
    constructor (innerWidth: real, innerHeight: real)
      ensures fresh(touchTexture) && fresh(gradientBackground)
      ensures touchTexture.trail == [] && touchTexture.last == None
      ensures gradientBackground.time == 0.0 && mouse == None
    {
      touchTexture := new TouchTexture();
      gradientBackground := new GradientBackground(innerWidth, innerHeight);
      mouse := None;
    }

    /**
     * `onMouseMove(ev)`: a pointer inside the container is normalised,
     * remembered and added to the trail; one outside changes nothing.
     */
    method OnMouseMove(clientX: real, clientY: real, rect: Rect, d: real)
      requires rect.width > 0.0 && rect.height > 0.0
      requires Normalise(clientX, clientY, rect).Some? ==>
        LengthSupplied(touchTexture.State(), Normalise(clientX, clientY, rect).value, d)
      modifies this, touchTexture
      ensures Normalise(clientX, clientY, rect).None? ==>
        mouse == old(mouse) && touchTexture.State() == old(touchTexture.State())
      ensures Normalise(clientX, clientY, rect).Some? ==>
        && mouse == Normalise(clientX, clientY, rect)
        && touchTexture.State() == Touch(old(touchTexture.State()), mouse.value, d)
    {
      var x := clientX - rect.left;
      var y := clientY - rect.top;
      if x >= 0.0 && x <= rect.width && y >= 0.0 && y <= rect.height {
        mouse := Some(Pos(x / rect.width, 1.0 - y / rect.height));
        touchTexture.AddTouch(mouse.value, d);
      }
    }

    /** `update(delta)`: one frame of the trail buffer, then of the time uniform. */
    method Update(delta: real)
      modifies touchTexture, gradientBackground
      ensures touchTexture.trail == Advance(old(touchTexture.trail))
      ensures touchTexture.last == old(touchTexture.last)
      ensures gradientBackground.time == old(gradientBackground.time) + delta
      ensures gradientBackground.width == old(gradientBackground.width)
      ensures gradientBackground.height == old(gradientBackground.height)
      ensures old(touchTexture.Valid()) ==> touchTexture.Valid()
    {
      var _ := touchTexture.Update();
      gradientBackground.Update(delta);
    }
  }
}
