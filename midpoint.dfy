/** The circle algorithm both drawing classes run: a sweep over the first
    octant (offsets (x, y) with x >= y >= 0) whose every offset is painted
    in its eight reflections about the center. Both `draw_circle` methods
    are proved to paint exactly `CircleOffsets(r)` around the center. */
module Midpoint {
  import opened Pixels

  /** A displacement from the circle's center. */
  datatype Offset = Offset(dx: int, dy: int)

  /** The loop variables of `draw_circle`. */
  datatype Sweep = Sweep(x: int, y: int, err: int)

  /** One pass of the loop body after the writes: `y += 1`,
      `err += 1 + 2*y`; then if `2*(err - x) + 1 > 0`, `x -= 1` and
      `err += 1 - 2*x` with the new `x`. It raises `y` by one and lowers
      `x` by at most one, so the loop `while x >= y` ends. */
  function Advance(s: Sweep): (n: Sweep)
    ensures n.y == s.y + 1
    ensures n.x == s.x || n.x == s.x - 1
  {
    var y := s.y + 1;
    var err := s.err + 1 + 2 * y;
    if 2 * (err - s.x) + 1 > 0 then
      Sweep(s.x - 1, y, err + 1 - 2 * (s.x - 1))
    else
      Sweep(s.x, y, err)
  }

  /** The offsets the loop visits from sweep state `s` on, while `x >= y`. */
  function SweepFrom(s: Sweep): seq<Offset>
    decreases if s.x < s.y then 0 else s.x - s.y + 1
  {
    if s.x < s.y then [] else [Offset(s.x, s.y)] + SweepFrom(Advance(s))
  }

  /** The first-octant offsets `draw_circle` visits for radius `r`,
      starting from `x = r, y = 0, err = 0`. */
  function Octant(r: int): seq<Offset> {
    SweepFrom(Sweep(r, 0, 0))
  }

  /** The loop variables after `k` iterations of the loop for radius `r`. */
  function SweepAt(r: int, k: nat): (s: Sweep)
    ensures s.y == k
  {
    if k == 0 then Sweep(r, 0, 0) else Advance(SweepAt(r, k - 1))
  }

  /** After `k` iterations the loop has `Octant(r)[k..]` still to visit. */
  lemma {:induction false} OctantFrom(r: int, k: nat)
    requires k <= |Octant(r)|
    ensures SweepFrom(SweepAt(r, k)) == Octant(r)[k..]
  {
    if k > 0 {
      OctantFrom(r, k - 1);
      var s := SweepAt(r, k - 1);
      assert SweepFrom(s) == [Offset(s.x, s.y)] + SweepFrom(SweepAt(r, k));
    }
  }

  /** While the test `x >= y` holds after `k` iterations, the k-th octant
      offset is `(x, y)`; once it fails, all `|Octant(r)|` offsets are done. */
  lemma OctantStep(r: int, k: nat)
    requires k <= |Octant(r)|
    ensures var s := SweepAt(r, k);
      && (s.x >= s.y ==> k < |Octant(r)| && Octant(r)[k] == Offset(s.x, s.y))
      && (s.x < s.y ==> k == |Octant(r)|)
  {
    OctantFrom(r, k);
  }

  /** The eight reflections `(±a, ±b)` and `(±b, ±a)` of an offset (a, b). */
  function Reflections(o: Offset): set<Offset> {
    {Offset(o.dx, o.dy), Offset(o.dy, o.dx), Offset(o.dy, -o.dx), Offset(o.dx, -o.dy),
     Offset(-o.dx, -o.dy), Offset(-o.dy, -o.dx), Offset(-o.dy, o.dx), Offset(-o.dx, o.dy)}
  }

  /** All reflections of a sequence of octant offsets. */
  function Ring(arc: seq<Offset>): set<Offset> {
    if arc == [] then {} else Ring(arc[..|arc| - 1]) + Reflections(arc[|arc| - 1])
  }

  /** The offsets painted in the first `k` iterations of the loop for
      radius `r`: the reflections of the offset (x, y) each one is at. */
  function Drawn(r: int, k: nat): set<Offset> {
    if k == 0 then {} else
      var s := SweepAt(r, k - 1);
      Drawn(r, k - 1) + Reflections(Offset(s.x, s.y))
  }

  /** The first `k` iterations paint the reflections of the first `k`
      octant offsets. */
  lemma {:induction false} DrawnRing(r: int, k: nat)
    requires k <= |Octant(r)|
    ensures Drawn(r, k) == Ring(Octant(r)[..k])
  {
    if k > 0 {
      DrawnRing(r, k - 1);
      OctantStep(r, k - 1);
      assert Octant(r)[..k][..k - 1] == Octant(r)[..k - 1];
    }
  }

  /** The offsets from the center that `draw_circle` paints for radius `r`. */
  function CircleOffsets(r: int): set<Offset> {
    Ring(Octant(r))
  }

  /** Once the loop test fails after `k` iterations, the loop has painted
      the whole circle. */
  lemma CircleDrawn(r: int, k: nat)
    requires k <= |Octant(r)| && SweepAt(r, k).x < SweepAt(r, k).y
    ensures Drawn(r, k) == CircleOffsets(r)
  {
    OctantStep(r, k);
    DrawnRing(r, k);
    assert Octant(r)[..k] == Octant(r);
  }

  /** The eight cells around `center` at the reflections of octant offset
      o = (x, y), in the order the final version writes them:
      (x, y), (y, x), (y, -x), (x, -y), (-x, -y), (-y, -x), (-y, x), (-x, y). */
  function Reflected(center: Point, o: Offset): (cells: seq<Point>)
    ensures |cells| == 8
  {
    [Point(center.x + o.dx, center.y + o.dy), Point(center.x + o.dy, center.y + o.dx),
     Point(center.x + o.dy, center.y - o.dx), Point(center.x + o.dx, center.y - o.dy),
     Point(center.x - o.dx, center.y - o.dy), Point(center.x - o.dy, center.y - o.dx),
     Point(center.x - o.dy, center.y + o.dx), Point(center.x - o.dx, center.y + o.dy)]
  }

  /** The writes of the final version's loop for the octant offsets `arc`, in order. */
  function Writes(center: Point, arc: seq<Offset>): (w: seq<Point>)
    ensures |w| == 8 * |arc|
  {
    if arc == [] then [] else Writes(center, arc[..|arc| - 1]) + Reflected(center, arc[|arc| - 1])
  }

  /** The writes of the final version's `draw_circle` for `center` and radius `r`. */
  function CircleWrites(center: Point, r: int): seq<Point> {
    Writes(center, Octant(r))
  }

  /** One turn writes a cell exactly when its offset from the center is
      one of the eight reflections. */
  lemma ReflectedMember(center: Point, o: Offset, p: Point)
    ensures p in Reflected(center, o) <==> Offset(p.x - center.x, p.y - center.y) in Reflections(o)
  {
  }

  /** A cell is written exactly when its offset from the center is in the ring. */
  lemma {:induction false} WritesMember(center: Point, arc: seq<Offset>, p: Point)
    ensures p in Writes(center, arc) <==> Offset(p.x - center.x, p.y - center.y) in Ring(arc)
    decreases |arc|
  {
    if arc != [] {
      var init, last := arc[..|arc| - 1], arc[|arc| - 1];
      assert Writes(center, arc) == Writes(center, init) + Reflected(center, last);
      assert Ring(arc) == Ring(init) + Reflections(last);
      WritesMember(center, init, p);
      ReflectedMember(center, last, p);
    }
  }

  /** The final version writes exactly the circle's offsets moved to `center`. */
  lemma CircleWritesMember(center: Point, r: int, p: Point)
    ensures p in CircleWrites(center, r) <==> Offset(p.x - center.x, p.y - center.y) in CircleOffsets(r)
  {
    WritesMember(center, Octant(r), p);
  }

  /** Writes `8k` to `8k + 7` are the reflections of the k-th offset. */
  lemma {:induction false} WritesAt(center: Point, arc: seq<Offset>, k: int)
    requires 0 <= k < |arc|
    ensures 8 * k + 8 <= |Writes(center, arc)|
    ensures forall i :: 0 <= i < 8 ==> Writes(center, arc)[8 * k + i] == Reflected(center, arc[k])[i]
    decreases |arc|
  {
    var init := arc[..|arc| - 1];
    if k < |init| {
      WritesAt(center, init, k);
      assert init[k] == arc[k];
    }
  }

  /** In the writes `all` of the circle of radius `r`, writes `n = 8k` to
      `n + 7` are the reflections of the offset (x, y) that the loop is at
      after `k` iterations, when `x >= y`. */
  lemma CircleWritesAt(center: Point, r: int, k: nat, all: seq<Point>, n: int, o: Offset)
    requires all == CircleWrites(center, r) && n == 8 * k && k <= |Octant(r)|
    requires o == Offset(SweepAt(r, k).x, SweepAt(r, k).y) && o.dx >= o.dy
    ensures n + 8 <= |all|
    ensures forall i :: 0 <= i < 8 ==> all[n + i] == Reflected(center, o)[i]
  {
    OctantStep(r, k);
    WritesAt(center, Octant(r), k);
  }

  /** From a sweep state with `0 <= y`, the visited offsets have `y` rising
      by one per iteration from the state's `y`, `x` never rising and
      falling by at most one per iteration, and `y <= x <= ` the state's `x`. */
  lemma {:induction false} SweepShape(s: Sweep)
    requires 0 <= s.y
    ensures var arc := SweepFrom(s);
      && (s.x >= s.y ==> |arc| >= 1 && arc[0] == Offset(s.x, s.y))
      && (forall k :: 0 <= k < |arc| ==> arc[k].dy == s.y + k && arc[k].dy <= arc[k].dx <= s.x)
      && (forall k :: 0 <= k < |arc| - 1 ==> arc[k + 1].dx == arc[k].dx || arc[k + 1].dx == arc[k].dx - 1)
    decreases if s.x < s.y then 0 else s.x - s.y + 1
  {
    if s.x >= s.y {
      var t := Advance(s);
      SweepShape(t);
      var arc, rest := SweepFrom(s), SweepFrom(t);
      assert arc == [Offset(s.x, s.y)] + rest;
      forall k | 1 <= k < |arc|
        ensures arc[k].dy == s.y + k && arc[k].dy <= arc[k].dx <= s.x
      {
        assert arc[k] == rest[k - 1];
      }
      forall k | 0 <= k < |arc| - 1
        ensures arc[k + 1].dx == arc[k].dx || arc[k + 1].dx == arc[k].dx - 1
      {
        if k > 0 {
          var i := k - 1;
          assert arc[k] == rest[i] && arc[k + 1] == rest[i + 1];
        }
      }
    }
  }

  /** The octant of radius `r`: the k-th visited offset has `y = k`, every
      offset satisfies `0 <= y <= x <= r`, `x` starts at `r` and drops by
      at most one per iteration, so consecutive offsets are 8-adjacent. */
  lemma OctantShape(r: int)
    ensures var arc := Octant(r);
      && (r >= 0 ==> |arc| >= 1 && arc[0] == Offset(r, 0))
      && (forall k :: 0 <= k < |arc| ==> arc[k].dy == k && 0 <= arc[k].dy <= arc[k].dx <= r)
      && (forall k :: 0 <= k < |arc| - 1 ==> arc[k + 1].dx == arc[k].dx || arc[k + 1].dx == arc[k].dx - 1)
  {
    SweepShape(Sweep(r, 0, 0));
  }

  /** An offset is in the ring exactly when it is a reflection of one of the
      octant offsets. */
  lemma {:induction false} RingMembers(arc: seq<Offset>, o: Offset)
    ensures o in Ring(arc) <==> exists k :: 0 <= k < |arc| && o in Reflections(arc[k])
    decreases |arc|
  {
    if arc != [] {
      var init := arc[..|arc| - 1];
      RingMembers(init, o);
      if o in Ring(init) {
        var k :| 0 <= k < |init| && o in Reflections(init[k]);
        assert arc[k] == init[k];
      }
      if exists k :: 0 <= k < |arc| && o in Reflections(arc[k]) {
        var k :| 0 <= k < |arc| && o in Reflections(arc[k]);
        if k < |arc| - 1 {
          assert init[k] == arc[k];
        }
      }
    }
  }

  /** The reflections of one offset are closed under swapping the
      coordinates and under negating either one. */
  lemma ReflectionsClosed(p: Offset, o: Offset)
    requires o in Reflections(p)
    ensures Offset(o.dy, o.dx) in Reflections(p)
    ensures Offset(-o.dx, o.dy) in Reflections(p)
    ensures Offset(o.dx, -o.dy) in Reflections(p)
  {
  }

  /** A ring is closed under the same three reflections. */
  lemma {:induction false} RingSymmetric(arc: seq<Offset>, o: Offset)
    requires o in Ring(arc)
    ensures Offset(o.dy, o.dx) in Ring(arc)
    ensures Offset(-o.dx, o.dy) in Ring(arc)
    ensures Offset(o.dx, -o.dy) in Ring(arc)
    decreases |arc|
  {
    var init, last := arc[..|arc| - 1], arc[|arc| - 1];
    if o in Reflections(last) {
      ReflectionsClosed(last, o);
    } else {
      RingSymmetric(init, o);
    }
  }

  /** Every painted offset is one of the eight reflections of an octant
      offset (a, b) with `0 <= b <= a <= r`, and each such reflection is
      painted. */
  lemma CircleIsReflectedOctant(r: int, o: Offset)
    ensures o in CircleOffsets(r) <==>
      exists p :: p in Octant(r) && 0 <= p.dy <= p.dx <= r && o in Reflections(p)
  {
    var arc := Octant(r);
    OctantShape(r);
    RingMembers(arc, o);
    if o in CircleOffsets(r) {
      var k :| 0 <= k < |arc| && o in Reflections(arc[k]);
      assert arc[k] in arc;
    }
    if exists p :: p in arc && 0 <= p.dy <= p.dx <= r && o in Reflections(p) {
      var p :| p in arc && 0 <= p.dy <= p.dx <= r && o in Reflections(p);
      var k :| 0 <= k < |arc| && arc[k] == p;
    }
  }

  /** The painted set is closed under all eight symmetries of the square:
      swapping the coordinates, negating either one, and so also a quarter
      turn about the center. */
  lemma CircleSymmetric(r: int, o: Offset)
    requires o in CircleOffsets(r)
    ensures Offset(o.dy, o.dx) in CircleOffsets(r)
    ensures Offset(-o.dx, o.dy) in CircleOffsets(r)
    ensures Offset(o.dx, -o.dy) in CircleOffsets(r)
    ensures Offset(-o.dy, o.dx) in CircleOffsets(r)
  {
    RingSymmetric(Octant(r), o);
    RingSymmetric(Octant(r), Offset(o.dy, o.dx));
  }

  /** Every painted offset lies in the square of half-side `r`. */
  lemma CircleWithinSquare(r: int, o: Offset)
    requires o in CircleOffsets(r)
    ensures Abs(o.dx) <= r && Abs(o.dy) <= r
  {
    CircleIsReflectedOctant(r, o);
  }

  /** For `r >= 0` the four axis offsets at distance `r` are painted. */
  lemma CircleAxes(r: int)
    requires r >= 0
    ensures Offset(r, 0) in CircleOffsets(r) && Offset(-r, 0) in CircleOffsets(r)
    ensures Offset(0, r) in CircleOffsets(r) && Offset(0, -r) in CircleOffsets(r)
  {
    OctantShape(r);
    var arc := Octant(r);
    forall o | o in Reflections(arc[0])
      ensures o in CircleOffsets(r)
    {
      RingMembers(arc, o);
    }
  }

  /** Radius 0 paints only the center: all eight reflections coincide. */
  lemma CircleRadiusZero()
    ensures CircleOffsets(0) == {Offset(0, 0)}
  {
    assert Advance(Sweep(0, 0, 0)).x < Advance(Sweep(0, 0, 0)).y;
    assert Octant(0) == [Offset(0, 0)];
  }

  /** A negative radius fails the loop test at once and paints nothing. */
  lemma CircleNegativeRadius(r: int)
    requires r < 0
    ensures CircleOffsets(r) == {}
  {
  }
}
