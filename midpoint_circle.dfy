/**
 The integer midpoint circle rasterisation (Bresenham's circle algorithm)
 that an influence sphere uses to enumerate the grid cells on its rim,
 stated as functions, together with what they guarantee.

 The loop walks one octant of a circle of radius r centred on the origin,
 from (0, r) towards the diagonal; every state it reaches is mirrored into
 the eight octants around the real centre (x0, y0).
 */
module MidpointCircle {

  /** A grid cell; the Python class InfluenceCircle stores each one as a two-element list [x, y]. */
  type Point = (int, int)

  /** The loop's variables x, y and the decision variable f at one evaluation
      of the guard. The two increments ddf_x and ddf_y are not part of the
      state: they always equal 2 * x + 1 and -2 * y. */
  datatype State = State(x: int, y: int, f: int)

  /** The state before the first pass, for radius r. */
  function Start(r: int): State
  {
    State(0, r, 1 - r)
  }

  /** One pass of the loop body: when f is non-negative y steps down and f
      grows by the new ddf_y; then x steps up and f grows by the new ddf_x. */
  function Step(s: State): State
  {
    if s.f >= 0 then
      State(s.x + 1, s.y - 1, s.f - 2 * (s.y - 1) + 2 * (s.x + 1) + 1)
    else
      State(s.x + 1, s.y, s.f + 2 * (s.x + 1) + 1)
  }

  /** The states reached after each pass of the loop, starting from s and
      running while the guard x < y holds. */
  function Walk(s: State): (ps: seq<State>)
    ensures ps == [] <==> s.x >= s.y
    ensures s.x < s.y ==> |ps| <= s.y - s.x
    ensures forall i :: 0 <= i < |ps| ==> ps[i].x == s.x + i + 1
    decreases s.y - s.x
  {
    if s.x < s.y then [Step(s)] + Walk(Step(s)) else []
  }

  /** The eight images of the octant offset (x, y) about the centre (x0, y0),
      in the order the loop body appends them. */
  function Images(x0: int, y0: int, x: int, y: int): seq<Point>
  {
    [(x0 + x, y0 + y), (x0 - x, y0 + y), (x0 + x, y0 - y), (x0 - x, y0 - y),
     (x0 + y, y0 + x), (x0 - y, y0 + x), (x0 + y, y0 - x), (x0 - y, y0 - x)]
  }

  /** The images of every octant state, one block of eight per state, in order. */
  function Reflect(x0: int, y0: int, octant: seq<State>): (ps: seq<Point>)
    ensures |ps| == 8 * |octant|
  {
    if octant == [] then [] else Images(x0, y0, octant[0].x, octant[0].y) + Reflect(x0, y0, octant[1..])
  }

  /** The top, bottom, right and left rim cells, appended before the loop. */
  function Cardinals(x0: int, y0: int, r: int): seq<Point>
  {
    [(x0, y0 + r), (x0, y0 - r), (x0 + r, y0), (x0 - r, y0)]
  }

  /** Every coordinate an influence circle records, in the order it records them. */
  function Circle(x0: int, y0: int, r: int): seq<Point>
  {
    Cardinals(x0, y0, r) + Reflect(x0, y0, Walk(Start(r)))
  }

  // ---------------------------------------------------------------------------
  // The loop, step by step

  /** The i-th state of the walk comes from the one before it (the start state
      for i == 0) by one pass of the loop body, with the guard true there:
      x grows by exactly one, and y drops by one exactly when f was non-negative. */
  lemma {:induction false} WalkStep(s: State, i: nat)
    requires i < |Walk(s)|
    ensures var w := Walk(s);
            var prev := if i == 0 then s else w[i - 1];
            && prev.x < prev.y
            && w[i].x == prev.x + 1
            && w[i].y == (if prev.f >= 0 then prev.y - 1 else prev.y)
            && w[i] == Step(prev)
    decreases i
  {
    if i > 0 {
      WalkStep(Step(s), i - 1);
    }
  }

  /** A walk that starts with the guard true is not empty, and its last state
      fails the guard: the loop stops with x >= y. */
  lemma {:induction false} WalkStops(s: State)
    requires s.x < s.y
    ensures var w := Walk(s);
            w != [] && w[|w| - 1].x >= w[|w| - 1].y
    decreases s.y - s.x
  {
    if Step(s).x < Step(s).y {
      WalkStops(Step(s));
    }
  }

  // ---------------------------------------------------------------------------
  // The decision variable in closed form

  /** The closed form of the decision variable at octant state (x, y):
      non-negative exactly when the midpoint (x + 1, y - 1/2) between the two
      candidate next cells is not inside the circle (scaled to stay integral). */
  function Decision(r: int, x: int, y: int): int
  {
    (x + 1) * (x + 1) + y * y - y - r * r
  }

  /** The incremental update of f in one pass keeps f equal to its closed form. */
  lemma DecisionStep(r: int, s: State)
    requires s.f == Decision(r, s.x, s.y)
    ensures Step(s).f == Decision(r, Step(s).x, Step(s).y)
  {
    assert (s.x + 2) * (s.x + 2) == (s.x + 1) * (s.x + 1) + 2 * (s.x + 1) + 1;
    assert (s.y - 1) * (s.y - 1) == s.y * s.y - 2 * s.y + 1;
  }

  /** At every evaluation of the guard, f == (x + 1)^2 + y^2 - y - r^2: it starts
      at 1 - r and every pass keeps the equation. */
  lemma {:induction false} WalkDecision(r: int, s: State)
    requires s.f == Decision(r, s.x, s.y)
    ensures forall t :: t in Walk(s) ==> t.f == Decision(r, t.x, t.y)
    decreases s.y - s.x
  {
    if s.x < s.y {
      DecisionStep(r, s);
      WalkDecision(r, Step(s));
    }
  }

  /** The walk from the start state for radius r keeps f in closed form. */
  lemma StartDecision(r: int)
    ensures Start(r).f == Decision(r, 0, r)
    ensures forall t :: t in Walk(Start(r)) ==> t.f == Decision(r, t.x, t.y)
  {
    WalkDecision(r, Start(r));
  }

  // ---------------------------------------------------------------------------
  // Where the octant states lie

  /** The invariant of the octant walk for a non-negative radius: f is in
      closed form, both coordinates stay in [0, r], x overshoots y by at most
      one, and the squared distance of (x, y) from the centre is within y of
      r * r (strictly below r * r + y while the guard holds). */
  ghost predicate OnTrack(r: int, s: State)
  {
    var (x, y) := (s.x, s.y);
    && s.f == Decision(r, x, y)
    && 0 <= x <= r && 0 <= y <= r && x <= y + 1
    && r * r <= x * x + y * y + y
    && x * x + y * y - y <= r * r
    && (x < y ==> x * x + y * y - y < r * r)
  }

  /** The walk starts on track for every radius r >= 0. */
  lemma StartOnTrack(r: int)
    requires r >= 0
    ensures OnTrack(r, Start(r))
  {
  }

  /** One pass of the loop body keeps the walk on track. */
  lemma NextOnTrack(r: int, s: State)
    requires OnTrack(r, s) && s.x < s.y
    ensures OnTrack(r, Step(s))
  {
    DecisionStep(r, s);
    var (x, y, d) := (s.x, s.y, s.f);
    var t := Step(s);
    assert t.x == x + 1;
    assert t.x * t.x == x * x + 2 * x + 1;
    // d == (x + 1)^2 + y^2 - y - r^2 and x^2 + y^2 - y < r^2, so d <= 2 * x.
    assert d <= 2 * x;
    if d >= 0 {
      assert t.y == y - 1;
      assert t.y * t.y == y * y - 2 * y + 1;
      assert t.x * t.x + t.y * t.y + t.y == d + r * r;
      assert t.x * t.x + t.y * t.y - t.y == d + r * r - 2 * y + 2;
    } else {
      assert t.y == y;
      assert t.x * t.x + t.y * t.y - t.y == d + r * r;
      assert d + 2 * y >= 2 * x + 1;
    }
  }

  /** Every state of a walk that starts on track is on track. */
  lemma {:induction false} WalkOnTrack(r: int, s: State)
    requires OnTrack(r, s)
    ensures forall t :: t in Walk(s) ==> OnTrack(r, t)
    decreases s.y - s.x
  {
    if s.x < s.y {
      NextOnTrack(r, s);
      WalkOnTrack(r, Step(s));
    }
  }

  // ---------------------------------------------------------------------------
  // The shape of the output

  /** Block i of the reflected output holds the eight images of octant state i. */
  lemma {:induction false} ReflectAt(x0: int, y0: int, octant: seq<State>, i: nat, k: nat)
    requires i < |octant| && k < 8
    ensures Reflect(x0, y0, octant)[8 * i + k] == Images(x0, y0, octant[i].x, octant[i].y)[k]
  {
    if i > 0 {
      ReflectAt(x0, y0, octant[1..], i - 1, k);
    }
  }

  /** A cell is in the reflected output exactly when it is an image of some octant state. */
  lemma {:induction false} ReflectMember(x0: int, y0: int, octant: seq<State>, c: Point)
    ensures c in Reflect(x0, y0, octant) <==> exists q :: q in octant && c in Images(x0, y0, q.x, q.y)
  {
    if octant != [] {
      ReflectMember(x0, y0, octant[1..], c);
      assert forall q :: q in octant <==> q == octant[0] || q in octant[1..];
    }
  }

  /** The first four coordinates are the cardinal rim cells, and after them,
      block i holds the eight images of the i-th octant state in source order. */
  lemma CircleLayout(x0: int, y0: int, r: int, i: nat, k: nat)
    requires i < |Walk(Start(r))| && k < 8
    ensures var c := Circle(x0, y0, r);
            && c[..4] == [(x0, y0 + r), (x0, y0 - r), (x0 + r, y0), (x0 - r, y0)]
            && c[4 + 8 * i + k] == Images(x0, y0, Walk(Start(r))[i].x, Walk(Start(r))[i].y)[k]
  {
    var w := Walk(Start(r));
    var c := Circle(x0, y0, r);
    ReflectAt(x0, y0, w, i, k);
    assert c[..4] == Cardinals(x0, y0, r);
    assert c[4 + 8 * i + k] == Reflect(x0, y0, w)[8 * i + k];
  }

  /** For every radius the output starts with the four cardinal cells and has
      4 + 8 * (number of loop passes) cells; a radius of at most zero runs no
      pass, and radius zero repeats the centre four times. */
  lemma CircleLength(x0: int, y0: int, r: int)
    ensures Circle(x0, y0, r)[..4] == [(x0, y0 + r), (x0, y0 - r), (x0 + r, y0), (x0 - r, y0)]
    ensures |Circle(x0, y0, r)| == 4 + 8 * |Walk(Start(r))|
    ensures r <= 0 ==> |Circle(x0, y0, r)| == 4
    ensures r == 0 ==> Circle(x0, y0, r) == [(x0, y0), (x0, y0), (x0, y0), (x0, y0)]
  {
  }

  /** The cells are closed under the three mirrors that generate the eight
      symmetries of a square about (x0, y0): left-right, up-down, and the
      swap across the diagonal. */
  ghost predicate EightFold(x0: int, y0: int, cells: seq<Point>)
  {
    forall c :: c in cells ==>
      && (2 * x0 - c.0, c.1) in cells
      && (c.0, 2 * y0 - c.1) in cells
      && (x0 + (c.1 - y0), y0 + (c.0 - x0)) in cells
  }

  /** Two 8-fold symmetric runs of cells stay symmetric when concatenated. */
  lemma EightFoldConcat(x0: int, y0: int, a: seq<Point>, b: seq<Point>)
    requires EightFold(x0, y0, a) && EightFold(x0, y0, b)
    ensures EightFold(x0, y0, a + b)
  {
  }

  /** The eight images of one octant state are closed under the three mirrors. */
  lemma ImagesEightFold(x0: int, y0: int, x: int, y: int)
    ensures EightFold(x0, y0, Images(x0, y0, x, y))
  {
    var imgs := Images(x0, y0, x, y);
    // For image k, the index of its left-right, up-down and diagonal mirror.
    var lr, ud, sw := [1, 0, 3, 2, 5, 4, 7, 6], [2, 3, 0, 1, 6, 7, 4, 5], [4, 6, 5, 7, 0, 2, 1, 3];
    forall c | c in imgs
      ensures (2 * x0 - c.0, c.1) in imgs
      ensures (c.0, 2 * y0 - c.1) in imgs
      ensures (x0 + (c.1 - y0), y0 + (c.0 - x0)) in imgs
    {
      var k :| 0 <= k < 8 && imgs[k] == c;
      assert (2 * x0 - c.0, c.1) == imgs[lr[k]];
      assert (c.0, 2 * y0 - c.1) == imgs[ud[k]];
      assert (x0 + (c.1 - y0), y0 + (c.0 - x0)) == imgs[sw[k]];
    }
  }

  /** The reflected output of any octant walk is 8-fold symmetric. */
  lemma {:induction false} ReflectEightFold(x0: int, y0: int, octant: seq<State>)
    ensures EightFold(x0, y0, Reflect(x0, y0, octant))
  {
    if octant != [] {
      ImagesEightFold(x0, y0, octant[0].x, octant[0].y);
      ReflectEightFold(x0, y0, octant[1..]);
      EightFoldConcat(x0, y0, Images(x0, y0, octant[0].x, octant[0].y), Reflect(x0, y0, octant[1..]));
    }
  }

  /** The output of the rasterisation is 8-fold symmetric about the centre. */
  lemma CircleSymmetric(x0: int, y0: int, r: int)
    ensures EightFold(x0, y0, Circle(x0, y0, r))
  {
    assert EightFold(x0, y0, Cardinals(x0, y0, r));
    ReflectEightFold(x0, y0, Walk(Start(r)));
    EightFoldConcat(x0, y0, Cardinals(x0, y0, r), Reflect(x0, y0, Walk(Start(r))));
  }

  /** An on-track state lies in the first quadrant within r of the centre on
      both axes, in the annulus r * r - r <= x * x + y * y <= r * r + r. */
  lemma OnTrackAnnulus(r: int, s: State)
    requires OnTrack(r, s)
    ensures 0 <= s.x <= r && 0 <= s.y <= r
    ensures r * r - r <= s.x * s.x + s.y * s.y <= r * r + r
  {
  }

  /** Cell c lies within r of the centre (x0, y0) on both axes, and its squared
      distance from the centre is within r of r * r. */
  ghost predicate NearRim(x0: int, y0: int, r: int, c: Point)
  {
    var (dx, dy) := (c.0 - x0, c.1 - y0);
    && -r <= dx <= r && -r <= dy <= r
    && r * r - r <= dx * dx + dy * dy <= r * r + r
  }

  /** Each image of an octant offset (x, y) in that annulus is near the rim. */
  lemma ImageBounded(x0: int, y0: int, r: int, x: int, y: int, c: Point)
    requires 0 <= x <= r && 0 <= y <= r
    requires r * r - r <= x * x + y * y <= r * r + r
    requires c in Images(x0, y0, x, y)
    ensures NearRim(x0, y0, r, c)
  {
    var dx, dy := c.0 - x0, c.1 - y0;
    if (dx == x || dx == -x) && (dy == y || dy == -y) {
      SameSquare(dx, x);
      SameSquare(dy, y);
    } else {
      assert (dx == y || dx == -y) && (dy == x || dy == -x);
      SameSquare(dx, y);
      SameSquare(dy, x);
    }
  }

  /** Mirroring an offset does not change its square. */
  lemma SameSquare(a: int, b: int)
    requires a == b || a == -b
    ensures a * a == b * b
  {
  }

  /** A cardinal cell of a circle of radius r >= 0 lies exactly r from the
      centre along one axis, on the other axis's centre line, so it is near the rim. */
  lemma CardinalBounded(x0: int, y0: int, r: int, c: Point)
    requires r >= 0 && c in Cardinals(x0, y0, r)
    ensures (c.0 == x0 && (c.1 - y0 == r || c.1 - y0 == -r))
            || (c.1 == y0 && (c.0 - x0 == r || c.0 - x0 == -r))
    ensures NearRim(x0, y0, r, c)
  {
    var dx, dy := c.0 - x0, c.1 - y0;
    assert (dx == 0 && (dy == r || dy == -r)) || (dy == 0 && (dx == r || dx == -r));
    assert dx * dx + dy * dy == r * r;
  }

  /** One cell of the circle of radius r >= 0 is near the rim. */
  lemma CellBounded(x0: int, y0: int, r: int, c: Point)
    requires r >= 0 && c in Circle(x0, y0, r)
    ensures NearRim(x0, y0, r, c)
  {
    var w := Walk(Start(r));
    if c in Cardinals(x0, y0, r) {
      CardinalBounded(x0, y0, r, c);
    } else {
      assert c in Reflect(x0, y0, w);
      ReflectMember(x0, y0, w, c);
      var q :| q in w && c in Images(x0, y0, q.x, q.y);
      StartOnTrack(r);
      WalkOnTrack(r, Start(r));
      OnTrackAnnulus(r, q);
      ImageBounded(x0, y0, r, q.x, q.y, c);
    }
  }

  /** For a radius r >= 0 every cell lies within r of the centre along each
      axis, and its squared distance from the centre is within r of r * r. */
  lemma CircleBounded(x0: int, y0: int, r: int)
    requires r >= 0
    ensures forall c :: c in Circle(x0, y0, r) ==> NearRim(x0, y0, r, c)
  {
    forall c | c in Circle(x0, y0, r)
      ensures NearRim(x0, y0, r, c)
    {
      CellBounded(x0, y0, r, c);
    }
  }

  // ---------------------------------------------------------------------------
  // The one influence sphere the model creates: centre (50, 50), radius 10

  /** The walk for radius 10 takes seven passes, ending on the diagonal. */
  lemma InitialWalk()
    ensures Walk(Start(10)) == [State(1, 10, -6), State(2, 10, -1), State(3, 10, 6), State(4, 9, -3),
                                State(5, 9, 8), State(6, 8, 5), State(7, 7, 6)]
  {
    assert Walk(State(7, 7, 6)) == [];
    assert Walk(State(6, 8, 5)) == [State(7, 7, 6)] + Walk(State(7, 7, 6));
    assert Walk(State(5, 9, 8)) == [State(6, 8, 5)] + Walk(State(6, 8, 5));
    assert Walk(State(4, 9, -3)) == [State(5, 9, 8)] + Walk(State(5, 9, 8));
    assert Walk(State(3, 10, 6)) == [State(4, 9, -3)] + Walk(State(4, 9, -3));
    assert Walk(State(2, 10, -1)) == [State(3, 10, 6)] + Walk(State(3, 10, 6));
    assert Walk(State(1, 10, -6)) == [State(2, 10, -1)] + Walk(State(2, 10, -1));
    assert Walk(Start(10)) == [State(1, 10, -6)] + Walk(State(1, 10, -6));
  }

  /** A sphere of radius 10 has 60 cells: the four cardinal cells, then the
      images of the first octant state (1, 10). */
  lemma RadiusTenSphere(x0: int, y0: int)
    ensures |Circle(x0, y0, 10)| == 60
    ensures Circle(x0, y0, 10)[..4] == [(x0, y0 + 10), (x0, y0 - 10), (x0 + 10, y0), (x0 - 10, y0)]
    ensures Circle(x0, y0, 10)[4..12] ==
              [(x0 + 1, y0 + 10), (x0 - 1, y0 + 10), (x0 + 1, y0 - 10), (x0 - 1, y0 - 10),
               (x0 + 10, y0 + 1), (x0 - 10, y0 + 1), (x0 + 10, y0 - 1), (x0 - 10, y0 - 1)]
  {
    InitialWalk();
    var w := Walk(Start(10));
    var c := Circle(x0, y0, 10);
    assert Reflect(x0, y0, w) == Images(x0, y0, 1, 10) + Reflect(x0, y0, w[1..]);
    assert c[4..12] == Reflect(x0, y0, w)[..8];
  }
}
