/**
 The influence sphere of the border model: a circle on the simulation grid
 whose rim cells are computed once, by the midpoint circle loop, when the
 sphere is created.
 */
module BorderModel {
  import opened MidpointCircle

  class InfluenceCircle {
    /** The rim cells recorded so far, in the order they were appended. */
    var coordinates: seq<Point>

    /** Rasterises the circle of the given radius around (x0, y0): the four
        cardinal cells first, then eight mirrored cells per pass of the
        octant loop. */
    constructor (x0: int, y0: int, radius: int)
      ensures coordinates == Circle(x0, y0, radius)
    {
      coordinates := [];
      new;
      var f := 1 - radius;
      var ddfX := 1;
      var ddfY := -2 * radius;
      var x := 0;
      var y := radius;
      AddCoords(x0, y0 + radius);
      AddCoords(x0, y0 - radius);
      AddCoords(x0 + radius, y0);
      AddCoords(x0 - radius, y0);
      assert coordinates == Cardinals(x0, y0, radius);
      assert State(x, y, f) == Start(radius);
      assert f == Decision(radius, x, y);

      while x < y
        invariant ddfX == 2 * x + 1 && ddfY == -2 * y
        invariant f == Decision(radius, x, y)
        invariant Circle(x0, y0, radius) == coordinates + Reflect(x0, y0, Walk(State(x, y, f)))
        decreases y - x
      {
        ghost var before := coordinates;
        ghost var cur := State(x, y, f);
        if f >= 0 {
          y := y - 1;
          ddfY := ddfY + 2;
          f := f + ddfY;
        }
        x := x + 1;
        ddfX := ddfX + 2;
        f := f + ddfX;
        assert State(x, y, f) == Step(cur);
        DecisionStep(radius, cur);
        AddImages(x0, y0, x, y);
        PassOnce(x0, y0, before, cur);
      }
    }

    /** The eight add_coords calls of one pass of the loop body, for the octant
        offset (x, y): left-right and up-down mirrors of (x, y), then of (y, x). */
    method AddImages(x0: int, y0: int, x: int, y: int)
      modifies this
      ensures coordinates == old(coordinates) + Images(x0, y0, x, y)
    {
      ghost var before := coordinates;
      AddCoords(x0 + x, y0 + y);
      AddCoords(x0 - x, y0 + y);
      AddCoords(x0 + x, y0 - y);
      AddCoords(x0 - x, y0 - y);
      AddCoords(x0 + y, y0 + x);
      AddCoords(x0 - y, y0 + x);
      AddCoords(x0 + y, y0 - x);
      AddCoords(x0 - y, y0 - x);
      AppendImages(before, x0, y0, x, y);
    }

    /** Appends one cell at the end, leaving every earlier entry as it was. */
    method AddCoords(x: int, y: int)
      modifies this
      ensures coordinates == old(coordinates) + [(x, y)]
    {
      coordinates := coordinates + [(x, y)];
    }
  }

  /** One pass of the loop appends the images of the next state, after which
      the walk from that state is what is left to append. */
  lemma PassOnce(x0: int, y0: int, done: seq<Point>, s: State)
    requires s.x < s.y
    ensures done + Reflect(x0, y0, Walk(s))
            == (done + Images(x0, y0, Step(s).x, Step(s).y)) + Reflect(x0, y0, Walk(Step(s)))
  {
    assert ([Step(s)] + Walk(Step(s)))[1..] == Walk(Step(s));
  }

  /** Appending the eight images of (x, y) one at a time appends Images(x0, y0, x, y). */
  lemma AppendImages(front: seq<Point>, x0: int, y0: int, x: int, y: int)
    ensures front + [(x0 + x, y0 + y)] + [(x0 - x, y0 + y)] + [(x0 + x, y0 - y)] + [(x0 - x, y0 - y)]
            + [(x0 + y, y0 + x)] + [(x0 - y, y0 + x)] + [(x0 + y, y0 - x)] + [(x0 - y, y0 - x)]
            == front + Images(x0, y0, x, y)
  {
  }

  /** The influence spheres the model starts with: one, centred on (50, 50)
      with radius 10. */
  method InitInfluenceSpheres() returns (spheres: seq<InfluenceCircle>)
    ensures |spheres| == 1
    ensures spheres[0].coordinates == Circle(50, 50, 10)
    ensures |spheres[0].coordinates| == 60
  {
    var sphere := new InfluenceCircle(50, 50, 10);
    RadiusTenSphere(50, 50);
    spheres := [sphere];
  }
}
