# Influence circle of the border model

The border model places one or more influence spheres on the simulation grid.
An `InfluenceCircle` computes the grid cells on its rim once, in its
constructor, with the integer midpoint circle algorithm (Bresenham's circle
algorithm):

- It appends the four cardinal cells `(x0, y0 + r)`, `(x0, y0 - r)`,
  `(x0 + r, y0)` and `(x0 - r, y0)`.
- It walks one octant from `(0, r)` towards the diagonal while `x < y`. Each
  pass increments `x`, and decrements `y` when the decision variable `f` is
  non-negative.
- It appends the eight mirror images of each octant state.

Every cell goes through `add_coords`, which appends one pair.

The project has two modules:

- `MidpointCircle` (`midpoint_circle.dfy`) is the specification. It defines:
  - the loop state `State(x, y, f)` and one pass of the loop body, `Step`;
  - the sequence of states the loop reaches, `Walk`;
  - the eight images of a state, `Images`, and the images of a whole walk,
    `Reflect`;
  - the whole output, `Circle`.

  Lemmas about these functions prove the loop's properties: `f`'s closed form,
  how `x` and `y` move, termination, the output's length and block layout, its
  8-fold symmetry, and that every cell lies near the rim. The module also
  computes the concrete sphere the model creates.
- `BorderModel` (`border_model.dfy`) holds the imperative model. The class
  `InfluenceCircle` has a `coordinates` field. Its constructor runs the loop
  with the source's locals `f`, `ddfX`, `ddfY`, `x` and `y`, and it is proved
  to leave `coordinates == Circle(x0, y0, radius)`. `AddCoords` is the
  source's `add_coords`. `InitInfluenceSpheres` builds the single sphere
  centred on (50, 50) with radius 10.

The octant state omits `ddf_x` and `ddf_y`. The constructor's loop invariant
proves they always equal `2 * x + 1` and `-2 * y`, so `Step` writes them out in
those terms.

The cells form the rim of the circle only, not a filled disc, and a cell may
appear more than once (for instance on the diagonal, or for radius 1).

## Model

| member | source | states |
|---|---|---|
| MidpointCircle.Walk | BorderModel.py:85-92 | The loop runs a pass exactly while `x < y`, runs at most `y - x` passes, and pass `i` leaves `x` at its start value plus `i + 1`. |
| MidpointCircle.Reflect | BorderModel.py:93-100 | Each pass contributes exactly eight cells. |
| MidpointCircle.WalkStep | BorderModel.py:85-92 | Each pass starts with `x < y` and adds exactly 1 to `x`. It lowers `y` by one exactly when `f >= 0` at the start of the pass, and leaves `y` unchanged otherwise. |
| MidpointCircle.WalkStops | BorderModel.py:85-92 | A loop that is entered ends in a state with `x >= y`. |
| MidpointCircle.DecisionStep | BorderModel.py:86-92 | One pass keeps `f == (x + 1)^2 + y^2 - y - r^2`: adding the new `ddf_y` (when `y` drops) and the new `ddf_x` is the exact change of that closed form. |
| MidpointCircle.WalkDecision | BorderModel.py:85-92 | If `f` is in closed form before the loop, it is in closed form at every later evaluation of the guard. |
| MidpointCircle.StartDecision | BorderModel.py:75-92 | `f` starts at `1 - r`, which is the closed form at `(0, r)`, and equals the closed form at every guard evaluation. |
| MidpointCircle.StartOnTrack | BorderModel.py:75-79 | For `r >= 0` the start state `(0, r, 1 - r)` satisfies the octant invariant `OnTrack`. |
| MidpointCircle.NextOnTrack | BorderModel.py:85-92 | One pass preserves `OnTrack`. `OnTrack` bundles these facts: `f` is in closed form; `0 <= x <= r`; `0 <= y <= r`; `x <= y + 1`; `x^2 + y^2` is within `y` of `r^2`. |
| MidpointCircle.WalkOnTrack | BorderModel.py:85-92 | Every state reached from an on-track state is on track. For `r >= 0` this means `y` never drops below 0 and `x` never exceeds `r`. |
| MidpointCircle.ReflectAt | BorderModel.py:93-100 | Cell `8 * i + k` of the reflected output is image `k` of state `i`. |
| MidpointCircle.ReflectMember | BorderModel.py:93-100 | A cell is in the reflected output if and only if it is an image of some octant state. |
| MidpointCircle.CircleLayout | BorderModel.py:80-100 | For a loop that makes at least one pass: the first four cells are the cardinal cells in order (for every radius this is `CircleLength`), and after them block `i` holds the eight images of state `i` in the order of the eight `add_coords` calls. |
| MidpointCircle.CircleLength | BorderModel.py:79-85 | For every radius, negative ones included, the first four cells are `(x0, y0 + r)`, `(x0, y0 - r)`, `(x0 + r, y0)`, `(x0 - r, y0)`, in that order. There are `4 + 8 * passes` cells. A radius of at most 0 gives exactly 4 cells, and radius 0 gives the centre four times. |
| MidpointCircle.ImagesEightFold | BorderModel.py:93-100 | The eight images of any state are closed under the left-right mirror, the up-down mirror and the diagonal swap about the centre. |
| MidpointCircle.ReflectEightFold | BorderModel.py:93-100 | The reflected output of any walk is closed under the three mirrors. |
| MidpointCircle.CircleSymmetric | BorderModel.py:80-100 | The whole output is 8-fold symmetric about the centre. |
| MidpointCircle.OnTrackAnnulus | BorderModel.py:78-92 | An on-track state has `0 <= x, y <= r` and `r^2 - r <= x^2 + y^2 <= r^2 + r`. |
| MidpointCircle.ImageBounded | BorderModel.py:93-100 | Every image of such a state is within `r` of the centre on each axis, and its squared distance is within `r` of `r^2`. |
| MidpointCircle.CardinalBounded | BorderModel.py:80-83 | For `r >= 0` each cardinal cell lies on the centre's column or row, exactly `r` from the centre along the other axis, and so satisfies `NearRim`. |
| MidpointCircle.CellBounded | BorderModel.py:78-100 | For `r >= 0` any one cell of the output is within `r` of the centre on each axis, and within `r` of `r^2` in squared distance. |
| MidpointCircle.CircleBounded | BorderModel.py:78-100 | For `r >= 0` every cell satisfies `abs(dx) <= r` and `abs(dy) <= r`, and lies in the annulus `r^2 - r <= dx^2 + dy^2 <= r^2 + r`. |
| MidpointCircle.InitialWalk | BorderModel.py:60-62 | For radius 10 the loop makes seven passes, through (1, 10), (2, 10), (3, 10), (4, 9), (5, 9), (6, 8) and (7, 7), with the stated values of `f`. |
| MidpointCircle.RadiusTenSphere | BorderModel.py:60-64 | A sphere of radius 10 has 60 cells. They start with the four cardinal cells and then the eight images of (1, 10). |
| BorderModel.InfluenceCircle.constructor | BorderModel.py:72-100 | After construction `coordinates == Circle(x0, y0, radius)`. At every guard evaluation `ddf_x == 2 * x + 1`, `ddf_y == -2 * y` and `f == (x + 1)^2 + y^2 - y - radius^2`. The loop terminates with `y - x` strictly decreasing. |
| BorderModel.InfluenceCircle.AddImages | BorderModel.py:93-100 | The eight `add_coords` calls of one pass append exactly `Images(x0, y0, x, y)`. |
| BorderModel.InfluenceCircle.AddCoords | BorderModel.py:102-103 | Appends exactly one pair at the end and leaves every earlier entry unchanged. |
| BorderModel.PassOnce | BorderModel.py:85-100 | After one pass, the cells still to be appended are the images of the new state followed by the rest of the walk from it. |
| BorderModel.AppendImages | BorderModel.py:93-100 | Appending the eight images one at a time equals appending `Images` as one block. |
| BorderModel.InitInfluenceSpheres | BorderModel.py:56-65 | Creates exactly one sphere. Its coordinates are `Circle(50, 50, 10)`, which has 60 cells. |

## Left out

- `BorderAgent.move` and `BorderAgent.speak` (BorderModel.py:16-33) are not modelled. `move` is a random choice over a grid neighbourhood provided by the agent-based modelling library. `speak` has no behaviour.
- `BorderModel.__init__` and `BorderModel.step` (BorderModel.py:36-68) are not modelled. They are only scheduler and grid setup, random placement of agents, and a `print` of the first sphere's coordinates. Only the sphere-creation step, `init_influence_spheres`, is modelled.
- BorderThink.py is not part of this model. It holds command-line handling, floating-point parameter sweeps, batch runs and CSV output.
- BorderServer.py and BorderCanvasModule.js are not part of this model. They are visualisation.
- furthest-nl-from-randstad.py is not part of this model. It reads sphere attributes (`country`, `name`, `sound_mean`, `x`, `y`) and a distance helper that the influence circle does not define.
- Travel probabilities, path planning, the travel state machine, sound exchange, media influence and decay are not modelled. No code for them appears in the modelled files.
- InfluenceCircle.constructor: the centre `x0`, `y0` and the radius are integers. Floating-point arguments, which Python would also accept for any of the three, are not modelled.
- InfluenceCircle.constructor: the source stores each cell as a two-element list `[x, y]`; the model stores a pair `(x, y)`.
- InfluenceCircle.AddImages: the model groups the eight `add_coords` calls of one pass into this method. The source writes them inline in the loop body, with the same arguments in the same order.
