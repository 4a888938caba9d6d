# Golden-triangle tiling: the growth bookkeeping

This project models the combinatorial core of a program that grows a tiling of
golden triangles one triangle at a time (`main.js`). Every edge direction is a
multiple of 36 degrees and is stored as a code 0..9. Each vertex has a `right`
link and a `left` link. Each link gives a neighbouring vertex and the edge
direction towards it. The counter-clockwise arc from `right` to `left` is
covered by triangles. The rest of the turn is free, and `maxAvailableAngle`
counts it in units of 36 degrees. The set `availableVertices` holds the open
vertices. One growth step does the following:

- The random draw picks an open vertex u.
- v is u's left neighbour.
- A new vertex w is created between them.
- u's left link and v's right link are turned one unit into their free sectors.
- The triangle (u, v, w) is appended.

The model has four modules:

- `Angles` (`angles.dfy`): JavaScript's truncating `% 10` (`Rem10`) and
  `reverseAngle`.
- `Topology` (`topology.dfy`): the state as values. It holds `Link`, `Vertex`,
  `Triangle` and `State`, the seed, `chooseVertex`, and `createThirdVertex` and
  `addTriangle` as functions. It also defines the invariant `Valid` and the
  stronger property `Exact` ("every open vertex is in the set").
- `Growth` (`growth.dfy`): the relational description `Attached` of one step,
  and the lemmas about one step and about repeated steps at one vertex.
- `Grower` (`tiling.dfy`): class `Tiling`. Its fields `vertices`,
  `availableVertices` and `triangles` are updated in place by the methods
  `ChooseVertex`, `CreateThirdVertex` and `AddTriangle`, just as the program's
  globals are. Each method is proved to agree with the `Topology` function of
  the same name, applied to `Model()`, the three fields taken as one value.

JavaScript `Set`s iterate in insertion order, and `chooseVertex` indexes
`Array.from(availableVertices)`. So the set is a duplicate-free `seq<nat>`.
`Set.add` appends and `Set.delete` removes while keeping the order. The random
draw `Math.floor(Math.random() * size)` becomes an input index `r`.

What the model shows about the source:

- The links always pair up in both directions. If i's left neighbour is j, then
  j's right neighbour is i along the reversed direction, and the other way round.
- Every member of the set is an open, stored vertex.
- Vertex indices equal array positions and are never reused.
- There are always two more vertices than triangles.
- Each step takes one unit from u and, if v is open, one from v; a closed v
  wraps from 0 to 9 free units. w starts with seven free units.
- The new vertex w always joins the set, so the set is never empty. From the
  seed, every draw `Math.floor(Math.random() * size)` lands in the set, and
  `addTriangle` never reaches its empty-set failure.
- The set is not always exactly the open vertices. The code never checks that v
  is open. When v is closed, its sector wraps from 0 to 9 free units, and it is
  not put back into the set. This is reachable from the seed. Force vertex 0
  eight times, which closes it; vertex 1 still has vertex 0 as its left
  neighbour. Then choose vertex 1.
  - `Growth.AttachedExact` proves that exactness survives a step exactly when v
    was open.
  - `Growth.ClosedNeighbourBreaksExactness` and `Growth.SeedBreaksExactness`
    exhibit the failure.

  The model keeps the code's behaviour. It does not assume v is open.

Two behaviours of the code worth noting:

- The code's comment (main.js:8-10) says the arc from `right` counter-clockwise
  to `left` is covered. The free count `(right - left + 10) % 10` agrees with
  that comment.
- The code never checks that v is open (see above).
- The code has no halt result. On an empty set it throws a TypeError at
  `u.left` (main.js:92), before changing anything. The model returns `None`
  (the class returns `false`) and leaves the state unchanged. The case cannot
  be reached from the seed (`Growth.SeedNeverEmpties`).

## Model

| member | source | states |
|---|---|---|
| `Angles.Rem10` | main.js:110-112 | JavaScript `% 10`: the remainder is truncated, has the dividend's sign and is congruent to it; for 0..19 it is the value minus a possible ten |
| `Angles.ReverseAngle` | main.js:157-160 | the flipped direction is congruent to n + 5 mod 10 and lies in 0..9 for every n >= -5 |
| `Angles.ReverseAngleInvolutive` | main.js:157-160 | flipping never fixes a direction, and flipping twice gives it back |
| `Topology.SetAdd` | main.js:128 | `Set.add`: the members become the old ones plus x; a new x is appended at the end and the old members keep their positions; adding a present x changes nothing; there are still no duplicates |
| `Topology.SetDelete` | main.js:134-136 | `Set.delete`: the members become the old ones minus x; there are still no duplicates; the size drops by one exactly when x was present; deleting an absent x changes nothing |
| `Topology.SetDeleteKeepsOrder` | main.js:134-136 | deleting the member at position k closes the gap: the members before and after it keep their iteration order |
| `Topology.MaxAvailableAngle` | main.js:148-151 | the free sector is the counter-clockwise turn from `left` to `right`, in 0..9, and is 0 exactly when the two edges coincide |
| `Topology.SeedVerticesReciprocal` | main.js:19-59 | the three seed vertices are stored at their own indices, link only to other seed vertices, and their left and right links pair up with reversed directions |
| `Topology.Seed` | main.js:17-67 | the seed satisfies the invariant and is exact; it has three vertices with free sectors 8, 8 and 9 (vertex 2 has the 36-degree apex), one triangle, available set {0, 1, 2}, and left links that go round 0 -> 2 -> 1 -> 0 |
| `Topology.ChooseVertex` | main.js:104-107 | the choice succeeds exactly when the draw is within the set, and then returns a stored, open member |
| `Topology.CreateThirdVertex` | main.js:109-146 | one vertex is added and the triangles are untouched; no vertex other than u and v changes; the set gains at most the new index w; when indices equal positions, w is in the set afterwards (the full step is stated by `Growth.GrowAtAttaches`) |
| `Topology.GrowAt` | main.js:91-101 | one vertex and one triangle are added, and the new vertex w is always in the set afterwards, so the set is not empty |
| `Topology.AddTriangle` | main.js:90-102 | fails exactly when the draw is outside the set; on success the new set is not empty (the invariant is stated by `Growth.AddTriangleSteps`) |
| `Growth.GrowAtAttaches` | main.js:90-146 | one step (`createThirdVertex` after deriving v, then the triangle push) does exactly what `Attached` describes: it appends w at index old length, links w between u and v, changes only u.left and v.right, appends (u, v, w), adds w to the set and drops u and v exactly when closed |
| `Growth.NarrowLeft` | main.js:110 | turning the left edge one unit narrows the free sector by one (from 0 it wraps to 9) |
| `Growth.NarrowRight` | main.js:112 | turning the right edge one unit back narrows the free sector by one (from 0 it wraps to 9) |
| `Growth.NewVertexSector` | main.js:117-124 | the new vertex's edges, reversed from the two new edges, leave it seven free units |
| `Growth.AttachedFreeSectors` | main.js:110-128 | after a step, u's and v's free sectors are each one less (wrapping only from 0), and w's is exactly 7 |
| `Growth.AttachedWellIndexed` | main.js:113-140 | after a step every vertex is still stored at its own index and links to stored vertices other than itself |
| `Growth.AttachedReciprocal` | main.js:113-140 | after a step, vertices are still stored at their indices, and the left/right links still pair up with reversed directions in both directions |
| `Growth.AttachedUntouched` | main.js:109-146 | a vertex other than u, v and w keeps its links and its membership in the set |
| `Growth.AttachedValid` | main.js:109-146 | a step preserves the whole invariant: reciprocal links, a sound duplicate-free set, and triangles in range with two more vertices than triangles |
| `Growth.GrowAtValid` | main.js:90-102 | growing at any stored vertex preserves the invariant |
| `Growth.AddTriangleSteps` | main.js:90-107 | `addTriangle` fails exactly when the draw is outside the set, always when the set is empty; otherwise it is the step at the drawn vertex and keeps the invariant |
| `Growth.Run` | main.js:162-166 | the driver loop as a sequence of draws: every state it reaches satisfies the invariant and has one more vertex per draw |
| `Growth.RunKeepsAvailable` | main.js:90-128 | from a state with an available vertex, every state the draws reach still has one, so the next draw succeeds |
| `Growth.SeedNeverEmpties` | main.js:17-166 | from the seed, whatever the draws, the next `addTriangle` never meets an empty set |
| `Growth.AttachedExact` | main.js:134-143 | from an exact set and an available u, the set stays exact after the step if and only if v was open |
| `Growth.Repeat` | main.js:162-166 | k repeated steps at u preserve the invariant and add k vertices; afterwards u's left neighbour is the last vertex added |
| `Growth.RepeatStep` | main.js:90-146 | the last of k forced steps is an `Attached` step |
| `Growth.Trace` | main.js:162-166 | the states that k forced steps pass through form a run of `Attached` steps from the start to `Repeat`'s result |
| `Growth.ForcedStep` | main.js:130-136 | one forced step at an available u takes one unit from u, keeps u in the set exactly while it is open, and makes the new vertex, with 7 free units, u's left neighbour |
| `Growth.RunShape` | main.js:109-146 | along a run of forced steps the invariant holds, one vertex is added per step, and u's left neighbour is the vertex added last |
| `Growth.RunClosing` | main.js:130-136 | the closing count along any run of forced steps (the general form of `ForcedClosing`) |
| `Growth.RunLeavesOthers` | main.js:109-146 | along any run of forced steps, vertices other than u and its first left neighbour keep their links and membership |
| `Growth.RunExact` | main.js:128-143 | along any run of forced steps from an exact state, exactness is kept when u's left neighbour starts open |
| `Growth.ForcedClosing` | main.js:130-136 | forcing an available u k times, for k up to its free count c, leaves c - k free units; u stays in the set exactly while k < c; its new left neighbour has 7 free units |
| `Growth.ForcedLeavesOthers` | main.js:109-146 | forced growth at u never changes, adds or removes any vertex other than u and its original left neighbour |
| `Growth.ForcedExact` | main.js:128-143 | forced growth at an available u keeps the set exact when u's left neighbour starts open |
| `Growth.FirstStep` | main.js:90-146 | from the seed, any draw in range succeeds; the result has four vertices, two triangles and four available vertices, and is exact |
| `Growth.ClosedNeighbourBreaksExactness` | main.js:137-143 | closing u by forced growth keeps the set exact; but growing next at u's right neighbour x wraps the closed u to 9 free units, leaves it out of the set, and so breaks exactness |
| `Growth.SeedBreaksExactness` | main.js:90-143 | from the seed, eight forced steps at vertex 0 leave an exact state with vertex 1 available; growing at vertex 1 then breaks exactness |
| `Grower.Tiling.constructor` | main.js:17-67 | the initial fields are the seed state, which is valid and exact |
| `Grower.Tiling.ChooseVertex` | main.js:104-107 | returns the member at position r of the set's iteration order, which is stored and open; returns `None` exactly when r is past the end |
| `Grower.Tiling.CreateThirdVertex` | main.js:109-146 | the in-place updates give exactly the state `Topology.CreateThirdVertex` describes; w is the old vertex count |
| `Grower.Tiling.AddTriangle` | main.js:90-102 | keeps the invariant; it succeeds exactly when the draw is within the set; on success the new state is the `Attached` step at the drawn vertex and the set is not empty; on failure nothing changes |

## Left out

- Canvas drawing (`draw`, `drawTriangle`) and the colours of the triangles are rendering output. The triangle records keep only their three corners.
- The timer loop `main` is an unbounded driver with a 10 ms delay. It is modelled as `Growth.Run` over a finite sequence of draws, and as `Growth.Repeat` for forced steps at one vertex; timing is not modelled.
- `Math.random` is replaced by the input index `r`. The index lies in `[0, size)` whenever the set is not empty.
- The vertex positions `x`, `y`, `PHI`, `THIRTY_SIX_DEGREES`, `dist` and the trigonometry are floating-point geometry. They are dropped, so nothing is claimed about triangles not overlapping in the plane.
- `initialSize` only scales positions, so it does not appear.
- Vertices are JavaScript objects reached only through the `vertices` array. The model holds them as values in a sequence and updates them by position. This loses no aliasing, because `u` and `v` in `createThirdVertex` are just the array's elements.
- The uncaught TypeError for an empty set is modelled as a failed step that leaves the state unchanged. From the seed this case cannot be reached (`Growth.SeedNeverEmpties`).
- `addTriangle` always takes v from `u.left`, so a step with a mismatched u and v cannot arise. The model's `Topology.CreateThirdVertex` accepts any two stored vertices, as the JavaScript function does.
