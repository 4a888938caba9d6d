// The combinatorial state of the growing tiling and the growth step,
// stated as functions on values. The class in tiling.dfy performs the same
// step by updating its fields in place and is proved to agree with these.

module Topology {
  import opened Angles

  datatype Option<T> = None | Some(value: T)

  /** A reference to a neighbouring vertex and the direction of the edge
      leading to it. */
  datatype Link = Link(index: nat, angle: Angle)

  /** A vertex of the tiling (its position is not modelled). The sector
      swept counter-clockwise from `right` to `left` is covered by
      triangles; the rest of the full turn is still free. */
  datatype Vertex = Vertex(index: nat, right: Link, left: Link)

  /** A triangle of the tiling, by the indices of its three corners
      (its stroke and fill colours are not modelled). */
  datatype Triangle = Triangle(u: nat, v: nat, w: nat)

  /** The whole bookkeeping: the vertex array, the set of open vertices in
      the insertion order in which a JavaScript `Set` iterates them, and the
      append-only triangle list. */
  datatype State = State(vertices: seq<Vertex>, available: seq<nat>, triangles: seq<Triangle>)

  // ---------------------------------------------------------------------
  // The JavaScript Set of available vertices, as an insertion-ordered list

  ghost predicate Distinct(s: seq<nat>)
  {
    forall i, j :: 0 <= i < j < |s| ==> s[i] != s[j]
  }

  /** `Set.prototype.add`: a new element goes to the end of the iteration
      order; adding an element already present changes nothing. */
  function SetAdd(s: seq<nat>, x: nat): (r: seq<nat>)
    ensures forall y :: y in r <==> y in s || y == x
    ensures Distinct(s) ==> Distinct(r)
    ensures x !in s ==> |r| == |s| + 1 && r[..|s|] == s && r[|s|] == x
    ensures x in s ==> r == s
  {
    if x in s then s else s + [x]
  }

  /** `Set.prototype.delete`: drops the element and keeps the iteration
      order of the others; deleting an absent element changes nothing. */
  function SetDelete(s: seq<nat>, x: nat): (r: seq<nat>)
    ensures forall y :: y in r <==> y in s && y != x
    ensures Distinct(s) ==> Distinct(r)
    ensures |r| <= |s|
    ensures x !in s ==> r == s
    ensures Distinct(s) && x in s ==> |r| == |s| - 1
  {
    if s == [] then []
    else if s[0] == x then SetDelete(s[1..], x)
    else
      var rest := SetDelete(s[1..], x);
      assert Distinct(s) ==> Distinct(s[1..]) && s[0] !in rest;
      [s[0]] + rest
  }

  /** Deleting the member at position k of a duplicate-free list closes
      the gap: the members before and after it keep their order. */
  lemma {:induction false} SetDeleteKeepsOrder(s: seq<nat>, x: nat, k: nat)
    requires Distinct(s) && k < |s| && s[k] == x
    ensures SetDelete(s, x) == s[..k] + s[k + 1..]
  {
    if k == 0 {
      assert x !in s[1..];
    } else {
      assert s[0] != x;
      SetDeleteKeepsOrder(s[1..], x, k - 1);
      assert s[1..][..k - 1] == s[1..k] && s[1..][k..] == s[k + 1..];
      assert s[..k] == [s[0]] + s[1..k];
    }
  }

  // ---------------------------------------------------------------------
  // Angular bookkeeping

  /** `maxAvailableAngle`: the free sector at a vertex, in units of 36
      degrees, i.e. the counter-clockwise turn from `left` back to `right`. */
  function MaxAvailableAngle(x: Vertex): (r: int)
    ensures 0 <= r < 10
    ensures r == 0 <==> x.right.angle == x.left.angle
    ensures r == if x.left.angle <= x.right.angle then x.right.angle - x.left.angle
                 else x.right.angle - x.left.angle + 10
  {
    Rem10(x.right.angle - x.left.angle + 10)
  }

  /** A vertex is open when its free sector is not empty. */
  predicate IsOpen(x: Vertex)
  {
    MaxAvailableAngle(x) != 0
  }

  // ---------------------------------------------------------------------
  // Invariants

  /** Every vertex is stored at its own index and links to stored vertices
      other than itself. */
  ghost predicate WellIndexed(vs: seq<Vertex>)
  {
    forall i :: 0 <= i < |vs| ==>
      vs[i].index == i &&
      vs[i].left.index < |vs| && vs[i].left.index != i &&
      vs[i].right.index < |vs| && vs[i].right.index != i
  }

  /** Left and right links pair up: when vertex i's left neighbour is j,
      then j's right neighbour is i along the reversed direction, and the
      other way round. */
  ghost predicate Reciprocal(vs: seq<Vertex>)
  {
    (forall i, j :: 0 <= i < |vs| && 0 <= j < |vs| && vs[i].left.index == j ==>
      vs[j].right == Link(i, ReverseAngle(vs[i].left.angle))) &&
    (forall i, j :: 0 <= i < |vs| && 0 <= j < |vs| && vs[j].right.index == i ==>
      vs[i].left == Link(j, ReverseAngle(vs[j].right.angle)))
  }

  /** Every member of the available set is a stored, open vertex, and the
      set has no duplicates. */
  ghost predicate AvailableSound(s: State)
  {
    Distinct(s.available) &&
    forall x :: x in s.available ==> x < |s.vertices| && IsOpen(s.vertices[x])
  }

  /** Every triangle names stored vertices, and there are two more vertices
      than triangles (the seed has three and one; each step adds one of each). */
  ghost predicate TrianglesInRange(s: State)
  {
    |s.vertices| == |s.triangles| + 2 &&
    forall k :: 0 <= k < |s.triangles| ==>
      s.triangles[k].u < |s.vertices| && s.triangles[k].v < |s.vertices| &&
      s.triangles[k].w < |s.vertices|
  }

  /** The invariant that every step preserves. */
  ghost predicate Valid(s: State)
  {
    WellIndexed(s.vertices) && Reciprocal(s.vertices) &&
    AvailableSound(s) && TrianglesInRange(s)
  }

  /** The available set holds every open vertex (together with
      `AvailableSound`: exactly the open vertices). */
  ghost predicate Exact(s: State)
  {
    forall i :: 0 <= i < |s.vertices| && IsOpen(s.vertices[i]) ==> i in s.available
  }

  // ---------------------------------------------------------------------
  // The seed state

  /** The seed vertices have reciprocal links. */
  lemma SeedVerticesReciprocal(vs: seq<Vertex>)
    requires vs == [ Vertex(0, Link(1, 0), Link(2, 2)),
                     Vertex(1, Link(2, 3), Link(0, 5)),
                     Vertex(2, Link(0, 7), Link(1, 8)) ]
    ensures WellIndexed(vs) && Reciprocal(vs)
  {
    forall i, j | 0 <= i < |vs| && 0 <= j < |vs| && vs[i].left.index == j
      ensures vs[j].right == Link(i, ReverseAngle(vs[i].left.angle))
    {
      assert i == 0 || i == 1 || i == 2;
    }
    forall i, j | 0 <= i < |vs| && 0 <= j < |vs| && vs[j].right.index == i
      ensures vs[i].left == Link(j, ReverseAngle(vs[j].right.angle))
    {
      assert j == 0 || j == 1 || j == 2;
    }
  }

  /** The seed state: the triangle (0, 1, 2) with its apex of 36 degrees
      at vertex 2 and its base from vertex 0 to vertex 1; all three vertices
      are open and the left links go round 0 -> 2 -> 1 -> 0. */
  function Seed(): (s: State)
    ensures Valid(s) && Exact(s)
    ensures |s.vertices| == 3 && |s.triangles| == 1
    ensures MaxAvailableAngle(s.vertices[0]) == 8
    ensures MaxAvailableAngle(s.vertices[1]) == 8
    ensures MaxAvailableAngle(s.vertices[2]) == 9
    ensures forall x :: x in s.available <==> x in {0, 1, 2}
    ensures s.vertices[0].left.index == 2 && s.vertices[2].left.index == 1 &&
            s.vertices[1].left.index == 0
  {
    var vs := [ Vertex(0, Link(1, 0), Link(2, 2)),
                Vertex(1, Link(2, 3), Link(0, 5)),
                Vertex(2, Link(0, 7), Link(1, 8)) ];
    SeedVerticesReciprocal(vs);
    assert MaxAvailableAngle(vs[0]) == 8 && MaxAvailableAngle(vs[1]) == 8 &&
           MaxAvailableAngle(vs[2]) == 9;
    var s := State(vs, [0, 1, 2], [Triangle(0, 1, 2)]);
    assert forall x :: x in s.available <==> x == 0 || x == 1 || x == 2;
    s
  }

  // ---------------------------------------------------------------------
  // The growth step

  /** `chooseVertex`: the random draw is the index `r` into the iteration
      order of the available set. With `r` past the end (only possible when
      the set is empty, where the draw is 0) the source dereferences
      `undefined` and throws; that is `None` here. */
  function ChooseVertex(s: State, r: nat): (u: Option<nat>)
    ensures u.Some? <==> r < |s.available|
    ensures u.Some? ==> u.value in s.available
    ensures u.Some? && AvailableSound(s) ==>
      u.value < |s.vertices| && IsOpen(s.vertices[u.value])
  {
    if r < |s.available| then Some(s.available[r]) else None
  }

  /** `createThirdVertex(u, v)`: appends the new vertex w between u and v,
      adds w to the available set, narrows u's free sector from its left
      edge and v's from its right edge by one unit each, and drops each of
      them from the set if its sector has closed. */
  function CreateThirdVertex(s: State, u: nat, v: nat): (t: State)
    requires u < |s.vertices| && v < |s.vertices|
    ensures |t.vertices| == |s.vertices| + 1 && t.triangles == s.triangles
    ensures forall i :: 0 <= i < |s.vertices| && i != u && i != v ==>
      t.vertices[i] == s.vertices[i]
    ensures forall x :: x in t.available ==> x in s.available || x == |s.vertices|
    ensures WellIndexed(s.vertices) ==> |s.vertices| in t.available
  {
    var uwAngle := Rem10(s.vertices[u].left.angle + 1);
    var vwAngle := Rem10(s.vertices[v].right.angle + 9);
    var w := |s.vertices|;
    var third := Vertex(w, Link(s.vertices[u].index, ReverseAngle(uwAngle)),
                           Link(s.vertices[v].index, ReverseAngle(vwAngle)));
    var vs1 := s.vertices + [third];
    var av1 := SetAdd(s.available, w);
    var vs2 := vs1[u := vs1[u].(left := Link(w, uwAngle))];
    var av2 := if MaxAvailableAngle(vs2[u]) == 0 then SetDelete(av1, vs2[u].index) else av1;
    var vs3 := vs2[v := vs2[v].(right := Link(w, vwAngle))];
    var av3 := if MaxAvailableAngle(vs3[v]) == 0 then SetDelete(av2, vs3[v].index) else av2;
    State(vs3, av3, s.triangles)
  }

  /** One growth step once u has been chosen: v is u's left neighbour, the
      third vertex is created and the triangle (u, v, w) is appended. */
  function GrowAt(s: State, u: nat): (t: State)
    requires Valid(s) && u < |s.vertices|
    ensures |t.vertices| == |s.vertices| + 1 && |t.triangles| == |s.triangles| + 1
    ensures |s.vertices| in t.available
  {
    var v := s.vertices[u].left.index;
    var t := CreateThirdVertex(s, u, v);
    t.(triangles := s.triangles + [Triangle(s.vertices[u].index, s.vertices[v].index, |s.vertices|)])
  }

  /** `addTriangle`: choose u by the draw `r`, then grow at u; `None` when
      the choice fails. */
  function AddTriangle(s: State, r: nat): (t: Option<State>)
    requires Valid(s)
    ensures t.None? <==> r >= |s.available|
    ensures t.Some? ==> |t.value.available| > 0
  {
    match ChooseVertex(s, r)
    case None => None
    case Some(u) => Some(GrowAt(s, u))
  }
}
