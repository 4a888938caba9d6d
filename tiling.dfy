// The growing tiling as the program keeps it: mutable state that each
// growth step updates in place. Every method is proved to do exactly what
// the functions of module Topology describe, so the lemmas of module Growth
// carry over to it.

module Grower {
  import opened Angles
  import opened Topology
  import Growth

  class Tiling {
    /** `vertices`: vertex i is stored at position i and never removed. */
    var vertices: seq<Vertex>
    /** `availableVertices`: the open vertices, in the order a JavaScript
        `Set` iterates them (insertion order). */
    var availableVertices: seq<nat>
    /** `triangles`: append-only. */
    var triangles: seq<Triangle>

    /** The three fields as one value of the functional model. */
    ghost function Model(): Topology.State
      reads this
    {
      Topology.State(vertices, availableVertices, triangles)
    }

    ghost predicate Valid()
      reads this
    {
      Topology.Valid(Model())
    }

    /** The seed state: triangle (0, 1, 2), all three vertices available. */
    constructor ()
      ensures Model() == Seed()
      ensures Valid() && Exact(Model())
    {
      vertices := [ Vertex(0, Link(1, 0), Link(2, 2)),
                    Vertex(1, Link(2, 3), Link(0, 5)),
                    Vertex(2, Link(0, 7), Link(1, 8)) ];
      availableVertices := [0, 1, 2];
      triangles := [Triangle(0, 1, 2)];
    }

    /** `chooseVertex`: the draw `r` indexes the iteration order of the
        available set; `None` where the source would throw. */
    method ChooseVertex(r: nat) returns (u: Option<nat>)
      requires Valid()
      ensures u == Topology.ChooseVertex(Model(), r)
      ensures u.Some? <==> r < |availableVertices|
      ensures u.Some? ==> u.value in availableVertices && u.value < |vertices| &&
                          IsOpen(vertices[u.value])
    {
      if r < |availableVertices| {
        u := Some(availableVertices[r]);
      } else {
        u := None;
      }
    }

    /** `createThirdVertex(u, v)`: pushes the new vertex w, adds it to the
        available set, rewrites `u.left` and `v.right` to point at w, and
        deletes u and v from the set when their sectors have closed. */
    method CreateThirdVertex(u: nat, v: nat) returns (w: nat)
      requires u < |vertices| && v < |vertices|
      modifies this
      ensures w == old(|vertices|)
      ensures Model() == Topology.CreateThirdVertex(old(Model()), u, v)
    {
      var uwAngle := Rem10(vertices[u].left.angle + 1);
      var vwAngle := Rem10(vertices[v].right.angle + 9);
      w := |vertices|;
      var third := Vertex(w, Link(vertices[u].index, ReverseAngle(uwAngle)),
                             Link(vertices[v].index, ReverseAngle(vwAngle)));
      vertices := vertices + [third];
      availableVertices := SetAdd(availableVertices, w);

      vertices := vertices[u := vertices[u].(left := Link(w, uwAngle))];
      if MaxAvailableAngle(vertices[u]) == 0 {
        availableVertices := SetDelete(availableVertices, vertices[u].index);
      }
      vertices := vertices[v := vertices[v].(right := Link(w, vwAngle))];
      if MaxAvailableAngle(vertices[v]) == 0 {
        availableVertices := SetDelete(availableVertices, vertices[v].index);
      }
    }

    /** `addTriangle`: chooses u by the draw `r`, takes v as u's left
        neighbour, creates w and appends the triangle (u, v, w). Returns
        false, changing nothing, where the source would throw (the draw
        falls outside the available set, i.e. the set is empty). */
    method AddTriangle(r: nat) returns (added: bool)
      requires Valid()
      modifies this
      ensures Valid()
      ensures added <==> r < old(|availableVertices|)
      ensures added ==> |availableVertices| > 0
      ensures added ==> Some(Model()) == Topology.AddTriangle(old(Model()), r)
      ensures added ==> Growth.Attached(old(Model()), old(availableVertices[r]), Model())
      ensures !added ==> Model() == old(Model())
    {
      var choice := ChooseVertex(r);
      if choice.None? {
        return false;
      }
      var u := choice.value;
      var v := vertices[u].left.index;
      ghost var before := Model();
      var w := CreateThirdVertex(u, v);
      triangles := triangles + [Triangle(vertices[u].index, vertices[v].index, w)];
      assert Model() == GrowAt(before, u);
      Growth.GrowAtAttaches(before, u);
      Growth.AttachedValid(before, u, Model());
      added := true;
    }
  }
}
