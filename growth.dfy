// What one growth step does to the bookkeeping, and what repeated steps
// at one vertex do.

module Growth {
  import opened Angles
  import opened Topology

  /** The free sector after narrowing it by one unit: one less, except
      that an empty sector wraps round to nine. */
  function Narrowed(c: int): int
  {
    if c > 0 then c - 1 else 9
  }

  /** What one step at u does to the vertices and triangles, with v the
      left neighbour of u and w the new vertex: w is appended, linked between
      u and v; only u's left link and v's right link are rewritten, each
      turned one unit into the free sector and pointed at w; the triangle
      (u, v, w) is appended; every other vertex is unchanged. */
  ghost predicate LinksAttached(s: State, u: nat, t: State)
    requires Valid(s) && u < |s.vertices|
  {
    var v, w := s.vertices[u].left.index, |s.vertices|;
    |t.vertices| == w + 1 && u != v &&
    t.vertices[w].index == w &&
    t.vertices[w].right == Link(u, ReverseAngle(t.vertices[u].left.angle)) &&
    t.vertices[w].left == Link(v, ReverseAngle(t.vertices[v].right.angle)) &&
    t.vertices[u] == s.vertices[u].(left := Link(w, t.vertices[u].left.angle)) &&
    t.vertices[v] == s.vertices[v].(right := Link(w, t.vertices[v].right.angle)) &&
    t.vertices[u].left.angle == Rem10(s.vertices[u].left.angle + 1) &&
    t.vertices[v].right.angle == Rem10(s.vertices[v].right.angle + 9) &&
    (forall i :: 0 <= i < w && i != u && i != v ==> t.vertices[i] == s.vertices[i]) &&
    t.triangles == s.triangles + [Triangle(u, v, w)]
  }

  /** What one step at u does to the available set: w joins it, u and v
      leave it exactly when their sectors have closed, nothing else changes,
      and it stays free of duplicates. */
  ghost predicate SetAttached(s: State, u: nat, t: State)
    requires Valid(s) && u < |s.vertices| && |t.vertices| > |s.vertices|
  {
    var v, w := s.vertices[u].left.index, |s.vertices|;
    Distinct(t.available) &&
    |t.available| == |s.available| + 1
      - (if u in s.available && !IsOpen(t.vertices[u]) then 1 else 0)
      - (if v in s.available && !IsOpen(t.vertices[v]) then 1 else 0) &&
    forall x :: x in t.available <==>
      (x in s.available || x == w) &&
      (x == u ==> IsOpen(t.vertices[u])) &&
      (x == v ==> IsOpen(t.vertices[v]))
  }

  /** The relation between the state before and after growing at u. */
  ghost predicate Attached(s: State, u: nat, t: State)
    requires Valid(s) && u < |s.vertices|
  {
    LinksAttached(s, u, t) && SetAttached(s, u, t)
  }

  /** `GrowAt` performs exactly the step that `Attached` describes. */
  lemma GrowAtAttaches(s: State, u: nat)
    requires Valid(s) && u < |s.vertices|
    ensures Attached(s, u, GrowAt(s, u))
  {
    var t := GrowAt(s, u);
    assert LinksAttached(s, u, t);
    assert SetAttached(s, u, t);
  }

  /** Turning the left edge one unit clockwise narrows the free sector. */
  lemma NarrowLeft(x: Vertex, y: Vertex)
    requires y.right == x.right && y.left.angle == Rem10(x.left.angle + 1)
    ensures MaxAvailableAngle(y) == Narrowed(MaxAvailableAngle(x))
  {
  }

  /** Turning the right edge one unit counter-clockwise narrows the free
      sector. */
  lemma NarrowRight(x: Vertex, y: Vertex)
    requires y.left == x.left && y.right.angle == Rem10(x.right.angle + 9)
    ensures MaxAvailableAngle(y) == Narrowed(MaxAvailableAngle(x))
  {
  }

  /** The sector left free at the new vertex w: its edges point back along
      the two new edges, turned one unit in from u's old left edge (angle
      a) and from v's old right edge (angle a + 5). */
  lemma NewVertexSector(a: Angle, uw: Angle, vw: Angle, x: Vertex)
    requires uw == Rem10(a + 1) && vw == Rem10(ReverseAngle(a) + 9)
    requires x.right.angle == ReverseAngle(uw) && x.left.angle == ReverseAngle(vw)
    ensures MaxAvailableAngle(x) == 7
  {
  }

  /** u and v each lose exactly one unit of free sector (an empty sector
      wraps to nine, which u never has: it was chosen from the available
      set), and, given the reciprocal links, the new vertex w starts with
      seven units free: the 108-degree apex takes three. */
  lemma AttachedFreeSectors(s: State, u: nat, t: State)
    requires Valid(s) && u < |s.vertices| && Attached(s, u, t)
    ensures var v, w := s.vertices[u].left.index, |s.vertices|;
      |t.vertices| == w + 1 &&
      MaxAvailableAngle(t.vertices[u]) == Narrowed(MaxAvailableAngle(s.vertices[u])) &&
      MaxAvailableAngle(t.vertices[v]) == Narrowed(MaxAvailableAngle(s.vertices[v])) &&
      MaxAvailableAngle(t.vertices[w]) == 7
  {
    var v, w := s.vertices[u].left.index, |s.vertices|;
    NarrowLeft(s.vertices[u], t.vertices[u]);
    NarrowRight(s.vertices[v], t.vertices[v]);
    assert s.vertices[v].right.angle == ReverseAngle(s.vertices[u].left.angle);
    NewVertexSector(s.vertices[u].left.angle, t.vertices[u].left.angle,
                    t.vertices[v].right.angle, t.vertices[w]);
  }

  /** One left link of the new state is matched by the right link it
      points at. */
  lemma LeftLinkMatched(s: State, u: nat, t: State, i: nat)
    requires Valid(s) && u < |s.vertices| && LinksAttached(s, u, t)
    requires i < |t.vertices|
    ensures t.vertices[i].left.index < |t.vertices|
    ensures t.vertices[t.vertices[i].left.index].right ==
            Link(i, ReverseAngle(t.vertices[i].left.angle))
  {
    var v, w, vs := s.vertices[u].left.index, |s.vertices|, t.vertices;
    if i == u {
    } else if i == w {
      ReverseAngleInvolutive(vs[v].right.angle);
    } else {
      var j := s.vertices[i].left.index;
      assert s.vertices[j].right == Link(i, ReverseAngle(s.vertices[i].left.angle));
      assert s.vertices[v].right.index == u;
      assert j != v;
    }
  }

  /** One right link of the new state is matched by the left link it
      points at. */
  lemma RightLinkMatched(s: State, u: nat, t: State, j: nat)
    requires Valid(s) && u < |s.vertices| && LinksAttached(s, u, t)
    requires j < |t.vertices|
    ensures t.vertices[j].right.index < |t.vertices|
    ensures t.vertices[t.vertices[j].right.index].left ==
            Link(j, ReverseAngle(t.vertices[j].right.angle))
  {
    var v, w, vs := s.vertices[u].left.index, |s.vertices|, t.vertices;
    if j == v {
    } else if j == w {
      ReverseAngleInvolutive(vs[u].left.angle);
    } else {
      var i := s.vertices[j].right.index;
      assert s.vertices[i].left == Link(j, ReverseAngle(s.vertices[j].right.angle));
      assert i != u;
    }
  }

  /** After a step every vertex is still stored at its own index and
      links to stored vertices other than itself. */
  lemma AttachedWellIndexed(s: State, u: nat, t: State)
    requires Valid(s) && u < |s.vertices| && LinksAttached(s, u, t)
    ensures WellIndexed(t.vertices)
  {
    var vs := t.vertices;
    forall i | 0 <= i < |vs|
      ensures vs[i].index == i && vs[i].left.index < |vs| && vs[i].left.index != i &&
              vs[i].right.index < |vs| && vs[i].right.index != i
    {
      LeftLinkMatched(s, u, t, i);
      RightLinkMatched(s, u, t, i);
    }
  }

  /** The links stay reciprocal: the step pairs u with w and w with v. */
  lemma AttachedReciprocal(s: State, u: nat, t: State)
    requires Valid(s) && u < |s.vertices| && LinksAttached(s, u, t)
    ensures WellIndexed(t.vertices) && Reciprocal(t.vertices)
  {
    var vs := t.vertices;
    AttachedWellIndexed(s, u, t);
    forall i, j | 0 <= i < |vs| && 0 <= j < |vs| && vs[i].left.index == j
      ensures vs[j].right == Link(i, ReverseAngle(vs[i].left.angle))
    {
      LeftLinkMatched(s, u, t, i);
    }
    forall i, j | 0 <= i < |vs| && 0 <= j < |vs| && vs[j].right.index == i
      ensures vs[i].left == Link(j, ReverseAngle(vs[j].right.angle))
    {
      RightLinkMatched(s, u, t, j);
    }
  }

  /** The step preserves the invariant, whatever vertex it grows at. */
  lemma AttachedValid(s: State, u: nat, t: State)
    requires Valid(s) && u < |s.vertices| && Attached(s, u, t)
    ensures Valid(t)
  {
    AttachedFreeSectors(s, u, t);
    AttachedReciprocal(s, u, t);
  }

  /** A vertex other than u, v and w keeps its links and its membership. */
  lemma AttachedUntouched(s: State, u: nat, t: State, x: nat)
    requires Valid(s) && u < |s.vertices| && Attached(s, u, t)
    requires x < |s.vertices| && x != u && x != s.vertices[u].left.index
    ensures t.vertices[x] == s.vertices[x]
    ensures x in t.available <==> x in s.available
  {
  }

  /** Growing preserves the invariant. */
  lemma GrowAtValid(s: State, u: nat)
    requires Valid(s) && u < |s.vertices|
    ensures Valid(GrowAt(s, u))
  {
    GrowAtAttaches(s, u);
    AttachedValid(s, u, GrowAt(s, u));
  }

  /** `addTriangle` halts, changing nothing, exactly when the draw falls
      outside the available set (always so when the set is empty);
      otherwise it grows at the drawn vertex and keeps the invariant. */
  lemma AddTriangleSteps(s: State, r: nat)
    requires Valid(s)
    ensures AddTriangle(s, r).None? <==> r >= |s.available|
    ensures s.available == [] ==> AddTriangle(s, r).None?
    ensures AddTriangle(s, r).Some? ==>
      Valid(AddTriangle(s, r).value) &&
      Attached(s, s.available[r], AddTriangle(s, r).value)
  {
    if r < |s.available| {
      assert s.available[r] in s.available;
      GrowAtAttaches(s, s.available[r]);
      AttachedValid(s, s.available[r], GrowAt(s, s.available[r]));
    }
  }

  /** The state after the draws `rs` in turn, each one a call of
      `addTriangle`; `None` once a draw falls outside the set. */
  function Run(s: State, rs: seq<nat>): (t: Option<State>)
    requires Valid(s)
    ensures t.Some? ==> Valid(t.value) && |t.value.vertices| == |s.vertices| + |rs|
    decreases |rs|
  {
    if rs == [] then Some(s)
    else
      AddTriangleSteps(s, rs[0]);
      match AddTriangle(s, rs[0])
      case None => None
      case Some(p) => Run(p, rs[1..])
  }

  /** The available set never runs empty: from a state with an available
      vertex, in particular the seed, every state the draws reach has one
      again, so the draw `Math.floor(Math.random() * size)` always lands in
      the set and the empty-set failure of `addTriangle` cannot happen. */
  lemma {:induction false} RunKeepsAvailable(s: State, rs: seq<nat>)
    requires Valid(s) && |s.available| > 0
    ensures Run(s, rs).Some? ==>
      |Run(s, rs).value.available| > 0 && AddTriangle(Run(s, rs).value, 0).Some?
    decreases |rs|
  {
    if rs != [] {
      AddTriangleSteps(s, rs[0]);
      match AddTriangle(s, rs[0])
      case None =>
      case Some(p) =>
        RunKeepsAvailable(p, rs[1..]);
    }
  }

  /** From the seed, growth never halts for lack of an available vertex. */
  lemma SeedNeverEmpties(rs: seq<nat>)
    ensures Run(Seed(), rs).Some? ==> AddTriangle(Run(Seed(), rs).value, 0).Some?
  {
    RunKeepsAvailable(Seed(), rs);
  }

  /** Starting from an exact available set, the set stays exact after
      growing at an available u exactly when u's left neighbour v was open.
      When v was closed its sector wraps round to nine free units and v,
      not being in the set, is not put back. */
  lemma AttachedExact(s: State, u: nat, t: State)
    requires Valid(s) && u in s.available && Exact(s) && Attached(s, u, t)
    ensures Exact(t) <==> IsOpen(s.vertices[s.vertices[u].left.index])
  {
    var v, w := s.vertices[u].left.index, |s.vertices|;
    AttachedFreeSectors(s, u, t);
    if IsOpen(s.vertices[v]) {
      forall i | 0 <= i < |t.vertices| && IsOpen(t.vertices[i])
        ensures i in t.available
      {
        if i != w && i != u && i != v {
          assert t.vertices[i] == s.vertices[i];
        }
      }
    } else {
      assert v !in s.available;
      assert IsOpen(t.vertices[v]) && v !in t.available;
    }
  }

  /** Growing k times in a row at the same vertex u (the draw forced to
      pick u every time). */
  function Repeat(s: State, u: nat, k: nat): (t: State)
    requires Valid(s) && u < |s.vertices|
    ensures Valid(t) && |t.vertices| == |s.vertices| + k
    ensures k > 0 ==> t.vertices[u].left.index == |s.vertices| + k - 1
    decreases k
  {
    if k == 0 then s
    else
      var p := Repeat(s, u, k - 1);
      GrowAtAttaches(p, u);
      AttachedValid(p, u, GrowAt(p, u));
      GrowAt(p, u)
  }

  /** The last of k > 0 forced steps is an `Attached` step. */
  lemma RepeatStep(s: State, u: nat, k: nat)
    requires Valid(s) && u < |s.vertices| && k > 0
    ensures Attached(Repeat(s, u, k - 1), u, Repeat(s, u, k))
  {
    GrowAtAttaches(Repeat(s, u, k - 1), u);
  }

  /** Step i of the run `ts` is the `Attached` step at u. */
  ghost predicate StepAt(u: nat, ts: seq<State>, i: nat)
    requires i + 1 < |ts|
  {
    Valid(ts[i]) && u < |ts[i].vertices| && Attached(ts[i], u, ts[i + 1])
  }

  /** `ts` is a run of forced steps at u: each state is the `Attached`
      step at u from the one before it. */
  ghost predicate ForcedRun(u: nat, ts: seq<State>)
  {
    forall i: nat :: i + 1 < |ts| ==> StepAt(u, ts, i)
  }

  /** Dropping the last state of a forced run leaves a forced run, and
      its last step is an `Attached` step. */
  lemma RunPrefix(u: nat, ts: seq<State>)
    requires |ts| > 1 && ForcedRun(u, ts)
    ensures ForcedRun(u, ts[..|ts| - 1])
    ensures Valid(ts[|ts| - 2]) && u < |ts[|ts| - 2].vertices|
    ensures Attached(ts[|ts| - 2], u, ts[|ts| - 1])
  {
    var n, pre := |ts|, ts[..|ts| - 1];
    forall i: nat | i + 1 < |pre|
      ensures StepAt(u, pre, i)
    {
      assert StepAt(u, ts, i);
      assert pre[i] == ts[i] && pre[i + 1] == ts[i + 1];
    }
    assert StepAt(u, ts, n - 2);
  }

  /** A forced run extended by one more `Attached` step at u. */
  lemma RunExtend(u: nat, ts: seq<State>, t: State)
    requires |ts| > 0 && ForcedRun(u, ts)
    requires Valid(ts[|ts| - 1]) && u < |ts[|ts| - 1].vertices| && Attached(ts[|ts| - 1], u, t)
    ensures ForcedRun(u, ts + [t])
  {
    var ext := ts + [t];
    forall i: nat | i + 1 < |ext|
      ensures StepAt(u, ext, i)
    {
      if i + 1 < |ts| {
        assert StepAt(u, ts, i);
        assert ext[i] == ts[i] && ext[i + 1] == ts[i + 1];
      } else {
        assert ext[i] == ts[|ts| - 1] && ext[i + 1] == t;
      }
    }
  }

  /** The states that `Repeat` passes through, as a forced run. */
  function Trace(s: State, u: nat, k: nat): (ts: seq<State>)
    requires Valid(s) && u < |s.vertices|
    ensures |ts| == k + 1 && ts[0] == s && ts[k] == Repeat(s, u, k)
    ensures ForcedRun(u, ts)
    decreases k
  {
    if k == 0 then [s]
    else
      var prev := Trace(s, u, k - 1);
      RepeatStep(s, u, k);
      RunExtend(u, prev, Repeat(s, u, k));
      prev + [Repeat(s, u, k)]
  }

  /** Along a forced run the invariant holds, one vertex is added per step,
      and u's left neighbour is always the vertex added last. */
  lemma {:induction false} RunShape(u: nat, ts: seq<State>)
    requires |ts| > 0 && ForcedRun(u, ts) && Valid(ts[0]) && u < |ts[0].vertices|
    ensures Valid(ts[|ts| - 1])
    ensures |ts[|ts| - 1].vertices| == |ts[0].vertices| + |ts| - 1
    ensures |ts| > 1 ==> ts[|ts| - 1].vertices[u].left.index == |ts[0].vertices| + |ts| - 2
    decreases |ts|
  {
    if |ts| > 1 {
      var n := |ts|;
      RunPrefix(u, ts);
      assert ts[..n - 1][n - 2] == ts[n - 2] && ts[..n - 1][0] == ts[0];
      RunShape(u, ts[..n - 1]);
      AttachedValid(ts[n - 2], u, ts[n - 1]);
    }
  }

  /** One forced step at an available u: its sector narrows by one, it
      stays in the set exactly while its sector is open, and its new left
      neighbour is the new vertex, with seven free units. */
  lemma ForcedStep(p: State, u: nat, t: State)
    requires Valid(p) && u in p.available && Attached(p, u, t)
    ensures MaxAvailableAngle(t.vertices[u]) == MaxAvailableAngle(p.vertices[u]) - 1
    ensures u in t.available <==> IsOpen(t.vertices[u])
    ensures t.vertices[u].left.index == |p.vertices|
    ensures MaxAvailableAngle(t.vertices[|p.vertices|]) == 7
  {
    AttachedFreeSectors(p, u, t);
    assert u != |p.vertices|;
  }

  /** `ForcedClosing` along a forced run. */
  lemma {:induction false} RunClosing(u: nat, ts: seq<State>)
    requires |ts| > 0 && ForcedRun(u, ts) && Valid(ts[0]) && u in ts[0].available
    requires |ts| - 1 <= MaxAvailableAngle(ts[0].vertices[u])
    ensures var s, t := ts[0], ts[|ts| - 1];
      u < |t.vertices| &&
      MaxAvailableAngle(t.vertices[u]) == MaxAvailableAngle(s.vertices[u]) - (|ts| - 1) &&
      (u in t.available <==> |ts| - 1 < MaxAvailableAngle(s.vertices[u])) &&
      (|ts| > 1 ==> t.vertices[u].left.index < |t.vertices| &&
                    MaxAvailableAngle(t.vertices[t.vertices[u].left.index]) == 7)
    decreases |ts|
  {
    var n := |ts|;
    if n > 1 {
      RunPrefix(u, ts);
      assert ts[..n - 1][n - 2] == ts[n - 2] && ts[..n - 1][0] == ts[0];
      RunClosing(u, ts[..n - 1]);
      assert u in ts[n - 2].available;
      ForcedStep(ts[n - 2], u, ts[n - 1]);
    }
  }

  /** `ForcedLeavesOthers` along a forced run. */
  lemma {:induction false} RunLeavesOthers(u: nat, ts: seq<State>, x: nat)
    requires |ts| > 0 && ForcedRun(u, ts) && Valid(ts[0]) && u < |ts[0].vertices|
    requires x < |ts[0].vertices| && x != u && x != ts[0].vertices[u].left.index
    ensures x < |ts[|ts| - 1].vertices|
    ensures ts[|ts| - 1].vertices[x] == ts[0].vertices[x]
    ensures x in ts[|ts| - 1].available <==> x in ts[0].available
    decreases |ts|
  {
    var n := |ts|;
    if n > 1 {
      RunPrefix(u, ts);
      assert ts[..n - 1][n - 2] == ts[n - 2] && ts[..n - 1][0] == ts[0];
      RunLeavesOthers(u, ts[..n - 1], x);
      RunShape(u, ts[..n - 1]);
      assert x != ts[n - 2].vertices[u].left.index;
      AttachedUntouched(ts[n - 2], u, ts[n - 1], x);
    }
  }

  /** `ForcedExact` along a forced run. */
  lemma {:induction false} RunExact(u: nat, ts: seq<State>)
    requires |ts| > 0 && ForcedRun(u, ts) && Valid(ts[0]) && Exact(ts[0])
    requires u in ts[0].available && |ts| - 1 <= MaxAvailableAngle(ts[0].vertices[u])
    requires IsOpen(ts[0].vertices[ts[0].vertices[u].left.index])
    ensures Exact(ts[|ts| - 1])
    decreases |ts|
  {
    var n := |ts|;
    if n > 1 {
      var p := ts[n - 2];
      RunPrefix(u, ts);
      assert ts[..n - 1][n - 2] == p && ts[..n - 1][0] == ts[0];
      RunExact(u, ts[..n - 1]);
      RunClosing(u, ts[..n - 1]);
      assert u in p.available;
      assert IsOpen(p.vertices[p.vertices[u].left.index]) by {
        if n == 2 { assert p == ts[0]; }
      }
      AttachedExact(p, u, ts[n - 1]);
    }
  }

  /** Forcing the choice of an available vertex u: each step takes one
      unit of its free sector, it stays available while units remain, and
      after exactly as many steps as it had free units it is closed and
      gone from the set. Its left neighbour is then always the vertex added
      last, which has seven free units. */
  lemma ForcedClosing(s: State, u: nat, k: nat)
    requires Valid(s) && u in s.available && k <= MaxAvailableAngle(s.vertices[u])
    ensures var t := Repeat(s, u, k);
      MaxAvailableAngle(t.vertices[u]) == MaxAvailableAngle(s.vertices[u]) - k &&
      (u in t.available <==> k < MaxAvailableAngle(s.vertices[u])) &&
      (k > 0 ==> MaxAvailableAngle(t.vertices[t.vertices[u].left.index]) == 7)
  {
    RunClosing(u, Trace(s, u, k));
  }

  /** Vertices other than u and its original left neighbour are neither
      changed nor moved in or out of the set by forced growth at u. */
  lemma ForcedLeavesOthers(s: State, u: nat, k: nat, x: nat)
    requires Valid(s) && u < |s.vertices| && x < |s.vertices|
    requires x != u && x != s.vertices[u].left.index
    ensures Repeat(s, u, k).vertices[x] == s.vertices[x]
    ensures x in Repeat(s, u, k).available <==> x in s.available
  {
    RunLeavesOthers(u, Trace(s, u, k), x);
  }

  /** Forced growth at an available u keeps the set exact when u's left
      neighbour is open to begin with. */
  lemma ForcedExact(s: State, u: nat, k: nat)
    requires Valid(s) && Exact(s) && u in s.available
    requires k <= MaxAvailableAngle(s.vertices[u])
    requires IsOpen(s.vertices[s.vertices[u].left.index])
    ensures Exact(Repeat(s, u, k))
  {
    RunExact(u, Trace(s, u, k));
  }

  /** The first step from the seed closes nothing: whichever vertex is
      drawn, the set grows to four vertices and there are two triangles. */
  lemma FirstStep(r: nat)
    requires r < 3
    ensures AddTriangle(Seed(), r).Some?
    ensures var t := AddTriangle(Seed(), r).value;
      |t.vertices| == 4 && |t.triangles| == 2 && |t.available| == 4 && Exact(t)
  {
    var s := Seed();
    var u := s.available[r];
    var v := s.vertices[u].left.index;
    assert u in s.available;
    GrowAtAttaches(s, u);
    AttachedFreeSectors(s, u, GrowAt(s, u));
    AttachedExact(s, u, GrowAt(s, u));
  }

  /** The available set does not always stay exact. Let x be u's right
      neighbour (so x's left link points at u) and not also u's left
      neighbour. Forcing u until it closes keeps the set exact, but x still
      links to the closed u; choosing x next narrows u round to nine free
      units without putting it back in the set. */
  lemma ClosedNeighbourBreaksExactness(s: State, u: nat, x: nat)
    requires Valid(s) && Exact(s) && u in s.available && x in s.available
    requires s.vertices[x].left.index == u && x != s.vertices[u].left.index
    requires IsOpen(s.vertices[s.vertices[u].left.index])
    ensures var p := Repeat(s, u, MaxAvailableAngle(s.vertices[u]));
      Exact(p) && !IsOpen(p.vertices[u]) && u !in p.available &&
      x in p.available && p.vertices[x].left.index == u &&
      var t := GrowAt(p, x);
      MaxAvailableAngle(t.vertices[u]) == 9 && u !in t.available && !Exact(t)
  {
    var c := MaxAvailableAngle(s.vertices[u]);
    assert x != u;
    ForcedClosing(s, u, c);
    ForcedExact(s, u, c);
    ForcedLeavesOthers(s, u, c, x);
    var p := Repeat(s, u, c);
    GrowAtAttaches(p, x);
    AttachedFreeSectors(p, x, GrowAt(p, x));
    AttachedExact(p, x, GrowAt(p, x));
  }

  /** From the seed: eight forced steps at vertex 0 close it, and a ninth
      step, at vertex 1, leaves the open vertex 0 out of the available set. */
  lemma SeedBreaksExactness()
    ensures var p := Repeat(Seed(), 0, 8);
      Exact(p) && 1 in p.available && !Exact(GrowAt(p, 1))
  {
    var s := Seed();
    assert 0 in s.available && 1 in s.available;
    ClosedNeighbourBreaksExactness(s, 0, 1);
  }
}
