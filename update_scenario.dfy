/** The expectations of the `update` unit tests of schiebung-core/src/lib.rs, stated on the model's decision. */
module UpdateScenario {
  import opened Wrappers
  import opened CoreTypes
  import opened FrameGraph
  import opened TransformHistories
  import opened Buffer

  /** An edge from a frame to a new root of another tree is accepted, and the graph stays a forest. */
  lemma AcceptRootEdge(E: set<Edge>, rank: map<Frame, nat>, s: Frame, t: Frame)
    requires IsForest(E) && Ranked(E, rank) && (s, t) !in E
    requires s != t && Root(E, rank, s) != Root(E, rank, t) && !HasParent(E, t)
    ensures !Rejects(E, (s, t)) && IsForest(E + {(s, t)})
  {
    SecondParentIff(E, (s, t));
    DecideNewEdge(E, rank, s, t);
    AcceptNewEdge(E, rank, s, t);
  }

  /** The ranking the path test's tree admits: A at the top, B and C below it, D and E below B. */
  ghost function PathRank(): map<Frame, nat> {
    map[0 := 0, 1 := 1, 2 := 1, 3 := 2, 4 := 2]
  }

  /** The update A to B of the path test is accepted on the empty graph (A = 0 ... E = 4). */
  lemma PathTreeFirst()
    ensures !Rejects({}, (0, 1)) && IsForest({(0, 1)})
  {
    var E: set<Edge> := {};
    assert !IsCyclicUndirected(E);
    assert Root(E, PathRank(), 0) == 0 && Root(E, PathRank(), 1) == 1 by {
      assert !HasParent(E, 0) && !HasParent(E, 1);
    }
    AcceptRootEdge(E, PathRank(), 0, 1);
    assert E + {(0, 1)} == {(0, 1)};
  }

  /** ... then A to C ... */
  lemma PathTreeSecond()
    ensures !Rejects({(0, 1)}, (0, 2)) && IsForest({(0, 1), (0, 2)})
  {
    PathTreeFirst();
    var E: set<Edge> := {(0, 1)};
    assert Root(E, PathRank(), 0) == 0 && Root(E, PathRank(), 2) == 2 by {
      assert !HasParent(E, 0) && !HasParent(E, 2);
    }
    AcceptRootEdge(E, PathRank(), 0, 2);
    assert E + {(0, 2)} == {(0, 1), (0, 2)};
  }

  /** ... then B to D ... */
  lemma PathTreeThird()
    ensures !Rejects({(0, 1), (0, 2)}, (1, 3)) && IsForest({(0, 1), (0, 2), (1, 3)})
  {
    PathTreeSecond();
    var E: set<Edge> := {(0, 1), (0, 2)};
    assert Root(E, PathRank(), 1) == 0 && Root(E, PathRank(), 3) == 3 by {
      assert !HasParent(E, 0) && !HasParent(E, 3);
      EdgeSameRoot(E, PathRank(), 0, 1);
    }
    AcceptRootEdge(E, PathRank(), 1, 3);
    assert E + {(1, 3)} == {(0, 1), (0, 2), (1, 3)};
  }

  /** ... and B to E: all four edges are accepted and form a forest. */
  lemma PathTreeAccepted()
    ensures !Rejects({(0, 1), (0, 2), (1, 3)}, (1, 4)) && IsForest({(0, 1), (0, 2), (1, 3), (1, 4)})
  {
    PathTreeThird();
    var E: set<Edge> := {(0, 1), (0, 2), (1, 3)};
    assert Root(E, PathRank(), 1) == 0 && Root(E, PathRank(), 4) == 4 by {
      assert !HasParent(E, 0) && !HasParent(E, 4);
      EdgeSameRoot(E, PathRank(), 0, 1);
    }
    AcceptRootEdge(E, PathRank(), 1, 4);
    assert E + {(1, 4)} == {(0, 1), (0, 2), (1, 3), (1, 4)};
  }

  /** After A to B and B to C, the edge C to A closes a cycle: refused, and every frame stays. */
  lemma CycleRefused(g: map<Edge, TransformHistory>, sample: StampedIsometry, kind: TransformType, maxHistory: nat)
    requires g.Keys == {(0, 1), (1, 2)}
    ensures Updated(g, (2, 0), sample, kind, maxHistory) == (Err(InvalidGraph), g)
    ensures Endpoints(g.Keys) == {0, 1, 2}
  {
    var E := g.Keys + {(2, 0)};
    var w := [2, 1, 0];
    assert IsWalk(E - {(2, 0)}, w);
    assert OnCycle(E, (2, 0));
    assert Endpoints(g.Keys) == {0, 1, 2} by {
      EndpointsTouch(g.Keys, 0);
      EndpointsTouch(g.Keys, 1);
      EndpointsTouch(g.Keys, 2);
    }
  }

  /** After A to B, C to B gives B a second parent: refused, and C is not a frame of the graph. */
  lemma SecondParentRefused(g: map<Edge, TransformHistory>, sample: StampedIsometry, kind: TransformType, maxHistory: nat)
    requires g.Keys == {(0, 1)}
    ensures Updated(g, (2, 1), sample, kind, maxHistory) == (Err(InvalidGraph), g)
    ensures 2 !in Endpoints(g.Keys)
  {
    assert (0, 1) in g.Keys;
    SecondParentIff(g.Keys, (2, 1));
  }

  /** Two updates of A to B: the edge holds both samples, the newer at the back, whatever its kind. */
  lemma TwoSamples(s1: StampedIsometry, s2: StampedIsometry, kind: TransformType, maxHistory: nat)
    requires maxHistory >= 2
    ensures var (r1, g1) := Updated(map[], (0, 1), s1, kind, maxHistory);
      var (r2, g2) := Updated(g1, (0, 1), s2, kind, maxHistory);
      && r1 == Ok(()) && r2 == Ok(())
      && g2.Keys == {(0, 1)} && g2[(0, 1)] == TransformHistory([s1, s2], kind, maxHistory)
  {
    PathTreeFirst();
    var g0: map<Edge, TransformHistory> := map[];
    assert g0.Keys == {};
    var h1 := TransformHistory([s1], kind, maxHistory);
    var g1 := g0[(0, 1) := h1];
    assert Updated(g0, (0, 1), s1, kind, maxHistory) == (Ok(()), g1);
    var h2 := h1.Update(s2);
    assert h2 == TransformHistory([s1, s2], kind, maxHistory) by {
      assert |h2.history| == 2;
    }
    assert Updated(g1, (0, 1), s2, kind, maxHistory) == (Ok(()), g1[(0, 1) := h2]);
  }
}
