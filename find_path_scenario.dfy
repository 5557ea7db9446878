/** The tree of the `find_path` unit test of schiebung-core/src/lib.rs and the paths it expects. */
module FindPathScenario {
  import opened FrameGraph

  /** The ids the test's updates hand out: A = 0, B = 1, C = 2, D = 3, E = 4. */
  ghost function TestTree(): set<Edge> {
    {(0, 1), (0, 2), (1, 3), (1, 4)}
  }

  ghost function TestRank(): map<Frame, nat> {
    map[0 := 0, 1 := 1, 2 := 1, 3 := 2, 4 := 2]
  }

  /** The test tree is ranked by TestRank and every frame has at most one parent. */
  lemma TestShape()
    ensures Ranked(TestTree(), TestRank()) && SingleParent(TestTree())
  {
  }

  /** The ancestor chains of A, B and C. */
  lemma TestUpperChains()
    ensures Ranked(TestTree(), TestRank())
    ensures Ancestors(TestTree(), TestRank(), 0) == [0]
    ensures Ancestors(TestTree(), TestRank(), 1) == [1, 0]
    ensures Ancestors(TestTree(), TestRank(), 2) == [2, 0]
  {
    TestShape();
    var E, rank := TestTree(), TestRank();
    assert !HasParent(E, 0);
    EdgeSameRoot(E, rank, 0, 1);
    EdgeSameRoot(E, rank, 0, 2);
  }

  /** The ancestor chains of every frame of the test tree. */
  lemma TestChains()
    ensures Ranked(TestTree(), TestRank())
    ensures Ancestors(TestTree(), TestRank(), 0) == [0]
    ensures Ancestors(TestTree(), TestRank(), 1) == [1, 0]
    ensures Ancestors(TestTree(), TestRank(), 2) == [2, 0]
    ensures Ancestors(TestTree(), TestRank(), 3) == [3, 1, 0]
    ensures Ancestors(TestTree(), TestRank(), 4) == [4, 1, 0]
  {
    TestShape();
    TestUpperChains();
    var E, rank := TestTree(), TestRank();
    EdgeSameRoot(E, rank, 1, 3);
    EdgeSameRoot(E, rank, 1, 4);
  }

  // The paths, for any ranked graph in which the frames have the test tree's chains.

  /** D to B: B is the parent of D, so the first climb stops there. */
  lemma PathDToB(E: set<Edge>, rank: map<Frame, nat>)
    requires Ranked(E, rank) && Ancestors(E, rank, 3) == [3, 1, 0]
    ensures PathSpec(E, rank, 3, 1) == [3, 1]
  {
    var up := Ancestors(E, rank, 3);
    ClimbReachesTarget(E, rank, 3, 1);
    assert up[..2] == [3, 1];
  }

  /** D to C: the climb from C meets the chain of D at the root A. */
  lemma PathDToC(E: set<Edge>, rank: map<Frame, nat>)
    requires Ranked(E, rank) && Ancestors(E, rank, 3) == [3, 1, 0] && Ancestors(E, rank, 2) == [2, 0]
    ensures PathSpec(E, rank, 3, 2) == [3, 1, 0, 2]
  {
    var up, down := Ancestors(E, rank, 3), Ancestors(E, rank, 2);
    assert up[1..] == [1, 0];
    ClimbsMeet(E, rank, 3, 2, 1);
    assert IndexOf(up, 0) == 2 && down[..1] == [2];
  }

  /** D to E: the climb from E meets the chain of D at their common parent B. */
  lemma PathDToE(E: set<Edge>, rank: map<Frame, nat>)
    requires Ranked(E, rank) && Ancestors(E, rank, 3) == [3, 1, 0] && Ancestors(E, rank, 4) == [4, 1, 0]
    ensures PathSpec(E, rank, 3, 4) == [3, 1, 4]
  {
    var up, down := Ancestors(E, rank, 3), Ancestors(E, rank, 4);
    assert up[1..] == [1, 0];
    ClimbsMeet(E, rank, 3, 4, 1);
    assert IndexOf(up, 1) == 1 && down[..1] == [4];
  }

  /** A to E: A is the root, so the climb from E meets it at its end and the path only descends. */
  lemma PathAToE(E: set<Edge>, rank: map<Frame, nat>)
    requires Ranked(E, rank) && Ancestors(E, rank, 0) == [0] && Ancestors(E, rank, 4) == [4, 1, 0]
    ensures PathSpec(E, rank, 0, 4) == [0, 1, 4]
  {
    var up, down := Ancestors(E, rank, 0), Ancestors(E, rank, 4);
    assert up[1..] == [];
    ClimbsMeet(E, rank, 0, 4, 2);
    assert IndexOf(up, 0) == 0 && down[..2] == [4, 1];
    assert Reverse([4, 1]) == [1, 4];
  }

  /** `find_path` on the test tree: D to B, D to C, D to E and A to E as the test expects them. */
  lemma TestPaths()
    ensures Ranked(TestTree(), TestRank())
    ensures PathSpec(TestTree(), TestRank(), 3, 1) == [3, 1]
    ensures PathSpec(TestTree(), TestRank(), 3, 2) == [3, 1, 0, 2]
    ensures PathSpec(TestTree(), TestRank(), 3, 4) == [3, 1, 4]
    ensures PathSpec(TestTree(), TestRank(), 0, 4) == [0, 1, 4]
  {
    TestChains();
    PathDToB(TestTree(), TestRank());
    PathDToC(TestTree(), TestRank());
    PathDToE(TestTree(), TestRank());
    PathAToE(TestTree(), TestRank());
  }
}
