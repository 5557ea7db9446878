/**
  The frame graph of the transform buffer, as pure definitions and lemmas.

  Frames are the integer ids the name index hands out; an edge is a pair
  (parent, child). The buffer keeps the graph a forest: no undirected cycle
  and at most one parent per frame. Everything here is about a set of edges
  as a value; the buffer class keeps its edges in a map and states its
  contracts with these definitions.
*/
module FrameGraph {
  import opened Wrappers

  type Frame = nat

  /** A directed edge from a parent frame to a child frame. */
  type Edge = (Frame, Frame)

  // ---------------------------------------------------------------------------
  // Undirected walks and connectivity

  /** a and b are joined by an edge in one direction or the other. */
  ghost predicate Step(E: set<Edge>, a: Frame, b: Frame) {
    (a, b) in E || (b, a) in E
  }

  /** A non-empty sequence of frames whose neighbours are joined by edges, ignoring direction. */
  ghost predicate IsWalk(E: set<Edge>, w: seq<Frame>) {
    |w| >= 1 && forall i | 0 <= i < |w| - 1 :: Step(E, w[i], w[i + 1])
  }

  ghost predicate Connected(E: set<Edge>, a: Frame, b: Frame) {
    exists w :: IsWalk(E, w) && w[0] == a && w[|w| - 1] == b
  }

  /** `Vec::reverse` on a path. */
  function Reverse(s: seq<Frame>): (r: seq<Frame>)
    ensures |r| == |s|
    ensures forall i | 0 <= i < |s| :: r[i] == s[|s| - 1 - i]
  {
    seq(|s|, i requires 0 <= i < |s| => s[|s| - 1 - i])
  }

  lemma ConnectedRefl(E: set<Edge>, a: Frame)
    ensures Connected(E, a, a)
  {
    assert IsWalk(E, [a]);
  }

  lemma ConnectedByStep(E: set<Edge>, a: Frame, b: Frame)
    requires Step(E, a, b)
    ensures Connected(E, a, b)
  {
    assert IsWalk(E, [a, b]);
  }

  lemma ConnectedSym(E: set<Edge>, a: Frame, b: Frame)
    requires Connected(E, a, b)
    ensures Connected(E, b, a)
  {
    var w :| IsWalk(E, w) && w[0] == a && w[|w| - 1] == b;
    var r := Reverse(w);
    forall i | 0 <= i < |r| - 1
      ensures Step(E, r[i], r[i + 1])
    {
      assert Step(E, w[|w| - 2 - i], w[|w| - 1 - i]);
    }
    assert IsWalk(E, r);
  }

  lemma ConnectedTrans(E: set<Edge>, a: Frame, b: Frame, c: Frame)
    requires Connected(E, a, b) && Connected(E, b, c)
    ensures Connected(E, a, c)
  {
    var w1 :| IsWalk(E, w1) && w1[0] == a && w1[|w1| - 1] == b;
    var w2 :| IsWalk(E, w2) && w2[0] == b && w2[|w2| - 1] == c;
    var w := w1 + w2[1..];
    forall i | 0 <= i < |w| - 1
      ensures Step(E, w[i], w[i + 1])
    {
      if i < |w1| - 1 {
        assert Step(E, w1[i], w1[i + 1]);
      } else {
        var j := i - |w1| + 1;
        assert w[i] == w2[j] && w[i + 1] == w2[j + 1];
        assert Step(E, w2[j], w2[j + 1]);
      }
    }
    assert IsWalk(E, w);
  }

  lemma ConnectedMono(E: set<Edge>, F: set<Edge>, a: Frame, b: Frame)
    requires E <= F && Connected(E, a, b)
    ensures Connected(F, a, b)
  {
    var w :| IsWalk(E, w) && w[0] == a && w[|w| - 1] == b;
    assert forall i | 0 <= i < |w| - 1 :: Step(E, w[i], w[i + 1]) && Step(F, w[i], w[i + 1]);
    assert IsWalk(F, w);
  }

  // ---------------------------------------------------------------------------
  // Undirected cycles, parents, and the forest invariant

  /** An edge lies on an undirected cycle: it is a self loop, or its ends stay connected without it. */
  ghost predicate OnCycle(E: set<Edge>, e: Edge) {
    e in E && (e.0 == e.1 || Connected(E - {e}, e.0, e.1))
  }

  /** `petgraph::algo::is_cyclic_undirected`. */
  ghost predicate IsCyclicUndirected(E: set<Edge>) {
    exists e :: OnCycle(E, e)
  }

  /** The edges entering t, `neighbors_directed(t, Incoming)`. */
  ghost function Incoming(E: set<Edge>, t: Frame): set<Edge> {
    set e | e in E && e.1 == t
  }

  ghost predicate HasParent(E: set<Edge>, t: Frame) {
    exists e :: e in E && e.1 == t
  }

  /** The frames some edge touches. */
  ghost function Endpoints(E: set<Edge>): set<Frame> {
    (set e | e in E :: e.0) + (set e | e in E :: e.1)
  }

  ghost predicate SingleParent(E: set<Edge>) {
    forall e1, e2 | e1 in E && e2 in E && e1.1 == e2.1 :: e1 == e2
  }

  ghost predicate IsForest(E: set<Edge>) {
    SingleParent(E) && !IsCyclicUndirected(E)
  }

  /** The test `update` applies after adding a new edge e: a cycle, or a second parent for its child. */
  ghost predicate Rejects(E: set<Edge>, e: Edge) {
    IsCyclicUndirected(E + {e}) || |Incoming(E + {e}, e.1)| > 1
  }

  /** A walk that may use the extra edge (s, t) either joins its ends without it, or passes through s and t. */
  lemma {:induction false} DecomposeWalk(E: set<Edge>, s: Frame, t: Frame, w: seq<Frame>)
    requires IsWalk(E + {(s, t)}, w)
    ensures || Connected(E, w[0], w[|w| - 1])
            || (Connected(E, w[0], s) && Connected(E, t, w[|w| - 1]))
            || (Connected(E, w[0], t) && Connected(E, s, w[|w| - 1]))
    decreases |w|
  {
    var a, b := w[0], w[|w| - 1];
    if |w| == 1 {
      ConnectedRefl(E, a);
    } else {
      var p := w[..|w| - 1];
      assert forall i | 0 <= i < |p| :: p[i] == w[i];
      assert IsWalk(E + {(s, t)}, p);
      DecomposeWalk(E, s, t, p);
      var c := p[|p| - 1];
      assert c == w[|w| - 2];
      assert Step(E + {(s, t)}, c, b);
      if Step(E, c, b) {
        ConnectedByStep(E, c, b);
        if Connected(E, a, c) {
          ConnectedTrans(E, a, c, b);
        } else if Connected(E, a, s) && Connected(E, t, c) {
          ConnectedTrans(E, t, c, b);
        } else {
          ConnectedTrans(E, s, c, b);
        }
      } else if c == s && b == t {
        ConnectedRefl(E, t);
        if !Connected(E, a, c) && Connected(E, a, s) && Connected(E, t, c) {
          ConnectedSym(E, t, c);
          ConnectedTrans(E, a, s, t);
        }
      } else {
        assert c == t && b == s;
        ConnectedRefl(E, s);
        if !Connected(E, a, c) && !(Connected(E, a, s) && Connected(E, t, c)) {
          ConnectedSym(E, s, c);
          ConnectedTrans(E, a, t, s);
        }
      }
    }
  }

  /** In a forest, a new edge closes an undirected cycle exactly when it is a self loop or joins connected frames. */
  lemma CycleIff(E: set<Edge>, e: Edge)
    requires IsForest(E) && e !in E
    ensures IsCyclicUndirected(E + {e}) <==> e.0 == e.1 || Connected(E, e.0, e.1)
  {
    var s, t := e.0, e.1;
    var G := E + {e};
    assert G - {e} == E;
    if e.0 == e.1 || Connected(E, s, t) {
      assert OnCycle(G, e);
    }
    if IsCyclicUndirected(G) {
      var f :| OnCycle(G, f);
      if f != e {
        assert f in E;
        assert !OnCycle(E, f);
        var F := E - {f};
        assert G - {f} == F + {(s, t)};
        var w :| IsWalk(F + {(s, t)}, w) && w[0] == f.0 && w[|w| - 1] == f.1;
        DecomposeWalk(F, s, t, w);
        ConnectedByStep(E, f.0, f.1);
        ConnectedByStep(E, f.1, f.0);
        if Connected(F, f.0, s) && Connected(F, t, f.1) {
          ConnectedMono(F, E, f.0, s);
          ConnectedMono(F, E, t, f.1);
          ConnectedSym(E, f.0, s);
          ConnectedSym(E, t, f.1);
          ConnectedTrans(E, s, f.0, f.1);
          ConnectedTrans(E, s, f.1, t);
        } else {
          ConnectedMono(F, E, f.0, t);
          ConnectedMono(F, E, s, f.1);
          ConnectedTrans(E, s, f.1, f.0);
          ConnectedTrans(E, s, f.0, t);
        }
      }
    }
  }

  /** A new edge gives its child a second parent exactly when the child already has one. */
  lemma SecondParentIff(E: set<Edge>, e: Edge)
    requires e !in E
    ensures |Incoming(E + {e}, e.1)| > 1 <==> HasParent(E, e.1)
  {
    assert Incoming(E + {e}, e.1) == Incoming(E, e.1) + {e};
    assert e !in Incoming(E, e.1);
    if HasParent(E, e.1) {
      var p :| p in E && p.1 == e.1;
      assert p in Incoming(E, e.1);
    }
  }

  /**
    Starting from a forest, a new edge is refused exactly when it is a self
    loop, joins two frames that are already connected, or targets a frame
    that already has a parent.
  */
  lemma RejectsIff(E: set<Edge>, e: Edge)
    requires IsForest(E) && e !in E
    ensures Rejects(E, e) <==> e.0 == e.1 || Connected(E, e.0, e.1) || HasParent(E, e.1)
  {
    CycleIff(E, e);
    SecondParentIff(E, e);
  }

  /** An accepted edge keeps the graph a forest. */
  lemma AcceptKeepsForest(E: set<Edge>, e: Edge)
    requires IsForest(E) && e !in E && !Rejects(E, e)
    ensures IsForest(E + {e})
  {
    SecondParentIff(E, e);
    forall e1, e2 | e1 in E + {e} && e2 in E + {e} && e1.1 == e2.1
      ensures e1 == e2
    {
      if e1 == e || e2 == e {
        assert !HasParent(E, e.1);
      }
    }
  }

  // ---------------------------------------------------------------------------
  // Parents and ancestor chains

  /** The parent of x, the first (in a forest the only) incoming neighbour. */
  ghost function ParentOf(E: set<Edge>, x: Frame): (p: Option<Frame>)
    ensures p.Some? ==> (p.value, x) in E
    ensures p.None? <==> !HasParent(E, x)
  {
    if HasParent(E, x) then
      var e :| e in E && e.1 == x;
      Some(e.0)
    else
      None
  }

  lemma ParentOfEdge(E: set<Edge>, p: Frame, c: Frame)
    requires SingleParent(E) && (p, c) in E
    ensures ParentOf(E, c) == Some(p)
  {
  }

  /** A ranking that grows from parent to child; it bounds every walk up the graph. */
  ghost predicate Ranked(E: set<Edge>, rank: map<Frame, nat>) {
    forall e | e in E :: e.0 in rank && e.1 in rank && rank[e.0] < rank[e.1]
  }

  ghost function Height(rank: map<Frame, nat>, x: Frame): nat {
    if x in rank then rank[x] else 0
  }

  /** x, its parent, its grandparent, and so on up to the root of its tree. */
  ghost function Ancestors(E: set<Edge>, rank: map<Frame, nat>, x: Frame): (a: seq<Frame>)
    requires Ranked(E, rank)
    ensures |a| >= 1 && a[0] == x
    decreases Height(rank, x)
  {
    match ParentOf(E, x)
    case None => [x]
    case Some(p) => [x] + Ancestors(E, rank, p)
  }

  /** Each entry of the chain is the child of the next along an edge, and the last has no parent. */
  lemma {:induction false} AncestorsClimb(E: set<Edge>, rank: map<Frame, nat>, x: Frame)
    requires Ranked(E, rank)
    ensures var a := Ancestors(E, rank, x);
      && (forall k | 0 <= k < |a| - 1 :: (a[k + 1], a[k]) in E)
      && !HasParent(E, a[|a| - 1])
    decreases Height(rank, x)
  {
    match ParentOf(E, x)
    case None =>
    case Some(p) =>
      AncestorsClimb(E, rank, p);
      var a, b := Ancestors(E, rank, x), Ancestors(E, rank, p);
      assert a == [x] + b;
      forall k | 0 <= k < |a| - 1
        ensures (a[k + 1], a[k]) in E
      {
        if k > 0 {
          assert a[k + 1] == b[k] && a[k] == b[k - 1];
        }
      }
  }

  ghost function Root(E: set<Edge>, rank: map<Frame, nat>, x: Frame): Frame
    requires Ranked(E, rank)
  {
    var a := Ancestors(E, rank, x);
    a[|a| - 1]
  }

  /** The chain of an ancestor is the rest of the chain. */
  lemma {:induction false} AncestorsSuffix(E: set<Edge>, rank: map<Frame, nat>, x: Frame, k: nat)
    requires Ranked(E, rank) && k < |Ancestors(E, rank, x)|
    ensures Ancestors(E, rank, Ancestors(E, rank, x)[k]) == Ancestors(E, rank, x)[k..]
    decreases k
  {
    if k > 0 {
      var p := ParentOf(E, x).value;
      assert Ancestors(E, rank, x) == [x] + Ancestors(E, rank, p);
      AncestorsSuffix(E, rank, p, k - 1);
      assert Ancestors(E, rank, x)[k..] == Ancestors(E, rank, p)[k - 1..];
    }
  }

  /** Walking the chain, the parent of each entry is the next entry, and the last has none. */
  lemma AncestorsNext(E: set<Edge>, rank: map<Frame, nat>, x: Frame, k: nat)
    requires Ranked(E, rank) && k < |Ancestors(E, rank, x)|
    ensures var a := Ancestors(E, rank, x);
      ParentOf(E, a[k]) == if k + 1 < |a| then Some(a[k + 1]) else None
  {
    var a := Ancestors(E, rank, x);
    AncestorsSuffix(E, rank, x, k);
    if k + 1 < |a| {
      assert Ancestors(E, rank, a[k])[1] == a[k + 1];
    }
  }

  lemma {:induction false} HeightDecreases(E: set<Edge>, rank: map<Frame, nat>, x: Frame, i: nat, j: nat)
    requires Ranked(E, rank) && i < j < |Ancestors(E, rank, x)|
    ensures Height(rank, Ancestors(E, rank, x)[j]) < Height(rank, Ancestors(E, rank, x)[i])
    decreases j - i
  {
    var a := Ancestors(E, rank, x);
    AncestorsClimb(E, rank, x);
    assert (a[j], a[j - 1]) in E;
    if i < j - 1 {
      HeightDecreases(E, rank, x, i, j - 1);
    }
  }

  /** No frame occurs twice in an ancestor chain. */
  lemma AncestorsDistinct(E: set<Edge>, rank: map<Frame, nat>, x: Frame)
    requires Ranked(E, rank)
    ensures Distinct(Ancestors(E, rank, x))
  {
    var a := Ancestors(E, rank, x);
    forall i, j | 0 <= i < j < |a|
      ensures a[i] != a[j]
    {
      HeightDecreases(E, rank, x, i, j);
    }
  }

  /** The two ends of an edge lie in the same tree. */
  lemma EdgeSameRoot(E: set<Edge>, rank: map<Frame, nat>, p: Frame, c: Frame)
    requires Ranked(E, rank) && SingleParent(E) && (p, c) in E
    ensures Ancestors(E, rank, c) == [c] + Ancestors(E, rank, p)
    ensures Root(E, rank, c) == Root(E, rank, p)
  {
    ParentOfEdge(E, p, c);
  }

  lemma {:induction false} WalkSameRoot(E: set<Edge>, rank: map<Frame, nat>, w: seq<Frame>)
    requires Ranked(E, rank) && SingleParent(E) && IsWalk(E, w)
    ensures Root(E, rank, w[0]) == Root(E, rank, w[|w| - 1])
    decreases |w|
  {
    if |w| > 1 {
      var p := w[..|w| - 1];
      assert forall i | 0 <= i < |p| :: p[i] == w[i];
      assert IsWalk(E, p);
      WalkSameRoot(E, rank, p);
      var c, b := w[|w| - 2], w[|w| - 1];
      assert Step(E, c, b);
      if (c, b) in E {
        EdgeSameRoot(E, rank, c, b);
      } else {
        EdgeSameRoot(E, rank, b, c);
      }
    }
  }

  lemma ConnectedToRoot(E: set<Edge>, rank: map<Frame, nat>, x: Frame)
    requires Ranked(E, rank)
    ensures Connected(E, x, Root(E, rank, x))
  {
    var a := Ancestors(E, rank, x);
    AncestorsClimb(E, rank, x);
    assert forall k | 0 <= k < |a| - 1 :: Step(E, a[k], a[k + 1]);
    assert IsWalk(E, a);
  }

  /** In a ranked graph with single parents, two frames are connected exactly when they share a root. */
  lemma ConnectedIffSameRoot(E: set<Edge>, rank: map<Frame, nat>, x: Frame, y: Frame)
    requires Ranked(E, rank) && SingleParent(E)
    ensures Connected(E, x, y) <==> Root(E, rank, x) == Root(E, rank, y)
  {
    if Connected(E, x, y) {
      var w :| IsWalk(E, w) && w[0] == x && w[|w| - 1] == y;
      WalkSameRoot(E, rank, w);
    }
    if Root(E, rank, x) == Root(E, rank, y) {
      ConnectedToRoot(E, rank, x);
      ConnectedToRoot(E, rank, y);
      ConnectedSym(E, y, Root(E, rank, y));
      ConnectedTrans(E, x, Root(E, rank, x), y);
    }
  }

  /**
    The ranking after accepting (s, t) when t is a root outside the tree of s:
    t's tree moves below s, every other frame keeps its rank.
  */
  ghost function Rerank(E: set<Edge>, rank: map<Frame, nat>, s: Frame, t: Frame): map<Frame, nat>
    requires Ranked(E, rank)
  {
    var k := Height(rank, s) + 1;
    map x | x in rank.Keys + {s, t} :: if Root(E, rank, x) == t then Height(rank, x) + k else Height(rank, x)
  }

  lemma RerankKeepsRanked(E: set<Edge>, rank: map<Frame, nat>, s: Frame, t: Frame)
    requires Ranked(E, rank) && SingleParent(E)
    requires !HasParent(E, t) && Root(E, rank, s) != t
    ensures Ranked(E + {(s, t)}, Rerank(E, rank, s, t))
  {
    var r := Rerank(E, rank, s, t);
    forall e | e in E + {(s, t)}
      ensures e.0 in r && e.1 in r && r[e.0] < r[e.1]
    {
      if e in E {
        EdgeSameRoot(E, rank, e.0, e.1);
      } else {
        assert Ancestors(E, rank, t) == [t];
      }
    }
  }

  /** A frame is an end of some edge exactly when an edge enters or leaves it. */
  lemma EndpointsTouch(E: set<Edge>, x: Frame)
    ensures x in Endpoints(E) <==> exists f | f in E :: f.0 == x || f.1 == x
  {
    if exists f | f in E :: f.0 == x || f.1 == x {
      var f :| f in E && (f.0 == x || f.1 == x);
      assert f.0 in (set e | e in E :: e.0) && f.1 in (set e | e in E :: e.1);
    }
  }

  /**
    The executable form of the test `update` applies to a new edge (s, t) of
    a ranked forest: a self loop, two frames with one root, or a second
    incoming edge of t.
  */
  lemma DecideNewEdge(E: set<Edge>, rank: map<Frame, nat>, s: Frame, t: Frame)
    requires IsForest(E) && Ranked(E, rank) && (s, t) !in E
    ensures Rejects(E, (s, t)) <==>
      s == t || Root(E, rank, s) == Root(E, rank, t) || |Incoming(E + {(s, t)}, t)| > 1
  {
    CycleIff(E, (s, t));
    ConnectedIffSameRoot(E, rank, s, t);
  }

  /** Accepting a new edge keeps a ranked forest, under the ranking Rerank builds, and adds its two ends to the frames. */
  lemma AcceptNewEdge(E: set<Edge>, rank: map<Frame, nat>, s: Frame, t: Frame)
    requires IsForest(E) && Ranked(E, rank) && (s, t) !in E && !Rejects(E, (s, t))
    ensures IsForest(E + {(s, t)}) && Ranked(E + {(s, t)}, Rerank(E, rank, s, t))
    ensures Endpoints(E + {(s, t)}) == Endpoints(E) + {s, t}
  {
    AcceptKeepsForest(E, (s, t));
    AcceptRanked(E, rank, s, t);
    EndpointsAdd(E, s, t);
  }

  /** The accepted edge hangs t, a root outside the tree of s, below s, which Rerank follows. */
  lemma AcceptRanked(E: set<Edge>, rank: map<Frame, nat>, s: Frame, t: Frame)
    requires IsForest(E) && Ranked(E, rank) && (s, t) !in E && !Rejects(E, (s, t))
    ensures Ranked(E + {(s, t)}, Rerank(E, rank, s, t))
  {
    RejectsIff(E, (s, t));
    ConnectedIffSameRoot(E, rank, s, t);
    assert Ancestors(E, rank, t) == [t];
    RerankKeepsRanked(E, rank, s, t);
  }

  lemma EndpointsAdd(E: set<Edge>, s: Frame, t: Frame)
    ensures Endpoints(E + {(s, t)}) == Endpoints(E) + {s, t}
  {
    assert (s, t) in E + {(s, t)};
  }

  // ---------------------------------------------------------------------------
  // Lowest common ancestor and the path `find_path` returns

  /** The first position of x in s, `iter().position`. */
  function IndexOf(s: seq<Frame>, x: Frame): (i: nat)
    requires x in s
    ensures i < |s| && s[i] == x && x !in s[..i]
  {
    if s[0] == x then 0 else 1 + IndexOf(s[1..], x)
  }

  /** The first position of a whose frame occurs in b, or |a|. */
  ghost function FirstIn(a: seq<Frame>, b: seq<Frame>): (i: nat)
    ensures i <= |a|
    ensures i < |a| ==> a[i] in b
    ensures forall j | 0 <= j < i :: a[j] !in b
  {
    if |a| == 0 || a[0] in b then 0 else 1 + FirstIn(a[1..], b)
  }

  /** The deepest frame that is an ancestor of both x and y. */
  ghost function Lca(E: set<Edge>, rank: map<Frame, nat>, x: Frame, y: Frame): Frame
    requires Ranked(E, rank) && Root(E, rank, x) == Root(E, rank, y)
  {
    var a := Ancestors(E, rank, x);
    assert a[|a| - 1] in Ancestors(E, rank, y);
    a[FirstIn(a, Ancestors(E, rank, y))]
  }

  /** The ancestors both frames share are exactly the ancestors of their lowest common ancestor. */
  lemma LcaIsLowest(E: set<Edge>, rank: map<Frame, nat>, x: Frame, y: Frame, c: Frame)
    requires Ranked(E, rank) && Root(E, rank, x) == Root(E, rank, y)
    ensures Lca(E, rank, x, y) in Ancestors(E, rank, x) && Lca(E, rank, x, y) in Ancestors(E, rank, y)
    ensures c in Ancestors(E, rank, x) && c in Ancestors(E, rank, y) <==> c in Ancestors(E, rank, Lca(E, rank, x, y))
  {
    var a, b := Ancestors(E, rank, x), Ancestors(E, rank, y);
    assert a[|a| - 1] in b;
    var i := FirstIn(a, b);
    var l := a[i];
    var j := IndexOf(b, l);
    AncestorsSuffix(E, rank, x, i);
    AncestorsSuffix(E, rank, y, j);
    assert Ancestors(E, rank, l) == a[i..] == b[j..];
    if c in a && c in b {
      var ic := IndexOf(a, c);
      assert ic >= i;
      assert a[ic] in a[i..];
    }
    if c in Ancestors(E, rank, l) {
      assert c in a[i..] && c in b[j..];
    }
  }

  /**
    The path `find_path` returns, stated through the lowest common ancestor:
    up from `from` to the LCA, then down to `to`. Two cases keep the shape of
    the source's loops: `from == to` yields [from, parent, from], or [from, from]
    at a root; frames in different trees yield both chains up to their roots,
    the second reversed.
  */
  ghost function PathSpec(E: set<Edge>, rank: map<Frame, nat>, from: Frame, to: Frame): seq<Frame>
    requires Ranked(E, rank)
  {
    var up, down := Ancestors(E, rank, from), Ancestors(E, rank, to);
    if from == to then
      if |up| > 1 then [from, up[1], from] else [from, from]
    else if Root(E, rank, from) == Root(E, rank, to) then
      LcaIsLowest(E, rank, from, to, from);
      Join(up, down, Lca(E, rank, from, to))
    else
      up + Reverse(down)
  }

  /** Up the first chain to l, then down the second chain from l. */
  ghost function Join(up: seq<Frame>, down: seq<Frame>, l: Frame): seq<Frame>
    requires l in up && l in down
  {
    up[..IndexOf(up, l) + 1] + Reverse(down[..IndexOf(down, l)])
  }

  /** The path always runs from `from` to `to` and has at least two frames. */
  lemma PathEnds(E: set<Edge>, rank: map<Frame, nat>, from: Frame, to: Frame)
    requires Ranked(E, rank)
    ensures var p := PathSpec(E, rank, from, to);
      |p| >= 2 && p[0] == from && p[|p| - 1] == to
  {
    if from != to && Root(E, rank, from) == Root(E, rank, to) {
      PathUpThenDown(E, rank, from, to);
    }
  }

  /**
    Between two different frames of one tree, the path climbs child-to-parent
    edges from `from` to the lowest common ancestor and then descends
    parent-to-child edges to `to`.
  */
  lemma PathUpThenDown(E: set<Edge>, rank: map<Frame, nat>, from: Frame, to: Frame)
    requires Ranked(E, rank) && from != to && Root(E, rank, from) == Root(E, rank, to)
    ensures var p := PathSpec(E, rank, from, to);
      var l := Lca(E, rank, from, to);
      var m := IndexOf(Ancestors(E, rank, from), l);
      && |p| >= 2 && m < |p| && p[0] == from && p[m] == l && p[|p| - 1] == to
      && (forall k | 0 <= k < m :: (p[k + 1], p[k]) in E)
      && (forall k | m <= k < |p| - 1 :: (p[k], p[k + 1]) in E)
  {
    PathSpecJoin(E, rank, from, to);
    AncestorsClimb(E, rank, from);
    AncestorsClimb(E, rank, to);
    JoinChains(E, Ancestors(E, rank, from), Ancestors(E, rank, to), Lca(E, rank, from, to));
  }

  /** Climbing one chain of child-to-parent edges and descending another, reversed, from where they meet. */
  lemma JoinChains(E: set<Edge>, up: seq<Frame>, down: seq<Frame>, l: Frame)
    requires l in up && l in down
    requires forall k | 0 <= k < |up| - 1 :: (up[k + 1], up[k]) in E
    requires forall k | 0 <= k < |down| - 1 :: (down[k + 1], down[k]) in E
    ensures var p, m, n := Join(up, down, l), IndexOf(up, l), IndexOf(down, l);
      && |p| == m + n + 1 && p[0] == up[0] && p[m] == l && p[|p| - 1] == down[0]
      && (up[0] != down[0] ==> |p| >= 2)
      && (forall k | 0 <= k < m :: (p[k + 1], p[k]) in E)
      && (forall k | m <= k < |p| - 1 :: (p[k], p[k + 1]) in E)
  {
    var m, n := IndexOf(up, l), IndexOf(down, l);
    var r := Reverse(down[..n]);
    var p := up[..m + 1] + r;
    assert p == Join(up, down, l);
    assert forall k | 0 <= k <= m :: p[k] == up[k];
    assert forall k | m < k < |p| :: p[k] == down[n - (k - m)];
    forall k | m <= k < |p| - 1
      ensures (p[k], p[k + 1]) in E
    {
      var j := n - 1 - (k - m);
      assert p[k + 1] == down[j];
      assert p[k] == down[j + 1];
    }
    assert p[|p| - 1] == down[0];
  }

  /**
    For two frames of one tree, apart from a tree's root asked for itself,
    every consecutive pair of the path is an edge in one direction.
  */
  lemma PathIsWalk(E: set<Edge>, rank: map<Frame, nat>, from: Frame, to: Frame)
    requires Ranked(E, rank) && Root(E, rank, from) == Root(E, rank, to)
    requires from == to ==> HasParent(E, from)
    ensures IsWalk(E, PathSpec(E, rank, from, to))
  {
    var p := PathSpec(E, rank, from, to);
    if from == to {
      var up := Ancestors(E, rank, from);
      AncestorsClimb(E, rank, from);
      assert (up[1], up[0]) in E;
      assert Step(E, p[0], p[1]) && Step(E, p[1], p[2]);
    } else {
      PathUpThenDown(E, rank, from, to);
      var m := IndexOf(Ancestors(E, rank, from), Lca(E, rank, from, to));
      forall k | 0 <= k < |p| - 1
        ensures Step(E, p[k], p[k + 1])
      {
        if k < m {
          assert (p[k + 1], p[k]) in E;
        } else {
          assert (p[k], p[k + 1]) in E;
        }
      }
    }
  }

  /** Between two trees the path joins the two roots, which no edge connects. */
  lemma DisconnectedPathHasGap(E: set<Edge>, rank: map<Frame, nat>, from: Frame, to: Frame)
    requires Ranked(E, rank) && Root(E, rank, from) != Root(E, rank, to)
    ensures !IsWalk(E, PathSpec(E, rank, from, to))
  {
    var up, down := Ancestors(E, rank, from), Ancestors(E, rank, to);
    var p := PathSpec(E, rank, from, to);
    var k := |up| - 1;
    AncestorsClimb(E, rank, from);
    AncestorsClimb(E, rank, to);
    assert p[k] == up[k] && p[k + 1] == down[|down| - 1];
    assert !HasParent(E, up[k]) && !HasParent(E, down[|down| - 1]);
    assert !Step(E, p[k], p[k + 1]);
  }

  // ---------------------------------------------------------------------------
  // The two climbs of `find_path`

  ghost predicate Distinct(s: seq<Frame>) {
    forall i, j | 0 <= i < j < |s| :: s[i] != s[j]
  }

  lemma DistinctIndexOf(s: seq<Frame>, k: nat)
    requires Distinct(s) && k < |s|
    ensures IndexOf(s, s[k]) == k
  {
  }

  lemma FirstInSuffix(a: seq<Frame>, k: nat)
    requires Distinct(a) && k < |a|
    ensures FirstIn(a, a[k..]) == k
  {
    var i := FirstIn(a, a[k..]);
    assert a[k] in a[k..];
    var m := IndexOf(a[k..], a[i]);
    assert a[i] == a[k + m];
  }

  lemma PathSpecSame(E: set<Edge>, rank: map<Frame, nat>, x: Frame)
    requires Ranked(E, rank)
    ensures var up := Ancestors(E, rank, x);
      PathSpec(E, rank, x, x) == if |up| > 1 then [x, up[1], x] else [x, x]
  {
  }

  lemma PathSpecJoin(E: set<Edge>, rank: map<Frame, nat>, from: Frame, to: Frame)
    requires Ranked(E, rank) && from != to && Root(E, rank, from) == Root(E, rank, to)
    ensures var l := Lca(E, rank, from, to);
      && l in Ancestors(E, rank, from) && l in Ancestors(E, rank, to)
      && PathSpec(E, rank, from, to) == Join(Ancestors(E, rank, from), Ancestors(E, rank, to), l)
  {
    LcaIsLowest(E, rank, from, to, from);
  }

  lemma PathSpecSplit(E: set<Edge>, rank: map<Frame, nat>, from: Frame, to: Frame)
    requires Ranked(E, rank) && Root(E, rank, from) != Root(E, rank, to)
    ensures PathSpec(E, rank, from, to) == Ancestors(E, rank, from) + Reverse(Ancestors(E, rank, to))
  {
  }

  /** The first climb stops at `to` when `to` is a proper ancestor of `from`. */
  lemma ClimbReachesTarget(E: set<Edge>, rank: map<Frame, nat>, from: Frame, k: nat)
    requires Ranked(E, rank) && 1 <= k < |Ancestors(E, rank, from)|
    ensures var up := Ancestors(E, rank, from);
      PathSpec(E, rank, from, up[k]) == up[..k + 1]
  {
    var up := Ancestors(E, rank, from);
    var to := up[k];
    SuffixSameRoot(E, rank, from, k);
    AncestorsSuffix(E, rank, from, k);
    AncestorsDistinct(E, rank, from);
    assert from != to by {
      assert up[0] != up[k];
    }
    SuffixJoin(up, k);
    PathSpecJoin(E, rank, from, to);
  }

  /** Joining a chain with one of its own suffixes stops where the suffix begins. */
  lemma SuffixJoin(up: seq<Frame>, k: nat)
    requires Distinct(up) && k < |up|
    ensures FirstIn(up, up[k..]) == k
    ensures Join(up, up[k..], up[k]) == up[..k + 1]
  {
    FirstInSuffix(up, k);
    DistinctIndexOf(up, k);
    assert Reverse(up[k..][..0]) == [];
  }


  /**
    When the first climb reached the root without meeting `to`, and the second
    climb met the first at down[j], the source's pruned and merged path is
    the specified one.
  */
  lemma ClimbsMeet(E: set<Edge>, rank: map<Frame, nat>, from: Frame, to: Frame, j: nat)
    requires Ranked(E, rank)
    requires to !in Ancestors(E, rank, from)[1..]
    requires 1 <= j < |Ancestors(E, rank, to)| && Ancestors(E, rank, to)[j] in Ancestors(E, rank, from)
    requires forall k | 1 <= k < j :: Ancestors(E, rank, to)[k] !in Ancestors(E, rank, from)
    ensures var up, down := Ancestors(E, rank, from), Ancestors(E, rank, to);
      PathSpec(E, rank, from, to) == up[..IndexOf(up, down[j]) + 1] + Reverse(down[..j])
  {
    if from == to {
      MeetAtSelf(E, rank, from, j);
    } else {
      MeetApart(E, rank, from, to, j);
    }
  }

  lemma MeetApart(E: set<Edge>, rank: map<Frame, nat>, from: Frame, to: Frame, j: nat)
    requires Ranked(E, rank) && from != to
    requires to !in Ancestors(E, rank, from)[1..]
    requires 1 <= j < |Ancestors(E, rank, to)| && Ancestors(E, rank, to)[j] in Ancestors(E, rank, from)
    requires forall k | 1 <= k < j :: Ancestors(E, rank, to)[k] !in Ancestors(E, rank, from)
    ensures var up, down := Ancestors(E, rank, from), Ancestors(E, rank, to);
      PathSpec(E, rank, from, to) == up[..IndexOf(up, down[j]) + 1] + Reverse(down[..j])
  {
    PathSpecAtMeet(E, rank, from, to, j);
    JoinAt(Ancestors(E, rank, from), Ancestors(E, rank, to), j);
  }

  /** When the second chain first meets the first at position j, the path is joined at that frame. */
  lemma PathSpecAtMeet(E: set<Edge>, rank: map<Frame, nat>, from: Frame, to: Frame, j: nat)
    requires Ranked(E, rank) && from != to
    requires to !in Ancestors(E, rank, from)[1..]
    requires 1 <= j < |Ancestors(E, rank, to)| && Ancestors(E, rank, to)[j] in Ancestors(E, rank, from)
    requires forall k | 1 <= k < j :: Ancestors(E, rank, to)[k] !in Ancestors(E, rank, from)
    ensures var up, down := Ancestors(E, rank, from), Ancestors(E, rank, to);
      PathSpec(E, rank, from, to) == Join(up, down, down[j]) && IndexOf(down, down[j]) == j
  {
    CommonAncestorSameRoot(E, rank, from, to, j);
    MeetIsLca(E, rank, from, to, j);
    PathSpecJoin(E, rank, from, to);
  }

  lemma JoinAt(up: seq<Frame>, down: seq<Frame>, j: nat)
    requires j < |down| && down[j] in up && IndexOf(down, down[j]) == j
    ensures Join(up, down, down[j]) == up[..IndexOf(up, down[j]) + 1] + Reverse(down[..j])
  {
  }

  lemma MeetAtSelf(E: set<Edge>, rank: map<Frame, nat>, x: Frame, j: nat)
    requires Ranked(E, rank)
    requires 1 <= j < |Ancestors(E, rank, x)|
    requires forall k | 1 <= k < j :: Ancestors(E, rank, x)[k] !in Ancestors(E, rank, x)
    ensures var up := Ancestors(E, rank, x);
      PathSpec(E, rank, x, x) == up[..IndexOf(up, up[j]) + 1] + Reverse(up[..j])
  {
    var up := Ancestors(E, rank, x);
    AncestorsDistinct(E, rank, x);
    PathSpecSame(E, rank, x);
    assert up[1] in up;
    assert j == 1;
    DistinctIndexOf(up, 1);
    assert Reverse(up[..1]) == [x];
  }

  /** A frame on both chains puts both frames in one tree. */
  lemma CommonAncestorSameRoot(E: set<Edge>, rank: map<Frame, nat>, from: Frame, to: Frame, j: nat)
    requires Ranked(E, rank)
    requires j < |Ancestors(E, rank, to)| && Ancestors(E, rank, to)[j] in Ancestors(E, rank, from)
    ensures Root(E, rank, from) == Root(E, rank, to)
  {
    var up, down := Ancestors(E, rank, from), Ancestors(E, rank, to);
    SuffixSameRoot(E, rank, from, IndexOf(up, down[j]));
    SuffixSameRoot(E, rank, to, j);
  }

  /** Every frame on a chain has the chain's root. */
  lemma SuffixSameRoot(E: set<Edge>, rank: map<Frame, nat>, x: Frame, k: nat)
    requires Ranked(E, rank) && k < |Ancestors(E, rank, x)|
    ensures Root(E, rank, Ancestors(E, rank, x)[k]) == Root(E, rank, x)
  {
    var up := Ancestors(E, rank, x);
    AncestorsSuffix(E, rank, x, k);
    SameLast(up[k..], up, up[k..], 0, k);
  }

  /** Two sequences with a common suffix end in the same element. */
  lemma SameLast(up: seq<Frame>, down: seq<Frame>, a: seq<Frame>, i: nat, j: nat)
    requires i < |up| && j < |down| && up[i..] == a && down[j..] == a
    ensures up[|up| - 1] == down[|down| - 1]
  {
    assert up[|up| - 1] == a[|a| - 1] == down[|down| - 1];
  }

  /** The first frame of the second chain found on the first chain is the lowest common ancestor. */
  lemma MeetIsLca(E: set<Edge>, rank: map<Frame, nat>, from: Frame, to: Frame, j: nat)
    requires Ranked(E, rank) && from != to && Root(E, rank, from) == Root(E, rank, to)
    requires to !in Ancestors(E, rank, from)[1..]
    requires 1 <= j < |Ancestors(E, rank, to)| && Ancestors(E, rank, to)[j] in Ancestors(E, rank, from)
    requires forall k | 1 <= k < j :: Ancestors(E, rank, to)[k] !in Ancestors(E, rank, from)
    ensures Lca(E, rank, from, to) == Ancestors(E, rank, to)[j]
    ensures IndexOf(Ancestors(E, rank, to), Ancestors(E, rank, to)[j]) == j
  {
    var up, down := Ancestors(E, rank, from), Ancestors(E, rank, to);
    var c := down[j];
    LcaIsLowest(E, rank, from, to, c);
    var l := Lca(E, rank, from, to);
    var n := IndexOf(down, l);
    AncestorsSuffix(E, rank, to, n);
    AncestorsDistinct(E, rank, to);
    assert c in down[n..];
    var m := IndexOf(down[n..], c);
    assert down[n + m] == c;
    assert up == [from] + up[1..];
    assert down[0] !in up;
    assert n >= j;
  }

  /** When neither climb met the other, the path is both chains, the second reversed. */
  lemma ClimbsMiss(E: set<Edge>, rank: map<Frame, nat>, from: Frame, to: Frame)
    requires Ranked(E, rank)
    requires to !in Ancestors(E, rank, from)[1..]
    requires forall k | 1 <= k < |Ancestors(E, rank, to)| :: Ancestors(E, rank, to)[k] !in Ancestors(E, rank, from)
    ensures PathSpec(E, rank, from, to) == Ancestors(E, rank, from) + Reverse(Ancestors(E, rank, to))
  {
    var up, down := Ancestors(E, rank, from), Ancestors(E, rank, to);
    if from == to {
      PathSpecSame(E, rank, from);
      assert |up| == 1;
    } else {
      assert up == [from] + up[1..];
      if |down| == 1 {
        assert down[0] == to;
      }
      assert down[|down| - 1] !in up;
      assert Root(E, rank, from) in up;
      PathSpecSplit(E, rank, from, to);
    }
  }

  /** Across one edge the path is just its two ends, in either direction. */
  lemma SingleEdgePath(E: set<Edge>, rank: map<Frame, nat>, p: Frame, c: Frame)
    requires Ranked(E, rank) && SingleParent(E) && (p, c) in E
    ensures PathSpec(E, rank, p, c) == [p, c]
    ensures PathSpec(E, rank, c, p) == [c, p]
  {
    EdgeSameRoot(E, rank, p, c);
    ChildToParentPath(E, rank, p, c);
    ParentToChildPath(E, rank, p, c);
  }

  lemma ChildToParentPath(E: set<Edge>, rank: map<Frame, nat>, p: Frame, c: Frame)
    requires Ranked(E, rank) && Ancestors(E, rank, c) == [c] + Ancestors(E, rank, p)
    ensures PathSpec(E, rank, c, p) == [c, p]
  {
    ClimbReachesTarget(E, rank, c, 1);
  }

  lemma ParentToChildPath(E: set<Edge>, rank: map<Frame, nat>, p: Frame, c: Frame)
    requires Ranked(E, rank) && Ancestors(E, rank, c) == [c] + Ancestors(E, rank, p)
    ensures PathSpec(E, rank, p, c) == [p, c]
  {
    var up, down := Ancestors(E, rank, p), Ancestors(E, rank, c);
    AncestorsDistinct(E, rank, c);
    assert down[0] != down[1];
    assert Root(E, rank, p) == Root(E, rank, c) by {
      assert down[|down| - 1] == up[|up| - 1];
    }
    PathSpecJoin(E, rank, p, c);
    assert Lca(E, rank, p, c) == p by {
      assert up[0] in down;
    }
    JoinParent(up, down);
  }

  /** Joining a chain with the chain of a child of its first frame gives the two frames. */
  lemma JoinParent(up: seq<Frame>, down: seq<Frame>)
    requires |up| >= 1 && |down| >= 2 && down[1..] == up && down[0] != down[1]
    ensures Join(up, down, up[0]) == [up[0], down[0]]
  {
    assert down[1] == up[0];
    assert IndexOf(down, up[0]) == 1;
    assert Reverse(down[..1]) == [down[0]];
  }

}
