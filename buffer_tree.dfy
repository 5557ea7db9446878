/**
  The transform buffer (`BufferTree` in schiebung-core/src/lib.rs): a forest
  of frames whose edges carry bounded transform histories, the search for
  the path between two frames, and the lookups that compose the edge values
  along that path.
*/
module Buffer {
  import opened Wrappers
  import opened Geometry
  import opened CoreTypes
  import opened FrameGraph
  import opened TransformHistories
  import opened NodeIndexing

  // ---------------------------------------------------------------------------
  // The lookups, stated on the abstract state: per edge its samples and its kind

  /** Every edge has a kind and at least one sample. */
  ghost predicate Stored(S: map<Edge, seq<StampedIsometry>>, K: map<Edge, TransformType>) {
    S.Keys == K.Keys && forall e | e in S :: |S[e]| > 0
  }

  /** Both frames lie in one tree and a frame asked for itself is not a root: the queries that do not panic. */
  ghost predicate Resolvable(E: set<Edge>, rank: map<Frame, nat>, a: Frame, b: Frame)
    requires Ranked(E, rank)
  {
    Root(E, rank, a) == Root(E, rank, b) && (a == b ==> HasParent(E, a))
  }

  /** The factor for the path pair (u, v) at `time`: the edge's value walked forward, its inverse walked backward. */
  ghost function Factor(S: map<Edge, seq<StampedIsometry>>, K: map<Edge, TransformType>, u: Frame, v: Frame, time: real): Result<Isometry, TfError>
    requires Stored(S, K) && Step(S.Keys, u, v)
  {
    if (u, v) in S then Interpolate(K[(u, v)], S[(u, v)], time)
    else
      match Interpolate(K[(v, u)], S[(v, u)], time)
      case Ok(x) => Ok(Inverse(x))
      case Err(err) => Err(err)
  }

  /** `isometry *= factor` over the pairs of `path` from position k on, stopping at the first error. */
  ghost function ComposeFrom(S: map<Edge, seq<StampedIsometry>>, K: map<Edge, TransformType>, path: seq<Frame>, k: nat, time: real, acc: Isometry): Result<Isometry, TfError>
    requires Stored(S, K) && IsWalk(S.Keys, path) && k < |path|
    decreases |path| - k
  {
    if k == |path| - 1 then Ok(acc)
    else
      match Factor(S, K, path[k], path[k + 1], time)
      case Err(err) => Err(err)
      case Ok(x) => ComposeFrom(S, K, path, k + 1, time, Mul(acc, x))
  }

  /** The factor for (u, v) in the latest lookup: the back sample, inverted when walked backward. */
  ghost function LatestFactor(S: map<Edge, seq<StampedIsometry>>, u: Frame, v: Frame): Isometry
    requires (forall e | e in S :: |S[e]| > 0) && Step(S.Keys, u, v)
  {
    if (u, v) in S then S[(u, v)][|S[(u, v)]| - 1].isometry
    else Inverse(S[(v, u)][|S[(v, u)]| - 1].isometry)
  }

  ghost function LatestFrom(S: map<Edge, seq<StampedIsometry>>, path: seq<Frame>, k: nat, acc: Isometry): Isometry
    requires (forall e | e in S :: |S[e]| > 0) && IsWalk(S.Keys, path) && k < |path|
    decreases |path| - k
  {
    if k == |path| - 1 then acc
    else LatestFrom(S, path, k + 1, Mul(acc, LatestFactor(S, path[k], path[k + 1])))
  }

  /** `lookup_transform` between two indexed frames. */
  ghost function Lookup(S: map<Edge, seq<StampedIsometry>>, K: map<Edge, TransformType>, rank: map<Frame, nat>, a: Frame, b: Frame, time: real): Result<StampedIsometry, TfError>
    requires Stored(S, K) && SingleParent(S.Keys) && Ranked(S.Keys, rank) && Resolvable(S.Keys, rank, a, b)
  {
    var path := PathSpec(S.Keys, rank, a, b);
    PathIsWalk(S.Keys, rank, a, b);
    PathEnds(S.Keys, rank, a, b);
    match ComposeFrom(S, K, path, 0, time, Identity)
    case Ok(x) => Ok(StampedIsometry(x, time))
    case Err(err) => Err(err)
  }

  /** `lookup_latest_transform` between two indexed frames. */
  ghost function LatestLookup(S: map<Edge, seq<StampedIsometry>>, rank: map<Frame, nat>, a: Frame, b: Frame): StampedIsometry
    requires (forall e | e in S :: |S[e]| > 0) && SingleParent(S.Keys) && Ranked(S.Keys, rank) && Resolvable(S.Keys, rank, a, b)
  {
    var path := PathSpec(S.Keys, rank, a, b);
    PathIsWalk(S.Keys, rank, a, b);
    PathEnds(S.Keys, rank, a, b);
    StampedIsometry(LatestFrom(S, path, 0, Identity), 0.0)
  }

  /** The fold succeeds exactly when every factor from position k on succeeds. */
  lemma {:induction false} ComposeOkIff(S: map<Edge, seq<StampedIsometry>>, K: map<Edge, TransformType>, path: seq<Frame>, k: nat, time: real, acc: Isometry)
    requires Stored(S, K) && IsWalk(S.Keys, path) && k < |path|
    ensures ComposeFrom(S, K, path, k, time, acc).Ok? <==>
      forall j | k <= j < |path| - 1 :: Factor(S, K, path[j], path[j + 1], time).Ok?
    decreases |path| - k
  {
    if k < |path| - 1 {
      match Factor(S, K, path[k], path[k + 1], time)
      case Err(_) =>
      case Ok(x) =>
        ComposeOkIff(S, K, path, k + 1, time, Mul(acc, x));
    }
  }

  /** A failed fold reports the error of its first failing factor, at position j. */
  lemma {:induction false} ComposeFirstError(S: map<Edge, seq<StampedIsometry>>, K: map<Edge, TransformType>, path: seq<Frame>, k: nat, time: real, acc: Isometry)
    returns (j: nat)
    requires Stored(S, K) && IsWalk(S.Keys, path) && k < |path|
    requires ComposeFrom(S, K, path, k, time, acc).Err?
    ensures k <= j < |path| - 1
    ensures Factor(S, K, path[j], path[j + 1], time) == Err(ComposeFrom(S, K, path, k, time, acc).error)
    ensures forall i | k <= i < j :: Factor(S, K, path[i], path[i + 1], time).Ok?
    decreases |path| - k
  {
    match Factor(S, K, path[k], path[k + 1], time)
    case Err(err) =>
      j := k;
    case Ok(x) =>
      j := ComposeFirstError(S, K, path, k + 1, time, Mul(acc, x));
  }

  /** The fold over a one-edge path is the one factor, multiplied onto the accumulator. */
  lemma ComposeOneStep(S: map<Edge, seq<StampedIsometry>>, K: map<Edge, TransformType>, u: Frame, v: Frame, time: real, acc: Isometry)
    requires Stored(S, K) && Step(S.Keys, u, v)
    ensures IsWalk(S.Keys, [u, v])
    ensures var f := Factor(S, K, u, v, time);
      ComposeFrom(S, K, [u, v], 0, time, acc) == if f.Ok? then Ok(Mul(acc, f.value)) else Err(f.error)
  {
    assert IsWalk(S.Keys, [u, v]);
  }

  /** Across a single edge the lookup yields the edge value from parent to child. */
  lemma LookupParentToChild(S: map<Edge, seq<StampedIsometry>>, K: map<Edge, TransformType>, rank: map<Frame, nat>, p: Frame, c: Frame, time: real)
    requires Stored(S, K) && SingleParent(S.Keys) && Ranked(S.Keys, rank) && (p, c) in S
    ensures Resolvable(S.Keys, rank, p, c)
    ensures var f := Interpolate(K[(p, c)], S[(p, c)], time);
      Lookup(S, K, rank, p, c, time) == if f.Ok? then Ok(StampedIsometry(Mul(Identity, f.value), time)) else Err(f.error)
  {
    EdgeSameRoot(S.Keys, rank, p, c);
    SingleEdgePath(S.Keys, rank, p, c);
    ComposeOneStep(S, K, p, c, time, Identity);
  }

  /** ... and its inverse from child to parent. */
  lemma LookupChildToParent(S: map<Edge, seq<StampedIsometry>>, K: map<Edge, TransformType>, rank: map<Frame, nat>, p: Frame, c: Frame, time: real)
    requires Stored(S, K) && SingleParent(S.Keys) && Ranked(S.Keys, rank) && (p, c) in S
    ensures Resolvable(S.Keys, rank, c, p)
    ensures var f := Interpolate(K[(p, c)], S[(p, c)], time);
      Lookup(S, K, rank, c, p, time) == if f.Ok? then Ok(StampedIsometry(Mul(Identity, Inverse(f.value)), time)) else Err(f.error)
  {
    EdgeSameRoot(S.Keys, rank, p, c);
    SingleEdgePath(S.Keys, rank, p, c);
    assert (c, p) !in S by {
      assert rank[p] < rank[c];
    }
    ComposeOneStep(S, K, c, p, time, Identity);
  }

  lemma LatestOneStep(S: map<Edge, seq<StampedIsometry>>, u: Frame, v: Frame, acc: Isometry)
    requires (forall e | e in S :: |S[e]| > 0) && Step(S.Keys, u, v)
    ensures IsWalk(S.Keys, [u, v])
    ensures LatestFrom(S, [u, v], 0, acc) == Mul(acc, LatestFactor(S, u, v))
  {
    assert IsWalk(S.Keys, [u, v]);
  }

  /** The latest lookup across a single edge, in both directions. */
  lemma LatestAcrossEdge(S: map<Edge, seq<StampedIsometry>>, rank: map<Frame, nat>, p: Frame, c: Frame)
    requires (forall e | e in S :: |S[e]| > 0) && SingleParent(S.Keys) && Ranked(S.Keys, rank) && (p, c) in S
    ensures Resolvable(S.Keys, rank, p, c) && Resolvable(S.Keys, rank, c, p)
    ensures LatestLookup(S, rank, p, c) == StampedIsometry(Mul(Identity, S[(p, c)][|S[(p, c)]| - 1].isometry), 0.0)
    ensures LatestLookup(S, rank, c, p) == StampedIsometry(Mul(Identity, Inverse(S[(p, c)][|S[(p, c)]| - 1].isometry)), 0.0)
  {
    EdgeSameRoot(S.Keys, rank, p, c);
    SingleEdgePath(S.Keys, rank, p, c);
    assert (c, p) !in S by {
      assert rank[p] < rank[c];
    }
    LatestOneStep(S, p, c, Identity);
    LatestOneStep(S, c, p, Identity);
  }

  // ---------------------------------------------------------------------------
  // Walking the graph: the parent query, the climb to a root, and `find_path`

  /** The first incoming neighbour of x, `neighbors_directed(x, Incoming).next()`. */
  method ParentIn(E: set<Edge>, x: Frame) returns (p: Option<Frame>)
    requires SingleParent(E)
    ensures p == ParentOf(E, x)
  {
    if exists e | e in E :: e.1 == x {
      var e :| e in E && e.1 == x;
      ParentOfEdge(E, e.0, x);
      p := Some(e.0);
    } else {
      p := None;
    }
  }

  /** Walks up from x to the root of its tree. */
  method RootIn(E: set<Edge>, ghost rank: map<Frame, nat>, x: Frame) returns (r: Frame)
    requires SingleParent(E) && Ranked(E, rank)
    ensures r == Root(E, rank, x)
  {
    var cur := x;
    var p := ParentIn(E, cur);
    while p.Some?
      invariant Root(E, rank, cur) == Root(E, rank, x)
      invariant p == ParentOf(E, cur)
      decreases Height(rank, cur)
    {
      EdgeSameRoot(E, rank, p.value, cur);
      cur := p.value;
      p := ParentIn(E, cur);
    }
    r := cur;
  }

  /**
    `find_path` between two frame ids: climb from a until b shows up as a
    parent or the root is reached, then climb from b until a frame of the
    first climb shows up, cut the first climb there and append the second
    reversed.
  */
  method FindPathIn(E: set<Edge>, ghost rank: map<Frame, nat>, a: Frame, b: Frame) returns (path: seq<Frame>)
    requires SingleParent(E) && Ranked(E, rank)
    ensures path == PathSpec(E, rank, a, b)
  {
    var path1, reached := ClimbFrom(E, rank, a, b);
    if reached {
      return path1;
    }
    path := ClimbAndMerge(E, rank, a, b, path1);
  }

  /** The first climb, stopped as soon as the next parent is the target, is the specified path. */
  lemma ClimbHit(E: set<Edge>, rank: map<Frame, nat>, a: Frame, path1: seq<Frame>)
    requires Ranked(E, rank)
    requires 1 <= |path1| < |Ancestors(E, rank, a)| && path1 == Ancestors(E, rank, a)[..|path1|]
    ensures PathSpec(E, rank, a, Ancestors(E, rank, a)[|path1|]) == path1 + [Ancestors(E, rank, a)[|path1|]]
  {
    var up := Ancestors(E, rank, a);
    ClimbReachesTarget(E, rank, a, |path1|);
    assert up[..|path1| + 1] == path1 + [up[|path1|]];
  }

  /** One step of a climb: the chain prefix grows by the next ancestor, whose parent is the one after it. */
  lemma ClimbStep(E: set<Edge>, rank: map<Frame, nat>, x: Frame, path: seq<Frame>)
    requires Ranked(E, rank)
    requires 1 <= |path| < |Ancestors(E, rank, x)| && path == Ancestors(E, rank, x)[..|path|]
    ensures var a, n := Ancestors(E, rank, x), |path|;
      && path + [a[n]] == a[..n + 1]
      && ParentOf(E, a[n]) == if n + 1 < |a| then Some(a[n + 1]) else None
  {
    AncestorsNext(E, rank, x, |path|);
  }

  /**
    The first climb of `find_path`: from a up to its root, returning early
    with the finished path when b is met as a parent.
  */
  method ClimbFrom(E: set<Edge>, ghost rank: map<Frame, nat>, a: Frame, b: Frame) returns (path1: seq<Frame>, reached: bool)
    requires SingleParent(E) && Ranked(E, rank)
    ensures reached ==> path1 == PathSpec(E, rank, a, b)
    ensures !reached ==> path1 == Ancestors(E, rank, a) && b !in path1[1..]
  {
    ghost var up := Ancestors(E, rank, a);
    path1 := [a];
    var cur := a;
    var p := ParentIn(E, cur);
    AncestorsNext(E, rank, a, 0);
    while p.Some?
      invariant 1 <= |path1| <= |up| && path1 == up[..|path1|]
      invariant cur == path1[|path1| - 1]
      invariant p == if |path1| < |up| then Some(up[|path1|]) else None
      invariant b !in path1[1..]
      decreases |up| - |path1|
    {
      if p.value == b {
        ClimbHit(E, rank, a, path1);
        return path1 + [b], true;
      }
      ClimbStep(E, rank, a, path1);
      path1 := path1 + [p.value];
      cur := p.value;
      p := ParentIn(E, cur);
    }
    reached := false;
  }

  /**
    The second climb of `find_path` and the merge: from b up until a frame
    of the first climb shows up, which cuts the first climb there; then the
    second climb is appended reversed.
  */
  method ClimbAndMerge(E: set<Edge>, ghost rank: map<Frame, nat>, a: Frame, b: Frame, path1: seq<Frame>) returns (path: seq<Frame>)
    requires SingleParent(E) && Ranked(E, rank)
    requires path1 == Ancestors(E, rank, a) && b !in path1[1..]
    ensures path == PathSpec(E, rank, a, b)
  {
    ghost var down := Ancestors(E, rank, b);
    var up := path1;
    var path2 := [b];
    ghost var met := false;
    var cur := b;
    var p := ParentIn(E, cur);
    AncestorsNext(E, rank, b, 0);
    while p.Some?
      invariant 1 <= |path2| <= |down| && path2 == down[..|path2|]
      invariant cur == path2[|path2| - 1]
      invariant p == if |path2| < |down| then Some(down[|path2|]) else None
      invariant forall k | 1 <= k < |path2| :: down[k] !in path1
      invariant up == path1 && !met
      decreases |down| - |path2|
    {
      if p.value in path1 {
        ClimbsMeet(E, rank, a, b, |path2|);
        up := path1[..IndexOf(path1, p.value) + 1];
        met := true;
        break;
      }
      ClimbStep(E, rank, b, path2);
      path2 := path2 + [p.value];
      cur := p.value;
      p := ParentIn(E, cur);
    }
    if !met {
      assert path2 == down;
      ClimbsMiss(E, rank, a, b);
    }
    path := up + Reverse(path2);
  }

  // ---------------------------------------------------------------------------
  // The two lookup loops, over the edge map

  /** The samples of every edge. */
  ghost function HistoriesOf(g: map<Edge, TransformHistory>): (S: map<Edge, seq<StampedIsometry>>)
    ensures S.Keys == g.Keys
  {
    map e | e in g :: g[e].history
  }

  /** The kind of every edge. */
  ghost function KindsOf(g: map<Edge, TransformHistory>): (K: map<Edge, TransformType>)
    ensures K.Keys == g.Keys
  {
    map e | e in g :: g[e].kind
  }

  /** Replacing one edge's history changes the samples and kinds at that edge only. */
  lemma OfUpdate(g: map<Edge, TransformHistory>, e: Edge, v: TransformHistory)
    ensures HistoriesOf(g[e := v]) == HistoriesOf(g)[e := v.history]
    ensures KindsOf(g[e := v]) == KindsOf(g)[e := v.kind]
  {
  }

  /**
    The loop of `lookup_transform`: `isometry *= factor` over the pairs of
    the path, each factor interpolated at `time` and inverted when the edge
    is walked backward; the `?` returns the first error.
  */
  method ComposeAlong(g: map<Edge, TransformHistory>, path: seq<Frame>, time: real) returns (r: Result<Isometry, TfError>)
    requires Stored(HistoriesOf(g), KindsOf(g)) && IsWalk(g.Keys, path) && |path| >= 1
    ensures r == ComposeFrom(HistoriesOf(g), KindsOf(g), path, 0, time, Identity)
  {
    ghost var S, K := HistoriesOf(g), KindsOf(g);
    var isometry := Identity;
    var i := 0;
    while i < |path| - 1
      invariant 0 <= i <= |path| - 1
      invariant ComposeFrom(S, K, path, i, time, isometry) == ComposeFrom(S, K, path, 0, time, Identity)
    {
      var u, v := path[i], path[i + 1];
      assert Step(g.Keys, u, v);
      var factor;
      if (u, v) in g {
        factor := Interpolate(g[(u, v)].kind, g[(u, v)].history, time);
      } else {
        factor := Interpolate(g[(v, u)].kind, g[(v, u)].history, time);
        if factor.Ok? {
          factor := Ok(Inverse(factor.value));
        }
      }
      assert factor == Factor(S, K, u, v, time);
      if factor.Err? {
        return Err(factor.error);
      }
      isometry := Mul(isometry, factor.value);
      i := i + 1;
    }
    r := Ok(isometry);
  }

  /** The loop of `lookup_latest_transform`: the newest sample of every edge, inverted when walked backward. */
  method LatestAlong(g: map<Edge, TransformHistory>, path: seq<Frame>) returns (isometry: Isometry)
    requires (forall e | e in g :: |g[e].history| > 0) && IsWalk(g.Keys, path) && |path| >= 1
    ensures isometry == LatestFrom(HistoriesOf(g), path, 0, Identity)
  {
    ghost var S := HistoriesOf(g);
    isometry := Identity;
    var i := 0;
    while i < |path| - 1
      invariant 0 <= i <= |path| - 1
      invariant LatestFrom(S, path, i, isometry) == LatestFrom(S, path, 0, Identity)
    {
      var u, v := path[i], path[i + 1];
      assert Step(g.Keys, u, v);
      if (u, v) in g {
        var h := g[(u, v)].history;
        isometry := Mul(isometry, h[|h| - 1].isometry);
      } else {
        var h := g[(v, u)].history;
        isometry := Mul(isometry, Inverse(h[|h| - 1].isometry));
      }
      i := i + 1;
    }
  }

  // ---------------------------------------------------------------------------
  // The insertion of `update`, over the graph's values

  /**
    The invariant the buffer's graph keeps while a new edge's history is
    still empty: a ranked forest whose edge ends are exactly the nodes, every
    history within the bound it was created with.
  */
  ghost predicate Shaped(nodes: set<Frame>, g: map<Edge, TransformHistory>, rank: map<Frame, nat>, maxHistory: nat) {
    && maxHistory >= 1
    && nodes == Endpoints(g.Keys)
    && (forall e | e in g :: |g[e].history| <= maxHistory && g[e].maxHistory == maxHistory)
    && IsForest(g.Keys)
    && Ranked(g.Keys, rank)
  }

  /** Every edge holds at least one sample. */
  ghost predicate Filled(g: map<Edge, TransformHistory>) {
    forall e | e in g :: |g[e].history| >= 1
  }

  /** Pushing a sample on an edge already present keeps the shape and every history non-empty. */
  lemma PushExisting(nodes: set<Frame>, g: map<Edge, TransformHistory>, rank: map<Frame, nat>, maxHistory: nat, e: Edge, sample: StampedIsometry)
    requires Shaped(nodes, g, rank, maxHistory) && Filled(g) && e in g
    ensures var g' := g[e := g[e].Update(sample)];
      Shaped(nodes, g', rank, maxHistory) && Filled(g')
  {
    var g' := g[e := g[e].Update(sample)];
    assert g'.Keys == g.Keys;
  }

  /**
    The first sample on a newly accepted edge: the shape holds, every history
    is non-empty again, and the new edge holds exactly that sample.
  */
  lemma FirstSample(nodes: set<Frame>, g: map<Edge, TransformHistory>, g1: map<Edge, TransformHistory>, rank: map<Frame, nat>, maxHistory: nat,
                    e: Edge, kind: TransformType, sample: StampedIsometry)
    requires Shaped(nodes, g1, rank, maxHistory) && Filled(g) && e !in g
    requires g1 == g[e := TransformHistory([], kind, maxHistory)]
    ensures var g' := g1[e := g1[e].Update(sample)];
      && g' == g[e := TransformHistory([sample], kind, maxHistory)]
      && Shaped(nodes, g', rank, maxHistory) && Filled(g')
  {
    var v := TransformHistory([sample], kind, maxHistory);
    assert g1[e].Update(sample) == v;
    assert g1[e := v] == g[e := v];
    assert g[e := v].Keys == g1.Keys;
  }

  /**
    Seen through the samples and kinds the lookups read, `update` changes
    only the edge e: the pushed history on a known edge, nothing on a refused
    one, the one sample and the kind on an accepted one.
  */
  lemma UpdatedViews(g: map<Edge, TransformHistory>, e: Edge, sample: StampedIsometry, kind: TransformType, maxHistory: nat)
    ensures var (r, g') := Updated(g, e, sample, kind, maxHistory);
      var S0, K0 := HistoriesOf(g), KindsOf(g);
      && (e in g ==>
            r == Ok(()) && g'.Keys == g.Keys && KindsOf(g') == K0
            && HistoriesOf(g') == S0[e := Pushed(S0[e], sample, g[e].maxHistory)])
      && (e !in g && Rejects(g.Keys, e) ==>
            r == Err(InvalidGraph) && HistoriesOf(g') == S0 && KindsOf(g') == K0)
      && (e !in g && !Rejects(g.Keys, e) ==>
            r == Ok(()) && g'.Keys == g.Keys + {e} && KindsOf(g') == K0[e := kind]
            && HistoriesOf(g') == S0[e := [sample]])
  {
    if e in g {
      OfUpdate(g, e, g[e].Update(sample));
      assert KindsOf(g)[e := g[e].kind] == KindsOf(g);
    } else if !Rejects(g.Keys, e) {
      OfUpdate(g, e, TransformHistory([sample], kind, maxHistory));
    }
  }

  /**
    The rollback of a refused edge: remove the edge, then t and then s when
    no remaining edge enters or leaves it. The graph and the nodes are back
    to what they were before the insertion.
  */
  method RemoveEdge(nodes: set<Frame>, g1: map<Edge, TransformHistory>, ghost g: map<Edge, TransformHistory>, s: Frame, t: Frame)
    returns (nodes': set<Frame>, g': map<Edge, TransformHistory>)
    requires (s, t) !in g && (s, t) in g1 && g1 - {(s, t)} == g
    requires nodes == Endpoints(g.Keys) + {s, t}
    ensures g' == g && nodes' == Endpoints(g.Keys)
  {
    g' := g1 - {(s, t)};
    EndpointsTouch(g.Keys, s);
    EndpointsTouch(g.Keys, t);
    nodes' := nodes;
    if !exists f | f in g' :: f.0 == t || f.1 == t {
      nodes' := nodes' - {t};
    }
    if !exists f | f in g' :: f.0 == s || f.1 == s {
      nodes' := nodes' - {s};
    }
  }

  /**
    The insertion and the check of `update` for an edge (s, t) not yet
    present: both frames and the edge with an empty history go in; when the
    graph now has an undirected cycle or t has two incoming edges, the edge
    comes out again, and each of t and s with it when no remaining edge
    touches it. The cycle test compares the roots s and t had before the
    insertion, which says the same thing since the graph was a forest.
  */
  method InsertEdge(nodes: set<Frame>, g: map<Edge, TransformHistory>, ghost rank: map<Frame, nat>, maxHistory: nat,
                    s: Frame, t: Frame, kind: TransformType)
    returns (nodes': set<Frame>, g': map<Edge, TransformHistory>, accepted: bool, ghost rank': map<Frame, nat>)
    requires Shaped(nodes, g, rank, maxHistory) && (s, t) !in g
    ensures Shaped(nodes', g', rank', maxHistory)
    ensures accepted <==> !Rejects(g.Keys, (s, t))
    ensures accepted ==> g' == g[(s, t) := TransformHistory([], kind, maxHistory)] && nodes' == nodes + {s, t}
    ensures !accepted ==> g' == g && nodes' == nodes && rank' == rank
  {
    ghost var E0 := g.Keys;
    nodes' := nodes + {s, t};
    var rs := RootIn(g.Keys, rank, s);
    var rt := RootIn(g.Keys, rank, t);
    g' := g[(s, t) := TransformHistory([], kind, maxHistory)];
    assert g'.Keys == E0 + {(s, t)};
    var incoming := |set f | f in g'.Keys && f.1 == t|;
    assert (set f | f in g'.Keys && f.1 == t) == Incoming(E0 + {(s, t)}, t);
    DecideNewEdge(E0, rank, s, t);
    if s == t || rs == rt || incoming > 1 {
      assert g' - {(s, t)} == g;
      nodes', g' := RemoveEdge(nodes', g', g, s, t);
      rank' := rank;
      accepted := false;
      return;
    }
    AcceptNewEdge(E0, rank, s, t);
    rank' := Rerank(E0, rank, s, t);
    accepted := true;
  }

  /**
    What `update` leaves in the edge map g for the edge e between the two
    ids, with its result: on a known edge the sample is pushed on its
    history; a new edge that `Rejects` refuses is answered with
    `InvalidGraph` and nothing changes; any other new edge is added with its
    kind and the sample as its only entry.
  */
  ghost function Updated(g: map<Edge, TransformHistory>, e: Edge, sample: StampedIsometry, kind: TransformType, maxHistory: nat)
    : (Result<(), TfError>, map<Edge, TransformHistory>)
  {
    if e in g then (Ok(()), g[e := g[e].Update(sample)])
    else if Rejects(g.Keys, e) then (Err(InvalidGraph), g)
    else (Ok(()), g[e := TransformHistory([sample], kind, maxHistory)])
  }

  /**
    `update` once both names have ids s and t: insert (s, t) as above when it
    is new, refusing it with `InvalidGraph`; then push the sample on the edge.
  */
  method UpdateIn(nodes: set<Frame>, g: map<Edge, TransformHistory>, ghost rank: map<Frame, nat>, maxHistory: nat,
                  s: Frame, t: Frame, sample: StampedIsometry, kind: TransformType)
    returns (nodes': set<Frame>, g': map<Edge, TransformHistory>, r: Result<(), TfError>, ghost rank': map<Frame, nat>)
    requires Shaped(nodes, g, rank, maxHistory) && Filled(g)
    ensures Shaped(nodes', g', rank', maxHistory) && Filled(g') && nodes' <= nodes + {s, t}
    ensures (r, g') == Updated(g, (s, t), sample, kind, maxHistory)
  {
    var e := (s, t);
    if e in g {
      PushExisting(nodes, g, rank, maxHistory, e, sample);
      return nodes, g[e := g[e].Update(sample)], Ok(()), rank;
    }
    var g1, accepted;
    nodes', g1, accepted, rank' := InsertEdge(nodes, g, rank, maxHistory, s, t, kind);
    if !accepted {
      return nodes', g1, Err(InvalidGraph), rank';
    }
    FirstSample(nodes', g, g1, rank', maxHistory, e, kind, sample);
    g' := g1[e := g1[e].Update(sample)];
    r := Ok(());
  }

  // ---------------------------------------------------------------------------
  // The buffer

  class BufferTree {
    const index: NodeIndex
    var nodes: set<Frame>
    var edges: map<Edge, TransformHistory>
    /** `max_transform_history` of the configuration. */
    const maxHistory: nat
    /** A ranking of the frames witnessing that every walk up the forest ends. */
    ghost var depth: map<Frame, nat>

    ghost function Edges(): set<Edge>
      reads this
    {
      edges.Keys
    }

    ghost function Samples(): (S: map<Edge, seq<StampedIsometry>>)
      reads this
      ensures S.Keys == edges.Keys
    {
      HistoriesOf(edges)
    }

    ghost function Kinds(): (K: map<Edge, TransformType>)
      reads this
      ensures K.Keys == edges.Keys
    {
      KindsOf(edges)
    }

    /** The graph part of the invariant: a ranked forest over the nodes, every history holding 1 to maxHistory samples. */
    ghost predicate GraphValid()
      reads this
    {
      Shaped(nodes, edges, depth, maxHistory) && Filled(edges)
    }

    ghost predicate Valid()
      reads this, index
    {
      && index.Valid()
      && (forall x | x in nodes :: x < index.maxNodeId)
      && GraphValid()
    }

    constructor (maxHistory: nat)
      requires maxHistory >= 1
      ensures Valid() && fresh(index)
      ensures index.nodeIds == map[] && nodes == {} && edges == map[] && this.maxHistory == maxHistory
    {
      index := new NodeIndex();
      nodes := {};
      edges := map[];
      this.maxHistory := maxHistory;
      depth := map[];
      new;
      assert Endpoints({}) == {};
      assert !IsCyclicUndirected({});
    }

    /** The two `index.index` calls that open `update` and `find_path`: both names get ids, old ids stay. */
    method Intern(x: string, y: string) returns (a: Frame, b: Frame)
      requires Valid()
      modifies index
      ensures Valid()
      ensures x in index.nodeIds && y in index.nodeIds && a == index.nodeIds[x] && b == index.nodeIds[y]
      ensures a < index.maxNodeId && b < index.maxNodeId
      ensures index.nodeIds.Keys == old(index.nodeIds).Keys + {x, y}
      ensures forall n | n in old(index.nodeIds) :: index.nodeIds[n] == old(index.nodeIds)[n]
    {
      a := index.Index(x);
      b := index.Index(y);
    }

    /**
      `find_path` by frame name: both names are interned (a new name gets a
      fresh id, a frame without edges), then the path between the ids.
    */
    method FindPath(from: string, to: string) returns (r: Option<seq<Frame>>)
      requires Valid()
      modifies index
      ensures Valid()
      ensures from in index.nodeIds && to in index.nodeIds
      ensures index.nodeIds.Keys == old(index.nodeIds).Keys + {from, to}
      ensures forall n | n in old(index.nodeIds) :: index.nodeIds[n] == old(index.nodeIds)[n]
      ensures r == Some(PathSpec(Edges(), depth, index.nodeIds[from], index.nodeIds[to]))
    {
      var a, b := Intern(from, to);
      var path := FindPathIn(edges.Keys, depth, a, b);
      r := Some(path);
    }

    /**
      `update`: intern both names, add an unknown edge with an empty history
      and refuse it (undoing the insertion) when it closes an undirected cycle
      or gives its target a second parent; then push the sample on the edge.
    */
    method Update(source: string, target: string, sample: StampedIsometry, kind: TransformType) returns (r: Result<(), TfError>)
      requires Valid()
      modifies this, index
      ensures Valid()
      ensures source in index.nodeIds && target in index.nodeIds
      ensures index.nodeIds.Keys == old(index.nodeIds).Keys + {source, target}
      ensures forall n | n in old(index.nodeIds) :: index.nodeIds[n] == old(index.nodeIds)[n]
      ensures (r, edges) == Updated(old(edges), (index.nodeIds[source], index.nodeIds[target]), sample, kind, maxHistory)
    {
      var s, t := Intern(source, target);
      assert forall x | x in nodes + {s, t} :: x < index.maxNodeId;
      var n, g;
      ghost var rk;
      n, g, r, rk := UpdateIn(nodes, edges, depth, maxHistory, s, t, sample, kind);
      assert Shaped(n, g, rk, maxHistory) && Filled(g);
      nodes, edges, depth := n, g, rk;
      assert GraphValid();
    }

    /**
      `lookup_transform`: unknown names are refused; otherwise the edge values
      at `time` are multiplied along the path, an edge walked backward
      contributing its inverse, and the first edge that cannot answer ends the
      lookup with its error.
    */
    method LookupTransform(source: string, target: string, time: real) returns (r: Result<StampedIsometry, TfError>)
      requires Valid()
      requires source in index.nodeIds && target in index.nodeIds ==>
        Resolvable(Edges(), depth, index.nodeIds[source], index.nodeIds[target])
      ensures source !in index.nodeIds || target !in index.nodeIds ==> r == Err(CouldNotFindTransform)
      ensures source in index.nodeIds && target in index.nodeIds ==>
        r == Lookup(Samples(), Kinds(), depth, index.nodeIds[source], index.nodeIds[target], time)
    {
      if !index.Contains(source) || !index.Contains(target) {
        return Err(CouldNotFindTransform);
      }
      var a, b := index.nodeIds[source], index.nodeIds[target];
      var path := FindPathIn(edges.Keys, depth, a, b);
      PathIsWalk(edges.Keys, depth, a, b);
      PathEnds(edges.Keys, depth, a, b);
      var x := ComposeAlong(edges, path, time);
      r := match x
        case Ok(isometry) => Ok(StampedIsometry(isometry, time))
        case Err(err) => Err(err);
    }

    /**
      `lookup_latest_transform`: like the lookup at a time, but every edge
      contributes its newest sample and the result carries the stamp 0.
    */
    method LookupLatestTransform(source: string, target: string) returns (r: Result<StampedIsometry, TfError>)
      requires Valid()
      requires source in index.nodeIds && target in index.nodeIds ==>
        Resolvable(Edges(), depth, index.nodeIds[source], index.nodeIds[target])
      ensures source !in index.nodeIds || target !in index.nodeIds ==> r == Err(CouldNotFindTransform)
      ensures source in index.nodeIds && target in index.nodeIds ==>
        r == Ok(LatestLookup(Samples(), depth, index.nodeIds[source], index.nodeIds[target]))
    {
      if !index.Contains(source) || !index.Contains(target) {
        return Err(CouldNotFindTransform);
      }
      var a, b := index.nodeIds[source], index.nodeIds[target];
      var path := FindPathIn(edges.Keys, depth, a, b);
      PathIsWalk(edges.Keys, depth, a, b);
      PathEnds(edges.Keys, depth, a, b);
      var isometry := LatestAlong(edges, path);
      r := Ok(StampedIsometry(isometry, 0.0));
    }
  }
}
