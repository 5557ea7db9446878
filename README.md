# schiebung in Dafny

schiebung is a transform buffer for robotics. Publishers report the pose of a
child frame relative to its parent frame at a point in time. The buffer keeps
these reports as a forest of frames whose edges carry a bounded,
time-stamped history of rigid-body isometries. Clients ask for the transform
between any two frames, either at a given time (interpolating on every edge
along the path) or for the latest reports.

This project models the buffer of `schiebung-core` and proves properties of it:

- the bounded edge history and its lookup at a time;
- the name-to-id interner;
- the graph update that refuses an undirected cycle or a second parent, and
  rolls the graph back when it does;
- the path search between two frames;
- the two lookups that compose edge values along that path.

It also models the small value types and wire codecs around the buffer:

- the transform kind with its byte and text forms, in its three crate variants;
- the stamp-only equality and ordering of stamped isometries;
- the conversions of a transform response;
- the server's event numbering;
- the fixed 100-slot frame-name encoding of the client and its decoding on the server;
- the conversion between the transform kind and its Cap'n Proto enum.

Modelling choices:

- Frames are natural numbers, the ids the interner hands out.
- The graph is a map from (parent, child) edges to histories. Its frames are
  exactly the ends of its edges, because `update` removes frames left without
  edges.
- Isometries are an algebra of terms: identity, from-parts, product, inverse
  and the translation/rotation blend. No law holds between the terms, so
  every lookup contract says which products and inverses were formed, and in
  which order.
- `f64` stamps are real numbers. The `i64` nanosecond stamp of
  `core/schiebung-core-rs` is a 64-bit newtype.
- The imperative parts keep the source's form:
  - the interner and the buffer are classes;
  - the two climbs of the path search and the two lookup loops are `while`
    loops, proved against ghost specification functions (`PathSpec`,
    `Lookup`, `LatestLookup`);
  - the name encoding fills an array with a loop.
- The undirected-cycle test is stated as a graph predicate. The model decides
  it by comparing the roots of the two frames before the edge goes in; the
  lemma `DecideNewEdge` proves that this gives the same answer on a forest.
- A ghost ranking of the frames (`depth`) witnesses that every walk up the
  forest ends. Accepting an edge re-ranks the tree that is hung below its
  source.

## Model

| member | source | states |
|---|---|---|
| Geometry.PoseFromArrays | core/schiebung-core-rs/src/types.rs:74-83 | the pose takes the translation array as x, y, z and builds the quaternion real part first from the [x, y, z, w] rotation array |
| Geometry.TranslationArray | core/schiebung-core-rs/src/types.rs:97-100 | the translation read back as [x, y, z] |
| Geometry.TranslationRoundTrip | core/schiebung-core-rs/src/types.rs:74-100 | reading the translation of a pose built from arrays gives back the translation array |
| CoreTypes.TryFrom | schiebung-core/src/types.rs:13-22 | byte 0 decodes to Dynamic, byte 1 to Static, and every other byte is refused, in both directions |
| CoreTypes.StampedIsometry.Cmp | schiebung-core/src/types.rs:97-109 | Less, Equal and Greater exactly when the stamp is below, equal to or above the other's; Equal coincides with the stamp-only equality |
| CoreTypes.CmpIsTotalOrder | schiebung-core/src/types.rs:105-114 | the order is antisymmetric, Equal is symmetric, and "not Greater" is transitive |
| CoreTypes.ResponseToStampedTransform | schiebung-core/src/types.rs:59-80 | the response time is the stamp, the translation is the vector of the three components, the rotation is the normalised quaternion (w from index 3) |
| CoreTypes.ResponseToStampedIsometry | schiebung-core/src/types.rs:116-136 | the response time is the stamp, and the isometry is built from parts whose translation reads back as the response's translation array |
| CoreTypes.ConversionsAgree | schiebung-core/src/types.rs:59-136 | both conversions of one response agree on stamp, translation and rotation |
| CoreRsTypes.Discriminant | core/schiebung-core-rs/src/types.rs:5-11 | Dynamic is 0, Static is 1 |
| CoreRsTypes.TryFrom | core/schiebung-core-rs/src/types.rs:13-22 | exactly the bytes 0 and 1 decode, each to the variant with that discriminant |
| CoreRsTypes.TryFromDiscriminant | core/schiebung-core-rs/src/types.rs:5-22 | decoding the discriminant of a kind gives that kind |
| CoreRsTypes.StaticTransform | core/schiebung-core-rs/src/types.rs:24-29 | the kind with discriminant 1, Static |
| CoreRsTypes.DynamicTransform | core/schiebung-core-rs/src/types.rs:30-34 | the kind with discriminant 0, Dynamic |
| CoreRsTypes.ToString | core/schiebung-core-rs/src/types.rs:36-43 | the text is "TransformType.STATIC" exactly for Static and "TransformType.DYNAMIC" exactly for Dynamic |
| CoreRsTypes.StampedIsometry.Cmp | core/schiebung-core-rs/src/types.rs:52-64 | the order of the 64-bit stamps, with Equal exactly when the stamp-only equality holds |
| CoreRsTypes.New | core/schiebung-core-rs/src/types.rs:72-88 | the stamp is kept unchanged and the pose is built from the two arrays |
| CoreRsTypes.NewAccessors | core/schiebung-core-rs/src/types.rs:72-111 | `stamp()` and `translation()` of a constructed value return the constructor's stamp and translation |
| CoreRsTypes.CmpIsTotalOrder | core/schiebung-core-rs/src/types.rs:60-70 | `cmp` is reflexive on Equal, antisymmetric, symmetric on Equal and transitive |
| RsTypes.Discriminant | schiebung-core-rs/src/types.rs:6-11 | Dynamic is 0, Static is 1 |
| RsTypes.TryFrom | schiebung-core-rs/src/types.rs:13-22 | exactly the bytes 0 and 1 decode, each to the variant with that discriminant |
| RsTypes.StaticTransform | schiebung-core-rs/src/types.rs:24-29 | the kind with discriminant 1, Static |
| RsTypes.DynamicTransform | schiebung-core-rs/src/types.rs:30-34 | the kind with discriminant 0, Dynamic |
| RsTypes.ToString | schiebung-core-rs/src/types.rs:36-43 | the text is "TransformType.STATIC" exactly for Static and "TransformType.DYNAMIC" exactly for Dynamic |
| RsTypes.StampedIsometry.Cmp | schiebung-core-rs/src/types.rs:51-63 | the order of the real stamps, with Equal exactly when the stamp-only equality holds |
| RsTypes.New | schiebung-core-rs/src/types.rs:72-83 | the stamp is kept unchanged and the pose is built from the two arrays |
| RsTypes.NewAccessors | schiebung-core-rs/src/types.rs:72-100 | `stamp()` and `translation()` of a constructed value return the constructor's stamp and translation |
| RsTypes.CmpIsTotalOrder | schiebung-core-rs/src/types.rs:59-69 | on comparable stamps `cmp` is reflexive on Equal, antisymmetric, symmetric on Equal and transitive |
| PubSubEvents.ToEventId | schiebung-server/src/types.rs:4-21 | ids 0 to 8 for the named events and 9 exactly for Unknown |
| PubSubEvents.FromEventId | schiebung-server/src/types.rs:23-38 | exactly the ids from 9 on give Unknown; every id below 9 decodes to the event with that id |
| PubSubEvents.EventIdRoundTrip | schiebung-server/src/types.rs:4-38 | every event, Unknown included, survives the trip through its id |
| PubSubEvents.FromEventIdInjective | schiebung-server/src/types.rs:25-34 | no two ids below 9 decode to the same event |
| CommsKind.ToKind | comms/src/lib.rs:20-28 | Static goes to Static and Dynamic to Dynamic, both ways |
| CommsKind.FromKind | comms/src/lib.rs:30-38 | Static goes to Static and Dynamic to Dynamic, both ways |
| CommsKind.KindRoundTrips | comms/src/lib.rs:20-38 | the two conversions are mutually inverse |
| ClientCodec.Encoded | schiebung-client/src/lib.rs:12-22 | 100 slots; slot i holds the i-th character when the name reaches it and '\0' otherwise |
| ClientCodec.EncodedTruncates | schiebung-client/src/lib.rs:17-19 | characters past the 100th do not change the encoding |
| ClientCodec.EncodeCharArray | schiebung-client/src/lib.rs:12-22 | the filled array has 100 slots and holds exactly the encoding of the name |
| ClientMainCodec.EncodeCharArray | schiebung-client/src/main.rs:12-22 | the duplicate produces the library's encoding on every name |
| ServerCodec.TakeWhileNotNul | schiebung-server/src/lib.rs:15 | the longest prefix without '\0': a prefix, free of '\0', and followed by '\0' when shorter than the input |
| ServerCodec.DecodeCharArray | schiebung-server/src/lib.rs:14-16 | the prefix before the first '\0': a '\0'-free prefix of at most 100 characters, followed in the array by '\0' when shorter, with length 100 exactly when the array has no '\0' |
| ServerCodec.DecodeEncoded | schiebung-server/src/lib.rs:14-16 | decoding inverts the client encoding on names of at most 100 characters without '\0' |
| LegacyServerCodec.DecodeCharArray | schiebung_server/src/lib.rs:14-16 | the duplicate decodes every array as the other server crate does, without '\0' and within 100 characters |
| TransformHistories.Pushed | schiebung-core/src/lib.rs:85-90 | the result is the back of history plus sample and grows by one exactly while below the bound; with the history within a bound of at least 1, it stays within 1 to the bound and ends with the new sample |
| TransformHistories.TransformHistory.Update | schiebung-core/src/lib.rs:85-90 | `update` keeps the edge's kind and bound; the new history is the old one with the sample pushed on the back, losing its front exactly when the bound is reached, and within a bound of at least 1 it ends with the new sample |
| TransformHistories.PushKeepsAscending | schiebung-core/src/lib.rs:85-90 | pushing a sample younger than all stored ones keeps the stamps strictly ascending |
| TransformHistories.LowerBound | schiebung-core/src/lib.rs:103-110 | the insertion point of the binary search: every earlier stamp is below the time, and the stamp at it is not |
| TransformHistories.Interpolate | schiebung-core/src/lib.rs:92-127 | a Static edge answers with its newest sample; a Dynamic edge with fewer than two samples gives CouldNotFindTransform; no error is InvalidGraph |
| TransformHistories.InterpolateAscending | schiebung-core/src/lib.rs:103-122 | on ascending stamps: an exact stamp returns that sample; a time before the first stamp is in the past; a time after the last is in the future; a time between neighbours blends them with a weight strictly inside (0, 1) |
| TransformHistories.WeightInside | schiebung-core/src/lib.rs:117-118 | the weight of a time strictly between two stamps lies strictly between 0 and 1 |
| NodeIndexing.NodeIndex.constructor | schiebung-core/src/lib.rs:140-145 | an empty index whose counter is 0 |
| NodeIndexing.NodeIndex.Index | schiebung-core/src/lib.rs:147-157 | a known name keeps its id and changes nothing; a new name gets the counter's value, which then grows by one; the id is below the counter and old ids are kept |
| NodeIndexing.NodeIndex.DistinctIds | schiebung-core/src/lib.rs:147-157 | distinct names have distinct ids |
| NodeIndexing.NodeIndex.Contains | schiebung-core/src/lib.rs:159-161 | true exactly for the names that have an id |
| FrameGraph.Reverse | schiebung-core/src/lib.rs:298 | position i holds the element at the mirrored position |
| FrameGraph.IndexOf | schiebung-core/src/lib.rs:291 | the first position of the frame |
| FrameGraph.CycleIff | schiebung-core/src/lib.rs:210 | on a forest, a new edge makes the graph cyclic exactly when it is a self loop or joins two connected frames |
| FrameGraph.SecondParentIff | schiebung-core/src/lib.rs:211-215 | a new edge gives its target more than one incoming edge exactly when the target already had a parent |
| FrameGraph.RejectsIff | schiebung-core/src/lib.rs:204-216 | on a forest, a new edge is refused exactly when it is a self loop, joins connected frames, or its target has a parent |
| FrameGraph.AcceptKeepsForest | schiebung-core/src/lib.rs:204-216 | an edge that is not refused keeps the graph a forest |
| FrameGraph.ConnectedIffSameRoot | schiebung-core/src/lib.rs:210 | in a ranked graph with single parents, two frames are connected exactly when they share a root |
| FrameGraph.DecideNewEdge | schiebung-core/src/lib.rs:210-215 | refusal is the same as: self loop, same root before insertion, or more than one incoming edge after it |
| FrameGraph.AcceptNewEdge | schiebung-core/src/lib.rs:204-216 | an accepted edge keeps a ranked forest and adds its two ends to the frames |
| FrameGraph.EndpointsTouch | schiebung-core/src/lib.rs:219-244 | a frame is in the graph exactly when some edge enters or leaves it |
| FrameGraph.ParentOf | schiebung-core/src/lib.rs:269-272 | the first incoming neighbour: an edge from it enters the frame, and there is none exactly when no edge enters |
| FrameGraph.ParentOfEdge | schiebung-core/src/lib.rs:269-272 | with single parents, the parent of an edge's child is the edge's source |
| FrameGraph.Ancestors | schiebung-core/src/lib.rs:269-281 | the chain up from a frame starts at that frame |
| FrameGraph.AncestorsClimb | schiebung-core/src/lib.rs:269-281 | each chain entry is the child of the next along an edge, and the last has no parent |
| FrameGraph.EdgeSameRoot | schiebung-core/src/lib.rs:269-281 | a child's chain is the child followed by its parent's chain, with the same root |
| FrameGraph.LcaIsLowest | schiebung-core/src/lib.rs:255-259 | the lowest common ancestor is on both chains, and the frames on both chains are exactly its own chain |
| FrameGraph.PathEnds | schiebung-core/src/lib.rs:260-302 | the path has at least two frames, starts at `from` and ends at `to` |
| FrameGraph.PathUpThenDown | schiebung-core/src/lib.rs:255-302 | between two frames of one tree, the path climbs child-to-parent edges to the lowest common ancestor and then descends parent-to-child edges to `to` |
| FrameGraph.JoinChains | schiebung-core/src/lib.rs:289-301 | an ascending and a descending chain joined where they meet give a path up to that frame and down from it |
| FrameGraph.PathIsWalk | schiebung-core/src/lib.rs:260-302 | for frames of one tree (not a root asked for itself), every consecutive pair of the path is joined by an edge in one of the two directions |
| FrameGraph.DisconnectedPathHasGap | schiebung-core/src/lib.rs:298-301 | between two trees the path contains a pair that no edge joins |
| FrameGraph.ClimbReachesTarget | schiebung-core/src/lib.rs:274-278 | when `to` is a proper ancestor of `from`, the path is the chain from `from` cut at `to` |
| FrameGraph.ClimbsMeet | schiebung-core/src/lib.rs:289-293 | when the second climb first meets the first chain at a frame, the path is the first chain cut there followed by the second climb reversed |
| FrameGraph.MeetIsLca | schiebung-core/src/lib.rs:289-293 | the first frame of the second chain found on the first chain is the lowest common ancestor |
| FrameGraph.ClimbsMiss | schiebung-core/src/lib.rs:284-301 | when no climb meets the other, the path is the first chain followed by the second chain reversed |
| FrameGraph.SingleEdgePath | schiebung-core/src/lib.rs:260-302 | across one edge the path is the two ends, in either direction |
| FrameGraph.RerankKeepsRanked | schiebung-core/src/lib.rs:204-216 | hanging a root outside the tree of s below s keeps a ranking of the grown graph |
| Buffer.ComposeOkIff | schiebung-core/src/lib.rs:364-382 | the composition along a path succeeds exactly when every edge factor along it succeeds |
| Buffer.ComposeFirstError | schiebung-core/src/lib.rs:373-379 | a failed composition reports the error of its first failing edge, and every earlier edge succeeded |
| Buffer.LookupParentToChild | schiebung-core/src/lib.rs:364-386 | across one edge, the lookup from parent to child is the identity times the edge value at that time, stamped with the time, or that edge's error |
| Buffer.LookupChildToParent | schiebung-core/src/lib.rs:364-386 | across one edge, the lookup from child to parent is the identity times the inverse of the edge value, or that edge's error |
| Buffer.LatestAcrossEdge | schiebung-core/src/lib.rs:317-345 | across one edge, the latest lookup is the newest sample forward and its inverse backward, stamped 0 |
| Buffer.ParentIn | schiebung-core/src/lib.rs:269-272 | the incoming neighbour of a frame, or none |
| Buffer.RootIn | schiebung-core/src/lib.rs:210 | the root of the frame's tree |
| Buffer.ClimbFrom | schiebung-core/src/lib.rs:261-281 | either the finished path, when `to` is met as a parent, or the whole chain of `from` with `to` not on it above `from` |
| Buffer.ClimbAndMerge | schiebung-core/src/lib.rs:283-301 | the second climb, the cut of the first chain and the reversed append give the specified path |
| Buffer.FindPathIn | schiebung-core/src/lib.rs:260-302 | the path between two ids is the specified path (up to the lowest common ancestor, then down) |
| Buffer.HistoriesOf | schiebung-core/src/lib.rs:170-174 | one sample sequence per edge of the graph |
| Buffer.KindsOf | schiebung-core/src/lib.rs:170-174 | one kind per edge of the graph |
| Buffer.ComposeAlong | schiebung-core/src/lib.rs:364-382 | the loop's result is the composition of the interpolated edge values along the path, walked-backward edges inverted, stopping at the first error |
| Buffer.LatestAlong | schiebung-core/src/lib.rs:317-341 | the loop's result is the product of the newest samples along the path, walked-backward edges inverted |
| Buffer.PushExisting | schiebung-core/src/lib.rs:248-251 | pushing on an existing edge keeps the forest, the bounds and every history non-empty |
| Buffer.FirstSample | schiebung-core/src/lib.rs:205-209 | the first push on a new edge leaves exactly that sample on it and keeps the invariant |
| Buffer.UpdatedViews | schiebung-core/src/lib.rs:204-252 | a push on a known edge changes only that edge's samples, and its kind stays fixed; a refused edge changes nothing and answers InvalidGraph; an accepted edge adds its kind and one sample |
| Buffer.RemoveEdge | schiebung-core/src/lib.rs:216-244 | the rollback restores the edges and the frames exactly as they were before the insertion |
| Buffer.InsertEdge | schiebung-core/src/lib.rs:197-246 | the edge is accepted exactly when it is not refused; accepted, it enters with an empty history and its two ends; refused, the graph and the frames are unchanged; the ranked forest holds either way |
| Buffer.UpdateIn | schiebung-core/src/lib.rs:197-252 | the result and the new edge map are those of `Updated`, and the ranked forest with 1 to max_history samples per edge is kept |
| Buffer.BufferTree.Samples | schiebung-core/src/lib.rs:170-174 | the samples of every edge of the buffer |
| Buffer.BufferTree.Kinds | schiebung-core/src/lib.rs:170-174 | the kind of every edge of the buffer |
| Buffer.BufferTree.constructor | schiebung-core/src/lib.rs:177-183 | an empty graph and an empty index with the configured bound |
| Buffer.BufferTree.Intern | schiebung-core/src/lib.rs:194-195 | both names have ids and the old ids are kept |
| Buffer.BufferTree.FindPath | schiebung-core/src/lib.rs:260-302 | both names get ids, and the result is Some of the specified path between them |
| Buffer.BufferTree.Update | schiebung-core/src/lib.rs:187-253 | the invariant is kept, both names get ids, and the result and the edge map are those of `Updated` for the two ids |
| Buffer.BufferTree.LookupTransform | schiebung-core/src/lib.rs:354-387 | an unknown name gives CouldNotFindTransform; otherwise the composition at that time along the path, stamped with the time, or the first edge error |
| Buffer.BufferTree.LookupLatestTransform | schiebung-core/src/lib.rs:308-346 | an unknown name gives CouldNotFindTransform; otherwise the product of the newest samples along the path, stamped 0 |
| FindPathScenario.TestShape | schiebung-core/src/lib.rs:608-658 | the test tree has at most one parent per frame and a ranking that grows from parent to child |
| FindPathScenario.TestUpperChains | schiebung-core/src/lib.rs:608-658 | the chains of A, B and C are A; B, A; and C, A |
| FindPathScenario.TestChains | schiebung-core/src/lib.rs:608-658 | the ancestor chains of the test tree A to B, A to C, B to D, B to E |
| FindPathScenario.PathDToB | schiebung-core/src/lib.rs:661-668 | in any graph where D climbs through B to A, the path from D to B is D, B |
| FindPathScenario.PathDToC | schiebung-core/src/lib.rs:670-679 | in any graph where D climbs through B to A and C hangs below A, the path from D to C is D, B, A, C |
| FindPathScenario.PathDToE | schiebung-core/src/lib.rs:681-689 | in any graph where D and E both climb through B to A, the path from D to E is D, B, E |
| FindPathScenario.PathAToE | schiebung-core/src/lib.rs:691-699 | in any graph where A is a root and E climbs through B to A, the path from A to E is A, B, E |
| FindPathScenario.TestPaths | schiebung-core/src/lib.rs:608-699 | on the test's tree, the four paths are D, B; D, B, A, C; D, B, E; and A, B, E |
| UpdateScenario.AcceptRootEdge | schiebung-core/src/lib.rs:204-216 | an edge from a frame to a root of another tree is accepted and keeps a forest |
| UpdateScenario.PathTreeFirst | schiebung-core/src/lib.rs:611-621 | the update A to B is accepted on the empty graph, which then is a forest |
| UpdateScenario.PathTreeSecond | schiebung-core/src/lib.rs:623-633 | the update A to C is then accepted, and the two edges form a forest |
| UpdateScenario.PathTreeThird | schiebung-core/src/lib.rs:635-645 | the update B to D is then accepted |
| UpdateScenario.PathTreeAccepted | schiebung-core/src/lib.rs:647-657 | the update B to E is then accepted, and the four edges form a forest |
| UpdateScenario.CycleRefused | schiebung-core/src/lib.rs:531-572 | after A to B and B to C, C to A is refused with InvalidGraph, nothing changes, and all three frames remain |
| UpdateScenario.SecondParentRefused | schiebung-core/src/lib.rs:575-605 | after A to B, C to B is refused with InvalidGraph, nothing changes, and C is not a frame of the graph |
| UpdateScenario.TwoSamples | schiebung-core/src/lib.rs:468-527 | two updates of one edge leave both samples on it, the newer at the back, whatever its kind |

## Left out

- Numerics of nalgebra: isometry products, inverses, `lerp_slerp` and quaternion normalisation are terms, not computed values. Not modelled: `rotation()`, `euler_angles`, `norm`, `from_secs`, `stamp_secs` and `stamp_as_duration` of the `StampedIsometry` types, and the `Display` of `StampedTransform` and `StampedIsometry`.
- NaN stamps: stamps are real numbers, so the `partial_cmp(..).unwrap()` panic of `cmp` on NaN and the float rounding of the interpolation weight are not modelled.
- petgraph: `DiGraphMap`, `is_cyclic_undirected` and `neighbors_directed` are modelled by predicates and functions on the model's edge set, not by the library's algorithms. The node/edge iteration order of petgraph is not modelled. With at most one parent per frame, the first incoming neighbour is unique.
- `TransformHistory::update`: the in-place `VecDeque` push/pop is modelled as a value (`Pushed`, `TransformHistory.Update`) that the buffer stores back into its edge map. Each history is owned by its edge, so there is no aliasing to capture.
- `interpolate_isometry_at_time`: `binary_search_by` is modelled as the first position whose stamp is not below the time (`LowerBound`). On stamps that are not strictly ascending the library may land on another position; the contract about exact, past, future and blended answers (`InterpolateAscending`) is stated for strictly ascending stamps only. The buffer does not sort or check the stamps it is given, and neither does the model.
- Buffer.BufferTree.constructor: requires a bound of at least 1. The configured `max_transform_history` (default 1000) is a parameter; loading it from the configuration file is not modelled. With a bound of 0, every push empties the history: a lookup across a Static edge and every latest lookup then panic on `back().unwrap()`, while a Dynamic edge answers CouldNotFindTransform because it holds fewer than two samples.
- Buffer.BufferTree.LookupTransform: requires both frames to lie in one tree, and a frame asked for itself to have a parent. Between two trees the source's path is the chain of `source` up to its root, then the pair of the two roots, which no edge joins, then the chain down to `target`; `DisconnectedPathHasGap` states the gap. The factors before the gap are interpolated with `?`, so when one of them fails (lookup in the past or future, or a Dynamic edge with one sample) the source returns that edge error; only when all of them succeed does it reach the gap and panic on `unwrap`. The precondition therefore also excludes the disconnected queries on which the source returns an edge error, and the model does not state that error.
- Buffer.BufferTree.LookupLatestTransform: the same precondition. Its factors have no `?`, so between two trees the source always reaches the gap pair and panics on `unwrap`.
- TransformHistories.Interpolate: requires a non-empty history on a Static edge, where the source panics on `back().unwrap()`. Histories in the buffer always hold a sample, because a new edge gets its first sample in the same `update`.
- The lookups use the path search on ids (`FindPathIn`) rather than the by-name `FindPath`. The names are known at that point, so interning them changes nothing.
- The interner's counter is unbounded; `usize` overflow of `max_node_id` is not modelled.
- `visualize` and `save_visualization` (DOT text, file writes, spawning `dot`) are left out as output formatting and I/O.
- The observer registration and replay of the Python bindings are left out as binding glue.
- Transport and concurrency are left out: the iceoryx2 and zenoh servers and clients, the Cap'n Proto serialisers, the ROS2 relays, the pyo3 bindings, and the mutexes and tasks around the buffer.
