/**
  The string-to-id interner the buffer keeps next to its graph, whose nodes
  are integers (schiebung-core/src/lib.rs).
*/
module NodeIndexing {

  class NodeIndex {
    /** The next id to hand out. */
    var maxNodeId: nat
    var nodeIds: map<string, nat>
    /** The name each id went to, in the order the ids were handed out. */
    ghost var names: seq<string>

    /** The ids handed out are exactly 0 .. maxNodeId - 1, each to one name. */
    ghost predicate Valid()
      reads this
    {
      && |names| == maxNodeId
      && (forall n | n in nodeIds :: nodeIds[n] < maxNodeId && names[nodeIds[n]] == n)
      && (forall i | 0 <= i < |names| :: names[i] in nodeIds && nodeIds[names[i]] == i)
    }

    constructor ()
      ensures Valid() && maxNodeId == 0 && nodeIds == map[]
    {
      maxNodeId := 0;
      nodeIds := map[];
      names := [];
    }

    /** No two names share an id. */
    lemma DistinctIds(n: string, m: string)
      requires Valid() && n in nodeIds && m in nodeIds && n != m
      ensures nodeIds[n] != nodeIds[m]
    {
      assert names[nodeIds[n]] == n && names[nodeIds[m]] == m;
    }

    /** The id of `node`, handing out the counter's value to a name seen for the first time. */
    method Index(node: string) returns (id: nat)
      requires Valid()
      modifies this
      ensures Valid()
      ensures node in nodeIds && nodeIds[node] == id && id < maxNodeId
      ensures nodeIds.Keys == old(nodeIds).Keys + {node} && old(maxNodeId) <= maxNodeId
      ensures forall n | n in old(nodeIds) :: nodeIds[n] == old(nodeIds)[n]
      ensures node in old(nodeIds) ==> nodeIds == old(nodeIds) && maxNodeId == old(maxNodeId)
      ensures node !in old(nodeIds) ==>
        id == old(maxNodeId) && nodeIds == old(nodeIds)[node := id] && maxNodeId == old(maxNodeId) + 1
    {
      if node in nodeIds {
        id := nodeIds[node];
      } else {
        id := maxNodeId;
        nodeIds := nodeIds[node := id];
        names := names + [node];
        maxNodeId := maxNodeId + 1;
      }
    }

    function Contains(node: string): (b: bool)
      reads this
      ensures b <==> node in nodeIds
    {
      node in nodeIds
    }
  }
}
