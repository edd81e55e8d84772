/**
 The node arena: an append-only sequence of owned nodes. A handle is the
 index of the slot a node was stored in; slots are never removed or changed.
 */
module Arena {
  import opened Ast

  /** `later` is `earlier` with zero or more nodes appended */
  predicate Extends(earlier: seq<Node>, later: seq<Node>) {
    |earlier| <= |later| && later[..|earlier|] == earlier
  }

  lemma ExtendsTransitive(a: seq<Node>, b: seq<Node>, c: seq<Node>)
    requires Extends(a, b) && Extends(b, c)
    ensures Extends(a, c)
  {
  }

  /** Every handle valid in the earlier arena still denotes the same node */
  lemma ExtendsKeepsHandles(earlier: seq<Node>, later: seq<Node>, h: Handle)
    requires Extends(earlier, later) && h < |earlier|
    ensures h < |later| && later[h] == earlier[h]
  {
  }

  datatype Allocation = Allocation(nodes: seq<Node>, handle: Handle)

  /** Store one node and return the handle of its slot */
  function Create(nodes: seq<Node>, node: Node): (r: Allocation)
    ensures |r.nodes| == |nodes| + 1
    ensures r.handle == |nodes| && r.nodes[r.handle] == node
    ensures Extends(nodes, r.nodes)
  {
    Allocation(nodes + [node], |nodes|)
  }

  datatype Allocations = Allocations(nodes: seq<Node>, handles: seq<Handle>)

  /** A run of `Create` calls, one per element of `batch`, in order */
  function CreateAll(nodes: seq<Node>, batch: seq<Node>): (r: Allocations)
    ensures r.nodes == nodes + batch
    ensures |r.handles| == |batch|
    ensures forall i :: 0 <= i < |batch| ==> r.handles[i] == |nodes| + i
    ensures forall i :: 0 <= i < |batch| ==> r.nodes[r.handles[i]] == batch[i]
    decreases |batch|
  {
    if |batch| == 0 then Allocations(nodes, [])
    else
      var first := Create(nodes, batch[0]);
      var rest := CreateAll(first.nodes, batch[1..]);
      Allocations(rest.nodes, [first.handle] + rest.handles)
  }

  /** No two `Create` calls in a run return the same handle, and each handle
      still denotes its own node once the whole run is done */
  lemma CreateAllHandlesDistinct(nodes: seq<Node>, batch: seq<Node>, i: nat, j: nat)
    requires i < j < |batch|
    ensures CreateAll(nodes, batch).handles[i] != CreateAll(nodes, batch).handles[j]
    ensures CreateAll(nodes, batch).nodes[CreateAll(nodes, batch).handles[i]] == batch[i]
  {
  }
}
