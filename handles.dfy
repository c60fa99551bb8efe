/**
 Connection-point (handle) identifiers. Both node components publish each of
 their handles under the node id and a local name joined by a double
 underscore: `${nodeId}__${name}`.
 */
module Handles {

  const Separator: string := "__"

  /** The id under which a node publishes the handle of one field or output. */
  function HandleId(nodeId: string, name: string): (id: string)
    ensures |id| == |nodeId| + |Separator| + |name|
    ensures id[..|nodeId|] == nodeId
    ensures id[|nodeId|..|nodeId| + |Separator|] == Separator
    ensures id[|nodeId| + |Separator|..] == name
  {
    nodeId + Separator + name
  }

  /** Within one node, distinct names give distinct handle ids. */
  lemma HandleIdInjective(nodeId: string, a: string, b: string)
    requires HandleId(nodeId, a) == HandleId(nodeId, b)
    ensures a == b
  {
    assert a == HandleId(nodeId, a)[|nodeId| + |Separator|..];
  }

  /** A published handle id is never the bare field name, whatever the node id. */
  lemma HandleIdIsNotBareName(nodeId: string, name: string)
    ensures HandleId(nodeId, name) != name
  {
    assert |HandleId(nodeId, name)| > |name|;
  }
}
