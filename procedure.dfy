/** The body of the `upsert_composite` read procedure, step by step: build the
    member set, check the label, scan every vertex, rebuild each candidate's
    source set in one shared set that is cleared after every vertex, and keep
    the last candidate whose set equals the member set.
 */
module Procedure {
  import opened GraphData
  import opened Composite

  /** One call of the procedure. `key` is what it inserts for a property lookup;
      the procedure as written passes `PropertyName`. */
  method UpsertComposite<K(==)>(g: Graph, compositeType: Value, passedNodes: Value, key: Property -> K)
    returns (out: Result<Output>)
    ensures out == Upsert(g, compositeType, passedNodes, key)
  {
    var matchedOrCreatedNode: Option<Vertex> := None;
    if passedNodes.List? {
      var nodes := passedNodes.items;
      var memberSet: set<K> := {};
      var inSet: set<K> := {};
      for i := 0 to |nodes|
        invariant AllVertices(nodes[..i])
        invariant memberSet == MemberKeys(nodes[..i], key)
      {
        assert nodes[..i + 1] == nodes[..i] + [nodes[i]];
        MemberKeysSnoc(nodes[..i], nodes[i], key);
        match nodes[i] {
          case VertexValue(v) =>
            match NameProperty(v) {
              case Some(prop) =>
                memberSet := memberSet + {key(prop)};
              case None =>
            }
          case _ =>
            assert nodes[i] in nodes;
            return Err(UnableToFindVertexById);
        }
      }
      assert nodes[..|nodes|] == nodes;

      match compositeType {
        case String(compStr) =>
          match g.vertices {
            case Some(vertexIter) =>
              for k := 0 to |vertexIter|
                invariant inSet == {}
                invariant ScanError(vertexIter[..k], compStr).None?
                invariant matchedOrCreatedNode == VertexAt(vertexIter, LastMatch(vertexIter[..k], compStr, memberSet, key))
              {
                var vertex := vertexIter[k];
                assert vertexIter[..k + 1][..k] == vertexIter[..k];
                assert vertexIter[..k + 1][k] == vertex;
                var labelCheck := HasLabel(vertex, compStr);
                if labelCheck == Some(true) {
                  match vertex.inEdges {
                    case Some(edges) =>
                      for e := 0 to |edges|
                        invariant Unresolvable !in edges[..e]
                        invariant inSet == SourceKeys(edges[..e], key)
                      {
                        assert edges[..e + 1] == edges[..e] + [edges[e]];
                        SourceKeysSnoc(edges[..e], edges[e], key);
                        match edges[e] {
                          case Source(src) =>
                            match NameProperty(src) {
                              case Some(prop) =>
                                inSet := inSet + {key(prop)};
                              case None =>
                            }
                          case Unresolvable =>
                            assert edges[e] in edges;
                            ScanErrorPrefix(vertexIter, k + 1, compStr);
                            return Err(UnableToReturnVertexPropertiesIterator);
                        }
                      }
                      assert edges[..|edges|] == edges;
                    case None =>
                      ScanErrorPrefix(vertexIter, k + 1, compStr);
                      return Err(UnableToReturnVertexInEdgesIterator);
                  }
                  assert InKeys(vertex, key) == Ok(inSet);
                  // exact equality, tested as mutual containment
                  if memberSet <= inSet && memberSet >= inSet {
                    MutualContainmentIsEquality(memberSet, inSet);
                    matchedOrCreatedNode := Some(vertex);
                  }
                }
                assert LastMatch(vertexIter[..k + 1], compStr, memberSet, key) ==
                  if Qualifies(vertex, compStr, memberSet, key) then Some(k)
                  else LastMatch(vertexIter[..k], compStr, memberSet, key);
                inSet := {};
              }
              assert vertexIter[..|vertexIter|] == vertexIter;
            case None =>
          }
          out := Ok(Comp(matchedOrCreatedNode));
        case _ =>
          return Err(UnableToMakeValueString);
      }
    } else {
      out := Ok(NoRecord);
    }
  }
}
