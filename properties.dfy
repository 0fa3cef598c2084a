/** What a call of `upsert_composite` promises, stated over the specification
    `Composite.Upsert` (which the procedure is proved to compute). Every lemma
    holds for any inserted key type.
 */
module Properties {
  import opened GraphData
  import opened Composite

  // ---- Exact matching ----

  /** A returned vertex is one of the graph's vertices, carries the label, and its
      incoming-source key set is exactly the member key set. */
  lemma CompIsExactMatch<K>(g: Graph, compStr: string, items: seq<Value>, key: Property -> K, v: Vertex)
    requires Upsert(g, String(compStr), List(items), key) == Ok(Comp(Some(v)))
    ensures g.vertices.Some? && v in g.vertices.value
    ensures HasLabel(v, compStr) == Some(true)
    ensures EdgeFailure(v).None? && InKeys(v, key) == Ok(MemberKeys(items, key))
  {
    var vs := g.vertices.value;
    var i := LastMatch(vs, compStr, MemberKeys(items, key), key);
    LastMatchIsLastQualifying(vs, compStr, MemberKeys(items, key), key);
    assert vs[i.value] == v;
  }

  /** A labelled candidate whose sources' key set is a strict superset or a strict
      subset of the member key set is never returned. */
  lemma NearMissIsNotReturned<K>(g: Graph, compStr: string, items: seq<Value>, key: Property -> K, v: Vertex)
    requires EdgeFailure(v).None?
    requires InKeys(v, key).value < MemberKeys(items, key) || MemberKeys(items, key) < InKeys(v, key).value
    ensures Upsert(g, String(compStr), List(items), key) != Ok(Comp(Some(v)))
  {
    if Upsert(g, String(compStr), List(items), key) == Ok(Comp(Some(v))) {
      CompIsExactMatch(g, compStr, items, key, v);
    }
  }

  /** An empty member list matches a labelled vertex whose sources contribute no keys. */
  lemma EmptyMembersMatchKeylessCandidate<K>(v: Vertex, compStr: string, key: Property -> K)
    requires HasLabel(v, compStr) == Some(true)
    requires InKeys(v, key) == Ok({})
    ensures Upsert(Graph(Some([v])), String(compStr), List([]), key) == Ok(Comp(Some(v)))
  {
    assert MemberKeys([], key) == {};
    assert [v][..0] == [];
    ScanErrorIsFirstAbort([v], compStr);
  }

  // ---- Tie-break: the last qualifying vertex wins ----

  /** When no candidate aborts, the result is the qualifying vertex after which no
      other vertex qualifies, however many qualify before it. */
  lemma {:induction false} LastQualifyingWins<K>(vs: seq<Vertex>, compStr: string, items: seq<Value>, key: Property -> K, j: nat)
    requires AllVertices(items)
    requires ScanError(vs, compStr).None?
    requires j < |vs| && Qualifies(vs[j], compStr, MemberKeys(items, key), key)
    requires forall m :: j < m < |vs| ==> !Qualifies(vs[m], compStr, MemberKeys(items, key), key)
    ensures Upsert(Graph(Some(vs)), String(compStr), List(items), key) == Ok(Comp(Some(vs[j])))
  {
    LastMatchIsLastQualifying(vs, compStr, MemberKeys(items, key), key);
  }

  // ---- No match is not an error ----

  /** When no candidate aborts and none qualifies, `comp` is null. */
  lemma NoQualifyingCandidateGivesNull<K>(vs: seq<Vertex>, compStr: string, items: seq<Value>, key: Property -> K)
    requires AllVertices(items)
    requires forall i :: 0 <= i < |vs| ==> !Aborts(vs[i], compStr)
    requires forall i :: 0 <= i < |vs| ==> !Qualifies(vs[i], compStr, MemberKeys(items, key), key)
    ensures Upsert(Graph(Some(vs)), String(compStr), List(items), key) == Ok(Comp(None))
  {
    ScanErrorIsFirstAbort(vs, compStr);
    LastMatchIsLastQualifying(vs, compStr, MemberKeys(items, key), key);
  }

  /** When no vertex carries the label, `comp` is null. */
  lemma NoLabelledVertexGivesNull<K>(vs: seq<Vertex>, compStr: string, items: seq<Value>, key: Property -> K)
    requires AllVertices(items)
    requires forall i :: 0 <= i < |vs| ==> HasLabel(vs[i], compStr) != Some(true)
    ensures Upsert(Graph(Some(vs)), String(compStr), List(items), key) == Ok(Comp(None))
  {
    NoQualifyingCandidateGivesNull(vs, compStr, items, key);
  }

  /** When the vertex iterator cannot be opened, `comp` is null. */
  lemma UnreadableGraphGivesNull<K>(compStr: string, items: seq<Value>, key: Property -> K)
    requires AllVertices(items)
    ensures Upsert(Graph(None), String(compStr), List(items), key) == Ok(Comp(None))
  {
  }

  // ---- Set semantics of the member list and of the incoming edges ----

  /** Two member lists with the same elements (in any order, with any repetition)
      give the same member key set. */
  lemma MemberKeysSameElements<K>(a: seq<Value>, b: seq<Value>, key: Property -> K)
    requires forall x :: x in a <==> x in b
    ensures MemberKeys(a, key) == MemberKeys(b, key)
  {
  }

  /** Reordering or repeating members never changes the outcome. */
  lemma MemberOrderAndDuplicatesIrrelevant<K>(g: Graph, compositeType: Value, a: seq<Value>, b: seq<Value>, key: Property -> K)
    requires forall x :: x in a <==> x in b
    ensures Upsert(g, compositeType, List(a), key) == Upsert(g, compositeType, List(b), key)
  {
    MemberKeysSameElements(a, b, key);
  }

  /** A member whose name lookup fails is dropped without an error. */
  lemma MemberWithoutNameDropped<K>(g: Graph, compositeType: Value, items: seq<Value>, v: Vertex, key: Property -> K)
    requires NameProperty(v).None?
    ensures Upsert(g, compositeType, List(items + [VertexValue(v)]), key) == Upsert(g, compositeType, List(items), key)
  {
    MemberKeysSnoc(items, VertexValue(v), key);
    assert MemberKey(VertexValue(v), key).None?;
    assert MemberKeys(items + [VertexValue(v)], key) == MemberKeys(items, key);
    assert AllVertices(items + [VertexValue(v)]) == AllVertices(items);
  }

  /** Two edge lists with the same sources (in any order, with any repetition) give
      the same source key set. */
  lemma SourceKeysSameElements<K>(a: seq<EdgeSource>, b: seq<EdgeSource>, key: Property -> K)
    requires forall e :: e in a <==> e in b
    ensures SourceKeys(a, key) == SourceKeys(b, key)
  {
  }

  /** Reordering or repeating a candidate's incoming edges never changes its source
      set or whether reading them fails. */
  lemma EdgeOrderIrrelevant<K>(v: Vertex, edges: seq<EdgeSource>, key: Property -> K)
    requires v.inEdges.Some?
    requires forall e :: e in v.inEdges.value <==> e in edges
    ensures InKeys(v.(inEdges := Some(edges)), key) == InKeys(v, key)
  {
    SourceKeysSameElements(v.inEdges.value, edges, key);
  }

  /** An incoming edge whose source's name lookup fails is dropped without an error. */
  lemma SourceWithoutNameDropped<K>(v: Vertex, src: Vertex, key: Property -> K)
    requires v.inEdges.Some?
    requires NameProperty(src).None?
    ensures InKeys(v.(inEdges := Some(v.inEdges.value + [Source(src)])), key) == InKeys(v, key)
  {
    var edges := v.inEdges.value;
    var w := v.(inEdges := Some(edges + [Source(src)]));
    SourceKeysSnoc(edges, Source(src), key);
    assert SourceKey(Source(src), key).None?;
    assert SourceKeys(edges + [Source(src)], key) == SourceKeys(edges, key);
    assert EdgeFailure(w) == EdgeFailure(v);
  }

  // ---- Errors and their precedence ----

  /** Any element of the member list that is not a vertex aborts the call with
      `UnableToFindVertexById`, whatever the label argument and the graph. */
  lemma NonVertexMemberAbortsFirst<K>(g: Graph, compositeType: Value, items: seq<Value>, key: Property -> K, i: nat)
    requires i < |items| && !items[i].VertexValue?
    ensures Upsert(g, compositeType, List(items), key) == Err(UnableToFindVertexById)
  {
  }

  /** A label argument that is not a string aborts with `UnableToMakeValueString`
      once every member has been accepted, whatever the graph. */
  lemma NonStringLabelAborts<K>(g: Graph, compositeType: Value, items: seq<Value>, key: Property -> K)
    requires AllVertices(items)
    requires !compositeType.String?
    ensures Upsert(g, compositeType, List(items), key) == Err(UnableToMakeValueString)
  {
  }

  /** A second argument that is not a list ends the call successfully without writing
      `comp`, and without looking at the label argument. */
  lemma NonListWritesNothing<K>(g: Graph, compositeType: Value, passedNodes: Value, key: Property -> K)
    requires !passedNodes.List?
    ensures Upsert(g, compositeType, passedNodes, key) == Ok(NoRecord)
  {
  }

  /** The first labelled candidate whose edges cannot be read aborts the call with
      its error, discarding any match found before it: `in_edges()` failing gives
      `UnableToReturnVertexInEdgesIterator`, an unresolvable edge source
      `UnableToReturnVertexPropertiesIterator`. */
  lemma FirstEdgeFailureAborts<K>(vs: seq<Vertex>, compStr: string, items: seq<Value>, key: Property -> K, i: nat)
    requires AllVertices(items)
    requires i < |vs| && HasLabel(vs[i], compStr) == Some(true)
    requires vs[i].inEdges.None? || Unresolvable in vs[i].inEdges.value
    requires forall j :: 0 <= j < i ==> !Aborts(vs[j], compStr)
    ensures vs[i].inEdges.None? ==>
      Upsert(Graph(Some(vs)), String(compStr), List(items), key) == Err(UnableToReturnVertexInEdgesIterator)
    ensures vs[i].inEdges.Some? ==>
      Upsert(Graph(Some(vs)), String(compStr), List(items), key) == Err(UnableToReturnVertexPropertiesIterator)
  {
    var r := ScanError(vs, compStr);
    ScanErrorIsFirstAbort(vs, compStr);
    assert Aborts(vs[i], compStr);
    var n :| 0 <= n < |vs| && Aborts(vs[n], compStr) && r == EdgeFailure(vs[n]) &&
      forall j :: 0 <= j < n ==> !Aborts(vs[j], compStr);
  }

  /** A vertex whose label check fails is neither a match nor a cause of error: it is
      skipped like an unlabelled one. */
  lemma LabelCheckErrorSkipsVertex<K>(vs: seq<Vertex>, compStr: string, items: seq<Value>, key: Property -> K, i: nat)
    requires AllVertices(items)
    requires i < |vs| && HasLabel(vs[i], compStr).None?
    ensures Upsert(Graph(Some(vs)), String(compStr), List(items), key) ==
      Upsert(Graph(Some(vs[..i] + vs[i + 1..])), String(compStr), List(items), key)
  {
    var members := MemberKeys(items, key);
    var ws := vs[..i] + vs[i + 1..];
    ScanErrorSkip(vs, compStr, i);
    LastMatchSkip(vs, compStr, members, key, i);
  }

  /** Removing a non-candidate leaves the first abort unchanged. */
  lemma {:induction false} ScanErrorSkip(vs: seq<Vertex>, compStr: string, i: nat)
    requires i < |vs| && !IsCandidate(vs[i], compStr)
    ensures ScanError(vs[..i] + vs[i + 1..], compStr) == ScanError(vs, compStr)
    decreases |vs|
  {
    var ws := vs[..i] + vs[i + 1..];
    var init := vs[..|vs| - 1];
    var last := vs[|vs| - 1];
    if i == |vs| - 1 {
      assert ws == init;
      assert !Aborts(last, compStr);
    } else {
      var wsInit := ws[..|ws| - 1];
      assert wsInit == init[..i] + init[i + 1..];
      assert ws[|ws| - 1] == last;
      ScanErrorSkip(init, compStr, i);
      assert ScanError(wsInit, compStr) == ScanError(init, compStr);
    }
  }

  /** Removing a non-candidate leaves the last match unchanged (up to the shift of
      the indices after it). */
  lemma {:induction false} LastMatchSkip<K>(vs: seq<Vertex>, compStr: string, members: set<K>, key: Property -> K, i: nat)
    requires i < |vs| && !IsCandidate(vs[i], compStr)
    ensures VertexAt(vs[..i] + vs[i + 1..], LastMatch(vs[..i] + vs[i + 1..], compStr, members, key)) ==
      VertexAt(vs, LastMatch(vs, compStr, members, key))
    decreases |vs|
  {
    var ws := vs[..i] + vs[i + 1..];
    if i == |vs| - 1 {
      assert ws == vs[..|vs| - 1];
    } else {
      var init := vs[..|vs| - 1];
      LastMatchSkip(init, compStr, members, key, i);
      assert ws[..|ws| - 1] == init[..i] + init[i + 1..];
      assert ws[|ws| - 1] == vs[|vs| - 1];
    }
  }
}
