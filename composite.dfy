/** The meaning of `upsert_composite`, stated without loops.

    The sets the procedure builds are described by comprehension, the label scan
    by two functions over the vertex sequence: the first candidate whose edges
    cannot be read, and the last candidate whose source set equals the member set.
    `key` is what the procedure inserts for a property lookup; the procedure as
    written passes `PropertyName`.
 */
module Composite {
  import opened GraphData

  /** The key a member-list element contributes: only a vertex whose name lookup succeeds contributes one. */
  function MemberKey<K>(x: Value, key: Property -> K): Option<K>
  {
    match x
    case VertexValue(v) =>
      (match NameProperty(v)
       case Some(p) => Some(key(p))
       case None => None)
    case _ => None
  }

  predicate AllVertices(items: seq<Value>)
  {
    forall x :: x in items ==> x.VertexValue?
  }

  /** The member set: the keys of the listed vertices whose name lookup succeeds. */
  function MemberKeys<K(==)>(items: seq<Value>, key: Property -> K): set<K>
  {
    set x | x in items && MemberKey(x, key).Some? :: MemberKey(x, key).value
  }

  /** The key an incoming edge contributes: only a resolved source whose name lookup succeeds contributes one. */
  function SourceKey<K>(e: EdgeSource, key: Property -> K): Option<K>
  {
    match e
    case Source(src) =>
      (match NameProperty(src)
       case Some(p) => Some(key(p))
       case None => None)
    case Unresolvable => None
  }

  /** The keys of the sources of a sequence of incoming edges. */
  function SourceKeys<K(==)>(edges: seq<EdgeSource>, key: Property -> K): set<K>
  {
    set e | e in edges && SourceKey(e, key).Some? :: SourceKey(e, key).value
  }

  /** The error reading a candidate's incoming edges raises, if any. */
  function EdgeFailure(v: Vertex): Option<Error>
  {
    match v.inEdges
    case None => Some(UnableToReturnVertexInEdgesIterator)
    case Some(edges) =>
      if Unresolvable in edges then Some(UnableToReturnVertexPropertiesIterator) else None
  }

  /** The candidate's own source set, rebuilt from its incoming edges alone, or the error. */
  function InKeys<K(==)>(v: Vertex, key: Property -> K): Result<set<K>>
  {
    match EdgeFailure(v)
    case Some(e) => Err(e)
    case None => Ok(SourceKeys(v.inEdges.value, key))
  }

  /** A vertex whose label check answers `Ok(true)`; a failing check excludes it. */
  predicate IsCandidate(v: Vertex, compStr: string)
  {
    HasLabel(v, compStr) == Some(true)
  }

  /** A candidate on which the scan stops with an error. */
  predicate Aborts(v: Vertex, compStr: string)
  {
    IsCandidate(v, compStr) && EdgeFailure(v).Some?
  }

  /** The procedure's test, "members are a subset and a superset of the sources",
      is set equality: a strict subset or superset never passes it. */
  lemma MutualContainmentIsEquality<K>(members: set<K>, sources: set<K>)
    ensures (members <= sources && members >= sources) <==> members == sources
    ensures members < sources || sources < members ==> !(members <= sources && members >= sources)
  {
  }

  /** A candidate whose source set is exactly the member set. */
  predicate Qualifies<K(==)>(v: Vertex, compStr: string, members: set<K>, key: Property -> K)
  {
    IsCandidate(v, compStr) && InKeys(v, key) == Ok(members)
  }

  /** The error of the first aborting candidate, or None when no candidate aborts
      (see ScanErrorIsFirstAbort). */
  function ScanError(vs: seq<Vertex>, compStr: string): Option<Error>
  {
    if |vs| == 0 then None
    else
      var earlier := ScanError(vs[..|vs| - 1], compStr);
      if earlier.Some? then earlier
      else if Aborts(vs[|vs| - 1], compStr) then EdgeFailure(vs[|vs| - 1])
      else None
  }

  /** The index of the last qualifying candidate, or None when none qualifies
      (see LastMatchIsLastQualifying). */
  function LastMatch<K(==)>(vs: seq<Vertex>, compStr: string, members: set<K>, key: Property -> K): (r: Option<nat>)
    ensures r.Some? ==> r.value < |vs|
  {
    if |vs| == 0 then None
    else if Qualifies(vs[|vs| - 1], compStr, members, key) then Some(|vs| - 1)
    else LastMatch(vs[..|vs| - 1], compStr, members, key)
  }

  /** ScanError reports nothing exactly when no candidate aborts, and otherwise the
      error of the first candidate that does. */
  lemma {:induction false} ScanErrorIsFirstAbort(vs: seq<Vertex>, compStr: string)
    ensures ScanError(vs, compStr).None? <==> forall i :: 0 <= i < |vs| ==> !Aborts(vs[i], compStr)
    ensures ScanError(vs, compStr).Some? ==>
      exists i :: 0 <= i < |vs| && Aborts(vs[i], compStr) && ScanError(vs, compStr) == EdgeFailure(vs[i]) &&
        forall j :: 0 <= j < i ==> !Aborts(vs[j], compStr)
  {
    if |vs| > 0 {
      var init := vs[..|vs| - 1];
      ScanErrorIsFirstAbort(init, compStr);
      assert forall i :: 0 <= i < |init| ==> init[i] == vs[i];
    }
  }

  /** LastMatch finds nothing exactly when no candidate qualifies, and otherwise a
      qualifying candidate after which none qualifies. */
  lemma {:induction false} LastMatchIsLastQualifying<K>(vs: seq<Vertex>, compStr: string, members: set<K>, key: Property -> K)
    ensures LastMatch(vs, compStr, members, key).None? <==>
      forall i :: 0 <= i < |vs| ==> !Qualifies(vs[i], compStr, members, key)
    ensures LastMatch(vs, compStr, members, key).Some? ==>
      var m := LastMatch(vs, compStr, members, key).value;
      Qualifies(vs[m], compStr, members, key) &&
      forall j :: m < j < |vs| ==> !Qualifies(vs[j], compStr, members, key)
  {
    if |vs| > 0 && !Qualifies(vs[|vs| - 1], compStr, members, key) {
      var init := vs[..|vs| - 1];
      LastMatchIsLastQualifying(init, compStr, members, key);
      assert forall i :: 0 <= i < |init| ==> init[i] == vs[i];
    }
  }

  /** The vertex at an optional index. */
  function VertexAt(vs: seq<Vertex>, i: Option<nat>): Option<Vertex>
    requires i.Some? ==> i.value < |vs|
  {
    match i
    case None => None
    case Some(n) => Some(vs[n])
  }

  /** The outcome of one call: the second argument must be a list (else nothing is
      written), every element a vertex, then the label a string; a failing vertex
      iterator means no candidates; otherwise the first aborting candidate's error,
      or `comp` set to the last qualifying candidate or null. */
  function Upsert<K(==)>(g: Graph, compositeType: Value, passedNodes: Value, key: Property -> K): (r: Result<Output>)
    ensures r == Ok(NoRecord) <==> !passedNodes.List?
    ensures r.Ok? && r.value.Comp? && r.value.comp.Some? ==>
      compositeType.String? && g.vertices.Some? && r.value.comp.value in g.vertices.value &&
      IsCandidate(r.value.comp.value, compositeType.s)
  {
    if !passedNodes.List? then Ok(NoRecord)
    else if !AllVertices(passedNodes.items) then Err(UnableToFindVertexById)
    else if !compositeType.String? then Err(UnableToMakeValueString)
    else if g.vertices.None? then Ok(Comp(None))
    else
      var vs := g.vertices.value;
      var compStr := compositeType.s;
      match ScanError(vs, compStr)
      case Some(e) => Err(e)
      case None =>
        var members := MemberKeys(passedNodes.items, key);
        LastMatchIsLastQualifying(vs, compStr, members, key);
        Ok(Comp(VertexAt(vs, LastMatch(vs, compStr, members, key))))
  }

  /** Appending an element adds exactly its key, if it has one. */
  lemma MemberKeysSnoc<K>(items: seq<Value>, x: Value, key: Property -> K)
    ensures MemberKeys(items + [x], key) ==
      MemberKeys(items, key) + (if MemberKey(x, key).Some? then {MemberKey(x, key).value} else {})
  {
  }

  /** Appending an edge adds exactly its source's key, if it has one. */
  lemma SourceKeysSnoc<K>(edges: seq<EdgeSource>, e: EdgeSource, key: Property -> K)
    ensures SourceKeys(edges + [e], key) ==
      SourceKeys(edges, key) + (if SourceKey(e, key).Some? then {SourceKey(e, key).value} else {})
  {
  }

  /** Once a prefix of the scan has aborted, the whole scan reports that same error. */
  lemma {:induction false} ScanErrorPrefix(vs: seq<Vertex>, n: nat, compStr: string)
    requires n <= |vs|
    requires ScanError(vs[..n], compStr).Some?
    ensures ScanError(vs, compStr) == ScanError(vs[..n], compStr)
    decreases |vs| - n
  {
    if n < |vs| {
      assert vs[..n + 1][..n] == vs[..n];
      ScanErrorPrefix(vs, n + 1, compStr);
    } else {
      assert vs[..n] == vs;
    }
  }
}
