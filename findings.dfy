/** The procedure inserts `prop.name` for every successful `property("name")`
    lookup. A lookup's `name` is the key it was asked for, so the procedure
    compares sets that can only be {} or {"name"}, never the members' names.
    This module shows the consequence on a concrete graph, characterises the
    as-written match, and proves that inserting the property's value instead
    compares the names themselves.
 */
module Findings {
  import opened GraphData
  import opened Composite

  /** The name values of the listed vertices whose name lookup succeeds. */
  function MemberNames(items: seq<Value>): set<PropValue>
  {
    set x | x in items && x.VertexValue? && x.v.nameLookup.Some? :: x.v.nameLookup.value
  }

  /** The name values of the resolved sources whose name lookup succeeds. */
  function SourceNames(edges: seq<EdgeSource>): set<PropValue>
  {
    set e | e in edges && e.Source? && e.from.nameLookup.Some? :: e.from.nameLookup.value
  }

  // ---- As written: keys are the property's key ----

  /** As written, a labelled candidate with readable edges qualifies exactly when
      "some member has a readable name" and "some source has a readable name" agree;
      which names they are plays no part. */
  lemma NameKeyedMatchIgnoresNames(v: Vertex, compStr: string, items: seq<Value>)
    requires EdgeFailure(v).None?
    ensures Qualifies(v, compStr, MemberKeys(items, PropertyName), PropertyName) <==>
      IsCandidate(v, compStr) && (MemberNames(items) == {} <==> SourceNames(v.inEdges.value) == {})
  {
    var edges := v.inEdges.value;
    assert MemberKeys(items, PropertyName) == if MemberNames(items) == {} then {} else {NameKey} by {
      if MemberNames(items) != {} {
        var n :| n in MemberNames(items);
        var x :| x in items && x.VertexValue? && x.v.nameLookup.Some? && x.v.nameLookup.value == n;
        assert MemberKey(x, PropertyName) == Some(NameKey);
      }
      forall x | x in items && MemberKey(x, PropertyName).Some? ensures x.v.nameLookup.value in MemberNames(items) {
      }
    }
    assert SourceKeys(edges, PropertyName) == if SourceNames(edges) == {} then {} else {NameKey} by {
      if SourceNames(edges) != {} {
        var n :| n in SourceNames(edges);
        var e :| e in edges && e.Source? && e.from.nameLookup.Some? && e.from.nameLookup.value == n;
        assert SourceKey(e, PropertyName) == Some(NameKey);
      }
      forall e | e in edges && SourceKey(e, PropertyName).Some? ensures e.from.nameLookup.value in SourceNames(edges) {
      }
    }
  }

  /** As written, the key inserted for every successful lookup is the key that was
      asked for, so both of the procedure's sets are always empty or exactly {"name"}. */
  lemma NameKeysOnly(items: seq<Value>, v: Vertex)
    ensures MemberKeys(items, PropertyName) <= {NameKey}
    ensures InKeys(v, PropertyName).Ok? ==> InKeys(v, PropertyName).value <= {NameKey}
  {
  }

  const Alice: Vertex := Vertex(1, Some({"Person"}), Some(Str("alice")), Some([]))
  const Bob: Vertex := Vertex(2, Some({"Person"}), Some(Str("bob")), Some([]))
  const Carol: Vertex := Vertex(3, Some({"Person"}), Some(Str("carol")), Some([]))
  /** A composite whose only member is Carol. */
  const CarolTeam: Vertex := Vertex(4, Some({"Team"}), None, Some([Source(Carol)]))
  const People: Graph := Graph(Some([Alice, Bob, Carol, CarolTeam]))

  /** As written, asking for the "Team" composite of Alice and Bob returns the team
      whose only member is Carol; inserting the property's value returns null. */
  lemma NameKeyConflatesDistinctMembers()
    ensures Upsert(People, String("Team"), List([VertexValue(Alice), VertexValue(Bob)]), PropertyName)
      == Ok(Comp(Some(CarolTeam)))
    ensures Upsert(People, String("Team"), List([VertexValue(Alice), VertexValue(Bob)]), PropertyValue)
      == Ok(Comp(None))
  {
    var items := [VertexValue(Alice), VertexValue(Bob)];
    var vs := People.vertices.value;
    assert "Team" !in {"Person"};
    assert forall i :: 0 <= i < |vs| ==> !Aborts(vs[i], "Team");
    ScanErrorIsFirstAbort(vs, "Team");
    assert MemberKey(items[0], PropertyName) == Some(NameKey);
    assert MemberKeys(items, PropertyName) == {NameKey};
    assert SourceKey(Source(Carol), PropertyName) == Some(NameKey);
    assert SourceKeys([Source(Carol)], PropertyName) == {NameKey};
    assert Qualifies(CarolTeam, "Team", MemberKeys(items, PropertyName), PropertyName);
    assert LastMatch(vs, "Team", MemberKeys(items, PropertyName), PropertyName) == Some(3);

    assert MemberKey(items[0], PropertyValue) == Some(Str("alice"));
    assert Str("alice") in MemberKeys(items, PropertyValue);
    assert SourceKeys([Source(Carol)], PropertyValue) == {Str("carol")};
    assert !Qualifies(CarolTeam, "Team", MemberKeys(items, PropertyValue), PropertyValue);
    LastMatchIsLastQualifying(vs, "Team", MemberKeys(items, PropertyValue), PropertyValue);
    assert LastMatch(vs, "Team", MemberKeys(items, PropertyValue), PropertyValue) == None;
  }

  // ---- Corrected: keys are the property's value ----

  /** Inserting the property's value, a labelled candidate with readable edges
      qualifies exactly when its sources' names are the members' names. */
  lemma ValueKeyedMatchComparesNames(v: Vertex, compStr: string, items: seq<Value>)
    requires EdgeFailure(v).None?
    ensures Qualifies(v, compStr, MemberKeys(items, PropertyValue), PropertyValue) <==>
      IsCandidate(v, compStr) && SourceNames(v.inEdges.value) == MemberNames(items)
  {
    var edges := v.inEdges.value;
    assert MemberKeys(items, PropertyValue) == MemberNames(items) by {
      forall n | n in MemberNames(items) ensures n in MemberKeys(items, PropertyValue) {
        var x :| x in items && x.VertexValue? && x.v.nameLookup.Some? && x.v.nameLookup.value == n;
        assert MemberKey(x, PropertyValue) == Some(n);
      }
    }
    assert SourceKeys(edges, PropertyValue) == SourceNames(edges) by {
      forall n | n in SourceNames(edges) ensures n in SourceKeys(edges, PropertyValue) {
        var e :| e in edges && e.Source? && e.from.nameLookup.Some? && e.from.nameLookup.value == n;
        assert SourceKey(e, PropertyValue) == Some(n);
      }
    }
  }

  /** Inserting the property's value, a returned composite's sources carry exactly
      the members' names. */
  lemma ValueKeyedCompHasMembersNames(g: Graph, compStr: string, items: seq<Value>, v: Vertex)
    requires Upsert(g, String(compStr), List(items), PropertyValue) == Ok(Comp(Some(v)))
    ensures v.inEdges.Some? && SourceNames(v.inEdges.value) == MemberNames(items)
  {
    var vs := g.vertices.value;
    var i := LastMatch(vs, compStr, MemberKeys(items, PropertyValue), PropertyValue);
    LastMatchIsLastQualifying(vs, compStr, MemberKeys(items, PropertyValue), PropertyValue);
    assert vs[i.value] == v;
    ValueKeyedMatchComparesNames(v, compStr, items);
  }
}
