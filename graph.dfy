/** The graph the procedure reads, as plain data.

    Every accessor of the host engine that can fail is represented by the
    outcome it hands back, so a vertex records what `has_label`,
    `property("name")`, `in_edges()` and, per edge, `from_vertex()` would
    answer for it during one call.
 */
module GraphData {

  datatype Option<+T> = None | Some(value: T)

  /** The four errors the procedure can return. */
  datatype Error =
    | UnableToFindVertexById                  // a member-list element is not a vertex
    | UnableToMakeValueString                 // the label argument is not a string
    | UnableToReturnVertexInEdgesIterator     // in_edges() failed on a candidate
    | UnableToReturnVertexPropertiesIterator  // from_vertex() failed on an incoming edge

  datatype Result<+T> = Ok(value: T) | Err(error: Error)

  /** A value stored under a vertex property. */
  datatype PropValue = Null | Bool(b: bool) | Int(i: int) | Str(s: string) | Other

  /** What a property lookup hands back: the key it was asked for and the value stored under it. */
  datatype Property = Property(name: string, value: PropValue)

  /** A vertex handle, with the answers the engine gives about it.
      `labels` is None when `has_label` fails for this vertex, `nameLookup` is None
      when `property("name")` fails, and `inEdges` is None when `in_edges()` fails;
      otherwise it lists, in iteration order, what `from_vertex()` gives for each edge. */
  datatype Vertex = Vertex(
    id: nat,
    labels: Option<set<string>>,
    nameLookup: Option<PropValue>,
    inEdges: Option<seq<EdgeSource>>)

  /** The outcome of `from_vertex()` on one incoming edge. */
  datatype EdgeSource = Unresolvable | Source(from: Vertex)

  /** The outcome of `vertices_iter()`: None when the iterator cannot be opened. */
  datatype Graph = Graph(vertices: Option<seq<Vertex>>)

  /** Procedure arguments as the engine passes them. */
  datatype Value = List(items: seq<Value>) | String(s: string) | VertexValue(v: Vertex) | OtherValue

  /** What the procedure leaves in its result record: nothing, or the field `comp`
      holding a vertex or null. */
  datatype Output = NoRecord | Comp(comp: Option<Vertex>)

  /** The identity property the procedure looks up. */
  const NameKey: string := "name"

  /** `vertex.has_label(compStr)`: None when the engine reports an error. */
  function HasLabel(v: Vertex, compStr: string): Option<bool>
  {
    match v.labels
    case None => None
    case Some(ls) => Some(compStr in ls)
  }

  /** `vertex.property("name")`: the returned record carries the key that was asked for. */
  function NameProperty(v: Vertex): Option<Property>
  {
    match v.nameLookup
    case None => None
    case Some(val) => Some(Property(NameKey, val))
  }

  /** The key the procedure inserts into its sets for a property: its `name` field. */
  function PropertyName(p: Property): string
  {
    p.name
  }

  /** The identity the procedure evidently means to compare: the property's value. */
  function PropertyValue(p: Property): PropValue
  {
    p.value
  }
}
