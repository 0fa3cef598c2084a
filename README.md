# upsert_composite, modelled in Dafny

`upsert_composite` is a read procedure for a Memgraph-style property graph. The body
reads a composite label (argument 0) and a list of member vertices (argument 1). It looks for
the existing vertex carrying that label whose incoming-edge sources form exactly the
member set. It writes the single field `comp` of its result record: the match, or null.

The model follows the procedure body in `rust/rstrapwire-modules/src/lib.rs`:

1. Build the member set. Each list element must be a vertex; any other element aborts
   with `UnableToFindVertexById`. A member whose `property("name")` lookup fails is
   skipped.
2. Check that the label argument is a string; otherwise abort with
   `UnableToMakeValueString`.
3. Scan every vertex. Those whose `has_label` answers `Ok(true)` are candidates.
4. For each candidate, rebuild `in_set` from the sources of its incoming edges.
   - A failing `in_edges()` aborts with `UnableToReturnVertexInEdgesIterator`.
   - A failing `from_vertex()` aborts with `UnableToReturnVertexPropertiesIterator`.
5. Test the two sets for equality by mutual containment. The last candidate that
   passes is returned.

Modules:

- `GraphData` (`graph.dfy`) holds the graph as plain data. It records the outcome of
  every engine accessor the procedure calls, so every engine failure is an explicit
  `None` or `Unresolvable`. It also holds the argument values, the four errors and the
  output.
- `Composite` (`composite.dfy`) is the specification without loops.
  - The member set and each source set are set comprehensions.
  - `ScanError` is the error of the first candidate whose edges cannot be read.
  - `LastMatch` is the index of the last qualifying candidate.
  - `Upsert` puts the steps together, in the procedure's order of checks.
- `Procedure` (`procedure.dfy`) holds `UpsertComposite`, the procedure body as an
  imperative method.
  - It has the mutable `memberSet`, `inSet` and `matchedOrCreatedNode`, the three
    nested loops and the early error returns.
  - `inSet` is emptied after every scanned vertex, and a loop invariant says so.
  - It is proved to return exactly `Upsert`.
- `Properties` (`properties.dfy`) proves what a call promises: exact matching,
  last-match-wins, null rather than an error, set semantics, and the order of errors.
- `Findings` (`findings.dfy`) covers what the code inserts into its sets (see Findings
  below).

The inserted key is a parameter `key: Property -> K` of the specification and the
method. The procedure as written inserts `prop.name`, which is `PropertyName`.
`PropertyValue` is the corrected key. Every lemma in `Properties` holds for any key; the
lemmas about the as-written key alone are in `Findings`.

Where the behaviour documented for the procedure and the code disagree, the model
follows the code:

- The code checks the members before the label (`lib.rs:49-59`).
- If `vertices_iter()` fails, the code writes `comp = null` rather than raising an
  error (`lib.rs:60`, `95-100`).
- If the second argument is not a list, the code returns success and writes nothing
  (`lib.rs:44`, `106`).
- The errors carry the code's own names.
- Multiple matches are resolved by last-match-wins.
- The sets hold what the code inserts: the property's key, not the member's name.

## Model

| member | source | states |
|---|---|---|
| `Procedure.UpsertComposite` | rust/rstrapwire-modules/src/lib.rs:38-107 | The procedure body returns exactly `Upsert`: the member loop, the label check, the vertex scan with `in_set` cleared after each vertex, mutual containment, and early error returns; (loop invariant) `in_set` is empty whenever a vertex's scan begins |
| `Composite.Upsert` | rust/rstrapwire-modules/src/lib.rs:38-107 | The specification of one call: the result writes nothing exactly when the second argument is not a list, and a returned `comp` is one of the graph's vertices whose `has_label` answers `Ok(true)` for the string label; its scan is characterised by the rows below |
| `Composite.ScanErrorIsFirstAbort` | rust/rstrapwire-modules/src/lib.rs:62-78 | `ScanError` is None exactly when no labelled candidate has unreadable edges; otherwise it is the error of the first such candidate in scan order |
| `Composite.LastMatchIsLastQualifying` | rust/rstrapwire-modules/src/lib.rs:61-88 | `LastMatch` is None exactly when no candidate qualifies; otherwise it is the index of a qualifying candidate after which none qualifies |
| `Composite.MemberKeysSnoc` | rust/rstrapwire-modules/src/lib.rs:49-53 | Processing one more member adds its key exactly when it is a vertex with a readable name, and nothing else |
| `Composite.SourceKeysSnoc` | rust/rstrapwire-modules/src/lib.rs:66-71 | Processing one more incoming edge adds its source's key exactly when the source has a readable name |
| `Composite.ScanErrorPrefix` | rust/rstrapwire-modules/src/lib.rs:73-77 | An abort on a prefix of the scan is the outcome of the whole scan: later vertices are never reached |
| `Composite.MutualContainmentIsEquality` | rust/rstrapwire-modules/src/lib.rs:85 | "subset and superset" holds exactly when the sets are equal; a strict subset or strict superset fails it |
| `Properties.CompIsExactMatch` | rust/rstrapwire-modules/src/lib.rs:62-87 | A returned vertex belongs to the graph, answers `has_label` with `Ok(true)`, has readable edges, and its source key set equals the member key set |
| `Properties.NearMissIsNotReturned` | rust/rstrapwire-modules/src/lib.rs:85-87 | A vertex whose source key set is a strict superset or strict subset of the member key set is never returned |
| `Properties.EmptyMembersMatchKeylessCandidate` | rust/rstrapwire-modules/src/lib.rs:85-87 | An empty member list matches a labelled vertex whose sources contribute no keys |
| `Properties.LastQualifyingWins` | rust/rstrapwire-modules/src/lib.rs:85-88 | If no candidate aborts, the result is the qualifying vertex with no qualifying vertex after it, whatever qualified earlier |
| `Properties.NoQualifyingCandidateGivesNull` | rust/rstrapwire-modules/src/lib.rs:95-100 | With no abort and no qualifying candidate, the output is `comp = null`, not an error |
| `Properties.NoLabelledVertexGivesNull` | rust/rstrapwire-modules/src/lib.rs:60-99 | When no vertex answers `Ok(true)` for the label, the output is `comp = null` |
| `Properties.UnreadableGraphGivesNull` | rust/rstrapwire-modules/src/lib.rs:60-99 | When `vertices_iter()` fails, the output is `comp = null`, not an error |
| `Properties.MemberKeysSameElements` | rust/rstrapwire-modules/src/lib.rs:46-53 | Member lists with the same elements, in any order or repetition, give the same member key set |
| `Properties.MemberOrderAndDuplicatesIrrelevant` | rust/rstrapwire-modules/src/lib.rs:46-57 | Reordering or duplicating members never changes the outcome of the call, errors included |
| `Properties.MemberWithoutNameDropped` | rust/rstrapwire-modules/src/lib.rs:51-53 | Appending a member vertex whose name lookup fails leaves the outcome unchanged |
| `Properties.SourceKeysSameElements` | rust/rstrapwire-modules/src/lib.rs:66-71 | Edge lists with the same sources, in any order or repetition, give the same source key set |
| `Properties.EdgeOrderIrrelevant` | rust/rstrapwire-modules/src/lib.rs:64-75 | Reordering or repeating a candidate's incoming edges changes neither its source set nor its error |
| `Properties.SourceWithoutNameDropped` | rust/rstrapwire-modules/src/lib.rs:69-71 | An extra edge whose source's name lookup fails changes neither the candidate's source set nor its error |
| `Properties.NonVertexMemberAbortsFirst` | rust/rstrapwire-modules/src/lib.rs:49-56 | A non-vertex anywhere in the member list gives `UnableToFindVertexById`, whatever the label argument and the graph |
| `Properties.NonStringLabelAborts` | rust/rstrapwire-modules/src/lib.rs:59-103 | When every member is a vertex and the label is not a string, the result is `UnableToMakeValueString` whatever the graph |
| `Properties.NonListWritesNothing` | rust/rstrapwire-modules/src/lib.rs:44-106 | When the second argument is not a list, the call succeeds without writing `comp`, whatever the label argument |
| `Properties.FirstEdgeFailureAborts` | rust/rstrapwire-modules/src/lib.rs:64-78 | The first labelled candidate with unreadable edges decides the error, discarding earlier matches: a failing `in_edges()` gives `UnableToReturnVertexInEdgesIterator`, and an unresolvable source gives `UnableToReturnVertexPropertiesIterator` |
| `Properties.LabelCheckErrorSkipsVertex` | rust/rstrapwire-modules/src/lib.rs:62-63 | A vertex whose `has_label` fails affects the outcome no more than if it were absent from the graph |
| `Properties.ScanErrorSkip` | rust/rstrapwire-modules/src/lib.rs:62-63 | Removing a non-candidate from the scan leaves the first abort unchanged |
| `Properties.LastMatchSkip` | rust/rstrapwire-modules/src/lib.rs:62-63 | Removing a non-candidate from the scan leaves the returned vertex unchanged |
| `Findings.NameKeysOnly` | rust/rstrapwire-modules/src/lib.rs:51-53 | The code inserts `prop.name`, the key the lookup was asked for, so both sets are only ever `{}` or `{"name"}` |
| `Findings.NameKeyedMatchIgnoresNames` | rust/rstrapwire-modules/src/lib.rs:45-85 | As written, a labelled candidate with readable edges qualifies exactly when "some member has a readable name" agrees with "some source has a readable name" |
| `Findings.NameKeyConflatesDistinctMembers` | rust/rstrapwire-modules/src/lib.rs:45-87 | As written, asking for the composite of Alice and Bob returns the composite of Carol; keyed by value, the same call returns null |
| `Findings.ValueKeyedMatchComparesNames` | rust/rstrapwire-modules/src/lib.rs:45-85 | Keyed by the property's value, a labelled candidate with readable edges qualifies exactly when its sources' names are the members' names |
| `Findings.ValueKeyedCompHasMembersNames` | rust/rstrapwire-modules/src/lib.rs:85-87 | Keyed by the property's value, a returned composite's sources carry exactly the members' names |

## Left out

- The host calls that end the procedure with `?`: `result_record()`, `args()` and `value_at()` (`lib.rs:39-42`), `nodes.iter()` (`:48`), and `insert_vertex`/`insert_null` (`:97`, `:99`). They are host and FFI failures. Arguments arrive as decoded `Value`s, and writing the record is taken to succeed.
- The result record is obtained at `lib.rs:39`, before any check. The model records only whether the `comp` field is written (`NoRecord` or `Comp`), not the empty record an error leaves behind.
- Module registration and teardown (`lib.rs:19-34`, `:109`). The registration at `lib.rs:23-30` passes an empty slice, then `strict` as an optional argument, then two typed entries (`compositeName`, `nodes`), and declares no `comp` field. Whether the host treats those two entries as arguments or as result fields, and so whether `value_at(0)`/`value_at(1)` and the write of `comp` succeed as registered, depends on the rsmgp_sys API, which is not part of this model. The model takes the body as reading positional arguments 0 and 1 and writing `comp`.
- The `strict` parameter (`lib.rs:25`) is declared but never read.
- The engine's own error values for a failing `has_label` or `property` call are not modelled. The procedure swallows both, so the model represents each as `None`.
- A vertex's `has_label` either answers for every label or fails for every label (`labels: Option<set<string>>`). Failures that depend on the label are not represented.
- The lazy iterators are represented as sequences in iteration order. Single-pass consumption and resource release are not modelled. Panics and C-string conversion are left out.

## Findings

| source | as written | input that shows it | evidently intended | confidence | as-written member | corrected member |
|---|---|---|---|---|---|---|
| rust/rstrapwire-modules/src/lib.rs:52 | `set.insert(prop.name)` and `in_set.insert(prop.name)` (`:70`) insert the key of the looked-up property, which is always `"name"`, so both sets are `{}` or `{"name"}` | Members Alice and Bob (names "alice", "bob") and a "Team" vertex whose only incoming edge comes from Carol (name "carol"): the call returns that team | insert the property's value (`prop.value`), so the sets hold the members' names, as the comment at `:45` says | high (not executed) | `Findings.NameKeyConflatesDistinctMembers` | `Findings.ValueKeyedMatchComparesNames` |
