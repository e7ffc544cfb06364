/**
 * The value records of the graph (src/data/Project.js:28-55): declarations of node
 * types and edge labels, nodes, edges, and the failures the graph's operations raise.
 * Every record is immutable once built; only store membership changes.
 */
module Records {

  datatype Option<T> = None | Some(value: T)

  /** The opaque payload of a node (`content`) or of an edge (`data`). The graph never
      inspects it, so a string stands for any value. */
  type Payload = string

  /** `GraphNodeSpec`: declares that nodes of `nodeType` may exist. */
  datatype NodeSpec = NodeSpec(nodeType: string)

  /** `GraphEdgeSpec`. `fromType`, `toType`, `bidirectional` and `unique` are carried as
      data only: no operation of the graph reads them. */
  datatype EdgeSpec = EdgeSpec(
    edgeLabel: string,
    fromType: string,
    toType: string,
    bidirectional: bool,
    inverseLabel: string,
    unique: bool)
  {
    /** `if (spec.inverseLabel)`: an empty (falsy) inverse label means there is none. */
    predicate HasInverse() { inverseLabel != "" }
  }

  /** `GraphNode`. */
  datatype Node = Node(nodeType: string, key: string, content: Payload)

  /** `GraphEdge`. `order` places the edge among the edges sharing its label and source. */
  datatype Edge = Edge(edgeLabel: string, fromKey: string, toKey: string, data: Payload, order: int)

  /** One variant per `invariant(...)` site of the source, plus the two runtime errors
      that the source as written raises (see the as-written members of `Graph`). */
  datatype GraphError =
    | DuplicateKey(key: string)                                             // addNode
    | NodeNotFound(key: string)                                             // removeNode
    | UnknownLabel(edgeLabel: string)                                       // addEdge, removeEdge
    | DuplicateEdge(edgeLabel: string, fromKey: string, toKey: string)      // addEdge
    | ConflictingInverse(edgeLabel: string, fromKey: string, toKey: string) // addEdge
    | MissingLabel(edgeLabel: string, fromKey: string, toKey: string)       // _deleteEdge, no label map
    | MissingFromKey(edgeLabel: string, fromKey: string, toKey: string)     // _deleteEdge, no bucket
    | MissingToKey(edgeLabel: string, fromKey: string, toKey: string)       // _deleteEdge, no edge
    | UndefinedToey                                                         // ReferenceError: toey
    | UndefinedGetEdge                                                      // TypeError: getEdge

  /** The outcome of an operation that returns a value, or of one that returns nothing. */
  datatype Result<T> = Ok(value: T) | Err(error: GraphError)
  datatype Outcome = Pass | Fail(error: GraphError)
}
