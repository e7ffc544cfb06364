/**
 * The graph object (src/data/Project.js:57-169): registries of node and edge
 * specifications, fixed at construction, and the node and edge stores that the mutators
 * update in place. Every `invariant(...)` failure of the source is a `Fail` (or `Err`)
 * outcome here; the state at the moment of failure is the state the source leaves behind.
 */
module GraphModel {
  import opened Records
  import opened Registry
  import opened Buckets
  import opened EdgeStore
  import opened Cascade
  import opened Pairing

  class Graph {
    const nodeSpecs: map<string, NodeSpec>
    const edgeSpecs: map<string, EdgeSpec>
    /** key -> node */
    var nodes: map<string, Node>
    /** label -> fromKey -> bucket of edges ordered by `order` */
    var edges: Store

    ghost predicate Valid()
      reads this
    {
      WellFormed(edges)
    }

    /** `new Graph(nodeSpecs, edgeSpecs, nodes, edges)`: the specification lists are folded
        into registries, and absent stores (`None`) start empty. */
    constructor(nodeSpecList: seq<NodeSpec>, edgeSpecList: seq<EdgeSpec>,
                initialNodes: Option<map<string, Node>>, initialEdges: Option<Store>)
      requires initialEdges.Some? ==> WellFormed(initialEdges.value)
      ensures Valid()
      ensures PulledFrom(nodeSpecs, nodeSpecList, NodeSpecKey)
      ensures PulledFrom(edgeSpecs, edgeSpecList, EdgeSpecKey)
      ensures nodes == if initialNodes.Some? then initialNodes.value else map[]
      ensures edges == if initialEdges.Some? then initialEdges.value else map[]
    {
      var ns := Pull(nodeSpecList, NodeSpecKey);
      var es := Pull(edgeSpecList, EdgeSpecKey);
      nodeSpecs := ns;
      edgeSpecs := es;
      nodes := if initialNodes.Some? then initialNodes.value else map[];
      edges := if initialEdges.Some? then initialEdges.value else map[];
    }

    /** `getEdge(label, fromKey, toKey)`: the edge filed under the triple, which carries that
        very label, source and target; absent exactly when no edge of the bucket points to
        `toKey`. */
    function GetEdge(edgeLabel: string, fromKey: string, toKey: string): (r: Option<Edge>)
      requires Valid()
      reads this
      ensures r.Some? ==> r.value.edgeLabel == edgeLabel && r.value.fromKey == fromKey && r.value.toKey == toKey
      ensures r.Some? ==> r.value in BucketOf(edges, edgeLabel, fromKey)
      ensures r.None? <==> forall x :: x in BucketOf(edges, edgeLabel, fromKey) ==> x.toKey != toKey
    {
      var r := Lookup(edges, edgeLabel, fromKey, toKey);
      if r.Some? then
        LookupIsMember(edges, edgeLabel, fromKey, toKey, r.value);
        r
      else r
    }

    /** `addNode(type, key, content)`: a key already taken is refused; otherwise the new
        node is filed under its key and returned, and nothing else changes. */
    method AddNode(nodeType: string, key: string, content: Payload) returns (r: Result<Node>)
      requires Valid()
      modifies this
      ensures Valid()
      ensures edges == old(edges)
      ensures key in old(nodes) ==> r == Err(DuplicateKey(key)) && nodes == old(nodes)
      ensures key !in old(nodes) ==>
        && r == Ok(Node(nodeType, key, content))
        && nodes == old(nodes)[key := r.value]
        && |nodes| == |old(nodes)| + 1
        && r.value.key == key
    {
      if key in nodes {
        return Err(DuplicateKey(key));
      }
      var node := Node(nodeType, key, content);
      nodes := nodes[key := node];
      r := Ok(node);
    }

    /** `_insertEdge(edge)`: the containers for the edge's label and source are created
        when missing, and the bucket is rebuilt with the edge in front of the first edge
        of strictly greater order. */
    method InsertEdge(e: Edge)
      requires Valid() && Insertable(edges, e)
      modifies this
      ensures Valid()
      ensures nodes == old(nodes)
      ensures edges == Insert(old(edges), e)
    {
      var byFrom := if e.edgeLabel in edges then edges[e.edgeLabel] else map[];
      var bucket := if e.fromKey in byFrom then byFrom[e.fromKey] else [];
      assert bucket == BucketOf(edges, e.edgeLabel, e.fromKey);
      assert BucketOk(bucket, e.edgeLabel, e.fromKey);
      var rebuilt := InsertOrdered(bucket, e);
      InsertWellFormed(edges, e);
      if Find(bucket, e.toKey).Some? {
        assert byFrom[e.fromKey := rebuilt] == byFrom;
      }
      edges := edges[e.edgeLabel := byFrom[e.fromKey := rebuilt]];
    }

    /** `_deleteEdge(label, fromKey, toKey)`: fails at the first missing level of the
        lookup and changes nothing then; otherwise removes the edge from its bucket. */
    method DeleteEdge(edgeLabel: string, fromKey: string, toKey: string) returns (r: Outcome)
      requires Valid()
      modifies this
      ensures Valid()
      ensures nodes == old(nodes)
      ensures Retains(old(edges), edges)
      ensures Lookup(old(edges), edgeLabel, fromKey, toKey).None? ==>
        r == Fail(Missing(old(edges), edgeLabel, fromKey, toKey)) && edges == old(edges)
      ensures Lookup(old(edges), edgeLabel, fromKey, toKey).Some? ==>
        r == Pass && edges == Delete(old(edges), edgeLabel, fromKey, toKey)
    {
      if edgeLabel !in edges {
        RetainsRefl(edges);
        return Fail(MissingLabel(edgeLabel, fromKey, toKey));
      }
      var byFrom := edges[edgeLabel];
      if fromKey !in byFrom {
        RetainsRefl(edges);
        return Fail(MissingFromKey(edgeLabel, fromKey, toKey));
      }
      var bucket := byFrom[fromKey];
      if Find(bucket, toKey).None? {
        RetainsRefl(edges);
        return Fail(MissingToKey(edgeLabel, fromKey, toKey));
      }
      DeleteWellFormed(edges, edgeLabel, fromKey, toKey);
      edges := edges[edgeLabel := byFrom[fromKey := Removed(bucket, toKey)]];
      r := Pass;
    }

    /** `addEdge(label, fromKey, toKey, data, order)`: refused for a label without a
        specification, for a triple already taken, and for a mirror triple already taken;
        otherwise the edge and, when the label has an inverse, its mirror are inserted. */
    method AddEdge(edgeLabel: string, fromKey: string, toKey: string, data: Payload, order: int)
      returns (r: Outcome)
      requires Valid()
      modifies this
      ensures Valid()
      ensures nodes == old(nodes)
      ensures edgeLabel !in edgeSpecs ==> r == Fail(UnknownLabel(edgeLabel))
      ensures edgeLabel in edgeSpecs && Lookup(old(edges), edgeLabel, fromKey, toKey).Some? ==>
        r == Fail(DuplicateEdge(edgeLabel, fromKey, toKey))
      ensures
        (&& edgeLabel in edgeSpecs && Lookup(old(edges), edgeLabel, fromKey, toKey).None?
         && edgeSpecs[edgeLabel].HasInverse()
         && Lookup(old(edges), edgeSpecs[edgeLabel].inverseLabel, toKey, fromKey).Some?)
        ==> r == Fail(ConflictingInverse(edgeSpecs[edgeLabel].inverseLabel, toKey, fromKey))
      ensures r.Pass? <==>
        && edgeLabel in edgeSpecs
        && Lookup(old(edges), edgeLabel, fromKey, toKey).None?
        && (edgeSpecs[edgeLabel].HasInverse() ==>
              Lookup(old(edges), edgeSpecs[edgeLabel].inverseLabel, toKey, fromKey).None?)
      ensures r.Fail? ==> edges == old(edges)
      ensures r.Pass? ==>
        edges == Linked(old(edges), edgeSpecs[edgeLabel], Edge(edgeLabel, fromKey, toKey, data, order))
      ensures Symmetric(edgeSpecs) && InStep(old(edges), edgeSpecs) ==> InStep(edges, edgeSpecs)
    {
      if edgeLabel !in edgeSpecs {
        return Fail(UnknownLabel(edgeLabel));
      }
      var spec := edgeSpecs[edgeLabel];
      if GetEdge(edgeLabel, fromKey, toKey).Some? {
        return Fail(DuplicateEdge(edgeLabel, fromKey, toKey));
      }
      if spec.HasInverse() && GetEdge(spec.inverseLabel, toKey, fromKey).Some? {
        return Fail(ConflictingInverse(spec.inverseLabel, toKey, fromKey));
      }
      var e := Edge(edgeLabel, fromKey, toKey, data, order);
      InsertEdge(e);
      if spec.HasInverse() {
        var m := Mirror(e, spec.inverseLabel);
        LookupInsert(old(edges), e, m.edgeLabel, m.fromKey, m.toKey);
        InsertEdge(m);
      }
      r := Pass;
      if Symmetric(edgeSpecs) && InStep(old(edges), edgeSpecs) {
        LinkedInStep(old(edges), edgeSpecs, e);
      }
    }

    /** `removeEdge(label, fromKey, toKey)`, with the mirror looked up under the reversed
        triple: refused for a label without a specification; a missing edge fails before
        anything changes; then the mirror is deleted, and a missing mirror fails after the
        edge itself is already gone. */
    method RemoveEdge(edgeLabel: string, fromKey: string, toKey: string) returns (r: Outcome)
      requires Valid()
      modifies this
      ensures Valid()
      ensures nodes == old(nodes)
      ensures Retains(old(edges), edges)
      ensures Removal(edgeSpecs, old(edges), edgeLabel, fromKey, toKey, r, edges)
      ensures Symmetric(edgeSpecs) && InStep(old(edges), edgeSpecs) ==> InStep(edges, edgeSpecs)
    {
      if edgeLabel !in edgeSpecs {
        RetainsRefl(edges);
        return Fail(UnknownLabel(edgeLabel));
      }
      var spec := edgeSpecs[edgeLabel];
      r := DeleteEdge(edgeLabel, fromKey, toKey);
      if r.Fail? {
        return;
      }
      if spec.HasInverse() {
        ghost var mid := edges;
        DeleteKeepsContainers(old(edges), edgeLabel, fromKey, toKey);
        r := DeleteEdge(spec.inverseLabel, toKey, fromKey);
        RetainsTrans(old(edges), mid, edges);
      }
      if Symmetric(edgeSpecs) && InStep(old(edges), edgeSpecs) {
        RemovalInStep(edgeSpecs, old(edges), edgeLabel, fromKey, toKey, r, edges);
      }
    }

    /** `addEdge` as the source has it: the graph defines no `getEdge`, so the duplicate
        check throws for every label that has a specification, before anything changes. */
    method AddEdgeAsWritten(edgeLabel: string, fromKey: string, toKey: string, data: Payload, order: int)
      returns (r: Outcome)
      ensures edgeLabel !in edgeSpecs ==> r == Fail(UnknownLabel(edgeLabel))
      ensures edgeLabel in edgeSpecs ==> r == Fail(UndefinedGetEdge)
      ensures r.Fail?
    {
      if edgeLabel !in edgeSpecs {
        return Fail(UnknownLabel(edgeLabel));
      }
      r := Fail(UndefinedGetEdge);
    }

    /** `removeEdge` as the source has it: the mirror deletion names the undeclared `toey`,
        so for a label with an inverse it throws after the edge itself is deleted, and the
        mirror stays. */
    method RemoveEdgeAsWritten(edgeLabel: string, fromKey: string, toKey: string) returns (r: Outcome)
      requires Valid()
      modifies this
      ensures Valid()
      ensures nodes == old(nodes)
      ensures edgeLabel !in edgeSpecs ==> r == Fail(UnknownLabel(edgeLabel)) && edges == old(edges)
      ensures edgeLabel in edgeSpecs && Lookup(old(edges), edgeLabel, fromKey, toKey).None? ==>
        r == Fail(Missing(old(edges), edgeLabel, fromKey, toKey)) && edges == old(edges)
      ensures edgeLabel in edgeSpecs && Lookup(old(edges), edgeLabel, fromKey, toKey).Some? ==>
        && edges == Delete(old(edges), edgeLabel, fromKey, toKey)
        && r == if edgeSpecs[edgeLabel].HasInverse() then Fail(UndefinedToey) else Pass
    {
      if edgeLabel !in edgeSpecs {
        return Fail(UnknownLabel(edgeLabel));
      }
      var spec := edgeSpecs[edgeLabel];
      r := DeleteEdge(edgeLabel, fromKey, toKey);
      if r.Fail? {
        return;
      }
      if spec.HasInverse() {
        r := Fail(UndefinedToey);
      }
    }

    /** `removeNode(key)`: a missing key is refused; otherwise the node is removed first,
        then for each specified label every edge leaving the node is removed with
        `removeEdge` and the emptied container dropped. A failing `removeEdge` stops the
        cascade where it stands. */
    method RemoveNode(key: string) returns (r: Outcome)
      requires Valid()
      modifies this
      ensures Valid()
      ensures key !in old(nodes) ==> r == Fail(NodeNotFound(key)) && nodes == old(nodes) && edges == old(edges)
      ensures key in old(nodes) ==> nodes == old(nodes) - {key} && Retains(old(edges), edges)
      ensures key in old(nodes) ==> Spared(old(edges), edges, edgeSpecs, key)
      ensures key in old(nodes) && r.Fail? ==>
        (r.error.MissingLabel? || r.error.MissingFromKey? || r.error.MissingToKey?) && r.error.toKey == key
      ensures r.Pass? ==> Cascaded(old(edges), edges, edgeSpecs, key, edgeSpecs.Keys)
      ensures key in old(nodes) && MirrorsIntact(old(edges), edgeSpecs, key) ==> r.Pass?
      ensures Symmetric(edgeSpecs) && InStep(old(edges), edgeSpecs) ==> InStep(edges, edgeSpecs)
    {
      if key !in nodes {
        return Fail(NodeNotFound(key));
      }
      nodes := nodes - {key};
      ghost var E0 := edges;
      CascadeStart(E0, edgeSpecs, key);
      ghost var paired := Symmetric(edgeSpecs) && InStep(edges, edgeSpecs);
      var todo := edgeSpecs.Keys;
      while todo != {}
        invariant Valid()
        invariant todo <= edgeSpecs.Keys
        invariant nodes == old(nodes) - {key}
        invariant OnCourse(E0, edges, edgeSpecs, key, edgeSpecs.Keys - todo)
        invariant paired ==> InStep(edges, edgeSpecs)
        decreases todo
      {
        var current :| current in todo;
        ghost var done := edgeSpecs.Keys - todo;
        if current in edges && key in edges[current] {
          r := ClearOutgoing(key, current, E0, done);
          if r.Fail? {
            return;
          }
        } else {
          CascadeSkip(E0, edges, edgeSpecs, key, done, current);
        }
        todo := todo - {current};
        assert edgeSpecs.Keys - todo == done + {current};
      }
      assert edgeSpecs.Keys - todo == edgeSpecs.Keys;
      r := Pass;
    }

    /** The body of `removeNode`'s label loop for a label that has a container for `key`:
        the container is emptied with `removeEdge`, then deleted. */
    method ClearOutgoing(key: string, current: string, ghost E0: Store, ghost done: set<string>)
      returns (r: Outcome)
      requires Valid() && WellFormed(E0)
      requires current in edgeSpecs && current !in done
      requires current in edges && key in edges[current]
      requires OnCourse(E0, edges, edgeSpecs, key, done)
      modifies this
      ensures Valid()
      ensures nodes == old(nodes)
      ensures Retains(E0, edges) && Spared(E0, edges, edgeSpecs, key)
      ensures r.Fail? ==>
        (r.error.MissingLabel? || r.error.MissingFromKey? || r.error.MissingToKey?) && r.error.toKey == key
      ensures r.Pass? ==> OnCourse(E0, edges, edgeSpecs, key, done + {current})
      ensures MirrorsIntact(E0, edgeSpecs, key) ==> r.Pass?
      ensures Symmetric(edgeSpecs) && InStep(old(edges), edgeSpecs) ==> InStep(edges, edgeSpecs)
    {
      r := EmptyContainer(key, current, E0, done);
      if r.Fail? {
        return;
      }
      CascadeDrop(E0, edges, edgeSpecs, key, done, current);
      if Symmetric(edgeSpecs) && InStep(edges, edgeSpecs) {
        DropInStep(edgeSpecs, edges, current, key);
      }
      edges := Drop(edges, current, key);
    }

    /** The inner loop of `removeNode`: each edge of the container of `key` under `current`,
        first to last, is removed with `removeEdge`, until the container is empty or a
        removal fails. */
    method EmptyContainer(key: string, current: string, ghost E0: Store, ghost done: set<string>)
      returns (r: Outcome)
      requires Valid() && WellFormed(E0)
      requires current in edgeSpecs && current !in done
      requires current in edges && key in edges[current]
      requires OnCourse(E0, edges, edgeSpecs, key, done)
      modifies this
      ensures Valid()
      ensures nodes == old(nodes)
      ensures Retains(E0, edges) && Spared(E0, edges, edgeSpecs, key)
      ensures r.Fail? ==>
        (r.error.MissingLabel? || r.error.MissingFromKey? || r.error.MissingToKey?) && r.error.toKey == key
      ensures r.Pass? ==>
        && OnCourse(E0, edges, edgeSpecs, key, done)
        && current in edges && key in edges[current] && edges[current][key] == []
      ensures MirrorsIntact(E0, edgeSpecs, key) ==> r.Pass?
      ensures Symmetric(edgeSpecs) && InStep(old(edges), edgeSpecs) ==> InStep(edges, edgeSpecs)
    {
      ghost var paired := Symmetric(edgeSpecs) && InStep(edges, edgeSpecs);
      r := Pass;
      while edges[current][key] != []
        invariant Valid()
        invariant nodes == old(nodes)
        invariant r == Pass
        invariant current in edges && key in edges[current]
        invariant OnCourse(E0, edges, edgeSpecs, key, done)
        invariant paired ==> InStep(edges, edgeSpecs)
        decreases |edges[current][key]|
      {
        var edge := edges[current][key][0];
        ghost var before := edges;
        r := RemoveEdge(edge.edgeLabel, edge.fromKey, edge.toKey);
        ClearStep(E0, before, edges, edgeSpecs, key, done, current, r);
        if r.Fail? {
          return;
        }
      }
    }
  }
}
