/**
 * Concrete runs of the graph on small inputs, each proved from the contracts of
 * `GraphModel.Graph`: bidirectional edges, ordered siblings, the refusals, the
 * cascade of `removeNode`, and the two defects of the source as written.
 */
module Scenarios {
  import opened Records
  import opened Registry
  import opened Buckets
  import opened EdgeStore
  import opened Cascade
  import opened GraphModel

  const Follows := EdgeSpec("follows", "user", "user", true, "followedBy", false)
  const FollowedBy := EdgeSpec("followedBy", "user", "user", true, "follows", false)

  /** A graph of users in which `follows` and `followedBy` are each other's inverse. */
  method SocialGraph() returns (g: Graph)
    ensures fresh(g) && g.Valid()
    ensures g.nodes == map[] && g.edges == map[]
    ensures g.edgeSpecs == map["follows" := Follows, "followedBy" := FollowedBy]
  {
    g := new Graph([NodeSpec("user")], [Follows, FollowedBy], None, None);
    PulledLastWins(g.edgeSpecs, [Follows, FollowedBy], EdgeSpecKey, 0);
    PulledLastWins(g.edgeSpecs, [Follows, FollowedBy], EdgeSpecKey, 1);
    assert g.edgeSpecs.Keys == {"follows", "followedBy"};
  }

  /** A graph whose only label, `edgeLabel`, has the given inverse ("" for none). */
  method OneLabelGraph(edgeLabel: string, inverseLabel: string) returns (g: Graph)
    ensures fresh(g) && g.Valid()
    ensures g.nodes == map[] && g.edges == map[]
    ensures g.edgeSpecs == map[edgeLabel := EdgeSpec(edgeLabel, "any", "any", false, inverseLabel, false)]
  {
    var spec := EdgeSpec(edgeLabel, "any", "any", false, inverseLabel, false);
    g := new Graph([], [spec], None, None);
    PulledLastWins(g.edgeSpecs, [spec], EdgeSpecKey, 0);
    assert g.edgeSpecs.Keys == {edgeLabel};
  }

  /** The store holding one `follows` edge from alice to bob and its mirror. */
  function Following(data: Payload, order: int): Store
  {
    var e := Edge("follows", "alice", "bob", data, order);
    map["follows" := map["alice" := [e]], "followedBy" := map["bob" := [Mirror(e, "followedBy")]]]
  }

  /** Adding the first `follows` edge to an empty store gives `Following`. */
  lemma LinkedFollowing(data: Payload, order: int)
    ensures Linked(map[], Follows, Edge("follows", "alice", "bob", data, order)) == Following(data, order)
  {
    var e := Edge("follows", "alice", "bob", data, order);
    assert Inserted([], e) == [e];
    assert Inserted([], Mirror(e, "followedBy")) == [Mirror(e, "followedBy")];
  }

  /** Alice follows Bob in a social graph without edges. */
  method Follow(g: Graph, data: Payload, order: int) returns (r: Outcome)
    requires g.Valid() && g.edges == map[]
    requires g.edgeSpecs == map["follows" := Follows, "followedBy" := FollowedBy]
    modifies g
    ensures g.Valid() && g.nodes == old(g.nodes)
    ensures r == Pass && g.edges == Following(data, order)
  {
    r := g.AddEdge("follows", "alice", "bob", data, order);
    LinkedFollowing(data, order);
  }

  /** Following someone files the edge and its mirror, with the same data and order. */
  method FollowIsMirrored() returns (forward: Option<Edge>, backward: Option<Edge>)
    ensures forward == Some(Edge("follows", "alice", "bob", "since 2015", 7))
    ensures backward == Some(Edge("followedBy", "bob", "alice", "since 2015", 7))
  {
    var g := SocialGraph();
    var r := Follow(g, "since 2015", 7);
    forward := g.GetEdge("follows", "alice", "bob");
    backward := g.GetEdge("followedBy", "bob", "alice");
  }

  /** The three siblings of `SiblingsByOrder`, and the buckets they build. */
  const ChildA := Edge("child", "p", "a", "", 5)
  const ChildB := Edge("child", "p", "b", "", 1)
  const ChildC := Edge("child", "p", "c", "", 3)

  lemma SiblingBuckets()
    ensures Find([], "a").None? && Inserted([], ChildA) == [ChildA]
    ensures Find([ChildA], "b").None? && Inserted([ChildA], ChildB) == [ChildB, ChildA]
    ensures Find([ChildB, ChildA], "c").None? && Inserted([ChildB, ChildA], ChildC) == [ChildB, ChildC, ChildA]
  {
    assert InsertionPoint([ChildA], 1) == 0;
    assert InsertionPoint([ChildB, ChildA], 3) == 1;
  }

  /** Adding a `child` edge whose target is new to the single bucket of `p`. */
  method AddChild(g: Graph, bucket: seq<Edge>, e: Edge, after: seq<Edge>)
    requires g.Valid() && g.edgeSpecs == map["child" := EdgeSpec("child", "any", "any", false, "", false)]
    requires g.edges == (if bucket == [] then map[] else map["child" := map["p" := bucket]])
    requires e.edgeLabel == "child" && e.fromKey == "p"
    requires Find(bucket, e.toKey).None? && Inserted(bucket, e) == after
    modifies g
    ensures g.Valid() && g.edges == map["child" := map["p" := after]]
  {
    var r := g.AddEdge("child", "p", e.toKey, e.data, e.order);
    assert r.Pass?;
    assert map["p" := bucket]["p" := after] == map["p" := after];
  }

  /** Siblings are kept in ascending `order`, whatever order they were added in. */
  method SiblingsByOrder() returns (bucket: seq<Edge>)
    ensures bucket == [Edge("child", "p", "b", "", 1), Edge("child", "p", "c", "", 3), Edge("child", "p", "a", "", 5)]
  {
    var g := OneLabelGraph("child", "");
    SiblingBuckets();
    AddChild(g, [], ChildA, [ChildA]);
    AddChild(g, [ChildA], ChildB, [ChildB, ChildA]);
    AddChild(g, [ChildB, ChildA], ChildC, [ChildB, ChildC, ChildA]);
    bucket := g.edges["child"]["p"];
  }

  /** A taken key, a taken triple and an unknown label are refused. */
  method Refusals() returns (dupNode: Result<Node>, dupEdge: Outcome, unknown: Outcome)
    ensures dupNode == Err(DuplicateKey("alice"))
    ensures dupEdge == Fail(DuplicateEdge("follows", "alice", "bob"))
    ensures unknown == Fail(UnknownLabel("likes"))
  {
    var g := SocialGraph();
    var n1 := g.AddNode("user", "alice", "Alice");
    dupNode := g.AddNode("user", "alice", "Alice again");
    var first := Follow(g, "", 0);
    assert Lookup(g.edges, "follows", "alice", "bob").Some?;
    dupEdge := g.AddEdge("follows", "alice", "bob", "", 1);
    unknown := g.AddEdge("likes", "alice", "bob", "", 0);
  }

  /** An edge is refused when its mirror triple is already taken, even though the edge
      itself is not. */
  method MirrorTaken() returns (r: Outcome)
    ensures r == Fail(ConflictingInverse("likedBy", "bob", "alice"))
  {
    var likes := EdgeSpec("likes", "user", "post", false, "likedBy", false);
    var likedBy := EdgeSpec("likedBy", "post", "user", false, "", false);
    var g := new Graph([], [likes, likedBy], None, None);
    PulledLastWins(g.edgeSpecs, [likes, likedBy], EdgeSpecKey, 0);
    PulledLastWins(g.edgeSpecs, [likes, likedBy], EdgeSpecKey, 1);
    var first := g.AddEdge("likedBy", "bob", "alice", "", 0);
    var e := Edge("likedBy", "bob", "alice", "", 0);
    LookupLinked(map[], likedBy, e, "likes", "alice", "bob");
    LookupLinked(map[], likedBy, e, "likedBy", "bob", "alice");
    r := g.AddEdge("likes", "alice", "bob", "", 0);
  }

  /** Alice and Bob, with Alice following Bob. */
  method FollowingPair() returns (g: Graph)
    ensures fresh(g) && g.Valid()
    ensures "alice" in g.nodes
    ensures g.edgeSpecs == map["follows" := Follows, "followedBy" := FollowedBy]
    ensures g.edges == Following("", 0)
  {
    g := SocialGraph();
    var n1 := g.AddNode("user", "alice", "");
    var n2 := g.AddNode("user", "bob", "");
    var a := Follow(g, "", 0);
  }

  /** Removing a user removes what they follow and the mirrored `followedBy` edge. */
  method RemoveNodeUnlinks() returns (r: Outcome, forward: Option<Edge>, backward: Option<Edge>)
    ensures r == Pass && forward == None && backward == None
  {
    var g := FollowingPair();
    ghost var E0 := g.edges;
    ghost var specs := g.edgeSpecs;
    FollowIntact();
    r := g.RemoveNode("alice");
    CascadeOutcome(E0, g.edges, specs, "alice", "follows", "alice", "bob");
    assert MirrorOfOutgoing(E0, specs, "alice", "followedBy", "bob");
    CascadeOutcome(E0, g.edges, specs, "alice", "followedBy", "bob", "alice");
    forward := g.GetEdge("follows", "alice", "bob");
    backward := g.GetEdge("followedBy", "bob", "alice");
  }

  /** In `Following`, alice's edges have their mirrors. */
  lemma FollowIntact()
    ensures MirrorsIntact(Following("", 0), map["follows" := Follows, "followedBy" := FollowedBy], "alice")
  {
    var E0 := Following("", 0);
    var specs := map["follows" := Follows, "followedBy" := FollowedBy];
    forall L, t | L in specs && specs[L].HasInverse() && Lookup(E0, L, "alice", t).Some?
      ensures L == "follows" && t == "bob"
    {
      FindIsMember(E0[L]["alice"], t, Lookup(E0, L, "alice", t).value);
    }
    assert Lookup(E0, "followedBy", "bob", "alice").Some?;
  }

  const Likes := EdgeSpec("likes", "any", "any", false, "", false)
  const Liked := Edge("likes", "x", "y", "", 0)

  /** Nodes x and y, with x liking y under a label without an inverse. */
  method LikingPair() returns (g: Graph)
    ensures fresh(g) && g.Valid()
    ensures "y" in g.nodes
    ensures g.edgeSpecs == map["likes" := Likes]
    ensures g.edges == map["likes" := map["x" := [Liked]]]
  {
    g := OneLabelGraph("likes", "");
    var nx := g.AddNode("any", "x", "");
    var ny := g.AddNode("any", "y", "");
    var a := g.AddEdge("likes", "x", "y", "", 0);
    assert Inserted([], Liked) == [Liked];
  }

  /** Under a label without an inverse, removing the target leaves the edge dangling:
      only the edges leaving the removed node are visited. */
  method DanglingTarget() returns (r: Outcome, kept: Option<Edge>)
    ensures r == Pass && kept == Some(Edge("likes", "x", "y", "", 0))
  {
    var g := LikingPair();
    ghost var E0 := g.edges;
    ghost var specs := g.edgeSpecs;
    assert Lookup(E0, "likes", "x", "y") == Some(Liked);
    r := g.RemoveNode("y");
    CascadeOutcome(E0, g.edges, specs, "y", "likes", "x", "y");
    kept := g.GetEdge("likes", "x", "y");
  }

  const Knows := EdgeSpec("knows", "any", "any", false, "knows", false)
  const Loop := Edge("knows", "a", "a", "", 0)

  /** The loop is filed once: it is its own mirror. */
  lemma LinkedLoop()
    ensures Linked(map[], Knows, Loop) == map["knows" := map["a" := [Loop]]]
  {
    var E1 := map["knows" := map["a" := [Loop]]];
    assert Inserted([], Loop) == [Loop];
    assert Insert(map[], Loop) == E1;
    assert Mirror(Loop, "knows") == Loop;
    assert BucketOf(E1, "knows", "a") == [Loop];
    assert Find([Loop], "a") == Some(Loop);
  }

  /** Removing the loop deletes it, then finds no mirror left to delete. */
  lemma LoopRemoval(r: Outcome, E2: Store)
    requires Removal(map["knows" := Knows], map["knows" := map["a" := [Loop]]], "knows", "a", "a", r, E2)
    ensures r == Fail(MissingToKey("knows", "a", "a"))
    ensures E2 == map["knows" := map["a" := []]]
  {
    var E := map["knows" := map["a" := [Loop]]];
    var mid := map["knows" := map["a" := []]];
    assert Removed([Loop], "a") == [];
    assert Lookup(E, "knows", "a", "a").Some?;
    assert E["knows"]["a" := []] == map["a" := []];
    assert Delete(E, "knows", "a", "a") == mid;
    assert Lookup(mid, "knows", "a", "a").None?;
  }

  /** A self-loop under a label that is its own inverse is its own mirror: it is filed
      once, and removing it deletes it and then fails to find the mirror. */
  method SelfInverseLoop() returns (added: Outcome, removed: Outcome, after: Option<Edge>)
    ensures added == Pass
    ensures removed == Fail(MissingToKey("knows", "a", "a"))
    ensures after == None
  {
    var g := OneLabelGraph("knows", "knows");
    added := g.AddEdge("knows", "a", "a", "", 0);
    LinkedLoop();
    removed := g.RemoveEdge("knows", "a", "a");
    LoopRemoval(removed, g.edges);
    after := g.GetEdge("knows", "a", "a");
  }

  /** `Following` is a well-formed store. */
  lemma FollowingWellFormed(data: Payload, order: int)
    ensures WellFormed(Following(data, order))
  {
    var e := Edge("follows", "alice", "bob", data, order);
    var E := Following(data, order);
    forall l, f | l in E && f in E[l]
      ensures BucketOk(E[l][f], l, f)
    {
      assert E[l][f] == [e] || E[l][f] == [Mirror(e, "followedBy")];
    }
  }

  /** A social graph rehydrated from a saved store in which Alice follows Bob, without
      going through `addEdge`. */
  method Rehydrated() returns (g: Graph)
    ensures fresh(g) && g.Valid()
    ensures g.edgeSpecs == map["follows" := Follows, "followedBy" := FollowedBy]
    ensures g.edges == Following("", 0)
  {
    FollowingWellFormed("", 0);
    g := new Graph([NodeSpec("user")], [Follows, FollowedBy], None, Some(Following("", 0)));
    PulledLastWins(g.edgeSpecs, [Follows, FollowedBy], EdgeSpecKey, 0);
    PulledLastWins(g.edgeSpecs, [Follows, FollowedBy], EdgeSpecKey, 1);
    assert g.edgeSpecs.Keys == {"follows", "followedBy"};
  }

  /** As written, `removeEdge` on a rehydrated graph deletes the edge, then throws on
      `toey` and leaves the mirror behind. */
  method TypoLeavesMirror() returns (r: Outcome, forward: Option<Edge>, backward: Option<Edge>)
    ensures r == Fail(UndefinedToey)
    ensures forward == None
    ensures backward == Some(Edge("followedBy", "bob", "alice", "", 0))
  {
    var g := Rehydrated();
    ghost var E1 := g.edges;
    assert Lookup(E1, "follows", "alice", "bob").Some?;
    r := g.RemoveEdgeAsWritten("follows", "alice", "bob");
    LookupDelete(E1, "follows", "alice", "bob", "follows", "alice", "bob");
    LookupDelete(E1, "follows", "alice", "bob", "followedBy", "bob", "alice");
    assert Lookup(E1, "followedBy", "bob", "alice") == Some(Edge("followedBy", "bob", "alice", "", 0));
    forward := g.GetEdge("follows", "alice", "bob");
    backward := g.GetEdge("followedBy", "bob", "alice");
  }

  /** With the mirror looked up under `toKey`, `removeEdge` takes both edges away. */
  method CorrectedRemovesMirror() returns (r: Outcome, forward: Option<Edge>, backward: Option<Edge>)
    ensures r == Pass && forward == None && backward == None
  {
    var g := SocialGraph();
    var a := Follow(g, "", 0);
    ghost var E1 := g.edges;
    assert Lookup(E1, "follows", "alice", "bob").Some?;
    assert Lookup(E1, "followedBy", "bob", "alice").Some?;
    LookupDelete(E1, "follows", "alice", "bob", "followedBy", "bob", "alice");
    r := g.RemoveEdge("follows", "alice", "bob");
    LookupUnlinked(E1, Follows, "follows", "alice", "bob", "follows", "alice", "bob");
    LookupUnlinked(E1, Follows, "follows", "alice", "bob", "followedBy", "bob", "alice");
    forward := g.GetEdge("follows", "alice", "bob");
    backward := g.GetEdge("followedBy", "bob", "alice");
  }

  /** As written, `addEdge` calls a `getEdge` the graph does not define, so no edge with a
      specified label can ever be added: on a rehydrated graph, Bob following Alice back
      fails and the store stays as it was. */
  method AddEdgeNeverAdds() returns (r: Outcome, after: Store)
    ensures r == Fail(UndefinedGetEdge)
    ensures after == Following("", 0)
  {
    var g := Rehydrated();
    r := g.AddEdgeAsWritten("follows", "bob", "alice", "", 0);
    after := g.edges;
  }
}
