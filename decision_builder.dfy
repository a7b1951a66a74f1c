/** The tree editor: a node map that grows by `addNode` and whose contents change by
    `updateNodeContent`, plus the conclusion text. */
module Builder {
  import opened Types
  import opened Ids
  import opened LogicTrees

  /** The key of the builder's root node. */
  const RootKey: string := "root"

  /** The editor's starting map: a single empty goal node. */
  function InitialNodes(): (m: NodeMap)
    ensures m.Keys == {RootKey}
    ensures m[RootKey].kind == Goal && m[RootKey].content == "" && m[RootKey].children == []
    ensures m[RootKey].parentId == None
  {
    map[RootKey := LogicNode(RootKey, Goal, "", [], None)]
  }

  /** The node kinds the editor offers as new children of `node`: none under evidence. */
  function ChildKindsOffered(node: LogicNode): (kinds: seq<NodeType>)
    ensures Goal !in kinds
    ensures kinds == [] <==> node.kind == Evidence
    ensures node.kind != Evidence ==> Logic in kinds && Counter in kinds && Evidence in kinds
  {
    if node.kind == Evidence then [] else [Logic, Counter, Evidence]
  }

  /** The map after adding an empty child of kind `kind` under id `id` to `parentId`.
      As written: an id already present is overwritten by the new node. */
  function AddChild(nodes: NodeMap, parentId: string, kind: NodeType, id: string): (r: NodeMap)
    requires parentId in nodes
    ensures r.Keys == nodes.Keys + {id}
    ensures r[parentId].children == nodes[parentId].children + [id]
    ensures r[parentId].id == nodes[parentId].id && r[parentId].kind == nodes[parentId].kind
    ensures r[parentId].content == nodes[parentId].content
    ensures r[parentId].parentId == nodes[parentId].parentId
    ensures id != parentId ==> r[id] == LogicNode(id, kind, "", [], Some(parentId))
    ensures forall k :: k in nodes && k != id && k != parentId ==> r[k] == nodes[k]
  {
    var parent := nodes[parentId];
    nodes[id := LogicNode(id, kind, "", [], Some(parentId))]
         [parentId := parent.(children := parent.children + [id])]
  }

  /** The map after replacing the content of node `id`. */
  function SetContent(nodes: NodeMap, id: string, content: string): (r: NodeMap)
    requires id in nodes
    ensures r.Keys == nodes.Keys
    ensures r[id].content == content
    ensures r[id].id == nodes[id].id && r[id].kind == nodes[id].kind
    ensures r[id].children == nodes[id].children && r[id].parentId == nodes[id].parentId
    ensures forall k :: k in nodes && k != id ==> r[k] == nodes[k]
  {
    nodes[id := nodes[id].(content := content)]
  }

  /** The starting map is a tree rooted at `root` with a single entry, the empty goal. */
  lemma InitialNodesWellFormed()
    ensures InitialNodes().Keys == {RootKey}
    ensures InitialNodes()[RootKey] == LogicNode(RootKey, Goal, "", [], None)
    ensures WellFormed(InitialNodes(), RootKey)
    ensures GoalOnlyAtRoot(InitialNodes(), RootKey) && EvidenceIsLeaf(InitialNodes())
  {
    var m := InitialNodes();
    assert |m| == 1;
    assert ReachesRoot(m, RootKey, RootKey, 1);
  }

  /** With a fresh id the map grows by exactly one entry. */
  lemma AddChildGrowsByOne(nodes: NodeMap, parentId: string, kind: NodeType, id: string)
    requires parentId in nodes && id !in nodes
    ensures |AddChild(nodes, parentId, kind, id)| == |nodes| + 1
  {
    var r := AddChild(nodes, parentId, kind, id);
    assert r.Keys == nodes.Keys + {id};
    assert |r.Keys| == |nodes.Keys| + 1;
  }

  /** Parent chains only read `parentId` links, so they survive any change that keeps
      every old node's link. */
  lemma {:induction false} ReachesRootTransfer(nodes: NodeMap, r: NodeMap, root: string, k: string, f: nat)
    requires ReachesRoot(nodes, root, k, f)
    requires forall x :: x in nodes ==> x in r && r[x].parentId == nodes[x].parentId
    ensures ReachesRoot(r, root, k, f)
    decreases f
  {
    if k != root {
      ReachesRootTransfer(nodes, r, root, nodes[k].parentId.value, f - 1);
    }
  }

  lemma AddChildIds(nodes: NodeMap, root: string, parentId: string, kind: NodeType, id: string)
    requires WellFormed(nodes, root) && parentId in nodes && id !in nodes
    ensures var r := AddChild(nodes, parentId, kind, id);
      KeysMatchIds(r) && RootIsGoal(r, root)
  {
  }

  lemma AddChildLinks(nodes: NodeMap, root: string, parentId: string, kind: NodeType, id: string)
    requires WellFormed(nodes, root) && parentId in nodes && id !in nodes
    ensures ChildrenLinkBack(AddChild(nodes, parentId, kind, id))
  {
    var r := AddChild(nodes, parentId, kind, id);
    forall k, i | k in r && 0 <= i < |r[k].children|
      ensures r[k].children[i] in r && r[r[k].children[i]].parentId == Some(k)
    {
      if k != id && !(k == parentId && i == |nodes[parentId].children|) {
        var c := nodes[k].children[i];
        assert c in nodes && nodes[c].parentId == Some(k);
      }
    }
  }

  lemma AddChildDistinct(nodes: NodeMap, root: string, parentId: string, kind: NodeType, id: string)
    requires WellFormed(nodes, root) && parentId in nodes && id !in nodes
    ensures ChildrenDistinct(AddChild(nodes, parentId, kind, id))
  {
    var r := AddChild(nodes, parentId, kind, id);
    forall k, i, j | k in r && 0 <= i < j < |r[k].children|
      ensures r[k].children[i] != r[k].children[j]
    {
      if k == parentId && j == |nodes[parentId].children| {
        assert nodes[k].children[i] in nodes;
      }
    }
  }

  lemma AddChildParents(nodes: NodeMap, root: string, parentId: string, kind: NodeType, id: string)
    requires WellFormed(nodes, root) && parentId in nodes && id !in nodes
    ensures ParentsListChildren(AddChild(nodes, parentId, kind, id), root)
  {
    var r := AddChild(nodes, parentId, kind, id);
    forall k | k in r && k != root
      ensures r[k].parentId.Some? && r[k].parentId.value in r && k in r[r[k].parentId.value].children
    {
      if k != id {
        var q := nodes[k].parentId.value;
        assert k in nodes[q].children;
        assert q == parentId ==> k in nodes[q].children + [id];
      }
    }
  }

  lemma AddChildReach(nodes: NodeMap, root: string, parentId: string, kind: NodeType, id: string)
    requires WellFormed(nodes, root) && parentId in nodes && id !in nodes
    ensures AllReachRoot(AddChild(nodes, parentId, kind, id), root)
  {
    var r := AddChild(nodes, parentId, kind, id);
    var n := |nodes|;
    AddChildGrowsByOne(nodes, parentId, kind, id);
    forall k | k in nodes ensures ReachesRoot(r, root, k, n + 1) {
      ReachesRootTransfer(nodes, r, root, k, n);
      ReachesRootMono(r, root, k, n, n + 1);
    }
    ReachesRootTransfer(nodes, r, root, parentId, n);
    assert ReachesRoot(r, root, id, n + 1);
  }

  /** Adding a child with a fresh id under a present parent keeps the map a tree. */
  lemma AddChildPreservesWellFormed(nodes: NodeMap, root: string, parentId: string, kind: NodeType, id: string)
    requires WellFormed(nodes, root) && parentId in nodes && id !in nodes
    ensures WellFormed(AddChild(nodes, parentId, kind, id), root)
  {
    AddChildIds(nodes, root, parentId, kind, id);
    AddChildLinks(nodes, root, parentId, kind, id);
    AddChildDistinct(nodes, root, parentId, kind, id);
    AddChildParents(nodes, root, parentId, kind, id);
    AddChildReach(nodes, root, parentId, kind, id);
  }

  /** Adding only what the editor offers keeps the root the only goal and evidence a leaf. */
  lemma AddOfferedKeepsDiscipline(nodes: NodeMap, root: string, parentId: string, kind: NodeType, id: string)
    requires GoalOnlyAtRoot(nodes, root) && EvidenceIsLeaf(nodes) && root in nodes
    requires parentId in nodes && id !in nodes && kind in ChildKindsOffered(nodes[parentId])
    ensures GoalOnlyAtRoot(AddChild(nodes, parentId, kind, id), root)
    ensures EvidenceIsLeaf(AddChild(nodes, parentId, kind, id))
  {
  }

  /** Replacing content keeps the map a tree and keeps the kinds of all nodes. */
  lemma SetContentPreservesWellFormed(nodes: NodeMap, root: string, id: string, content: string)
    requires WellFormed(nodes, root) && id in nodes
    ensures WellFormed(SetContent(nodes, id, content), root)
    ensures GoalOnlyAtRoot(nodes, root) ==> GoalOnlyAtRoot(SetContent(nodes, id, content), root)
    ensures EvidenceIsLeaf(nodes) ==> EvidenceIsLeaf(SetContent(nodes, id, content))
  {
    var r := SetContent(nodes, id, content);
    forall k | k in r ensures ReachesRoot(r, root, k, |r|) {
      ReachesRootTransfer(nodes, r, root, k, |nodes|);
    }
  }

  /** Of two consecutive content updates to one node, the second wins. */
  lemma SetContentLastWriteWins(nodes: NodeMap, id: string, a: string, b: string)
    requires id in nodes
    ensures SetContent(SetContent(nodes, id, a), id, b) == SetContent(nodes, id, b)
  {
  }

  /** If every generated key was stamped at an earlier clock reading, the next stamp is fresh. */
  lemma FreshWhenClockAdvances(nodes: NodeMap, now: nat)
    requires forall k :: k in nodes && k != RootKey ==> exists t: nat :: t < now && k == NodeId(t)
    ensures NodeId(now) !in nodes
  {
    NodeIdIsNotRoot(now);
    if NodeId(now) in nodes {
      var t: nat :| t < now && NodeId(now) == NodeId(t);
      NodeIdInjective(now, t);
    }
  }

  /** Two additions at the same clock reading collide: the second overwrites the first
      node and the parent lists the id twice, so the map is no longer a tree. */
  lemma SameStampCollision(now: nat)
    ensures var once := AddChild(InitialNodes(), RootKey, Logic, NodeId(now));
      var twice := AddChild(once, RootKey, Counter, NodeId(now));
      && |twice| == 2
      && twice[RootKey].children == [NodeId(now), NodeId(now)]
      && twice[NodeId(now)].kind == Counter
      && !WellFormed(twice, RootKey)
  {
    NodeIdIsNotRoot(now);
    var once := AddChild(InitialNodes(), RootKey, Logic, NodeId(now));
    var twice := AddChild(once, RootKey, Counter, NodeId(now));
    assert twice.Keys == {RootKey, NodeId(now)};
    assert !ChildrenDistinct(twice) by {
      assert twice[RootKey].children[0] == twice[RootKey].children[1];
    }
  }

  /** The first addition to a fresh editor: two entries, the root lists only the new node. */
  lemma FirstChildScenario(now: nat)
    ensures var m := AddChild(InitialNodes(), RootKey, Logic, NodeId(now));
      && |m| == 2
      && m[RootKey].children == [NodeId(now)]
      && m[NodeId(now)] == LogicNode(NodeId(now), Logic, "", [], Some(RootKey))
  {
    NodeIdIsNotRoot(now);
    InitialNodesWellFormed();
    AddChildGrowsByOne(InitialNodes(), RootKey, Logic, NodeId(now));
  }

  /** The editor's state: the conclusion text and the node map. */
  class DecisionBuilder {
    var conclusion: string
    var nodes: NodeMap

    ghost predicate Valid()
      reads this
    {
      WellFormed(nodes, RootKey)
    }

    constructor ()
      ensures Valid()
      ensures conclusion == "" && nodes == InitialNodes()
    {
      conclusion := "";
      nodes := InitialNodes();
      InitialNodesWellFormed();
    }

    /** Editing the conclusion field. */
    method SetConclusion(text: string)
      modifies this
      ensures conclusion == text && nodes == old(nodes)
    {
      conclusion := text;
    }

    /** `addNode(parentId, kind)` at clock reading `now`. The parent must be present (the
        source dereferences it) and the stamped id must be new. */
    method AddNode(parentId: string, kind: NodeType, now: nat)
      requires Valid()
      requires parentId in nodes && NodeId(now) !in nodes
      modifies this
      ensures Valid()
      ensures nodes == AddChild(old(nodes), parentId, kind, NodeId(now))
      ensures |nodes| == |old(nodes)| + 1
      ensures nodes[parentId].children == old(nodes)[parentId].children + [NodeId(now)]
      ensures nodes[NodeId(now)] == LogicNode(NodeId(now), kind, "", [], Some(parentId))
      ensures forall k :: k in old(nodes) && k != parentId ==> nodes[k] == old(nodes)[k]
      ensures conclusion == old(conclusion)
      ensures kind in ChildKindsOffered(old(nodes)[parentId]) &&
              GoalOnlyAtRoot(old(nodes), RootKey) && EvidenceIsLeaf(old(nodes)) ==>
              GoalOnlyAtRoot(nodes, RootKey) && EvidenceIsLeaf(nodes)
    {
      var id := NodeId(now);
      AddChildPreservesWellFormed(nodes, RootKey, parentId, kind, id);
      AddChildGrowsByOne(nodes, parentId, kind, id);
      if kind in ChildKindsOffered(nodes[parentId]) && GoalOnlyAtRoot(nodes, RootKey) && EvidenceIsLeaf(nodes) {
        AddOfferedKeepsDiscipline(nodes, RootKey, parentId, kind, id);
      }
      nodes := AddChild(nodes, parentId, kind, id);
    }

    /** `updateNodeContent(id, content)` for a present node. */
    method UpdateNodeContent(id: string, content: string)
      requires Valid() && id in nodes
      modifies this
      ensures Valid()
      ensures nodes == SetContent(old(nodes), id, content)
      ensures nodes.Keys == old(nodes).Keys
      ensures nodes[id] == old(nodes)[id].(content := content)
      ensures forall k :: k in old(nodes) && k != id ==> nodes[k] == old(nodes)[k]
      ensures conclusion == old(conclusion)
      ensures GoalOnlyAtRoot(old(nodes), RootKey) ==> GoalOnlyAtRoot(nodes, RootKey)
      ensures EvidenceIsLeaf(old(nodes)) ==> EvidenceIsLeaf(nodes)
    {
      SetContentPreservesWellFormed(nodes, RootKey, id, content);
      nodes := SetContent(nodes, id, content);
    }
  }
}
