/** Structural invariants of an arena-style argument tree: a map from id to node,
    with the root id stored beside it. */
module LogicTrees {
  import opened Types

  /** Following `parentId` links from `k` arrives at `root` within `fuel` steps,
      visiting present nodes only. */
  ghost predicate ReachesRoot(nodes: NodeMap, root: string, k: string, fuel: nat)
    decreases fuel
  {
    && k in nodes
    && (|| k == root
        || (&& fuel > 0
            && nodes[k].parentId.Some?
            && ReachesRoot(nodes, root, nodes[k].parentId.value, fuel - 1)))
  }

  /** Every key equals the `id` of the node stored under it. */
  ghost predicate KeysMatchIds(nodes: NodeMap) {
    forall k :: k in nodes ==> nodes[k].id == k
  }

  /** The root exists, is the goal node and has no parent. */
  ghost predicate RootIsGoal(nodes: NodeMap, root: string) {
    root in nodes && nodes[root].kind == Goal && nodes[root].parentId == None
  }

  /** Every child id is a key whose node names the listing node as its parent. */
  ghost predicate ChildrenLinkBack(nodes: NodeMap) {
    forall k, i :: k in nodes && 0 <= i < |nodes[k].children| ==>
      nodes[k].children[i] in nodes && nodes[nodes[k].children[i]].parentId == Some(k)
  }

  /** No children list names the same child twice. */
  ghost predicate ChildrenDistinct(nodes: NodeMap) {
    forall k, i, j :: k in nodes && 0 <= i < j < |nodes[k].children| ==>
      nodes[k].children[i] != nodes[k].children[j]
  }

  /** Every non-root node has a present parent that lists it among its children. */
  ghost predicate ParentsListChildren(nodes: NodeMap, root: string) {
    forall k :: k in nodes && k != root ==>
      && nodes[k].parentId.Some?
      && nodes[k].parentId.value in nodes
      && k in nodes[nodes[k].parentId.value].children
  }

  /** Every node's chain of parents ends at the root: no cycles, no detached nodes. */
  ghost predicate AllReachRoot(nodes: NodeMap, root: string) {
    forall k :: k in nodes ==> ReachesRoot(nodes, root, k, |nodes|)
  }

  /** The map is a tree rooted at `root`. */
  ghost predicate WellFormed(nodes: NodeMap, root: string): (b: bool)
    ensures b ==> root in nodes && |nodes| >= 1 && nodes[root].parentId == None
  {
    && KeysMatchIds(nodes)
    && RootIsGoal(nodes, root)
    && ChildrenLinkBack(nodes)
    && ChildrenDistinct(nodes)
    && ParentsListChildren(nodes, root)
    && AllReachRoot(nodes, root)
  }

  /** A published tree is well formed when its map is a tree rooted at its `rootId`. */
  ghost predicate TreeWellFormed(t: LogicTree) {
    WellFormed(t.nodes, t.rootId)
  }

  /** The number of parent steps from `k` to `root`. */
  ghost function Level(nodes: NodeMap, root: string, k: string, fuel: nat): (d: nat)
    requires ReachesRoot(nodes, root, k, fuel)
    ensures d <= fuel
    decreases fuel
  {
    if k == root then 0 else 1 + Level(nodes, root, nodes[k].parentId.value, fuel - 1)
  }

  lemma {:induction false} ReachesRootMono(nodes: NodeMap, root: string, k: string, f: nat, g: nat)
    requires ReachesRoot(nodes, root, k, f) && f <= g
    ensures ReachesRoot(nodes, root, k, g)
    decreases f
  {
    if k != root {
      ReachesRootMono(nodes, root, nodes[k].parentId.value, f - 1, g - 1);
    }
  }

  /** The level does not depend on the fuel that bounds it. */
  lemma {:induction false} LevelFuel(nodes: NodeMap, root: string, k: string, f: nat, g: nat)
    requires ReachesRoot(nodes, root, k, f) && ReachesRoot(nodes, root, k, g)
    ensures Level(nodes, root, k, f) == Level(nodes, root, k, g)
    decreases f
  {
    if k != root {
      LevelFuel(nodes, root, nodes[k].parentId.value, f - 1, g - 1);
    }
  }

  /** The depth of a node of a well-formed tree: 0 at the root. */
  ghost function Depth(nodes: NodeMap, root: string, k: string): (d: nat)
    requires WellFormed(nodes, root) && k in nodes
    ensures d <= |nodes|
    ensures d == 0 <==> k == root
  {
    Level(nodes, root, k, |nodes|)
  }

  /** The present parent of `y`, if any. */
  function Parent(nodes: NodeMap, y: string): (p: Option<string>)
    ensures p.Some? <==> y in nodes && nodes[y].parentId.Some?
    ensures p.Some? ==> p.value == nodes[y].parentId.value
  {
    if y in nodes then nodes[y].parentId else None
  }

  /** The ancestor `j` parent steps above `x`. */
  function Up(nodes: NodeMap, x: string, j: nat): Option<string>
  {
    if j == 0 then Some(x)
    else match Up(nodes, x, j - 1)
      case Some(y) => Parent(nodes, y)
      case None => None
  }

  /** A child sits exactly one level below the node that lists it. */
  lemma ChildDepth(nodes: NodeMap, root: string, k: string, i: nat)
    requires WellFormed(nodes, root) && k in nodes && i < |nodes[k].children|
    ensures nodes[k].children[i] in nodes
    ensures nodes[nodes[k].children[i]].parentId == Some(k)
    ensures Depth(nodes, root, nodes[k].children[i]) == Depth(nodes, root, k) + 1
  {
    var c := nodes[k].children[i];
    var n := |nodes|;
    assert c != root;
    assert ReachesRoot(nodes, root, c, n);
    LevelFuel(nodes, root, k, n - 1, n);
  }

  /** A non-root node sits exactly one level below its parent. */
  lemma ParentDepth(nodes: NodeMap, root: string, k: string)
    requires WellFormed(nodes, root) && k in nodes && k != root
    ensures nodes[k].parentId.Some? && nodes[k].parentId.value in nodes
    ensures Depth(nodes, root, k) == Depth(nodes, root, nodes[k].parentId.value) + 1
  {
    var n := |nodes|;
    assert ReachesRoot(nodes, root, k, n);
    LevelFuel(nodes, root, nodes[k].parentId.value, n - 1, n);
  }

  /** Walking `j` parent steps up from `x` lands `j` levels higher. */
  lemma {:induction false} UpDepth(nodes: NodeMap, root: string, x: string, j: nat, y: string)
    requires WellFormed(nodes, root) && x in nodes && Up(nodes, x, j) == Some(y)
    ensures y in nodes && Depth(nodes, root, y) + j == Depth(nodes, root, x)
  {
    if j > 0 {
      var z := Up(nodes, x, j - 1).value;
      UpDepth(nodes, root, x, j - 1, z);
      assert z != root;
      ParentDepth(nodes, root, z);
    }
  }

  /** A downward path along `children` links through present nodes. */
  ghost predicate IsPath(nodes: NodeMap, p: seq<string>) {
    && |p| >= 1
    && (forall i :: 0 <= i < |p| ==> p[i] in nodes)
    && (forall i :: 0 < i < |p| ==> p[i] in nodes[p[i - 1]].children)
  }

  /** Each step of a path goes from a node to one of its children, one level down. */
  lemma PathStep(nodes: NodeMap, root: string, p: seq<string>, i: nat)
    requires WellFormed(nodes, root) && IsPath(nodes, p) && 0 < i < |p|
    ensures nodes[p[i]].parentId == Some(p[i - 1])
    ensures Depth(nodes, root, p[i]) == Depth(nodes, root, p[i - 1]) + 1
  {
    var k := p[i - 1];
    assert p[i] in nodes[k].children;
    var c :| 0 <= c < |nodes[k].children| && nodes[k].children[c] == p[i];
    ChildDepth(nodes, root, k, c);
  }

  /** Along a path the depth grows by one per step. */
  lemma {:induction false} PathDepth(nodes: NodeMap, root: string, p: seq<string>, i: nat)
    requires WellFormed(nodes, root) && IsPath(nodes, p) && i < |p|
    ensures Depth(nodes, root, p[i]) == Depth(nodes, root, p[0]) + i
  {
    if i > 0 {
      PathDepth(nodes, root, p, i - 1);
      PathStep(nodes, root, p, i);
    }
  }

  /** Walking up from the end of a path retraces it. */
  lemma {:induction false} PathAncestry(nodes: NodeMap, root: string, p: seq<string>, i: nat)
    requires WellFormed(nodes, root) && IsPath(nodes, p) && i < |p|
    ensures Up(nodes, p[|p| - 1], i) == Some(p[|p| - 1 - i])
  {
    if i > 0 {
      PathAncestry(nodes, root, p, i - 1);
      PathStep(nodes, root, p, |p| - i);
    }
  }

  /** A well-formed tree has no cycle: no path of two or more nodes returns to its start. */
  lemma NoCycle(nodes: NodeMap, root: string, p: seq<string>)
    requires WellFormed(nodes, root) && IsPath(nodes, p) && |p| >= 2
    ensures p[0] != p[|p| - 1]
  {
    PathDepth(nodes, root, p, |p| - 1);
  }

  /** A path from the root to `k`, built from the parent chain. */
  lemma {:induction false} PathFromRoot(nodes: NodeMap, root: string, k: string, fuel: nat) returns (p: seq<string>)
    requires WellFormed(nodes, root) && ReachesRoot(nodes, root, k, fuel)
    ensures IsPath(nodes, p) && p[0] == root && p[|p| - 1] == k
    decreases fuel
  {
    if k == root {
      p := [root];
    } else {
      var q := PathFromRoot(nodes, root, nodes[k].parentId.value, fuel - 1);
      p := q + [k];
    }
  }

  /** Every node of a well-formed tree is reachable from the root along `children`. */
  lemma ReachableFromRoot(nodes: NodeMap, root: string, k: string)
    requires WellFormed(nodes, root) && k in nodes
    ensures exists p :: IsPath(nodes, p) && p[0] == root && p[|p| - 1] == k
  {
    var p := PathFromRoot(nodes, root, k, |nodes|);
  }

  /** The root is in no children list; every other node is in exactly one, its parent's,
      and occurs there once. */
  lemma ExactlyOneParentList(nodes: NodeMap, root: string, k: string)
    requires WellFormed(nodes, root) && k in nodes
    ensures k == root ==> forall q :: q in nodes ==> k !in nodes[q].children
    ensures k != root ==>
      && nodes[k].parentId.Some?
      && var p := nodes[k].parentId.value;
      && p in nodes
      && k in nodes[p].children
      && (forall q :: q in nodes && k in nodes[q].children ==> q == p)
      && (forall i, j ::
            (0 <= i < |nodes[p].children| && 0 <= j < |nodes[p].children| &&
             nodes[p].children[i] == k && nodes[p].children[j] == k) ==> i == j)
  {
    forall q | q in nodes && k in nodes[q].children
      ensures nodes[k].parentId == Some(q)
    {
      var i :| 0 <= i < |nodes[q].children| && nodes[q].children[i] == k;
    }
  }

  /** Only the root is a goal node. */
  ghost predicate GoalOnlyAtRoot(nodes: NodeMap, root: string) {
    forall k :: k in nodes ==> (nodes[k].kind == Goal <==> k == root)
  }

  /** Evidence nodes have no children. */
  ghost predicate EvidenceIsLeaf(nodes: NodeMap) {
    forall k :: k in nodes && nodes[k].kind == Evidence ==> nodes[k].children == []
  }
}
