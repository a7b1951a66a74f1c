/** The tree view: a pre-order projection of the node map from a root id, in which a
    collapsed node hides its subtree. */
module Visualizer {
  import opened Types
  import opened LogicTrees

  /** The expand/collapse indicator under a card: none on a leaf, '−' when expanded,
      '+' when collapsed. */
  datatype Marker = NoMarker | Minus | Plus

  /** One rendered node card, at nesting depth `depth`. */
  datatype Card = Card(id: string, kind: NodeType, content: string, depth: nat, marker: Marker)

  /** Every downward chain of present nodes from `id` has at most `n` nodes; this is
      what makes the recursive rendering terminate. */
  ghost predicate Bounded(nodes: NodeMap, id: string, n: nat)
    decreases n
  {
    id !in nodes || forall c :: c in nodes[id].children ==> n > 0 && Bounded(nodes, c, n - 1)
  }

  /** The indicator appears only on nodes with children and shows the node's flag. */
  function MarkerFor(nodes: NodeMap, id: string, collapsed: set<string>): (m: Marker)
    requires id in nodes
    ensures m == NoMarker <==> nodes[id].children == []
    ensures m == Plus <==> nodes[id].children != [] && id in collapsed
  {
    if |nodes[id].children| == 0 then NoMarker else if id in collapsed then Plus else Minus
  }

  /** The card of node `id`: its kind label, its content and its indicator. */
  function CardFor(nodes: NodeMap, id: string, collapsed: set<string>, depth: nat): (c: Card)
    requires id in nodes
    ensures c.id == id && c.kind == nodes[id].kind && c.content == nodes[id].content && c.depth == depth
    ensures c.marker == NoMarker <==> nodes[id].children == []
    ensures c.marker == Plus <==> nodes[id].children != [] && id in collapsed
  {
    Card(id, nodes[id].kind, nodes[id].content, depth, MarkerFor(nodes, id, collapsed))
  }

  /** The cards the component renders for `id` at `depth`: nothing for an absent id,
      otherwise the node's card followed, when it is expanded and has children, by the
      renderings of its children in list order at `depth + 1`. `fuel` only bounds the
      recursion. */
  function Render(nodes: NodeMap, id: string, collapsed: set<string>, depth: nat, ghost fuel: nat): (r: seq<Card>)
    requires Bounded(nodes, id, fuel)
    ensures id !in nodes ==> r == []
    ensures id in nodes ==> |r| >= 1 && r[0] == CardFor(nodes, id, collapsed, depth)
    ensures id in nodes && id in collapsed ==> |r| == 1
    ensures forall i :: 0 <= i < |r| ==> r[i].id in nodes && r[i].depth >= depth
    ensures forall i :: 0 < i < |r| ==> r[i].depth > depth
    decreases fuel, 0
  {
    if id !in nodes then []
    else
      [CardFor(nodes, id, collapsed, depth)] +
      (if id in collapsed || |nodes[id].children| == 0 then []
       else
         assert nodes[id].children[0] in nodes[id].children;
         RenderAll(nodes, nodes[id].children, collapsed, depth + 1, fuel - 1))
  }

  /** The renderings of `ids`, one after the other. */
  function RenderAll(nodes: NodeMap, ids: seq<string>, collapsed: set<string>, depth: nat, ghost fuel: nat): (r: seq<Card>)
    requires forall c :: c in ids ==> Bounded(nodes, c, fuel)
    ensures forall i :: 0 <= i < |r| ==> r[i].id in nodes && r[i].depth >= depth
    decreases fuel, 1, |ids|
  {
    if ids == [] then []
    else Render(nodes, ids[0], collapsed, depth, fuel) + RenderAll(nodes, ids[1..], collapsed, depth, fuel)
  }

  /** The component mounted on `rootId` at `depth`. */
  function Visualize(nodes: NodeMap, rootId: string, collapsed: set<string>, depth: nat): (r: seq<Card>)
    requires Bounded(nodes, rootId, |nodes|)
    ensures r == [] <==> rootId !in nodes
    ensures rootId in nodes ==> r[0] == CardFor(nodes, rootId, collapsed, depth)
    ensures rootId in collapsed ==> |r| <= 1
    ensures forall i :: 0 <= i < |r| ==> r[i].id in nodes && r[i].depth >= depth
  {
    Render(nodes, rootId, collapsed, depth, |nodes|)
  }

  /** The ids of a sequence of cards. */
  function Ids(r: seq<Card>): (s: seq<string>)
    ensures |s| == |r| && forall i :: 0 <= i < |r| ==> s[i] == r[i].id
  {
    seq(|r|, i requires 0 <= i < |r| => r[i].id)
  }

  lemma IdsConcat(a: seq<Card>, b: seq<Card>)
    ensures Ids(a + b) == Ids(a) + Ids(b)
  {
  }

  ghost predicate Distinct(s: seq<string>) {
    forall i, j :: 0 <= i < j < |s| ==> s[i] != s[j]
  }

  // ---------------------------------------------------------------------------
  // Termination: the bound, and how it relates to cycles and to well-formed trees

  lemma {:induction false} BoundedMono(nodes: NodeMap, id: string, n: nat, m: nat)
    requires Bounded(nodes, id, n) && n <= m
    ensures Bounded(nodes, id, m)
    decreases n
  {
    if id in nodes {
      forall c | c in nodes[id].children ensures Bounded(nodes, c, m - 1) {
        BoundedMono(nodes, c, n - 1, m - 1);
      }
    }
  }

  /** Following a path keeps the bound, less one per step. */
  lemma {:induction false} PathBounded(nodes: NodeMap, p: seq<string>, n: nat, j: nat)
    requires IsPath(nodes, p) && Bounded(nodes, p[0], n) && j < |p|
    ensures j <= n && Bounded(nodes, p[j], n - j)
  {
    if j > 0 {
      PathBounded(nodes, p, n, j - 1);
      assert p[j] in nodes[p[j - 1]].children;
    }
  }

  /** A cycle through `p[0]` defeats every bound: without acyclicity the recursion
      does not terminate. */
  lemma {:induction false} CycleUnbounded(nodes: NodeMap, p: seq<string>, n: nat)
    requires IsPath(nodes, p) && |p| >= 2 && p[0] == p[|p| - 1]
    ensures !Bounded(nodes, p[0], n)
    decreases n
  {
    if Bounded(nodes, p[0], n) {
      PathBounded(nodes, p, n, |p| - 1);
      CycleUnbounded(nodes, p, n - (|p| - 1));
    }
  }

  lemma {:induction false} BoundedBelow(nodes: NodeMap, root: string, k: string)
    requires WellFormed(nodes, root) && k in nodes
    ensures Depth(nodes, root, k) <= |nodes|
    ensures Bounded(nodes, k, |nodes| - Depth(nodes, root, k))
    decreases |nodes| - Depth(nodes, root, k)
  {
    var n := |nodes| - Depth(nodes, root, k);
    forall c | c in nodes[k].children ensures n > 0 && Bounded(nodes, c, n - 1) {
      var i :| 0 <= i < |nodes[k].children| && nodes[k].children[i] == c;
      ChildDepth(nodes, root, k, i);
      BoundedBelow(nodes, root, c);
    }
  }

  /** In a well-formed tree every id can be rendered. */
  lemma WellFormedBounded(nodes: NodeMap, root: string, k: string)
    requires WellFormed(nodes, root)
    ensures Bounded(nodes, k, |nodes|)
  {
    if k in nodes {
      BoundedBelow(nodes, root, k);
      BoundedMono(nodes, k, |nodes| - Depth(nodes, root, k), |nodes|);
    }
  }

  /** The rendering does not depend on the fuel that bounds it. */
  lemma {:induction false} RenderFuel(nodes: NodeMap, id: string, collapsed: set<string>, depth: nat, f: nat, g: nat)
    requires Bounded(nodes, id, f) && Bounded(nodes, id, g)
    ensures Render(nodes, id, collapsed, depth, f) == Render(nodes, id, collapsed, depth, g)
    decreases f, 0
  {
    if id in nodes && id !in collapsed && |nodes[id].children| > 0 {
      assert nodes[id].children[0] in nodes[id].children;
      RenderAllFuel(nodes, nodes[id].children, collapsed, depth + 1, f - 1, g - 1);
    }
  }

  lemma {:induction false} RenderAllFuel(nodes: NodeMap, ids: seq<string>, collapsed: set<string>, depth: nat, f: nat, g: nat)
    requires forall c :: c in ids ==> Bounded(nodes, c, f)
    requires forall c :: c in ids ==> Bounded(nodes, c, g)
    ensures RenderAll(nodes, ids, collapsed, depth, f) == RenderAll(nodes, ids, collapsed, depth, g)
    decreases f, 1, |ids|
  {
    if ids != [] {
      RenderFuel(nodes, ids[0], collapsed, depth, f, g);
      RenderAllFuel(nodes, ids[1..], collapsed, depth, f, g);
    }
  }

  /** The components mounted on `ids`, one after the other. */
  function VisualizeEach(nodes: NodeMap, ids: seq<string>, collapsed: set<string>, depth: nat): (r: seq<Card>)
    requires forall c :: c in ids ==> Bounded(nodes, c, |nodes|)
    ensures forall i :: 0 <= i < |r| ==> r[i].id in nodes && r[i].depth >= depth
    ensures (forall c :: c in ids ==> c in nodes) ==> |r| >= |ids|
  {
    if ids == [] then [] else Visualize(nodes, ids[0], collapsed, depth) + VisualizeEach(nodes, ids[1..], collapsed, depth)
  }

  lemma {:induction false} RenderAllIsEach(nodes: NodeMap, ids: seq<string>, collapsed: set<string>, depth: nat, f: nat)
    requires forall c :: c in ids ==> Bounded(nodes, c, f)
    requires forall c :: c in ids ==> Bounded(nodes, c, |nodes|)
    ensures RenderAll(nodes, ids, collapsed, depth, f) == VisualizeEach(nodes, ids, collapsed, depth)
    decreases |ids|
  {
    if ids != [] {
      RenderFuel(nodes, ids[0], collapsed, depth, f, |nodes|);
      RenderAllIsEach(nodes, ids[1..], collapsed, depth, f);
    }
  }

  /** The component emits the node's card and then, when the node is expanded, one child
      component per entry of `children`, in list order, each at `depth + 1`. */
  lemma Unfold(nodes: NodeMap, id: string, collapsed: set<string>, depth: nat)
    requires Bounded(nodes, id, |nodes|) && id in nodes
    ensures forall c :: c in nodes[id].children ==> Bounded(nodes, c, |nodes|)
    ensures Visualize(nodes, id, collapsed, depth) ==
      [CardFor(nodes, id, collapsed, depth)] +
      (if id in collapsed then [] else VisualizeEach(nodes, nodes[id].children, collapsed, depth + 1))
  {
    forall c | c in nodes[id].children ensures Bounded(nodes, c, |nodes|) {
      BoundedMono(nodes, c, |nodes| - 1, |nodes|);
    }
    if id !in collapsed && |nodes[id].children| > 0 {
      RenderAllIsEach(nodes, nodes[id].children, collapsed, depth + 1, |nodes| - 1);
    }
  }

  // ---------------------------------------------------------------------------
  // Which nodes are shown: exactly those reached along a path of expanded nodes

  /** A downward path whose every node but the last is expanded. */
  ghost predicate OpenPath(nodes: NodeMap, collapsed: set<string>, p: seq<string>) {
    IsPath(nodes, p) && forall i :: 0 <= i < |p| - 1 ==> p[i] !in collapsed
  }

  /** `x` is reached from `id` along a path of expanded nodes. */
  ghost predicate Shown(nodes: NodeMap, collapsed: set<string>, id: string, x: string) {
    exists p :: OpenPath(nodes, collapsed, p) && p[0] == id && p[|p| - 1] == x
  }

  lemma {:induction false} RenderAllHasMember(nodes: NodeMap, ids: seq<string>, collapsed: set<string>, depth: nat, fuel: nat, k: nat, x: string)
    requires forall c :: c in ids ==> Bounded(nodes, c, fuel)
    requires k < |ids| && x in Ids(Render(nodes, ids[k], collapsed, depth, fuel))
    ensures x in Ids(RenderAll(nodes, ids, collapsed, depth, fuel))
    decreases |ids|
  {
    IdsConcat(Render(nodes, ids[0], collapsed, depth, fuel), RenderAll(nodes, ids[1..], collapsed, depth, fuel));
    if k > 0 {
      RenderAllHasMember(nodes, ids[1..], collapsed, depth, fuel, k - 1, x);
    }
  }

  lemma {:induction false} RenderAllMember(nodes: NodeMap, ids: seq<string>, collapsed: set<string>, depth: nat, fuel: nat, x: string)
    returns (k: nat)
    requires forall c :: c in ids ==> Bounded(nodes, c, fuel)
    requires x in Ids(RenderAll(nodes, ids, collapsed, depth, fuel))
    ensures k < |ids| && x in Ids(Render(nodes, ids[k], collapsed, depth, fuel))
    decreases |ids|
  {
    IdsConcat(Render(nodes, ids[0], collapsed, depth, fuel), RenderAll(nodes, ids[1..], collapsed, depth, fuel));
    if x in Ids(Render(nodes, ids[0], collapsed, depth, fuel)) {
      k := 0;
    } else {
      k := RenderAllMember(nodes, ids[1..], collapsed, depth, fuel, x);
      k := k + 1;
    }
  }

  /** The ids after the root's card all come from its children's renderings. */
  lemma RenderTail(nodes: NodeMap, id: string, collapsed: set<string>, depth: nat, fuel: nat, x: string)
    requires Bounded(nodes, id, fuel) && id in nodes
    requires x in Ids(Render(nodes, id, collapsed, depth, fuel)) && x != id
    ensures id !in collapsed && |nodes[id].children| > 0 && fuel > 0
    ensures x in Ids(RenderAll(nodes, nodes[id].children, collapsed, depth + 1, fuel - 1))
  {
    if id !in collapsed && |nodes[id].children| > 0 {
      assert nodes[id].children[0] in nodes[id].children;
      IdsConcat([CardFor(nodes, id, collapsed, depth)], RenderAll(nodes, nodes[id].children, collapsed, depth + 1, fuel - 1));
    }
  }

  /** An expanded node followed by an open path from one of its children is an open path. */
  lemma OpenPathCons(nodes: NodeMap, collapsed: set<string>, id: string, q: seq<string>)
    requires id in nodes && id !in collapsed
    requires OpenPath(nodes, collapsed, q) && q[0] in nodes[id].children
    ensures OpenPath(nodes, collapsed, [id] + q)
    ensures ([id] + q)[0] == id && ([id] + q)[|q|] == q[|q| - 1]
  {
    var p := [id] + q;
    forall i | 0 < i < |p| ensures p[i] in nodes[p[i - 1]].children {
      if i > 1 {
        assert p[i] == q[i - 1] && p[i - 1] == q[i - 2];
      }
    }
    forall i | 0 <= i < |p| - 1 ensures p[i] !in collapsed {
      if i > 0 {
        assert p[i] == q[i - 1];
      }
    }
  }

  /** Every rendered id is reached from the root along an open path. */
  lemma {:induction false} RenderedIsShown(nodes: NodeMap, id: string, collapsed: set<string>, depth: nat, fuel: nat, x: string)
    returns (p: seq<string>)
    requires Bounded(nodes, id, fuel) && x in Ids(Render(nodes, id, collapsed, depth, fuel))
    ensures OpenPath(nodes, collapsed, p) && p[0] == id && p[|p| - 1] == x
    decreases fuel
  {
    if x == id {
      p := [id];
    } else {
      RenderTail(nodes, id, collapsed, depth, fuel, x);
      var ch := nodes[id].children;
      var k := RenderAllMember(nodes, ch, collapsed, depth + 1, fuel - 1, x);
      assert ch[k] in ch;
      var q := RenderedIsShown(nodes, ch[k], collapsed, depth + 1, fuel - 1, x);
      p := [id] + q;
      OpenPathCons(nodes, collapsed, id, q);
    }
  }

  /** Every node at the end of an open path is rendered. */
  lemma {:induction false} ShownIsRendered(nodes: NodeMap, p: seq<string>, collapsed: set<string>, depth: nat, fuel: nat)
    requires OpenPath(nodes, collapsed, p) && Bounded(nodes, p[0], fuel)
    ensures p[|p| - 1] in Ids(Render(nodes, p[0], collapsed, depth, fuel))
    decreases |p|
  {
    var r := Render(nodes, p[0], collapsed, depth, fuel);
    if |p| == 1 {
      assert Ids(r)[0] == p[0];
    } else {
      var id := p[0];
      var ch := nodes[id].children;
      assert p[1] in ch;
      var k :| 0 <= k < |ch| && ch[k] == p[1];
      ShownIsRendered(nodes, p[1..], collapsed, depth + 1, fuel - 1);
      RenderAllHasMember(nodes, ch, collapsed, depth + 1, fuel - 1, k, p[|p| - 1]);
      IdsConcat([CardFor(nodes, id, collapsed, depth)], RenderAll(nodes, ch, collapsed, depth + 1, fuel - 1));
    }
  }

  /** A node appears in the rendering exactly when it is reached from the root along a
      path whose every node above it is expanded. */
  lemma VisibleIffOpenPath(nodes: NodeMap, rootId: string, collapsed: set<string>, depth: nat, x: string)
    requires Bounded(nodes, rootId, |nodes|)
    ensures x in Ids(Visualize(nodes, rootId, collapsed, depth)) <==> Shown(nodes, collapsed, rootId, x)
  {
    if x in Ids(Visualize(nodes, rootId, collapsed, depth)) {
      var p := RenderedIsShown(nodes, rootId, collapsed, depth, |nodes|, x);
    }
    if Shown(nodes, collapsed, rootId, x) {
      var p :| OpenPath(nodes, collapsed, p) && p[0] == rootId && p[|p| - 1] == x;
      ShownIsRendered(nodes, p, collapsed, depth, |nodes|);
    }
  }

  // ---------------------------------------------------------------------------
  // Well-formed trees: each node at most once, every node when nothing is collapsed

  /** Everything rendered under `c` lies in `c`'s subtree. */
  lemma RenderDescendant(nodes: NodeMap, root: string, c: string, collapsed: set<string>, depth: nat, fuel: nat, x: string)
    requires WellFormed(nodes, root) && Bounded(nodes, c, fuel)
    requires x in Ids(Render(nodes, c, collapsed, depth, fuel))
    ensures c in nodes && x in nodes && Depth(nodes, root, x) >= Depth(nodes, root, c)
    ensures Up(nodes, x, Depth(nodes, root, x) - Depth(nodes, root, c)) == Some(c)
  {
    var p := RenderedIsShown(nodes, c, collapsed, depth, fuel, x);
    PathDepth(nodes, root, p, |p| - 1);
    PathAncestry(nodes, root, p, |p| - 1);
  }

  lemma DistinctConcat(a: seq<string>, b: seq<string>)
    requires Distinct(a) && Distinct(b) && forall x :: x in a ==> x !in b
    ensures Distinct(a + b)
  {
    forall i, j | 0 <= i < j < |a + b| ensures (a + b)[i] != (a + b)[j] {
      if i < |a| && j >= |a| {
        assert (a + b)[i] in a && (a + b)[j] in b;
      }
    }
  }

  lemma {:induction false} RenderDistinct(nodes: NodeMap, root: string, id: string, collapsed: set<string>, depth: nat, fuel: nat)
    requires WellFormed(nodes, root) && Bounded(nodes, id, fuel)
    ensures Distinct(Ids(Render(nodes, id, collapsed, depth, fuel)))
    decreases fuel, 0
  {
    if id in nodes && id !in collapsed && |nodes[id].children| > 0 {
      var ch := nodes[id].children;
      assert ch[0] in ch;
      var rest := RenderAll(nodes, ch, collapsed, depth + 1, fuel - 1);
      assert Render(nodes, id, collapsed, depth, fuel) == [CardFor(nodes, id, collapsed, depth)] + rest;
      ChildrenOneLevelDown(nodes, root, id);
      RenderAllDistinct(nodes, root, ch, collapsed, depth + 1, fuel - 1, Depth(nodes, root, id) + 1);
      ChildRenderingsAvoid(nodes, root, id, collapsed, depth + 1, fuel - 1);
      IdsConcat([CardFor(nodes, id, collapsed, depth)], rest);
      DistinctConcat([id], Ids(rest));
    }
  }

  lemma ChildrenOneLevelDown(nodes: NodeMap, root: string, id: string)
    requires WellFormed(nodes, root) && id in nodes
    ensures Distinct(nodes[id].children)
    ensures forall c :: c in nodes[id].children ==> c in nodes && Depth(nodes, root, c) == Depth(nodes, root, id) + 1
  {
    var ch := nodes[id].children;
    forall c | c in ch ensures c in nodes && Depth(nodes, root, c) == Depth(nodes, root, id) + 1 {
      var i :| 0 <= i < |ch| && ch[i] == c;
      ChildDepth(nodes, root, id, i);
    }
  }

  /** A node does not occur in its children's renderings. */
  lemma ChildRenderingsAvoid(nodes: NodeMap, root: string, id: string, collapsed: set<string>, depth: nat, fuel: nat)
    requires WellFormed(nodes, root) && id in nodes
    requires forall c :: c in nodes[id].children ==> Bounded(nodes, c, fuel)
    ensures id !in Ids(RenderAll(nodes, nodes[id].children, collapsed, depth, fuel))
  {
    var ch := nodes[id].children;
    if id in Ids(RenderAll(nodes, ch, collapsed, depth, fuel)) {
      var k := RenderAllMember(nodes, ch, collapsed, depth, fuel, id);
      RenderDescendant(nodes, root, ch[k], collapsed, depth, fuel, id);
      ChildDepth(nodes, root, id, k);
    }
  }

  lemma {:induction false} RenderAllDistinct(nodes: NodeMap, root: string, ids: seq<string>, collapsed: set<string>,
                                             depth: nat, fuel: nat, d: nat)
    requires WellFormed(nodes, root)
    requires forall c :: c in ids ==> Bounded(nodes, c, fuel)
    requires forall c :: c in ids ==> c in nodes && Depth(nodes, root, c) == d
    requires Distinct(ids)
    ensures Distinct(Ids(RenderAll(nodes, ids, collapsed, depth, fuel)))
    decreases fuel, 1, |ids|
  {
    if ids != [] {
      var a := Render(nodes, ids[0], collapsed, depth, fuel);
      var b := RenderAll(nodes, ids[1..], collapsed, depth, fuel);
      RenderDistinct(nodes, root, ids[0], collapsed, depth, fuel);
      RenderAllDistinct(nodes, root, ids[1..], collapsed, depth, fuel, d);
      forall x | x in Ids(a) ensures x !in Ids(b) {
        if x in Ids(b) {
          var k := RenderAllMember(nodes, ids[1..], collapsed, depth, fuel, x);
          RenderDescendant(nodes, root, ids[0], collapsed, depth, fuel, x);
          RenderDescendant(nodes, root, ids[1..][k], collapsed, depth, fuel, x);
        }
      }
      IdsConcat(a, b);
      DistinctConcat(Ids(a), Ids(b));
    }
  }

  /** In a well-formed tree no node is rendered twice, whatever is collapsed. */
  lemma VisualizeNoRepeats(nodes: NodeMap, root: string, collapsed: set<string>, depth: nat)
    requires WellFormed(nodes, root)
    ensures Bounded(nodes, root, |nodes|)
    ensures Distinct(Ids(Visualize(nodes, root, collapsed, depth)))
  {
    WellFormedBounded(nodes, root, root);
    RenderDistinct(nodes, root, root, collapsed, depth, |nodes|);
  }

  lemma {:induction false} DistinctSetSize(s: seq<string>)
    requires Distinct(s)
    ensures |(set x | x in s)| == |s|
  {
    if s != [] {
      DistinctSetSize(s[1..]);
      assert (set x | x in s) == {s[0]} + (set x | x in s[1..]);
    }
  }

  /** With every node expanded, as the component starts, the rendering of a well-formed
      tree lists each of its nodes exactly once. */
  lemma InitialViewListsEveryNode(nodes: NodeMap, root: string, depth: nat)
    requires WellFormed(nodes, root)
    ensures Bounded(nodes, root, |nodes|)
    ensures forall k :: k in nodes <==> k in Ids(Visualize(nodes, root, {}, depth))
    ensures Distinct(Ids(Visualize(nodes, root, {}, depth)))
    ensures |Visualize(nodes, root, {}, depth)| == |nodes|
  {
    VisualizeNoRepeats(nodes, root, {}, depth);
    var s := Ids(Visualize(nodes, root, {}, depth));
    forall k | k in nodes ensures k in s {
      var p := PathFromRoot(nodes, root, k, |nodes|);
      ShownIsRendered(nodes, p, {}, depth, |nodes|);
    }
    DistinctSetSize(s);
    assert (set x | x in s) == nodes.Keys;
  }

  // ---------------------------------------------------------------------------
  // Collapsing and the per-node flag

  /** A node with a collapsed ancestor is not rendered. */
  lemma CollapsedHidesSubtree(nodes: NodeMap, root: string, collapsed: set<string>, depth: nat, c: string, x: string, j: nat)
    requires WellFormed(nodes, root) && c in collapsed
    requires j >= 1 && Up(nodes, x, j) == Some(c)
    ensures Bounded(nodes, root, |nodes|)
    ensures x !in Ids(Visualize(nodes, root, collapsed, depth))
  {
    WellFormedBounded(nodes, root, root);
    if x in Ids(Visualize(nodes, root, collapsed, depth)) {
      var p := RenderedIsShown(nodes, root, collapsed, depth, |nodes|, x);
      PathDepth(nodes, root, p, |p| - 1);
      UpDepth(nodes, root, x, j, c);
      PathAncestry(nodes, root, p, j);
    }
  }

  /** The nodes strictly below `id`. */
  function Below(nodes: NodeMap, id: string): set<string> {
    set x | x in nodes && exists j :: 1 <= j <= |nodes| && Up(nodes, x, j) == Some(id)
  }

  /** Clicking a card flips its flag. Collapsing unmounts the child components, which
      discards the flags of every node below it; they come back expanded. */
  function Toggle(nodes: NodeMap, collapsed: set<string>, id: string): (r: set<string>)
    ensures id in r <==> id !in collapsed
    ensures forall x :: x != id && x !in Below(nodes, id) ==> (x in r <==> x in collapsed)
    ensures id !in collapsed ==> forall x :: x in Below(nodes, id) && x != id ==> x !in r
    ensures id in collapsed ==> forall x :: x != id ==> (x in r <==> x in collapsed)
  {
    if id in collapsed then collapsed - {id} else (collapsed - Below(nodes, id)) + {id}
  }

  /** A well-formed node is not below itself. */
  lemma NotBelowItself(nodes: NodeMap, root: string, id: string)
    requires WellFormed(nodes, root) && id in nodes
    ensures id !in Below(nodes, id)
  {
    if id in Below(nodes, id) {
      var j :| 1 <= j <= |nodes| && Up(nodes, id, j) == Some(id);
      UpDepth(nodes, root, id, j, id);
    }
  }

  /** The nodes above `id` on a path from the root are not below `id`, so collapsing
      `id` keeps the path open. */
  lemma CollapseKeepsPathOpen(nodes: NodeMap, root: string, collapsed: set<string>, id: string, p: seq<string>)
    requires WellFormed(nodes, root) && id !in collapsed
    requires OpenPath(nodes, collapsed, p) && p[0] == root && p[|p| - 1] == id
    ensures OpenPath(nodes, Toggle(nodes, collapsed, id), p)
  {
    var after := Toggle(nodes, collapsed, id);
    PathDepth(nodes, root, p, |p| - 1);
    forall i | 0 <= i < |p| - 1 ensures p[i] !in after {
      PathDepth(nodes, root, p, i);
      if p[i] in Below(nodes, id) {
        var j :| 1 <= j <= |nodes| && Up(nodes, p[i], j) == Some(id);
        UpDepth(nodes, root, p[i], j, id);
      }
      assert p[i] != id && p[i] !in Below(nodes, id) && p[i] !in collapsed;
    }
  }

  /** Collapsing a shown node keeps it shown and hides every node below it. */
  lemma CollapseKeepsNodeHidesSubtree(nodes: NodeMap, root: string, collapsed: set<string>, depth: nat, id: string)
    requires WellFormed(nodes, root) && id in nodes && id !in collapsed
    requires Bounded(nodes, root, |nodes|)
    requires id in Ids(Visualize(nodes, root, collapsed, depth))
    ensures id in Ids(Visualize(nodes, root, Toggle(nodes, collapsed, id), depth))
    ensures forall x :: x in Below(nodes, id) ==> x !in Ids(Visualize(nodes, root, Toggle(nodes, collapsed, id), depth))
  {
    var after := Toggle(nodes, collapsed, id);
    var p := RenderedIsShown(nodes, root, collapsed, depth, |nodes|, id);
    CollapseKeepsPathOpen(nodes, root, collapsed, id, p);
    ShownIsRendered(nodes, p, after, depth, |nodes|);
    forall x | x in Below(nodes, id) ensures x !in Ids(Visualize(nodes, root, after, depth)) {
      var j :| 1 <= j <= |nodes| && Up(nodes, x, j) == Some(id);
      CollapsedHidesSubtree(nodes, root, after, depth, id, x, j);
    }
  }

  /** Collapsing and then expanding a node restores it with its whole subtree expanded. */
  lemma CollapseThenExpand(nodes: NodeMap, root: string, collapsed: set<string>, id: string)
    requires WellFormed(nodes, root) && id in nodes && id !in collapsed
    ensures Toggle(nodes, Toggle(nodes, collapsed, id), id) == collapsed - Below(nodes, id)
  {
    NotBelowItself(nodes, root, id);
  }
}
