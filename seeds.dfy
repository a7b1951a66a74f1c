/** The two example trees the application starts with. */
module Seeds {
  import opened Types
  import opened LogicTrees

  // The seed texts.
  const N1Text: string := "Establish systemic AI safety protocols"
  const N2Text: string := "Impact is planetary and cross-sectoral"
  const N3Text: string := "Innovation might slow down significantly"
  const N4Text: string := "Data shows LLM integration in 60% of critical energy grids"
  const N5Text: string := "Historical precedent: Aviation regulations didn't stop flight growth"
  const R1Text: string := "Decouple survival from traditional labor"
  const R2Text: string := "Automation is removing task-based value"
  const R3Text: string := "Risk of inflation and reduced workforce participation"
  const R4Text: string := "Stockton, CA pilot study showed 12% increase in full-time employment"
  const Tree1Conclusion: string := "AI should be regulated like civil infrastructure, not commercial software."
  const Tree2Conclusion: string := "Universal Basic Income is necessary for the psychological health of the 21st century."

  function Tree1Nodes(): (m: NodeMap)
    ensures m.Keys == {"n1", "n2", "n3", "n4", "n5"}
  {
    map[
      "n1" := LogicNode("n1", Goal, N1Text, ["n2", "n3"], None),
      "n2" := LogicNode("n2", Logic, N2Text, ["n4"], Some("n1")),
      "n3" := LogicNode("n3", Counter, N3Text, ["n5"], Some("n1")),
      "n4" := LogicNode("n4", Evidence, N4Text, [], Some("n2")),
      "n5" := LogicNode("n5", Evidence, N5Text, [], Some("n3"))
    ]
  }

  function Tree2Nodes(): (m: NodeMap)
    ensures m.Keys == {"r1", "r2", "r3", "r4"}
  {
    map[
      "r1" := LogicNode("r1", Goal, R1Text, ["r2", "r3"], None),
      "r2" := LogicNode("r2", Logic, R2Text, [], Some("r1")),
      "r3" := LogicNode("r3", Counter, R3Text, ["r4"], Some("r1")),
      "r4" := LogicNode("r4", Evidence, R4Text, [], Some("r3"))
    ]
  }

  /** The seed trees, in feed order. */
  function InitialTrees(): (ts: seq<LogicTree>)
    ensures |ts| == 2
  {
    [ LogicTree("tree-1", Tree1Conclusion, Tree1Nodes(), "n1", "2024-05-15T10:00:00Z", 1240, 42),
      LogicTree("tree-2", Tree2Conclusion, Tree2Nodes(), "r1", "2024-05-16T14:30:00Z", 842, 15) ]
  }

  /** The seed trees' ids, roots, dates and counters. */
  lemma SeedTreeFields()
    ensures InitialTrees()[0].id == "tree-1" && InitialTrees()[0].rootId == "n1"
    ensures InitialTrees()[0].likes == 1240 && InitialTrees()[0].debates == 42
    ensures InitialTrees()[1].id == "tree-2" && InitialTrees()[1].rootId == "r1"
    ensures InitialTrees()[1].likes == 842 && InitialTrees()[1].debates == 15
    ensures InitialTrees()[0].createdAt == "2024-05-15T10:00:00Z"
    ensures InitialTrees()[1].createdAt == "2024-05-16T14:30:00Z"
  {
  }

  lemma Tree1Keys()
    ensures Tree1Nodes().Keys == {"n1", "n2", "n3", "n4", "n5"} && |Tree1Nodes()| == 5
  {
    assert Tree1Nodes().Keys == {"n1", "n2", "n3", "n4", "n5"};
  }

  lemma Tree1Ids()
    ensures KeysMatchIds(Tree1Nodes()) && RootIsGoal(Tree1Nodes(), "n1")
  {
    var m := Tree1Nodes();
    Tree1Keys();
    forall k | k in m ensures m[k].id == k {
      assert k in {"n1", "n2", "n3", "n4", "n5"};
    }
  }

  lemma Tree1Links()
    ensures ChildrenLinkBack(Tree1Nodes()) && ChildrenDistinct(Tree1Nodes())
  {
    var m := Tree1Nodes();
    Tree1Keys();
    forall k, i | k in m && 0 <= i < |m[k].children|
      ensures m[k].children[i] in m && m[m[k].children[i]].parentId == Some(k)
    {
      assert k in {"n1", "n2", "n3", "n4", "n5"};
    }
  }

  lemma Tree1Parents()
    ensures ParentsListChildren(Tree1Nodes(), "n1")
  {
    var m := Tree1Nodes();
    Tree1Keys();
    forall k | k in m && k != "n1"
      ensures m[k].parentId.Some? && m[k].parentId.value in m && k in m[m[k].parentId.value].children
    {
      assert k in {"n2", "n3", "n4", "n5"};
    }
  }

  lemma Tree1Reach()
    ensures AllReachRoot(Tree1Nodes(), "n1")
  {
    var m := Tree1Nodes();
    Tree1Keys();
    forall k | k in m ensures ReachesRoot(m, "n1", k, 5) {
      if k in {"n2", "n3"} {
        assert ReachesRoot(m, "n1", k, 4);
        ReachesRootMono(m, "n1", k, 4, 5);
      } else if k != "n1" {
        assert ReachesRoot(m, "n1", k, 5);
      }
    }
  }

  lemma Tree1Disciplined()
    ensures GoalOnlyAtRoot(Tree1Nodes(), "n1") && EvidenceIsLeaf(Tree1Nodes())
  {
    var m := Tree1Nodes();
    Tree1Keys();
    forall k | k in m ensures (m[k].kind == Goal <==> k == "n1") && (m[k].kind == Evidence ==> m[k].children == []) {
      assert k in {"n1", "n2", "n3", "n4", "n5"};
    }
  }

  /** The first seed is a tree rooted at `n1`. */
  lemma Tree1WellFormed()
    ensures WellFormed(Tree1Nodes(), "n1")
  {
    Tree1Ids();
    Tree1Links();
    Tree1Parents();
    Tree1Reach();
  }

  lemma Tree2Keys()
    ensures Tree2Nodes().Keys == {"r1", "r2", "r3", "r4"} && |Tree2Nodes()| == 4
  {
    assert Tree2Nodes().Keys == {"r1", "r2", "r3", "r4"};
  }

  lemma Tree2Ids()
    ensures KeysMatchIds(Tree2Nodes()) && RootIsGoal(Tree2Nodes(), "r1")
  {
    var m := Tree2Nodes();
    Tree2Keys();
    forall k | k in m ensures m[k].id == k {
      assert k in {"r1", "r2", "r3", "r4"};
    }
  }

  lemma Tree2Links()
    ensures ChildrenLinkBack(Tree2Nodes()) && ChildrenDistinct(Tree2Nodes())
  {
    var m := Tree2Nodes();
    Tree2Keys();
    forall k, i | k in m && 0 <= i < |m[k].children|
      ensures m[k].children[i] in m && m[m[k].children[i]].parentId == Some(k)
    {
      assert k in {"r1", "r2", "r3", "r4"};
    }
  }

  lemma Tree2Parents()
    ensures ParentsListChildren(Tree2Nodes(), "r1")
  {
    var m := Tree2Nodes();
    Tree2Keys();
    forall k | k in m && k != "r1"
      ensures m[k].parentId.Some? && m[k].parentId.value in m && k in m[m[k].parentId.value].children
    {
      assert k in {"r2", "r3", "r4"};
    }
  }

  lemma Tree2Reach()
    ensures AllReachRoot(Tree2Nodes(), "r1")
  {
    var m := Tree2Nodes();
    Tree2Keys();
    forall k | k in m ensures ReachesRoot(m, "r1", k, 4) {
      if k in {"r2", "r3"} {
        assert ReachesRoot(m, "r1", k, 3);
        ReachesRootMono(m, "r1", k, 3, 4);
      } else if k != "r1" {
        assert ReachesRoot(m, "r1", k, 4);
      }
    }
  }

  lemma Tree2Disciplined()
    ensures GoalOnlyAtRoot(Tree2Nodes(), "r1") && EvidenceIsLeaf(Tree2Nodes())
  {
    var m := Tree2Nodes();
    Tree2Keys();
    forall k | k in m ensures (m[k].kind == Goal <==> k == "r1") && (m[k].kind == Evidence ==> m[k].children == []) {
      assert k in {"r1", "r2", "r3", "r4"};
    }
  }

  /** The second seed is a tree rooted at `r1`. */
  lemma Tree2WellFormed()
    ensures WellFormed(Tree2Nodes(), "r1")
  {
    Tree2Ids();
    Tree2Links();
    Tree2Parents();
    Tree2Reach();
  }

  /** Both seed trees are well-formed trees rooted at their `rootId`. */
  lemma SeedTreesWellFormed()
    ensures |InitialTrees()| == 2
    ensures forall i :: 0 <= i < |InitialTrees()| ==> TreeWellFormed(InitialTrees()[i])
  {
    var ts := InitialTrees();
    assert ts[0].nodes == Tree1Nodes() && ts[0].rootId == "n1";
    assert ts[1].nodes == Tree2Nodes() && ts[1].rootId == "r1";
    forall i | 0 <= i < |ts| ensures TreeWellFormed(ts[i]) {
      if i == 0 {
        Tree1WellFormed();
      } else {
        Tree2WellFormed();
      }
    }
  }

  /** In the seeds only the roots are goals and every evidence node is a leaf. */
  lemma SeedTreesDisciplined()
    ensures forall i :: 0 <= i < |InitialTrees()| ==>
      GoalOnlyAtRoot(InitialTrees()[i].nodes, InitialTrees()[i].rootId) &&
      EvidenceIsLeaf(InitialTrees()[i].nodes)
  {
    var ts := InitialTrees();
    assert ts[0].nodes == Tree1Nodes() && ts[0].rootId == "n1";
    assert ts[1].nodes == Tree2Nodes() && ts[1].rootId == "r1";
    forall i | 0 <= i < |ts|
      ensures GoalOnlyAtRoot(ts[i].nodes, ts[i].rootId) && EvidenceIsLeaf(ts[i].nodes)
    {
      if i == 0 {
        Tree1Disciplined();
      } else {
        Tree2Disciplined();
      }
    }
  }

  /** The seed trees have distinct ids and share no node id. */
  lemma SeedTreesDisjoint()
    ensures InitialTrees()[0].id != InitialTrees()[1].id
    ensures InitialTrees()[0].nodes.Keys !! InitialTrees()[1].nodes.Keys
  {
    var ts := InitialTrees();
    assert ts[0].nodes == Tree1Nodes() && ts[1].nodes == Tree2Nodes();
    Tree1Keys();
    Tree2Keys();
  }
}
