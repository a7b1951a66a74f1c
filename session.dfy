/** The application's top-level state: the active view, the published trees (newest
    first) and the tree chosen for a debate. */
module Session {
  import opened Types
  import opened Ids
  import opened LogicTrees
  import Seeds
  import Builder

  /** The controls of the bottom navigation bar. */
  datatype NavButton = ExploreTab | InsightsTab | CreateButton | MindsetTab | SearchTab

  /** The view a control selects; the search control selects nothing. */
  function NavTarget(b: NavButton): (v: Option<AppView>)
    ensures v != Some(Debate)
    ensures v == None <==> b == SearchTab
    ensures b == ExploreTab <==> v == Some(Explore)
    ensures b == CreateButton <==> v == Some(Create)
    ensures b == InsightsTab <==> v == Some(Insights)
    ensures b == MindsetTab <==> v == Some(Mindset)
  {
    match b
    case ExploreTab => Some(Explore)
    case InsightsTab => Some(Insights)
    case CreateButton => Some(Create)
    case MindsetTab => Some(Mindset)
    case SearchTab => None
  }

  /** What the main area shows. */
  datatype Screen = Feed | Editor | InsightsPage | ProfilePage | Blank

  /** The view switch; the debate view falls to the default branch and shows nothing. */
  function ScreenFor(v: AppView): (s: Screen)
    ensures s == Blank <==> v == Debate
    ensures s == Feed <==> v == Explore
    ensures s == Editor <==> v == Create
    ensures s == InsightsPage <==> v == Insights
    ensures s == ProfilePage <==> v == Mindset
  {
    match v
    case Explore => Feed
    case Create => Editor
    case Insights => InsightsPage
    case Mindset => ProfilePage
    case Debate => Blank
  }

  /** The record `handlePublish` builds at clock reading `now`; `createdAt` is the
      formatted time. */
  function PublishedTree(conclusion: string, nodes: NodeMap, now: nat, createdAt: string): (t: LogicTree)
    ensures t.conclusion == conclusion && t.nodes == nodes && t.createdAt == createdAt
    ensures t.rootId == Builder.RootKey && t.likes == 0 && t.debates == 0
    ensures t.id == TreeId(now)
  {
    LogicTree(TreeId(now), conclusion, nodes, Builder.RootKey, createdAt, 0, 0)
  }

  /** Publishing the builder's map yields a well-formed tree whose root is its goal. */
  lemma PublishedBuilderTreeWellFormed(conclusion: string, nodes: NodeMap, now: nat, createdAt: string)
    requires WellFormed(nodes, Builder.RootKey)
    ensures var t := PublishedTree(conclusion, nodes, now, createdAt);
      TreeWellFormed(t) && t.rootId in t.nodes && t.nodes[t.rootId].kind == Goal
  {
  }

  ghost predicate AllWellFormed(trees: seq<LogicTree>) {
    forall i :: 0 <= i < |trees| ==> TreeWellFormed(trees[i])
  }

  /** The seeds make a well-formed starting collection. */
  lemma InitialTreesAllWellFormed()
    ensures AllWellFormed(Seeds.InitialTrees())
  {
    Seeds.SeedTreesWellFormed();
  }

  /** The pair the debate overlay compares: the first tree of the collection and the
      selection, when there is one. */
  function DebatePair(trees: seq<LogicTree>, selected: Option<LogicTree>): (pair: Option<(LogicTree, LogicTree)>)
    requires |trees| > 0
    ensures pair.Some? <==> selected.Some?
    ensures pair.Some? ==> pair.value.0 == trees[0] && pair.value.1 == selected.value
  {
    match selected
    case None => None
    case Some(t) => Some((trees[0], t))
  }

  class AppState {
    var activeView: AppView
    var trees: seq<LogicTree>
    var selectedForDebate: Option<LogicTree>

    /** The debate view is never active, and the seeds stay at the end of the collection. */
    ghost predicate Valid()
      reads this
    {
      && activeView != Debate
      && |trees| >= |Seeds.InitialTrees()|
      && trees[|trees| - |Seeds.InitialTrees()|..] == Seeds.InitialTrees()
    }

    constructor ()
      ensures Valid()
      ensures activeView == Explore && trees == Seeds.InitialTrees() && selectedForDebate == None
    {
      activeView := Explore;
      trees := Seeds.InitialTrees();
      selectedForDebate := None;
    }

    /** `handlePublish`: prepend the new record and switch to the feed. */
    method Publish(conclusion: string, nodes: NodeMap, now: nat, createdAt: string)
      requires Valid()
      modifies this
      ensures Valid()
      ensures trees == [PublishedTree(conclusion, nodes, now, createdAt)] + old(trees)
      ensures |trees| == |old(trees)| + 1 && trees[1..] == old(trees)
      ensures activeView == Explore && selectedForDebate == old(selectedForDebate)
      ensures AllWellFormed(old(trees)) && WellFormed(nodes, Builder.RootKey) ==> AllWellFormed(trees)
    {
      var t := PublishedTree(conclusion, nodes, now, createdAt);
      assert [t] + trees == [t] + trees[..];
      trees := [t] + trees;
      activeView := Explore;
      assert trees[|trees| - |Seeds.InitialTrees()|..] == old(trees)[|old(trees)| - |Seeds.InitialTrees()|..];
    }

    /** The editor's "Publish Tree" button hands its conclusion and map to `Publish`. */
    method PublishFrom(b: Builder.DecisionBuilder, now: nat, createdAt: string)
      requires Valid() && b.Valid()
      modifies this
      ensures Valid()
      ensures trees == [PublishedTree(b.conclusion, b.nodes, now, createdAt)] + old(trees)
      ensures activeView == Explore && selectedForDebate == old(selectedForDebate)
      ensures TreeWellFormed(trees[0])
      ensures AllWellFormed(old(trees)) ==> AllWellFormed(trees)
    {
      Publish(b.conclusion, b.nodes, now, createdAt);
    }

    /** A press on a navigation control. */
    method Press(button: NavButton)
      requires Valid()
      modifies this
      ensures Valid()
      ensures activeView == (match NavTarget(button) case Some(v) => v case None => old(activeView))
      ensures trees == old(trees) && selectedForDebate == old(selectedForDebate)
    {
      match NavTarget(button)
      case Some(v) => activeView := v;
      case None =>
    }

    /** "Enter Debate" on a tree's card. */
    method EnterDebate(t: LogicTree)
      requires Valid()
      modifies this
      ensures Valid()
      ensures selectedForDebate == Some(t)
      ensures activeView == old(activeView) && trees == old(trees)
    {
      selectedForDebate := Some(t);
    }

    /** Closing the debate overlay. */
    method CloseDebate()
      requires Valid()
      modifies this
      ensures Valid()
      ensures selectedForDebate == None
      ensures activeView == old(activeView) && trees == old(trees)
    {
      selectedForDebate := None;
    }

    /** The two trees the debate overlay shows, if it is open. */
    function Overlay(): (pair: Option<(LogicTree, LogicTree)>)
      reads this
      requires Valid()
      ensures pair.Some? <==> selectedForDebate.Some?
      ensures pair.Some? ==> pair.value.0 == trees[0] && pair.value.1 == selectedForDebate.value
    {
      DebatePair(trees, selectedForDebate)
    }

    /** The main area never falls to the empty default branch. */
    function Content(): (s: Screen)
      reads this
      requires Valid()
      ensures s != Blank
      ensures s == Feed <==> activeView == Explore
    {
      ScreenFor(activeView)
    }
  }
}
