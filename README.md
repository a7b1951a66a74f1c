# Argument trees: a verified model

The application lets a user build an argument as a labelled tree. The root is the
goal (the conclusion). Below it sit supporting logic, counter-arguments and evidence.
The user can publish the tree to a feed, view any tree as a collapsible diagram, and
open a side-by-side debate between two trees.

This Dafny project models the core of that application:

- the data model of nodes and trees (`Types`, from `types.ts`);
- the structural invariant that makes a node map a tree (`LogicTrees`);
- the two seed trees of the feed (`Seeds`, from `constants.tsx`);
- the tree editor with its `addNode` and `updateNodeContent` mutations (`Builder`,
  from `components/DecisionBuilder.tsx`);
- the recursive diagram with per-node expand and collapse flags (`Visualizer`, from
  `components/LogicTreeVisualizer.tsx`);
- the application state: active view, published trees and debate selection
  (`Session`, from `App.tsx`).

Trees are arenas: a map from node id to node. Each node lists its children's ids and
names its parent. `LogicTrees.WellFormed` states what makes such a map a tree:

- every key is its node's id;
- the root is a goal node and has no parent;
- every listed child is present and names the listing node as its parent;
- no children list repeats an id;
- every non-root node is listed by its parent;
- every parent chain reaches the root within `|nodes|` steps.

From this definition the model proves the usual reference properties: depth grows by one
per child step, there are no cycles, every node is reachable from the root, and every
non-root node appears in exactly one children list, once.

Node ids are `n-` followed by the decimal millisecond clock reading, and tree ids are
`tree-` followed by it (`Ids`). The clock is a parameter. Decimal rendering is proved
injective, so distinct readings give distinct ids.

The diagram is modelled as the pre-order list of cards it displays. Each card holds the
node's id, kind, content, depth and its expand marker (`−`, `+` or none). The per-node
`isExpanded` state is a set of collapsed ids. React discards a component's state when
the component unmounts. So collapsing a node also resets the flags of everything below
it: they are expanded again when the node is reopened.

Well-formedness is a ghost property here. The editor class states it as its invariant
`Valid()`. The session class's `Valid()` says something else: the debate view is not
active and the seed trees stay at the end of the feed. For the feed, well-formedness
appears only as conditional postconditions of `Publish` and `PublishFrom`: an
all-well-formed feed stays all well formed.

## Model

| member | source | states |
|---|---|---|
| Ids.Decimal | App.tsx:19 | the decimal text of a clock reading is non-empty, all digits, and one character long exactly for readings below 10 |
| Ids.DecimalInjective | App.tsx:19 | different clock readings give different decimal texts |
| Ids.NodeId | components/DecisionBuilder.tsx:22 | a node id is `n-` followed by the decimal clock reading |
| Ids.TreeId | App.tsx:19 | a tree id is `tree-` followed by the decimal clock reading |
| Ids.TreeIdInjective | App.tsx:19 | two tree ids are equal if and only if their clock readings are |
| Ids.NodeIdInjective | components/DecisionBuilder.tsx:22 | two node ids are equal if and only if their clock readings are |
| Ids.NodeIdIsNotRoot | components/DecisionBuilder.tsx:16-22 | no generated node id equals the editor's root key `root` |
| LogicTrees.WellFormed | types.ts:4-27 | a well-formed map holds its root, which names no parent, so it has at least one node |
| LogicTrees.Level | types.ts:9 | the number of parent steps from a node to the root is at most the step bound |
| LogicTrees.LevelFuel | types.ts:9 | that number does not depend on the bound used to compute it |
| LogicTrees.ReachesRootMono | types.ts:9 | a parent chain that reaches the root within f steps also does within any g ≥ f |
| LogicTrees.Depth | types.ts:8-9 | in a well-formed tree a node's depth is at most the node count, and it is 0 exactly at the root |
| LogicTrees.Parent | types.ts:9 | the parent of a node is present exactly when the node is present and names a parent, and it is that `parentId` |
| LogicTrees.ChildDepth | types.ts:8-9 | each listed child is present, names its lister as its parent, and sits one level lower |
| LogicTrees.ParentDepth | types.ts:8-9 | each non-root node has a present parent one level higher |
| LogicTrees.UpDepth | types.ts:9 | walking j parent links up from a node reaches a present node exactly j levels higher |
| LogicTrees.PathStep | types.ts:8-9 | each step of a children path goes to a node whose parent is the previous node, one level lower |
| LogicTrees.PathDepth | types.ts:8 | along a downward children path, depth grows by exactly one per step |
| LogicTrees.PathAncestry | types.ts:8-9 | walking i parent links up from the end of a children path lands on the path's i-th node from the end |
| LogicTrees.NoCycle | types.ts:8 | no downward path of two or more nodes in a well-formed tree returns to its first node |
| LogicTrees.PathFromRoot | types.ts:8-9 | from a node's parent chain, builds a downward path that starts at the root and ends at that node |
| LogicTrees.ReachableFromRoot | types.ts:8 | every node of a well-formed tree is reachable from the root along children links |
| LogicTrees.ExactlyOneParentList | types.ts:8-9 | the root is in no children list; every other node is in exactly one, its parent's, and appears there once |
| Seeds.Tree1Nodes | constants.tsx:23-29 | the first seed's map holds exactly the nodes `n1` to `n5` |
| Seeds.Tree2Nodes | constants.tsx:44-49 | the second seed's map holds exactly the nodes `r1` to `r4` |
| Seeds.InitialTrees | constants.tsx:12-54 | the feed is seeded with exactly two trees |
| Seeds.SeedTreeFields | constants.tsx:14-52 | the seeds are `tree-1` rooted at `n1` (1240 likes, 42 debates, created 2024-05-15T10:00:00Z) and `tree-2` rooted at `r1` (842 likes, 15 debates, created 2024-05-16T14:30:00Z) |
| Seeds.Tree1WellFormed | constants.tsx:14-33 | the first seed tree's map is a tree rooted at `n1` |
| Seeds.Tree2WellFormed | constants.tsx:35-53 | the second seed tree's map is a tree rooted at `r1` |
| Seeds.SeedTreesWellFormed | constants.tsx:12-54 | there are two seed trees and both are well formed |
| Seeds.SeedTreesDisciplined | constants.tsx:24-28 | in both seeds, only the root is a goal node and every evidence node is a leaf |
| Seeds.SeedTreesDisjoint | constants.tsx:14-48 | the seeds have different ids and share no node id |
| Builder.ChildKindsOffered | components/DecisionBuilder.tsx:76-80 | evidence nodes are offered no children; other nodes are offered logic, counter and evidence children, never a goal |
| Builder.AddChild | components/DecisionBuilder.tsx:21-30 | adding a child gives the old keys plus the new id; the parent's children get the id appended and its other fields are kept; the new node is empty, has the chosen kind and links to the parent; every other node is unchanged |
| Builder.SetContent | components/DecisionBuilder.tsx:32-37 | updating content keeps the keys; only the target's content changes, and every other node is unchanged |
| Builder.InitialNodes | components/DecisionBuilder.tsx:15-17 | the editor's initial map has the single key `root`, an empty goal node with no children and no parent |
| Builder.InitialNodesWellFormed | components/DecisionBuilder.tsx:15-17 | the editor starts with a single node, an empty goal under key `root`, which is a well-formed tree |
| Builder.AddChildGrowsByOne | components/DecisionBuilder.tsx:25-29 | with a fresh id, the map grows by exactly one entry |
| Builder.ReachesRootTransfer | components/DecisionBuilder.tsx:25-29 | a parent chain survives any update that keeps every old node's parent link |
| Builder.AddChildDistinct | components/DecisionBuilder.tsx:28 | appending a fresh id to the parent's children keeps every children list free of repeats |
| Builder.AddChildPreservesWellFormed | components/DecisionBuilder.tsx:21-30 | adding a child with a fresh id under a present parent keeps the map a tree |
| Builder.AddOfferedKeepsDiscipline | components/DecisionBuilder.tsx:76-80 | adding only kinds the editor offers keeps the root the only goal and every evidence node a leaf |
| Builder.SetContentPreservesWellFormed | components/DecisionBuilder.tsx:32-37 | a content update keeps the map a tree, keeps the root the only goal, and keeps evidence nodes leaves |
| Builder.SetContentLastWriteWins | components/DecisionBuilder.tsx:32-37 | of two successive content updates to one node, only the second has any effect |
| Builder.FreshWhenClockAdvances | components/DecisionBuilder.tsx:22 | if every generated key was stamped at an earlier clock reading, the next stamp is not yet a key |
| Builder.SameStampCollision | components/DecisionBuilder.tsx:22-28 | two additions stamped in the same millisecond overwrite the first node, list the id twice and break the tree invariant |
| Builder.FirstChildScenario | components/DecisionBuilder.tsx:15-30 | the first addition to a fresh editor gives two entries, with the root listing only the new empty node |
| Builder.DecisionBuilder.constructor | components/DecisionBuilder.tsx:14-17 | the editor starts with an empty conclusion and the initial map, and satisfies the tree invariant |
| Builder.DecisionBuilder.SetConclusion | components/DecisionBuilder.tsx:56-58 | the conclusion becomes the typed text and the map is unchanged |
| Builder.DecisionBuilder.AddNode | components/DecisionBuilder.tsx:21-30 | the new map is `AddChild` of the old one under the id `NodeId(now)`; it is one entry larger and still a tree; an addition the buttons offer keeps the kind discipline |
| Builder.DecisionBuilder.UpdateNodeContent | components/DecisionBuilder.tsx:32-37 | the new map is `SetContent` of the old one; the keys, the tree invariant and the kind discipline are kept |
| Visualizer.CardFor | components/LogicTreeVisualizer.tsx:28-41 | a node's card carries its id, kind, content and the given depth; it has no marker exactly for a leaf and `+` exactly for a collapsed node with children |
| Visualizer.MarkerFor | components/LogicTreeVisualizer.tsx:36-40 | a card has no marker exactly when its node is a leaf, and shows `+` exactly when the node has children and is collapsed |
| Visualizer.Render | components/LogicTreeVisualizer.tsx:19-80 | an absent id shows nothing; otherwise the node's card comes first; a collapsed node shows only its own card; every card is a present node at the starting depth or deeper, and only the first is at that depth |
| Visualizer.RenderAll | components/LogicTreeVisualizer.tsx:70-76 | the children's diagrams show only present nodes, at the given depth or deeper |
| Visualizer.Visualize | components/LogicTreeVisualizer.tsx:19-80 | the diagram is empty exactly when the start id is absent; otherwise it starts with that node's card; a collapsed start shows one card; every card is a present node at the starting depth or deeper |
| Visualizer.Ids | components/LogicTreeVisualizer.tsx:70-74 | the ids of a card list, in order |
| Visualizer.IdsConcat | components/LogicTreeVisualizer.tsx:70-76 | proof helper: the ids of concatenated card lists are the concatenation of their ids |
| Visualizer.BoundedMono | components/LogicTreeVisualizer.tsx:70-74 | a recursion bound that suffices also suffices when raised |
| Visualizer.PathBounded | components/LogicTreeVisualizer.tsx:70-74 | j steps down a children path, the remaining bound is the original bound less j |
| Visualizer.CycleUnbounded | components/LogicTreeVisualizer.tsx:70-74 | when a children path returns to its start, no bound makes the recursion finish from that node |
| Visualizer.BoundedBelow | components/LogicTreeVisualizer.tsx:70-74 | in a well-formed tree, the recursion from a node at depth d finishes within `|nodes| - d` levels |
| Visualizer.WellFormedBounded | components/LogicTreeVisualizer.tsx:70-74 | in a well-formed tree, the recursion from any id finishes within `|nodes|` levels |
| Visualizer.RenderFuel | components/LogicTreeVisualizer.tsx:19-80 | the diagram does not depend on which sufficient bound is used |
| Visualizer.VisualizeEach | components/LogicTreeVisualizer.tsx:70-76 | the diagrams of a list of children show only present nodes at the given depth or deeper, and at least one card per child when all children are present |
| Visualizer.RenderAllIsEach | components/LogicTreeVisualizer.tsx:70-76 | the children's diagrams are the diagram of each child, concatenated in list order |
| Visualizer.Unfold | components/LogicTreeVisualizer.tsx:23-80 | a diagram is the node's card followed, unless the node is collapsed, by each child's diagram one level deeper, in children order |
| Visualizer.RenderAllHasMember | components/LogicTreeVisualizer.tsx:70-76 | anything a child's diagram shows is shown by the children's diagrams |
| Visualizer.RenderAllMember | components/LogicTreeVisualizer.tsx:70-76 | anything the children's diagrams show comes from one child's diagram |
| Visualizer.RenderTail | components/LogicTreeVisualizer.tsx:45-76 | any card other than a node's own comes from its children's diagrams, and the node is then expanded with children |
| Visualizer.OpenPathCons | components/LogicTreeVisualizer.tsx:45-74 | an expanded node followed by an open path from one of its children is an open path |
| Visualizer.RenderedIsShown | components/LogicTreeVisualizer.tsx:19-80 | every card shown lies at the end of a children path from the start node whose inner nodes are all expanded |
| Visualizer.ShownIsRendered | components/LogicTreeVisualizer.tsx:19-80 | the end of every such expanded path is shown |
| Visualizer.VisibleIffOpenPath | components/LogicTreeVisualizer.tsx:19-80 | a node is shown if and only if it is reached from the root through expanded nodes only |
| Visualizer.RenderDescendant | components/LogicTreeVisualizer.tsx:70-74 | in a well-formed tree, every card under a node is that node or one of its descendants |
| Visualizer.DistinctConcat | components/LogicTreeVisualizer.tsx:70-76 | proof helper: concatenating two repeat-free id lists that share no id gives a repeat-free list |
| Visualizer.RenderDistinct | components/LogicTreeVisualizer.tsx:19-80 | in a well-formed tree, a diagram shows no node twice |
| Visualizer.ChildrenOneLevelDown | components/LogicTreeVisualizer.tsx:70 | in a well-formed tree, a node's children are distinct and all one level below it |
| Visualizer.ChildRenderingsAvoid | components/LogicTreeVisualizer.tsx:70-76 | in a well-formed tree, a node's children's diagrams never show the node itself |
| Visualizer.RenderAllDistinct | components/LogicTreeVisualizer.tsx:70-76 | distinct siblings at one level have diagrams that together show no node twice |
| Visualizer.VisualizeNoRepeats | components/LogicTreeVisualizer.tsx:19-80 | a well-formed tree's diagram, with any collapsed set, shows no node twice |
| Visualizer.DistinctSetSize | components/LogicTreeVisualizer.tsx:70-74 | proof helper: a repeat-free list has as many distinct members as entries |
| Visualizer.InitialViewListsEveryNode | components/LogicTreeVisualizer.tsx:21 | with every flag at its initial expanded value, a well-formed tree's diagram shows every node exactly once |
| Visualizer.CollapsedHidesSubtree | components/LogicTreeVisualizer.tsx:45 | a strict descendant of a collapsed node is not shown |
| Visualizer.Toggle | components/LogicTreeVisualizer.tsx:30 | a click flips the clicked node's flag; nodes outside its subtree keep their flags; collapsing expands everything below it; expanding changes no other flag |
| Visualizer.NotBelowItself | components/LogicTreeVisualizer.tsx:30 | in a well-formed tree, no node lies strictly below itself |
| Visualizer.CollapseKeepsPathOpen | components/LogicTreeVisualizer.tsx:30-45 | collapsing a node leaves open every expanded path from the root to it |
| Visualizer.CollapseKeepsNodeHidesSubtree | components/LogicTreeVisualizer.tsx:30-45 | collapsing a shown node keeps it shown and hides every node below it |
| Visualizer.CollapseThenExpand | components/LogicTreeVisualizer.tsx:30 | two clicks on an expanded node restore the flags, except that the nodes below it come back expanded |
| Session.NavTarget | App.tsx:97-109 | only the search control selects no view; no control selects the debate view; the Explore, Create, Insights and Mindset controls select exactly their views |
| Session.ScreenFor | App.tsx:37-64 | the main area is empty exactly for the debate view; the feed, the editor, the insights page and the profile page appear exactly for their views |
| Session.PublishedTree | App.tsx:18-32 | the published record keeps the conclusion, the map and the time; it has id `tree-<now>`, root `root`, no likes and no debates |
| Session.PublishedBuilderTreeWellFormed | App.tsx:17-31 | publishing the editor's map gives a well-formed tree rooted at `root` whose root is its goal |
| Session.InitialTreesAllWellFormed | App.tsx:14 | the feed starts with well-formed trees |
| Session.DebatePair | App.tsx:115-121 | the overlay is open exactly when a tree is selected, and it compares the feed's first tree with the selected one |
| Session.AppState.constructor | App.tsx:13-15 | the session starts on the feed with the seed trees and no selection |
| Session.AppState.Publish | App.tsx:17-35 | the new record (id `tree-<now>`, root `root`, no likes, no debates) is prepended and the view becomes the feed; the selection is kept; the seeds stay last; an all-well-formed feed stays all well formed when the map is a tree |
| Session.AppState.PublishFrom | components/DecisionBuilder.tsx:135-141 | publishing from a valid editor prepends a well-formed tree and keeps the feed all well formed |
| Session.AppState.Press | App.tsx:97-109 | a navigation press sets the view to the control's target, or changes nothing for search |
| Session.AppState.EnterDebate | App.tsx:50 | "Enter Debate" selects the card's tree and keeps the view and the feed |
| Session.AppState.CloseDebate | App.tsx:119 | closing the overlay clears the selection and keeps the view and the feed |
| Session.AppState.Overlay | App.tsx:115-121 | in a valid session, the overlay shows the feed's first tree against the selection exactly when there is one |
| Session.AppState.Content | App.tsx:37-64 | in a valid session, the main area is never the empty default branch, and it is the feed exactly on the Explore view |

## Left out

- The AI review and the debate synthesis (`services/geminiService.ts`, `components/DebateMode.tsx`, `handleAnalyze`): these are calls to a hosted model, with loading flags and a fetched result. The analysis panel is left out with them.
- `components/LogicCard.tsx`, `components/Insights.tsx` and `components/Profile.tsx`: presentation only. The card's use of `rootId` and of `onDebate` is modelled through `Visualizer.Visualize` and `Session.AppState.EnterDebate`.
- Animation, styling, colours (`COLORS`) and the branch-line widths: presentation only.
- The author record of a tree: hard-coded display data.
- The optional `isExpanded` field of a node: nothing reads it. The diagram's per-component flag is modelled instead.
- `Date.now()` and `toISOString()`: the clock reading and the formatted time are parameters.
- Builder.DecisionBuilder.AddNode: requires the parent to be present. With an absent parent the source throws in the state updater; the component never calls it that way.
- Builder.DecisionBuilder.AddNode: requires the stamped id to be fresh. Two additions in one millisecond collide, which `Builder.SameStampCollision` shows on the pure `Builder.AddChild`.
- Builder.DecisionBuilder.UpdateNodeContent: requires the id to be present. With an absent id JavaScript would insert a partial record holding only `content`; the component only passes keys of the map.
- The return value of `addNode`: the source returns nothing, so the model returns no node id.
- Visualizer.Render: requires every downward chain from the start id to have bounded length, with a ghost bound. On a cyclic map the source recurses without end (`Visualizer.CycleUnbounded`).
- Visualizer.Toggle: models flags keyed by node id. React keys the child components by id (`key={childId}`), so this matches as long as children lists have no repeats, which well-formedness guarantees.
- Object keys such as `toString` that JavaScript inherits from the object prototype are treated as absent.
- The order of `Object.values(nodes)` in the editor's node list: presentation only.
- The view enumeration has five members, `Debate` included, but no control selects it; the session invariant keeps it inactive.
- The header's search button and the navigation bar's search control do nothing: `Press(SearchTab)` changes nothing.
- The editor's local state is lost when its view unmounts; each visit to the Create view starts a fresh `Builder.DecisionBuilder`.
