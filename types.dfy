/** The entities of the argument network: node kinds, nodes, published trees and
    the application's views. */
module Types {

  datatype Option<T> = None | Some(value: T)

  /** The four kinds of node in an argument tree. */
  datatype NodeType = Goal | Logic | Counter | Evidence

  /** One node of an arena-style tree. `children` holds the ids of the child nodes in
      display order; `parentId` is absent on the root. (`kind` is the source's `type`.) */
  datatype LogicNode = LogicNode(
    id: string,
    kind: NodeType,
    content: string,
    children: seq<string>,
    parentId: Option<string>)

  /** The arena: nodes are addressed by id. */
  type NodeMap = map<string, LogicNode>

  /** A published argument. The author record is not modelled. */
  datatype LogicTree = LogicTree(
    id: string,
    conclusion: string,
    nodes: NodeMap,
    rootId: string,
    createdAt: string,
    likes: nat,
    debates: nat)

  /** The five members of the application's view enumeration. */
  datatype AppView = Explore | Create | Insights | Mindset | Debate
}
