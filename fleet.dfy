/**
  What the resolver reads from Jenkins: nodes, the computer behind a node,
  and the label registry that answers "which nodes carry this label
  expression". The registry is a fixed snapshot taken as an input; its own
  label-expression parsing is not modelled.
 */
module Fleet {

  datatype Option<T> = None | Some(value: T)

  /** The status bits of a node's computer (`Computer.isOnline`,
      `isConnecting`, `isAcceptingTasks`). */
  datatype Computer = Computer(online: bool, connecting: bool, acceptingTasks: bool)

  /** A node: the expression of its self label
      (`getSelfLabel().getExpression()`), and its computer, which is absent
      (`toComputer()` returns null) for a node with no executor such as the
      controller. */
  datatype Node = Node(selfLabel: string, computer: Option<Computer>)

  /** `Jenkins.getInstance().getLabel(term).getNodes()`: the nodes matching a
      label term, in the order the registry iterates them. A term that matches
      nothing yields the empty sequence. */
  type Registry = string -> seq<Node>
}
