/** The ordered forests that findTreeObj and findTreeIds search. */
module Tree {
  import opened Js

  /** A tree node: its id, its ordered children (an absent children field is
      the empty sequence) and any other fields, which the finders never look at. */
  datatype Node = Node(id: string, children: seq<Node>, fields: map<string, Value>)

  /** n is one of the nodes of the forest, at any depth. */
  predicate Occurs(n: Node, items: seq<Node>)
    decreases items
  {
    items != [] && (items[0] == n || Occurs(n, items[0].children) || Occurs(n, items[1..]))
  }
}
