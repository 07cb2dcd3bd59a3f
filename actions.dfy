/** Install actions: `[cmd, pkg]` pairs collected into caller-owned arrays. */
module Actions {

  /** The node an action is about. A removal names a node of the tree being
      replaced; an addition or update names a node of the tree being installed. */
  datatype NodeRef = OldNode(index: nat) | NewNode(index: nat)

  datatype Action = Action(cmd: string, pkg: NodeRef)

  /** Appending a run of actions in two steps appends their concatenation. */
  lemma AppendAssoc(a: seq<Action>, b: seq<Action>, c: seq<Action>)
    ensures (a + b) + c == a + (b + c)
  {
  }

  /** A JavaScript array of actions that callees `push` onto. */
  class ActionList {
    var items: seq<Action>

    constructor()
      ensures items == []
    {
      items := [];
    }

    method Push(a: Action)
      modifies this
      ensures items == old(items) + [a]
    {
      items := items + [a];
    }
  }
}
