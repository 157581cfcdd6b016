/** The mutable conversation tree: `ConversationTreeNode` objects whose child
    lists `parse_replies` appends to. */
module Conversation {
  import opened Wrappers
  import opened Strings
  import opened Replies

  /** `ConversationTreeNode`. `model` is the tree of values the node and its
      descendants currently stand for, `repr` the nodes reachable from it. */
  class Node {
    const text: string
    const role: Role
    var children: seq<Node>
    const metadata: MetaData
    ghost var model: Tree
    ghost var repr: set<object>

    /** The fields agree with `model`, and every child is a valid node whose
        nodes belong to this one's and do not include this one. */
    ghost predicate Valid()
      reads this, repr
      decreases repr
    {
      && this in repr
      && model.text == text && model.role == role && model.metadata == metadata
      && |model.children| == |children|
      && forall i :: 0 <= i < |children| ==>
           && children[i] in repr
           && children[i].repr <= repr
           && this !in children[i].repr
           && children[i].Valid()
           && children[i].model == model.children[i]
    }

    /** A node without children. */
    constructor (text: string, role: Role, metadata: MetaData)
      ensures Valid() && repr == {this}
      ensures model == Tree(text, role, [], metadata)
    {
      this.text := text;
      this.role := role;
      this.children := [];
      this.metadata := metadata;
      model := Tree(text, role, [], metadata);
      repr := {this};
    }
  }

  /** `parse_replies(parent, reply, depth)`: appends at most one node to
      `parent.children`, the one `BuildReply` describes, and changes nothing
      else of the parent; the nodes it creates are new. */
  method ParseReplies(parent: Node, reply: Reply, depth: nat)
    requires parent.Valid()
    modifies parent
    ensures parent.Valid()
    ensures fresh(parent.repr - old(parent.repr))
    ensures parent.model.children == old(parent.model.children) + OptionToSeq(BuildReply(reply, depth, parent.role))
    decreases reply, 4
  {
    if !StartsWith(reply.str, Repeat(':', depth)) {
      return;
    }
    ParseComment(parent, reply, depth);
  }

  /** Lines 95-130, once the reply has passed the depth test: the comment is
      read off the reply and, when it names its author and carries a date, its
      node is appended. */
  method ParseComment(parent: Node, reply: Reply, depth: nat)
    requires parent.Valid()
    modifies parent
    ensures parent.Valid()
    ensures fresh(parent.repr - old(parent.repr))
    ensures parent.model.children == old(parent.model.children) + OptionToSeq(BuildNode(reply, depth, parent.role))
    decreases reply, 3
  {
    var role := if parent.role == Prompter then Assistant else Prompter;
    var c := ReadComment(reply);
    BuildNodeUnfolds(reply, depth, parent.role, c);
    if c.username == "" || c.timestamp.None? {
      return;
    }
    NewChild(parent, reply, depth + 1, LStrip(c.text, StripChars), role, MetaData(c.username, c.timestamp.value));
  }

  /** Lines 113-130: the node for a kept reply is appended to `parent`, with
      the nodes of the reply's sub-lists below it. */
  method NewChild(parent: Node, reply: Reply, depth: nat, text: string, role: Role, metadata: MetaData)
    requires parent.Valid()
    modifies parent
    ensures parent.Valid()
    ensures fresh(parent.repr - old(parent.repr))
    ensures parent.model.children
         == old(parent.model.children) + [Tree(text, role, BuildChildren(reply, |reply.subs|, depth, role), metadata)]
    decreases reply, 2
  {
    var node := new Node(text, role, metadata);
    ParseSubReplies(node, reply, depth);
    Append(parent, node);
  }

  /** `parent.children.append(node)` for a node that shares no object with
      the parent. */
  method Append(parent: Node, node: Node)
    requires parent.Valid() && node.Valid() && parent.repr !! node.repr
    modifies parent
    ensures parent.Valid()
    ensures parent.children == old(parent.children) + [node]
    ensures parent.model.children == old(parent.model.children) + [node.model]
    ensures parent.repr == old(parent.repr) + node.repr
  {
    parent.children := parent.children + [node];
    parent.model := parent.model.(children := parent.model.children + [node.model]);
    parent.repr := parent.repr + node.repr;
    assert parent.children[|parent.children| - 1] == node;
  }

  /** Lines 129-130: `parse_replies(new_node, sub_reply, depth + 1)` for every
      sub-list of `reply`, in order, on a node that has no children yet. */
  method ParseSubReplies(node: Node, reply: Reply, depth: nat)
    requires node.Valid() && node.children == []
    modifies node
    ensures node.Valid()
    ensures fresh(node.repr - old(node.repr))
    ensures node.model.children == BuildChildren(reply, |reply.subs|, depth, node.role)
    decreases reply, 1
  {
    var replies := reply.subs;
    for i := 0 to |replies|
      invariant node.Valid() && fresh(node.repr - old(node.repr))
      invariant node.model.children == BuildChildren(reply, i, depth, node.role)
    {
      ParseNth(node, reply, i, depth);
    }
  }

  /** One pass of the loop of lines 129-130: the call on the sub-list at
      position `i` appends what `BuildChildren` adds for it. */
  method ParseNth(node: Node, reply: Reply, i: nat, depth: nat)
    requires node.Valid() && i < |reply.subs|
    requires node.model.children == BuildChildren(reply, i, depth, node.role)
    modifies node
    ensures node.Valid()
    ensures fresh(node.repr - old(node.repr))
    ensures node.model.children == BuildChildren(reply, i + 1, depth, node.role)
    decreases reply, 0
  {
    assert reply.subs[i] in reply.subs;
    ParseReplies(node, reply.subs[i], depth);
    ChildrenStep(reply, i, depth, node.role);
  }
}
