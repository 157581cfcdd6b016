/** `ConversationTree` and its printer `__repr__`, over the nodes that
    `parse_replies` builds. */
module Printer {
  import opened Strings
  import opened Replies
  import opened Conversation

  /** One line of the printout: `':' * depth + " " + text`. */
  function Line(depth: nat, text: string): (s: string)
    ensures |s| == depth + 1 + |text|
  {
    Repeat(':', depth) + " " + text
  }

  /** A line is `depth` colons, then a space, then the text. */
  lemma LineLayout(depth: nat, text: string)
    ensures var s := Line(depth, text);
      && (forall i :: 0 <= i < depth ==> s[i] == ':')
      && s[depth] == ' ' && s[depth + 1..] == text
  {
  }

  /** What the nested `fn(node, depth)` of `__repr__` appends for a tree. */
  function Format(t: Tree, depth: nat): string
    decreases t, 1
  {
    Line(depth, t.text) + FormatChildren(t, |t.children|, depth + 1)
  }

  /** What the loop over the first `k` children appends. */
  function FormatChildren(t: Tree, k: nat, depth: nat): string
    requires k <= |t.children|
    decreases t, 0, k
  {
    if k == 0 then ""
    else
      assert t.children[k - 1] in t.children;
      FormatChildren(t, k - 1, depth) + Format(t.children[k - 1], depth)
  }

  /** The nested helper `fn` of `__repr__`, with its `nonlocal` accumulator
      passed in as `acc` and handed back as `s`. */
  method AppendNode(node: Node, depth: nat, acc: string) returns (s: string)
    requires node.Valid()
    ensures s == acc + Format(node.model, depth)
    decreases node.repr
  {
    s := acc + Repeat(':', depth) + " " + node.text;
    for i := 0 to |node.children|
      invariant s == acc + Line(depth, node.model.text) + FormatChildren(node.model, i, depth + 1)
    {
      s := AppendNode(node.children[i], depth + 1, s);
    }
  }

  /** The printout of a tree opens with the line of its own message. */
  lemma FormatOpensWithRoot(t: Tree, depth: nat)
    ensures StartsWith(Format(t, depth), Line(depth, t.text))
  {
  }

  /** The loop over the children prints the first child's line first. */
  lemma {:induction false} FormatChildrenOpensWithFirst(t: Tree, k: nat, depth: nat)
    requires 0 < k <= |t.children|
    ensures StartsWith(FormatChildren(t, k, depth), Line(depth, t.children[0].text))
  {
    var head := Line(depth, t.children[0].text);
    if k == 1 {
      FormatOpensWithRoot(t.children[0], depth);
      assert FormatChildren(t, 1, depth) == Format(t.children[0], depth);
    } else {
      FormatChildrenOpensWithFirst(t, k - 1, depth);
      var a := FormatChildren(t, k - 1, depth);
      var b := Format(t.children[k - 1], depth);
      assert (a + b)[..|head|] == a[..|head|];
    }
  }

  /** `ConversationTreeMetaData`. */
  datatype TreeMetaData = TreeMetaData(title: string, topic: string)

  /** `ConversationTree`. */
  class ConversationTree {
    const root: Node
    const metadata: TreeMetaData

    constructor (root: Node, metadata: TreeMetaData)
      ensures this.root == root && this.metadata == metadata
    {
      this.root := root;
      this.metadata := metadata;
    }

    /** `__repr__`: the printout of the whole tree, its root at depth 0. */
    method Repr() returns (s: string)
      requires root.Valid()
      ensures s == Format(root.model, 0)
    {
      s := AppendNode(root, 0, "");
    }
  }

  /** The lines of a tree's messages in pre-order, each written as its depth
      in colons, a space and its text. */
  function PreOrder(t: Tree, depth: nat): (ls: seq<string>)
    ensures |ls| >= 1 && ls[0] == Line(depth, t.text)
    decreases t, 1
  {
    [Line(depth, t.text)] + PreOrderChildren(t, |t.children|, depth + 1)
  }

  function PreOrderChildren(t: Tree, k: nat, depth: nat): (ls: seq<string>)
    requires k <= |t.children|
    decreases t, 0, k
  {
    if k == 0 then []
    else
      assert t.children[k - 1] in t.children;
      PreOrderChildren(t, k - 1, depth) + PreOrder(t.children[k - 1], depth)
  }

  /** The strings of `ls` written one after the other, with no separator. */
  function Join(ls: seq<string>): string {
    if ls == [] then "" else Join(ls[..|ls| - 1]) + ls[|ls| - 1]
  }

  lemma {:induction false} JoinAppend(a: seq<string>, b: seq<string>)
    ensures Join(a + b) == Join(a) + Join(b)
    decreases |b|
  {
    if b == [] {
      assert a + b == a;
    } else {
      var n := |b| - 1;
      var ab := a + b;
      assert ab[..|ab| - 1] == a + b[..n];
      assert ab[|ab| - 1] == b[n];
      JoinAppend(a, b[..n]);
    }
  }

  /** The printout is the pre-order sequence of lines `':' * depth + " " + text`,
      the root at the given depth and every child one deeper than its parent. */
  lemma {:induction false} FormatIsPreOrder(t: Tree, depth: nat)
    ensures Format(t, depth) == Join(PreOrder(t, depth))
    decreases t, 1
  {
    var head := [Line(depth, t.text)];
    var rest := PreOrderChildren(t, |t.children|, depth + 1);
    FormatChildrenIsPreOrder(t, |t.children|, depth + 1);
    JoinAppend(head, rest);
    assert head[..0] == [];
  }

  lemma {:induction false} FormatChildrenIsPreOrder(t: Tree, k: nat, depth: nat)
    requires k <= |t.children|
    ensures FormatChildren(t, k, depth) == Join(PreOrderChildren(t, k, depth))
    decreases t, 0, k
  {
    if k > 0 {
      assert t.children[k - 1] in t.children;
      FormatChildrenIsPreOrder(t, k - 1, depth);
      FormatIsPreOrder(t.children[k - 1], depth);
      JoinAppend(PreOrderChildren(t, k - 1, depth), PreOrder(t.children[k - 1], depth));
    }
  }
}
