/** The reply tree that `parse_replies` builds, as a value: what one call
    appends to its parent, defined by recursion over the nested wiki lists. */
module Replies {
  import opened Wrappers
  import opened Strings
  import opened Username
  import opened Timestamp

  /** `RoleEnum`. */
  datatype Role = Prompter | Assistant

  /** The role of a reply to a message of role `r`. */
  function Flip(r: Role): (f: Role)
    ensures f != r
  {
    if r == Prompter then Assistant else Prompter
  }

  /** A `wtp.WikiList` as far as the parser looks at it: its wikitext, its
      sub-lists in order and its plain text, together with what two library
      calls this model does not implement give on it: `unmarked`, which
      `wtp.remove_markup` makes of the wikitext before the first sub-list, and
      `found`, what the regex search of `get_comment_timestamp` finds in the
      text the readers look at. */
  datatype Reply = Reply(str: string, subs: seq<Reply>, plain: string, unmarked: string, found: Option<string>)

  /** `ConversationTreeNodeMetaData`. */
  datatype MetaData = MetaData(username: string, timestamp: DateTime)

  /** `ConversationTreeNode` as a value. */
  datatype Tree = Tree(text: string, role: Role, children: seq<Tree>, metadata: MetaData)

  /** The characters `lstrip(": ")` removes. */
  const StripChars: set<char> := {':', ' '}

  /** `s[:s.find(sub)]`: the text before the first occurrence of `sub`; when
      `sub` does not occur, `find` gives -1 and the slice loses only the last
      character. */
  function TextBefore(s: string, sub: string): (h: string)
    ensures Find(s, sub) != -1 ==> h == s[..Find(s, sub)] && OccursAt(s, sub, |h|)
    ensures Find(s, sub) != -1 ==> forall j :: 0 <= j < |h| ==> !OccursAt(s, sub, j)
    ensures Find(s, sub) == -1 && s != [] ==> h == s[..|s| - 1]
    ensures Find(s, sub) == -1 && s == [] ==> h == []
  {
    Slice(s, 0, Find(s, sub))
  }

  /** What `parse_replies` reads off a reply before deciding whether to keep it. */
  datatype Comment = Comment(text: string, username: string, timestamp: Option<DateTime>)

  /** Lines 100-112: a reply without sub-lists contributes its plain text and is
      signed anywhere in its wikitext; a reply with sub-lists contributes, and is
      signed in, only the wikitext before its first sub-list, with the markup
      then removed. Leading colons and spaces are stripped from the text, and
      every date read is one `datetime` accepts. */
  function ReadComment(r: Reply): (c: Comment)
    ensures r.subs == [] ==> c.username == GetCommentUsername(r.str)
    ensures r.subs != [] ==> c.username == GetCommentUsername(TextBefore(r.str, r.subs[0].str))
    ensures c.timestamp == GetCommentTimestamp(r.found)
    ensures c.timestamp.Some? ==> ValidDateTime(c.timestamp.value)
  {
    if |r.subs| == 0 then
      Comment(LStrip(r.plain, StripChars), GetCommentUsername(r.str), GetCommentTimestamp(r.found))
    else
      var head := TextBefore(r.str, r.subs[0].str);
      Comment(LStrip(r.unmarked, StripChars), GetCommentUsername(head), GetCommentTimestamp(r.found))
  }

  /** The text read off a reply is the text the readers take, plain text or
      unmarked head, with a leading run of colons and spaces removed and
      nothing else. */
  lemma CommentTextIsStripped(r: Reply)
    ensures var source := if r.subs == [] then r.plain else r.unmarked;
      var text := ReadComment(r).text;
      && IsSuffix(text, source)
      && (forall i :: 0 <= i < |source| - |text| ==> source[i] in StripChars)
      && (text == [] || text[0] !in StripChars)
  {
    if r.subs == [] {
      LStripDrops(r.plain, StripChars);
    } else {
      LStripDrops(r.unmarked, StripChars);
    }
  }

  /** Stripping a second time, as line 118 does, changes nothing. */
  lemma LStripIdempotent(s: string, chars: set<char>)
    ensures LStrip(LStrip(s, chars), chars) == LStrip(s, chars)
  {
  }

  /** Every message of the tree answers its parent with the other role. */
  ghost predicate Alternates(t: Tree) {
    forall i :: 0 <= i < |t.children| ==> t.children[i].role == Flip(t.role) && Alternates(t.children[i])
  }

  /** Every message of the tree names its author. */
  ghost predicate Signed(t: Tree) {
    && t.metadata.username != ""
    && forall i :: 0 <= i < |t.children| ==> Signed(t.children[i])
  }

  /** Every message of the tree carries a date `datetime` accepts. */
  ghost predicate Dated(t: Tree) {
    && ValidDateTime(t.metadata.timestamp)
    && forall i :: 0 <= i < |t.children| ==> Dated(t.children[i])
  }

  /** The node one call `parse_replies(parent, r, depth)` appends to a parent of
      role `parentRole`, together with everything the recursion hangs below it;
      `None` when it appends nothing. A reply is refused when its wikitext does
      not start with `depth` colons (lines 92-93), and otherwise as `BuildNode`
      says. */
  function BuildReply(r: Reply, depth: nat, parentRole: Role): (t: Option<Tree>)
    ensures !StartsWith(r.str, Repeat(':', depth)) ==> t.None?
    ensures t.Some? ==> t.value.role == Flip(parentRole)
    decreases r, 2
  {
    if !StartsWith(r.str, Repeat(':', depth)) then None
    else BuildNode(r, depth, parentRole)
  }

  /** Lines 95-130 for a reply that passed the depth test: it is refused when
      it names no author or carries no date that parses, and a refused reply
      takes its whole sub-structure with it. */
  function BuildNode(r: Reply, depth: nat, parentRole: Role): (t: Option<Tree>)
    ensures t.Some? ==> t.value.role == Flip(parentRole)
    decreases r, 1
  {
    var c := ReadComment(r);
    if c.username == "" || c.timestamp.None? then None
    else
      var role := Flip(parentRole);
      var children := BuildChildren(r, |r.subs|, depth + 1, role);
      Some(Tree(LStrip(c.text, StripChars), role, children, MetaData(c.username, c.timestamp.value)))
  }

  /** A tree alternates its roles, names every author and carries only valid
      dates. */
  ghost predicate WellFormed(t: Tree) {
    Alternates(t) && Signed(t) && Dated(t)
  }

  /** Every tree the recursion builds alternates its roles, names every author
      and carries only valid dates. */
  lemma {:induction false} ReplyIsWellFormed(r: Reply, depth: nat, parentRole: Role)
    ensures BuildReply(r, depth, parentRole).Some? ==>
      WellFormed(BuildReply(r, depth, parentRole).value)
    decreases r, 2
  {
    var t := BuildReply(r, depth, parentRole);
    if t.Some? {
      BuildNodeUnfolds(r, depth, parentRole, ReadComment(r));
      ChildrenAreWellFormed(r, |r.subs|, depth + 1, Flip(parentRole));
      NodeIsWellFormed(t.value);
    }
  }

  /** A node is well formed when its children are and answer it with the other
      role, and it names its author and carries a valid date. */
  lemma NodeIsWellFormed(t: Tree)
    requires forall i :: 0 <= i < |t.children| ==> WellFormed(t.children[i]) && t.children[i].role == Flip(t.role)
    requires t.metadata.username != ""
    requires ValidDateTime(t.metadata.timestamp)
    ensures WellFormed(t)
  {
  }

  lemma {:induction false} ChildrenAreWellFormed(r: Reply, k: nat, depth: nat, role: Role)
    requires k <= |r.subs|
    ensures forall i :: 0 <= i < |BuildChildren(r, k, depth, role)| ==>
      BuildChildren(r, k, depth, role)[i].role == Flip(role) && WellFormed(BuildChildren(r, k, depth, role)[i])
    decreases r, 0, k
  {
    if k > 0 {
      assert r.subs[k - 1] in r.subs;
      var before := BuildChildren(r, k - 1, depth, role);
      var last := BuildReply(r.subs[k - 1], depth, role);
      ChildrenAreWellFormed(r, k - 1, depth, role);
      ReplyIsWellFormed(r.subs[k - 1], depth, role);
      AppendKeepsWellFormed(before, last, Flip(role));
    }
  }

  lemma AppendKeepsWellFormed(before: seq<Tree>, last: Option<Tree>, role: Role)
    requires forall i :: 0 <= i < |before| ==> before[i].role == role && WellFormed(before[i])
    requires last.Some? ==> last.value.role == role && WellFormed(last.value)
    ensures forall i :: 0 <= i < |before + OptionToSeq(last)| ==>
      (before + OptionToSeq(last))[i].role == role && WellFormed((before + OptionToSeq(last))[i])
  {
  }

  /** One step of `BuildNode`, in terms of what was read off the reply. */
  lemma BuildNodeUnfolds(r: Reply, depth: nat, parentRole: Role, c: Comment)
    requires c == ReadComment(r)
    ensures BuildNode(r, depth, parentRole)
         == if c.username == "" || c.timestamp.None? then None
            else Some(Tree(LStrip(c.text, StripChars), Flip(parentRole),
                           BuildChildren(r, |r.subs|, depth + 1, Flip(parentRole)),
                           MetaData(c.username, c.timestamp.value)))
  {
    if c.username != "" && c.timestamp.Some? {
      var children := BuildChildren(r, |r.subs|, depth + 1, Flip(parentRole));
      assert BuildNode(r, depth, parentRole)
          == Some(Tree(LStrip(c.text, StripChars), Flip(parentRole), children,
                       MetaData(c.username, c.timestamp.value)));
    }
  }

  /** The keep rule of lines 92-127 in both directions: a reply is appended
      exactly when its wikitext starts with `depth` colons, it names an author
      and it carries a date that parses; the node appended then holds the
      stripped text and that author and date. */
  lemma ReplyIsKeptExactly(r: Reply, depth: nat, parentRole: Role)
    ensures BuildReply(r, depth, parentRole).Some?
        <==> (&& StartsWith(r.str, Repeat(':', depth))
              && ReadComment(r).username != ""
              && ReadComment(r).timestamp.Some?)
    ensures BuildReply(r, depth, parentRole).Some? ==>
      && BuildReply(r, depth, parentRole).value.text == ReadComment(r).text
      && BuildReply(r, depth, parentRole).value.metadata
         == MetaData(ReadComment(r).username, ReadComment(r).timestamp.value)
  {
    var c := ReadComment(r);
    BuildNodeUnfolds(r, depth, parentRole, c);
    if r.subs == [] {
      LStripIdempotent(r.plain, StripChars);
    } else {
      LStripIdempotent(r.unmarked, StripChars);
    }
  }

  /** The children the loop over the first `k` sub-lists of `r` appends to a
      node of role `role`: the survivors, in order. */
  function BuildChildren(r: Reply, k: nat, depth: nat, role: Role): (ts: seq<Tree>)
    requires k <= |r.subs|
    ensures |ts| <= k
    decreases r, 0, k
  {
    if k == 0 then []
    else
      assert r.subs[k - 1] in r.subs;
      var before := BuildChildren(r, k - 1, depth, role);
      var last := BuildReply(r.subs[k - 1], depth, role);
      before + OptionToSeq(last)
  }

  /** The loop over the sub-lists appends what one more call appends. */
  lemma ChildrenStep(r: Reply, k: nat, depth: nat, role: Role)
    requires k < |r.subs|
    ensures BuildChildren(r, k + 1, depth, role)
         == BuildChildren(r, k, depth, role) + OptionToSeq(BuildReply(r.subs[k], depth, role))
  {
  }

  /** The outcomes, in order, of the recursive calls on the first `k` sub-lists. */
  function Outcomes(r: Reply, k: nat, depth: nat, role: Role): (os: seq<Option<Tree>>)
    requires k <= |r.subs|
    ensures |os| == k
  {
    seq(k, j requires 0 <= j < k => BuildReply(r.subs[j], depth, role))
  }

  /** The loop over the sub-lists keeps the outcomes that are present, in order. */
  lemma {:induction false} ChildrenAreCompacted(r: Reply, k: nat, depth: nat, role: Role)
    requires k <= |r.subs|
    ensures BuildChildren(r, k, depth, role) == Compact(Outcomes(r, k, depth, role))
  {
    if k > 0 {
      ChildrenAreCompacted(r, k - 1, depth, role);
      var os := Outcomes(r, k, depth, role);
      assert os[..k - 1] == Outcomes(r, k - 1, depth, role);
    }
  }

  /** The children built from the first `k` sub-lists are exactly the trees of
      the sub-lists that survive, in the order of those sub-lists: `idx` lists
      the positions of the survivors, in increasing order, and every position
      not in it was refused. */
  lemma ChildrenAreSurvivors(r: Reply, k: nat, depth: nat, role: Role)
    returns (idx: seq<nat>)
    requires k <= |r.subs|
    ensures |idx| == |BuildChildren(r, k, depth, role)|
    ensures forall i :: 0 <= i < |idx| ==>
      idx[i] < k && BuildReply(r.subs[idx[i]], depth, role) == Some(BuildChildren(r, k, depth, role)[i])
    ensures forall i, j :: 0 <= i < j < |idx| ==> idx[i] < idx[j]
    ensures forall j :: 0 <= j < k && j !in idx ==> BuildReply(r.subs[j], depth, role).None?
  {
    var os := Outcomes(r, k, depth, role);
    var ts := BuildChildren(r, k, depth, role);
    ChildrenAreCompacted(r, k, depth, role);
    assert ts == Compact(os);
    idx := CompactedPositions(os);
    assert forall j :: 0 <= j < k ==> os[j] == BuildReply(r.subs[j], depth, role);
  }
}
