/** Author extraction from a comment: `get_comment_username`, with the scan that
    `re.findall(r"(\[\[User talk:.*?]])", comment)` performs written out. */
module Username {
  import opened Wrappers
  import opened Strings

  /** The literal that opens every match; it is 12 characters long. */
  const LinkOpen: string := "[[User talk:"

  /** A `]]` starts at index `k` of `s`. */
  predicate ClosesAt(s: string, k: int) {
    0 <= k && k + 1 < |s| && s[k] == ']' && s[k + 1] == ']'
  }

  /** What one match of the pattern looks like: the opening literal, a run of
      characters without a newline and without `]]`, and the closing `]]`. */
  predicate IsLink(m: string) {
    && |m| >= |LinkOpen| + 2
    && StartsWith(m, LinkOpen)
    && m[|m| - 2] == ']' && m[|m| - 1] == ']'
    && (forall k :: |LinkOpen| <= k < |m| - 2 ==> m[k] != '\n')
    && (forall k :: |LinkOpen| <= k < |m| - 2 ==> !ClosesAt(m, k))
  }

  /** The end of the lazy `.*?]]` that resumes at index `j`: just after the first
      `]]` at or after `j`, provided no newline comes before it. */
  function CloseFrom(s: string, j: nat): (r: Option<nat>)
    requires j <= |s|
    ensures r.Some? ==> j + 2 <= r.value <= |s| && ClosesAt(s, r.value - 2)
    ensures r.Some? ==> forall k :: j <= k < r.value - 2 ==> s[k] != '\n' && !ClosesAt(s, k)
    decreases |s| - j
  {
    if j + 1 < |s| && s[j] == ']' && s[j + 1] == ']' then Some(j + 2)
    else if j == |s| || s[j] == '\n' then None
    else CloseFrom(s, j + 1)
  }

  /** The converse of `CloseFrom`'s contract: a `]]` preceded by no newline and
      no earlier `]]` is where the lazy match stops. */
  lemma {:induction false} CloseFromFinds(s: string, j: nat, e: nat)
    requires j + 2 <= e <= |s| && ClosesAt(s, e - 2)
    requires forall k :: j <= k < e - 2 ==> s[k] != '\n' && !ClosesAt(s, k)
    ensures CloseFrom(s, j) == Some(e)
    decreases e - j
  {
    if j < e - 2 {
      CloseFromFinds(s, j + 1, e);
    }
  }

  /** The end of the match that starts at index `i`, if one does. */
  function MatchAt(s: string, i: nat): (r: Option<nat>)
    requires i <= |s|
    ensures r.Some? ==> i + |LinkOpen| + 2 <= r.value <= |s| && IsLink(s[i..r.value])
  {
    if OccursAt(s, LinkOpen, i) then
      var e := CloseFrom(s, i + |LinkOpen|);
      if e.Some? then
        var m := s[i..e.value];
        assert m[..|LinkOpen|] == s[i..i + |LinkOpen|];
        assert forall k :: |LinkOpen| <= k < |m| - 2 ==> m[k] == s[i + k] && (ClosesAt(m, k) ==> ClosesAt(s, i + k));
        e
      else None
    else None
  }

  /** The non-overlapping matches, left to right, of a scan that resumes at `i`:
      a failed attempt moves on by one character, a match resumes after its end. */
  function FindAllFrom(s: string, i: nat): (r: seq<string>)
    requires i <= |s|
    ensures forall m :: m in r ==> IsLink(m)
    decreases |s| - i
  {
    if i == |s| then []
    else match MatchAt(s, i)
      case Some(e) => [s[i..e]] + FindAllFrom(s, e)
      case None => FindAllFrom(s, i + 1)
  }

  /** `re.findall` of the user-talk pattern over the whole comment. */
  function FindAll(s: string): (r: seq<string>)
    ensures forall m :: m in r ==> IsLink(m)
  {
    FindAllFrom(s, 0)
  }

  /** The converse of `MatchAt`'s contract: a link that starts at `i` and ends
      at `e` is the match found at `i`. */
  lemma MatchAtFinds(s: string, i: nat, e: nat)
    requires i <= e <= |s| && IsLink(s[i..e])
    ensures MatchAt(s, i) == Some(e)
  {
    var m := s[i..e];
    assert s[i..i + |LinkOpen|] == m[..|LinkOpen|];
    forall k | i + |LinkOpen| <= k < e - 2
      ensures s[k] != '\n' && !ClosesAt(s, k)
    {
      assert s[k] == m[k - i] && s[k + 1] == m[k - i + 1];
      assert !ClosesAt(m, k - i);
    }
    assert s[e - 2] == m[|m| - 2] && s[e - 1] == m[|m| - 1];
    CloseFromFinds(s, i + |LinkOpen|, e);
  }

  /** Positions where no match starts are passed over one by one: the scan
      from `i` is the scan from `p`. */
  lemma {:induction false} FindAllSkips(s: string, i: nat, p: nat)
    requires i <= p <= |s|
    requires forall j :: i <= j < p ==> MatchAt(s, j).None?
    ensures FindAllFrom(s, i) == FindAllFrom(s, p)
    decreases p - i
  {
    if i < p {
      FindAllSkips(s, i + 1, p);
    }
  }

  /** A comment whose only link is `s[i..e]`, with no match starting anywhere
      else, gives exactly that one match. */
  lemma SoleLinkIsFound(s: string, i: nat, e: nat)
    requires i <= e <= |s| && IsLink(s[i..e])
    requires forall j :: 0 <= j < i ==> MatchAt(s, j).None?
    requires forall j :: e <= j < |s| ==> MatchAt(s, j).None?
    ensures FindAll(s) == [s[i..e]]
  {
    FindAllSkips(s, 0, i);
    MatchAtFinds(s, i, e);
    FindAllSkips(s, e, |s|);
    assert FindAllFrom(s, i) == [s[i..e]] + FindAllFrom(s, e);
  }

  /** `r` is the name part of the match `m`: `m` starts with the opening
      literal and `r`, and `r`, which holds no `|` and no newline, runs up to
      the first `|` or else to the closing `]]`. */
  predicate NameIn(m: string, r: string) {
    && StartsWith(m, LinkOpen + r)
    && '|' !in r && '\n' !in r
    && |LinkOpen + r| <= |m| - 2
    && (m[|LinkOpen + r|] == '|' || |LinkOpen + r| == |m| - 2)
  }

  /** Only one string is the name part of a match: the text between the
      opening literal and the `|` or the closing `]]`. */
  lemma NameInIsUnique(m: string, name: string, rest: string, r: string)
    requires m == LinkOpen + name + rest
    requires '|' !in name
    requires rest == "]]" || (|rest| > 2 && rest[0] == '|')
    requires NameIn(m, r)
    ensures r == name
  {
    var n := |LinkOpen + r|;
    assert r == m[12..n] by { assert m[..n] == LinkOpen + r; }
    assert name == m[12..12 + |name|];
    assert forall k :: 12 <= k < 12 + |name| ==> m[k] == name[k - 12];
    assert m[12 + |name|] == rest[0];
    assert forall k :: 12 <= k < n ==> m[k] == r[k - 12];
  }

  /** `get_comment_username`: empty unless there is exactly one match; otherwise
      the part of the match after `User talk:` up to its first `|`, or up to its
      closing `]]` when it has none. */
  function GetCommentUsername(comment: string): (r: string)
    ensures |FindAll(comment)| != 1 ==> r == ""
    ensures |FindAll(comment)| == 1 ==> NameIn(FindAll(comment)[0], r)
  {
    var commenters := FindAll(comment);
    if |commenters| != 1 then ""
    else
      var commenter := commenters[0];
      assert IsLink(commenter);
      var lp := Find(commenter, "User talk:") + |"User talk:"|;
      FindUserTalk(commenter);
      var rp := Find(commenter, "|");
      var rp := if rp == -1 then RFind(commenter, "]]") else rp;
      FindBar(commenter);
      var r := Slice(commenter, lp, rp);
      assert r == commenter[12..rp];
      assert LinkOpen + r == commenter[..rp];
      r
  }

  /** In a match, `User talk:` is found at index 2, just after the brackets. */
  lemma FindUserTalk(m: string)
    requires IsLink(m)
    ensures Find(m, "User talk:") == 2
  {
    assert OccursAt(m, "User talk:", 2) by {
      assert m[..|LinkOpen|] == LinkOpen;
      assert m[2..12] == LinkOpen[2..12];
    }
    assert m[0..10][0] == m[0] == '[';
    assert m[1..11][0] == m[1] == '[';
  }

  /** In a match, the first `|` (if any) lies inside the name part, and the last
      `]]` is the closing one. */
  lemma FindBar(m: string)
    requires IsLink(m)
    ensures var rp := Find(m, "|");
      rp == -1 || (|LinkOpen| <= rp < |m| - 2 && m[rp] == '|' && '|' !in m[|LinkOpen|..rp])
    ensures Find(m, "|") == -1 ==> RFind(m, "]]") == |m| - 2 && '|' !in m[|LinkOpen|..|m| - 2]
  {
    var rp := Find(m, "|");
    forall k | 0 <= k < |LinkOpen|
      ensures m[k] != '|'
    {
      assert m[k] == m[..|LinkOpen|][k];
    }
    if rp != -1 {
      assert m[rp..rp + 1] == "|";
      assert m[rp] == '|';
      forall k | |LinkOpen| <= k < rp
        ensures m[k] != '|'
      {
        assert !OccursAt(m, "|", k);
        assert m[k..k + 1] == [m[k]];
      }
    } else {
      assert OccursAt(m, "]]", |m| - 2) by { assert m[|m| - 2..] == "]]"; }
      forall k | |LinkOpen| <= k < |m| - 2
        ensures m[k] != '|'
      {
        assert !OccursAt(m, "|", k);
        assert m[k..k + 1] == [m[k]];
      }
    }
  }

  /** The converse of `GetCommentUsername`'s contract: when the comment holds
      exactly one match, made of the opening literal, a name without `|`, and
      either an alias part starting with `|` or the closing `]]`, the result is
      that name. */
  lemma {:induction false} UsernameIsName(comment: string, name: string, rest: string)
    requires FindAll(comment) == [LinkOpen + name + rest]
    requires '|' !in name
    requires rest == "]]" || (|rest| > 2 && rest[0] == '|')
    ensures GetCommentUsername(comment) == name
  {
    var m := LinkOpen + name + rest;
    assert FindAll(comment)[0] == m;
    NameInIsUnique(m, name, rest, GetCommentUsername(comment));
  }

  /** The example of a signed comment: the alias after `|` is not part of the name. */
  lemma AliasIsCut()
    ensures GetCommentUsername("[[User talk:Alice|A.]]") == "Alice"
  {
    var s := "[[User talk:Alice|A.]]";
    AliasLinkIsFound(s);
    assert s == LinkOpen + "Alice" + "|A.]]";
    UsernameIsName(s, "Alice", "|A.]]");
  }

  /** The whole example comment is its one match. */
  lemma AliasLinkIsFound(s: string)
    requires s == "[[User talk:Alice|A.]]"
    ensures FindAll(s) == [s]
  {
    assert OccursAt(s, LinkOpen, 0) by { assert s[0..12] == LinkOpen; }
    forall k | 12 <= k < 20
      ensures s[k] != '\n' && !ClosesAt(s, k)
    {
      assert s[k] != ']' || k == 20;
    }
    CloseFromFinds(s, |LinkOpen|, |s|);
    assert MatchAt(s, 0) == Some(|s|);
    assert s[0..|s|] == s;
    assert FindAllFrom(s, |s|) == [];
  }

  /** A match that starts before a link cannot run past the link's closing
      `]]`: its lazy body stops at the first `]]` it reaches. */
  lemma MatchEndsByLink(s: string, p: nat, i: nat, e: nat)
    requires p < i <= e <= |s| && IsLink(s[i..e]) && MatchAt(s, p).Some?
    ensures MatchAt(s, p).value <= e
  {
    var l := s[i..e];
    assert s[e - 2] == l[|l| - 2] && s[e - 1] == l[|l| - 1];
  }

  /** A scan that resumes at or before the start of a link collects at least
      one match before it resumes again, at the latest at the link's end. */
  lemma {:induction false} ScanMeetsLink(s: string, j: nat, i: nat, e: nat) returns (k: nat)
    requires j <= i <= e <= |s| && IsLink(s[i..e])
    ensures j < k <= e && |FindAllFrom(s, j)| >= 1 + |FindAllFrom(s, k)|
    decreases i - j
  {
    if j == i {
      MatchAtFinds(s, i, e);
      k := e;
    } else {
      match MatchAt(s, j)
      case Some(e') =>
        MatchEndsByLink(s, j, i, e);
        k := e';
      case None =>
        k := ScanMeetsLink(s, j + 1, i, e);
    }
  }

  /** Two signatures make the attribution ambiguous: a comment holding two
      user-talk links, one after the other, has at least two matches, and no
      name is returned. */
  lemma TwoLinksGiveNoName(s: string, i1: nat, e1: nat, i2: nat, e2: nat)
    requires i1 <= e1 <= i2 <= e2 <= |s| && IsLink(s[i1..e1]) && IsLink(s[i2..e2])
    ensures |FindAll(s)| >= 2 && GetCommentUsername(s) == ""
  {
    var k := ScanMeetsLink(s, 0, i1, e1);
    var k' := ScanMeetsLink(s, k, i2, e2);
  }

  /** An instance: two signatures side by side. */
  lemma TwoSignaturesGiveNoName()
    ensures GetCommentUsername("[[User talk:A]] [[User talk:B]]") == ""
  {
    var s := "[[User talk:A]] [[User talk:B]]";
    SignaturesAreLinks(s);
    TwoLinksGiveNoName(s, 0, 15, 16, |s|);
  }

  /** Both signatures of that comment are links. */
  lemma SignaturesAreLinks(s: string)
    requires s == "[[User talk:A]] [[User talk:B]]"
    ensures IsLink(s[0..15]) && IsLink(s[16..31])
  {
    assert OccursAt(s, LinkOpen, 0) by { assert s[0..12] == LinkOpen; }
    assert OccursAt(s, LinkOpen, 16) by { assert s[16..28] == LinkOpen; }
    CloseFromFinds(s, 12, 15);
    CloseFromFinds(s, 28, |s|);
    assert MatchAt(s, 0) == Some(15);
    assert MatchAt(s, 16) == Some(|s|);
  }
}
