/** Which sections of a talk page `parse_talk_page` goes on to parse, and the
    title clean-up of line 178. */
module Sections {
  import opened Wrappers
  import opened Strings

  /** A `wtp.Section` as far as the filter looks at it: its title, `None` when
      the section has no heading, and its `plain_text()`. */
  datatype Section = Section(title: Option<string>, plain: string)

  /** A heading line as the pattern `==.*==\n` matches it: two `=`, any run of
      characters without a newline, two `=` and the newline. */
  predicate IsHeading(m: string) {
    && |m| >= 5
    && m[0] == '=' && m[1] == '='
    && m[|m| - 3] == '=' && m[|m| - 2] == '=' && m[|m| - 1] == '\n'
    && forall k :: 2 <= k < |m| - 3 ==> m[k] != '\n'
  }

  /** The lowest index at or after `j` that holds a newline, if any. */
  function NewlineFrom(s: string, j: nat): (r: Option<nat>)
    requires j <= |s|
    ensures r.Some? ==> j <= r.value < |s| && s[r.value] == '\n'
    ensures forall k :: j <= k < |s| && (r.None? || k < r.value) ==> s[k] != '\n'
    decreases |s| - j
  {
    if j == |s| then None
    else if s[j] == '\n' then Some(j)
    else NewlineFrom(s, j + 1)
  }

  /** The converse of `NewlineFrom`'s contract: the first newline at or after
      `j` is the one found. */
  lemma {:induction false} NewlineFinds(s: string, j: nat, n: nat)
    requires j <= n < |s| && s[n] == '\n'
    requires forall k :: j <= k < n ==> s[k] != '\n'
    ensures NewlineFrom(s, j) == Some(n)
    decreases n - j
  {
    if j < n {
      NewlineFinds(s, j + 1, n);
    }
  }

  /** The length of the match of `==.*==\n` at the start of `s`, if there is
      one. The run `.*` cannot cross a newline, so the closing `==\n` has to end
      at the first newline after the opening `==`. */
  function HeadingLength(s: string): (r: Option<nat>)
    ensures r.Some? ==> 5 <= r.value <= |s| && IsHeading(s[..r.value])
  {
    if |s| >= 2 && s[0] == '=' && s[1] == '=' then
      match NewlineFrom(s, 2)
      case Some(n) =>
        if n >= 4 && s[n - 2] == '=' && s[n - 1] == '=' then Some(n + 1) else None
      case None => None
    else None
  }

  /** The converse of `HeadingLength`'s contract: a heading line at the start
      of `s` is matched, whole. */
  lemma HeadingLengthFinds(s: string, e: nat)
    requires 5 <= e <= |s| && IsHeading(s[..e])
    ensures HeadingLength(s) == Some(e)
  {
    var m := s[..e];
    assert forall k :: 2 <= k < e - 3 ==> s[k] == m[k];
    NewlineFinds(s, 2, e - 1);
  }

  /** `re.sub(r"==.*==\n", '', s)`. The scan removes a match where one starts
      and goes on after it, and otherwise keeps the character and moves on by
      one; whether a match starts at a position depends only on the text from
      there on, so the scan is a recursion over what remains. */
  function RemoveHeadings(s: string): (r: string)
    ensures |r| <= |s|
  {
    if s == [] then []
    else match HeadingLength(s)
      case Some(n) => RemoveHeadings(s[n..])
      case None => [s[0]] + RemoveHeadings(s[1..])
  }

  /** A heading line at the very start of the text is removed, and the text
      after it is cleaned as if on its own. */
  lemma LeadingHeadingIsRemoved(h: string, rest: string)
    requires IsHeading(h)
    ensures RemoveHeadings(h + rest) == RemoveHeadings(rest)
  {
    var s := h + rest;
    assert s[..|h|] == h;
    HeadingLengthFinds(s, |h|);
    assert s[|h|..] == rest;
  }

  /** A text in which no heading line starts at any position is left as it is. */
  lemma {:induction false} NoHeadingIsKept(s: string)
    requires forall j :: 0 <= j < |s| ==> HeadingLength(s[j..]).None?
    ensures RemoveHeadings(s) == s
  {
    if s != [] {
      assert s[0..] == s;
      forall j | 0 <= j < |s| - 1
        ensures HeadingLength(s[1..][j..]).None?
      {
        assert s[1..][j..] == s[j + 1..];
      }
      NoHeadingIsKept(s[1..]);
      assert s == [s[0]] + s[1..];
    }
  }

  /** `string.ascii_lowercase`. */
  const AsciiLowercase: string := "abcdefghijklmnopqrstuvwxyz"

  /** The letters of `string.ascii_lowercase` come in code-point order. */
  lemma AsciiLowercaseInOrder()
    ensures |AsciiLowercase| == 26
    ensures forall j :: 0 <= j < 26 ==> AsciiLowercase[j] as int == 'a' as int + j
  {
  }

  /** `str.lower()` of one character, as far as the filter can tell it apart:
      ASCII capitals, the KELVIN SIGN (which lowercases to `k`) and the
      capital I with dot above (which lowercases to two characters); every
      other character lowercases to a character outside ASCII, or is kept. */
  function LowerChar(c: char): (r: string)
    ensures |r| >= 1
  {
    if 'A' <= c <= 'Z' then [(c as int + 32) as char]
    else if c == '\U{212A}' then "k"
    else if c == '\U{0130}' then "i\U{0307}"
    else [c]
  }

  /** `x in string.ascii_lowercase`: a substring test. */
  predicate InAsciiLowercase(x: string) {
    exists j :: 0 <= j <= |AsciiLowercase| && OccursAt(AsciiLowercase, x, j)
  }

  /** Line 144: the first character passes when, lowercased, it is one of the
      26 ASCII letters. */
  predicate FirstCharPasses(c: char) {
    InAsciiLowercase(LowerChar(c))
  }

  /** The first-character test admits exactly the ASCII letters of either case
      and the KELVIN SIGN. */
  lemma FirstCharPassesExactly(c: char)
    ensures FirstCharPasses(c) <==> ('a' <= c <= 'z' || 'A' <= c <= 'Z' || c == '\U{212A}')
  {
    var x := LowerChar(c);
    AsciiLowercaseInOrder();
    if 'a' <= c <= 'z' || 'A' <= c <= 'Z' || c == '\U{212A}' {
      var j := x[0] as int - 'a' as int;
      assert AsciiLowercase[j..j + 1] == x;
      assert OccursAt(AsciiLowercase, x, j);
    } else {
      var last := |x| - 1;
      assert !('a' <= x[last] <= 'z');
      forall j | 0 <= j <= |AsciiLowercase|
        ensures !OccursAt(AsciiLowercase, x, j)
      {
        if j + |x| <= |AsciiLowercase| {
          assert AsciiLowercase[j..j + |x|][last] == AsciiLowercase[j + last];
        }
      }
    }
  }

  /** Lines 138-144: a section is parsed further when its cleaned plain text is
      not empty, it has a non-empty title, and the first character of the
      cleaned text passes the letter test. */
  predicate Kept(sec: Section) {
    var p := RemoveHeadings(sec.plain);
    && p != []
    && sec.title.Some? && sec.title.value != []
    && FirstCharPasses(p[0])
  }

  /** A section is kept exactly when its text after the headings is not empty
      and opens with an ASCII letter or the KELVIN SIGN, and it has a title that
      is not empty. */
  lemma KeptExactly(sec: Section)
    ensures Kept(sec) <==>
      var p := RemoveHeadings(sec.plain);
      && p != [] && ('a' <= p[0] <= 'z' || 'A' <= p[0] <= 'Z' || p[0] == '\U{212A}')
      && sec.title.Some? && sec.title.value != []
  {
    var p := RemoveHeadings(sec.plain);
    if p != [] {
      FirstCharPassesExactly(p[0]);
    }
  }

  /** The sections, in order, that the loop over `parsed.sections` does not
      skip. */
  function Selected(ss: seq<Section>): (r: seq<Section>)
    ensures |r| <= |ss|
  {
    Filter(Kept, ss)
  }

  /** The loop of lines 137-144: the filter applied to every section, in order,
      as if each loop body completed. */
  method SelectSections(sections: seq<Section>) returns (kept: seq<Section>)
    ensures kept == Selected(sections)
  {
    kept := [];
    for i := 0 to |sections|
      invariant kept == Selected(sections[..i])
    {
      var section := sections[i];
      var plainText := RemoveHeadings(section.plain);
      assert sections[..i + 1][..i] == sections[..i];
      if plainText == [] {
        continue;
      }
      if section.title.None? || section.title.value == [] {
        continue;
      }
      if !FirstCharPasses(plainText[0]) {
        continue;
      }
      kept := kept + [section];
    }
    assert sections[..|sections|] == sections;
  }

  /** Exactly the sections that pass all three tests are selected. */
  lemma SelectedAreKept(ss: seq<Section>, x: Section)
    ensures x in Selected(ss) <==> x in ss && Kept(x)
  {
    FilterMembers(Kept, ss, x);
  }

  /** The filter works section by section: selecting from two runs of sections
      is selecting from each, in order. */
  lemma SelectedSplits(a: seq<Section>, b: seq<Section>)
    ensures Selected(a + b) == Selected(a) + Selected(b)
  {
    FilterSplits(Kept, a, b);
  }

  /** The characters `strip("= ")` removes. */
  const TitleChars: set<char> := {'=', ' '}

  /** Line 178: `section.title.strip("= ")`. */
  function CleanTitle(title: string): (r: string)
    ensures |r| <= |title|
    ensures r == [] || (r[0] !in TitleChars && r[|r| - 1] !in TitleChars)
  {
    Strip(title, TitleChars)
  }

  /** The title loses its leading and trailing `=` and space characters and
      nothing else: a title made of such characters, a middle part that
      neither starts nor ends with one, and such characters again, is cleaned
      to that middle part. */
  lemma CleanTitleKeepsMiddle(pre: string, mid: string, post: string)
    requires forall k :: 0 <= k < |pre| ==> pre[k] in TitleChars
    requires forall k :: 0 <= k < |post| ==> post[k] in TitleChars
    requires mid == [] || (mid[0] !in TitleChars && mid[|mid| - 1] !in TitleChars)
    ensures CleanTitle(pre + mid + post) == mid
  {
    if mid == [] {
      var whole := pre + mid + post;
      assert forall k :: 0 <= k < |whole| ==> whole[k] in TitleChars by {
        assert whole == pre + post;
      }
      LStripAll(whole, TitleChars);
    } else {
      assert pre + mid + post == pre + (mid + post);
      LStripSkips(pre, mid + post, TitleChars);
      RStripSkips(mid, post, TitleChars);
    }
  }

  /** Cleaning a clean title changes nothing. */
  lemma CleanTitleIdempotent(title: string)
    ensures CleanTitle(CleanTitle(title)) == CleanTitle(title)
  {
    var r := CleanTitle(title);
    assert r == [] + r + [];
    CleanTitleKeepsMiddle([], r, []);
  }
}
