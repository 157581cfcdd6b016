# Wikipedia talk-page conversation parser, modelled in Dafny

This project models the core of `openassistant/datasets/wikipedia_talk_pages/prepare.py`: the script that turns the discussion sections of Wikipedia talk pages into conversation trees whose messages alternate between the roles *prompter* and *assistant*. The model covers:

- **Author extraction** (`get_comment_username`, module `Username`). The scan `re.findall(r"(\[\[User talk:.*?]])", …)` is written out: the lazy match stops at the first `]]` and does not cross a newline. The slice between `User talk:` and the first `|` (or the closing `]]`) is modelled with Python's `find`, `rfind` and slicing rules (module `Strings`).
- **Date extraction** (`get_comment_timestamp`, module `Timestamp`). What the regex search of lines 77-79 finds is an input. `datetime.strptime(…, '%H:%M, %d %B %Y')` and its `%b` fallback are written out:
  - the text is read field by field, with its whitespace runs and the check that no data remains;
  - month names are looked up without regard to ASCII case;
  - the `datetime` constructor refuses a year outside 1-9999 and a day past the end of its month.
- **Reply-tree construction** (`parse_replies`, modules `Replies` and `Conversation`).
  - A wiki list is a value `Reply(str, subs, plain, unmarked, found)`. It holds the list's wikitext, its sub-lists and its plain text. It also holds what two library calls give on it: `unmarked` is `wtp.remove_markup` of the text before the first sub-list, and `found` is what the date search finds in the text the readers look at.
  - `ReadComment` reads text, author and date off a reply with the model's own `GetCommentUsername` and `GetCommentTimestamp`.
  - `BuildReply` is the tree of values that one call hangs below its parent, defined by recursion. It applies the depth test of lines 92-93; `BuildNode` covers lines 95-130.
  - `ParseReplies` is the imperative recursion over `Node` objects. It appends to `parent.children` in place and is proved to append exactly `BuildReply`'s tree.
  - Lemmas about `BuildReply` and `BuildChildren` prove four things:
    - roles alternate;
    - every message has an author and a valid date;
    - a refused reply takes its whole sub-structure with it;
    - the children are the surviving sub-lists, in order.
- **The printer** `ConversationTree.__repr__` (module `Printer`). The nested `fn` with its `nonlocal` accumulator is the recursive method `AppendNode`. The output is proved to be the pre-order sequence of lines `':' * depth + " " + text`.
- **The section filter and title clean-up** of `parse_talk_page` (module `Sections`).
  - `re.sub(r"==.*==\n", '', …)` is written out.
  - The filter's three skip rules are modelled, including the `lower()` applied before the `string.ascii_lowercase` membership test.
  - The title clean-up is `strip("= ")`.

Four points of `prepare.py` that the model follows as written:

- A reply is dropped when its author is missing, and also when its date is missing (line 114).
- A reply with empty text is never skipped: nothing in `parse_replies` tests the text.
- The section filter lowercases the first character before testing it (line 144). ASCII capitals and the KELVIN SIGN therefore pass. The emptiness test is applied to the text after heading lines are removed (lines 139-140); whitespace is left in place.
- When a reply has sub-lists, its text is `s[:s.find(sub)]` (line 107). If the sub-list's wikitext did not occur, `find` would give -1 and the slice would drop only the last character. `TextBefore` models that case as written instead of excluding it.

## Model

| member | source | states |
|---|---|---|
| Strings.Repeat | openassistant/datasets/wikipedia_talk_pages/prepare.py:92 | `':' * n` has length `n` and consists of colons only |
| Strings.FindFrom | openassistant/datasets/wikipedia_talk_pages/prepare.py:68-69 | the result is -1 when `sub` occurs nowhere at or after `i`, otherwise the lowest such occurrence |
| Strings.Find | openassistant/datasets/wikipedia_talk_pages/prepare.py:107 | `str.find`: -1 exactly when `sub` never occurs; otherwise an occurrence with none before it |
| Strings.RFindBelow | openassistant/datasets/wikipedia_talk_pages/prepare.py:71 | the highest occurrence below `k`, or -1 when there is none |
| Strings.RFind | openassistant/datasets/wikipedia_talk_pages/prepare.py:71 | `str.rfind`: -1 exactly when `sub` never occurs; otherwise an occurrence with none after it |
| Strings.SliceBound | openassistant/datasets/wikipedia_talk_pages/prepare.py:72 | a slice bound in range is kept; a negative bound not below `-n` counts from the end; a bound above `n` gives `n` and one below `-n` gives 0 |
| Strings.Slice | openassistant/datasets/wikipedia_talk_pages/prepare.py:107 | a Python slice is never longer than the string |
| Strings.LStrip | openassistant/datasets/wikipedia_talk_pages/prepare.py:112 | the result is never longer and does not start with a character of the set |
| Strings.LStripDrops | openassistant/datasets/wikipedia_talk_pages/prepare.py:112 | the result is a suffix of the text, and every character removed is in the set |
| Strings.LStripSkips | openassistant/datasets/wikipedia_talk_pages/prepare.py:112 | conversely, a prefix of characters of the set followed by a text that does not start with one is removed, and only it |
| Strings.LStripAll | openassistant/datasets/wikipedia_talk_pages/prepare.py:178 | a text made only of characters of the set is stripped to nothing |
| Strings.RStrip | openassistant/datasets/wikipedia_talk_pages/prepare.py:178 | the result is a prefix; every removed character is in the set; the result does not end with one |
| Strings.RStripSkips | openassistant/datasets/wikipedia_talk_pages/prepare.py:178 | conversely, a suffix of characters of the set after a text that does not end with one is removed, and only it |
| Strings.Strip | openassistant/datasets/wikipedia_talk_pages/prepare.py:178 | `strip` never lengthens the text, and the result neither starts nor ends with a character of the set; the value at line 178 is pinned down by `Sections.CleanTitleKeepsMiddle` |
| Strings.AsciiLower | openassistant/datasets/wikipedia_talk_pages/prepare.py:82 | the lowered character is an ASCII lower-case letter exactly when the input is an ASCII letter of either case |
| Strings.AsciiLowerAll | openassistant/datasets/wikipedia_talk_pages/prepare.py:82 | lowering keeps the length and lowers every character |
| Username.CloseFrom | openassistant/datasets/wikipedia_talk_pages/prepare.py:63 | the lazy `.*?]]` ends just after a `]]`, with no newline and no earlier `]]` before it |
| Username.CloseFromFinds | openassistant/datasets/wikipedia_talk_pages/prepare.py:63 | conversely, the first `]]` reached without a newline is where the lazy match stops |
| Username.MatchAt | openassistant/datasets/wikipedia_talk_pages/prepare.py:63 | a match found at `i` is a well-formed `[[User talk:…]]` link inside the comment (the converse is `MatchAtFinds`) |
| Username.FindAllFrom | openassistant/datasets/wikipedia_talk_pages/prepare.py:64 | every string the scan collects is a well-formed link (that it keeps every non-overlapping match is `FindAllSkips` and `SoleLinkIsFound`) |
| Username.FindAll | openassistant/datasets/wikipedia_talk_pages/prepare.py:64 | `findall` returns only well-formed links; a sole link is returned (see `SoleLinkIsFound`) |
| Username.MatchAtFinds | openassistant/datasets/wikipedia_talk_pages/prepare.py:63 | conversely, a well-formed link starting at `i` and ending at `e` is the match found at `i`, ending at `e` |
| Username.FindAllSkips | openassistant/datasets/wikipedia_talk_pages/prepare.py:64 | positions where no match starts add nothing to the result of the scan |
| Username.SoleLinkIsFound | openassistant/datasets/wikipedia_talk_pages/prepare.py:63-64 | a comment with one well-formed link and no match starting anywhere else gives exactly that link |
| Username.GetCommentUsername | openassistant/datasets/wikipedia_talk_pages/prepare.py:62-73 | `''` unless there is exactly one match; otherwise the match is `[[User talk:` + name + (`\|…` or `]]`), and the name has no `\|` and no newline |
| Username.NameInIsUnique | openassistant/datasets/wikipedia_talk_pages/prepare.py:68-72 | only one string is the name part of a match: the text between `User talk:` and the `\|` or the closing `]]` |
| Username.FindUserTalk | openassistant/datasets/wikipedia_talk_pages/prepare.py:68 | in a match, `User talk:` is found at index 2, so `lp` is 12 |
| Username.FindBar | openassistant/datasets/wikipedia_talk_pages/prepare.py:69-71 | a `\|` in a match lies inside the name part; without one, `rfind("]]")` is the closing bracket |
| Username.UsernameIsName | openassistant/datasets/wikipedia_talk_pages/prepare.py:62-73 | conversely, a sole match made of `[[User talk:`, a name without `\|`, and an alias part or `]]` yields exactly that name |
| Username.AliasIsCut | openassistant/datasets/wikipedia_talk_pages/prepare.py:62-73 | `[[User talk:Alice\|A.]]` gives `Alice` |
| Username.AliasLinkIsFound | openassistant/datasets/wikipedia_talk_pages/prepare.py:63-64 | that comment is its own single match |
| Username.MatchEndsByLink | openassistant/datasets/wikipedia_talk_pages/prepare.py:63 | a match that starts before a link ends at the latest at that link's closing `]]` |
| Username.ScanMeetsLink | openassistant/datasets/wikipedia_talk_pages/prepare.py:64 | a scan that resumes at or before a link collects a match and resumes again no later than the link's end |
| Username.TwoLinksGiveNoName | openassistant/datasets/wikipedia_talk_pages/prepare.py:63-66 | a comment holding two user-talk links one after the other has at least two matches, so it gives `''` |
| Username.TwoSignaturesGiveNoName | openassistant/datasets/wikipedia_talk_pages/prepare.py:65-66 | the comment `[[User talk:A]] [[User talk:B]]` gives `''` |
| Username.SignaturesAreLinks | openassistant/datasets/wikipedia_talk_pages/prepare.py:63 | both signatures of that comment are user-talk links |
| Timestamp.DaysInMonth | openassistant/datasets/wikipedia_talk_pages/prepare.py:82 | every month has between 28 and 31 days |
| Timestamp.LeapDayIsValid | openassistant/datasets/wikipedia_talk_pages/prepare.py:82 | `datetime` accepts February 29 exactly in leap years between 1 and 9999, the checks that `ValidDateTime` makes |
| Timestamp.SpanFrom | openassistant/datasets/wikipedia_talk_pages/prepare.py:82 | the maximal run of one character class from `i` |
| Timestamp.SpanFromStops | openassistant/datasets/wikipedia_talk_pages/prepare.py:82 | conversely, a run that stops before a character outside the class is the span |
| Timestamp.MonthFrom | openassistant/datasets/wikipedia_talk_pages/prepare.py:82 | the first table position at or after `k` holding the name, or none when no later position holds it |
| Timestamp.MonthNumber | openassistant/datasets/wikipedia_talk_pages/prepare.py:82-85 | the month number is the position of the lowered token in the table; there is none exactly when the token is not a name in it |
| Timestamp.Number | openassistant/datasets/wikipedia_talk_pages/prepare.py:82 | a one- or two-digit field within its range: the digits are the whole run of digits at `i`, the value is theirs, and the position after them is returned |
| Timestamp.Step | openassistant/datasets/wikipedia_talk_pages/prepare.py:82 | every directive the scan accepts consumes at least one character |
| Timestamp.ScanEndsWithYear | openassistant/datasets/wikipedia_talk_pages/prepare.py:82 | any text the layout accepts ends with four digits |
| Timestamp.Convert | openassistant/datasets/wikipedia_talk_pages/prepare.py:82 | a converted date is valid, its month is the table position of the month name, and the other fields are those read |
| Timestamp.ConvertAccepts | openassistant/datasets/wikipedia_talk_pages/prepare.py:82 | conversely, fields with a known month name, a valid year and a day within the month convert to that date |
| Timestamp.ParseSignatureDate | openassistant/datasets/wikipedia_talk_pages/prepare.py:82-85 | `strptime` with either layout yields only valid dates (what they hold, and the layout of the text, is `SignatureDateLayout`) |
| Timestamp.ParseFullMonth | openassistant/datasets/wikipedia_talk_pages/prepare.py:82 | a date accepted with `%B` names its month in full: the lowered month field is the full name of that month |
| Timestamp.ParseAbbrMonth | openassistant/datasets/wikipedia_talk_pages/prepare.py:85 | a date accepted with `%b` names its month by its abbreviation: the lowered month field is the abbreviation of that month |
| Timestamp.SignatureDateLayout | openassistant/datasets/wikipedia_talk_pages/prepare.py:82-85 | conversely, an accepted date comes from a text laid out as `H:M, d month Y`, with hour, minute, day and year the numbers of its parts and the month the table position of the lowered month name |
| Timestamp.TokenizeAccepts | openassistant/datasets/wikipedia_talk_pages/prepare.py:82 | conversely, a text laid out as `H:M, d month Y` is read with exactly the fields of its parts |
| Timestamp.TokenizeInverts | openassistant/datasets/wikipedia_talk_pages/prepare.py:82 | conversely, every text accepted by `Tokenize` (the layout read directive by directive with `Scan`) is laid out as `H:M, d month Y`, and its fields are those of its parts |
| Timestamp.RestInverts | openassistant/datasets/wikipedia_talk_pages/prepare.py:82 | after the comma, an accepted text is whitespace, a day of one or two digits, whitespace, a month word, whitespace and four closing digits |
| Timestamp.RestAccepts | openassistant/datasets/wikipedia_talk_pages/prepare.py:82 | the part after the comma is read as day, month name and year |
| Timestamp.DayAccepts | openassistant/datasets/wikipedia_talk_pages/prepare.py:82 | whitespace, a day and whitespace are read up to the month name |
| Timestamp.MonthYearAccepts | openassistant/datasets/wikipedia_talk_pages/prepare.py:82 | the month name, whitespace and the closing year are read to the end |
| Timestamp.NumberAt | openassistant/datasets/wikipedia_talk_pages/prepare.py:82 | a digit run of length 1 or 2 with a value in range is the number read |
| Timestamp.YearAt | openassistant/datasets/wikipedia_talk_pages/prepare.py:82 | four digits that end the text are read as `%Y` |
| Timestamp.BlankAt | openassistant/datasets/wikipedia_talk_pages/prepare.py:82 | a whitespace run before a non-space character is read whole |
| Timestamp.TwoDigitYearRejected | openassistant/datasets/wikipedia_talk_pages/prepare.py:78-85 | a text whose third-to-last character is not a digit, as when the search ends on a two-digit year after a non-digit, is refused by both layouts |
| Timestamp.GetCommentTimestamp | openassistant/datasets/wikipedia_talk_pages/prepare.py:76-88 | `None` when the search found nothing; otherwise a date exactly when a layout accepts the text found, the full-month result when that one does, the abbreviated result when that one does; every date is valid |
| Timestamp.OnlyMayIsShared | openassistant/datasets/wikipedia_talk_pages/prepare.py:82-85 | only `may` is both a full and an abbreviated month name |
| Timestamp.MayIsFifth | openassistant/datasets/wikipedia_talk_pages/prepare.py:82-85 | `may` is month 5 in both tables |
| Timestamp.FormatsAgree | openassistant/datasets/wikipedia_talk_pages/prepare.py:81-87 | when both layouts accept a text they give the same date, so the fallback order does not matter |
| Timestamp.SignatureIsParsed | openassistant/datasets/wikipedia_talk_pages/prepare.py:82 | the signature date `12:34, 5 May 2001` is read by the `%B` layout as 12:34 on 5 May 2001 |
| Timestamp.SampleIsTokenized | openassistant/datasets/wikipedia_talk_pages/prepare.py:82 | the layout reads hour 12, minute 34, day 5, month `May` and year 2001 off that text |
| Timestamp.SampleHasLayout | openassistant/datasets/wikipedia_talk_pages/prepare.py:82 | that text has the layout `H:M, d month Y`, with parts `12`, `34`, `5`, `May` and `2001` |
| Timestamp.MayIsNamed | openassistant/datasets/wikipedia_talk_pages/prepare.py:82 | those fields convert to 5 May 2001, 12:34, with `May` found as the fifth full month name |
| Replies.Flip | openassistant/datasets/wikipedia_talk_pages/prepare.py:95-98 | a reply's role differs from its parent's |
| Replies.TextBefore | openassistant/datasets/wikipedia_talk_pages/prepare.py:107 | `s[:s.find(sub)]` is the text before the first occurrence of `sub`; when `sub` is absent it is `s` minus its last character |
| Replies.ReadComment | openassistant/datasets/wikipedia_talk_pages/prepare.py:100-112 | without sub-lists the author is read off the whole wikitext, with sub-lists off the text before the first sub-list; the date is `get_comment_timestamp` of what the search found, and is valid |
| Replies.CommentTextIsStripped | openassistant/datasets/wikipedia_talk_pages/prepare.py:100-112 | the text read is the plain text, or the unmarked head, minus a leading run of colons and spaces, and no longer starts with either |
| Replies.LStripIdempotent | openassistant/datasets/wikipedia_talk_pages/prepare.py:112-118 | the second `lstrip(": ")` changes nothing |
| Replies.BuildReply | openassistant/datasets/wikipedia_talk_pages/prepare.py:91-93 | nothing is appended when the wikitext lacks `depth` leading colons; an appended node answers with the other role; `ReplyIsKeptExactly` states when a node is appended and what it holds |
| Replies.BuildNode | openassistant/datasets/wikipedia_talk_pages/prepare.py:95-130 | a reply past the depth test that is kept becomes a node that answers its parent with the other role; `ReplyIsKeptExactly` states that it is kept exactly when it is signed and dated, with its stripped text and metadata |
| Replies.ReplyIsKeptExactly | openassistant/datasets/wikipedia_talk_pages/prepare.py:92-127 | a reply is appended exactly when it starts with `depth` colons, names an author and carries a date that parses; the appended node holds the text with leading `:` and spaces stripped, and that author and date as its metadata |
| Replies.ReplyIsWellFormed | openassistant/datasets/wikipedia_talk_pages/prepare.py:95-130 | every built tree alternates roles along every path, names every author and carries only valid dates |
| Replies.ChildrenAreWellFormed | openassistant/datasets/wikipedia_talk_pages/prepare.py:129-130 | every child the loop builds answers with the other role and is well formed |
| Replies.AppendKeepsWellFormed | openassistant/datasets/wikipedia_talk_pages/prepare.py:127 | appending a well-formed tree of the right role to such trees keeps them all well formed and of that role |
| Replies.BuildChildren | openassistant/datasets/wikipedia_talk_pages/prepare.py:129-130 | the loop appends at most one child per sub-list |
| Replies.Outcomes | openassistant/datasets/wikipedia_talk_pages/prepare.py:129-130 | one outcome per sub-list |
| Replies.ChildrenAreCompacted | openassistant/datasets/wikipedia_talk_pages/prepare.py:127-130 | the children are the present outcomes, in order |
| Replies.ChildrenAreSurvivors | openassistant/datasets/wikipedia_talk_pages/prepare.py:127-130 | the children are the trees of the surviving sub-lists at increasing positions, and every other sub-list was refused |
| Conversation.Node.constructor | openassistant/datasets/wikipedia_talk_pages/prepare.py:117-125 | a new valid node without children |
| Conversation.ParseReplies | openassistant/datasets/wikipedia_talk_pages/prepare.py:91-130 | the parent stays valid, gains exactly `BuildReply`'s tree at the end of its children, and keeps its earlier children; the nodes created are new |
| Conversation.ParseComment | openassistant/datasets/wikipedia_talk_pages/prepare.py:95-130 | once the depth test has passed, the parent stays valid and gains exactly `BuildNode`'s tree at the end of its children; the nodes created are new |
| Conversation.NewChild | openassistant/datasets/wikipedia_talk_pages/prepare.py:117-130 | the node for a kept reply, with the nodes of its sub-lists below it, is appended last to the parent, which stays valid; the nodes created are new |
| Conversation.Append | openassistant/datasets/wikipedia_talk_pages/prepare.py:127 | `parent.children.append(node)`: the node is last, nothing else of the parent changes, and the parent stays valid |
| Conversation.ParseSubReplies | openassistant/datasets/wikipedia_talk_pages/prepare.py:129-130 | after the loop, the new node's children are `BuildChildren` of all its sub-lists |
| Conversation.ParseNth | openassistant/datasets/wikipedia_talk_pages/prepare.py:129-130 | one turn of the loop appends to the node what `BuildChildren` adds for the next sub-list, and keeps it valid |
| Printer.Line | openassistant/datasets/wikipedia_talk_pages/prepare.py:54 | a line is its depth in colons, a space and the text (what each position holds is `LineLayout`) |
| Printer.LineLayout | openassistant/datasets/wikipedia_talk_pages/prepare.py:54 | a line is `depth` colons, then a space, then the text, and nothing else |
| Printer.FormatOpensWithRoot | openassistant/datasets/wikipedia_talk_pages/prepare.py:54 | the printout of a node opens with its own line at its depth |
| Printer.FormatChildrenOpensWithFirst | openassistant/datasets/wikipedia_talk_pages/prepare.py:55-56 | the children are printed starting with the first child, one level deeper |
| Printer.AppendNode | openassistant/datasets/wikipedia_talk_pages/prepare.py:52-56 | `fn(node, depth)` appends the node's printout to the accumulator |
| Printer.ConversationTree.constructor | openassistant/datasets/wikipedia_talk_pages/prepare.py:45-47 | a tree with the given root and metadata |
| Printer.ConversationTree.Repr | openassistant/datasets/wikipedia_talk_pages/prepare.py:49-59 | `__repr__` is the printout of the root at depth 0 |
| Printer.PreOrder | openassistant/datasets/wikipedia_talk_pages/prepare.py:52-56 | the pre-order sequence of lines starts with the node's own line at its depth |
| Printer.JoinAppend | openassistant/datasets/wikipedia_talk_pages/prepare.py:54 | joining lines distributes over concatenation |
| Printer.FormatIsPreOrder | openassistant/datasets/wikipedia_talk_pages/prepare.py:49-59 | the printout is the pre-order concatenation of `':' * depth + " " + text`, each child one level deeper |
| Printer.FormatChildrenIsPreOrder | openassistant/datasets/wikipedia_talk_pages/prepare.py:55-56 | the loop over the children prints their pre-order sequences in order |
| Sections.NewlineFrom | openassistant/datasets/wikipedia_talk_pages/prepare.py:139 | the first newline at or after `j`, or none |
| Sections.NewlineFinds | openassistant/datasets/wikipedia_talk_pages/prepare.py:139 | conversely, the first newline is where the search stops |
| Sections.HeadingLength | openassistant/datasets/wikipedia_talk_pages/prepare.py:139 | a match of `==.*==\n` at the start of the text is a heading line inside the text |
| Sections.HeadingLengthFinds | openassistant/datasets/wikipedia_talk_pages/prepare.py:139 | conversely, a heading line at the start of the text is matched there, whole |
| Sections.RemoveHeadings | openassistant/datasets/wikipedia_talk_pages/prepare.py:139 | the substitution never makes the text longer |
| Sections.LeadingHeadingIsRemoved | openassistant/datasets/wikipedia_talk_pages/prepare.py:139 | a heading line at the start is removed, and the rest is cleaned on its own |
| Sections.NoHeadingIsKept | openassistant/datasets/wikipedia_talk_pages/prepare.py:139 | a text where no heading starts is left unchanged |
| Sections.AsciiLowercaseInOrder | openassistant/datasets/wikipedia_talk_pages/prepare.py:144 | `string.ascii_lowercase` is the 26 letters in code-point order |
| Sections.LowerChar | openassistant/datasets/wikipedia_talk_pages/prepare.py:144 | lowering a character never gives the empty string |
| Sections.FirstCharPassesExactly | openassistant/datasets/wikipedia_talk_pages/prepare.py:144 | the first-character test passes exactly for ASCII letters of either case and the KELVIN SIGN |
| Sections.KeptExactly | openassistant/datasets/wikipedia_talk_pages/prepare.py:138-144 | a section is kept exactly when its text after headings is not empty and opens with an ASCII letter or the KELVIN SIGN, and its title is present and not empty |
| Sections.Selected | openassistant/datasets/wikipedia_talk_pages/prepare.py:137-144 | no more sections are selected than there are: the filter applied to every section, as if each loop body completed |
| Sections.SelectSections | openassistant/datasets/wikipedia_talk_pages/prepare.py:137-144 | the loop with its three `continue`s, when every body completes, lets through exactly `Selected` of the sections |
| Sections.SelectedAreKept | openassistant/datasets/wikipedia_talk_pages/prepare.py:137-144 | a section is selected exactly when it occurs and passes the three tests |
| Sections.SelectedSplits | openassistant/datasets/wikipedia_talk_pages/prepare.py:137-144 | sections are filtered one by one and keep their order |
| Sections.CleanTitle | openassistant/datasets/wikipedia_talk_pages/prepare.py:178 | the clean title is never longer than the title and neither starts nor ends with `=` or a space |
| Sections.CleanTitleKeepsMiddle | openassistant/datasets/wikipedia_talk_pages/prepare.py:178 | `=` and space characters are removed at the two ends and nowhere else: a middle part that neither starts nor ends with one is kept whole |
| Sections.CleanTitleIdempotent | openassistant/datasets/wikipedia_talk_pages/prepare.py:178 | cleaning a clean title changes nothing |

## Left out

- `main` and `process_link` (lines 197-232) are left out: the HTTP fetch, HTML scraping, download, BZ2 decompression and XML iteration are I/O.
- `parse_page` (lines 183-194) is left out: it is positional XML traversal with a catch-all `except`. It parses a page only when the page's `ns` child has the text `'1'`.
- The XML access at line 134 and wikitextparser itself (`parse`, `sections`, `get_lists`, `sublists`, `plain_text`, `string`) are left out. A section is the value `Section(title, plain)` and a wiki list the value `Reply(str, subs, plain, unmarked, found)`, with those library results as fields.
- `wtp.remove_markup` (line 110) is not modelled: its result on the text before the first sub-list is the field `unmarked` of the reply.
- Timestamp.GetCommentTimestamp: the regex search of lines 77-79 is not modelled. Its outcome is the parameter `found`, the field `found` of the reply, and the contract speaks of the text it matched, not of the regex.
- Timestamp.Number: reads ASCII digits only. Python's `\d` and `int` also accept other Unicode decimal digits.
- Timestamp.Step: the `%B`/`%b` alternatives are read as the maximal run of non-space characters, then looked up. Every month name is a single word followed by whitespace in the layout, so this matches the same texts.
- Timestamp.Convert: the seconds, microseconds and time zone of the `datetime` are not modelled. They are always zero or absent here.
- Sections.LowerChar: models `str.lower()` only where it decides the test. ASCII capitals, the KELVIN SIGN and the capital I with dot above are exact. Every other character is left as itself; none of them lowercases into an ASCII letter.
- Sections.SelectSections: in `parse_talk_page` every section that passes the filter raises an exception later in the loop body, at lines 161-170 when its date is missing and otherwise at lines 175-180 because `topic` is missing. The `except` at line 192 catches it and ends the whole page, so only the first kept section gets past line 146. The model states the filter as if every body completed, over all sections.
- Timestamp.Step: states only that each accepted directive consumes input. What each directive reads is stated by `Number` and by the lemmas `NumberAt`, `YearAt` and `BlankAt`, and the converse by `TokenizeInverts`.
- Conversation.NewChild: the new node is appended to the parent after its sub-replies are parsed, not before as at line 127. Nothing in the recursion reaches the parent, so the final parent and tree are the same. The order of the updates on the heap is what the model does not capture.
- Conversation.ParseReplies: the default `depth = 1` of line 91 is not modelled; callers pass the depth.
- The success path at the end of `parse_talk_page` (lines 146-179) is left out. It builds the root node, runs `parse_replies` for each top-level list and creates the `ConversationTree`. `ConversationTreeMetaData` is built without its required `topic` field, so pydantic raises a validation error for the first kept section, and the page-level `except` at line 192 swallows it. A root without a date fails validation even earlier, at lines 161-170, because its `timestamp` field must be a `datetime`. The model stops at the section filter and the title clean-up of line 178.
- Pydantic validation and `logger` calls are left out: logging has no effect on the result, and validation of the node models never fails on what `parse_replies` builds.
