# Markdown converter core in Dafny

This project models three small pieces of a Markdown-to-HTML converter written in
Python, and proves properties of them.

- **Inline delimiter splitter** (`src/textnode.py`), module `TextNodes` in `textnode.dfy`.
  A `TextNode` holds a piece of inline text, its `TextType` and an optional url.
  `split_nodes_delimiter` rewrites a list of nodes. Only plain (`TEXT`) nodes are examined.
  A node is cut at every occurrence of a delimiter such as `**`. Parts at even positions
  stay plain, parts at odd positions get the target type, and empty parts are dropped.
  An odd number of delimiters in a node aborts the whole call with a `ValueError`.
  The method `SplitNodesDelimiter` keeps the two loops of the source. It is proved equal
  to the function `SplitAll`, and the properties are lemmas about `SplitAll`:
  - the failure condition, and which node's error is reported;
  - pass-through of untouched nodes, in their place;
  - order: splitting distributes over list concatenation;
  - typing and url of the produced nodes;
  - text conservation.
- **HTML serialiser** (`src/htmlnode.py`), module `HtmlNodes` in `htmlnode.dfy`. The base,
  leaf and parent classes are the three constructors of one datatype `HtmlNode`. A children
  list may hold `NotANode`, which stands for an entry that is not an HTML node. The
  attributes are a sequence of key/value pairs with distinct keys, kept in insertion
  order. `ToHtml` is the recursive `to_html`. The methods `RenderHtml` and `ParentToHtml`
  are proved equal to `ToHtml`. `RenderChildren` keeps the loop of `ParentNode.to_html`
  and is proved equal to `ChildrenHtml`, the children's part of `ToHtml`. The lemmas state:
  - exactly which trees render;
  - the order in which the errors are detected;
  - that the first failing child decides the error;
  - that rendering only adds markup: for a tree that renders and whose tags, attributes
    and values are clean (no `>` in a tag or an attribute, no `<` in a value), stripping
    the tags from its html gives the values of its leaves in document order.
- **Block classifier** (`src/textblock.py`), module `TextBlocks` in `textblock.dfy`.
  `block_to_block_type` is a first-match rule chain over six block types. The two regular
  expressions are written out with the meaning `re.match` gives them: anchored, greedy,
  backtracking. The method `BlockToBlockType` keeps the numbering loop with its early
  exit. It is proved equal to the rule chain `Classify`. The lemmas show:
  - the rules are mutually exclusive, so each type is chosen exactly when its own rule
    holds;
  - what a heading, a code block, quotes and the two kinds of list look like.

Two shared modules support these. `Strings` (`strings.dfy`) has Python's `str.count`,
`str.split`, `str.join`, `startswith`, `endswith` and `" " * n` for a non-empty separator,
with their laws. `Wrappers` (`wrappers.dfy`) has `Option` and `Result`.

Three behaviours of the code are easy to misread; the model follows the code:
- The code rule accepts a block whose opening and closing fences overlap, so a lone
  `` ``` `` is a code block (`TextBlocks.CodeFences`).
- The ordered-list pattern `(?P<num>\d+). ` leaves the dot unescaped. Any character but a
  newline may therefore follow the number, and `\d+` gives digits back when that lets the
  pattern match. So `1) x` reads as 1, and `12 apples` reads as 1 and, alone, is an
  ordered list (`TextBlocks.AnyCharAfterNumber`, `TextBlocks.DigitGivenBack`).
- `int()` accepts leading zeros, so `01. x` reads as 1 (`TextBlocks.DecimalValue`).

## Model

| member | source | states |
|---|---|---|
| Strings.Count | src/textnode.py:46 | the occurrences `count` finds do not overlap, so together they are no longer than the string; `SplitLength` ties the count to `split` |
| Strings.Split | src/textnode.py:52 | `split` always yields at least one piece; its laws are `SplitLength`, `JoinSplit` and `ConcatSplit` |
| Strings.RemoveAll | src/textnode.py:52-59 | deleting the occurrences never lengthens the string; `RemoveAllLength` gives the exact length |
| Strings.Repeat | src/textnode.py:36 | `c * n` has `max(n, 0)` characters, all equal to `c` |
| Strings.SplitLength | src/textnode.py:46-52 | `split` yields exactly one more piece than `count` finds occurrences |
| Strings.JoinSplit | src/textnode.py:52 | joining the pieces of `split` with the separator gives the string back |
| Strings.ConcatSplit | src/textnode.py:52-59 | the pieces of `split`, concatenated, are the string with every counted occurrence deleted |
| Strings.RemoveAllLength | src/textnode.py:46-52 | deleting the occurrences shortens the string by the separator's length per occurrence |
| Strings.RemoveAllAbsent | src/textnode.py:47-48 | with no occurrence, deleting them changes nothing |
| Strings.SplitPlainPrefix | src/textnode.py:52 | characters that cannot begin the separator join the first piece and add no occurrence |
| Strings.SplitSeparatorPrefix | src/textnode.py:52 | a leading separator opens an empty first piece and counts once |
| Strings.SplitPair | src/textnode.py:52 | `a d b d c`, with no separator start inside `a`, `b`, `c`, splits into exactly `[a, b, c]` with count 2 |
| Strings.SplitPlain | src/textblock.py:24 | a string without the separator's first character is a single piece |
| Strings.SplitJoin | src/textblock.py:24 | splitting on a one-character separator undoes joining pieces that do not contain it |
| Strings.SplitFirstPrefix | src/textblock.py:24 | the first piece of a split is a prefix of the string |
| TextNodes.Equals | src/textnode.py:22-29 | a node equals an object exactly when the object is a text node with the same text, type and url; any other object is unequal |
| TextNodes.TypeValue | src/textnode.py:3-9 | the `.value` of each `TextType` member; it has no contract of its own, and `TypeValuesDiffer` shows that no two members share a value |
| TextNodes.Repr | src/textnode.py:31-32 | `TextNode(`, the text, `, ` and the type's value, `, ` and the url or `None`, then `)`, with each part at its position |
| TextNodes.ReprShowsType | src/textnode.py:31-32 | two nodes that differ only in their type have different reprs |
| TextNodes.ReprNoneUrl | src/textnode.py:31-32 | a missing url and the url `"None"` print alike |
| TextNodes.PointToError | src/textnode.py:35-37 | the input, a newline, `errorIndex` spaces and `length` carets, with negative counts giving none |
| TextNodes.Message | src/textnode.py:51 | the text of the `ValueError`; it has no contract of its own, and `FailureMessage` states what a failed call reports |
| TextNodes.PartNode | src/textnode.py:54-59 | the body of the inner loop; it has no contract of its own, and `PartNodeShape` states it |
| TextNodes.PartsToNodes | src/textnode.py:53-59 | at most one node per part, each with non-empty text and no url; their types are stated by `PartsToNodesSound` and `PartsToNodesComplete` |
| TextNodes.SplitOne | src/textnode.py:43-59 | one node raises exactly when it is plain with an odd delimiter count, and the error carries the delimiter and that node's text |
| TextNodes.SplitAll | src/textnode.py:40-60 | a call that succeeds met no unbalanced plain node; the converse and the reported error are `SplitAllFails` and `SplitAllFirstError` |
| TextNodes.SplitNodesDelimiter | src/textnode.py:40-60 | the two loops compute `SplitAll`: the node-by-node result, stopping at the first unbalanced node |
| TextNodes.AppendParts | src/textnode.py:53-59 | the inner loop appends, in order, one node per non-empty part: plain at even indices, the target type at odd ones |
| TextNodes.SplitAllFails | src/textnode.py:50-51 | the call fails exactly when some plain node has an odd delimiter count, and then with the error of the first such node |
| TextNodes.UnbalancedFails | src/textnode.py:50-51 | one unbalanced plain node anywhere in the list fails the whole call, so no partial output is returned |
| TextNodes.SplitAllFirstError | src/textnode.py:42-51 | a failed call carries the text of the first unbalanced node, and no node before it is unbalanced |
| TextNodes.FailureMessage | src/textnode.py:50-51 | the message of a failed call is `Unclosed delimiter '<delimiter>' in: <text>` with the text of the first unbalanced node |
| TextNodes.SplitAllUrls | src/textnode.py:40-60 | a node of the result that carries a url is one of the input nodes, passed through; every node made from parts has none |
| TextNodes.SplitAllUntouched | src/textnode.py:43-49 | non-plain nodes and plain nodes without the delimiter come back as they are, urls included |
| TextNodes.SplitAllKeepsInPlace | src/textnode.py:42-49 | an untouched node is output unchanged, between the outputs of the nodes before it and of the nodes after it |
| TextNodes.SplitAround | src/textnode.py:42-49 | the same for a list given as before, the node, after |
| TextNodes.SplitAllAppend | src/textnode.py:41-60 | splitting a concatenation is splitting each half in turn: the first error wins, otherwise the outputs are concatenated in order |
| TextNodes.PartNodeShape | src/textnode.py:54-59 | an empty part gives no node, otherwise one node typed by the parity of its index and without url |
| TextNodes.PartsToNodesSound | src/textnode.py:53-59 | every produced node is a non-empty part, typed by the parity of that part's index, with no url |
| TextNodes.PartsToNodesComplete | src/textnode.py:53-59 | every non-empty part appears as a node typed by the parity of its index |
| TextNodes.PartsTexts | src/textnode.py:53-59 | dropping the empty parts loses no text |
| TextNodes.SplitOneTexts | src/textnode.py:43-59 | what one node contributes reads as its text with the delimiters deleted, or its text unchanged when it is not plain |
| TextNodes.SplitAllTexts | src/textnode.py:41-60 | text conservation: the output's texts, concatenated, are the input's texts with the delimiters deleted from the plain nodes |
| TextNodes.SplitOnePair | src/textnode.py:52-59 | a plain `a d b d c` becomes plain `a`, `b` with the target type, then plain `c`, with each empty one dropped |
| TextNodes.ExampleAllEmpty | src/test_textnode.py:86-90 | `****` split on `**` produces no nodes |
| HtmlNodes.Attributes | src/htmlnode.py:20 | the list comprehension gives one `key="value"` string per attribute; `JoinAttributes` and `PropsToHtml` state how they are joined |
| HtmlNodes.JoinAttributes | src/htmlnode.py:20 | a space before the attributes joined by spaces is each attribute after one space |
| HtmlNodes.PropsToHtml | src/htmlnode.py:17-20 | `""` without attributes or with none, otherwise each `key="value"` after one space, in insertion order |
| HtmlNodes.TwoProps | src/htmlnode.py:17-20 | two attributes render as ` k1="v1" k2="v2"` in insertion order |
| HtmlNodes.LeafToHtml | src/htmlnode.py:35-40 | a leaf fails exactly when it has no value; untagged it is its value whatever its attributes; tagged, even with `""`, the value is wrapped in that tag with its attributes |
| HtmlNodes.BaseAndLeaf | src/htmlnode.py:14-40 | the base class always fails; a leaf fails with a missing value exactly when it has none; an untagged leaf is its value |
| HtmlNodes.ParentCheck | src/htmlnode.py:53-58 | a parent passes its checks exactly when its tag is present and non-empty and its children are a non-empty list of nodes |
| HtmlNodes.ToHtml | src/htmlnode.py:14-63 | the recursive `to_html` of the three classes; it has no contract of its own, and its properties are `RenderableIff`, `ParentError`, `BaseAndLeaf` and `StripRendered` |
| HtmlNodes.ChildrenHtml | src/htmlnode.py:59-63 | the children's html in order, or the first failing child's error; it has no contract of its own, and its properties are `ChildStep`, `ChildrenOkIff` and `ChildrenFirstError` |
| HtmlNodes.RenderHtml | src/htmlnode.py:14-63 | `to_html` dispatched on the class of the node computes `ToHtml` |
| HtmlNodes.ParentToHtml | src/htmlnode.py:52-63 | the parent's checks, then the open tag, the children's html and the close tag, compute `ToHtml` |
| HtmlNodes.RenderChildren | src/htmlnode.py:59-63 | the loop appends each child's html in turn and stops at the first failing child with its error |
| HtmlNodes.ChildStep | src/htmlnode.py:60-61 | one more child extends the html with its own, or fails with its error |
| HtmlNodes.ChildErrorStops | src/htmlnode.py:60-61 | once a prefix of the children fails, the whole list fails the same way |
| HtmlNodes.ChildrenOkIff | src/htmlnode.py:60-61 | the children render exactly when each of them does |
| HtmlNodes.ChildrenFirstError | src/htmlnode.py:60-61 | failing children fail with the error of the first failing child, and only with it |
| HtmlNodes.FirstFailureWins | src/htmlnode.py:60-61 | the first failing child decides the error of the list |
| HtmlNodes.ChildrenSomeFailure | src/htmlnode.py:60-61 | a failing list has a first failing child whose error it carries |
| HtmlNodes.RenderableIff | src/htmlnode.py:35-63 | `to_html` succeeds exactly on trees with no base node, a value in every leaf, and a non-empty tag and a non-empty list of renderable nodes in every parent |
| HtmlNodes.ParentError | src/htmlnode.py:52-63 | a parent fails as its checks come: missing tag, then missing children, then a child that is not a node, all before any child is rendered, then the first failing child's error |
| HtmlNodes.StripRendered | src/htmlnode.py:35-63 | rendering adds only markup: the html of a renderable clean tree, with its tags stripped, is the values of its leaves in document order |
| HtmlNodes.SingleChild | src/htmlnode.py:52-63 | a parent with one child renders the child's html between its tags, or fails with the child's error |
| HtmlNodes.ParentErrorExamples | src/htmlnode.py:53-58 | an empty or missing tag, an empty or missing children list, a non-node child and an error nested one level deep each give their error |
| TextBlocks.ValuesDiffer | src/textblock.py:7-13 | the six members of `BlockType` have six different values, so none is an alias of another |
| TextBlocks.LeadingPounds | src/textblock.py:17-19 | the count of leading `#`: all of them are `#`, and the next character is not |
| TextBlocks.PoundsMatch | src/textblock.py:17-19 | the match of the heading pattern and the length of its `pounds` group; it has no contract of its own, and `PoundsMatchSpec` states it |
| TextBlocks.PoundsMatchSpec | src/textblock.py:17-19 | the heading pattern matches in exactly one way, with the group of all leading `#`, and `PoundsMatch` finds it |
| TextBlocks.IsHeading | src/textblock.py:17-21 | the heading rule; it has no contract of its own, and `HeadingIff` and `HeadingLevels` state it |
| TextBlocks.HeadingIff | src/textblock.py:17-21 | the heading rule holds exactly when the block opens with one to six `#` and a space |
| TextBlocks.IsCode | src/textblock.py:22-23 | the code rule; it has no contract of its own, and `CodeFences` states it |
| TextBlocks.AllQuoted | src/textblock.py:25 | the quote rule; it has no contract of its own, and `QuoteBlock` states it |
| TextBlocks.AllItems | src/textblock.py:27 | the unordered-list rule; it has no contract of its own, and `UnorderedListBlock` states it |
| TextBlocks.Lines | src/textblock.py:24 | splitting on newlines always gives at least one line |
| TextBlocks.DigitRun | src/textblock.py:32 | the count of leading ASCII digits: all are digits and the next character is not |
| TextBlocks.GroupUpTo | src/textblock.py:32 | backtracking takes the longest group of at most `k` digits after which a non-newline character and a space follow, or none |
| TextBlocks.NumberGroup | src/textblock.py:32 | the match of the number pattern and the length of its `num` group; it has no contract of its own, and `NumberGroupSpec` states it |
| TextBlocks.NumberGroupSpec | src/textblock.py:32 | the number pattern matches exactly when some leading digit group is followed by a non-newline character and a space, and the longest such group is taken |
| TextBlocks.DecimalValue | src/textblock.py:36 | a leading zero does not change the number read; `DecimalShowNat` shows that the decimal digits of `n` read as `n` |
| TextBlocks.LineNumber | src/textblock.py:32-36 | `int(match.group("num"))`, or none when the pattern fails; it has no contract of its own, and its properties are `NumberedLineReads`, `AnyCharAfterNumber` and `DigitGivenBack` |
| TextBlocks.Numbered | src/textblock.py:29-42 | the ordered-list rule: line `j` reads as `j + 1`; it has no contract of its own, and `CheckNumbering` and `OrderedListBlock` state it |
| TextBlocks.Classify | src/textblock.py:16-43 | the first-match rule chain; it has no contract of its own, and its properties are `ClassifyIff`, `RuleFirstCharacter` and `PlainStartIsParagraph` |
| TextBlocks.BlockToBlockType | src/textblock.py:16-43 | the classifier computes the rule chain `Classify`: heading, code, quote, unordered list, ordered list, paragraph, first match wins |
| TextBlocks.CheckNumbering | src/textblock.py:29-42 | the loop accepts exactly when line `j` reads as the number `j + 1` for every `j`, stopping at the first mismatch |
| TextBlocks.RuleFirstCharacter | src/textblock.py:17-42 | each rule fixes the block's first character: `#`, a backtick, `>`, `-` or a digit |
| TextBlocks.ClassifyIff | src/textblock.py:16-43 | each type is chosen exactly when its own rule holds, whatever the order; paragraph exactly when no rule does |
| TextBlocks.PlainStartIsParagraph | src/textblock.py:16-43 | an empty block, or one starting with anything but `#`, a backtick, `>`, `-` or a digit, is a paragraph |
| TextBlocks.HeadingLevels | src/textblock.py:17-21 | one to six `#` and a space make a heading whatever follows; seven or more make a paragraph |
| TextBlocks.CodeFences | src/textblock.py:22-23 | a block between two fences is code, and so is a lone fence |
| TextBlocks.LinesOfJoin | src/textblock.py:24 | lines without newlines, joined by newlines, are the lines of the block they make |
| TextBlocks.QuoteBlock | src/textblock.py:24-26 | lines each starting with `>` make a quote |
| TextBlocks.UnorderedListBlock | src/textblock.py:27-28 | lines each starting with `- ` make an unordered list |
| TextBlocks.DecimalShowNat | src/textblock.py:36 | reading the decimal digits of `n` gives `n` |
| TextBlocks.NumberedLineReads | src/textblock.py:32-36 | a line `<n>. <text>` reads as `n` |
| TextBlocks.OrderedListBlock | src/textblock.py:29-42 | lines numbered `1. `, `2. `, ... in order make an ordered list |
| TextBlocks.AnyCharAfterNumber | src/textblock.py:32 | any non-newline character may stand for the dot: `1) x` reads as 1 |
| TextBlocks.DigitGivenBack | src/textblock.py:32-42 | `\d+` gives back a digit for the dot: `12 apples` reads as 1, and as a one-line block it is an ordered list |

## Left out

- `block_to_html_node` (src/textblock.py:46-73) is not modelled. It calls `text_to_textnodes`
  and `text_node_to_html_node`, which are not defined in the files modelled here. Its
  heading branch returns nothing, and its other branches are commented out.
- `text_to_textnodes`, `split_nodes_image`, `split_nodes_link`, the markdown extraction
  helpers, `markdown_to_blocks` and `markdown_to_html_node` are used by the tests but are
  not part of this model.
- `HTMLNode.__repr__` (src/htmlnode.py:22-23) is not modelled. It depends on Python's
  formatting of lists and dicts.
- The constructors (src/textnode.py:13-20, src/htmlnode.py:2-12, 27-33, 44-50) only assign
  fields. They are the datatype constructors, which fix the leaf's empty children and the
  parent's empty value.
- Python lets a children list be shared or contain itself. The datatype is a finite tree
  without sharing, so cyclic lists are not modelled.
- An empty delimiter is excluded by `requires delimiter != ""` on the splitting members.
  Python's `count` and `split` behave differently there (`split` raises).
- `\d` and `int()` accept every Unicode decimal digit; the model accepts only ASCII `0`-`9`.
- PointToError: the default value 1 of `length` is not modelled, because Dafny functions
  have no default arguments; callers pass it.
- The `TextType` of the nodes a split produces at even indices is the input node's type,
  which the loop has already checked is plain; the model writes `Text` directly.
- `HtmlError` keeps only the kind of each exception. Its messages (src/htmlnode.py:37, 54, 56,
  58) are not modelled, because no caller in these files reads them.
- Python's recursion limit is not modelled: `to_html` on a deep enough tree raises
  `RecursionError`, while `ToHtml` renders trees of every depth.
- The demo code at the end of src/textnode.py (lines 64-67) prints, and the unittest harness
  runs tests; neither is modelled.
