# tree-sitter SQL renderer and parse gate

A model of the core of an MCP server that parses SQL with tree-sitter and
returns the syntax tree as text. It has two parts:

- The renderer, `write_tree` and `visit`. It walks the tree with a tree-sitter
  cursor, depth first in pre-order. For each node it appends one line to a
  `String`:
  - `depth * UNIT` dashes, where `UNIT` is 2;
  - the node kind;
  - for a leaf only, ` "<source text>"`;
  - ` [<start>-<end>]` and a line break.
- The two tools. `parse_sql` refuses any tree whose root reports `has_error()`,
  with the fixed error "Failed to parse sql". `parse_sql_with_error_recovery`
  always renders the tree, error nodes included.

The tree the parser returns is an input of the model. It is a `Node`
datatype with a kind, start and end positions, a byte range, ordered
children, and a flag marking error nodes.

Module by module:

- `Bytes` (bytes.dfy): byte strings, counting, runs of dashes, and UTF-8
  character boundaries.
- `SyntaxTree` (syntax_tree.dfy): the tree and `has_error`. It also holds an
  independent reference walk `PreOrder`, a sequence of the (node, depth)
  entries in pre-order.
- `PointFormat` (point_format.dfy): how a position is written, as
  `(row, column)` in decimal. The format is proved readable back.
- `Renderer` (renderer.dfy): the rendered text as pure functions.
  - `Line` is one node's line.
  - `Render` and `RenderForest` give the text of a subtree.
  - `Lines` gives the lines of a sequence of entries.
  - The lemmas about them prove the properties of the output.
- `Walker` (walker.dfy): the imperative part.
  - `TreeCursor` is a class: the current node, its ancestors, and the
    position of each node among its siblings. `goto_first_child`,
    `goto_next_sibling` and `goto_parent` are its methods.
  - `StringBuffer` is the `String` that `visit` appends to.
  - `WriteLine` holds the indentation `for` loop.
  - `Visit`, `VisitChildren` and `VisitSiblings` are `visit`, split where it
    writes the line, descends, and loops over the siblings.
  - `WriteTree` is `write_tree`.
  - `WriteLine` is proved to append exactly the node's `Line`.
  - `Visit` is proved to append exactly `Render` of the cursor's subtree and
    to leave the cursor where it found it.
  - `VisitChildren` appends `RenderForest` of the node's children and returns
    the cursor to the node.
  - `VisitSiblings` appends the renderings of all children in order and
    leaves the cursor on the last child.
  - `WriteTree` returns `Render` of the whole tree from depth 0.
  - Each `goto_*` method states where the cursor moves to and when it stays.
- `SqlTools` (tools.dfy): the two tools, as functions specifying the result
  and as methods that call `WriteTree`.

Text is modelled as UTF-8 bytes, because `push_str` copies bytes and
`utf8_text` slices by byte offsets. `utf8_text(..).unwrap()` panics unless
the leaf's byte range is in bounds and on character boundaries. That is a
precondition: `SliceOk` for one node, `LeavesSliceable` for every leaf of a
tree. `parse_sql` never renders a tree with an error node, so its
precondition only asks for slicing when the tree is error-free.

Three facts about the code that a reader of the output should know:

- The rendering has one line break per node only when no kind and no leaf
  text holds a line break, because nothing is escaped.
  - `RenderNewlineCount` proves the count under that condition.
  - `MultiLineLeafBreaksLineCount` shows a one-node tree whose leaf text
    spans two rows and renders with two line breaks.
  - At the level of the walk there is always exactly one line per node:
    `RenderIsPreOrderLines` and `PreOrderLength`.
- Positions are written with `Point`'s `Display`, as `(row, column)`.
- A leaf's text is sliced from `src` by the node's byte offsets.

## Model

| member | source | states |
|---|---|---|
| SyntaxTree.HasErrorIffErrorEntry | src/common/tree_sitter_sql.rs:40 | `has_error()` on a node holds exactly when the pre-order walk from it meets an error node, in both directions |
| SyntaxTree.ForestErrorIffErrorEntry | src/common/tree_sitter_sql.rs:40 | some child subtree has an error exactly when the walk over the children meets an error node |
| SyntaxTree.PreOrderLength | src/common/tree_sitter_sql.rs:88-113 | the walk visits every node of the tree exactly once: as many entries as nodes |
| SyntaxTree.PreOrderForestLength | src/common/tree_sitter_sql.rs:107-113 | the walk over a list of children has as many entries as the children's subtrees have nodes |
| SyntaxTree.PreOrderDepths | src/common/tree_sitter_sql.rs:107-110 | the walk starts with the node itself at its depth, and every later entry lies strictly deeper |
| SyntaxTree.PreOrderForestDepths | src/common/tree_sitter_sql.rs:107-110 | every entry of the walk over children visited at `depth` is at least that deep |
| PointFormat.DecimalShape | src/common/tree_sitter_sql.rs:102-103 | a number's text is a non-empty run of digits that starts with `0` only for zero |
| PointFormat.DecimalRoundTrip | src/common/tree_sitter_sql.rs:102-103 | reading a number's text back gives the number |
| PointFormat.PointTextPrintable | src/common/tree_sitter_sql.rs:102-103 | a position's text holds no quote and no line break |
| PointFormat.PointTextPrefixInjective | src/common/tree_sitter_sql.rs:102-103 | a position's text, followed by anything, determines both the position and what follows |
| Renderer.RenderForestSnoc | src/common/tree_sitter_sql.rs:109-110 | rendering one more child appends exactly that child's subtree |
| Renderer.LinesConcat | src/common/tree_sitter_sql.rs:88-113 | the lines of two entry sequences one after the other are the lines of their concatenation |
| Renderer.LinesSplitAt | src/common/tree_sitter_sql.rs:88-113 | each entry's line stands in the text after the lines of the entries before it and before those after it |
| Renderer.RenderIsPreOrderLines | src/common/tree_sitter_sql.rs:88-113 | the rendering of a subtree is the lines of the pre-order walk in order: parent first, then each child's whole subtree left to right, children one level deeper |
| Renderer.RenderForestIsPreOrderLines | src/common/tree_sitter_sql.rs:107-113 | the rendering of a node's children is the lines of the walk over them, each at `depth + 1` |
| Renderer.LineStartsWithIndentAndKind | src/common/tree_sitter_sql.rs:90-94 | a line opens with `depth * UNIT` dashes followed immediately by the kind; the leading run of dashes is exactly that long when the kind does not start with a dash, none for the root |
| Renderer.LineQuoteIffLeaf | src/common/tree_sitter_sql.rs:96-98 | for a kind without quotes, a line holds a quote exactly when the node has no children |
| Renderer.LineSegmentAfterKind | src/common/tree_sitter_sql.rs:94-104 | for every kind, a leaf's line carries ` "<its byte slice of src>"` right after the kind, and an internal node's line is exactly indentation, kind and span long, so nothing stands between its kind and its span |
| Renderer.LineEndsWithSpan | src/common/tree_sitter_sql.rs:100-104 | every line, leaf or internal, ends with ` [<start>-<end>]` and the line break |
| Renderer.SpanTextInjective | src/common/tree_sitter_sql.rs:100-104 | the span annotation determines the node's start and end positions |
| Renderer.SpanTextNewlines | src/common/tree_sitter_sql.rs:100-104 | the span annotation holds exactly one line break |
| Renderer.LineNewlines | src/common/tree_sitter_sql.rs:89-104 | a line whose kind and leaf text hold no line break holds exactly one |
| Renderer.RenderNewlineCount | src/common/tree_sitter_sql.rs:88-113 | with no line break in any kind or leaf text, the rendering has exactly as many line breaks as the tree has nodes |
| Renderer.RenderForestNewlineCount | src/common/tree_sitter_sql.rs:107-113 | the same count for a list of children |
| Renderer.MultiLineLeafBreaksLineCount | src/common/tree_sitter_sql.rs:96-97 | a one-node tree whose leaf text spans two rows renders with two line breaks |
| Walker.TreeCursor.constructor | src/common/tree_sitter_sql.rs:79 | `tree.walk()` starts on the root, with no ancestors |
| Walker.TreeCursor.GotoFirstChild | src/common/tree_sitter_sql.rs:107 | moves exactly when the node has children, to the first one, pushing the node onto the ancestors; otherwise nothing changes |
| Walker.TreeCursor.GotoNextSibling | src/common/tree_sitter_sql.rs:109 | moves exactly when the current node is not the root and has a next sibling, to that sibling; ancestors never change |
| Walker.TreeCursor.GotoParent | src/common/tree_sitter_sql.rs:112 | moves exactly when not on the root, back to the parent, popping it off the ancestors |
| Walker.StringBuffer.PushStr | src/common/tree_sitter_sql.rs:91 | appends the bytes and keeps what was there |
| Walker.WriteLine | src/common/tree_sitter_sql.rs:89-104 | appends exactly the node's line, the indentation written one dash per loop step |
| Walker.Visit | src/common/tree_sitter_sql.rs:88-114 | appends exactly the rendering of the cursor's subtree at `depth`, nothing else, and leaves the cursor on the node it started on |
| Walker.VisitChildren | src/common/tree_sitter_sql.rs:107-113 | appends the rendering of the node's children at `depth + 1` and returns the cursor to the node with `goto_parent` |
| Walker.VisitSiblings | src/common/tree_sitter_sql.rs:108-111 | visits the first child and then each sibling `goto_next_sibling` reaches, appending their renderings in order and ending on the last child |
| Walker.WriteTree | src/common/tree_sitter_sql.rs:78-84 | returns the rendering of the whole tree from depth 0 |
| SqlTools.TolerantResult | src/common/tree_sitter_sql.rs:55-65 | the tolerant tool always succeeds, with the lines of the pre-order walk over the whole tree |
| SqlTools.StrictResult | src/common/tree_sitter_sql.rs:33-50 | the strict tool fails with `invalid_params("Failed to parse sql")` exactly when the tree has an error node; otherwise it gives the tolerant tool's answer and the walk meets no error node |
| SqlTools.ParseSql | src/common/tree_sitter_sql.rs:33-50 | the strict tool's method, with `write_tree` driving the cursor, returns `StrictResult` |
| SqlTools.ParseSqlWithErrorRecovery | src/common/tree_sitter_sql.rs:55-65 | the tolerant tool's method returns `TolerantResult` |
| SqlTools.GateConsistency | src/common/tree_sitter_sql.rs:40-64 | the two tools agree on a tree without error nodes; on a tree with one, the strict tool refuses, and the tolerant tool's text contains the line of an error node |

## Left out

- `parse` (lines 68-76) is not modelled: it runs the external tree-sitter engine and the SQL grammar. The tree it returns is an input of every tool.
- Which trees the grammar builds for a given SQL text is not modelled, so no lemma speaks of a particular statement such as `SELECT 1`.
- `get_info`, the `#[tool]` attributes and the rmcp transport (lines 1-29) are not modelled. `CallToolResult`, `Content::text` and `McpError` become the `ToolResult` and `ToolError` datatypes.
- tree-sitter's `Point` `Display` is a foreign formatter. The model fixes it as `(row, column)` in decimal.
- tree-sitter's cursor internals are not modelled: hidden nodes, field names, and how the cursor is stored. The cursor is the path from the root to the current node.
- A MISSING node is not a separate case. It is a node whose `isError` flag is set, which is what `has_error` reacts to.
- The source text is assumed to be valid UTF-8, because it is a Rust `&str`. The model does not check UTF-8 validity, only character boundaries at the slice ends.
- A failed `utf8_text(..).unwrap()` panics. The model leaves it out by precondition instead of giving it an error path.
- Integer width is not modelled. `depth * UNIT` is a Rust `usize`, and overflowing it would need a tree about 2^63 levels deep.
