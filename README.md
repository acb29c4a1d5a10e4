# Code Sensei core: function extractor and agent router, modelled in Dafny

This project models the two pieces of Code Sensei that hold checkable logic.

**The function extractor** (`parser_engine.py`). Given source text and a declared language, it:

1. normalises the language name to a table key;
2. picks one of five language strategies, and silently falls back to Python for an unknown key;
3. walks the concrete syntax tree with a tree-sitter cursor, counting visits and visits of
   `ERROR` nodes, and rejects the text as a language mismatch when the ratio is above 5%;
4. collects, in pre-order, every node whose kind is one of the strategy's callable kinds;
5. builds one record per match: its name, its 1-based line range, its source lines and its body text.

**The agent's guardrail and router** (`ai_agent.py`). The guardrail rejects code that is too
short. The router maps the state to one of seven labels. `run_agent` turns the final state into
a result or an error.

The grammar is foreign code, and so is its parser. The parse tree is therefore an input: a
`SyntaxTree.Node` with a kind, children, start and end rows, and the text of its named fields.
`ExtractFunctions` takes the parser as a function parameter `parse: (Grammar, string) -> Node`.

Files:

- `wrappers.dfy`: Option, Result, Outcome.
- `pystr.dfy`: the Python `str` operations used, i.e. `lower`, `replace`, `split`, `join` and `strip`.
- `syntax_tree.dfy`: the tree, its pre-order listing, and the visit counts of the cursor walk.
- `tree_cursor.dfy`: the tree-sitter cursor as a class, and how each move uses up the remaining count.
- `parser_engine.dfy`: strategies, the validity gate, records, the pre-order walk and the whole extraction.
- `ai_agent.dfy`: agent state, guardrail, router and the outcome of `run_agent`.

Three behaviours of the code are easy to misread:

- `"C++"` does not reach the C++ strategy. Lower-casing gives `"c++"`, and replacing `"++"` by
  `"cpp"` then gives `"ccpp"`. That is not a key, so Python's strategy is used (`PlusPlusSpelling`).
  The bare `"++"` is what becomes `"cpp"` (`BarePlusPlusSpelling`).
- The gate does not count nodes, it counts cursor visits. A node with children is counted again
  when `goto_parent` returns to it, because the loop goes back to the increment at the top. So
  the total is one per leaf plus two per inner node, and an `ERROR` node with children adds two
  to the error count (`VisitsArePreorderWeights`, `ParentCountsTwice`).
- The "empty tree passes" branch (`total_nodes == 0`) can never be taken, because the root is
  always counted (`GateNeverSeesEmptyCount`).

## Model

| member | source | states |
|---|---|---|
| `ParserEngine.ResolveStrategy` | parser_engine.py:41-49 | the result is always one of the five table strategies; it is the normalised key's strategy when the key is in the table, and Python's otherwise |
| `ParserEngine.NormalizedKeyShape` | parser_engine.py:41 | a normalised key contains no `#` and no upper-case ASCII letter |
| `ParserEngine.PlainNameIsLowercased` | parser_engine.py:41-44 | a name with no `#` or `+` is only lower-cased, so any capitalisation of a table key selects that key's strategy |
| `ParserEngine.SharpSpelling` | parser_engine.py:41-44 | `"C#"` normalises to `"csharp"` and selects the C# grammar |
| `ParserEngine.PlusPlusSpelling` | parser_engine.py:41-49 | `"C++"` normalises to `"ccpp"` and falls back to the Python grammar |
| `ParserEngine.BarePlusPlusSpelling` | parser_engine.py:41-44 | `"++"` normalises to `"cpp"` and selects the C++ grammar |
| `ParserEngine.UnknownLanguageFallsBack` | parser_engine.py:44-49 | a key missing from the table never fails; it selects the Python grammar with the single callable kind `function_definition` |
| `ParserEngine.RatioThreshold` | parser_engine.py:104-107 | an error ratio above 0.05 is the same as more than one error visit in twenty |
| `ParserEngine.Gate` | parser_engine.py:101-115 | the gate fails exactly when the count is positive and error visits exceed one in twenty; the failure carries the ratio and the declared language |
| `ParserEngine.CheckSyntaxValidity` | parser_engine.py:74-115 | the cursor loop terminates on every tree, its counters end at the visit counts of the whole tree, and it fails exactly when error visits exceed one in twenty |
| `SyntaxTree.VisitsArePreorderWeights` | parser_engine.py:86-99 | the walk visits every node: its count is the sum over the pre-order listing of 1 per leaf and 2 per node with children, each weighted by the error test for the error counter |
| `SyntaxTree.VisitBounds` | parser_engine.py:86-102 | the total is at least the number of nodes and at least 1; error visits never exceed the total; a tree without `ERROR` nodes has no error visits |
| `ParserEngine.GateNeverSeesEmptyCount` | parser_engine.py:101-102 | the total is never 0, so the gate's answer depends only on the error ratio |
| `ParserEngine.CleanTreePasses` | parser_engine.py:104-107 | a tree with no `ERROR` node always passes the gate |
| `ParserEngine.LeafCountsOnce` | parser_engine.py:86-99 | a single leaf is counted once; a lone `ERROR` leaf is rejected with ratio 1 |
| `ParserEngine.ParentCountsTwice` | parser_engine.py:86-99 | a node whose children are all leaves is counted once per child plus twice for itself |
| `ParserEngine.TryDescend` | parser_engine.py:93 | moves exactly when the node has children, onto child 0 with that step pushed on the path, using up exactly the visit just counted; otherwise the cursor stays put |
| `ParserEngine.TrySibling` | parser_engine.py:94 | moves exactly when the last path level has a child further right, onto that next sibling, using up exactly the visit just counted; otherwise the cursor stays put |
| `ParserEngine.TryAscend` | parser_engine.py:96-99 | moves exactly when below the start node, onto the parent with the last step popped, using up the visit just counted and re-scheduling the parent; at the start node the cursor stays put and that visit was the last of the walk |
| `ParserEngine.AdvanceWalk` | parser_engine.py:92-99 | one loop step in depth-first order: into the first child if the children are not yet visited and there is one, else to the next sibling, else up to the parent with `nextVisited` set; it stops exactly on the start node once its children are done; each move uses up exactly the visit just counted, and stopping leaves no visit |
| `Cursor.DescendStep` | parser_engine.py:92-95 | moving to the first child uses up exactly the current node's visit of the remaining count |
| `Cursor.SiblingStep` | parser_engine.py:92-95 | moving to the next sibling uses up exactly one visit of the remaining count |
| `Cursor.AscendStep` | parser_engine.py:96-97 | moving to the parent uses up one visit; the parent is then due once more |
| `Cursor.FinalStep` | parser_engine.py:98-99 | at the start node, with no child left to enter, the visit just made is the last one |
| `Cursor.TreeCursor.constructor` | parser_engine.py:83 | `walk()` starts on the root with an empty path |
| `Cursor.TreeCursor.GotoFirstChild` | parser_engine.py:93 | moves to the first child exactly when the node has children, and pushes that step on the path |
| `Cursor.TreeCursor.GotoNextSibling` | parser_engine.py:94 | moves to the next child of the same parent exactly when there is one; the start node has no siblings |
| `Cursor.TreeCursor.GotoParent` | parser_engine.py:96 | moves to the parent exactly when the cursor is below the start node |
| `ParserEngine.GetName` | parser_engine.py:142-150 | the name is the `name` field's text if present, else the `declarator` field's text, else exactly `anonymous` |
| `ParserEngine.PySlice` | parser_engine.py:129 | Python slicing: an in-range slice is the sub-sequence itself, an empty range gives nothing |
| `ParserEngine.ProcessNodeFields` | parser_engine.py:124-140 | `start_line = start_row + 1 >= 1` and `end_line = end_row + 1`, so the lines are in order when the rows are; the body is the `body` field's text or empty |
| `ParserEngine.BodyIndependentOfName` | parser_engine.py:131-139 | nodes with the same rows and body field get records that differ only in their names |
| `ParserEngine.CodeIsWholeLines` | parser_engine.py:125-129 | when the rows lie in the text, the text is the lines before `start_line` (exactly `start_row` breaks), then `code`, then the lines after `end_line`; `code` spans `end_row - start_row + 1` whole lines |
| `ParserEngine.ExtractIsSelectedPreorder` | parser_engine.py:117-122 | the walk's records are those of the target-kind nodes of the pre-order listing, in that order; nodes inside a matching node are still searched |
| `ParserEngine.ExtractExactlyMatches` | parser_engine.py:117-122 | there is one record per matching node; every matching node, however deeply nested, has its record; every record comes from a matching node |
| `ParserEngine.FindFunctionsRecursive` | parser_engine.py:117-122 | the accumulator is only extended: the result is the given list followed by the subtree's records in pre-order |
| `ParserEngine.ExtractionOutcomeSpec` | parser_engine.py:56-72 | extraction fails exactly when error visits exceed one in twenty, carrying ratio and language and producing no records; otherwise it returns the strategy's matches in pre-order (recursion depth is not modelled, see below) |
| `ParserEngine.CleanTreeIsExtracted` | parser_engine.py:60-72 | a tree without `ERROR` nodes always passes the gate and yields its records (recursion depth is not modelled, see below) |
| `ParserEngine.TreeSitterParser.constructor` | parser_engine.py:36-37 | a new parser has no grammar selected |
| `ParserEngine.TreeSitterParser.ExtractFunctions` | parser_engine.py:39-72 | the declared language defaults to `python`; sets the parser's grammar to the selected strategy's, and returns the outcome for the tree parsed with that grammar |
| `PyStr.JoinSplit` | parser_engine.py:128-129 | joining the parts of `split("\n")` with `"\n"` gives back the text |
| `PyStr.ReplaceAllRemoves` | parser_engine.py:41 | replacing a one-character pattern by a text without it removes every occurrence |
| `PyStr.Lower` | ai_agent.py:43 | `lower` keeps the length and lower-cases each ASCII letter in place |
| `PyStr.StripShape` | ai_agent.py:23 | `strip` removes leading and trailing whitespace and nothing else |
| `PyStr.StripPadding` | ai_agent.py:23 | whitespace added around a text does not change its stripped form |
| `AiAgent.GuardrailNode` | ai_agent.py:20-25 | a message is set exactly when the stripped code has fewer than 5 characters; the message is non-empty, so it counts as set; otherwise `error` is `None` |
| `AiAgent.GuardrailIgnoresPadding` | ai_agent.py:23 | surrounding whitespace never changes the guardrail's verdict |
| `AiAgent.GuardrailRejectsBlankOrShort` | ai_agent.py:23-24 | empty, whitespace-only, or under-5-character code is always rejected |
| `AiAgent.Label` | ai_agent.py:31-39 | every route's label is one of the seven literal labels |
| `AiAgent.LabelsAreDistinct` | ai_agent.py:31-39 | distinct routes have distinct labels |
| `AiAgent.RouteLanguage` | ai_agent.py:29-57 | the route is `end` exactly when an error is set (a non-empty message) |
| `AiAgent.RouteFollowsTable` | ai_agent.py:43-57 | with no error, the route is the fixed table's entry for the lower-cased language, and `generic_expert` for any other language |
| `AiAgent.RouteIsCaseInsensitive` | ai_agent.py:43 | languages with the same lower-cased form get the same route |
| `AiAgent.GuardrailThenRoute` | ai_agent.py:23-57 | once the guardrail's result is in the state, the router ends exactly when the code is too short, and otherwise routes by the language table |
| `AiAgent.RunAgentOutcome` | ai_agent.py:116-119 | `run_agent` fails exactly when the final state's error is set, with that message; otherwise it returns the state's analysis |
| `AiAgent.RejectedStateFails` | ai_agent.py:116-117 | a state the guardrail rejected fails with the guardrail's message |

## Left out

- Tree-sitter grammars and `Parser.parse` (parser_engine.py:3-8, 13, 37, 52, 55) are foreign C
  libraries. The tree is an input, and `parse` is a function parameter of `ExtractFunctions`.
- The cursor is tree-sitter's own object. `Cursor.TreeCursor` models only the three moves and
  the `node` read that the loop uses.
- UTF-8 encoding of the source and decoding of node text (parser_engine.py:55, 132, 148). Field
  texts are taken as given strings, and rows as given numbers.
- The warning `print` (parser_engine.py:46-48) and the wording of the `ValueError`
  (parser_engine.py:108-115). The rejection is a `LanguageMismatch` result carrying the ratio
  and the declared language.
- `get_parser` (parser_engine.py:153-160). Its only role is to avoid sharing a parser between
  concurrent requests, and concurrency is not modelled.
- The LangGraph graph wiring, compilation and `graph.invoke` (ai_agent.py:61-101, 114), because
  the library is not available. `RunAgentOutcome` starts from the final state.
- The expert prompts and LLM calls, the chat agent, the HTTP backend and its "Main Script"
  fallback, the flake8 linter and the SQLite feedback store. They are glue around external
  services. The analysis record's fields follow `schemas.py`, and the state's fields follow
  `shared_state.py`.
- Dependency and skeleton context resolution. No code builds a symbol table or adds
  skeleton context to the records.
- The interpreter's recursion limit. `_find_functions_recursive` (parser_engine.py:117-122)
  recurses once per tree level, so CPython raises `RecursionError` on a tree more than about
  1000 levels deep, such as a long left-associative chain `a + a + ... + a`. The backend turns
  that into a "Parser Error" response. `FindFunctionsRecursive`, `ExtractionOutcome`,
  `ExtractionOutcomeSpec` and `CleanTreeIsExtracted` have no depth bound, so they return the
  records for such a tree too.
- `ParserEngine.Gate`: compares an exact rational ratio with 0.05, not IEEE floating point. The
  two agree unless a count is astronomically large.
- `PyStr.Lower`: lower-cases ASCII letters only, whereas Python's `str.lower` covers all of Unicode.
- `PyStr.Strip`: uses Python's `str.isspace` set of whitespace code points, written out.
- `ParserEngine.CodeIsWholeLines`: assumes the node's rows lie within the text, as those of a
  tree parsed from that text do. Outside that range, `PySlice` clamps the slice as Python does.
