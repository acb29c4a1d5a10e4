/** The function extractor: picks a language strategy, rejects text whose parse tree has too
    many `ERROR` nodes for the declared language, then collects every node of a callable kind, in
    pre-order, as a record with its name, 1-based line range, source lines and body text. */
module ParserEngine {
  import opened Wrappers
  import opened PyStr
  import opened SyntaxTree
  import opened Cursor

  /** Handles of the five tree-sitter grammars (foreign code; only their identity matters). */
  datatype Grammar = PythonGrammar | JavaScriptGrammar | CppGrammar | JavaGrammar | CSharpGrammar

  /** A grammar and the node kinds that count as callable units under it. */
  datatype LanguageStrategy = LanguageStrategy(language: Grammar, functionNodeTypes: seq<string>)

  const DefaultKey := "python"

  const Strategies: map<string, LanguageStrategy> := map[
    "python" := LanguageStrategy(PythonGrammar, ["function_definition"]),
    "javascript" := LanguageStrategy(JavaScriptGrammar, ["function_declaration", "arrow_function", "method_definition"]),
    "cpp" := LanguageStrategy(CppGrammar, ["function_definition"]),
    "java" := LanguageStrategy(JavaGrammar, ["method_declaration", "constructor_declaration"]),
    "csharp" := LanguageStrategy(CSharpGrammar, ["method_declaration", "local_function_statement"])
  ]

  // ---------------------------------------------------------------------------------------------
  // Strategy selection

  /** The table key for a declared language: lower-cased, then `#` spelled `sharp`, then `++`
      spelled `cpp`. */
  function NormalizeKey(langName: string): string
  {
    ReplaceAll(ReplaceAll(Lower(langName), "#", "sharp"), "++", "cpp")
  }

  /** The strategy for a declared language; an unknown key silently selects Python's. */
  function ResolveStrategy(langName: string): (s: LanguageStrategy)
    ensures s in Strategies.Values
    ensures NormalizeKey(langName) in Strategies ==> s == Strategies[NormalizeKey(langName)]
    ensures NormalizeKey(langName) !in Strategies ==> s.language == PythonGrammar
  {
    var key := NormalizeKey(langName);
    if key in Strategies then Strategies[key] else Strategies[DefaultKey]
  }

  /** A normalised key holds no `#` and no upper-case ASCII letter. */
  lemma NormalizedKeyShape(langName: string)
    ensures '#' !in NormalizeKey(langName)
    ensures forall i :: 0 <= i < |NormalizeKey(langName)| ==> !('A' <= NormalizeKey(langName)[i] <= 'Z')
  {
    var low := Lower(langName);
    var once := ReplaceAll(low, "#", "sharp");
    ReplaceAllRemoves(low, "#", "sharp");
    ReplaceAllKeepsAbsent(once, "++", "cpp", '#');
    forall c | 'A' <= c <= 'Z'
      ensures c !in NormalizeKey(langName)
    {
      forall i | 0 <= i < |low| ensures low[i] != c {
        assert low[i] == LowerChar(langName[i]);
      }
      ReplaceAllKeepsAbsent(low, "#", "sharp", c);
      ReplaceAllKeepsAbsent(once, "++", "cpp", c);
    }
    var key := NormalizeKey(langName);
    forall i | 0 <= i < |key| ensures !('A' <= key[i] <= 'Z') {
      assert key[i] in key;
    }
  }

  /** A language name without `#` or `+` is only lower-cased, so any capitalisation of
      `python`, `javascript`, `cpp`, `java` or `csharp` selects that language's strategy. */
  lemma PlainNameIsLowercased(langName: string)
    requires '#' !in Lower(langName) && '+' !in Lower(langName)
    ensures NormalizeKey(langName) == Lower(langName)
    ensures Lower(langName) in Strategies ==> ResolveStrategy(langName) == Strategies[Lower(langName)]
  {
    ReplaceAllAbsent(Lower(langName), "#", "sharp");
    ReplaceAllAbsent(Lower(langName), "++", "cpp");
  }

  /** `C#` becomes `csharp`, a key of the table. */
  lemma SharpSpelling()
    ensures NormalizeKey("C#") == "csharp" && ResolveStrategy("C#").language == CSharpGrammar
  {
    var lowered := Lower("C#");
    assert lowered[0] == 'c' && lowered[1] == '#';
    assert lowered == "c#";
    var hashless := "#"[1..];
    assert hashless == [] && ReplaceAll(hashless, "#", "sharp") == [];
    assert ReplaceAll("#", "#", "sharp") == "sharp";
    assert "c#"[1..] == "#";
    assert ReplaceAll("c#", "#", "sharp") == "c" + "sharp";
    assert "c" + "sharp" == "csharp";
    ReplaceAllAbsent("csharp", "++", "cpp");
    assert NormalizeKey("C#") == "csharp";
  }

  /** `C++` becomes `ccpp`, which is not a key, so it falls back to Python. */
  lemma PlusPlusSpelling()
    ensures NormalizeKey("C++") == "ccpp" && ResolveStrategy("C++").language == PythonGrammar
  {
    var lowered := Lower("C++");
    assert lowered[0] == 'c' && lowered[1] == '+' && lowered[2] == '+';
    assert lowered == "c++";
    ReplaceAllAbsent("c++", "#", "sharp");
    var rest := "++"[2..];
    assert ReplaceAll("++", "++", "cpp") == "cpp" + ReplaceAll(rest, "++", "cpp");
    assert ReplaceAll("c++", "++", "cpp") == "c" + ReplaceAll("++", "++", "cpp");
  }

  /** The bare `++` is what becomes `cpp`. */
  lemma BarePlusPlusSpelling()
    ensures NormalizeKey("++") == "cpp" && ResolveStrategy("++").language == CppGrammar
  {
    var lowered := Lower("++");
    assert lowered[0] == '+' && lowered[1] == '+';
    assert lowered == "++";
    ReplaceAllAbsent("++", "#", "sharp");
    var rest := "++"[2..];
    assert ReplaceAll("++", "++", "cpp") == "cpp" + ReplaceAll(rest, "++", "cpp");
  }

  /** An unknown language never fails: it gets Python's grammar and Python's one callable kind. */
  lemma UnknownLanguageFallsBack(langName: string)
    requires NormalizeKey(langName) !in Strategies
    ensures ResolveStrategy(langName) == LanguageStrategy(PythonGrammar, ["function_definition"])
  {
  }

  // ---------------------------------------------------------------------------------------------
  // Validity gate

  /** The rejection: the measured error ratio and the language the caller declared. */
  datatype LanguageMismatch = LanguageMismatch(ratio: real, language: string)

  lemma MulMono(a: real, b: real, t: real)
    requires t > 0.0 && a <= b
    ensures a * t <= b * t
  {
    assert (b - a) * t >= 0.0;
  }

  /** With exact arithmetic, a ratio above 0.05 is the same as more than one error in twenty. */
  lemma RatioThreshold(errors: nat, total: nat)
    requires total > 0
    ensures (errors as real / total as real > 0.05) <==> 20 * errors > total
  {
    var e, t := errors as real, total as real;
    var r := e / t;
    assert r * t == e;
    if r > 0.05 {
      MulMono(0.05, r, t);
      assert e >= 0.05 * t;
    } else {
      MulMono(r, 0.05, t);
    }
  }

  /** The decision after the walk: a zero count passes; otherwise the gate fails exactly when
      more than one visit in twenty was of an `ERROR` node, and the failure carries the ratio
      and the declared language. */
  function Gate(total: nat, errors: nat, langName: string): (v: Outcome<LanguageMismatch>)
    ensures v.Fail? <==> total > 0 && 20 * errors > total
    ensures v.Fail? ==> v.error == LanguageMismatch(errors as real / total as real, langName)
  {
    if total == 0 then Pass
    else
      var ratio := errors as real / total as real;
      RatioThreshold(errors, total);
      if ratio > 0.05 then Fail(LanguageMismatch(ratio, langName)) else Pass
  }

  /** The first alternative of a walk step: down to the first child, if there is one. */
  method TryDescend(cursor: TreeCursor) returns (moved: bool)
    requires cursor.Valid()
    modifies cursor
    ensures cursor.Valid()
    ensures moved == (old(cursor.node).children != [])
    ensures moved ==> cursor.frames == old(cursor.frames) + [Frame(old(cursor.node), 0)]
                      && cursor.node == old(cursor.node).children[0]
    ensures !moved ==> cursor.frames == old(cursor.frames) && cursor.node == old(cursor.node)
    ensures moved ==> Consumes(old(cursor.frames), old(cursor.node), false, cursor.frames, cursor.node, false)
  {
    ghost var frames, node := cursor.frames, cursor.node;
    moved := cursor.GotoFirstChild();
    if moved {
      DescendConsumes(frames, node);
    }
  }

  /** The second alternative: right to the next sibling, if there is one. */
  method TrySibling(cursor: TreeCursor, ghost visitedChildren: bool) returns (moved: bool)
    requires cursor.Valid()
    requires visitedChildren || cursor.node.children == []
    modifies cursor
    ensures cursor.Valid()
    ensures moved == HasNextSibling(old(cursor.frames))
    ensures moved ==> cursor.frames == SiblingPath(old(cursor.frames)) && cursor.node == SiblingNode(old(cursor.frames))
    ensures !moved ==> cursor.frames == old(cursor.frames) && cursor.node == old(cursor.node)
    ensures moved ==> Consumes(old(cursor.frames), old(cursor.node), visitedChildren, cursor.frames, cursor.node, false)
  {
    ghost var frames, node := cursor.frames, cursor.node;
    moved := cursor.GotoNextSibling();
    if moved {
      SiblingConsumes(frames, node, visitedChildren);
    }
  }

  /** The third alternative: up to the parent, unless the cursor is back at the start node,
      where nothing is left to count. */
  method TryAscend(cursor: TreeCursor, ghost visitedChildren: bool) returns (moved: bool)
    requires cursor.Valid()
    requires visitedChildren || cursor.node.children == []
    requires !HasNextSibling(cursor.frames)
    modifies cursor
    ensures cursor.Valid()
    ensures moved == (old(cursor.frames) != [])
    ensures moved ==> cursor.frames == old(cursor.frames)[..|old(cursor.frames)| - 1]
                      && cursor.node == old(cursor.frames)[|old(cursor.frames)| - 1].parent
    ensures !moved ==> cursor.frames == old(cursor.frames) && cursor.node == old(cursor.node)
    ensures moved ==> Consumes(old(cursor.frames), old(cursor.node), visitedChildren, cursor.frames, cursor.node, true)
    ensures !moved ==> Exhausted(old(cursor.frames), old(cursor.node), visitedChildren)
  {
    ghost var frames, node := cursor.frames, cursor.node;
    moved := cursor.GotoParent();
    if moved {
      AscendConsumes(frames, node, visitedChildren);
    } else {
      FinalExhausts(node, visitedChildren);
    }
  }

  /** One move of the validity walk, in depth-first order: down to the first child when the
      children are still to be visited and there is one, else right to the next sibling, else
      up to the parent, whose children are then marked visited (`nextVisited`). The walk stops
      (`moved` is false) only on the start node once its children are done. Each move uses up
      exactly the visit just counted at the node the cursor left. */
  method AdvanceWalk(cursor: TreeCursor, visitedChildren: bool) returns (nextVisited: bool, moved: bool)
    requires cursor.Valid()
    modifies cursor
    ensures cursor.Valid()
    ensures !visitedChildren && old(cursor.node).children != [] ==>
              && moved && !nextVisited
              && cursor.frames == old(cursor.frames) + [Frame(old(cursor.node), 0)]
              && cursor.node == old(cursor.node).children[0]
    ensures (visitedChildren || old(cursor.node).children == []) && HasNextSibling(old(cursor.frames)) ==>
              && moved && !nextVisited
              && cursor.frames == SiblingPath(old(cursor.frames))
              && cursor.node == SiblingNode(old(cursor.frames))
    ensures (visitedChildren || old(cursor.node).children == []) && !HasNextSibling(old(cursor.frames))
            && old(cursor.frames) != [] ==>
              && moved && nextVisited
              && cursor.frames == old(cursor.frames)[..|old(cursor.frames)| - 1]
              && cursor.node == old(cursor.frames)[|old(cursor.frames)| - 1].parent
    ensures !moved <==> (visitedChildren || old(cursor.node).children == []) && old(cursor.frames) == []
    ensures !moved ==> cursor.frames == old(cursor.frames) && cursor.node == old(cursor.node)
    ensures moved ==> Consumes(old(cursor.frames), old(cursor.node), visitedChildren, cursor.frames, cursor.node, nextVisited)
    ensures !moved ==> Exhausted(old(cursor.frames), old(cursor.node), visitedChildren)
  {
    if !visitedChildren {
      moved := TryDescend(cursor);
      if moved {
        return false, true;
      }
    }
    moved := TrySibling(cursor, visitedChildren);
    if moved {
      return false, true;
    }
    moved := TryAscend(cursor, visitedChildren);
    return true, moved;
  }

  /** The validity gate: walks the whole tree with a cursor, counting visits and visits of
      `ERROR` nodes, and returns the gate's decision on those counts. */
  method CheckSyntaxValidity(root: Node, langName: string) returns (verdict: Outcome<LanguageMismatch>)
    ensures verdict == Gate(Visits(root, AllNodes), Visits(root, ErrorNodes), langName)
    ensures verdict.Fail? <==> 20 * Visits(root, ErrorNodes) > Visits(root, AllNodes)
  {
    var totalNodes: nat := 0;
    var errorNodes: nat := 0;
    var cursor := new TreeCursor(root);
    var visitedChildren := false;
    while true
      invariant cursor.Valid() && cursor.root == root
      invariant totalNodes + Remaining(cursor.frames, cursor.node, visitedChildren, AllNodes) == Visits(root, AllNodes)
      invariant errorNodes + Remaining(cursor.frames, cursor.node, visitedChildren, ErrorNodes) == Visits(root, ErrorNodes)
      decreases Remaining(cursor.frames, cursor.node, visitedChildren, AllNodes)
    {
      totalNodes := totalNodes + 1;
      if cursor.node.kind == ErrorKind {
        errorNodes := errorNodes + 1;
      }
      var moved;
      visitedChildren, moved := AdvanceWalk(cursor, visitedChildren);
      if !moved {
        break;
      }
    }
    VisitBounds(root);
    verdict := Gate(totalNodes, errorNodes, langName);
  }

  /** The `total_nodes == 0` branch of the gate is dead: every tree counts its root, so the
      gate's answer is decided by the error ratio alone. */
  lemma GateNeverSeesEmptyCount(root: Node, langName: string)
    ensures Visits(root, AllNodes) >= 1
    ensures Gate(Visits(root, AllNodes), Visits(root, ErrorNodes), langName).Pass?
        <==> 20 * Visits(root, ErrorNodes) <= Visits(root, AllNodes)
  {
    VisitBounds(root);
  }

  /** A tree without `ERROR` nodes always passes the gate. */
  lemma CleanTreePasses(root: Node, langName: string)
    requires forall k :: 0 <= k < |Preorder(root)| ==> Preorder(root)[k].kind != ErrorKind
    ensures Gate(Visits(root, AllNodes), Visits(root, ErrorNodes), langName) == Pass
  {
    VisitBounds(root);
  }

  /** In a single-node tree the one visit decides: a lone `ERROR` node is rejected with ratio 1. */
  lemma LeafCountsOnce(leaf: Node, langName: string)
    requires leaf.children == []
    ensures Visits(leaf, AllNodes) == 1
    ensures Visits(leaf, ErrorNodes) == (if leaf.kind == ErrorKind then 1 else 0)
    ensures leaf.kind == ErrorKind ==>
              Gate(Visits(leaf, AllNodes), Visits(leaf, ErrorNodes), langName) == Fail(LanguageMismatch(1.0, langName))
  {
    assert VisitsAll(leaf.children, AllNodes) == 0;
    assert VisitsAll(leaf.children, ErrorNodes) == 0;
  }

  /** A node whose children are all leaves is visited once, then once per child, then once
      more when the cursor climbs back to it. */
  lemma ParentCountsTwice(parent: Node)
    requires parent.children != []
    requires forall k :: 0 <= k < |parent.children| ==> parent.children[k].children == []
    ensures Visits(parent, AllNodes) == |parent.children| + 2
  {
    LeavesVisitOnce(parent.children);
  }

  lemma {:induction false} LeavesVisitOnce(cs: seq<Node>)
    requires forall k :: 0 <= k < |cs| ==> cs[k].children == []
    ensures VisitsAll(cs, AllNodes) == |cs|
  {
    if cs != [] {
      assert VisitsAll(cs[0].children, AllNodes) == 0;
      LeavesVisitOnce(cs[1..]);
    }
  }

  // ---------------------------------------------------------------------------------------------
  // Records

  /** One extracted callable unit. */
  datatype FunctionUnit = FunctionUnit(name: string, startLine: nat, endLine: nat, code: string, bodyOnly: string)

  const AnonymousName := "anonymous"

  /** The text of the `name` field, else of the `declarator` field, else `anonymous`. */
  function GetName(node: Node): (name: string)
    ensures "name" in node.fields ==> name == node.fields["name"]
    ensures "name" !in node.fields && "declarator" in node.fields ==> name == node.fields["declarator"]
    ensures "name" !in node.fields && "declarator" !in node.fields ==> name == AnonymousName
    ensures name == AnonymousName || name in node.fields.Values
  {
    if "name" in node.fields then node.fields["name"]
    else if "declarator" in node.fields then node.fields["declarator"]
    else AnonymousName
  }

  /** Python's `xs[a:b]` for non-negative bounds: both are clamped to the length and an empty
      range gives nothing. */
  function PySlice<T>(xs: seq<T>, a: nat, b: nat): (r: seq<T>)
    ensures a <= b <= |xs| ==> r == xs[a..b]
    ensures b <= a ==> r == []
  {
    var lo := if a <= |xs| then a else |xs|;
    var hi := if b <= |xs| then b else |xs|;
    if lo <= hi then xs[lo..hi] else []
  }

  /** The record for one matching node. */
  function ProcessNode(node: Node, fullCode: string): FunctionUnit
  {
    var startLine := node.startRow + 1;
    var endLine := node.endRow + 1;
    var lines := Split(fullCode, '\n');
    var functionSource := Join(PySlice(lines, startLine - 1, endLine), '\n');
    var bodyText := if "body" in node.fields then node.fields["body"] else "";
    FunctionUnit(GetName(node), startLine, endLine, functionSource, bodyText)
  }

  /** Line numbers are the node's rows shifted to 1-based, so they are at least 1 and in order
      when the rows are; the body is the `body` field's text or empty. */
  lemma ProcessNodeFields(node: Node, fullCode: string)
    ensures ProcessNode(node, fullCode).startLine >= 1
    ensures ProcessNode(node, fullCode).startLine - 1 == node.startRow
    ensures ProcessNode(node, fullCode).endLine - 1 == node.endRow
    ensures node.startRow <= node.endRow ==> ProcessNode(node, fullCode).startLine <= ProcessNode(node, fullCode).endLine
    ensures ProcessNode(node, fullCode).bodyOnly == (if "body" in node.fields then node.fields["body"] else "")
    ensures ProcessNode(node, fullCode).name == GetName(node)
  {
  }

  /** Two nodes with the same body field and rows give records that differ at most in their
      names: renaming a function does not change `body_only`. */
  lemma BodyIndependentOfName(n1: Node, n2: Node, fullCode: string)
    requires "body" in n1.fields <==> "body" in n2.fields
    requires "body" in n1.fields ==> n1.fields["body"] == n2.fields["body"]
    requires n1.startRow == n2.startRow && n1.endRow == n2.endRow
    ensures ProcessNode(n1, fullCode).bodyOnly == ProcessNode(n2, fullCode).bodyOnly
    ensures ProcessNode(n1, fullCode).(name := "") == ProcessNode(n2, fullCode).(name := "")
  {
  }

  /** The lines before line `lo`, each ended by its break: empty or ending in a break. */
  function LinesBefore(lines: seq<string>, lo: nat): (pre: string)
    requires lo <= |lines|
    ensures pre == [] <==> lo == 0
    ensures pre != [] ==> pre[|pre| - 1] == '\n'
  {
    if lo == 0 then [] else Join(lines[..lo], '\n') + ['\n']
  }

  /** The lines from line `hi` on, each started by the break before it: empty or starting with
      a break. */
  function LinesAfter(lines: seq<string>, hi: nat): (post: string)
    requires hi <= |lines|
    ensures post == [] <==> hi == |lines|
    ensures post != [] ==> post[0] == '\n'
  {
    if hi == |lines| then [] else ['\n'] + Join(lines[hi..], '\n')
  }

  lemma JoinBeforeMiddle(lines: seq<string>, lo: nat, hi: nat)
    requires lo < hi <= |lines|
    ensures Join(lines[..hi], '\n') == LinesBefore(lines, lo) + Join(lines[lo..hi], '\n')
  {
    if lo > 0 {
      JoinFront(lines, lo, hi, '\n');
    } else {
      assert lines[..hi] == lines[lo..hi];
    }
  }

  lemma JoinThenAfter(lines: seq<string>, hi: nat)
    requires 0 < hi <= |lines|
    ensures Join(lines, '\n') == Join(lines[..hi], '\n') + LinesAfter(lines, hi)
  {
    if hi < |lines| {
      JoinBack(lines, hi, '\n');
    } else {
      assert lines[..hi] == lines;
    }
  }

  lemma JoinAround(lines: seq<string>, lo: nat, hi: nat)
    requires lo < hi <= |lines|
    ensures Join(lines, '\n') == LinesBefore(lines, lo) + Join(lines[lo..hi], '\n') + LinesAfter(lines, hi)
  {
    JoinBeforeMiddle(lines, lo, hi);
    JoinThenAfter(lines, hi);
  }

  lemma CountsAround(lines: seq<string>, lo: nat, hi: nat)
    requires lo < hi <= |lines|
    requires forall k :: 0 <= k < |lines| ==> '\n' !in lines[k]
    ensures Count(LinesBefore(lines, lo), '\n') == lo
    ensures Count(Join(lines[lo..hi], '\n'), '\n') == hi - lo - 1
  {
    JoinCount(lines[lo..hi], '\n');
    if lo > 0 {
      JoinCount(lines[..lo], '\n');
      CountAppend(Join(lines[..lo], '\n'), ['\n'], '\n');
    }
  }

  /** For a node whose rows lie within the text, `code` is the exact run of whole input lines
      `start_line..end_line`: the text is the lines before `start_line` (each ended by its
      break, so exactly `start_row` breaks), then `code`, then the lines after `end_line` (each
      started by its break); `code` holds one break fewer than it has lines. */
  lemma CodeIsWholeLines(node: Node, fullCode: string)
    requires node.startRow <= node.endRow < |Split(fullCode, '\n')|
    ensures fullCode == LinesBefore(Split(fullCode, '\n'), node.startRow)
                        + ProcessNode(node, fullCode).code
                        + LinesAfter(Split(fullCode, '\n'), node.endRow + 1)
    ensures Count(LinesBefore(Split(fullCode, '\n'), node.startRow), '\n') == node.startRow
    ensures Count(ProcessNode(node, fullCode).code, '\n') == node.endRow - node.startRow
  {
    var lines := Split(fullCode, '\n');
    var lo, hi := node.startRow, node.endRow + 1;
    assert ProcessNode(node, fullCode).code == Join(lines[lo..hi], '\n');
    JoinSplit(fullCode, '\n');
    SplitPartsFree(fullCode, '\n');
    JoinAround(lines, lo, hi);
    CountsAround(lines, lo, hi);
  }

  // ---------------------------------------------------------------------------------------------
  // Pre-order extraction

  /** The records of all nodes of `n`'s subtree whose kind is a target, in pre-order. */
  function Extract(n: Node, code: string, targets: seq<string>): seq<FunctionUnit>
    decreases n, 1
  {
    (if n.kind in targets then [ProcessNode(n, code)] else []) + ExtractAll(n.children, code, targets)
  }

  function ExtractAll(cs: seq<Node>, code: string, targets: seq<string>): seq<FunctionUnit>
    decreases cs, 0
  {
    if cs == [] then [] else Extract(cs[0], code, targets) + ExtractAll(cs[1..], code, targets)
  }

  /** The nodes of `ns` whose kind is a target, in their order in `ns`. */
  function Select(ns: seq<Node>, targets: seq<string>): (r: seq<Node>)
    ensures |r| <= |ns|
    ensures forall k :: 0 <= k < |r| ==> r[k].kind in targets && r[k] in ns
    ensures forall x :: x in ns && x.kind in targets ==> x in r
  {
    if ns == [] then []
    else (if ns[0].kind in targets then [ns[0]] else []) + Select(ns[1..], targets)
  }

  /** The record of each node of `ns`, in order. */
  function Units(ns: seq<Node>, code: string): (r: seq<FunctionUnit>)
    ensures |r| == |ns|
    ensures forall k :: 0 <= k < |ns| ==> r[k] == ProcessNode(ns[k], code)
  {
    if ns == [] then [] else [ProcessNode(ns[0], code)] + Units(ns[1..], code)
  }

  lemma {:induction false} SelectAppend(a: seq<Node>, b: seq<Node>, targets: seq<string>)
    ensures Select(a + b, targets) == Select(a, targets) + Select(b, targets)
  {
    if a == [] {
      assert a + b == b;
    } else {
      assert (a + b)[1..] == a[1..] + b;
      SelectAppend(a[1..], b, targets);
    }
  }

  lemma UnitsAppend(a: seq<Node>, b: seq<Node>, code: string)
    ensures Units(a + b, code) == Units(a, code) + Units(b, code)
  {
  }

  /** The recursive walk lists exactly the target-kind nodes of the pre-order listing, in
      pre-order: a matching parent before its children, children left to right, and the
      descendants of a matching node still searched. */
  lemma {:induction false} ExtractIsSelectedPreorder(n: Node, code: string, targets: seq<string>)
    ensures Extract(n, code, targets) == Units(Select(Preorder(n), targets), code)
    decreases n, 1
  {
    ExtractAllIsSelectedPreorder(n.children, code, targets);
    SelectAppend([n], PreorderAll(n.children), targets);
    UnitsAppend(Select([n], targets), Select(PreorderAll(n.children), targets), code);
  }

  lemma {:induction false} ExtractAllIsSelectedPreorder(cs: seq<Node>, code: string, targets: seq<string>)
    ensures ExtractAll(cs, code, targets) == Units(Select(PreorderAll(cs), targets), code)
    decreases cs, 0
  {
    if cs != [] {
      ExtractIsSelectedPreorder(cs[0], code, targets);
      ExtractAllIsSelectedPreorder(cs[1..], code, targets);
      SelectAppend(Preorder(cs[0]), PreorderAll(cs[1..]), targets);
      UnitsAppend(Select(Preorder(cs[0]), targets), Select(PreorderAll(cs[1..]), targets), code);
    }
  }

  lemma ExtractCoversMatches(n: Node, code: string, targets: seq<string>)
    ensures forall x :: x in Preorder(n) && x.kind in targets ==> ProcessNode(x, code) in Extract(n, code, targets)
  {
    ExtractIsSelectedPreorder(n, code, targets);
    var sel := Select(Preorder(n), targets);
    forall x | x in Preorder(n) && x.kind in targets
      ensures ProcessNode(x, code) in Extract(n, code, targets)
    {
      var k :| 0 <= k < |sel| && sel[k] == x;
      assert Units(sel, code)[k] == ProcessNode(x, code);
    }
  }

  lemma ExtractOnlyMatches(n: Node, code: string, targets: seq<string>)
    ensures forall k :: 0 <= k < |Extract(n, code, targets)| ==>
              exists x :: x in Preorder(n) && x.kind in targets && Extract(n, code, targets)[k] == ProcessNode(x, code)
  {
    ExtractIsSelectedPreorder(n, code, targets);
    var sel := Select(Preorder(n), targets);
    forall k | 0 <= k < |Extract(n, code, targets)|
      ensures exists x :: x in Preorder(n) && x.kind in targets && Extract(n, code, targets)[k] == ProcessNode(x, code)
    {
      var x := sel[k];
      assert x in Preorder(n) && x.kind in targets;
      assert Extract(n, code, targets)[k] == ProcessNode(x, code);
    }
  }

  /** One record per matching node of the tree, and every matching node, however deeply
      nested, has its record in the result. */
  lemma ExtractExactlyMatches(n: Node, code: string, targets: seq<string>)
    ensures |Extract(n, code, targets)| == |Select(Preorder(n), targets)|
    ensures forall x :: x in Preorder(n) && x.kind in targets ==> ProcessNode(x, code) in Extract(n, code, targets)
    ensures forall k :: 0 <= k < |Extract(n, code, targets)| ==>
              exists x :: x in Preorder(n) && x.kind in targets && Extract(n, code, targets)[k] == ProcessNode(x, code)
  {
    ExtractIsSelectedPreorder(n, code, targets);
    ExtractCoversMatches(n, code, targets);
    ExtractOnlyMatches(n, code, targets);
  }

  lemma {:induction false} ExtractAllAppend(a: seq<Node>, b: seq<Node>, code: string, targets: seq<string>)
    ensures ExtractAll(a + b, code, targets) == ExtractAll(a, code, targets) + ExtractAll(b, code, targets)
  {
    if a == [] {
      assert a + b == b;
    } else {
      assert (a + b)[1..] == a[1..] + b;
      ExtractAllAppend(a[1..], b, code, targets);
    }
  }

  lemma ExtractAllSnoc(cs: seq<Node>, i: nat, code: string, targets: seq<string>)
    requires i < |cs|
    ensures ExtractAll(cs[..i + 1], code, targets) == ExtractAll(cs[..i], code, targets) + Extract(cs[i], code, targets)
  {
    assert cs[..i + 1] == cs[..i] + [cs[i]];
    ExtractAllAppend(cs[..i], [cs[i]], code, targets);
    assert ExtractAll([cs[i]], code, targets) == Extract(cs[i], code, targets) + ExtractAll([], code, targets);
  }

  /** `_find_functions_recursive`: appends the record of `node` if it matches, then recurses into
      each child in order. The list it is given is only extended, by the subtree's records in
      pre-order. */
  method FindFunctionsRecursive(node: Node, code: string, functions: seq<FunctionUnit>, targetTypes: seq<string>)
    returns (result: seq<FunctionUnit>)
    ensures result == functions + Extract(node, code, targetTypes)
    decreases node
  {
    result := functions;
    if node.kind in targetTypes {
      result := result + [ProcessNode(node, code)];
    }
    ghost var prefix := result;
    var i := 0;
    while i < |node.children|
      invariant 0 <= i <= |node.children|
      invariant result == prefix + ExtractAll(node.children[..i], code, targetTypes)
    {
      result := FindFunctionsRecursive(node.children[i], code, result, targetTypes);
      ExtractAllSnoc(node.children, i, code, targetTypes);
      i := i + 1;
    }
    assert node.children[..i] == node.children;
  }

  // ---------------------------------------------------------------------------------------------
  // The whole extraction

  /** What `extract_functions` returns for a tree parsed with the selected grammar: the gate's
      rejection, or the records of the strategy's callable kinds in pre-order. */
  function ExtractionOutcome(code: string, langName: string, tree: Node): Result<seq<FunctionUnit>, LanguageMismatch>
  {
    match Gate(Visits(tree, AllNodes), Visits(tree, ErrorNodes), langName)
    case Fail(mismatch) => Failure(mismatch)
    case Pass => Success(Extract(tree, code, ResolveStrategy(langName).functionNodeTypes))
  }

  /** Extraction fails, with the declared language and the measured ratio, exactly when more
      than one visit in twenty is of an `ERROR` node, and then produces no records; otherwise
      it returns every node of a callable kind of the selected strategy, in pre-order. */
  lemma ExtractionOutcomeSpec(code: string, langName: string, tree: Node)
    ensures ExtractionOutcome(code, langName, tree).Failure?
        <==> 20 * Visits(tree, ErrorNodes) > Visits(tree, AllNodes)
    ensures ExtractionOutcome(code, langName, tree).Failure? ==>
              ExtractionOutcome(code, langName, tree).error
                == LanguageMismatch(Visits(tree, ErrorNodes) as real / Visits(tree, AllNodes) as real, langName)
    ensures ExtractionOutcome(code, langName, tree).Success? ==>
              ExtractionOutcome(code, langName, tree).value
                == Units(Select(Preorder(tree), ResolveStrategy(langName).functionNodeTypes), code)
  {
    VisitBounds(tree);
    ExtractIsSelectedPreorder(tree, code, ResolveStrategy(langName).functionNodeTypes);
  }

  /** A tree without `ERROR` nodes is always extracted. */
  lemma CleanTreeIsExtracted(code: string, langName: string, tree: Node)
    requires forall k :: 0 <= k < |Preorder(tree)| ==> Preorder(tree)[k].kind != ErrorKind
    ensures ExtractionOutcome(code, langName, tree).Success?
  {
    CleanTreePasses(tree, langName);
  }

  /** `TreeSitterParser`: the parser object, whose selected grammar `extract_functions` sets. */
  class TreeSitterParser {
    var language: Option<Grammar>

    constructor ()
      ensures language == None
    {
      language := None;
    }

    /** `extract_functions`; `parse` stands for tree-sitter's parser under a grammar. The
        declared language defaults to `python`. */
    method ExtractFunctions(code: string, parse: (Grammar, string) -> Node, langName: string := DefaultKey)
      returns (r: Result<seq<FunctionUnit>, LanguageMismatch>)
      modifies this
      ensures language == Some(ResolveStrategy(langName).language)
      ensures r == ExtractionOutcome(code, langName, parse(ResolveStrategy(langName).language, code))
    {
      var strategy := ResolveStrategy(langName);
      language := Some(strategy.language);
      var rootNode := parse(strategy.language, code);
      var verdict := CheckSyntaxValidity(rootNode, langName);
      if verdict.Fail? {
        return Failure(verdict.error);
      }
      var functions := FindFunctionsRecursive(rootNode, code, [], strategy.functionNodeTypes);
      assert functions == Extract(rootNode, code, strategy.functionNodeTypes);
      r := Success(functions);
    }
  }
}
