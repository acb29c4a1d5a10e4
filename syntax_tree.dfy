/** The concrete syntax tree a tree-sitter grammar produces, taken as given: the grammar itself is
    foreign code. A node has its kind (`node.type`), its children in source order, its 0-based
    start and end rows, and the text of each named field child (`name`, `declarator`, `body`). */
module SyntaxTree {

  datatype Node = Node(
    kind: string,
    children: seq<Node>,
    startRow: nat,
    endRow: nat,
    fields: map<string, string>)

  /** The kind tree-sitter gives a node it could not parse. */
  const ErrorKind := "ERROR"

  /** Every node of the tree in pre-order: a node, then the subtrees of its children from left
      to right. */
  function Preorder(n: Node): seq<Node>
    decreases n, 1
  {
    [n] + PreorderAll(n.children)
  }

  function PreorderAll(cs: seq<Node>): seq<Node>
    decreases cs, 0
  {
    if cs == [] then [] else Preorder(cs[0]) + PreorderAll(cs[1..])
  }

  /** What the validity gate counts: every visit, or only visits of `ERROR` nodes. */
  datatype Measure = AllNodes | ErrorNodes

  /** What one visit of `n` adds to the counter for `m`. */
  function Weight(n: Node, m: Measure): nat
  {
    match m
    case AllNodes => 1
    case ErrorNodes => if n.kind == ErrorKind then 1 else 0
  }

  /** The counter after a full cursor walk of `n`'s subtree: a node is counted when the cursor
      first reaches it and, if it has children, once more when the cursor climbs back to it. */
  function Visits(n: Node, m: Measure): nat
    decreases n, 1
  {
    Weight(n, m) + VisitsAll(n.children, m) + (if n.children == [] then 0 else Weight(n, m))
  }

  function VisitsAll(cs: seq<Node>, m: Measure): nat
    decreases cs, 0
  {
    if cs == [] then 0 else Visits(cs[0], m) + VisitsAll(cs[1..], m)
  }

  /** Reference definition of the same total, node by node: a leaf weighs one visit, a node
      with children two. */
  function NodeWeight(n: Node, m: Measure): nat
  {
    if n.children == [] then Weight(n, m) else 2 * Weight(n, m)
  }

  function TotalWeight(ns: seq<Node>, m: Measure): nat
  {
    if ns == [] then 0 else NodeWeight(ns[0], m) + TotalWeight(ns[1..], m)
  }

  lemma {:induction false} TotalWeightAppend(a: seq<Node>, b: seq<Node>, m: Measure)
    ensures TotalWeight(a + b, m) == TotalWeight(a, m) + TotalWeight(b, m)
  {
    if a == [] {
      assert a + b == b;
    } else {
      assert (a + b)[1..] == a[1..] + b;
      TotalWeightAppend(a[1..], b, m);
    }
  }

  /** The cursor walk visits every node of the tree: its count is the sum, over the pre-order
      listing of all nodes, of one for each leaf and two for each node with children. */
  lemma {:induction false} VisitsArePreorderWeights(n: Node, m: Measure)
    ensures Visits(n, m) == TotalWeight(Preorder(n), m)
    decreases n, 1
  {
    VisitsAllArePreorderWeights(n.children, m);
    TotalWeightAppend([n], PreorderAll(n.children), m);
  }

  lemma {:induction false} VisitsAllArePreorderWeights(cs: seq<Node>, m: Measure)
    ensures VisitsAll(cs, m) == TotalWeight(PreorderAll(cs), m)
    decreases cs, 0
  {
    if cs != [] {
      VisitsArePreorderWeights(cs[0], m);
      VisitsAllArePreorderWeights(cs[1..], m);
      TotalWeightAppend(Preorder(cs[0]), PreorderAll(cs[1..]), m);
    }
  }

  lemma {:induction false} TotalWeightBounds(ns: seq<Node>)
    ensures TotalWeight(ns, ErrorNodes) <= TotalWeight(ns, AllNodes)
    ensures |ns| <= TotalWeight(ns, AllNodes)
    ensures (forall k :: 0 <= k < |ns| ==> ns[k].kind != ErrorKind) ==> TotalWeight(ns, ErrorNodes) == 0
  {
    if ns != [] {
      TotalWeightBounds(ns[1..]);
      assert forall k :: 0 <= k < |ns| - 1 ==> ns[1..][k] == ns[k + 1];
    }
  }

  /** The root is always counted, error visits never outnumber visits, and a tree without
      `ERROR` nodes has no error visits. */
  lemma VisitBounds(n: Node)
    ensures Visits(n, AllNodes) >= |Preorder(n)| >= 1
    ensures Visits(n, ErrorNodes) <= Visits(n, AllNodes)
    ensures (forall k :: 0 <= k < |Preorder(n)| ==> Preorder(n)[k].kind != ErrorKind) ==>
              Visits(n, ErrorNodes) == 0
  {
    VisitsArePreorderWeights(n, AllNodes);
    VisitsArePreorderWeights(n, ErrorNodes);
    TotalWeightBounds(Preorder(n));
  }
}
