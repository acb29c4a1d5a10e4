/** tree-sitter's `TreeCursor` (what `node.walk()` returns): a position in the tree that moves
    to the first child, the next sibling or the parent, never above the node it started from. */
module Cursor {
  import opened SyntaxTree

  /** One level of the path from the start node down to the cursor: a parent and the index of
      the child the path goes through. */
  datatype Frame = Frame(parent: Node, index: nat)

  /** The path `frames` leads from `root` down to `node`. */
  ghost predicate OnPath(root: Node, frames: seq<Frame>, node: Node)
    decreases |frames|
  {
    if frames == [] then node == root
    else
      var f := frames[|frames| - 1];
      && f.index < |f.parent.children|
      && node == f.parent.children[f.index]
      && OnPath(root, frames[..|frames| - 1], f.parent)
  }

  /** What the siblings to the right of each frame's child, and the frame's parent on the way
      back up, still add to the counter for `m`. */
  ghost function Pending(frames: seq<Frame>, m: Measure): nat
    decreases |frames|
  {
    if frames == [] then 0
    else
      var f := frames[|frames| - 1];
      var right := if f.index < |f.parent.children| then f.parent.children[f.index + 1..] else [];
      Pending(frames[..|frames| - 1], m) + VisitsAll(right, m) + Weight(f.parent, m)
  }

  /** What the walk still adds to the counter for `m`, counting the visit about to be made at
      `node`: all of `node`'s subtree if its children are still to be visited, else `node` once. */
  ghost function Remaining(frames: seq<Frame>, node: Node, visitedChildren: bool, m: Measure): nat
  {
    (if visitedChildren then Weight(node, m) else Visits(node, m)) + Pending(frames, m)
  }

  /** Moving down to the first child uses up one visit of `node`. */
  lemma DescendStep(frames: seq<Frame>, node: Node, m: Measure)
    requires node.children != []
    ensures Remaining(frames, node, false, m)
         == Weight(node, m) + Remaining(frames + [Frame(node, 0)], node.children[0], false, m)
  {
    var fs := frames + [Frame(node, 0)];
    assert fs[..|fs| - 1] == frames;
    assert Pending(fs, m) == Pending(frames, m) + VisitsAll(node.children[1..], m) + Weight(node, m);
    assert VisitsAll(node.children, m) == Visits(node.children[0], m) + VisitsAll(node.children[1..], m);
  }

  /** Moving right to the next sibling uses up one visit of `node`. */
  lemma SiblingStep(frames: seq<Frame>, node: Node, visitedChildren: bool, m: Measure)
    requires frames != []
    requires visitedChildren || node.children == []
    requires frames[|frames| - 1].index + 1 < |frames[|frames| - 1].parent.children|
    ensures Remaining(frames, node, visitedChildren, m)
         == Weight(node, m)
            + Remaining(frames[..|frames| - 1] + [Frame(frames[|frames| - 1].parent, frames[|frames| - 1].index + 1)],
                        frames[|frames| - 1].parent.children[frames[|frames| - 1].index + 1], false, m)
  {
    var f := frames[|frames| - 1];
    var fs := frames[..|frames| - 1] + [Frame(f.parent, f.index + 1)];
    assert fs[..|fs| - 1] == frames[..|frames| - 1];
    var right := f.parent.children[f.index + 1..];
    assert right[1..] == f.parent.children[f.index + 2..];
    assert VisitsAll(right, m) == Visits(f.parent.children[f.index + 1], m) + VisitsAll(right[1..], m);
    assert Pending(fs, m) == Pending(frames[..|frames| - 1], m) + VisitsAll(right[1..], m) + Weight(f.parent, m);
    assert Pending(frames, m) == Pending(frames[..|frames| - 1], m) + VisitsAll(right, m) + Weight(f.parent, m);
    if !visitedChildren {
      assert Visits(node, m) == Weight(node, m) + VisitsAll([], m);
    }
  }

  /** Moving up to the parent uses up one visit of `node`; the parent is then recounted. */
  lemma AscendStep(frames: seq<Frame>, node: Node, visitedChildren: bool, m: Measure)
    requires frames != []
    requires visitedChildren || node.children == []
    requires frames[|frames| - 1].index + 1 >= |frames[|frames| - 1].parent.children|
    ensures Remaining(frames, node, visitedChildren, m)
         == Weight(node, m) + Remaining(frames[..|frames| - 1], frames[|frames| - 1].parent, true, m)
  {
  }

  /** Back at the start node with nothing left below it, the last visit is the last one. */
  lemma FinalStep(node: Node, visitedChildren: bool, m: Measure)
    requires visitedChildren || node.children == []
    ensures Remaining([], node, visitedChildren, m) == Weight(node, m)
  {
    if !visitedChildren {
      assert Visits(node, m) == Weight(node, m) + VisitsAll([], m);
    }
  }

  /** Moving from (`frames`, `node`, `visited`) to (`frames'`, `node'`, `visited'`) uses up
      exactly one visit of `node`, for both counters. */
  ghost predicate Consumes(frames: seq<Frame>, node: Node, visited: bool,
                           frames': seq<Frame>, node': Node, visited': bool)
  {
    && Remaining(frames, node, visited, AllNodes) == Weight(node, AllNodes) + Remaining(frames', node', visited', AllNodes)
    && Remaining(frames, node, visited, ErrorNodes) == Weight(node, ErrorNodes) + Remaining(frames', node', visited', ErrorNodes)
  }

  /** With no move left, the visit just made at `node` was the last one, for both counters. */
  ghost predicate Exhausted(frames: seq<Frame>, node: Node, visited: bool)
  {
    && Remaining(frames, node, visited, AllNodes) == Weight(node, AllNodes)
    && Remaining(frames, node, visited, ErrorNodes) == Weight(node, ErrorNodes)
  }

  /** The last level of the path has a child to the right of the one the path goes through. */
  predicate HasNextSibling(frames: seq<Frame>)
  {
    frames != [] && frames[|frames| - 1].index + 1 < |frames[|frames| - 1].parent.children|
  }

  /** The path to the next sibling: the last level moved one child to the right. */
  function SiblingPath(frames: seq<Frame>): seq<Frame>
    requires HasNextSibling(frames)
  {
    var f := frames[|frames| - 1];
    frames[..|frames| - 1] + [Frame(f.parent, f.index + 1)]
  }

  /** The next sibling itself. */
  function SiblingNode(frames: seq<Frame>): Node
    requires HasNextSibling(frames)
  {
    var f := frames[|frames| - 1];
    f.parent.children[f.index + 1]
  }

  lemma DescendConsumes(frames: seq<Frame>, node: Node)
    requires node.children != []
    ensures Consumes(frames, node, false, frames + [Frame(node, 0)], node.children[0], false)
  {
    DescendStep(frames, node, AllNodes);
    DescendStep(frames, node, ErrorNodes);
  }

  lemma SiblingConsumes(frames: seq<Frame>, node: Node, visitedChildren: bool)
    requires frames != []
    requires visitedChildren || node.children == []
    requires frames[|frames| - 1].index + 1 < |frames[|frames| - 1].parent.children|
    ensures Consumes(frames, node, visitedChildren,
                     frames[..|frames| - 1] + [Frame(frames[|frames| - 1].parent, frames[|frames| - 1].index + 1)],
                     frames[|frames| - 1].parent.children[frames[|frames| - 1].index + 1], false)
  {
    SiblingStep(frames, node, visitedChildren, AllNodes);
    SiblingStep(frames, node, visitedChildren, ErrorNodes);
  }

  lemma AscendConsumes(frames: seq<Frame>, node: Node, visitedChildren: bool)
    requires frames != []
    requires visitedChildren || node.children == []
    requires frames[|frames| - 1].index + 1 >= |frames[|frames| - 1].parent.children|
    ensures Consumes(frames, node, visitedChildren, frames[..|frames| - 1], frames[|frames| - 1].parent, true)
  {
    AscendStep(frames, node, visitedChildren, AllNodes);
    AscendStep(frames, node, visitedChildren, ErrorNodes);
  }

  lemma FinalExhausts(node: Node, visitedChildren: bool)
    requires visitedChildren || node.children == []
    ensures Exhausted([], node, visitedChildren)
  {
    FinalStep(node, visitedChildren, AllNodes);
    FinalStep(node, visitedChildren, ErrorNodes);
  }

  class TreeCursor {
    /** The node `walk()` was called on. */
    const root: Node
    /** The node the cursor is on (`cursor.node`). */
    var node: Node
    /** The path from `root` down to `node`. */
    var frames: seq<Frame>

    ghost predicate Valid()
      reads this
    {
      OnPath(root, frames, node)
    }

    constructor (root: Node)
      ensures Valid() && this.root == root && node == root && frames == []
    {
      this.root := root;
      node := root;
      frames := [];
    }

    /** `goto_first_child`: moves to the first child, if there is one. */
    method GotoFirstChild() returns (moved: bool)
      requires Valid()
      modifies this
      ensures Valid()
      ensures moved == (old(node).children != [])
      ensures moved ==> frames == old(frames) + [Frame(old(node), 0)] && node == old(node).children[0]
      ensures !moved ==> frames == old(frames) && node == old(node)
    {
      moved := node.children != [];
      if moved {
        var fs := frames + [Frame(node, 0)];
        assert fs[..|fs| - 1] == frames;
        frames, node := fs, node.children[0];
      }
    }

    /** `goto_next_sibling`: moves to the next child of the same parent, if there is one; the
        start node has no siblings. */
    method GotoNextSibling() returns (moved: bool)
      requires Valid()
      modifies this
      ensures Valid()
      ensures moved == (old(frames) != [] &&
                        old(frames)[|old(frames)| - 1].index + 1 < |old(frames)[|old(frames)| - 1].parent.children|)
      ensures moved ==>
                var f := old(frames)[|old(frames)| - 1];
                frames == old(frames)[..|old(frames)| - 1] + [Frame(f.parent, f.index + 1)] &&
                node == f.parent.children[f.index + 1]
      ensures !moved ==> frames == old(frames) && node == old(node)
    {
      moved := false;
      if frames != [] {
        var f := frames[|frames| - 1];
        if f.index + 1 < |f.parent.children| {
          var fs := frames[..|frames| - 1] + [Frame(f.parent, f.index + 1)];
          assert fs[..|fs| - 1] == frames[..|frames| - 1];
          frames, node := fs, f.parent.children[f.index + 1];
          moved := true;
        }
      }
    }

    /** `goto_parent`: moves to the parent, unless the cursor is on the start node. */
    method GotoParent() returns (moved: bool)
      requires Valid()
      modifies this
      ensures Valid()
      ensures moved == (old(frames) != [])
      ensures moved ==> frames == old(frames)[..|old(frames)| - 1] && node == old(frames)[|old(frames)| - 1].parent
      ensures !moved ==> frames == old(frames) && node == old(node)
    {
      moved := frames != [];
      if moved {
        frames, node := frames[..|frames| - 1], frames[|frames| - 1].parent;
      }
    }
  }
}
