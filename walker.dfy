/** `write_tree` and `visit`: the walk that drives a tree cursor over the tree
    and appends each node's line to a growing string buffer. */
module Walker {
  import opened Bytes
  import opened SyntaxTree
  import opened Renderer

  /** `current` is reached from `root` by descending, one level at a time,
      through `ancestors`, into the child at the position that `indices`
      records for each level. */
  ghost predicate Path(root: Node, ancestors: seq<Node>, indices: seq<nat>, current: Node)
    decreases |ancestors|
  {
    && |ancestors| == |indices|
    && if ancestors == [] then current == root
       else
         var k := |ancestors| - 1;
         var parent, i := ancestors[k], indices[k];
         && i < |parent.children|
         && parent.children[i] == current
         && Path(root, ancestors[..k], indices[..k], parent)
  }

  /** tree-sitter's `TreeCursor` over a fixed tree: the current node, the
      nodes above it from the root down, and the position of each node after
      the root among its parent's children. */
  class TreeCursor {
    const root: Node
    var ancestors: seq<Node>
    var indices: seq<nat>
    var current: Node

    ghost predicate Valid()
      reads this
    {
      Path(root, ancestors, indices, current)
    }

    /** `tree.walk()`: a cursor on the root. */
    constructor (root: Node)
      ensures this.root == root && current == root && ancestors == [] && indices == []
      ensures Valid()
    {
      this.root := root;
      ancestors := [];
      indices := [];
      current := root;
    }

    /** `goto_first_child`: moves to the first child when there is one. */
    method GotoFirstChild() returns (moved: bool)
      requires Valid()
      modifies this
      ensures Valid()
      ensures moved <==> !IsLeaf(old(current))
      ensures moved ==> && ancestors == old(ancestors) + [old(current)]
                        && indices == old(indices) + [0]
                        && current == old(current).children[0]
      ensures !moved ==> ancestors == old(ancestors) && indices == old(indices) && current == old(current)
    {
      if |current.children| > 0 {
        var k := |ancestors|;
        ancestors := ancestors + [current];
        indices := indices + [0];
        current := current.children[0];
        assert ancestors[..k] == old(ancestors) && indices[..k] == old(indices);
        moved := true;
      } else {
        moved := false;
      }
    }

    /** `goto_next_sibling`: moves to the next sibling when there is one; the
        root has none. Only the position among the siblings changes. */
    method GotoNextSibling() returns (moved: bool)
      requires Valid()
      modifies this
      ensures Valid()
      ensures ancestors == old(ancestors) && |indices| == |old(indices)|
      ensures moved <==> && old(indices) != []
                         && old(indices)[|indices| - 1] + 1 < |ancestors[|ancestors| - 1].children|
      ensures moved ==> var k := |indices| - 1;
                        && indices[..k] == old(indices)[..k]
                        && indices[k] == old(indices)[k] + 1
                        && current == ancestors[k].children[indices[k]]
      ensures !moved ==> indices == old(indices) && current == old(current)
    {
      moved := false;
      if |indices| > 0 {
        var k := |indices| - 1;
        var parent, next := ancestors[k], indices[k] + 1;
        if next < |parent.children| {
          indices := indices[..k] + [next];
          current := parent.children[next];
          assert indices[..k] == old(indices)[..k];
          moved := true;
        }
      }
    }

    /** `goto_parent`: moves to the parent, unless on the root. */
    method GotoParent() returns (moved: bool)
      requires Valid()
      modifies this
      ensures Valid()
      ensures moved <==> old(ancestors) != []
      ensures moved ==> var k := |old(ancestors)| - 1;
                        && ancestors == old(ancestors)[..k]
                        && indices == old(indices)[..k]
                        && current == old(ancestors)[k]
      ensures !moved ==> ancestors == old(ancestors) && indices == old(indices) && current == old(current)
    {
      moved := false;
      if |ancestors| > 0 {
        var k := |ancestors| - 1;
        current := ancestors[k];
        ancestors := ancestors[..k];
        indices := indices[..k];
        moved := true;
      }
    }
  }

  /** A Rust `String` that is only ever appended to. */
  class StringBuffer {
    var content: seq<byte>

    /** `String::new()`. */
    constructor ()
      ensures content == []
    {
      content := [];
    }

    /** `push_str`. */
    method PushStr(s: seq<byte>)
      modifies this
      ensures content == old(content) + s
    {
      content := content + s;
    }
  }

  /** The first half of `visit`: the node's line, its indentation written
      one dash at a time. */
  method WriteLine(node: Node, depth: nat, src: seq<byte>, result: StringBuffer)
    requires EntrySliceable(Entry(node, depth), src)
    modifies result
    ensures result.content == old(result.content) + Line(Entry(node, depth), src)
  {
    ghost var before := result.content;
    for k := 0 to depth * UNIT
      invariant result.content == before + Dashes(k)
    {
      result.PushStr([DASH]);
      AppendAssoc(before, Dashes(k), [DASH]);
    }
    result.PushStr(node.kind);
    AppendAssoc(before, Indent(depth), node.kind);
    var text := if |node.children| == 0 then LeafText(node, src) else [];
    if |node.children| == 0 {
      result.PushStr(text);
    }
    assert result.content == before + Indent(depth) + node.kind + text;
    result.PushStr(SpanText(node.startPoint, node.endPoint));
  }

  /** `visit`: appends the rendering of the cursor's subtree at `depth` to
      `result` and leaves the cursor on the node it started on. */
  method Visit(cursor: TreeCursor, depth: nat, src: seq<byte>, result: StringBuffer)
    requires cursor.Valid() && LeavesSliceable(cursor.current, src)
    modifies cursor, result
    ensures cursor.Valid() && cursor.ancestors == old(cursor.ancestors)
    ensures cursor.indices == old(cursor.indices) && cursor.current == old(cursor.current)
    ensures result.content == old(result.content) + Render(cursor.current, depth, src)
    decreases cursor.current, 2
  {
    ghost var before, node := result.content, cursor.current;
    WriteLine(cursor.current, depth, src, result);
    VisitChildren(cursor, depth + 1, src, result);
    AppendAssoc(before, Line(Entry(node, depth), src), RenderForest(node.children, depth + 1, src));
  }

  /** The second half of `visit`: down to the first child with
      `goto_first_child`, each child in turn, and back up with `goto_parent`. */
  method VisitChildren(cursor: TreeCursor, depth: nat, src: seq<byte>, result: StringBuffer)
    requires cursor.Valid() && ForestSliceable(cursor.current.children, src)
    modifies cursor, result
    ensures cursor.Valid() && cursor.ancestors == old(cursor.ancestors)
    ensures cursor.indices == old(cursor.indices) && cursor.current == old(cursor.current)
    ensures result.content == old(result.content) + RenderForest(cursor.current.children, depth, src)
    decreases cursor.current, 1
  {
    ghost var ancestors, indices, node := cursor.ancestors, cursor.indices, cursor.current;
    var descended := cursor.GotoFirstChild();
    if descended {
      VisitSiblings(cursor, depth, src, result, node, ancestors, indices);
      var _ := cursor.GotoParent();
      assert (ancestors + [node])[..|ancestors|] == ancestors;
    }
  }

  /** Appending the rendering of child `i` to that of the children before it
      gives the rendering of the children up to `i`. */
  lemma RenderedOneMore(cs: seq<Node>, i: nat, depth: nat, src: seq<byte>,
                        before: seq<byte>, mid: seq<byte>, after: seq<byte>)
    requires ForestSliceable(cs, src) && i < |cs|
    requires ForestSliceable(cs[..i], src) && mid == before + RenderForest(cs[..i], depth, src)
    requires after == mid + Render(cs[i], depth, src)
    ensures ForestSliceable(cs[..i + 1], src) && after == before + RenderForest(cs[..i + 1], depth, src)
  {
    RenderForestSnoc(cs, i, depth, src);
    AppendAssoc(before, RenderForest(cs[..i], depth, src), Render(cs[i], depth, src));
  }

  /** The children of `parent`, from the first, on which the cursor stands,
      to the last, where it is left: `visit` on one, then on each sibling
      `goto_next_sibling` reaches. */
  method VisitSiblings(cursor: TreeCursor, depth: nat, src: seq<byte>, result: StringBuffer,
                       ghost parent: Node, ghost ancestors: seq<Node>, ghost indices: seq<nat>)
    requires cursor.Valid() && |parent.children| > 0
    requires cursor.ancestors == ancestors + [parent] && cursor.indices == indices + [0]
    requires cursor.current == parent.children[0]
    requires ForestSliceable(parent.children, src)
    modifies cursor, result
    ensures cursor.Valid() && cursor.ancestors == ancestors + [parent]
    ensures |cursor.indices| == |indices| + 1 && cursor.indices[..|indices|] == indices
    ensures cursor.current == parent.children[|parent.children| - 1]
    ensures result.content == old(result.content) + RenderForest(parent.children, depth, src)
    decreases parent, 0
  {
    ghost var cs, k := parent.children, |indices|;
    ghost var before := result.content;
    assert cursor.indices[..k] == indices;
    Visit(cursor, depth, src, result);
    RenderedOneMore(cs, 0, depth, src, before, before, result.content);
    ghost var i := 1;
    var more := cursor.GotoNextSibling();
    while more
      invariant cursor.Valid() && cursor.ancestors == ancestors + [parent]
      invariant |cursor.indices| == k + 1 && cursor.indices[..k] == indices
      invariant 1 <= i <= |cs|
      invariant more ==> i < |cs| && cursor.indices[k] == i && cursor.current == cs[i]
      invariant !more ==> i == |cs| && cursor.current == cs[i - 1]
      invariant result.content == before + RenderForest(cs[..i], depth, src)
      decreases |cs| - i
    {
      ghost var mid := result.content;
      Visit(cursor, depth, src, result);
      RenderedOneMore(cs, i, depth, src, before, mid, result.content);
      i := i + 1;
      more := cursor.GotoNextSibling();
    }
    assert cs[..i] == cs;
  }

  /** `write_tree`: the rendering of the whole tree, from the root at depth 0. */
  method WriteTree(tree: Node, src: seq<byte>) returns (text: seq<byte>)
    requires LeavesSliceable(tree, src)
    ensures text == Render(tree, 0, src)
  {
    var cursor := new TreeCursor(tree);
    var result := new StringBuffer();
    Visit(cursor, 0, src, result);
    text := result.content;
  }
}
