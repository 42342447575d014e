/** The parse tree that tree-sitter hands to the renderer, as the tree cursor
    presents it: every node with its kind, its span and its ordered children. */
module SyntaxTree {
  import opened Bytes

  /** A source position: zero-based row and column, as tree-sitter's `Point`. */
  datatype Point = Point(row: nat, column: nat)

  /** A node. `isError` is the grammar engine's classification of the node as
      a recovery artifact (an ERROR or MISSING node). */
  datatype Node = Node(
    kind: seq<byte>,
    startPoint: Point,
    endPoint: Point,
    startByte: nat,
    endByte: nat,
    children: seq<Node>,
    isError: bool)

  predicate IsLeaf(n: Node)
  {
    |n.children| == 0
  }

  /** `has_error`: this node or some descendant is an error node. */
  predicate HasError(n: Node)
  {
    n.isError || exists i :: 0 <= i < |n.children| && HasError(n.children[i])
  }

  function NodeCount(n: Node): nat
    decreases n, 1
  {
    1 + ForestCount(n.children)
  }

  function ForestCount(cs: seq<Node>): nat
    decreases cs, 0
  {
    if cs == [] then 0 else ForestCount(cs[..|cs| - 1]) + NodeCount(cs[|cs| - 1])
  }

  /** `utf8_text(src)` of the node succeeds: its byte range lies inside `src`
      and, unless empty, starts and ends on character boundaries. */
  predicate SliceOk(n: Node, src: seq<byte>)
  {
    && n.startByte <= n.endByte <= |src|
    && (n.startByte < n.endByte ==>
          IsCharBoundary(src, n.startByte) && IsCharBoundary(src, n.endByte))
  }

  /** Every leaf of the tree can be sliced from `src`; only leaves are sliced. */
  predicate LeavesSliceable(n: Node, src: seq<byte>)
  {
    if IsLeaf(n) then SliceOk(n, src)
    else forall i :: 0 <= i < |n.children| ==> LeavesSliceable(n.children[i], src)
  }

  predicate ForestSliceable(cs: seq<Node>, src: seq<byte>)
  {
    forall i :: 0 <= i < |cs| ==> LeavesSliceable(cs[i], src)
  }

  /** One node of the walk, with the depth it is visited at. */
  datatype Entry = Entry(node: Node, depth: nat)

  /** Reference definition of the walk: depth-first pre-order, the node
      first, then each child's whole subtree left to right at `depth + 1`. */
  function PreOrder(n: Node, depth: nat): seq<Entry>
    decreases n, 1
  {
    [Entry(n, depth)] + PreOrderForest(n.children, depth + 1)
  }

  function PreOrderForest(cs: seq<Node>, depth: nat): seq<Entry>
    decreases cs, 0
  {
    if cs == [] then []
    else PreOrderForest(cs[..|cs| - 1], depth) + PreOrder(cs[|cs| - 1], depth)
  }

  /** The walk visits every node exactly once. */
  lemma {:induction false} PreOrderLength(n: Node, depth: nat)
    ensures |PreOrder(n, depth)| == NodeCount(n)
    decreases n, 1
  {
    PreOrderForestLength(n.children, depth + 1);
  }

  lemma {:induction false} PreOrderForestLength(cs: seq<Node>, depth: nat)
    ensures |PreOrderForest(cs, depth)| == ForestCount(cs)
    decreases cs, 0
  {
    if cs != [] {
      PreOrderForestLength(cs[..|cs| - 1], depth);
      PreOrderLength(cs[|cs| - 1], depth);
    }
  }

  /** The walk starts at the node itself at the given depth; every later
      entry is a descendant, visited deeper. */
  lemma {:induction false} PreOrderDepths(n: Node, depth: nat)
    ensures PreOrder(n, depth)[0] == Entry(n, depth)
    ensures forall i :: 0 < i < |PreOrder(n, depth)| ==> PreOrder(n, depth)[i].depth > depth
  {
    PreOrderForestDepths(n.children, depth + 1);
  }

  lemma {:induction false} PreOrderForestDepths(cs: seq<Node>, depth: nat)
    ensures forall i :: 0 <= i < |PreOrderForest(cs, depth)| ==> PreOrderForest(cs, depth)[i].depth >= depth
    decreases cs
  {
    if cs != [] {
      PreOrderForestDepths(cs[..|cs| - 1], depth);
      PreOrderDepths(cs[|cs| - 1], depth);
    }
  }

  ghost predicate ContainsErrorEntry(es: seq<Entry>)
  {
    exists i :: 0 <= i < |es| && es[i].node.isError
  }

  lemma ContainsErrorEntryConcat(a: seq<Entry>, b: seq<Entry>)
    ensures ContainsErrorEntry(a + b) <==> ContainsErrorEntry(a) || ContainsErrorEntry(b)
  {
    if ContainsErrorEntry(a + b) {
      var i :| 0 <= i < |a + b| && (a + b)[i].node.isError;
      if i >= |a| {
        assert b[i - |a|] == (a + b)[i];
      }
    }
    if ContainsErrorEntry(a) {
      var i :| 0 <= i < |a| && a[i].node.isError;
      assert (a + b)[i] == a[i];
    }
    if ContainsErrorEntry(b) {
      var j :| 0 <= j < |b| && b[j].node.isError;
      assert (a + b)[|a| + j] == b[j];
    }
  }

  /** `has_error` holds exactly when the walk meets an error node. */
  lemma {:induction false} HasErrorIffErrorEntry(n: Node, depth: nat)
    ensures HasError(n) <==> ContainsErrorEntry(PreOrder(n, depth))
    decreases n, 1
  {
    ForestErrorIffErrorEntry(n.children, depth + 1);
    ContainsErrorEntryConcat([Entry(n, depth)], PreOrderForest(n.children, depth + 1));
    assert [Entry(n, depth)][0].node.isError == n.isError;
  }

  lemma {:induction false} ForestErrorIffErrorEntry(cs: seq<Node>, depth: nat)
    ensures (exists j :: 0 <= j < |cs| && HasError(cs[j]))
        <==> ContainsErrorEntry(PreOrderForest(cs, depth))
    decreases cs, 0
  {
    if cs != [] {
      var init, last := cs[..|cs| - 1], cs[|cs| - 1];
      ForestErrorIffErrorEntry(init, depth);
      HasErrorIffErrorEntry(last, depth);
      ContainsErrorEntryConcat(PreOrderForest(init, depth), PreOrder(last, depth));
      if exists j :: 0 <= j < |cs| && HasError(cs[j]) {
        var j :| 0 <= j < |cs| && HasError(cs[j]);
        if j < |cs| - 1 {
          assert init[j] == cs[j];
        }
      }
      if exists j :: 0 <= j < |init| && HasError(init[j]) {
        var j :| 0 <= j < |init| && HasError(init[j]);
        assert cs[j] == init[j];
      }
    }
  }
}
