/** What `write_tree` writes, as functions: one line per node, each line
    indentation, kind, (for leaves) the quoted source text, and the span. */
module Renderer {
  import opened Bytes
  import opened SyntaxTree
  import opened PointFormat

  /** Dashes per level of depth. */
  const UNIT: nat := 2

  function Indent(depth: nat): seq<byte>
  {
    Dashes(depth * UNIT)
  }

  /** `utf8_text(src)`: the bytes of the node's range. */
  function SourceText(n: Node, src: seq<byte>): seq<byte>
    requires SliceOk(n, src)
  {
    src[n.startByte..n.endByte]
  }

  /** ` "<text>"`, written for leaves only. */
  function LeafText(n: Node, src: seq<byte>): seq<byte>
    requires SliceOk(n, src)
  {
    [SPACE, QUOTE] + SourceText(n, src) + [QUOTE]
  }

  /** ` [<start>-<end>]` and the line break, closing every line. */
  function SpanText(start: Point, end: Point): seq<byte>
  {
    [SPACE, LBRACKET] + PointText(start) + [DASH] + PointText(end) + [RBRACKET, NEWLINE]
  }

  predicate EntrySliceable(e: Entry, src: seq<byte>)
  {
    IsLeaf(e.node) ==> SliceOk(e.node, src)
  }

  /** The line written for one node visited at a depth. */
  function Line(e: Entry, src: seq<byte>): seq<byte>
    requires EntrySliceable(e, src)
  {
    Indent(e.depth) + e.node.kind
    + (if IsLeaf(e.node) then LeafText(e.node, src) else [])
    + SpanText(e.node.startPoint, e.node.endPoint)
  }

  /** What `visit` appends for the subtree at `n`, reached at `depth`: the
      node's line, then each child's rendering at `depth + 1`. */
  function Render(n: Node, depth: nat, src: seq<byte>): seq<byte>
    requires LeavesSliceable(n, src)
    decreases n, 1
  {
    Line(Entry(n, depth), src) + RenderForest(n.children, depth + 1, src)
  }

  function RenderForest(cs: seq<Node>, depth: nat, src: seq<byte>): seq<byte>
    requires ForestSliceable(cs, src)
    decreases cs, 0
  {
    if cs == [] then []
    else RenderForest(cs[..|cs| - 1], depth, src) + Render(cs[|cs| - 1], depth, src)
  }

  /** Rendering one more child appends that child's rendering. */
  lemma RenderForestSnoc(cs: seq<Node>, i: nat, depth: nat, src: seq<byte>)
    requires ForestSliceable(cs, src) && i < |cs|
    ensures ForestSliceable(cs[..i], src) && ForestSliceable(cs[..i + 1], src)
    ensures RenderForest(cs[..i + 1], depth, src) == RenderForest(cs[..i], depth, src) + Render(cs[i], depth, src)
  {
    assert cs[..i + 1][..i] == cs[..i];
  }

  ghost predicate AllEntriesSliceable(es: seq<Entry>, src: seq<byte>)
  {
    forall i :: 0 <= i < |es| ==> EntrySliceable(es[i], src)
  }

  /** The lines of a sequence of entries, one after the other. */
  function Lines(es: seq<Entry>, src: seq<byte>): seq<byte>
    requires AllEntriesSliceable(es, src)
  {
    if es == [] then [] else Lines(es[..|es| - 1], src) + Line(es[|es| - 1], src)
  }

  lemma LinesSingle(e: Entry, src: seq<byte>)
    requires EntrySliceable(e, src)
    ensures AllEntriesSliceable([e], src) && Lines([e], src) == Line(e, src)
  {
    assert [e][..0] == [];
  }

  lemma AllEntriesSliceableConcat(a: seq<Entry>, b: seq<Entry>, src: seq<byte>)
    requires AllEntriesSliceable(a, src) && AllEntriesSliceable(b, src)
    ensures AllEntriesSliceable(a + b, src)
  {
    forall i | 0 <= i < |a + b| ensures EntrySliceable((a + b)[i], src) {
      if i >= |a| {
        assert (a + b)[i] == b[i - |a|];
      }
    }
  }

  lemma {:induction false} LinesConcat(a: seq<Entry>, b: seq<Entry>, src: seq<byte>)
    requires AllEntriesSliceable(a, src) && AllEntriesSliceable(b, src)
    ensures AllEntriesSliceable(a + b, src)
    ensures Lines(a + b, src) == Lines(a, src) + Lines(b, src)
    decreases |b|
  {
    AllEntriesSliceableConcat(a, b, src);
    if b == [] {
      assert a + b == a;
    } else {
      var init, last := b[..|b| - 1], b[|b| - 1];
      assert a + b == (a + init) + [last];
      LinesConcat(a, init, src);
      AppendAssoc(Lines(a, src), Lines(init, src), Line(last, src));
    }
  }

  /** The lines of a sequence of entries hold the line of each entry in place:
      after the lines of the entries before it and before those after it. */
  lemma LinesSplitAt(es: seq<Entry>, i: nat, src: seq<byte>)
    requires AllEntriesSliceable(es, src) && i < |es|
    ensures AllEntriesSliceable(es[..i], src) && AllEntriesSliceable(es[i + 1..], src)
    ensures Lines(es, src) == Lines(es[..i], src) + Line(es[i], src) + Lines(es[i + 1..], src)
  {
    var a, b := es[..i + 1], es[i + 1..];
    assert es == a + b;
    assert a[..i] == es[..i];
    assert AllEntriesSliceable(a, src) by {
      forall j | 0 <= j < |a| ensures EntrySliceable(a[j], src) {
        assert a[j] == es[j];
      }
    }
    assert AllEntriesSliceable(b, src) by {
      forall j | 0 <= j < |b| ensures EntrySliceable(b[j], src) {
        assert b[j] == es[i + 1 + j];
      }
    }
    LinesConcat(a, b, src);
  }

  /** The rendering is the lines of the pre-order walk, in order: one line per
      node, parent before children, each child's subtree before the next. */
  lemma {:induction false} RenderIsPreOrderLines(n: Node, depth: nat, src: seq<byte>)
    requires LeavesSliceable(n, src)
    ensures AllEntriesSliceable(PreOrder(n, depth), src)
    ensures Render(n, depth, src) == Lines(PreOrder(n, depth), src)
    decreases n, 1
  {
    var head := [Entry(n, depth)];
    var rest := PreOrderForest(n.children, depth + 1);
    RenderForestIsPreOrderLines(n.children, depth + 1, src);
    LinesSingle(Entry(n, depth), src);
    LinesConcat(head, rest, src);
  }

  lemma {:induction false} RenderForestIsPreOrderLines(cs: seq<Node>, depth: nat, src: seq<byte>)
    requires ForestSliceable(cs, src)
    ensures AllEntriesSliceable(PreOrderForest(cs, depth), src)
    ensures RenderForest(cs, depth, src) == Lines(PreOrderForest(cs, depth), src)
    decreases cs, 0
  {
    if cs != [] {
      var init, last := cs[..|cs| - 1], cs[|cs| - 1];
      RenderForestIsPreOrderLines(init, depth, src);
      RenderIsPreOrderLines(last, depth, src);
      LinesConcat(PreOrderForest(init, depth), PreOrder(last, depth), src);
    }
  }

  /** A line starts with `depth * UNIT` dashes and then the node's kind; when
      the kind does not itself start with a dash, the run of leading dashes
      is exactly `depth * UNIT` long (none at all for the root). */
  lemma LineStartsWithIndentAndKind(e: Entry, src: seq<byte>)
    requires EntrySliceable(e, src)
    ensures |Line(e, src)| >= e.depth * UNIT + |e.node.kind|
    ensures Line(e, src)[..e.depth * UNIT] == Dashes(e.depth * UNIT)
    ensures Line(e, src)[e.depth * UNIT..e.depth * UNIT + |e.node.kind|] == e.node.kind
    ensures e.node.kind != [] && e.node.kind[0] != DASH ==>
              LeadingCount(DASH, Line(e, src)) == e.depth * UNIT
  {
    var k := e.depth * UNIT;
    var rest := e.node.kind
      + (if IsLeaf(e.node) then LeafText(e.node, src) else [])
      + SpanText(e.node.startPoint, e.node.endPoint);
    assert Line(e, src) == Dashes(k) + rest;
    if e.node.kind != [] && e.node.kind[0] != DASH {
      assert rest[0] == e.node.kind[0];
      LeadingDashesOfRun(k, rest);
    }
  }

  /** With a kind that holds no quote character, a line holds a quote exactly
      when its node is a leaf. */
  lemma LineQuoteIffLeaf(e: Entry, src: seq<byte>)
    requires EntrySliceable(e, src)
    requires QUOTE !in e.node.kind
    ensures QUOTE in Line(e, src) <==> IsLeaf(e.node)
  {
    var indent := Indent(e.depth);
    var span := SpanText(e.node.startPoint, e.node.endPoint);
    assert QUOTE !in indent;
    assert QUOTE !in span by {
      PointTextPrintable(e.node.startPoint);
      PointTextPrintable(e.node.endPoint);
    }
    if IsLeaf(e.node) {
      LineSegmentAfterKind(e, src);
      assert Line(e, src)[e.depth * UNIT + |e.node.kind| + 1] == QUOTE;
    } else {
      assert Line(e, src) == indent + e.node.kind + span;
    }
  }

  /** Whatever the kind, a leaf's line carries ` "<its source text>"` right
      after the kind, and an internal node's line has nothing between the
      kind and the span: it is exactly indentation, kind and span long. */
  lemma LineSegmentAfterKind(e: Entry, src: seq<byte>)
    requires EntrySliceable(e, src)
    ensures IsLeaf(e.node) ==>
              var k := e.depth * UNIT + |e.node.kind|;
              var text := SourceText(e.node, src);
              |Line(e, src)| >= k + |text| + 3
              && Line(e, src)[k..k + |text| + 3] == [SPACE, QUOTE] + text + [QUOTE]
    ensures !IsLeaf(e.node) ==>
              |Line(e, src)| == e.depth * UNIT + |e.node.kind| + |SpanText(e.node.startPoint, e.node.endPoint)|
  {
    var indent := Indent(e.depth);
    var span := SpanText(e.node.startPoint, e.node.endPoint);
    if IsLeaf(e.node) {
      var leaf := LeafText(e.node, src);
      assert Line(e, src) == (indent + e.node.kind) + leaf + span;
    }
  }

  /** Every line, leaf or not, ends with the node's span and the line break. */
  lemma LineEndsWithSpan(e: Entry, src: seq<byte>)
    requires EntrySliceable(e, src)
    ensures var span := SpanText(e.node.startPoint, e.node.endPoint);
            |Line(e, src)| >= |span|
            && Line(e, src)[|Line(e, src)| - |span|..] == span
            && Line(e, src)[|Line(e, src)| - 1] == NEWLINE
  {
    var span := SpanText(e.node.startPoint, e.node.endPoint);
    var front := Indent(e.depth) + e.node.kind
      + (if IsLeaf(e.node) then LeafText(e.node, src) else []);
    assert Line(e, src) == front + span;
  }

  /** The span annotation identifies the node's start and end positions. */
  lemma SpanTextInjective(s1: Point, e1: Point, s2: Point, e2: Point)
    requires SpanText(s1, e1) == SpanText(s2, e2)
    ensures s1 == s2 && e1 == e2
  {
    var t1, t2 := SpanTail(e1), SpanTail(e2);
    SpanTextSplit(s1, e1);
    SpanTextSplit(s2, e2);
    PointTextPrefixInjective(s1, s2, t1, t2);
    PointTextPrefixInjective(e1, e2, [RBRACKET, NEWLINE], [RBRACKET, NEWLINE]);
  }

  /** What follows the start position in a span annotation. */
  function SpanTail(end: Point): seq<byte>
  {
    [DASH] + PointText(end) + [RBRACKET, NEWLINE]
  }

  lemma SpanTextSplit(start: Point, end: Point)
    ensures SpanText(start, end)[2..] == PointText(start) + SpanTail(end)
    ensures SpanTail(end)[1..] == PointText(end) + [RBRACKET, NEWLINE]
  {
    var p, t := PointText(start), SpanTail(end);
    assert SpanText(start, end) == [SPACE, LBRACKET] + (p + t);
  }

  lemma SpanTextNewlines(start: Point, end: Point)
    ensures Count(NEWLINE, SpanText(start, end)) == 1
  {
    var a := [SPACE, LBRACKET] + PointText(start) + [DASH] + PointText(end) + [RBRACKET];
    assert SpanText(start, end) == a + [NEWLINE];
    PointTextPrintable(start);
    PointTextPrintable(end);
    assert NEWLINE !in a;
    CountConcat(NEWLINE, a, [NEWLINE]);
    assert [NEWLINE][..0] == [];
  }

  /** The kind holds no line break and neither does the text of a leaf. */
  ghost predicate NodeNewlineFree(n: Node, src: seq<byte>)
  {
    NEWLINE !in n.kind && (IsLeaf(n) && SliceOk(n, src) ==> NEWLINE !in SourceText(n, src))
  }

  /** No node of the tree puts a line break into its line, except the last byte. */
  ghost predicate NewlineFree(n: Node, src: seq<byte>)
  {
    NodeNewlineFree(n, src) && forall i :: 0 <= i < |n.children| ==> NewlineFree(n.children[i], src)
  }

  /** A line holds exactly one line break, at its end. */
  lemma LineNewlines(e: Entry, src: seq<byte>)
    requires EntrySliceable(e, src)
    requires NodeNewlineFree(e.node, src)
    ensures Count(NEWLINE, Line(e, src)) == 1
  {
    var front := Indent(e.depth) + e.node.kind
      + (if IsLeaf(e.node) then LeafText(e.node, src) else []);
    assert NEWLINE !in Indent(e.depth);
    if IsLeaf(e.node) {
      assert LeafText(e.node, src) == [SPACE, QUOTE] + SourceText(e.node, src) + [QUOTE];
    }
    assert NEWLINE !in front;
    SpanTextNewlines(e.node.startPoint, e.node.endPoint);
    CountConcat(NEWLINE, front, SpanText(e.node.startPoint, e.node.endPoint));
  }

  /** When no kind and no leaf text holds a line break, the rendering has
      exactly as many lines as the tree has nodes. */
  lemma {:induction false} RenderNewlineCount(n: Node, depth: nat, src: seq<byte>)
    requires LeavesSliceable(n, src) && NewlineFree(n, src)
    ensures Count(NEWLINE, Render(n, depth, src)) == NodeCount(n)
    decreases n, 1
  {
    LineNewlines(Entry(n, depth), src);
    RenderForestNewlineCount(n.children, depth + 1, src);
    CountConcat(NEWLINE, Line(Entry(n, depth), src), RenderForest(n.children, depth + 1, src));
  }

  lemma {:induction false} RenderForestNewlineCount(cs: seq<Node>, depth: nat, src: seq<byte>)
    requires ForestSliceable(cs, src)
    requires forall i :: 0 <= i < |cs| ==> NewlineFree(cs[i], src)
    ensures Count(NEWLINE, RenderForest(cs, depth, src)) == ForestCount(cs)
    decreases cs, 0
  {
    if cs != [] {
      var init, last := cs[..|cs| - 1], cs[|cs| - 1];
      RenderForestNewlineCount(init, depth, src);
      RenderNewlineCount(last, depth, src);
      CountConcat(NEWLINE, RenderForest(init, depth, src), Render(last, depth, src));
    }
  }

  /** A single leaf `x` over the source `a`, line break, `b` (a string
      literal spanning two rows, for instance), as a tree the renderer accepts. */
  const MultiLineSource: seq<byte> := [0x61, NEWLINE, 0x62]
  const MultiLineLeaf: Node := Node([0x78], Point(0, 0), Point(1, 1), 0, 3, [], false)

  /** The renderer does not escape leaf text: a leaf whose text spans two rows
      renders as two line breaks for one node. */
  lemma MultiLineLeafBreaksLineCount()
    ensures LeavesSliceable(MultiLineLeaf, MultiLineSource)
    ensures NodeCount(MultiLineLeaf) == 1
    ensures Count(NEWLINE, Render(MultiLineLeaf, 0, MultiLineSource)) == 2
  {
    var n, src := MultiLineLeaf, MultiLineSource;
    var front := Indent(0) + n.kind + LeafText(n, src);
    var span := SpanText(n.startPoint, n.endPoint);
    assert Render(n, 0, src) == front + span;
    assert SourceText(n, src) == src;
    assert front == [0x78, SPACE, QUOTE, 0x61] + [NEWLINE] + [0x62, QUOTE];
    CountConcat(NEWLINE, [0x78, SPACE, QUOTE, 0x61], [NEWLINE]);
    CountConcat(NEWLINE, [0x78, SPACE, QUOTE, 0x61] + [NEWLINE], [0x62, QUOTE]);
    assert [NEWLINE][..0] == [];
    assert Count(NEWLINE, front) == 1;
    SpanTextNewlines(n.startPoint, n.endPoint);
    CountConcat(NEWLINE, front, span);
  }
}
