/** The two MCP tools over the parse tree: `parse_sql`, which refuses a tree
    that holds an error node, and `parse_sql_with_error_recovery`, which
    renders whatever tree the parser produced. */
module SqlTools {
  import opened Bytes
  import opened SyntaxTree
  import opened Renderer
  import opened Walker

  /** `McpError::invalid_params` with its message. */
  datatype ToolError = InvalidParams(message: string)

  /** A tool's answer: the rendered text, or the error it is refused with. */
  datatype ToolResult = Ok(text: seq<byte>) | Err(error: ToolError)

  const PARSE_FAILURE_MESSAGE: string := "Failed to parse sql"

  /** `parse_sql_with_error_recovery` on the tree parsed from `sql`: always a
      success, whose text is the lines of the pre-order walk over the whole
      tree, error nodes included. */
  function TolerantResult(tree: Node, sql: seq<byte>): (r: ToolResult)
    requires LeavesSliceable(tree, sql)
    ensures r.Ok?
    ensures AllEntriesSliceable(PreOrder(tree, 0), sql) && r.text == Lines(PreOrder(tree, 0), sql)
  {
    RenderIsPreOrderLines(tree, 0, sql);
    Ok(Render(tree, 0, sql))
  }

  /** `parse_sql` on the tree parsed from `sql`: the fixed error exactly when
      the tree holds an error node; otherwise the tolerant tool's answer,
      whose walk meets no error node. Only a tree without error nodes is
      ever sliced. */
  function StrictResult(tree: Node, sql: seq<byte>): (r: ToolResult)
    requires !HasError(tree) ==> LeavesSliceable(tree, sql)
    ensures r.Err? <==> HasError(tree)
    ensures r.Err? ==> r.error == InvalidParams(PARSE_FAILURE_MESSAGE)
    ensures r.Ok? ==> r == TolerantResult(tree, sql) && !ContainsErrorEntry(PreOrder(tree, 0))
  {
    HasErrorIffErrorEntry(tree, 0);
    if HasError(tree) then Err(InvalidParams(PARSE_FAILURE_MESSAGE))
    else TolerantResult(tree, sql)
  }

  /** `parse_sql`, given the tree the parser built from `sql`. */
  method ParseSql(tree: Node, sql: seq<byte>) returns (r: ToolResult)
    requires !HasError(tree) ==> LeavesSliceable(tree, sql)
    ensures r == StrictResult(tree, sql)
  {
    if HasError(tree) {
      r := Err(InvalidParams(PARSE_FAILURE_MESSAGE));
    } else {
      var text := WriteTree(tree, sql);
      r := Ok(text);
    }
  }

  /** `parse_sql_with_error_recovery`, given the tree the parser built from `sql`. */
  method ParseSqlWithErrorRecovery(tree: Node, sql: seq<byte>) returns (r: ToolResult)
    requires LeavesSliceable(tree, sql)
    ensures r == TolerantResult(tree, sql)
  {
    var text := WriteTree(tree, sql);
    r := Ok(text);
  }

  /** The two tools agree on every tree without an error node, and on every
      other tree the tolerant one still answers, with the line of some error
      node in its text, where the strict one refuses. */
  lemma {:induction false} GateConsistency(tree: Node, sql: seq<byte>)
    requires LeavesSliceable(tree, sql)
    ensures !HasError(tree) ==> StrictResult(tree, sql) == TolerantResult(tree, sql)
    ensures HasError(tree) ==>
              var text, es := TolerantResult(tree, sql).text, PreOrder(tree, 0);
              && StrictResult(tree, sql) == Err(InvalidParams(PARSE_FAILURE_MESSAGE))
              && exists i :: 0 <= i < |es| && es[i].node.isError && IsInfix(Line(es[i], sql), text)
  {
    if HasError(tree) {
      var es := PreOrder(tree, 0);
      HasErrorIffErrorEntry(tree, 0);
      var i :| 0 <= i < |es| && es[i].node.isError;
      RenderIsPreOrderLines(tree, 0, sql);
      LinesSplitAt(es, i, sql);
      var pre, post := Lines(es[..i], sql), Lines(es[i + 1..], sql);
      assert TolerantResult(tree, sql).text == pre + Line(es[i], sql) + post;
      assert IsInfix(Line(es[i], sql), TolerantResult(tree, sql).text) by {
        InfixWitness(pre, Line(es[i], sql), post);
      }
    }
  }
}
