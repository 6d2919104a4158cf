/**
 * The parts of the ANTLR parse tree that the two listeners read.  Each
 * datatype mirrors the accessors the listeners call on a context object:
 * `nodeName()`, `wildcard()`, `placeholder()`, `attributeSelector()`,
 * `nodeSelector()`, and `attributeName()` / `attributeValue()` inside an
 * attribute block.  Token texts are kept raw (quotes included), exactly as
 * `getText()` returns them.
 */
module ParseTree {
  import opened Wrappers

  /** Which alternative of a segment the parser matched. */
  datatype SegmentBody =
    | Named(text: string)   // nodeName() != null
    | Wildcard              // wildcard() != null: `*`
    | Placeholder           // placeholder() != null: `~~`
    | Current               // `.`: none of the three accessors is set
    | Parent                // `..`: none of the three accessors is set

  /** One `key=value` pair of an attribute block, as raw token text. */
  datatype AttributeExpr = AttributeExpr(attributeName: string, attributeValue: string)

  /**
   * A path segment with its optional attribute block; `None` when
   * `attributeSelector()` is null, `Some(exprs)` with the block's
   * `attributeExpr()` list otherwise.
   */
  datatype Segment = Segment(body: SegmentBody, attributeSelector: Option<seq<AttributeExpr>>)

  /** An anchored selector `/root/seg/seg...`: the root segment and `nodeSelector()`. */
  datatype Selector = Selector(root: Segment, nodeSelectors: seq<Segment>)

  // A deep selector `**/first/seg/seg...`: the first segment and `nodeSelector()`.
  datatype DeepSelector = DeepSelector(first: Segment, nodeSelectors: seq<Segment>)
}
