/**
 * The fragment of the Elasticsearch query DSL that the search handler
 * produces: `match` leaves and `bool` nodes tagged `must`, `should` or
 * `must_not`, together with a reference reading of what such a query
 * selects.
 */
module QueryDsl {

  /** The occurrence type of a `bool` query. */
  datatype Occur = Must | Should | MustNot

  /**
   * The right-hand side of a `match` leaf: the bare value, or the
   * `{query: value, boost: boost}` object used when a boost is given.
   */
  datatype MatchValue = Plain(query: string) | Boosted(query: string, boost: int)

  datatype Query =
    | Match(path: string, value: MatchValue)
    | Bool(occur: Occur, children: seq<Query>)

  /**
   * A stored document as the index sees it: for each field path, the set of
   * its normalised (lower-case) keyword values.
   */
  type Document = map<string, set<string>>

  /** The document holds `value` under `path`. */
  predicate Holds(doc: Document, path: string, value: string) {
    path in doc && value in doc[path]
  }

  /**
   * Whether `doc` is selected by `q`: a `match` leaf selects documents that
   * hold its value under its path (a boost changes only the score); `must`
   * is AND, `should` is OR, `must_not` is NOR over the children. A `bool`
   * with no children at all selects every document.
   */
  predicate Satisfies(q: Query, doc: Document)
    decreases q
  {
    match q
    case Match(path, value) => Holds(doc, path, value.query)
    case Bool(occur, children) =>
      match occur
      case Must => forall i :: 0 <= i < |children| ==> Satisfies(children[i], doc)
      case Should => children == [] || exists i :: 0 <= i < |children| && Satisfies(children[i], doc)
      case MustNot => forall i :: 0 <= i < |children| ==> !Satisfies(children[i], doc)
  }
}
