/**
 * The search handler: it turns the filter fields of a request into an
 * Elasticsearch bool query, one clause per recognised field, and wraps the
 * clauses with the page size and the index to search.
 */
module Handlers {
  import opened QueryDsl
  import Text

  /** Name of the search index and its document type (IndexHandler). */
  const IndexName: string := "countries"
  const DocType: string := "_doc"

  /** Page size of a fresh handler. */
  const DefaultPerPage: int := 10

  /** Delimiter between alternative values of one field. */
  const Delimiter: char := ';'

  /** `mapFields`: request key to document path. */
  const MapFields: map<string, string> :=
    map["country" := "Name",
        "continent" := "Continent",
        "city" := "cities.Name",
        "language" := "languages.Language"]

  /** A request key that `mapFields` recognises. */
  type MappedField = f: string | f in MapFields witness "country"

  /** The recognised request keys, in the declaration order of `mapFields`. */
  const FieldNames: seq<MappedField> := ["country", "continent", "city", "language"]

  /** `FieldNames` lists each key of `MapFields` exactly once. */
  lemma FieldNamesAreMapFields()
    ensures forall f :: f in FieldNames <==> f in MapFields
    ensures forall i, j :: 0 <= i < j < |FieldNames| ==> FieldNames[i] != FieldNames[j]
  {
  }

  type Request = map<string, string>

  datatype Body = Body(query: Query)

  /** The parameters handed to the search client. */
  datatype Params = Params(index: string, docType: string, size: int, body: Body)

  /** The leaf value for one token: bare when `boost` is 0, boosted otherwise. */
  function Leaf(value: string, boost: int): (v: MatchValue)
    ensures v.query == value
    ensures v.Boosted? <==> boost != 0
    ensures v.Boosted? ==> v.boost == boost
  {
    if boost != 0 then Boosted(value, boost) else Plain(value)
  }

  /** One `match` leaf on `path` per value, in the order of the values. */
  function MatchList(path: string, values: seq<string>, boost: int): (r: seq<Query>)
    ensures |r| == |values|
    ensures forall i :: 0 <= i < |values| ==> r[i] == Match(path, Leaf(values[i], boost))
    decreases |values|
  {
    if values == [] then []
    else MatchList(path, values[..|values| - 1], boost) + [Match(path, Leaf(values[|values| - 1], boost))]
  }

  /** The tokens of a request value: lower-cased, then split on `;`. */
  function Tokens(value: string): (ts: seq<string>)
    ensures |ts| >= 1
    ensures forall i :: 0 <= i < |ts| ==> Delimiter !in ts[i]
  {
    Text.Split(Text.Lower(value), Delimiter)
  }

  /**
   * The clause one recognised field contributes: its matches under
   * `should` when the value has several tokens, under `must` otherwise.
   */
  function Condition(field: MappedField, value: string): (c: Query)
    ensures c.Bool? && |c.children| == |Tokens(value)|
  {
    var values := Tokens(value);
    var matches := MatchList(MapFields[field], values, 0);
    if |values| > 1 then SearchHandler.BuildShouldClause(matches)
    else SearchHandler.BuildMustClause(matches)
  }

  /**
   * `request->only(keys)`: the keys present in the request, in the order of
   * `keys`, each with its value.
   */
  function Only(request: Request, keys: seq<MappedField>): (r: seq<(MappedField, string)>)
    ensures |r| <= |keys|
    decreases |keys|
  {
    if keys == [] then []
    else
      var k := keys[|keys| - 1];
      Only(request, keys[..|keys| - 1]) + (if k in request then [(k, request[k])] else [])
  }

  /** The clauses of a list of field/value pairs, in order. */
  function ConditionsOf(pairs: seq<(MappedField, string)>): (r: seq<Query>)
    ensures |r| == |pairs|
    decreases |pairs|
  {
    if pairs == [] then []
    else
      var last := pairs[|pairs| - 1];
      ConditionsOf(pairs[..|pairs| - 1]) + [Condition(last.0, last.1)]
  }

  /** Clause `i` is the clause of pair `i`. */
  lemma {:induction false} ConditionsOfAt(pairs: seq<(MappedField, string)>)
    ensures forall i :: 0 <= i < |pairs| ==> ConditionsOf(pairs)[i] == Condition(pairs[i].0, pairs[i].1)
    decreases |pairs|
  {
    if pairs != [] {
      var init := pairs[..|pairs| - 1];
      ConditionsOfAt(init);
      assert forall i :: 0 <= i < |init| ==> pairs[i] == init[i];
    }
  }

  lemma ClauseIsCondition(field: MappedField, value: string, matches: seq<Query>)
    requires matches == MatchList(MapFields[field], Tokens(value), 0)
    ensures Condition(field, value) ==
      if |Tokens(value)| > 1 then SearchHandler.BuildShouldClause(matches)
      else SearchHandler.BuildMustClause(matches)
  {
  }

  lemma ConditionsOfStep(pairs: seq<(MappedField, string)>, i: nat)
    requires i < |pairs|
    ensures ConditionsOf(pairs[..i + 1]) == ConditionsOf(pairs[..i]) + [Condition(pairs[i].0, pairs[i].1)]
  {
    assert pairs[..i + 1][..i] == pairs[..i];
  }

  /** The clauses `buildSearchConditions` appends for `request`. */
  function Conditions(request: Request): (r: seq<Query>)
    ensures |r| <= |FieldNames|
  {
    ConditionsOf(Only(request, FieldNames))
  }

  class SearchHandler {
    /** The number of items to be shown per page. */
    var perPage: int
    /** The clauses built so far; only ever appended to. */
    var searchConditions: seq<Query>
    /** The filter fields of the current request. */
    const request: Request

    constructor (request: Request)
      ensures this.request == request
      ensures perPage == DefaultPerPage && searchConditions == []
    {
      this.request := request;
      perPage := DefaultPerPage;
      searchConditions := [];
    }

    /** Sets the page size and returns the handler for chaining. */
    method SetPerPage(perPage: int) returns (self: SearchHandler)
      modifies this`perPage
      ensures self == this
      ensures this.perPage == perPage
      ensures searchConditions == old(searchConditions)
    {
      this.perPage := perPage;
      self := this;
    }

    /** Appends one clause per recognised field present in the request. */
    method BuildSearchConditions()
      modifies this`searchConditions
      ensures searchConditions == old(searchConditions) + Conditions(request)
      ensures perPage == old(perPage)
    {
      var fields := FieldNames;
      var pairs := Only(request, fields);
      ghost var before := searchConditions;
      assert pairs[..0] == [];
      for i := 0 to |pairs|
        invariant searchConditions == before + ConditionsOf(pairs[..i])
      {
        var (field, value) := pairs[i];
        var values := Tokens(value);
        var matches := BuildMatches(field, values, 0);
        var clause;
        if |values| > 1 {
          clause := BuildShouldClause(matches);
        } else {
          clause := BuildMustClause(matches);
        }
        ClauseIsCondition(field, value, matches);
        ConditionsOfStep(pairs, i);
        searchConditions := searchConditions + [clause];
      }
      assert pairs[..|pairs|] == pairs;
    }

    /** One `match` leaf on the field's document path per value. */
    method BuildMatches(field: MappedField, values: seq<string>, boost: int) returns (matches: seq<Query>)
      ensures matches == MatchList(MapFields[field], values, boost)
    {
      matches := [];
      for i := 0 to |values|
        invariant matches == MatchList(MapFields[field], values[..i], boost)
      {
        var query := Leaf(values[i], boost);
        matches := matches + [Match(MapFields[field], query)];
        assert values[..i + 1][..i] == values[..i];
      }
      assert values[..|values|] == values;
    }

    /** `should`: the query selects a document when any of `queries` does. */
    static function BuildShouldClause(queries: seq<Query>): (q: Query)
      ensures forall doc :: Satisfies(q, doc) <==>
        (queries == [] || exists i :: 0 <= i < |queries| && Satisfies(queries[i], doc))
    {
      Bool(Should, queries)
    }

    /** `must`: the query selects a document when all of `queries` do. */
    static function BuildMustClause(queries: seq<Query>): (q: Query)
      ensures forall doc :: Satisfies(q, doc) <==>
        (forall i :: 0 <= i < |queries| ==> Satisfies(queries[i], doc))
    {
      Bool(Must, queries)
    }

    /** `must_not`: the query selects a document when none of `queries` does. */
    static function BuildMustNotClause(queries: seq<Query>): (q: Query)
      ensures forall doc :: Satisfies(q, doc) <==>
        (forall i :: 0 <= i < |queries| ==> !Satisfies(queries[i], doc))
    {
      Bool(MustNot, queries)
    }

    /** The whole query: every clause built so far under one `must`. */
    function GetQuery(): (q: Query)
      reads this
      ensures q.Bool? && q.occur == Must && q.children == searchConditions
      ensures forall doc :: Satisfies(q, doc) <==>
        (forall i :: 0 <= i < |searchConditions| ==> Satisfies(searchConditions[i], doc))
    {
      Bool(Must, searchConditions)
    }

    /** The parameters handed to the search client. */
    function GetParams(): (p: Params)
      reads this
      ensures p.index == IndexName && p.docType == DocType
      ensures p.size == perPage && p.body.query == GetQuery()
    {
      Params(IndexName, DocType, perPage, Body(GetQuery()))
    }
  }
}
