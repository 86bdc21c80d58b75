/**
 * What the condition builder and the query assembler promise: the shape of
 * the clause each field contributes, what the assembled query selects, which
 * request keys take part, and the scenarios of the handler's unit tests.
 */
module SearchProperties {
  import opened QueryDsl
  import opened Handlers
  import Text

  /** Some token of `value` is held by `doc` under the path of `field`. */
  predicate FieldHolds(doc: Document, field: MappedField, value: string)
  {
    exists t :: t in Tokens(value) && Holds(doc, MapFields[field], t)
  }

  /** The pair a present key contributes to `request->only`, if any. */
  function Present(request: Request, key: MappedField): seq<(MappedField, string)> {
    if key in request then [(key, request[key])] else []
  }

  /** The clause a field contributes, if it is present. */
  function ClauseFor(request: Request, field: MappedField): seq<Query>
  {
    if field in request then [Condition(field, request[field])] else []
  }

  // ----- the clause of one field -------------------------------------------

  /**
   * The clause of one field is `should` exactly when the value holds a `;`
   * and `must` otherwise; it has one bare `match` on the field's path per
   * `;`-separated piece of the value, lower-cased, in order.
   */
  lemma ConditionShape(field: MappedField, value: string)
    ensures var c := Condition(field, value);
      && c.Bool?
      && (c.occur == Should <==> Delimiter in value)
      && (c.occur == Must <==> Delimiter !in value)
      && |c.children| == |Text.Split(value, Delimiter)|
      && forall i :: 0 <= i < |c.children| ==>
           c.children[i] == Match(MapFields[field], Plain(Text.Lower(Text.Split(value, Delimiter)[i])))
  {
    var pieces := Text.Split(value, Delimiter);
    Text.SplitLower(value, Delimiter);
    assert Tokens(value) == Text.LowerAll(pieces);
    Text.SplitSingleIff(value, Delimiter);
  }

  /** A value without `;` gives one `must` around one lower-cased `match`. */
  lemma SingleValueCondition(field: MappedField, value: string)
    requires Delimiter !in value
    ensures Condition(field, value) == Bool(Must, [Match(MapFields[field], Plain(Text.Lower(value)))])
  {
    Text.LowerKeepsNonLetter(value, Delimiter);
    Text.SplitWithoutDelimiter(Text.Lower(value), Delimiter);
  }

  /** The empty value still yields a clause: `must` on the empty token. */
  lemma EmptyValueCondition(field: MappedField)
    ensures Condition(field, "") == Bool(Must, [Match(MapFields[field], Plain(""))])
  {
    SingleValueCondition(field, "");
  }

  /** The `match` leaves of the clause, joined back with `;`, give the lower-cased value. */
  lemma ConditionTokensRoundTrip(field: MappedField, value: string)
    ensures var c := Condition(field, value);
      && |c.children| == |Tokens(value)|
      && (forall i :: 0 <= i < |c.children| ==> c.children[i].Match? && Delimiter !in c.children[i].value.query)
      && Text.Join(Tokens(value), Delimiter) == Text.Lower(value)
      && Text.Split(Text.Join(Tokens(value), Delimiter), Delimiter) == Tokens(value)
  {
    Text.JoinSplit(Text.Lower(value), Delimiter);
  }

  /**
   * A field's clause selects a document exactly when the document holds one
   * of the value's tokens under the field's path: OR across the tokens.
   */
  lemma ConditionMeaning(field: MappedField, value: string, doc: Document)
    ensures Satisfies(Condition(field, value), doc) <==> FieldHolds(doc, field, value)
  {
    var ts := Tokens(value);
    var path := MapFields[field];
    var ms := MatchList(path, ts, 0);
    var c := Condition(field, value);
    assert c.children == ms;
    if Satisfies(c, doc) {
      var i :| 0 <= i < |ms| && Satisfies(ms[i], doc);
      assert ts[i] in ts && Holds(doc, path, ts[i]);
    }
    if FieldHolds(doc, field, value) {
      var t :| t in ts && Holds(doc, path, t);
      var i :| 0 <= i < |ts| && ts[i] == t;
      assert Satisfies(ms[i], doc);
    }
  }

  // ----- which fields take part --------------------------------------------

  /** Extending the key list by one key adds that key's clause, if present. */
  lemma ConditionsOfOnlySnoc(request: Request, keys: seq<MappedField>, k: MappedField)
    ensures ConditionsOf(Only(request, keys + [k])) == ConditionsOf(Only(request, keys)) + ClauseFor(request, k)
  {
    var ks := keys + [k];
    assert ks[..|ks| - 1] == keys;
    assert Only(request, ks) == Only(request, keys) + Present(request, k);
    var pre := Only(request, keys);
    if k in request {
      var all := pre + [(k, request[k])];
      assert all[..|all| - 1] == pre;
    } else {
      assert pre + [] == pre;
    }
  }

  /** `ConditionsOfOnlySnoc`, with the extended key list and the earlier clauses named. */
  lemma ConditionsOfOnlyExtend(request: Request, keys: seq<MappedField>, k: MappedField, ks: seq<MappedField>, pre: seq<Query>)
    requires ks == keys + [k]
    requires ConditionsOf(Only(request, keys)) == pre
    ensures ConditionsOf(Only(request, ks)) == pre + ClauseFor(request, k)
  {
    ConditionsOfOnlySnoc(request, keys, k);
  }

  /** The clauses of a list of four keys, one key at a time. */
  lemma ConditionsOfFourKeys(request: Request, a: MappedField, b: MappedField, c: MappedField, d: MappedField)
    ensures ConditionsOf(Only(request, [a, b, c, d])) ==
      ClauseFor(request, a) + ClauseFor(request, b) + ClauseFor(request, c) + ClauseFor(request, d)
  {
    var A, B, C, D := ClauseFor(request, a), ClauseFor(request, b), ClauseFor(request, c), ClauseFor(request, d);
    var k0: seq<MappedField> := [];
    var k1, k2, k3, k4 := k0 + [a], k0 + [a, b], k0 + [a, b, c], k0 + [a, b, c, d];
    assert Only(request, k0) == [];
    ConditionsOfOnlyExtend(request, k0, a, k1, []);
    assert [] + A == A;
    ConditionsOfOnlyExtend(request, k1, b, k2, A);
    ConditionsOfOnlyExtend(request, k2, c, k3, A + B);
    ConditionsOfOnlyExtend(request, k3, d, k4, A + B + C);
    assert k4 == [a, b, c, d];
  }

  /**
   * The clauses appended for a request: one per recognised field present,
   * in the declaration order of `mapFields` (country, continent, city,
   * language), and nothing else.
   */
  lemma ConditionsPerField(request: Request)
    ensures Conditions(request) ==
      ClauseFor(request, "country") + ClauseFor(request, "continent")
      + ClauseFor(request, "city") + ClauseFor(request, "language")
  {
    ConditionsOfFourKeys(request, "country", "continent", "city", "language");
  }

  lemma {:induction false} OnlyAgrees(r1: Request, r2: Request, keys: seq<MappedField>)
    requires forall k :: k in keys ==> (k in r1 <==> k in r2)
    requires forall k :: k in keys && k in r1 ==> r1[k] == r2[k]
    ensures Only(r1, keys) == Only(r2, keys)
    decreases |keys|
  {
    if keys != [] {
      var keys' := keys[..|keys| - 1];
      assert forall k :: k in keys' ==> k in keys;
      OnlyAgrees(r1, r2, keys');
    }
  }

  /**
   * Keys outside `mapFields` never contribute: two requests that agree on
   * the recognised fields produce the same clauses.
   */
  lemma ConditionsIgnoreUnmappedKeys(r1: Request, r2: Request)
    requires forall f :: f in MapFields ==> (f in r1 <==> f in r2)
    requires forall f :: f in MapFields && f in r1 ==> r1[f] == r2[f]
    ensures Conditions(r1) == Conditions(r2)
  {
    FieldNamesAreMapFields();
    OnlyAgrees(r1, r2, FieldNames);
  }

  /** Adding or changing a key outside `mapFields` changes no clause. */
  lemma UnmappedKeyChangesNothing(request: Request, key: string, value: string)
    requires key !in MapFields
    ensures Conditions(request[key := value]) == Conditions(request)
  {
    ConditionsIgnoreUnmappedKeys(request[key := value], request);
  }

  /** A request with no recognised field gives no clause. */
  lemma NoRecognisedFieldNoClause(request: Request)
    requires forall f :: f in MapFields ==> f !in request
    ensures Conditions(request) == []
  {
    ConditionsPerField(request);
  }

  /** A request holding one recognised field yields that field's clause alone. */
  lemma SingleFieldConditions(field: MappedField, value: string)
    ensures Conditions(map[field := value]) == [Condition(field, value)]
  {
    var r := map[field := value];
    ConditionsPerField(r);
    var c := [Condition(field, value)];
    if field == "country" {
      assert Conditions(r) == c + [] + [] + [];
    } else if field == "continent" {
      assert Conditions(r) == [] + c + [] + [];
    } else if field == "city" {
      assert Conditions(r) == [] + [] + c + [];
    } else {
      assert Conditions(r) == [] + [] + [] + c;
    }
  }

  // ----- the assembled query -----------------------------------------------

  /** Every query of `qs` selects `doc`. */
  predicate AllSatisfied(qs: seq<Query>, doc: Document) {
    forall i :: 0 <= i < |qs| ==> Satisfies(qs[i], doc)
  }

  /** Every field/value pair is met by `doc`. */
  predicate AllFieldsHold(pairs: seq<(MappedField, string)>, doc: Document)
  {
    forall p :: p in pairs ==> FieldHolds(doc, p.0, p.1)
  }

  /**
   * All clauses of a pair list select a document exactly when the document
   * meets every pair: AND across the pairs.
   */
  lemma ConditionsOfMeaning(pairs: seq<(MappedField, string)>, doc: Document)
    ensures AllSatisfied(ConditionsOf(pairs), doc) <==> AllFieldsHold(pairs, doc)
  {
    var cs := ConditionsOf(pairs);
    ConditionsOfAt(pairs);
    forall i | 0 <= i < |pairs|
      ensures Satisfies(cs[i], doc) <==> FieldHolds(doc, pairs[i].0, pairs[i].1)
    {
      ConditionMeaning(pairs[i].0, pairs[i].1, doc);
    }
    if AllSatisfied(cs, doc) {
      forall p | p in pairs
        ensures FieldHolds(doc, p.0, p.1)
      {
        var i :| 0 <= i < |pairs| && pairs[i] == p;
      }
    }
  }

  /** No key is listed twice. */
  predicate DistinctKeys(keys: seq<MappedField>) {
    forall i, j :: 0 <= i < j < |keys| ==> keys[i] != keys[j]
  }

  /** No key heads two pairs. */
  predicate DistinctPairKeys(pairs: seq<(MappedField, string)>) {
    forall i, j :: 0 <= i < j < |pairs| ==> pairs[i].0 != pairs[j].0
  }

  /**
   * `request->only(keys)` keeps exactly the listed keys that the request
   * holds, each with its request value, and nothing else.
   */
  lemma {:induction false} OnlyExact(request: Request, keys: seq<MappedField>)
    ensures forall k :: k in keys && k in request ==> (k, request[k]) in Only(request, keys)
    ensures forall p :: p in Only(request, keys) ==> p.0 in keys && p.0 in request && p.1 == request[p.0]
    decreases |keys|
  {
    if keys != [] {
      var init, k := keys[..|keys| - 1], keys[|keys| - 1];
      OnlyExact(request, init);
      assert keys == init + [k];
      assert forall j :: j in keys ==> j in init || j == k;
      assert Only(request, keys) == Only(request, init) + Present(request, k);
    }
  }

  /** A key listed once yields at most one pair. */
  lemma {:induction false} OnlyDistinct(request: Request, keys: seq<MappedField>)
    requires DistinctKeys(keys)
    ensures DistinctPairKeys(Only(request, keys))
    decreases |keys|
  {
    if keys != [] {
      var init, k := keys[..|keys| - 1], keys[|keys| - 1];
      assert DistinctKeys(init) by {
        assert forall i :: 0 <= i < |init| ==> init[i] == keys[i];
      }
      OnlyDistinct(request, init);
      var pre := Only(request, init);
      assert Only(request, keys) == pre + Present(request, k);
      if k in request {
        OnlyExact(request, init);
        assert k !in init by {
          assert forall i :: 0 <= i < |init| ==> init[i] == keys[i];
        }
        var all := pre + [(k, request[k])];
        forall i, j | 0 <= i < j < |all|
          ensures all[i].0 != all[j].0
        {
          assert all[i] == pre[i];
          if j == |pre| {
            assert pre[i] in pre;
          } else {
            assert all[j] == pre[j];
          }
        }
      } else {
        assert pre + [] == pre;
      }
    }
  }

  /**
   * The assembled query of a fresh handler selects a document exactly when,
   * for every recognised field present in the request, the document holds
   * one of that field's tokens: AND across fields, OR within a field.
   */
  lemma AssembledQueryMeaning(request: Request, doc: Document)
    ensures Satisfies(Bool(Must, Conditions(request)), doc) <==>
      (forall f :: f in MapFields && f in request ==> FieldHolds(doc, f, request[f]))
  {
    FieldNamesAreMapFields();
    var pairs := Only(request, FieldNames);
    var cs := Conditions(request);
    OnlyExact(request, FieldNames);
    ConditionsOfMeaning(pairs, doc);
    assert Satisfies(Bool(Must, cs), doc) <==> AllSatisfied(cs, doc);
    if AllFieldsHold(pairs, doc) {
      forall f | f in MapFields && f in request
        ensures FieldHolds(doc, f, request[f])
      {
        assert (f, request[f]) in pairs;
      }
    }
  }

  /**
   * `getQuery` is `must` over the clauses built so far, in order, and so
   * selects exactly the documents every clause selects; `getParams` carries
   * that query with the page size, the index `countries` and type `_doc`.
   */
  lemma HandlerParams(h: SearchHandler, doc: Document)
    ensures var p := h.GetParams();
      && p.size == h.perPage && p.index == "countries" && p.docType == "_doc"
      && p.body.query == h.GetQuery()
      && h.GetQuery().occur == Must && h.GetQuery().children == h.searchConditions
      && (Satisfies(p.body.query, doc) <==>
           forall i :: 0 <= i < |h.searchConditions| ==> Satisfies(h.searchConditions[i], doc))
  {
  }

  /**
   * Once a fresh handler has built its conditions, the query it sends
   * selects the documents that meet every present recognised field.
   */
  lemma BuiltHandlerParams(h: SearchHandler, doc: Document)
    requires h.searchConditions == Conditions(h.request)
    ensures Satisfies(h.GetParams().body.query, doc) <==>
      (forall f :: f in MapFields && f in h.request ==> FieldHolds(doc, f, h.request[f]))
  {
    AssembledQueryMeaning(h.request, doc);
  }

  // ----- the scenarios of the unit tests -----------------------------------

  /** `setPerPage(20)` on a fresh handler leaves `perPage` at 20. */
  method SetPerPageScenario(request: Request) returns (h: SearchHandler)
    ensures h.perPage == 20 && h.searchConditions == [] && h.request == request
  {
    h := new SearchHandler(request);
    var self := h.SetPerPage(20);
  }

  /**
   * A request holding one recognised field whose value has no `;` yields
   * one `must` around one lower-cased `match` (the unit test uses
   * `country=Australia`, giving `match {Name: "australia"}`).
   */
  method SingleFieldScenario(field: MappedField, value: string) returns (h: SearchHandler)
    requires Delimiter !in value
    ensures h.searchConditions == [Bool(Must, [Match(MapFields[field], Plain(Text.Lower(value)))])]
    ensures h.perPage == DefaultPerPage
  {
    h := new SearchHandler(map[field := value]);
    h.BuildSearchConditions();
    SingleFieldConditions(field, value);
    SingleValueCondition(field, value);
  }

  /** The tokens of `a;b` are the lower-cased `a` and `b`. */
  lemma TwoValueTokens(a: string, b: string)
    requires Delimiter !in a && Delimiter !in b
    ensures Tokens(a + [Delimiter] + b) == [Text.Lower(a), Text.Lower(b)]
  {
    var la, lb := Text.Lower(a), Text.Lower(b);
    Text.LowerAppend(a + [Delimiter], b);
    Text.LowerAppend(a, [Delimiter]);
    assert Text.Lower([Delimiter]) == [Delimiter];
    Text.LowerKeepsNonLetter(a, Delimiter);
    Text.LowerKeepsNonLetter(b, Delimiter);
    Text.SplitAfterToken(la, Delimiter, lb);
    Text.SplitWithoutDelimiter(lb, Delimiter);
  }

  /**
   * A value `a;b` yields one `should` holding the lower-cased matches of
   * `a` and then `b` (the documented case `country=Australia;England`).
   */
  lemma TwoValueCondition(field: MappedField, a: string, b: string)
    requires Delimiter !in a && Delimiter !in b
    ensures Condition(field, a + [Delimiter] + b)
      == Bool(Should, [Match(MapFields[field], Plain(Text.Lower(a))), Match(MapFields[field], Plain(Text.Lower(b)))])
  {
    var v, path := a + [Delimiter] + b, MapFields[field];
    var ts := [Text.Lower(a), Text.Lower(b)];
    TwoValueTokens(a, b);
    TwoMatches(path, ts[0], ts[1]);
    ClauseIsCondition(field, v, MatchList(path, ts, 0));
  }

  /** Two values give two bare `match` leaves, in order. */
  lemma TwoMatches(path: string, x: string, y: string)
    ensures MatchList(path, [x, y], 0) == [Match(path, Plain(x)), Match(path, Plain(y))]
  {
  }

  /**
   * The clause list is never reset: building twice on one handler repeats
   * every clause, while a second fresh handler on the same request builds
   * the same list as the first.
   */
  method BuildTwice(request: Request) returns (h: SearchHandler, g: SearchHandler)
    ensures h.searchConditions == Conditions(request) + Conditions(request)
    ensures g.searchConditions == Conditions(request)
  {
    h := new SearchHandler(request);
    h.BuildSearchConditions();
    h.BuildSearchConditions();
    g := new SearchHandler(request);
    g.BuildSearchConditions();
  }
}
