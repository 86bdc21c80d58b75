# Search query builder of laravel-and-elasticsearch

This project models the query-condition builder of the application's
`SearchHandler` (`app/Handlers/SearchHandler.php`). The handler turns the
filter fields of a `GET /search` request (`country`, `continent`, `city`,
`language`) into an Elasticsearch bool query:

- every recognised field present in the request is lower-cased and split on
  `;`;
- each piece becomes a `match` leaf on the field's document path (`Name`,
  `Continent`, `cities.Name`, `languages.Language`);
- the leaves of one field go under `should` when there are several pieces
  and under `must` when there is one;
- the per-field clauses are appended to the handler's `searchConditions`
  list;
- `getQuery` puts that list under one top-level `must`, and `getParams` adds
  the page size and the index `countries` with type `_doc`.

Files:

- `text.dfy` (module `Text`): `strtolower` restricted to ASCII (`Lower`),
  `explode` on one character (`Split`), `implode` (`Join`), and their laws.
- `query_dsl.dfy` (module `QueryDsl`): the query tree (`Match` leaves with
  a plain or boosted value, `Bool` nodes tagged `Must`/`Should`/`MustNot`).
  It also holds `Satisfies`, a reference reading of which documents a query
  selects. A document is modelled as a map from field path to its set of
  normalised values. `must` reads as AND and `should` as OR, as the
  source's comments on lines 92-94, 124-125 and 140 say. The comment on
  line 155 calls `must_not` NOT; for several children the model reads it as
  NOR, that is, NOT of each child.
- `search_handler.dfy` (module `Handlers`): the field table, the parameter
  record and the class `SearchHandler`. The class has the mutable fields
  `perPage` and `searchConditions`, and the request is a constant field.
  `BuildSearchConditions` and `BuildMatches` are loops proved against the
  specification functions `Conditions` and `MatchList`.
- `search_properties.dfy` (module `SearchProperties`): lemmas about the
  clause shapes, what the assembled query selects, and which request keys
  take part. It also holds the scenarios of the unit tests.

`request->only(array_keys($this->mapFields))` is modelled as `Only`. It visits
the keys in the declaration order of `mapFields` and keeps those present in
the request. Clauses therefore come out in the order country, continent,
city, language, whatever order the request lists them in.

## Model

| member | source | states |
|---|---|---|
| `Text.Lower` | app/Handlers/SearchHandler.php:87 | the lower-cased value has the same length; every ASCII capital becomes its small letter and every other character is kept |
| `Text.Split` | app/Handlers/SearchHandler.php:87 | `explode(';', …)` gives at least one piece, and no piece contains the delimiter |
| `Text.JoinSplit` | app/Handlers/SearchHandler.php:87 | joining the pieces with the delimiter gives the string back |
| `Text.SplitJoin` | app/Handlers/SearchHandler.php:87 | splitting a join of delimiter-free pieces gives the pieces back |
| `Text.SplitSingleIff` | app/Handlers/SearchHandler.php:87-91 | the split has exactly one piece (the whole string) if and only if the delimiter does not occur |
| `Text.SplitCount` | app/Handlers/SearchHandler.php:87-91 | the split has one piece more than the string has delimiters |
| `Text.SplitLower` | app/Handlers/SearchHandler.php:87 | lower-casing then splitting gives the lower-cased pieces of the original value, which is how the unit test builds its expectation |
| `Text.LowerKeepsNonLetter` | app/Handlers/SearchHandler.php:87 | lower-casing neither creates nor removes a `;` |
| `Text.LowerAppend` | app/Handlers/SearchHandler.php:87 | lower-casing a concatenation lower-cases each part separately |
| `Handlers.FieldNamesAreMapFields` | app/Handlers/SearchHandler.php:22-27 | the four request keys are listed once each and are exactly the keys of the field map |
| `Handlers.Leaf` | app/Handlers/SearchHandler.php:115 | a zero boost gives the bare value; any other boost gives `{query, boost}` carrying that boost |
| `Handlers.MatchList` | app/Handlers/SearchHandler.php:110-121 | one `match` per value, in the same order, each on the given path with that value's leaf |
| `Handlers.Tokens` | app/Handlers/SearchHandler.php:87 | a request value yields at least one token and no token contains `;` |
| `Handlers.ConditionsOf` | app/Handlers/SearchHandler.php:86-99 | exactly one clause per field/value pair; which clause sits at each position is stated by `ConditionsOfAt` |
| `Handlers.ConditionsOfAt` | app/Handlers/SearchHandler.php:86-99 | clause `i` is the clause built from pair `i`, for every position: the foreach appends one clause per pair, in the pairs' order |
| `Handlers.Condition` | app/Handlers/SearchHandler.php:87-98 | a field's clause is a `bool` node with one child per token of the lower-cased, `;`-split value; its exact shape (`should` iff several tokens) is stated by `ConditionShape` and what it selects by `ConditionMeaning` |
| `Handlers.Only` | app/Handlers/SearchHandler.php:84-86 | `only` yields no more pairs than there are listed keys; membership in both directions is stated by `OnlyExact` and uniqueness of keys by `OnlyDistinct` |
| `Handlers.Conditions` | app/Handlers/SearchHandler.php:84-99 | a request yields at most four clauses; the closed form (one per present recognised field, in `mapFields` order) is stated by `ConditionsPerField` |
| `Handlers.SearchHandler.constructor` | app/Handlers/SearchHandler.php:15-50 | a new handler keeps its request, has `perPage` 10 and no conditions |
| `Handlers.SearchHandler.SetPerPage` | app/Handlers/SearchHandler.php:58-63 | sets `perPage` to the argument, leaves the conditions alone, and returns the handler itself |
| `Handlers.SearchHandler.BuildSearchConditions` | app/Handlers/SearchHandler.php:82-100 | appends `Conditions(request)` to the old list; the old list stays as a prefix and `perPage` is unchanged |
| `Handlers.SearchHandler.BuildMatches` | app/Handlers/SearchHandler.php:110-121 | the loop returns `MatchList` of the field's mapped path over the values |
| `Handlers.SearchHandler.BuildShouldClause` | app/Handlers/SearchHandler.php:130-137 | the clause selects a document if and only if one of its queries does (an empty one selects all) |
| `Handlers.SearchHandler.BuildMustClause` | app/Handlers/SearchHandler.php:145-152 | the clause selects a document if and only if all of its queries do |
| `Handlers.SearchHandler.BuildMustNotClause` | app/Handlers/SearchHandler.php:160-167 | the clause selects a document if and only if none of its queries does |
| `SearchProperties.ConditionShape` | app/Handlers/SearchHandler.php:86-98 | a field's clause is `should` if and only if the value contains `;`, and `must` otherwise; it holds one bare `match` on the mapped path per `;`-piece of the value, lower-cased, in order |
| `SearchProperties.SingleValueCondition` | app/Handlers/SearchHandler.php:86-98 | a value without `;` gives exactly `must [match {path: lower(value)}]` |
| `SearchProperties.EmptyValueCondition` | app/Handlers/SearchHandler.php:87-97 | the empty value still gives a clause: `must [match {path: ""}]` |
| `SearchProperties.TwoValueTokens` | app/Handlers/SearchHandler.php:87 | the tokens of `a;b` (with `a`, `b` free of `;`) are exactly lower(`a`) then lower(`b`) |
| `SearchProperties.TwoValueCondition` | app/Handlers/SearchHandler.php:91-95 | a value `a;b` gives `should [match {path: lower(a)}, match {path: lower(b)}]`, in that order |
| `SearchProperties.ConditionTokensRoundTrip` | app/Handlers/SearchHandler.php:87-89 | the clause has one `match` per token, no matched value contains `;`, and the tokens joined with `;` give the lower-cased value back |
| `SearchProperties.ConditionMeaning` | app/Handlers/SearchHandler.php:89-98 | a field's clause selects a document if and only if the document holds one of the value's tokens under the mapped path (OR within a field) |
| `SearchProperties.ConditionsOfOnlySnoc` | app/Handlers/SearchHandler.php:84-99 | listing one more key adds exactly that key's clause at the end when the request holds it, and nothing when it does not |
| `SearchProperties.ConditionsPerField` | app/Handlers/SearchHandler.php:84-99 | the appended clauses are exactly one per recognised field present, in the order country, continent, city, language, and nothing else |
| `SearchProperties.ConditionsIgnoreUnmappedKeys` | app/Handlers/SearchHandler.php:84-86 | two requests that agree on the four recognised fields yield the same clauses |
| `SearchProperties.UnmappedKeyChangesNothing` | app/Handlers/SearchHandler.php:84-86 | adding or changing a key outside the field map changes no clause |
| `SearchProperties.NoRecognisedFieldNoClause` | app/Handlers/SearchHandler.php:84-99 | a request without any recognised field yields no clause, so the query is an empty `must` |
| `SearchProperties.SingleFieldConditions` | app/Handlers/SearchHandler.php:84-99 | a request holding a single recognised field yields that field's clause and no other |
| `SearchProperties.OnlyExact` | app/Handlers/SearchHandler.php:84-86 | `request->only(array_keys(mapFields))` keeps every listed key the request holds, with its request value, and keeps nothing else |
| `SearchProperties.OnlyDistinct` | app/Handlers/SearchHandler.php:84-86 | when no key is listed twice (as for the keys of `mapFields`), no key heads two of the kept pairs |
| `SearchProperties.ConditionsOfMeaning` | app/Handlers/SearchHandler.php:86-99 | all clauses of a pair list select a document if and only if every pair's field holds one of its tokens |
| `SearchProperties.AssembledQueryMeaning` | app/Handlers/SearchHandler.php:193-202 | `must` over a request's clauses selects a document if and only if every present recognised field matches one of its tokens (AND across fields, OR within a field) |
| `Handlers.SearchHandler.GetQuery` | app/Handlers/SearchHandler.php:193-202 | the query is one top-level `must` over `searchConditions`, unchanged and in order, and selects a document if and only if every condition does |
| `Handlers.SearchHandler.GetParams` | app/Handlers/SearchHandler.php:174-186 | the parameters carry index `countries`, type `_doc`, `size == perPage` and the query of `GetQuery` as the body |
| `SearchProperties.HandlerParams` | app/Handlers/SearchHandler.php:174-202 | the parameters carry `size == perPage`, index `countries`, type `_doc` and the query; the query is `must` over `searchConditions`, unchanged and in order, and selects exactly what every condition selects |
| `SearchProperties.BuiltHandlerParams` | app/Handlers/SearchHandler.php:174-202 | after one build on a fresh handler, the query sent selects a document if and only if every present recognised field matches |
| `SearchProperties.SetPerPageScenario` | tests/Unit/Handlers/SearchHandlerTest.php:22-29 | `setPerPage(20)` on a new handler leaves `perPage` at 20 and no conditions |
| `SearchProperties.SingleFieldScenario` | tests/Unit/Handlers/SearchHandlerTest.php:35-48 | a request with one recognised field and a `;`-free value builds exactly `[must [match {path: lower(value)}]]` |
| `SearchProperties.BuildTwice` | app/Handlers/SearchHandler.php:82-100 | building twice on one handler repeats every clause, while a second new handler on the same request builds the same list once |

## Left out

- `SearchHandler::lookup` and `SearchHandler::search` (app/Handlers/SearchHandler.php:70-75, 209-226) are left out. They call the Elasticsearch client over the network and log failures. `Exception` and `Log` are not imported in that namespace, so the fallback result `{hits: {total: 0}}` is not a dependable outcome, and it is not modelled. `GetParams` is what `lookup` would hand to the client.
- `IndexHandler`, the console commands, the service provider and `SearchController` are not part of this model. They are client calls, framework wiring and request validation. Only the constants `countries` and `_doc` (app/Handlers/IndexHandler.php:14, 19) are used. The controller's `paginate` default of 10 is the argument of `SetPerPage`. `continent` is missing from its validation rules, which the model does not cover.
- `Text.Lower`: `strtolower` is modelled for ASCII A–Z only. Locale-dependent lower-casing of other bytes is not modelled, and strings are sequences of characters, not bytes.
- Request values are strings. Array-valued parameters (`country[]=…`) and values the framework turns into `null` are not modelled.
- The request is modelled as a map fixed when the handler is built. Laravel's dot-notation lookup in `only` does not matter here, because none of the four keys contains a dot.
- `perPage` is an unbounded integer. PHP's 64-bit `int` is not modelled because the handler does no arithmetic on it.
- `Satisfies` is a reference reading of the bool-query semantics. Scoring, boosts, analysers and normalisers are not modelled; stored values are assumed to be already lower-cased.
- `Satisfies` reads `match` as exact membership of the token among a field's keyword values. The index mapping makes only `Name` and `LocalName` normalised keywords (app/Handlers/IndexHandler.php:126-134). `Continent`, `cities.Name` and `languages.Language` are mapped dynamically as analysed text, where a `match` on a multi-word token selects documents holding any one of its words. `ConditionMeaning`, `ConditionsOfMeaning`, `AssembledQueryMeaning` and `BuiltHandlerParams` therefore describe those three fields only under the exact-keyword reading.
