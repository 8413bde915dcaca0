/**
 * The search engine `getSearchResults` (src/App.js:75-95): normalize the query, split it into
 * tokens, expand every token through the prepared alias table, keep the catalog records in
 * whose normalized category, subcategory or name some expanded token occurs, and return the
 * first twenty of them in catalog order.
 *
 * Tokens are combined with OR: a record matches when ANY expanded token of ANY query token
 * occurs in ANY of its three fields.
 */
module SkillSearch {
  import opened Sequences
  import opened Text
  import opened Aliases
  import opened Catalog

  /** `slice(0, 20)`. */
  const MaxResults: nat := 20

  /** `searchTokens.flatMap(getAliasesForToken)`: the expansions of the tokens, one after
      another, duplicates kept. */
  function ExpandAll(table: AliasTable, tokens: seq<string>): (r: seq<string>)
    ensures forall x :: x in r <==> exists k :: 0 <= k < |tokens| && x in Expand(table, tokens[k])
    decreases |tokens|
  {
    if tokens == [] then []
    else
      var rest := ExpandAll(table, tokens[1..]);
      assert forall k :: 1 <= k < |tokens| ==> tokens[k] == tokens[1..][k - 1];
      Expand(table, tokens[0]) + rest
  }

  /** `cat.includes(token) || subcat.includes(token) || name.includes(token)`. */
  predicate FieldsContain(s: Skill, token: string) {
    || Contains(Normalize(s.category), token)
    || Contains(Normalize(s.subcategory), token)
    || Contains(Normalize(s.name), token)
  }

  /** `expandedTokens.some(...)`. */
  predicate MatchesAny(s: Skill, tokens: seq<string>)
    decreases |tokens|
  {
    tokens != [] && (FieldsContain(s, tokens[0]) || MatchesAny(s, tokens[1..]))
  }

  lemma {:induction false} MatchesAnyExists(s: Skill, tokens: seq<string>)
    ensures MatchesAny(s, tokens) <==> exists t :: t in tokens && FieldsContain(s, t)
    decreases |tokens|
  {
    if tokens != [] {
      MatchesAnyExists(s, tokens[1..]);
      if t :| t in tokens && FieldsContain(s, t) {
        if t != tokens[0] {
          assert t in tokens[1..];
        }
      }
    }
  }

  /** `normalizedSearch.split(" ")`. */
  function QueryTokens(query: string): seq<string> {
    Split(Normalize(query))
  }

  /** `expandedTokens`. */
  function ExpandedQuery(table: AliasTable, query: string): seq<string> {
    ExpandAll(table, QueryTokens(query))
  }

  /** The callback given to `filter`. */
  function MatchTest(table: AliasTable, query: string): Skill -> bool {
    (s: Skill) => MatchesAny(s, ExpandedQuery(table, query))
  }

  /** Every catalog record the query matches, in catalog order, before the cut to twenty. */
  function Matching(table: AliasTable, catalog: seq<Skill>, query: string): seq<Skill> {
    Filter(catalog, MatchTest(table, query))
  }

  /** `getSearchResults` (src/App.js:75-95). */
  function Search(table: AliasTable, catalog: seq<Skill>, query: string): (r: seq<Skill>)
    ensures |r| <= MaxResults
    ensures IsSubsequence(r, catalog)
    ensures forall s :: s in r ==> MatchesAny(s, ExpandedQuery(table, query))
  {
    if Normalize(query) == [] then []
    else
      var matching := Matching(table, catalog, query);
      var n := if |matching| < MaxResults then |matching| else MaxResults;
      SubsequencePrefix(matching, catalog, n);
      matching[..n]
  }

  // ---------------------------------------------------------------------------
  // What a match means

  /** `e` occurs in the record's normalized category, subcategory or name. */
  ghost predicate OccursInFields(e: string, s: Skill) {
    || IsSubstring(e, Normalize(s.category))
    || IsSubstring(e, Normalize(s.subcategory))
    || IsSubstring(e, Normalize(s.name))
  }

  /** A record matches a query when some token of the normalized query, or an alias of that
      token, occurs in the record's normalized category, subcategory or name. */
  ghost predicate MatchesQuery(table: AliasTable, query: string, s: Skill) {
    exists token, e :: token in QueryTokens(query) && e in Expand(table, token) && OccursInFields(e, s)
  }

  lemma FieldsContainIff(s: Skill, e: string)
    ensures FieldsContain(s, e) <==> OccursInFields(e, s)
  {
    ContainsIff(Normalize(s.category), e);
    ContainsIff(Normalize(s.subcategory), e);
    ContainsIff(Normalize(s.name), e);
  }

  /** The `some`/`includes` test of the source decides exactly `MatchesQuery`. */
  lemma MatchesAnyIff(table: AliasTable, query: string, s: Skill)
    ensures MatchesAny(s, ExpandedQuery(table, query)) <==> MatchesQuery(table, query, s)
  {
    var tokens := QueryTokens(query);
    MatchesAnyExists(s, ExpandedQuery(table, query));
    if MatchesAny(s, ExpandedQuery(table, query)) {
      var e :| e in ExpandedQuery(table, query) && FieldsContain(s, e);
      var k :| 0 <= k < |tokens| && e in Expand(table, tokens[k]);
      FieldsContainIff(s, e);
    }
    if MatchesQuery(table, query, s) {
      var token, e :| token in tokens && e in Expand(table, token) && OccursInFields(e, s);
      FieldsContainIff(s, e);
      var k :| 0 <= k < |tokens| && tokens[k] == token;
      assert e in ExpandedQuery(table, query);
    }
  }

  // ---------------------------------------------------------------------------
  // Properties of the search

  /** A query of whitespace and separators only (`""`, `"   "`, `",,--"`) finds nothing. */
  lemma SearchBlankQuery(table: AliasTable, catalog: seq<Skill>, query: string)
    requires forall i :: 0 <= i < |query| ==> IsSpace(query[i]) || IsSeparator(query[i])
    ensures Search(table, catalog, query) == []
  {
    NormalizeEmptyIff(query);
  }

  /** A query that normalizes to something splits into non-empty tokens without spaces. */
  lemma QueryTokensNonEmpty(query: string)
    requires Normalize(query) != []
    ensures forall t :: t in QueryTokens(query) ==> t != [] && ' ' !in t
  {
    NormalizedTokensNonEmpty(Normalize(query));
  }

  /** The tokens are the normalized query cut at its spaces: joined back with single spaces
      they give the normalized query. */
  lemma QueryTokensJoin(query: string)
    ensures Join(QueryTokens(query)) == Normalize(query)
  {
    JoinSplit(Normalize(query));
  }

  /** Past the guard, the tokens are the words of the query once it is lowercased and its
      separators are spaces. */
  lemma QueryTokensWords(query: string)
    requires Normalize(query) != []
    ensures QueryTokens(query) == Words(ReplaceSeparators(ToLower(query)))
  {
    NormalizeWords(query);
  }

  /** The guard on the empty query is needed: its only token `""` occurs in every text, so
      without the guard every record would match. */
  lemma EmptyTokenMatchesEverything(table: AliasTable, s: Skill)
    ensures ExpandAll(table, Split([])) != []
    ensures MatchesAny(s, ExpandAll(table, Split([])))
  {
    var e := ExpandAll(table, Split([]));
    assert [] in Expand(table, Split([])[0]);
    assert [] in e;
    assert FieldsContain(s, []);
    MatchesAnyExists(s, e);
  }

  /** Soundness: every result matches the query. */
  lemma SearchSound(table: AliasTable, catalog: seq<Skill>, query: string, s: Skill)
    requires s in Search(table, catalog, query)
    ensures s in catalog
    ensures MatchesQuery(table, query, s)
  {
    MatchesAnyIff(table, query, s);
    var r := Search(table, catalog, query);
    var m := Matching(table, catalog, query);
    assert s in m;
  }

  /** A matching record sits in `Matching` right after the matching records before it. */
  lemma MatchingAt(table: AliasTable, catalog: seq<Skill>, query: string, j: int)
    requires 0 <= j < |catalog| && MatchesQuery(table, query, catalog[j])
    ensures |Matching(table, catalog[..j], query)| < |Matching(table, catalog, query)|
    ensures Matching(table, catalog, query)[|Matching(table, catalog[..j], query)|] == catalog[j]
  {
    MatchesAnyIff(table, query, catalog[j]);
    FilterAt(catalog, MatchTest(table, query), j);
  }

  /** For a query that normalizes to something, the results are the first twenty matches. */
  lemma SearchTakesFirst(table: AliasTable, catalog: seq<Skill>, query: string, k: int)
    requires Normalize(query) != []
    requires 0 <= k < |Matching(table, catalog, query)| && k < MaxResults
    ensures Matching(table, catalog, query)[k] in Search(table, catalog, query)
  {
    var m := Matching(table, catalog, query);
    assert Search(table, catalog, query)[k] == m[k];
  }

  /** The results are the first matches: a matching record is returned whenever fewer than
      twenty matching records stand before it in the catalog. */
  lemma SearchFirstMatches(table: AliasTable, catalog: seq<Skill>, query: string, j: int)
    requires Normalize(query) != []
    requires 0 <= j < |catalog| && MatchesQuery(table, query, catalog[j])
    requires |Matching(table, catalog[..j], query)| < MaxResults
    ensures catalog[j] in Search(table, catalog, query)
  {
    MatchingAt(table, catalog, query, j);
    SearchTakesFirst(table, catalog, query, |Matching(table, catalog[..j], query)|);
  }

  /** Completeness below the cap: when fewer than twenty records come back, every matching
      record of the catalog is among them. */
  lemma SearchComplete(table: AliasTable, catalog: seq<Skill>, query: string, s: Skill)
    requires Normalize(query) != []
    requires |Search(table, catalog, query)| < MaxResults
    requires s in catalog && MatchesQuery(table, query, s)
    ensures s in Search(table, catalog, query)
  {
    MatchesAnyIff(table, query, s);
    assert s in Matching(table, catalog, query);
  }

  /** An alias that normalizes to the empty string makes its key match every record. */
  lemma EmptyAliasMatchesEverything(table: AliasTable, query: string, key: string, s: Skill)
    requires key in QueryTokens(query) && key in table && [] in table[key]
    ensures MatchesQuery(table, query, s)
  {
    var x := Expand(table, key);
    var i :| 0 <= i < |table[key]| && table[key][i] == [];
    assert x[i + 1] == [];
    assert OccursAt(Normalize(s.name), [], 0);
    assert OccursInFields([], s);
  }
}
