/**
 * The alias table of the skill search: its one-time preparation (the loop that builds
 * `normalizedAliasMap`, src/App.js:61-65) and the token expander `getAliasesForToken`
 * (src/App.js:68-73).
 *
 * The raw table is a parameter: a sequence of (term, aliases) pairs in the order in which
 * `for...in` enumerates the imported JSON object.
 */
module Aliases {
  import opened Text

  type AliasSource = seq<(string, seq<string>)>

  /** The prepared table: normalized term to its normalized aliases. */
  type AliasTable = map<string, seq<string>>

  /** Every element of `values` has the normalized shape. */
  predicate AllNormalized(values: seq<string>) {
    forall i :: 0 <= i < |values| ==> IsNormalized(values[i])
  }

  /** `values.map(normalize)`. */
  function NormalizeAll(values: seq<string>): (r: seq<string>)
    ensures |r| == |values|
    ensures forall i :: 0 <= i < |r| ==> r[i] == Normalize(values[i])
    ensures AllNormalized(r)
    decreases |values|
  {
    if values == [] then []
    else
      var rest := NormalizeAll(values[1..]);
      AllNormalizedCons(Normalize(values[0]), rest);
      [Normalize(values[0])] + rest
  }

  lemma AllNormalizedCons(x: string, rest: seq<string>)
    requires IsNormalized(x) && AllNormalized(rest)
    ensures AllNormalized([x] + rest)
  {
    assert forall i :: 1 <= i < |rest| + 1 ==> ([x] + rest)[i] == rest[i - 1];
  }

  /** `map(normalize)` on a two-element list. */
  lemma NormalizeAllPair(a: string, b: string, na: string, nb: string)
    requires Normalize(a) == na && Normalize(b) == nb
    ensures NormalizeAll([a, b]) == [na, nb]
  {
  }

  /** The table after the preparation loop has processed `pairs`, one entry after another;
      a later term that normalizes to the same key replaces the earlier entry. */
  function Prepared(pairs: AliasSource): AliasTable
    decreases |pairs|
  {
    if pairs == [] then map[]
    else
      var last := pairs[|pairs| - 1];
      Prepared(pairs[..|pairs| - 1])[Normalize(last.0) := NormalizeAll(last.1)]
  }

  /** Every key and every alias of a prepared table is normalized. */
  predicate WellFormed(table: AliasTable) {
    forall k :: k in table ==> IsNormalized(k) && AllNormalized(table[k])
  }

  /** The preparation loop (src/App.js:61-65). */
  method PrepareAliases(pairs: AliasSource) returns (table: AliasTable)
    ensures table == Prepared(pairs)
    ensures forall k :: k in table <==> exists i :: 0 <= i < |pairs| && Normalize(pairs[i].0) == k
    ensures WellFormed(table)
  {
    table := map[];
    var n := 0;
    while n < |pairs|
      invariant 0 <= n <= |pairs|
      invariant table == Prepared(pairs[..n])
    {
      var (key, values) := pairs[n];
      PreparedStep(pairs, n);
      table := table[Normalize(key) := NormalizeAll(values)];
      n := n + 1;
    }
    assert pairs[..n] == pairs;
    PreparedKeys(pairs);
    PreparedWellFormed(pairs);
  }

  /** One loop iteration: the table of a longer prefix is the table of the shorter one with
      the entry of the next pair written over it. */
  lemma PreparedStep(pairs: AliasSource, n: int)
    requires 0 <= n < |pairs|
    ensures Prepared(pairs[..n + 1]) == Prepared(pairs[..n])[Normalize(pairs[n].0) := NormalizeAll(pairs[n].1)]
  {
    assert pairs[..n + 1][..n] == pairs[..n];
  }

  /** The keys of the prepared table are exactly the normalized terms. */
  lemma PreparedKeys(pairs: AliasSource)
    ensures forall k :: k in Prepared(pairs) <==> exists i :: 0 <= i < |pairs| && Normalize(pairs[i].0) == k
  {
    forall k | k in Prepared(pairs)
      ensures exists i :: 0 <= i < |pairs| && Normalize(pairs[i].0) == k
    {
      var i := PreparedKeyFrom(pairs, k);
    }
    forall i | 0 <= i < |pairs|
      ensures Normalize(pairs[i].0) in Prepared(pairs)
    {
      PreparedHasKey(pairs, i);
    }
  }

  /** Every key of the prepared table comes from some term. */
  lemma {:induction false} PreparedKeyFrom(pairs: AliasSource, k: string) returns (i: int)
    requires k in Prepared(pairs)
    ensures 0 <= i < |pairs| && Normalize(pairs[i].0) == k
    decreases |pairs|
  {
    var last := |pairs| - 1;
    if Normalize(pairs[last].0) == k {
      i := last;
    } else {
      var init := pairs[..last];
      i := PreparedKeyFrom(init, k);
      assert init[i] == pairs[i];
    }
  }

  /** Every term gives a key of the prepared table. */
  lemma {:induction false} PreparedHasKey(pairs: AliasSource, i: int)
    requires 0 <= i < |pairs|
    ensures Normalize(pairs[i].0) in Prepared(pairs)
    decreases |pairs|
  {
    if i < |pairs| - 1 {
      var init := pairs[..|pairs| - 1];
      assert init[i] == pairs[i];
      PreparedHasKey(init, i);
    }
  }

  /** Keys and aliases of the prepared table are all fixed points of `Normalize`. */
  lemma {:induction false} PreparedWellFormed(pairs: AliasSource)
    ensures WellFormed(Prepared(pairs))
    decreases |pairs|
  {
    if pairs != [] {
      var init := pairs[..|pairs| - 1];
      PreparedWellFormed(init);
      var t, key := Prepared(init), Normalize(pairs[|pairs| - 1].0);
      var table := t[key := NormalizeAll(pairs[|pairs| - 1].1)];
      assert Prepared(pairs) == table;
      forall k | k in table
        ensures IsNormalized(k) && AllNormalized(table[k])
      {
        if k != key {
          assert k in t;
        }
      }
    }
  }

  /** Re-normalizing a key or an alias of the prepared table changes nothing. */
  lemma PreparedFixedPoints(pairs: AliasSource, key: string, alias: string)
    requires key in Prepared(pairs) && alias in Prepared(pairs)[key]
    ensures Normalize(key) == key && Normalize(alias) == alias
  {
    PreparedWellFormed(pairs);
    NormalizeFixpoint(key);
    NormalizeFixpoint(alias);
  }

  /** Last one wins: the entry of a key comes from the last term that normalizes to it. */
  lemma {:induction false} PreparedLastWins(pairs: AliasSource, i: int)
    requires 0 <= i < |pairs|
    requires forall j :: i < j < |pairs| ==> Normalize(pairs[j].0) != Normalize(pairs[i].0)
    ensures Normalize(pairs[i].0) in Prepared(pairs)
    ensures Prepared(pairs)[Normalize(pairs[i].0)] == NormalizeAll(pairs[i].1)
    decreases |pairs|
  {
    if i < |pairs| - 1 {
      var init := pairs[..|pairs| - 1];
      assert init[i] == pairs[i];
      PreparedLastWins(init, i);
    }
  }

  /** `getAliasesForToken`: the token itself, followed by its aliases when it is a key.
      Every array is truthy in JavaScript, so an empty alias list still counts as a key. */
  function Expand(table: AliasTable, token: string): (r: seq<string>)
    ensures r != [] && r[0] == token
    ensures token in table ==> r[1..] == table[token]
    ensures token !in table ==> r == [token]
  {
    if token in table then [token] + table[token] else [token]
  }

  /** Expansion goes from a term to its aliases only: an alias that is not a key itself
      expands to nothing but itself, even though it is listed under some key. */
  lemma ExpandOneWay(table: AliasTable, key: string, alias: string)
    requires key in table && alias in table[key] && alias !in table && alias != key
    ensures key !in Expand(table, alias)
    ensures alias in Expand(table, key)
  {
    assert Expand(table, key) == [key] + table[key];
  }
}
