/**
 * The skill catalog and the filter index derived from it for the dropdowns:
 * `categories`, `subcategoriesLearn`/`subcategoriesTeach` and the filter part of
 * `getFilteredSkillsLearn`/`getFilteredSkillsTeach` (src/App.js:24-48).
 * The catalog is a parameter here; the application imports it from a JSON file.
 */
module Catalog {
  import opened Sequences

  /** One entry of the skill catalog. */
  datatype Skill = Skill(id: int, category: string, subcategory: string, name: string)

  // ---------------------------------------------------------------------------
  // The order of the default `Array.prototype.sort` on strings

  /** Lexicographic order on characters: a proper prefix comes first, otherwise the first
      differing character decides. */
  predicate Less(a: string, b: string)
    decreases |a|
  {
    if a == [] then b != []
    else if b == [] then false
    else if a[0] != b[0] then a[0] < b[0]
    else Less(a[1..], b[1..])
  }

  lemma {:induction false} LessIrreflexive(a: string)
    ensures !Less(a, a)
    decreases |a|
  {
    if a != [] {
      LessIrreflexive(a[1..]);
    }
  }

  lemma {:induction false} LessAsymmetric(a: string, b: string)
    requires Less(a, b)
    ensures !Less(b, a)
    decreases |a|
  {
    if a != [] && a[0] == b[0] {
      LessAsymmetric(a[1..], b[1..]);
    }
  }

  lemma {:induction false} LessTransitive(a: string, b: string, c: string)
    requires Less(a, b) && Less(b, c)
    ensures Less(a, c)
    decreases |a|
  {
    if a != [] && a[0] == b[0] && b[0] == c[0] {
      LessTransitive(a[1..], b[1..], c[1..]);
    }
  }

  lemma {:induction false} LessTotal(a: string, b: string)
    ensures a == b || Less(a, b) || Less(b, a)
    decreases |a|
  {
    if a != [] && b != [] && a[0] == b[0] {
      LessTotal(a[1..], b[1..]);
      if a[1..] == b[1..] {
        assert a == [a[0]] + a[1..] && b == [b[0]] + b[1..];
      }
    }
  }

  predicate StrictlySorted(s: seq<string>) {
    forall i, j :: 0 <= i < j < |s| ==> Less(s[i], s[j])
  }

  lemma StrictlySortedNoDuplicates(s: seq<string>)
    requires StrictlySorted(s)
    ensures NoDuplicates(s)
  {
    forall i, j | 0 <= i < j < |s|
      ensures s[i] != s[j]
    {
      LessIrreflexive(s[i]);
    }
  }

  /** Two strictly sorted sequences with the same elements are equal: the result of
      `[...new Set(xs)].sort()` is determined by the set of `xs`. */
  lemma {:induction false} StrictlySortedUnique(a: seq<string>, b: seq<string>)
    requires StrictlySorted(a) && StrictlySorted(b)
    requires forall x :: x in a <==> x in b
    ensures a == b
    decreases |a|
  {
    assert b != [] ==> b[0] in a;
    if a != [] {
      assert a[0] in b;
      var i :| 0 <= i < |a| && a[i] == b[0];
      var j :| 0 <= j < |b| && b[j] == a[0];
      if a[0] != b[0] {
        assert i != 0 && j != 0;
        assert Less(a[0], b[0]) && Less(b[0], a[0]);
        LessAsymmetric(a[0], b[0]);
      }
      forall x
        ensures x in a[1..] <==> x in b[1..]
      {
        if x in a[1..] {
          var k :| 1 <= k < |a| && a[k] == x;
          assert Less(a[0], x);
          LessIrreflexive(x);
          assert x in a && x in b;
          var m :| 0 <= m < |b| && b[m] == x;
          assert m != 0 && x == b[1..][m - 1];
        }
        if x in b[1..] {
          var k :| 1 <= k < |b| && b[k] == x;
          assert Less(b[0], x);
          LessIrreflexive(x);
          assert x in b && x in a;
          var m :| 0 <= m < |a| && a[m] == x;
          assert m != 0 && x == a[1..][m - 1];
        }
      }
      StrictlySortedUnique(a[1..], b[1..]);
      assert a == [a[0]] + a[1..] && b == [b[0]] + b[1..];
    }
  }

  lemma HeadBelowAll(x: string, xs: seq<string>)
    requires StrictlySorted(xs) && xs != [] && Less(x, xs[0])
    ensures forall j :: 0 <= j < |xs| ==> Less(x, xs[j])
  {
    forall j | 0 < j < |xs|
      ensures Less(x, xs[j])
    {
      LessTransitive(x, xs[0], xs[j]);
    }
  }

  /** Inserts `x` into a strictly sorted sequence unless it is already there. */
  function Insert(xs: seq<string>, x: string): (r: seq<string>)
    requires StrictlySorted(xs)
    ensures StrictlySorted(r)
    ensures forall y :: y in r <==> y in xs || y == x
    decreases |xs|
  {
    if xs == [] then [x]
    else if xs[0] == x then xs
    else if Less(x, xs[0]) then
      HeadBelowAll(x, xs);
      [x] + xs
    else
      LessTotal(x, xs[0]);
      var rest := Insert(xs[1..], x);
      assert forall y :: y in rest ==> Less(xs[0], y);
      [xs[0]] + rest
  }

  /** `[...new Set(xs)].sort()`: the distinct elements of `xs` in ascending order. */
  function SortedSet(xs: seq<string>): (r: seq<string>)
    ensures StrictlySorted(r)
    ensures forall y :: y in r <==> y in xs
    decreases |xs|
  {
    if xs == [] then [] else Insert(SortedSet(xs[1..]), xs[0])
  }

  // ---------------------------------------------------------------------------
  // The filter index

  /** `categories` (src/App.js:24). */
  function Categories(catalog: seq<Skill>): (r: seq<string>)
    ensures StrictlySorted(r) && NoDuplicates(r)
    ensures forall c :: c in r <==> exists k :: 0 <= k < |catalog| && catalog[k].category == c
  {
    var all := seq(|catalog|, k requires 0 <= k < |catalog| => catalog[k].category);
    assert forall k :: 0 <= k < |catalog| ==> all[k] == catalog[k].category;
    StrictlySortedNoDuplicates(SortedSet(all));
    SortedSet(all)
  }

  /** The category list depends only on which records occur, not on how often or in which
      order they occur in the catalog. */
  lemma CategoriesUnique(a: seq<Skill>, b: seq<Skill>)
    requires forall s :: s in a <==> s in b
    ensures Categories(a) == Categories(b)
  {
    var ca, cb := Categories(a), Categories(b);
    forall c
      ensures c in ca <==> c in cb
    {
      if c in ca {
        var k :| 0 <= k < |a| && a[k].category == c;
        assert a[k] in b;
      }
      if c in cb {
        var k :| 0 <= k < |b| && b[k].category == c;
        assert b[k] in a;
      }
    }
    StrictlySortedUnique(ca, cb);
  }

  /** `subcategoriesLearn`/`subcategoriesTeach` (src/App.js:27-32): nothing until a category is
      chosen, then the distinct subcategories of the records in that category, in order. */
  function Subcategories(catalog: seq<Skill>, category: string): (r: seq<string>)
    ensures category == [] ==> r == []
    ensures StrictlySorted(r) && NoDuplicates(r)
    ensures category != [] ==>
      forall c :: c in r <==> exists k :: 0 <= k < |catalog| && catalog[k].category == category && catalog[k].subcategory == c
  {
    if category == [] then []
    else
      var inCategory := Filter(catalog, (s: Skill) => s.category == category);
      var all := seq(|inCategory|, k requires 0 <= k < |inCategory| => inCategory[k].subcategory);
      assert forall c :: c in all <==> exists k :: 0 <= k < |catalog| && catalog[k].category == category && catalog[k].subcategory == c by {
        forall c
          ensures c in all <==> exists k :: 0 <= k < |catalog| && catalog[k].category == category && catalog[k].subcategory == c
        {
          if k :| 0 <= k < |catalog| && catalog[k].category == category && catalog[k].subcategory == c {
            assert catalog[k] in inCategory;
            var m :| 0 <= m < |inCategory| && inCategory[m] == catalog[k];
            assert all[m] == c;
          }
          if c in all {
            var m :| 0 <= m < |all| && all[m] == c;
            assert inCategory[m] in catalog;
            var k :| 0 <= k < |catalog| && catalog[k] == inCategory[m];
          }
        }
      }
      StrictlySortedNoDuplicates(SortedSet(all));
      SortedSet(all)
  }

  /** A record passes the dropdown filters: an empty filter lets everything through. */
  predicate Selected(s: Skill, category: string, subcategory: string) {
    (category == [] || s.category == category) && (subcategory == [] || s.subcategory == subcategory)
  }

  /** The two filters of `getFilteredSkillsLearn`/`getFilteredSkillsTeach` (src/App.js:35-48).
      The result keeps catalog order; the name sort that follows in the application is not
      modelled, and the contract says only what that sort preserves. */
  function FilteredSkills(catalog: seq<Skill>, category: string, subcategory: string): (r: seq<Skill>)
    ensures forall s :: multiset(r)[s] == if Selected(s, category, subcategory) then multiset(catalog)[s] else 0
    ensures forall s :: s in r <==> s in catalog && Selected(s, category, subcategory)
  {
    var byCategory := Filter(catalog, (s: Skill) => category == [] || s.category == category);
    Filter(byCategory, (s: Skill) => subcategory == [] || s.subcategory == subcategory)
  }
}
