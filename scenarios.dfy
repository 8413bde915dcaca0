/**
 * Worked scenarios on a one-record catalog and a one-entry alias table: the alias
 * "guitar" -> ["axe", "six-string"] and the record (Music, Guitar, Acoustic Guitar).
 * They show the one-way expansion of aliases on concrete data: searching the canonical
 * term "guitar" finds the record, searching its alias "axe" finds nothing.
 */
module Scenarios {
  import opened Sequences
  import opened Text
  import opened Aliases
  import opened Catalog
  import opened SkillSearch

  const Guitar: Skill := Skill(1, "Music", "Guitar", "Acoustic Guitar")
  const Piano: Skill := Skill(2, "Music", "Piano", "Piano")
  const GuitarAliases: AliasSource := [("guitar", ["axe", "six-string"])]

  /** Text whose lowercased, separator-free form already has the normalized shape
      normalizes to exactly that form. */
  lemma NormalizesTo(s: string, t: string)
    requires ReplaceSeparators(ToLower(s)) == t && IsNormalized(t)
    ensures Normalize(s) == t
  {
    CollapseFixpoint(t);
    assert TrimStart(t) == t;
    assert TrimEnd(t) == t;
  }

  // The stages of `Normalize` on the literals of the scenarios, one literal at a time.
  // Each fact about a literal is its own lemma so that every proof obligation stays small:
  // the larger lemmas below combine these by calls instead of re-deriving them.

  lemma MusicLowered()
    ensures ReplaceSeparators(ToLower("Music")) == "music"
  {
  }

  lemma GuitarWordLowered()
    ensures ReplaceSeparators(ToLower("Guitar")) == "guitar"
  {
  }

  lemma AcousticGuitarLowered()
    ensures ReplaceSeparators(ToLower("Acoustic Guitar")) == "acoustic guitar"
  {
  }

  lemma LowerGuitarLowered()
    ensures ReplaceSeparators(ToLower("guitar")) == "guitar"
  {
  }

  lemma AxeLowered()
    ensures ReplaceSeparators(ToLower("axe")) == "axe"
  {
  }

  lemma SixStringLowered()
    ensures ReplaceSeparators(ToLower("six-string")) == "six string"
  {
  }

  lemma MusicShape()
    ensures IsNormalized("music")
  {
  }

  lemma GuitarShape()
    ensures IsNormalized("guitar")
  {
  }

  lemma AcousticGuitarShape()
    ensures IsNormalized("acoustic guitar")
  {
  }

  lemma AxeShape()
    ensures IsNormalized("axe")
  {
  }

  lemma SixStringShape()
    ensures IsNormalized("six string")
  {
  }

  lemma GuitarCategory()
    ensures Normalize(Guitar.category) == "music"
  {
    MusicLowered();
    MusicShape();
    NormalizesTo("Music", "music");
  }

  lemma GuitarSubcategory()
    ensures Normalize(Guitar.subcategory) == "guitar"
  {
    GuitarWordLowered();
    GuitarShape();
    NormalizesTo("Guitar", "guitar");
  }

  lemma GuitarName()
    ensures Normalize(Guitar.name) == "acoustic guitar"
  {
    AcousticGuitarLowered();
    AcousticGuitarShape();
    NormalizesTo("Acoustic Guitar", "acoustic guitar");
  }

  lemma NormalizeLowerGuitar()
    ensures Normalize("guitar") == "guitar"
  {
    LowerGuitarLowered();
    GuitarShape();
    NormalizesTo("guitar", "guitar");
  }

  lemma NormalizeAxe()
    ensures Normalize("axe") == "axe"
  {
    AxeLowered();
    AxeShape();
    NormalizesTo("axe", "axe");
  }

  lemma NormalizeSixString()
    ensures Normalize("six-string") == "six string"
  {
    SixStringLowered();
    SixStringShape();
    NormalizesTo("six-string", "six string");
  }

  lemma GuitarAliasValues()
    ensures NormalizeAll(["axe", "six-string"]) == ["axe", "six string"]
  {
    NormalizeAxe();
    NormalizeSixString();
    NormalizeAllPair("axe", "six-string", "axe", "six string");
  }

  /** A table prepared from one pair has the one entry of that pair. */
  lemma PreparedSingle(term: string, values: seq<string>, key: string, normalized: seq<string>)
    requires Normalize(term) == key && NormalizeAll(values) == normalized
    ensures Prepared([(term, values)]) == map[key := normalized]
  {
    assert [(term, values)][..0] == [];
  }

  /** The preparation loop on the one-entry table normalizes "six-string" to "six string". */
  lemma GuitarTable()
    ensures Prepared(GuitarAliases) == map["guitar" := ["axe", "six string"]]
  {
    NormalizeLowerGuitar();
    GuitarAliasValues();
    PreparedSingle("guitar", ["axe", "six-string"], "guitar", ["axe", "six string"]);
  }

  /** A text without the letter `c` contains no text that has it. */
  lemma MissingLetter(s: string, t: string, c: char)
    requires c in t && c !in s
    ensures !Contains(s, t)
  {
    if Contains(s, t) {
      var i := ContainsOccurs(s, t);
    }
  }

  /** A one-token query expands to the expansion of its token. */
  lemma ExpandSingle(table: AliasTable, token: string)
    ensures ExpandAll(table, [token]) == Expand(table, token)
  {
    assert [token][1..] == [];
  }

  /** A query that normalizes to one word is that one token. */
  lemma WordTokens(query: string, word: string)
    requires Normalize(query) == word && ' ' !in word
    ensures QueryTokens(query) == [word]
  {
    SplitWord(word);
  }

  /** A one-token query expands to the expansion of that token. */
  lemma SingleTokenQuery(table: AliasTable, query: string, word: string)
    requires QueryTokens(query) == [word]
    ensures ExpandedQuery(table, query) == Expand(table, word)
  {
    ExpandSingle(table, word);
  }

  // `SplitWord` is called on each literal in a lemma of its own: called inside the lemmas
  // about `QueryTokens`, its precondition is checked next to the unfolded normalizer.
  lemma GuitarSplit()
    ensures Split("guitar") == ["guitar"]
  {
    SplitWord("guitar");
  }

  lemma AxeSplit()
    ensures Split("axe") == ["axe"]
  {
    SplitWord("axe");
  }

  lemma GuitarTokens()
    ensures QueryTokens("guitar") == ["guitar"]
  {
    NormalizeLowerGuitar();
    GuitarSplit();
  }

  lemma AxeTokens()
    ensures QueryTokens("axe") == ["axe"]
  {
    NormalizeAxe();
    AxeSplit();
  }

  /** "guitar" is a key: it expands to itself and its two aliases. */
  lemma GuitarQuery()
    ensures ExpandedQuery(Prepared(GuitarAliases), "guitar") == ["guitar", "axe", "six string"]
  {
    GuitarTokens();
    SingleTokenQuery(Prepared(GuitarAliases), "guitar", "guitar");
    GuitarTable();
    GuitarExpands();
  }

  lemma GuitarExpands()
    ensures Expand(map["guitar" := ["axe", "six string"]], "guitar") == ["guitar", "axe", "six string"]
  {
  }

  /** "axe" is only an alias, not a key: it expands to itself alone. */
  lemma AxeQuery()
    ensures ExpandedQuery(Prepared(GuitarAliases), "axe") == ["axe"]
  {
    AxeTokens();
    SingleTokenQuery(Prepared(GuitarAliases), "axe", "axe");
    GuitarTable();
  }

  lemma GuitarInSubcategory()
    ensures FieldsContain(Guitar, "guitar")
  {
    GuitarSubcategory();
    assert "guitar" <= Normalize(Guitar.subcategory);
  }

  lemma GuitarMatches()
    ensures MatchTest(Prepared(GuitarAliases), "guitar")(Guitar)
  {
    GuitarQuery();
    GuitarInSubcategory();
    var e := ExpandedQuery(Prepared(GuitarAliases), "guitar");
    assert MatchesAny(Guitar, e);
  }

  /** On a one-record catalog, a query that normalizes to something returns the record
      exactly when the record matches. */
  lemma SearchOne(table: AliasTable, s: Skill, query: string)
    requires Normalize(query) != []
    ensures MatchTest(table, query)(s) ==> Search(table, [s], query) == [s]
    ensures !MatchTest(table, query)(s) ==> Search(table, [s], query) == []
  {
    if MatchTest(table, query)(s) {
      FilterKeepsAll([s], MatchTest(table, query));
    } else {
      FilterKeepsNone([s], MatchTest(table, query));
    }
  }

  /** Searching the canonical term finds the record through its subcategory. */
  lemma SearchGuitar()
    ensures Search(Prepared(GuitarAliases), [Guitar], "guitar") == [Guitar]
  {
    GuitarMatches();
    NormalizeLowerGuitar();
    SearchOne(Prepared(GuitarAliases), Guitar, "guitar");
  }

  /** A field whose normalized text has no letter x does not contain "axe". */
  lemma AxeNotIn(field: string, n: string)
    requires Normalize(field) == n && 'x' !in n
    ensures !Contains(Normalize(field), "axe")
  {
    MissingLetter(n, "axe", 'x');
  }

  lemma AxeNotInCategory()
    ensures !Contains(Normalize(Guitar.category), "axe")
  {
    assert 'x' !in "music" by {}
    GuitarCategory();
    AxeNotIn(Guitar.category, "music");
  }

  lemma AxeNotInSubcategory()
    ensures !Contains(Normalize(Guitar.subcategory), "axe")
  {
    assert 'x' !in "guitar" by {}
    GuitarSubcategory();
    AxeNotIn(Guitar.subcategory, "guitar");
  }

  lemma AxeNotInName()
    ensures !Contains(Normalize(Guitar.name), "axe")
  {
    assert 'x' !in "acoustic guitar" by {}
    GuitarName();
    AxeNotIn(Guitar.name, "acoustic guitar");
  }

  lemma AxeInNoField()
    ensures !FieldsContain(Guitar, "axe")
  {
    AxeNotInCategory();
    AxeNotInSubcategory();
    AxeNotInName();
  }

  lemma AxeMisses()
    ensures !MatchTest(Prepared(GuitarAliases), "axe")(Guitar)
  {
    AxeQuery();
    AxeInNoField();
    assert !MatchesAny(Guitar, ["axe"][1..]);
  }

  /** Searching an alias finds nothing: "axe" is not a key, so it expands to itself only, and
      no field of the record contains it. */
  lemma SearchAxe()
    ensures Search(Prepared(GuitarAliases), [Guitar], "axe") == []
  {
    AxeMisses();
    NormalizeAxe();
    SearchOne(Prepared(GuitarAliases), Guitar, "axe");
  }

  /** Two records of the same category give one category entry. */
  lemma SharedCategory()
    ensures Categories([Guitar, Piano]) == ["Music"]
  {
    var catalog := [Guitar, Piano];
    var r := Categories(catalog);
    assert catalog[0].category == "Music";
    forall c
      ensures c in r <==> c in ["Music"]
    {
      if c in r {
        var k :| 0 <= k < |catalog| && catalog[k].category == c;
      }
    }
    StrictlySortedUnique(r, ["Music"]);
  }

  /** An interior run of spaces becomes one space: a word boundary is kept, not dropped. */
  lemma DoubleSpaceCollapse(x: char, y: char)
    requires !IsSpace(x) && !IsSpace(y)
    ensures Collapse([x, ' ', ' ', y]) == [x, ' ', y]
  {
    assert [y][1..] == [];
    assert Collapse([y]) == [y];
    assert [' ', ' ', y][1..] == [' ', y];
    assert LeadingSpaces([' ', y]) == 1;
    assert TrimStart([' ', y]) == [y];
    assert Collapse([' ', ' ', y]) == [' ', y];
    assert [x, ' ', ' ', y][1..] == [' ', ' ', y];
  }

  /** The two words around that run are two tokens. */
  lemma DoubleSpaceWords(x: char, y: char)
    requires !IsSpace(x) && !IsSpace(y)
    ensures Words([x, ' ', ' ', y]) == [[x], [y]]
  {
    assert [y][1..] == [];
    assert WordLength([y]) == 1;
    assert [y][..1] == [y];
    assert Words([y]) == [[y]];
    assert [' ', y][1..] == [y];
    assert Words([' ', y]) == [[y]];
    assert [' ', ' ', y][1..] == [' ', y];
    assert Words([' ', ' ', y]) == [[y]];
    var s := [x, ' ', ' ', y];
    assert WordLength(s[1..]) == 0;
    assert WordLength(s) == 1;
    assert s[..1] == [x] && s[1..] == [' ', ' ', y];
  }
}
