# SkillSwap skill search, alias resolution and selection lists

This project models the non-UI logic of the SkillSwap page component (`src/App.js`) and proves properties of it. The page lets a user find skills to learn and to teach in a catalog of skill records. Each record has an id, a category, a subcategory and a name.

- **Text normalizer** (`normalize`): lowercases the text, turns `- _ . ,` into spaces, collapses whitespace runs and trims. Module `Text`, in `text.dfy`.
- **Alias table.** The raw term-to-aliases table is prepared once, with keys and values normalized. `getAliasesForToken` then expands a search token into the token and its aliases. Module `Aliases`, in `aliases.dfy`. The preparation is a loop that updates a map, so it is the method `PrepareAliases`, proved against the function `Prepared`.
- **Search engine** (`getSearchResults`): normalizes the query and splits it on spaces. It expands every token and keeps the catalog records in whose normalized category, subcategory or name an expanded token occurs. It returns the first twenty of them. Module `SkillSearch`, in `search.dfy`. `Text` holds its string primitives, `split(" ")` and `includes`.
- **Filter index** (`categories`, `subcategoriesLearn/Teach`, the two filters of `getFilteredSkillsLearn/Teach`): module `Catalog`, in `catalog.dfy`. The default string `sort` is modelled as lexicographic order (`Less`).
- **Selection lists**: `addSelectedLearn/Teach`, `removeSkillLearn/Teach` and `addSkillFromSearchLearn/Teach`. Module `Selection`, in `selection.dfy`. `addSelected*` walks the picked names and pushes onto a copy of the list, so it is the method `AddSelected` with a loop, proved against the function `Merged`.
- **Shared sequence facts**: `Array.prototype.filter`, subsequences and duplicates live in module `Sequences` (`sequences.dfy`).
- **Worked scenarios** on a one-record catalog and a one-entry alias table: module `Scenarios` (`scenarios.dfy`).

The catalog and the alias table are JSON imports in the application. Here they are parameters:

- the catalog is a `seq<Skill>`;
- the alias table is a sequence of (term, aliases) pairs, in the order in which `for...in` enumerates the object.

The Learn and Teach handlers are the same code applied to two lists, so each is modelled once.

## Model

| member | source | states |
|---|---|---|
| Text.LowerChar | src/App.js:55 | an upper-case ASCII letter becomes its lower-case letter (32 code points up); every other character is kept; no upper-case letter remains |
| Text.ToLowerSpec | src/App.js:55 | `toLowerCase` (`Text.ToLower`) keeps the length and lowercases each upper-case letter in place, keeping every other character |
| Text.ReplaceSeparatorsSpec | src/App.js:56 | `replace(/[-_.,]/g, " ")` (`Text.ReplaceSeparators`) keeps the length, turns each of `-_.,` into a space in place and keeps every other character |
| Text.LeadingSpaces | src/App.js:58 | the length of the longest all-whitespace prefix: everything before it is whitespace, the character at it is not |
| Text.TrailingSpaces | src/App.js:58 | the length of the longest all-whitespace suffix |
| Text.TrimStart | src/App.js:58 | the result is a suffix of the input; everything dropped is whitespace; the result does not start with whitespace |
| Text.TrimEnd | src/App.js:58 | the result is a prefix of the input; everything dropped is whitespace; the result does not end with whitespace |
| Text.TrimStartChars | src/App.js:58 | every character of the trimmed text comes from the input |
| Text.TrimSpec | src/App.js:58 | `trim` (`Text.Trim`) returns the stretch of the input that starts after the leading whitespace; everything before and after that stretch is whitespace |
| Text.TrimStartLength | src/App.js:58 | the start trim drops exactly the leading whitespace |
| Text.InnerPart | src/App.js:58 | a prefix of a suffix is a stretch of the whole; whitespace left after it in the suffix is whitespace of the whole |
| Text.TrimEnds | src/App.js:58 | the result of `trim` neither starts nor ends with whitespace |
| Text.Collapse | src/App.js:57 | no two adjacent spaces remain; empty exactly when the input is; starts with a space exactly when the input starts with whitespace (the lemmas `CollapseRun`, `CollapseWord` and `CollapseAppend`, with `NonSpaceCollapse`, `WordsCollapse` and `CollapseChars`, fix the output for every input) |
| Text.CollapseRun | src/App.js:57 | a non-empty whitespace run becomes exactly one space |
| Text.CollapseWord | src/App.js:57 | a text without whitespace is kept as it is |
| Text.LeadingSpacesAppend | src/App.js:58 | leading whitespace that ends inside a text does not reach into what follows it |
| Text.TrimStartAppend | src/App.js:58 | `trimStart` of such a text followed by more text trims only the first part |
| Text.CollapseAppend | src/App.js:57 | a text that ends in a non-whitespace character collapses independently of what follows it |
| Text.CollapseChars | src/App.js:57 | every output character is a space or a non-whitespace character of the input |
| Text.CollapseKeeps | src/App.js:57 | every non-whitespace character of the input survives the collapse |
| Text.NonSpace | src/App.js:53-58 | the non-whitespace characters of a text, in order: none of them is whitespace |
| Text.NonSpaceAppend | src/App.js:53-58 | the non-whitespace characters of a concatenation are those of the parts, in order |
| Text.NonSpaceBlank | src/App.js:57-58 | an all-whitespace text has no non-whitespace character |
| Text.NonSpaceTrimStart | src/App.js:58 | `trimStart` keeps every non-whitespace character, in order and in number |
| Text.NonSpaceTrimEnd | src/App.js:58 | `trimEnd` keeps every non-whitespace character, in order and in number |
| Text.NonSpaceCollapse | src/App.js:57 | collapsing whitespace runs keeps every non-whitespace character, in order and in number |
| Text.NonSpaceNormalize | src/App.js:53-58 | the non-whitespace characters of the normalized text are those of the lowercased, separator-free input, in order and in number |
| Text.Normalize | src/App.js:53-58 | the output has no upper-case ASCII letter, no `-_.,`, no whitespace but the plain space, no double space and no space at either end |
| Text.NormalizeShape | src/App.js:53-58 | the four stages in order end in that normalized shape |
| Text.TrimShape | src/App.js:58 | trimming collapsed text gives the normalized shape |
| Text.TrimStartShape | src/App.js:58 | trimming the start keeps the characters and the single spacing and leaves no leading space |
| Text.TrimEndShape | src/App.js:58 | trimming the end of such text leaves no trailing space either |
| Text.CollapseFixpoint | src/App.js:57 | collapsing text that has no whitespace run changes nothing |
| Text.NormalizeFixpoint | src/App.js:53-58 | a text is left unchanged by `normalize` exactly when it has the normalized shape |
| Text.NormalizeIdempotent | src/App.js:53-58 | normalizing twice is normalizing once |
| Text.TrimAllSpace | src/App.js:58 | trimming all-whitespace text leaves nothing |
| Text.TrimNonSpace | src/App.js:58 | trimming text with a non-whitespace character leaves something |
| Text.NormalizeEmptyIff | src/App.js:53-58 | a text normalizes to `""` exactly when it consists of whitespace and `-_.,` only |
| Text.NormalizeBlank | src/App.js:53-58 | whitespace and `-_.,` alone normalize to `""` |
| Text.NormalizeKeeps | src/App.js:53-58 | one character that is neither whitespace nor `-_.,` makes the result non-empty |
| Text.Split | src/App.js:80 | `split(" ")` gives at least one piece and no piece holds a space |
| Text.JoinSplit | src/App.js:80 | joining the pieces with single spaces gives back the text |
| Text.SplitCons | src/App.js:80 | a word followed by a space splits into that word and the split of the rest |
| Text.SplitWord | src/App.js:80 | a text without spaces splits into itself alone |
| Text.SplitJoin | src/App.js:80 | splitting space-joined words gives back the words |
| Text.SplitPiecesNonEmpty | src/App.js:80 | without double or trailing spaces, only the first piece can be empty, and it is empty exactly for `""` or a leading space |
| Text.NormalizedTokensNonEmpty | src/App.js:76-80 | a non-empty normalized text splits into non-empty tokens |
| Text.WordLength | src/App.js:80 | the length of the longest whitespace-free prefix: nothing before it is whitespace, the character at it is |
| Text.Words | src/App.js:53-80 | the maximal non-whitespace runs of a text, in order: each non-empty and free of whitespace |
| Text.WordLengthAppend | src/App.js:80 | a word followed by nothing or by whitespace ends where it did |
| Text.WordsBlank | src/App.js:57-58 | an all-whitespace text has no word |
| Text.WordsSkipSpaces | src/App.js:58 | leading whitespace separates no word |
| Text.WordsAppendSpaces | src/App.js:58 | trailing whitespace separates no word |
| Text.WordsAppendWord | src/App.js:58 | one word followed by whitespace is that one word |
| Text.WordsTrimStart | src/App.js:58 | `trimStart` keeps the words |
| Text.WordsTrimEnd | src/App.js:58 | `trimEnd` keeps the words |
| Text.WordsCollapse | src/App.js:57 | collapsing whitespace runs keeps the words and the boundaries between them |
| Text.WordsCollapseWord | src/App.js:57 | the same, for a text that starts with a word |
| Text.NormalizedAfterSpace | src/App.js:53-58 | a space in normalized text is the plain space, and what follows it is non-empty normalized text |
| Text.SplitWords | src/App.js:80 | on non-empty normalized text, `split(" ")` gives exactly the words |
| Text.NormalizeWords | src/App.js:53-80 | when the text normalizes to something, splitting the normalized text gives the words of the lowercased, separator-free text: every inner whitespace run is one boundary, and there are no others |
| Text.ContainsOccurs | src/App.js:92 | every hit of `includes` is an occurrence at some index |
| Text.OccursContains | src/App.js:92 | every occurrence is found by `includes` |
| Text.ContainsIff | src/App.js:92 | `includes` (`Text.Contains`) holds exactly when the token is a substring |
| Aliases.NormalizeAll | src/App.js:64 | the aliases keep their number and order, each alias is replaced by its normalized form, and each is in the normalized shape |
| Aliases.NormalizeAllPair | src/App.js:64 | `map(normalize)` on two aliases normalizes each in place |
| Aliases.PrepareAliases | src/App.js:61-65 | the loop builds the prepared table (`Aliases.Prepared`); its keys are exactly the normalized terms; every key and alias is normalized |
| Aliases.PreparedStep | src/App.js:62-64 | one iteration writes the entry of the next pair over the table built so far |
| Aliases.PreparedKeys | src/App.js:61-65 | the keys of the prepared table `Aliases.Prepared` are exactly the normalized terms |
| Aliases.PreparedKeyFrom | src/App.js:61-65 | every key of the prepared table is the normalized form of some term |
| Aliases.PreparedHasKey | src/App.js:61-65 | every normalized term is a key of the prepared table |
| Aliases.PreparedWellFormed | src/App.js:61-65 | every key and alias of the prepared table is normalized |
| Aliases.PreparedFixedPoints | src/App.js:61-65 | keys and aliases of the prepared table are fixed points of `normalize` |
| Aliases.PreparedLastWins | src/App.js:62-64 | when two terms normalize to the same key, the entry of the last one is kept |
| Aliases.Expand | src/App.js:68-73 | the expansion starts with the token; it is the token followed by its aliases when the token is a key, and the token alone otherwise |
| Aliases.ExpandOneWay | src/App.js:68-73 | an alias that is not a key does not expand to its key, while the key expands to the alias |
| Sequences.Filter | src/App.js:86-94 | `filter` keeps order (a subsequence), keeps every kept element as often as it occurs and drops the rest |
| Sequences.FilterCons | src/App.js:86 | `filter` keeps or drops the first element and filters the rest |
| Sequences.FilterAppend | src/App.js:86 | filtering a concatenation is concatenating the filtered parts |
| Sequences.FilterKeepsAll | src/App.js:86 | a filter that keeps every element returns its input |
| Sequences.FilterKeepsNone | src/App.js:86 | a filter that keeps no element returns nothing |
| Sequences.SubsequencePrefix | src/App.js:94 | the first `k` elements of a subsequence form a subsequence too |
| Sequences.FilterAt | src/App.js:86-94 | a kept element sits in the filtered sequence right after the kept elements before it |
| Catalog.LessIrreflexive | src/App.js:24 | the string order is irreflexive |
| Catalog.LessAsymmetric | src/App.js:24 | the string order is asymmetric |
| Catalog.LessTransitive | src/App.js:24 | the string order is transitive |
| Catalog.LessTotal | src/App.js:24 | any two distinct strings are ordered |
| Catalog.StrictlySortedNoDuplicates | src/App.js:24 | a strictly sorted list has no duplicates |
| Catalog.StrictlySortedUnique | src/App.js:24 | two strictly sorted lists with the same elements are equal |
| Catalog.Insert | src/App.js:24 | inserting into a strictly sorted list keeps it strictly sorted and adds exactly the element |
| Catalog.SortedSet | src/App.js:24 | `[...new Set(xs)].sort()` is strictly sorted and holds exactly the elements of `xs` |
| Catalog.Categories | src/App.js:24 | the category list is strictly sorted and free of duplicates, and holds exactly the categories of the catalog |
| Catalog.CategoriesUnique | src/App.js:24 | the category list depends only on which records occur, not on their order or repetition |
| Catalog.Subcategories | src/App.js:27-32 | empty when no category is chosen; otherwise strictly sorted, free of duplicates, and exactly the subcategories of the records in that category |
| Catalog.FilteredSkills | src/App.js:35-48 | the listing holds each record that passes both optional filters exactly as often as the catalog does, and nothing else |
| SkillSearch.ExpandAll | src/App.js:83 | the expanded tokens are exactly the expansions of the query tokens |
| SkillSearch.MatchesAnyExists | src/App.js:91-93 | `some` (`SkillSearch.MatchesAny`) holds exactly when one of the tokens occurs in a field |
| SkillSearch.Search | src/App.js:75-95 | at most twenty results, in catalog order, each matching some expanded token |
| SkillSearch.FieldsContainIff | src/App.js:87-92 | the three `includes` tests (`SkillSearch.FieldsContain`) hold exactly when the token is a substring of a normalized field |
| SkillSearch.MatchesAnyIff | src/App.js:83-93 | the filter test holds exactly when some query token, or an alias of it, occurs in a normalized field |
| SkillSearch.SearchBlankQuery | src/App.js:76-77 | a query of whitespace and separators only finds nothing |
| SkillSearch.QueryTokensNonEmpty | src/App.js:76-80 | past the guard, every token of `SkillSearch.QueryTokens` is non-empty and holds no space |
| SkillSearch.QueryTokensWords | src/App.js:76-80 | past the guard, the tokens are the words of the lowercased, separator-free query |
| SkillSearch.QueryTokensJoin | src/App.js:76-80 | the tokens joined back with single spaces give the normalized query |
| SkillSearch.EmptyTokenMatchesEverything | src/App.js:77-93 | without the guard, the empty query would match every record |
| SkillSearch.SearchSound | src/App.js:86-94 | every result is a catalog record that matches the query |
| SkillSearch.MatchingAt | src/App.js:86-93 | a matching record follows the matches before it in the filtered list |
| SkillSearch.SearchTakesFirst | src/App.js:94 | the first twenty matches are all returned |
| SkillSearch.SearchFirstMatches | src/App.js:86-94 | a matching record with fewer than twenty matches before it is returned |
| SkillSearch.SearchComplete | src/App.js:86-94 | when fewer than twenty records come back, every matching record is among them |
| SkillSearch.EmptyAliasMatchesEverything | src/App.js:83-93 | a query token whose alias list holds `""` matches every record |
| Selection.AddSkillFromSearch | src/App.js:155-157 | the name ends up on the list; the old list is a prefix; the list is unchanged exactly when it held the name; no duplicate is introduced |
| Selection.AddSkillFromSearchIdempotent | src/App.js:155-157 | adding the same name twice is adding it once |
| Selection.Merged | src/App.js:121-130 | the old list is a prefix; the result holds exactly the old and the picked names; the appended names are new and distinct; no duplicate is introduced |
| Selection.AppendedNoDuplicates | src/App.js:123-127 | names appended in two rounds stay distinct when the second round adds only names the list did not hold |
| Selection.NoDuplicatesExtend | src/App.js:123-127 | a list without duplicates keeps that property when distinct new names are appended |
| Selection.AddSelected | src/App.js:121-130 | the push loop computes the merge, with all the guarantees of `Merged` |
| Selection.MergedPresent | src/App.js:121-130 | names already on the list are not added again |
| Selection.MergedIdempotent | src/App.js:121-130 | merging the same picked names twice is merging them once |
| Selection.RemoveSkill | src/App.js:145-147 | the name is gone; every other name keeps its count; the order is kept |
| Selection.RemoveAbsent | src/App.js:145-147 | removing a name that is not on the list changes nothing |
| Selection.RemoveUndoesAdd | src/App.js:145-157 | removing a name after adding it gives the list with that name removed |
| Scenarios.NormalizesTo | src/App.js:53-58 | text whose lowercased, separator-free form has the normalized shape normalizes to that form |
| Scenarios.PreparedSingle | src/App.js:61-65 | a table prepared from one pair holds exactly that pair's normalized entry |
| Scenarios.GuitarTable | src/App.js:61-65 | preparing `guitar: [axe, six-string]` gives `guitar: [axe, six string]` |
| Scenarios.ExpandSingle | src/App.js:83 | `flatMap` over one token is the expansion of that token |
| Scenarios.WordTokens | src/App.js:76-80 | a query that normalizes to one word without spaces is that one token |
| Scenarios.SingleTokenQuery | src/App.js:80-83 | a query of one token expands to the expansion of that token |
| Scenarios.GuitarTokens | src/App.js:76-80 | the query `guitar` is the one token `guitar` |
| Scenarios.AxeTokens | src/App.js:76-80 | the query `axe` is the one token `axe` |
| Scenarios.GuitarQuery | src/App.js:68-83 | the key `guitar` expands to `[guitar, axe, six string]` |
| Scenarios.AxeQuery | src/App.js:68-83 | the alias `axe` expands to `[axe]` only |
| Scenarios.MissingLetter | src/App.js:92 | a text lacking a letter does not `includes` a token holding it |
| Scenarios.GuitarMatches | src/App.js:86-93 | the record passes the filter test for `guitar` through its subcategory |
| Scenarios.AxeMisses | src/App.js:86-93 | the record fails the filter test for `axe`: no field contains it |
| Scenarios.SearchOne | src/App.js:75-95 | on a one-record catalog, a query that normalizes to something returns the record exactly when the record matches |
| Scenarios.SearchGuitar | src/App.js:75-95 | searching `guitar` finds the record (Music, Guitar, Acoustic Guitar) |
| Scenarios.SearchAxe | src/App.js:75-95 | searching `axe` finds nothing, although `axe` is an alias of `guitar` |
| Scenarios.DoubleSpaceCollapse | src/App.js:57 | two characters around a double space end up around one space |
| Scenarios.DoubleSpaceWords | src/App.js:80 | two characters around a double space are two words |
| Scenarios.SharedCategory | src/App.js:24 | two records of category Music give the category list `[Music]` |

## Left out

- React state and rendering are not modelled: the `useState` hooks and the `set*` calls are replaced by functions from the old list to the new one. The `handle*Change*` resets of the filters and of the temporary selection are left out, as is all JSX (src/App.js:8-21, 98-118, 193-449).
- The resets that follow a list update are left out as UI state: `setTempSelected*([])` after `addSelected*`, and `setSearch*("")` after `addSkillFromSearch*`.
- `findMatches` (src/App.js:167-187) returns hard-coded records and calls `alert`. It holds no logic to model.
- The JSON imports are parameters. JavaScript enumerates integer-like keys of an object first, in ascending order; that order is not modelled, and the enumeration order is the order of the given pair sequence.
- Catalog.FilteredSkills: the `localeCompare` sort by name that follows the two filters is locale-dependent and is not modelled. The result stays in catalog order, and the contract states only what any sort keeps: the multiset of records.
- Text.LowerChar: `toLowerCase` is modelled on the ASCII letters A-Z only; Unicode case mapping is not modelled. The whitespace class of `\s` and `trim` is modelled in full (the ECMAScript WhiteSpace and LineTerminator code points).
- Catalog.Less: the default `sort` compares UTF-16 code units, while `Less` compares characters (code points). The two orders differ only for characters outside the Basic Multilingual Plane.
- Aliases.Expand: the table is a finite map with no inherited entries. In the code, `normalizedAliasMap` is a plain object, so a token such as `constructor` reads the inherited `Object` function, which is truthy; spreading a function (src/App.js:70) throws a `TypeError`, and because `getSearchResults` runs during rendering (src/App.js:190-191), a query holding that word breaks the page. The model instead expands such a token to itself alone.
- Nothing in the preparation loop drops an alias that normalizes to `""`. Such an alias makes its key match every record; SkillSearch.EmptyAliasMatchesEverything states this behaviour of the code.
