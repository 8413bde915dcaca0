/**
 * The text normalizer of the skill search (`normalize` in src/App.js) and the two string
 * primitives the search uses on its output: `split(" ")` and `includes`.
 *
 * `normalize` is a pipeline of four stages, applied in this order:
 *   lowercase, separators `- _ . ,` to a space, runs of whitespace to one space, trim.
 */
module Text {
  import Sequences

  /** The code points that ECMAScript's `\s` matches and that `String.prototype.trim` strips
      (WhiteSpace and LineTerminator). */
  predicate IsSpace(c: char) {
    || c == ' '
    || ('\t' <= c <= '\r')
    || c == '\U{00A0}' || c == '\U{1680}'
    || ('\U{2000}' <= c <= '\U{200A}')
    || c == '\U{2028}' || c == '\U{2029}' || c == '\U{202F}' || c == '\U{205F}'
    || c == '\U{3000}' || c == '\U{FEFF}'
  }

  predicate IsUpper(c: char) { 'A' <= c <= 'Z' }

  /** The characters of the class `[-_.,]`. */
  predicate IsSeparator(c: char) { c == '-' || c == '_' || c == '.' || c == ',' }

  /** A character that may occur in normalized text: no upper-case letter, no separator,
      and no whitespace other than the plain space. */
  predicate IsNormalChar(c: char) {
    !IsUpper(c) && !IsSeparator(c) && (IsSpace(c) ==> c == ' ')
  }

  predicate NoDoubleSpace(s: string) {
    forall i :: 0 <= i < |s| - 1 ==> !(s[i] == ' ' && s[i + 1] == ' ')
  }

  /** The shape of every output of `Normalize`. */
  predicate IsNormalized(s: string) {
    && (forall i :: 0 <= i < |s| ==> IsNormalChar(s[i]))
    && NoDoubleSpace(s)
    && (s != [] ==> s[0] != ' ' && s[|s| - 1] != ' ')
  }

  // ---------------------------------------------------------------------------
  // The four stages

  function LowerChar(c: char): (r: char)
    ensures !IsUpper(r)
    ensures IsUpper(c) ==> r as int == c as int + 32
    ensures !IsUpper(c) ==> r == c
  {
    if IsUpper(c) then (c as int - 'A' as int + 'a' as int) as char else c
  }

  /** Stage 1, `toLowerCase`, on the ASCII letters. */
  function ToLower(s: string): string {
    seq(|s|, i requires 0 <= i < |s| => LowerChar(s[i]))
  }

  /** Stage 1 lowercases every letter A-Z in place and keeps every other character. */
  lemma ToLowerSpec(s: string)
    ensures |ToLower(s)| == |s|
    ensures forall i :: 0 <= i < |s| ==> !IsUpper(ToLower(s)[i])
    ensures forall i :: 0 <= i < |s| && IsUpper(s[i]) ==> ToLower(s)[i] as int == s[i] as int + 32
    ensures forall i :: 0 <= i < |s| && !IsUpper(s[i]) ==> ToLower(s)[i] == s[i]
  {
  }

  function SeparatorToSpace(c: char): char {
    if IsSeparator(c) then ' ' else c
  }

  /** Stage 2, `replace(/[-_.,]/g, " ")`. */
  function ReplaceSeparators(s: string): string {
    seq(|s|, i requires 0 <= i < |s| => SeparatorToSpace(s[i]))
  }

  /** The length of the longest all-whitespace prefix. */
  function LeadingSpaces(s: string): (n: nat)
    ensures n <= |s|
    ensures forall i :: 0 <= i < n ==> IsSpace(s[i])
    ensures n < |s| ==> !IsSpace(s[n])
    decreases |s|
  {
    if s != [] && IsSpace(s[0]) then 1 + LeadingSpaces(s[1..]) else 0
  }

  /** The length of the longest all-whitespace suffix. */
  function TrailingSpaces(s: string): (n: nat)
    ensures n <= |s|
    ensures forall i :: |s| - n <= i < |s| ==> IsSpace(s[i])
    ensures n < |s| ==> !IsSpace(s[|s| - n - 1])
    decreases |s|
  {
    if s != [] && IsSpace(s[|s| - 1]) then 1 + TrailingSpaces(s[..|s| - 1]) else 0
  }

  /** Stage 2 turns every separator into a space in place and keeps every other character. */
  lemma ReplaceSeparatorsSpec(s: string)
    ensures |ReplaceSeparators(s)| == |s|
    ensures forall i :: 0 <= i < |s| ==> !IsSeparator(ReplaceSeparators(s)[i])
    ensures forall i :: 0 <= i < |s| && IsSeparator(s[i]) ==> ReplaceSeparators(s)[i] == ' '
    ensures forall i :: 0 <= i < |s| && !IsSeparator(s[i]) ==> ReplaceSeparators(s)[i] == s[i]
  {
  }

  /** `trimStart`: drops the longest all-whitespace prefix. */
  function TrimStart(s: string): (r: string)
    ensures |r| <= |s| && forall i :: 0 <= i < |r| ==> r[i] == s[|s| - |r| + i]
    ensures forall i :: 0 <= i < |s| - |r| ==> IsSpace(s[i])
    ensures r == [] || !IsSpace(r[0])
  {
    s[LeadingSpaces(s)..]
  }

  /** `trimEnd`: drops the longest all-whitespace suffix. */
  function TrimEnd(s: string): (r: string)
    ensures |r| <= |s| && forall i :: 0 <= i < |r| ==> r[i] == s[i]
    ensures forall i :: |r| <= i < |s| ==> IsSpace(s[i])
    ensures r == [] || !IsSpace(r[|r| - 1])
  {
    s[..|s| - TrailingSpaces(s)]
  }

  lemma TrimStartChars(s: string)
    ensures forall x :: x in TrimStart(s) ==> x in s
  {
    var n := LeadingSpaces(s);
    forall x | x in s[n..]
      ensures x in s
    {
      var i :| n <= i < |s| && s[i] == x;
    }
  }

  /** Stage 4, `trim`. */
  function Trim(s: string): string {
    TrimEnd(TrimStart(s))
  }

  /** `trim` keeps the stretch of the input that starts where `trimStart` left off: everything
      before and after that stretch is whitespace, and (`TrimEnds`) the stretch itself neither
      starts nor ends with whitespace. */
  lemma TrimSpec(s: string)
    ensures |s| - |TrimStart(s)| + |Trim(s)| <= |s|
    ensures forall i :: 0 <= i < |Trim(s)| ==> Trim(s)[i] == s[|s| - |TrimStart(s)| + i]
    ensures forall i :: 0 <= i < |s| - |TrimStart(s)| ==> IsSpace(s[i])
    ensures forall i :: |s| - |TrimStart(s)| + |Trim(s)| <= i < |s| ==> IsSpace(s[i])
  {
    var t := TrimStart(s);
    InnerPart(s, t, TrimEnd(t), |s| - |t|);
  }

  /** `trimStart` drops exactly the leading whitespace. */
  lemma TrimStartLength(s: string)
    ensures |TrimStart(s)| == |s| - LeadingSpaces(s)
  {
  }

  /** A prefix `r` of a suffix `t` of `s` is the stretch of `s` that starts where `t` does; when
      what `r` leaves of `t` is whitespace, so is everything of `s` after that stretch. */
  lemma InnerPart(s: string, t: string, r: string, n: int)
    requires |t| <= |s| && n == |s| - |t| && forall i :: 0 <= i < |t| ==> t[i] == s[|s| - |t| + i]
    requires |r| <= |t| && forall i :: 0 <= i < |r| ==> r[i] == t[i]
    requires forall i :: |r| <= i < |t| ==> IsSpace(t[i])
    ensures forall i :: 0 <= i < |r| ==> r[i] == s[n + i]
    ensures forall i :: n + |r| <= i < |s| ==> IsSpace(s[i])
  {
    forall i | n + |r| <= i < |s|
      ensures IsSpace(s[i])
    {
      assert s[i] == t[i - n];
    }
  }

  /** The result of `trim` neither starts nor ends with whitespace. */
  lemma TrimEnds(s: string)
    ensures Trim(s) != [] ==> !IsSpace(Trim(s)[0]) && !IsSpace(Trim(s)[|Trim(s)| - 1])
  {
    var t := TrimStart(s);
    var r := TrimEnd(t);
    if r != [] {
      assert r[0] == t[0];
    }
  }

  /** Stage 3, `replace(/\s+/g, " ")`: every maximal run of whitespace becomes one space. */
  function Collapse(s: string): (r: string)
    ensures NoDoubleSpace(r)
    ensures r == [] <==> s == []
    ensures s != [] ==> (r[0] == ' ' <==> IsSpace(s[0]))
    decreases |s|
  {
    if s == [] then []
    else if IsSpace(s[0]) then [' '] + Collapse(TrimStart(s[1..]))
    else [s[0]] + Collapse(s[1..])
  }

  /** What `Collapse` writes is a space or a non-space character of its input. */
  lemma {:induction false} CollapseChars(s: string)
    ensures forall i :: 0 <= i < |Collapse(s)| ==> Collapse(s)[i] == ' ' || (!IsSpace(Collapse(s)[i]) && Collapse(s)[i] in s)
    decreases |s|
  {
    if s != [] {
      var c := Collapse(s);
      var tail := if IsSpace(s[0]) then TrimStart(s[1..]) else s[1..];
      CollapseChars(tail);
      assert c == [c[0]] + Collapse(tail);
      TrimStartChars(s[1..]);
      assert forall x :: x in s[1..] ==> x in s;
      forall i | 1 <= i < |c|
        ensures c[i] == ' ' || (!IsSpace(c[i]) && c[i] in s)
      {
        assert c[i] == Collapse(tail)[i - 1];
      }
    }
  }

  /** `Collapse` keeps every non-space character of its input. */
  lemma {:induction false} CollapseKeeps(s: string)
    ensures forall i :: 0 <= i < |s| && !IsSpace(s[i]) ==> s[i] in Collapse(s)
    decreases |s|
  {
    if s != [] {
      if IsSpace(s[0]) {
        var rest := TrimStart(s[1..]);
        CollapseKeeps(rest);
        forall i | 0 <= i < |s| && !IsSpace(s[i])
          ensures s[i] in Collapse(s)
        {
          assert s[i] == rest[i - (|s| - |rest|)];
        }
      } else {
        CollapseKeeps(s[1..]);
        forall i | 1 <= i < |s| && !IsSpace(s[i])
          ensures s[i] in Collapse(s)
        {
          assert s[i] == s[1..][i - 1];
        }
      }
    }
  }

  /** The non-whitespace characters of `s`, in their order. */
  function NonSpace(s: string): (r: string)
    ensures forall i :: 0 <= i < |r| ==> !IsSpace(r[i])
    decreases |s|
  {
    if s == [] then []
    else (if IsSpace(s[0]) then [] else [s[0]]) + NonSpace(s[1..])
  }

  lemma {:induction false} NonSpaceAppend(a: string, b: string)
    ensures NonSpace(a + b) == NonSpace(a) + NonSpace(b)
    decreases |a|
  {
    if a != [] {
      assert (a + b)[1..] == a[1..] + b;
      NonSpaceAppend(a[1..], b);
      var head: string := if IsSpace(a[0]) then [] else [a[0]];
      assert (a + b)[0] == a[0];
      assert NonSpace(a + b) == head + NonSpace(a[1..] + b);
      Sequences.AppendAssociative(head, NonSpace(a[1..]), NonSpace(b));
    } else {
      assert a + b == b;
    }
  }

  lemma {:induction false} NonSpaceBlank(s: string)
    requires forall i :: 0 <= i < |s| ==> IsSpace(s[i])
    ensures NonSpace(s) == []
    decreases |s|
  {
    if s != [] {
      NonSpaceBlank(s[1..]);
    }
  }

  /** `trimStart` and `trimEnd` remove whitespace only. */
  lemma NonSpaceTrimStart(s: string)
    ensures NonSpace(TrimStart(s)) == NonSpace(s)
  {
    var t := TrimStart(s);
    var k := |s| - |t|;
    assert s == s[..k] + t;
    NonSpaceAppend(s[..k], t);
    NonSpaceBlank(s[..k]);
  }

  lemma NonSpaceTrimEnd(s: string)
    ensures NonSpace(TrimEnd(s)) == NonSpace(s)
  {
    var t := TrimEnd(s);
    assert s == t + s[|t|..];
    NonSpaceAppend(t, s[|t|..]);
    NonSpaceBlank(s[|t|..]);
  }

  /** `Collapse` keeps every non-whitespace character of its input, in order and in number. */
  lemma {:induction false} NonSpaceCollapse(s: string)
    ensures NonSpace(Collapse(s)) == NonSpace(s)
    decreases |s|
  {
    if s != [] {
      if IsSpace(s[0]) {
        var rest := TrimStart(s[1..]);
        NonSpaceCollapse(rest);
        NonSpaceTrimStart(s[1..]);
        assert ([' '] + Collapse(rest))[1..] == Collapse(rest);
      } else {
        NonSpaceCollapse(s[1..]);
        assert ([s[0]] + Collapse(s[1..]))[1..] == Collapse(s[1..]);
      }
    }
  }

  /** A non-empty run of whitespace collapses to exactly one space. */
  lemma CollapseRun(s: string)
    requires s != [] && forall i :: 0 <= i < |s| ==> IsSpace(s[i])
    ensures Collapse(s) == " "
  {
    assert TrimStart(s[1..]) == [];
  }

  /** A text without whitespace is left as it is. */
  lemma {:induction false} CollapseWord(w: string)
    requires forall i :: 0 <= i < |w| ==> !IsSpace(w[i])
    ensures Collapse(w) == w
    decreases |w|
  {
    if w != [] {
      CollapseWord(w[1..]);
      assert [w[0]] + w[1..] == w;
    }
  }

  /** Leading whitespace that ends inside `x` does not reach into what follows `x`. */
  lemma LeadingSpacesAppend(x: string, y: string)
    requires x != [] && !IsSpace(x[|x| - 1])
    ensures LeadingSpaces(x + y) == LeadingSpaces(x)
  {
    var n := LeadingSpaces(x);
    var m := LeadingSpaces(x + y);
    assert n < |x|;
    assert (x + y)[n] == x[n];
  }

  lemma TrimStartAppend(x: string, y: string)
    requires x != [] && !IsSpace(x[|x| - 1])
    ensures TrimStart(x + y) == TrimStart(x) + y
  {
    var n := LeadingSpaces(x);
    LeadingSpacesAppend(x, y);
    assert (x + y)[n..] == x[n..] + y;
  }

  /** A text that ends in a non-whitespace character collapses independently of what follows
      it. With `CollapseRun` and `CollapseWord`, and with `NonSpaceCollapse`, `WordsCollapse`
      and `CollapseChars`, this fixes the collapse of every text. */
  lemma {:induction false} CollapseAppend(a: string, b: string)
    requires a == [] || !IsSpace(a[|a| - 1])
    ensures Collapse(a + b) == Collapse(a) + Collapse(b)
    decreases |a|
  {
    if a == [] {
      assert a + b == b;
    } else if IsSpace(a[0]) {
      var tail := a[1..];
      var t := TrimStart(tail);
      assert tail[|tail| - 1] == a[|a| - 1];
      TrimStartAppend(tail, b);
      Sequences.DropFirstAppend(a, b);
      assert t[|t| - 1] == tail[|tail| - 1];
      CollapseAppend(t, b);
      Sequences.AppendAssociative([' '], Collapse(t), Collapse(b));
    } else {
      Sequences.DropFirstAppend(a, b);
      CollapseAppend(a[1..], b);
      Sequences.AppendAssociative([a[0]], Collapse(a[1..]), Collapse(b));
    }
  }

  /** `normalize` (src/App.js:53-58). */
  function Normalize(s: string): (r: string)
    ensures IsNormalized(r)
  {
    NormalizeShape(s);
    Trim(Collapse(ReplaceSeparators(ToLower(s))))
  }

  /** Collapsing and trimming only touch whitespace: the non-whitespace characters of the
      result are those of the lower-cased, separator-free input, in order and in number. */
  lemma NonSpaceNormalize(s: string)
    ensures NonSpace(Normalize(s)) == NonSpace(ReplaceSeparators(ToLower(s)))
  {
    var p := ReplaceSeparators(ToLower(s));
    var c := Collapse(p);
    NonSpaceCollapse(p);
    NonSpaceTrimStart(c);
    NonSpaceTrimEnd(TrimStart(c));
  }

  /** The pipeline of the four stages ends in the normalized shape. */
  lemma NormalizeShape(s: string)
    ensures IsNormalized(Trim(Collapse(ReplaceSeparators(ToLower(s)))))
  {
    var p := ReplaceSeparators(ToLower(s));
    var c := Collapse(p);
    CollapseChars(p);
    forall i | 0 <= i < |c|
      ensures IsNormalChar(c[i])
    {
      if c[i] != ' ' {
        var j :| 0 <= j < |p| && p[j] == c[i];
      }
    }
    TrimShape(c);
  }

  /** Trimming keeps the character set and the single spacing, and removes the end spaces. */
  lemma TrimShape(c: string)
    requires forall i :: 0 <= i < |c| ==> IsNormalChar(c[i])
    requires NoDoubleSpace(c)
    ensures IsNormalized(Trim(c))
  {
    TrimStartShape(c);
    TrimEndShape(TrimStart(c));
  }

  lemma TrimStartShape(c: string)
    requires forall i :: 0 <= i < |c| ==> IsNormalChar(c[i])
    requires NoDoubleSpace(c)
    ensures forall i :: 0 <= i < |TrimStart(c)| ==> IsNormalChar(TrimStart(c)[i])
    ensures NoDoubleSpace(TrimStart(c))
    ensures TrimStart(c) != [] ==> TrimStart(c)[0] != ' '
  {
    var t, a := TrimStart(c), LeadingSpaces(c);
    forall i | 0 <= i < |t| - 1
      ensures !(t[i] == ' ' && t[i + 1] == ' ')
    {
      assert t[i] == c[a + i] && t[i + 1] == c[a + i + 1];
    }
  }

  lemma TrimEndShape(t: string)
    requires forall i :: 0 <= i < |t| ==> IsNormalChar(t[i])
    requires NoDoubleSpace(t)
    requires t != [] ==> t[0] != ' '
    ensures IsNormalized(TrimEnd(t))
  {
    var r := TrimEnd(t);
    forall i | 0 <= i < |r| - 1
      ensures !(r[i] == ' ' && r[i + 1] == ' ')
    {
      assert r[i] == t[i] && r[i + 1] == t[i + 1];
    }
  }

  // ---------------------------------------------------------------------------
  // Properties of Normalize

  /** Text that already has the normalized shape is left unchanged by every stage. */
  lemma {:induction false} CollapseFixpoint(s: string)
    requires forall i :: 0 <= i < |s| ==> IsNormalChar(s[i])
    requires NoDoubleSpace(s)
    ensures Collapse(s) == s
    decreases |s|
  {
    if s != [] {
      CollapseFixpoint(s[1..]);
      if IsSpace(s[0]) {
        assert TrimStart(s[1..]) == s[1..];
      }
    }
  }

  /** A string is a fixed point of `Normalize` exactly when it has the normalized shape. */
  lemma NormalizeFixpoint(s: string)
    ensures Normalize(s) == s <==> IsNormalized(s)
  {
    if IsNormalized(s) {
      assert ToLower(s) == s;
      assert ReplaceSeparators(s) == s;
      CollapseFixpoint(s);
      assert TrimStart(s) == s;
      assert TrimEnd(s) == s;
    }
  }

  /** `normalize(normalize(x)) == normalize(x)`. */
  lemma NormalizeIdempotent(s: string)
    ensures Normalize(Normalize(s)) == Normalize(s)
  {
    NormalizeFixpoint(Normalize(s));
  }

  /** Trimming text that is all whitespace leaves nothing. */
  lemma TrimAllSpace(c: string)
    requires forall i :: 0 <= i < |c| ==> IsSpace(c[i])
    ensures Trim(c) == []
  {
  }

  /** Trimming text with a non-space character leaves something. */
  lemma TrimNonSpace(c: string, j: int)
    requires 0 <= j < |c| && !IsSpace(c[j])
    ensures Trim(c) != []
  {
    var t := TrimStart(c);
    assert t != [];
  }

  /** A text normalizes to the empty string exactly when it consists of whitespace and
      separators only (`""`, `"   "`, `",,--"`). */
  lemma NormalizeEmptyIff(s: string)
    ensures Normalize(s) == [] <==> forall i :: 0 <= i < |s| ==> IsSpace(s[i]) || IsSeparator(s[i])
  {
    if forall i :: 0 <= i < |s| ==> IsSpace(s[i]) || IsSeparator(s[i]) {
      NormalizeBlank(s);
    } else {
      var i :| 0 <= i < |s| && !IsSpace(s[i]) && !IsSeparator(s[i]);
      NormalizeKeeps(s, i);
    }
  }

  /** Whitespace and separators alone normalize to nothing. */
  lemma NormalizeBlank(s: string)
    requires forall i :: 0 <= i < |s| ==> IsSpace(s[i]) || IsSeparator(s[i])
    ensures Normalize(s) == []
  {
    var p := ReplaceSeparators(ToLower(s));
    var c := Collapse(p);
    CollapseChars(p);
    assert forall i :: 0 <= i < |p| ==> IsSpace(p[i]);
    assert forall i :: 0 <= i < |c| ==> IsSpace(c[i]);
    TrimAllSpace(c);
  }

  /** One character that is neither whitespace nor a separator leaves something. */
  lemma NormalizeKeeps(s: string, i: int)
    requires 0 <= i < |s| && !IsSpace(s[i]) && !IsSeparator(s[i])
    ensures Normalize(s) != []
  {
    var p := ReplaceSeparators(ToLower(s));
    var c := Collapse(p);
    CollapseKeeps(p);
    assert p[i] == LowerChar(s[i]) && !IsSpace(p[i]);
    var j :| 0 <= j < |c| && c[j] == p[i];
    TrimNonSpace(c, j);
  }

  // ---------------------------------------------------------------------------
  // split(" ") and includes

  /** `split(" ")`: the pieces between single spaces; `""` splits to `[""]`. */
  function Split(s: string): (r: seq<string>)
    ensures |r| >= 1
    ensures forall k :: 0 <= k < |r| ==> ' ' !in r[k]
    decreases |s|
  {
    if s == [] then [[]]
    else
      var rest := Split(s[1..]);
      if s[0] == ' ' then [[]] + rest else [[s[0]] + rest[0]] + rest[1..]
  }

  /** `join(" ")`, the inverse of `Split`. */
  function Join(ts: seq<string>): string
    requires |ts| >= 1
    decreases |ts|
  {
    if |ts| == 1 then ts[0] else ts[0] + " " + Join(ts[1..])
  }

  lemma {:induction false} JoinSplit(s: string)
    ensures Join(Split(s)) == s
    decreases |s|
  {
    if s != [] {
      var tail := s[1..];
      JoinSplit(tail);
      var rest := Split(tail);
      assert s == [s[0]] + tail;
      if s[0] == ' ' {
        assert Split(s) == [[]] + rest;
        assert ([[]] + rest)[1..] == rest;
      } else if |rest| == 1 {
        assert Split(s) == [[s[0]] + rest[0]];
      } else {
        var r := [[s[0]] + rest[0]] + rest[1..];
        assert Split(s) == r;
        assert r[1..] == rest[1..];
        assert Join(rest) == rest[0] + " " + Join(rest[1..]);
      }
    }
  }

  /** Splitting a word glued to the rest by one space peels the word off. */
  lemma {:induction false} SplitCons(a: string, b: string)
    requires ' ' !in a
    ensures Split(a + " " + b) == [a] + Split(b)
    decreases |a|
  {
    if a == [] {
      assert a + " " + b == [' '] + b;
      assert ([' '] + b)[1..] == b;
    } else {
      SplitCons(a[1..], b);
      assert (a + " " + b)[1..] == a[1..] + " " + b;
      assert [a[0]] + a[1..] == a;
    }
  }

  lemma {:induction false} SplitWord(a: string)
    requires ' ' !in a
    ensures Split(a) == [a]
    decreases |a|
  {
    if a != [] {
      SplitWord(a[1..]);
      assert [a[0]] + a[1..] == a;
    }
  }

  lemma {:induction false} SplitJoin(ts: seq<string>)
    requires |ts| >= 1
    requires forall k :: 0 <= k < |ts| ==> ' ' !in ts[k]
    ensures Split(Join(ts)) == ts
    decreases |ts|
  {
    if |ts| == 1 {
      SplitWord(ts[0]);
    } else {
      SplitJoin(ts[1..]);
      SplitCons(ts[0], Join(ts[1..]));
      assert [ts[0]] + ts[1..] == ts;
    }
  }

  /** Pieces after the first are empty only around doubled or trailing spaces. */
  lemma {:induction false} SplitPiecesNonEmpty(s: string)
    requires NoDoubleSpace(s)
    requires s != [] ==> s[|s| - 1] != ' '
    ensures forall k :: 1 <= k < |Split(s)| ==> Split(s)[k] != []
    ensures Split(s)[0] == [] <==> (s == [] || s[0] == ' ')
    decreases |s|
  {
    if s != [] {
      SplitPiecesNonEmpty(s[1..]);
      if s[0] == ' ' {
        assert s[1..] != [] && s[1] != ' ';
      }
    }
  }

  /** A non-empty normalized query splits into non-empty tokens. */
  lemma NormalizedTokensNonEmpty(s: string)
    requires IsNormalized(s) && s != []
    ensures forall t :: t in Split(s) ==> t != []
  {
    SplitPiecesNonEmpty(s);
  }

  /** The length of the longest whitespace-free prefix. */
  function WordLength(s: string): (n: nat)
    ensures n <= |s|
    ensures forall i :: 0 <= i < n ==> !IsSpace(s[i])
    ensures n < |s| ==> IsSpace(s[n])
    decreases |s|
  {
    if s != [] && !IsSpace(s[0]) then 1 + WordLength(s[1..]) else 0
  }

  /** The words of a text: its maximal runs of non-whitespace characters, in order. */
  function Words(s: string): (r: seq<string>)
    ensures forall k :: 0 <= k < |r| ==> r[k] != []
    ensures forall k, i :: 0 <= k < |r| && 0 <= i < |r[k]| ==> !IsSpace(r[k][i])
    decreases |s|
  {
    if s == [] then []
    else if IsSpace(s[0]) then Words(s[1..])
    else
      var n := WordLength(s);
      [s[..n]] + Words(s[n..])
  }

  /** A word followed by nothing or by whitespace still ends where it did. */
  lemma WordLengthAppend(a: string, b: string)
    requires b == [] || IsSpace(b[0])
    ensures WordLength(a + b) == WordLength(a)
  {
    var n := WordLength(a);
    if n < |a| {
      assert (a + b)[n] == a[n];
    } else if b != [] {
      assert (a + b)[n] == b[0];
    }
  }

  lemma {:induction false} WordsBlank(s: string)
    requires forall i :: 0 <= i < |s| ==> IsSpace(s[i])
    ensures Words(s) == []
    decreases |s|
  {
    if s != [] {
      WordsBlank(s[1..]);
    }
  }

  /** Leading whitespace separates no word. */
  lemma {:induction false} WordsSkipSpaces(s: string, k: nat)
    requires k <= |s| && forall i :: 0 <= i < k ==> IsSpace(s[i])
    ensures Words(s[k..]) == Words(s)
    decreases k
  {
    if k == 0 {
      assert s[k..] == s;
    } else {
      WordsSkipSpaces(s[1..], k - 1);
      assert s[1..][k - 1..] == s[k..];
    }
  }

  /** Trailing whitespace separates no word. */
  lemma {:induction false} WordsAppendSpaces(a: string, b: string)
    requires forall i :: 0 <= i < |b| ==> IsSpace(b[i])
    ensures Words(a + b) == Words(a)
    decreases |a|
  {
    if a == [] {
      assert a + b == b;
      WordsBlank(b);
    } else if IsSpace(a[0]) {
      Sequences.DropFirstAppend(a, b);
      assert (a + b)[0] == a[0];
      WordsAppendSpaces(a[1..], b);
    } else {
      var n := WordLength(a);
      if n < |a| {
        WordLengthAppend(a, b);
        assert (a + b)[..n] == a[..n];
        assert (a + b)[n..] == a[n..] + b;
        assert (a + b)[0] == a[0];
        WordsAppendSpaces(a[n..], b);
      } else {
        WordsAppendWord(a, b);
        WordsAppendWord(a, []);
        assert a + [] == a;
      }
    }
  }

  lemma WordsAppendWord(a: string, b: string)
    requires a != [] && forall i :: 0 <= i < |a| ==> !IsSpace(a[i])
    requires forall i :: 0 <= i < |b| ==> IsSpace(b[i])
    ensures Words(a + b) == [a]
  {
    WordLengthAppend(a, b);
    assert (a + b)[0] == a[0];
    assert (a + b)[..|a|] == a;
    assert (a + b)[|a|..] == b;
    WordsBlank(b);
  }

  /** `trimStart` and `trimEnd` keep the words. */
  lemma WordsTrimStart(s: string)
    ensures Words(TrimStart(s)) == Words(s)
  {
    var t := TrimStart(s);
    var k := |s| - |t|;
    assert t == s[k..];
    WordsSkipSpaces(s, k);
  }

  lemma WordsTrimEnd(s: string)
    ensures Words(TrimEnd(s)) == Words(s)
  {
    var t := TrimEnd(s);
    assert s == t + s[|t|..];
    WordsAppendSpaces(t, s[|t|..]);
  }

  /** Collapsing whitespace runs keeps the words, and the boundaries between them. */
  lemma {:induction false} WordsCollapse(s: string)
    ensures Words(Collapse(s)) == Words(s)
    decreases |s|
  {
    if s != [] {
      if IsSpace(s[0]) {
        var t := TrimStart(s[1..]);
        WordsCollapse(t);
        WordsTrimStart(s[1..]);
        assert ([' '] + Collapse(t))[1..] == Collapse(t);
      } else {
        var n := WordLength(s);
        WordsCollapseWord(s, n);
      }
    }
  }

  lemma {:induction false} WordsCollapseWord(s: string, n: nat)
    requires s != [] && !IsSpace(s[0]) && n == WordLength(s)
    ensures Words(Collapse(s)) == Words(s)
    decreases |s|, 0
  {
    var w, rest := s[..n], s[n..];
    assert s == w + rest;
    CollapseAppend(w, rest);
    CollapseWord(w);
    WordsCollapse(rest);
    var c := Collapse(s);
    assert c == w + Collapse(rest);
    WordLengthAppend(w, Collapse(rest));
    assert WordLength(w) == n;
    assert c[0] == s[0];
    assert c[..n] == w;
    assert c[n..] == Collapse(rest);
  }

  /** What follows a space of normalized text is normalized text again. */
  lemma NormalizedAfterSpace(x: string, n: nat)
    requires IsNormalized(x) && n < |x| && IsSpace(x[n])
    ensures x[n] == ' '
    ensures x[n + 1..] != [] && IsNormalized(x[n + 1..])
  {
    var y := x[n + 1..];
    assert forall i :: 0 <= i < |y| ==> y[i] == x[n + 1 + i];
  }

  /** On normalized text, `split(" ")` cuts exactly at the word boundaries. */
  lemma {:induction false} SplitWords(x: string)
    requires IsNormalized(x) && x != []
    ensures Split(x) == Words(x)
    decreases |x|
  {
    var n := WordLength(x);
    var w := x[..n];
    assert ' ' !in w;
    if n == |x| {
      assert w == x;
      SplitWord(x);
      assert x[n..] == [];
    } else {
      var y := x[n + 1..];
      NormalizedAfterSpace(x, n);
      assert x == w + " " + y;
      SplitCons(w, y);
      SplitWords(y);
      assert x[n..][1..] == y;
    }
  }

  /** The search tokens of a text that normalizes to something are the words of the text
      once it is lowercased and its separators are spaces: every whitespace run inside the
      text, however long, is one token boundary, and no other boundary appears. */
  lemma NormalizeWords(s: string)
    requires Normalize(s) != []
    ensures Split(Normalize(s)) == Words(ReplaceSeparators(ToLower(s)))
  {
    var p := ReplaceSeparators(ToLower(s));
    var c := Collapse(p);
    WordsCollapse(p);
    WordsTrimStart(c);
    WordsTrimEnd(TrimStart(c));
    SplitWords(Normalize(s));
  }

  /** `t` occurs in `s` starting at index `i`. */
  ghost predicate OccursAt(s: string, t: string, i: int) {
    0 <= i <= |s| - |t| && s[i..i + |t|] == t
  }

  /** `t` occurs somewhere in `s`. */
  ghost predicate IsSubstring(t: string, s: string) {
    exists i :: OccursAt(s, t, i)
  }

  /** `s.includes(t)`. */
  predicate Contains(s: string, t: string)
    decreases |s|
  {
    t <= s || (s != [] && Contains(s[1..], t))
  }

  /** Every hit of `Contains` is an occurrence. */
  lemma {:induction false} ContainsOccurs(s: string, t: string) returns (i: int)
    requires Contains(s, t)
    ensures OccursAt(s, t, i)
    decreases |s|
  {
    if t <= s {
      i := 0;
    } else {
      var j := ContainsOccurs(s[1..], t);
      assert s[1..][j..j + |t|] == s[j + 1..j + 1 + |t|];
      i := j + 1;
    }
  }

  /** Every occurrence is found by `Contains`. */
  lemma {:induction false} OccursContains(s: string, t: string, i: int)
    requires OccursAt(s, t, i)
    ensures Contains(s, t)
    decreases |s|
  {
    if i == 0 {
      assert t <= s;
    } else {
      assert s[1..][i - 1..i - 1 + |t|] == s[i..i + |t|];
      OccursContains(s[1..], t, i - 1);
    }
  }

  lemma ContainsIff(s: string, t: string)
    ensures Contains(s, t) <==> IsSubstring(t, s)
  {
    if Contains(s, t) {
      var i := ContainsOccurs(s, t);
    }
    if i :| OccursAt(s, t, i) {
      OccursContains(s, t, i);
    }
  }
}
