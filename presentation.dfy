/**
 * The slug formatter of the presentation utilities (src/utils/presentation.ts).
 *
 * `slugify` is one chained expression of string rewrites; each rewrite is a
 * function here and `Slugify` composes them in the source's order:
 * canonical decomposition, diacritic removal, lower-casing, trimming,
 * dropping every character outside `[a-z0-9 -]`, turning whitespace runs
 * into `-` and collapsing hyphen runs.
 */
module Presentation {

  // ---------------------------------------------------------------------
  // Character classes
  // ---------------------------------------------------------------------

  /** ECMAScript's WhiteSpace and LineTerminator code points: what `trim` removes and `\s` matches. */
  predicate IsWhitespace(c: char) {
    || c == '\t' || c == '\n' || c == '\U{B}' || c == '\U{C}' || c == '\r' || c == ' '
    || c == '\U{A0}' || c == '\U{1680}' || '\U{2000}' <= c <= '\U{200A}'
    || c == '\U{2028}' || c == '\U{2029}' || c == '\U{202F}' || c == '\U{205F}'
    || c == '\U{3000}' || c == '\U{FEFF}'
  }

  /** The Combining Diacritical Marks block, U+0300 to U+036F. */
  predicate IsCombiningMark(c: char) {
    '\U{300}' <= c <= '\U{36F}'
  }

  predicate IsNotCombiningMark(c: char) {
    !IsCombiningMark(c)
  }

  predicate IsHyphen(c: char) {
    c == '-'
  }

  predicate IsNotHyphen(c: char) {
    c != '-'
  }

  predicate IsLowerAlnum(c: char) {
    'a' <= c <= 'z' || '0' <= c <= '9'
  }

  /** The alphabet of a slug. */
  predicate IsSlugChar(c: char) {
    IsLowerAlnum(c) || c == '-'
  }

  /** The characters the filtering step keeps: the class `[a-z0-9 -]`. */
  predicate IsKeptChar(c: char) {
    IsSlugChar(c) || c == ' '
  }

  predicate NoDoubleHyphen(s: string) {
    forall i :: 0 <= i < |s| - 1 ==> !(s[i] == '-' && s[i + 1] == '-')
  }

  // ---------------------------------------------------------------------
  // Generic string helpers
  // ---------------------------------------------------------------------

  /** The characters of `s` that satisfy `keep`, in order. */
  function Filter(s: string, keep: char -> bool): (r: string)
    ensures |r| <= |s|
  {
    if s == [] then [] else (if keep(s[0]) then [s[0]] else []) + Filter(s[1..], keep)
  }

  /** Filter keeps only characters of `s`, and only those satisfying `keep`. */
  lemma {:induction false} FilterSelects(s: string, keep: char -> bool)
    ensures forall c :: c in Filter(s, keep) ==> c in s && keep(c)
  {
    if s != [] {
      FilterSelects(s[1..], keep);
    }
  }

  /** `s` without its longest prefix of characters satisfying `drop`. */
  function DropWhile(s: string, drop: char -> bool): (r: string)
    ensures |r| <= |s|
  {
    if s != [] && drop(s[0]) then DropWhile(s[1..], drop) else s
  }

  /** DropWhile removes a prefix of dropped characters and stops at the first kept one. */
  lemma {:induction false} DropWhileShape(s: string, drop: char -> bool)
    ensures var r := DropWhile(s, drop);
      && r == s[|s| - |r|..]
      && (forall i :: 0 <= i < |s| - |r| ==> drop(s[i]))
      && (r != [] ==> !drop(r[0]))
  {
    if s != [] && drop(s[0]) {
      DropWhileShape(s[1..], drop);
    }
  }

  /** `s` without its longest suffix of characters satisfying `drop`. */
  function DropLastWhile(s: string, drop: char -> bool): (r: string)
    ensures |r| <= |s|
  {
    if s != [] && drop(s[|s| - 1]) then DropLastWhile(s[..|s| - 1], drop) else s
  }

  /** DropLastWhile removes a suffix of dropped characters and stops at the last kept one. */
  lemma {:induction false} DropLastWhileShape(s: string, drop: char -> bool)
    ensures var r := DropLastWhile(s, drop);
      && r == s[..|r|]
      && (forall i :: |r| <= i < |s| ==> drop(s[i]))
      && (r != [] ==> !drop(r[|r| - 1]))
  {
    if s != [] && drop(s[|s| - 1]) {
      DropLastWhileShape(s[..|s| - 1], drop);
    }
  }

  // ---------------------------------------------------------------------
  // The pipeline steps
  // ---------------------------------------------------------------------

  const Grave: char := '\U{300}'
  const Acute: char := '\U{301}'
  const Circumflex: char := '\U{302}'
  const Tilde: char := '\U{303}'
  const Diaeresis: char := '\U{308}'
  const RingAbove: char := '\U{30A}'
  const Cedilla: char := '\U{327}'

  /**
   * Canonical decompositions (Unicode Standard Annex #15) of the precomposed
   * letters of the Latin-1 Supplement: base letter and combining mark.
   * Every other character is its own decomposition in this model.
   */
  const LatinDecompositions: map<char, (char, char)> := map[
    '\U{C0}' := ('A', Grave), '\U{C1}' := ('A', Acute), '\U{C2}' := ('A', Circumflex),
    '\U{C3}' := ('A', Tilde), '\U{C4}' := ('A', Diaeresis), '\U{C5}' := ('A', RingAbove),
    '\U{C7}' := ('C', Cedilla),
    '\U{C8}' := ('E', Grave), '\U{C9}' := ('E', Acute), '\U{CA}' := ('E', Circumflex),
    '\U{CB}' := ('E', Diaeresis),
    '\U{CC}' := ('I', Grave), '\U{CD}' := ('I', Acute), '\U{CE}' := ('I', Circumflex),
    '\U{CF}' := ('I', Diaeresis),
    '\U{D1}' := ('N', Tilde),
    '\U{D2}' := ('O', Grave), '\U{D3}' := ('O', Acute), '\U{D4}' := ('O', Circumflex),
    '\U{D5}' := ('O', Tilde), '\U{D6}' := ('O', Diaeresis),
    '\U{D9}' := ('U', Grave), '\U{DA}' := ('U', Acute), '\U{DB}' := ('U', Circumflex),
    '\U{DC}' := ('U', Diaeresis),
    '\U{DD}' := ('Y', Acute),
    '\U{E0}' := ('a', Grave), '\U{E1}' := ('a', Acute), '\U{E2}' := ('a', Circumflex),
    '\U{E3}' := ('a', Tilde), '\U{E4}' := ('a', Diaeresis), '\U{E5}' := ('a', RingAbove),
    '\U{E7}' := ('c', Cedilla),
    '\U{E8}' := ('e', Grave), '\U{E9}' := ('e', Acute), '\U{EA}' := ('e', Circumflex),
    '\U{EB}' := ('e', Diaeresis),
    '\U{EC}' := ('i', Grave), '\U{ED}' := ('i', Acute), '\U{EE}' := ('i', Circumflex),
    '\U{EF}' := ('i', Diaeresis),
    '\U{F1}' := ('n', Tilde),
    '\U{F2}' := ('o', Grave), '\U{F3}' := ('o', Acute), '\U{F4}' := ('o', Circumflex),
    '\U{F5}' := ('o', Tilde), '\U{F6}' := ('o', Diaeresis),
    '\U{F9}' := ('u', Grave), '\U{FA}' := ('u', Acute), '\U{FB}' := ('u', Circumflex),
    '\U{FC}' := ('u', Diaeresis),
    '\U{FD}' := ('y', Acute), '\U{FF}' := ('y', Diaeresis)
  ]

  /** The decomposition of one character; the table's keys all lie in U+00C0 to U+00FF. */
  function Decompose(c: char): string {
    if '\U{C0}' <= c <= '\U{FF}' && c in LatinDecompositions then [LatinDecompositions[c].0, LatinDecompositions[c].1] else [c]
  }

  /** `normalize('NFD')`, restricted to the decomposition table above. */
  function Nfd(s: string): string {
    if s == [] then [] else Decompose(s[0]) + Nfd(s[1..])
  }

  /** `replace(/[\u0300-\u036f]/g, '')`: drops the combining marks. */
  function StripMarks(s: string): string {
    Filter(s, IsNotCombiningMark)
  }

  /** `toLowerCase()` on one character, for the ASCII letters. */
  function Lower(c: char): char {
    if 'A' <= c <= 'Z' then (c as int + 32) as char else c
  }

  function LowerCase(s: string): string {
    if s == [] then [] else [Lower(s[0])] + LowerCase(s[1..])
  }

  /** The per-character front of the pipeline: `normalize('NFD')`, mark removal, `toLowerCase()`. */
  function Folded(s: string): string {
    LowerCase(StripMarks(Nfd(s)))
  }

  /** `trim()`. */
  function Trim(s: string): string {
    DropLastWhile(DropWhile(s, IsWhitespace), IsWhitespace)
  }

  /** `replace(/[^a-z0-9 -]/g, '')`: keeps only the class `[a-z0-9 -]`. */
  function KeepSlugChars(s: string): string {
    Filter(s, IsKeptChar)
  }

  /** `replace(/\s+/g, '-')`: every maximal whitespace run becomes one hyphen. */
  function HyphenateSpaces(s: string): string
    decreases |s|
  {
    if s == [] then []
    else if IsWhitespace(s[0]) then "-" + HyphenateSpaces(DropWhile(s[1..], IsWhitespace))
    else [s[0]] + HyphenateSpaces(s[1..])
  }

  /** `replace(/-+/g, '-')`: every maximal hyphen run becomes one hyphen. */
  function CollapseHyphens(s: string): string
    decreases |s|
  {
    if s == [] then []
    else if s[0] == '-' then "-" + CollapseHyphens(DropWhile(s[1..], IsHyphen))
    else [s[0]] + CollapseHyphens(s[1..])
  }

  /** Whitespace runs become hyphens; every other character is one of the input's. */
  lemma {:induction false} HyphenateSpacesAlphabet(s: string)
    ensures forall c :: c in HyphenateSpaces(s) ==> c == '-' || (c in s && !IsWhitespace(c))
    decreases |s|
  {
    if s != [] {
      if IsWhitespace(s[0]) {
        var rest := DropWhile(s[1..], IsWhitespace);
        HyphenateSpacesAlphabet(rest);
        DropWhileShape(s[1..], IsWhitespace);
        assert forall c :: c in rest ==> c in s;
      } else {
        HyphenateSpacesAlphabet(s[1..]);
      }
    }
  }

  /**
   * The result of collapsing has no two adjacent hyphens, uses only the
   * input's characters, and starts with a hyphen exactly when the input does.
   */
  lemma {:induction false} CollapseHyphensShape(s: string)
    ensures var r := CollapseHyphens(s);
      && (forall c :: c in r ==> c in s)
      && NoDoubleHyphen(r)
      && ((r != [] && r[0] == '-') <==> (s != [] && s[0] == '-'))
    decreases |s|
  {
    if s != [] {
      var r := CollapseHyphens(s);
      if s[0] == '-' {
        var rest := DropWhile(s[1..], IsHyphen);
        CollapseHyphensShape(rest);
        DropWhileShape(s[1..], IsHyphen);
        assert forall c :: c in rest ==> c in s;
        assert r == "-" + CollapseHyphens(rest);
      } else {
        CollapseHyphensShape(s[1..]);
        assert r == [s[0]] + CollapseHyphens(s[1..]);
      }
    }
  }

  /**
   * `slugify(text)`: the output uses only `a-z`, `0-9` and `-`, and never
   * two hyphens in a row. A leading or trailing hyphen is possible
   * (see PresentationExamples.SlugifyTrailingHyphen).
   */
  function Slugify(text: string): (slug: string)
    ensures forall i :: 0 <= i < |slug| ==> IsSlugChar(slug[i])
    ensures NoDoubleHyphen(slug)
  {
    var kept := KeepSlugChars(Trim(Folded(text)));
    FilterSelects(Trim(Folded(text)), IsKeptChar);
    var hyphenated := HyphenateSpaces(kept);
    HyphenateSpacesAlphabet(kept);
    assert forall c :: c in hyphenated ==> IsSlugChar(c);
    CollapseHyphensShape(hyphenated);
    CollapseHyphens(hyphenated)
  }

  // ---------------------------------------------------------------------
  // Lemmas about the helpers
  // ---------------------------------------------------------------------

  lemma {:induction false} FilterAppend(a: string, b: string, keep: char -> bool)
    ensures Filter(a + b, keep) == Filter(a, keep) + Filter(b, keep)
  {
    if a == [] {
      assert a + b == b;
    } else {
      var ab := a + b;
      assert ab[0] == a[0] && ab[1..] == a[1..] + b;
      var head := if keep(a[0]) then [a[0]] else [];
      FilterAppend(a[1..], b, keep);
      calc {
        Filter(ab, keep);
        head + Filter(a[1..] + b, keep);
        head + (Filter(a[1..], keep) + Filter(b, keep));
        (head + Filter(a[1..], keep)) + Filter(b, keep);
      }
    }
  }

  lemma {:induction false} FilterKeepsAll(s: string, keep: char -> bool)
    requires forall c :: c in s ==> keep(c)
    ensures Filter(s, keep) == s
  {
    if s != [] {
      FilterKeepsAll(s[1..], keep);
    }
  }

  lemma {:induction false} FilterDropsAll(s: string, keep: char -> bool)
    requires forall c :: c in s ==> !keep(c)
    ensures Filter(s, keep) == []
  {
    if s != [] {
      FilterDropsAll(s[1..], keep);
    }
  }

  /** Two filters that agree on the characters of `s` select the same characters. */
  lemma {:induction false} FilterAgree(s: string, p: char -> bool, q: char -> bool)
    requires forall c :: c in s ==> p(c) == q(c)
    ensures Filter(s, p) == Filter(s, q)
  {
    if s != [] {
      FilterAgree(s[1..], p, q);
    }
  }

  /** Filtering first by a weaker predicate changes nothing. */
  lemma {:induction false} FilterFilter(s: string, p: char -> bool, q: char -> bool)
    requires forall c :: q(c) ==> p(c)
    ensures Filter(Filter(s, p), q) == Filter(s, q)
  {
    if s != [] {
      FilterFilter(s[1..], p, q);
      if p(s[0]) {
        assert Filter(s, p) == [s[0]] + Filter(s[1..], p);
        assert Filter(s, p)[1..] == Filter(s[1..], p);
      } else {
        assert !q(s[0]);
        assert Filter(s, p) == Filter(s[1..], p);
      }
    }
  }

  /** Dropping characters a filter rejects anyway does not change what it keeps. */
  lemma {:induction false} FilterDropWhile(s: string, drop: char -> bool, keep: char -> bool)
    requires forall c :: drop(c) ==> !keep(c)
    ensures Filter(DropWhile(s, drop), keep) == Filter(s, keep)
  {
    if s != [] && drop(s[0]) {
      FilterDropWhile(s[1..], drop, keep);
    }
  }

  lemma {:induction false} FilterDropLastWhile(s: string, drop: char -> bool, keep: char -> bool)
    requires forall c :: drop(c) ==> !keep(c)
    ensures Filter(DropLastWhile(s, drop), keep) == Filter(s, keep)
  {
    if s != [] && drop(s[|s| - 1]) {
      var init := s[..|s| - 1];
      FilterDropLastWhile(init, drop, keep);
      assert s == init + [s[|s| - 1]];
      FilterAppend(init, [s[|s| - 1]], keep);
    }
  }

  lemma {:induction false} NfdAppend(a: string, b: string)
    ensures Nfd(a + b) == Nfd(a) + Nfd(b)
  {
    if a == [] {
      assert a + b == b;
    } else {
      assert (a + b)[1..] == a[1..] + b;
      NfdAppend(a[1..], b);
    }
  }

  /** Text in which no character is a key of the decomposition table is its own decomposition. */
  lemma {:induction false} NfdFixes(s: string)
    requires forall i :: 0 <= i < |s| ==> !('\U{C0}' <= s[i] <= '\U{FF}' && s[i] in LatinDecompositions)
    ensures Nfd(s) == s
  {
    if s != [] {
      NfdFixes(s[1..]);
    }
  }

  lemma {:induction false} LowerCaseAppend(a: string, b: string)
    ensures LowerCase(a + b) == LowerCase(a) + LowerCase(b)
  {
    if a == [] {
      assert a + b == b;
    } else {
      assert (a + b)[1..] == a[1..] + b;
      LowerCaseAppend(a[1..], b);
    }
  }

  lemma {:induction false} LowerCaseFixes(s: string)
    requires forall i :: 0 <= i < |s| ==> !('A' <= s[i] <= 'Z')
    ensures LowerCase(s) == s
  {
    if s != [] {
      LowerCaseFixes(s[1..]);
    }
  }

  /** Text without whitespace passes through HyphenateSpaces unchanged. */
  lemma {:induction false} HyphenateSpacesSkipsWord(w: string, s: string)
    requires forall i :: 0 <= i < |w| ==> !IsWhitespace(w[i])
    ensures HyphenateSpaces(w + s) == w + HyphenateSpaces(s)
  {
    if w != [] {
      assert (w + s)[1..] == w[1..] + s;
      HyphenateSpacesSkipsWord(w[1..], s);
    } else {
      assert w + s == s;
    }
  }

  lemma {:induction false} HyphenateSpacesFixes(s: string)
    requires forall i :: 0 <= i < |s| ==> !IsWhitespace(s[i])
    ensures HyphenateSpaces(s) == s
  {
    if s != [] {
      HyphenateSpacesFixes(s[1..]);
    }
  }

  lemma {:induction false} CollapseHyphensFixes(s: string)
    requires NoDoubleHyphen(s)
    ensures CollapseHyphens(s) == s
    decreases |s|
  {
    if s != [] {
      assert NoDoubleHyphen(s[1..]);
      CollapseHyphensFixes(s[1..]);
      if s[0] == '-' {
        assert DropWhile(s[1..], IsHyphen) == s[1..];
      }
    }
  }

  lemma {:induction false} HyphenateSpacesKeepsAlnums(s: string)
    ensures Filter(HyphenateSpaces(s), IsLowerAlnum) == Filter(s, IsLowerAlnum)
    decreases |s|
  {
    if s != [] {
      if IsWhitespace(s[0]) {
        var rest := DropWhile(s[1..], IsWhitespace);
        HyphenateSpacesKeepsAlnums(rest);
        FilterDropWhile(s[1..], IsWhitespace, IsLowerAlnum);
        FilterAppend("-", HyphenateSpaces(rest), IsLowerAlnum);
      } else {
        HyphenateSpacesKeepsAlnums(s[1..]);
        FilterAppend([s[0]], HyphenateSpaces(s[1..]), IsLowerAlnum);
      }
    }
  }

  lemma {:induction false} CollapseHyphensKeepsAlnums(s: string)
    ensures Filter(CollapseHyphens(s), IsLowerAlnum) == Filter(s, IsLowerAlnum)
    decreases |s|
  {
    if s != [] {
      if s[0] == '-' {
        var rest := DropWhile(s[1..], IsHyphen);
        CollapseHyphensKeepsAlnums(rest);
        FilterDropWhile(s[1..], IsHyphen, IsLowerAlnum);
        FilterAppend("-", CollapseHyphens(rest), IsLowerAlnum);
      } else {
        CollapseHyphensKeepsAlnums(s[1..]);
        FilterAppend([s[0]], CollapseHyphens(s[1..]), IsLowerAlnum);
      }
    }
  }

  /**
   * `trim` returns the slice between the surrounding whitespace: everything
   * outside it is whitespace, and a non-empty result starts and ends with a
   * character that is not.
   */
  lemma TrimShape(s: string)
    ensures exists i, j ::
              && 0 <= i <= j <= |s|
              && Trim(s) == s[i..j]
              && (forall k :: 0 <= k < i || j <= k < |s| ==> IsWhitespace(s[k]))
              && (i < j ==> !IsWhitespace(s[i]) && !IsWhitespace(s[j - 1]))
  {
    var d := DropWhile(s, IsWhitespace);
    var t := DropLastWhile(d, IsWhitespace);
    DropWhileShape(s, IsWhitespace);
    DropLastWhileShape(d, IsWhitespace);
    var i := |s| - |d|;
    var j := i + |t|;
    assert t == s[i..j] by {
      assert d == s[i..];
      assert t == d[..|t|];
    }
    forall k | 0 <= k < i || j <= k < |s| ensures IsWhitespace(s[k]) {
      if j <= k {
        assert s[k] == d[k - i];
      }
    }
    if i < j {
      assert s[i] == d[0] == t[0];
      assert s[j - 1] == t[|t| - 1];
    }
    assert Trim(s) == s[i..j] && 0 <= i <= j <= |s|;
  }

  /** `trim(pre + s + suf)` is `trim(s)` when `pre` and `suf` are whitespace. */
  lemma {:induction false} TrimIgnoresSurroundingWhitespace(pre: string, s: string, suf: string)
    requires forall c :: c in pre ==> IsWhitespace(c)
    requires forall c :: c in suf ==> IsWhitespace(c)
    ensures Trim(pre + s + suf) == Trim(s)
  {
    DropWhileSkipsPrefix(pre, s + suf);
    assert pre + s + suf == pre + (s + suf);
    DropWhileAppend(s, suf);
    var t := DropWhile(s, IsWhitespace);
    if t == [] {
      DropWhileSkipsPrefix(suf, []);
      assert suf + [] == suf;
    } else {
      DropLastWhileSkipsSuffix(t, suf);
    }
  }

  lemma {:induction false} DropWhileSkipsPrefix(pre: string, s: string)
    requires forall c :: c in pre ==> IsWhitespace(c)
    ensures DropWhile(pre + s, IsWhitespace) == DropWhile(s, IsWhitespace)
  {
    if pre == [] {
      assert pre + s == s;
    } else {
      assert pre[0] in pre;
      assert (pre + s)[1..] == pre[1..] + s;
      DropWhileSkipsPrefix(pre[1..], s);
    }
  }

  lemma {:induction false} DropWhileAppend(s: string, suf: string)
    ensures DropWhile(s + suf, IsWhitespace)
         == if DropWhile(s, IsWhitespace) == [] then DropWhile(suf, IsWhitespace) else DropWhile(s, IsWhitespace) + suf
  {
    if s == [] {
      assert s + suf == suf;
    } else if IsWhitespace(s[0]) {
      assert (s + suf)[1..] == s[1..] + suf;
      DropWhileAppend(s[1..], suf);
    }
  }

  lemma {:induction false} DropLastWhileSkipsSuffix(s: string, suf: string)
    requires forall c :: c in suf ==> IsWhitespace(c)
    ensures DropLastWhile(s + suf, IsWhitespace) == DropLastWhile(s, IsWhitespace)
    decreases |suf|
  {
    if suf == [] {
      assert s + suf == s;
    } else {
      var init := suf[..|suf| - 1];
      assert suf[|suf| - 1] in suf;
      assert (s + suf)[..|s + suf| - 1] == s + init;
      DropLastWhileSkipsSuffix(s, init);
    }
  }

  lemma FoldedAppend(a: string, b: string)
    ensures Folded(a + b) == Folded(a) + Folded(b)
  {
    NfdAppend(a, b);
    FilterAppend(Nfd(a), Nfd(b), IsNotCombiningMark);
    LowerCaseAppend(StripMarks(Nfd(a)), StripMarks(Nfd(b)));
  }

  /** On ASCII text the front of the pipeline only lower-cases. */
  lemma FoldedAscii(s: string)
    requires forall i :: 0 <= i < |s| ==> s[i] < '\U{80}'
    ensures Folded(s) == LowerCase(s)
  {
    NfdFixes(s);
    FilterKeepsAll(s, IsNotCombiningMark);
  }

  /** Text without decomposable letters, combining marks or upper-case ASCII letters is already folded. */
  lemma FoldedFixes(s: string)
    requires forall i :: 0 <= i < |s| ==> !('\U{C0}' <= s[i] <= '\U{FF}')
    requires forall i :: 0 <= i < |s| ==> !IsCombiningMark(s[i]) && !('A' <= s[i] <= 'Z')
    ensures Folded(s) == s
  {
    NfdFixes(s);
    FilterKeepsAll(s, IsNotCombiningMark);
    LowerCaseFixes(s);
  }

  // ---------------------------------------------------------------------
  // Properties of Slugify
  // ---------------------------------------------------------------------

  /** Slugify evaluated stage by stage. */
  lemma SlugifyStages(text: string, trimmed: string, kept: string, hyphenated: string, slug: string)
    requires Trim(Folded(text)) == trimmed
    requires KeepSlugChars(trimmed) == kept
    requires HyphenateSpaces(kept) == hyphenated
    requires CollapseHyphens(hyphenated) == slug
    ensures Slugify(text) == slug
  {
  }

  /** A string already in slug form (slug alphabet, no double hyphen) is its own slug. */
  lemma SlugifyFixesSlugs(t: string)
    requires forall i :: 0 <= i < |t| ==> IsSlugChar(t[i])
    requires NoDoubleHyphen(t)
    ensures Slugify(t) == t
  {
    SlugFormFolded(t);
    SlugFormTrimmed(t);
    SlugFormKept(t);
    HyphenateSpacesFixes(t);
    CollapseHyphensFixes(t);
    SlugifyStages(t, t, t, t, t);
  }

  lemma SlugFormFolded(t: string)
    requires forall i :: 0 <= i < |t| ==> IsSlugChar(t[i])
    ensures Folded(t) == t
  {
    FoldedFixes(t);
  }

  lemma SlugFormTrimmed(t: string)
    requires forall i :: 0 <= i < |t| ==> IsSlugChar(t[i])
    ensures Trim(t) == t
  {
    assert DropWhile(t, IsWhitespace) == t;
    assert DropLastWhile(t, IsWhitespace) == t;
  }

  lemma SlugFormKept(t: string)
    requires forall i :: 0 <= i < |t| ==> IsSlugChar(t[i])
    ensures KeepSlugChars(t) == t
  {
    FilterKeepsAllAt(t, IsKeptChar);
  }

  predicate IsAsciiAlnum(c: char) {
    'A' <= c <= 'Z' || 'a' <= c <= 'z' || '0' <= c <= '9'
  }

  /** ASCII punctuation and symbols: printable, neither a letter, a digit, a space nor a hyphen. */
  predicate IsAsciiPunctuation(c: char) {
    '!' <= c <= '~' && !IsAsciiAlnum(c) && c != '-'
  }

  /**
   * Two ASCII words separated by one space, followed by punctuation, give the
   * lower-cased words joined by a hyphen. With no second word the slug ends
   * in a hyphen, because the space is inside the trimmed text.
   */
  lemma SlugifyTwoWords(w1: string, w2: string, tail: string)
    requires w1 != [] && (w2 != [] || tail != [])
    requires forall i :: 0 <= i < |w1| ==> IsAsciiAlnum(w1[i])
    requires forall i :: 0 <= i < |w2| ==> IsAsciiAlnum(w2[i])
    requires forall i :: 0 <= i < |tail| ==> IsAsciiPunctuation(tail[i])
    ensures Slugify(w1 + " " + w2 + tail) == LowerCase(w1) + "-" + LowerCase(w2)
  {
    var l1, l2 := LowerCase(w1), LowerCase(w2);
    TwoWordsFolded(w1, w2, tail);
    TwoWordsLowered(w1, w2, tail);
    SlugifyStages(w1 + " " + w2 + tail, l1 + " " + l2 + tail, l1 + " " + l2, l1 + "-" + l2, l1 + "-" + l2);
  }

  /** The stages after folding, for lower-cased words. */
  lemma TwoWordsLowered(w1: string, w2: string, tail: string)
    requires w1 != [] && (w2 != [] || tail != [])
    requires forall i :: 0 <= i < |w1| ==> IsAsciiAlnum(w1[i])
    requires forall i :: 0 <= i < |w2| ==> IsAsciiAlnum(w2[i])
    requires forall i :: 0 <= i < |tail| ==> IsAsciiPunctuation(tail[i])
    ensures var l1, l2 := LowerCase(w1), LowerCase(w2);
      && Trim(l1 + " " + l2 + tail) == l1 + " " + l2 + tail
      && KeepSlugChars(l1 + " " + l2 + tail) == l1 + " " + l2
      && HyphenateSpaces(l1 + " " + l2) == l1 + "-" + l2
      && CollapseHyphens(l1 + "-" + l2) == l1 + "-" + l2
  {
    var l1, l2 := LowerCase(w1), LowerCase(w2);
    LowerCaseAlnums(w1);
    LowerCaseAlnums(w2);
    TwoWordsTrimmed(l1, l2, tail);
    TwoWordsKept(l1, l2, tail);
    TwoWordsHyphenated(l1, l2);
    TwoWordsCollapsed(l1, l2);
  }

  lemma TwoWordsCollapsed(l1: string, l2: string)
    requires forall i :: 0 <= i < |l1| ==> IsLowerAlnum(l1[i])
    requires forall i :: 0 <= i < |l2| ==> IsLowerAlnum(l2[i])
    ensures CollapseHyphens(l1 + "-" + l2) == l1 + "-" + l2
  {
    HyphenJoinNoDoubleHyphen(l1, l2);
    CollapseHyphensFixes(l1 + "-" + l2);
  }

  /** Joining two hyphen-free words with one hyphen gives no hyphen run. */
  lemma HyphenJoinNoDoubleHyphen(a: string, b: string)
    requires forall i :: 0 <= i < |a| ==> IsLowerAlnum(a[i])
    requires forall i :: 0 <= i < |b| ==> IsLowerAlnum(b[i])
    ensures NoDoubleHyphen(a + "-" + b)
  {
    var j := a + "-" + b;
    forall i | 0 <= i < |j| - 1
      ensures !(j[i] == '-' && j[i + 1] == '-')
    {
      if i < |a| {
        assert j[i] == a[i];
      } else {
        assert j[i + 1] == b[i - |a|];
      }
    }
  }

  lemma TwoWordsFolded(w1: string, w2: string, tail: string)
    requires forall i :: 0 <= i < |w1| ==> IsAsciiAlnum(w1[i])
    requires forall i :: 0 <= i < |w2| ==> IsAsciiAlnum(w2[i])
    requires forall i :: 0 <= i < |tail| ==> IsAsciiPunctuation(tail[i])
    ensures Folded(w1 + " " + w2 + tail) == LowerCase(w1) + " " + LowerCase(w2) + tail
  {
    var text := w1 + " " + w2 + tail;
    assert forall i :: 0 <= i < |text| ==> text[i] < '\U{80}';
    FoldedAscii(text);
    LowerCaseAppend(w1 + " " + w2, tail);
    LowerCaseAppend(w1 + " ", w2);
    LowerCaseAppend(w1, " ");
    LowerCaseFixes(tail);
  }

  lemma TwoWordsTrimmed(l1: string, l2: string, tail: string)
    requires l1 != [] && (l2 != [] || tail != [])
    requires forall i :: 0 <= i < |l1| ==> IsLowerAlnum(l1[i])
    requires forall i :: 0 <= i < |l2| ==> IsLowerAlnum(l2[i])
    requires forall i :: 0 <= i < |tail| ==> IsAsciiPunctuation(tail[i])
    ensures Trim(l1 + " " + l2 + tail) == l1 + " " + l2 + tail
  {
    var lowered := l1 + " " + l2 + tail;
    assert lowered[0] == l1[0];
    assert DropWhile(lowered, IsWhitespace) == lowered;
    assert lowered[|lowered| - 1] == if tail != [] then tail[|tail| - 1] else l2[|l2| - 1];
    assert DropLastWhile(lowered, IsWhitespace) == lowered;
  }

  lemma TwoWordsKept(l1: string, l2: string, tail: string)
    requires forall i :: 0 <= i < |l1| ==> IsLowerAlnum(l1[i])
    requires forall i :: 0 <= i < |l2| ==> IsLowerAlnum(l2[i])
    requires forall i :: 0 <= i < |tail| ==> IsAsciiPunctuation(tail[i])
    ensures KeepSlugChars(l1 + " " + l2 + tail) == l1 + " " + l2
  {
    assert Filter(tail, IsKeptChar) == [] by {
      FilterDropsAllAt(tail, IsKeptChar);
    }
    SpacedWordsKept(l1, l2);
    FilterAppend(l1 + " " + l2, tail, IsKeptChar);
  }

  lemma SpacedWordsKept(l1: string, l2: string)
    requires forall i :: 0 <= i < |l1| ==> IsLowerAlnum(l1[i])
    requires forall i :: 0 <= i < |l2| ==> IsLowerAlnum(l2[i])
    ensures KeepSlugChars(l1 + " " + l2) == l1 + " " + l2
  {
    var j := l1 + " " + l2;
    forall i | 0 <= i < |j|
      ensures IsKeptChar(j[i])
    {
      if i < |l1| {
        assert j[i] == l1[i];
      } else if i > |l1| {
        assert j[i] == l2[i - |l1| - 1];
      }
    }
    FilterKeepsAllAt(j, IsKeptChar);
  }

  lemma TwoWordsHyphenated(l1: string, l2: string)
    requires forall i :: 0 <= i < |l1| ==> IsLowerAlnum(l1[i])
    requires forall i :: 0 <= i < |l2| ==> IsLowerAlnum(l2[i])
    ensures HyphenateSpaces(l1 + " " + l2) == l1 + "-" + l2
  {
    AlnumsAreNotWhitespace(l1);
    AlnumsAreNotWhitespace(l2);
    HyphenateSpacesSkipsWord(l1, " " + l2);
    HyphenateSpacesAfterSpace(l2);
    assert l1 + " " + l2 == l1 + (" " + l2);
    assert l1 + "-" + l2 == l1 + ("-" + l2);
  }

  lemma AlnumsAreNotWhitespace(s: string)
    requires forall i :: 0 <= i < |s| ==> IsLowerAlnum(s[i])
    ensures forall i :: 0 <= i < |s| ==> !IsWhitespace(s[i])
  {
  }

  /** One space before a word without whitespace becomes one hyphen. */
  lemma HyphenateSpacesAfterSpace(w: string)
    requires forall i :: 0 <= i < |w| ==> !IsWhitespace(w[i])
    ensures HyphenateSpaces(" " + w) == "-" + w
  {
    var s := " " + w;
    assert s[0] == ' ' && s[1..] == w;
    assert DropWhile(w, IsWhitespace) == w by {
      if w != [] {
        assert !IsWhitespace(w[0]);
      }
    }
    HyphenateSpacesFixes(w);
  }

  /** Lower-casing ASCII letters and digits gives `[a-z0-9]`. */
  lemma {:induction false} LowerCaseAlnums(w: string)
    requires forall i :: 0 <= i < |w| ==> IsAsciiAlnum(w[i])
    ensures |LowerCase(w)| == |w|
    ensures forall i :: 0 <= i < |w| ==> IsLowerAlnum(LowerCase(w)[i])
  {
    if w != [] {
      LowerCaseAlnums(w[1..]);
    }
  }

  lemma FilterKeepsAllAt(s: string, keep: char -> bool)
    requires forall i :: 0 <= i < |s| ==> keep(s[i])
    ensures Filter(s, keep) == s
  {
    forall c | c in s ensures keep(c) {
      var i :| 0 <= i < |s| && s[i] == c;
    }
    FilterKeepsAll(s, keep);
  }

  lemma FilterDropsAllAt(s: string, keep: char -> bool)
    requires forall i :: 0 <= i < |s| ==> !keep(s[i])
    ensures Filter(s, keep) == []
  {
    forall c | c in s ensures !keep(c) {
      var i :| 0 <= i < |s| && s[i] == c;
    }
    FilterDropsAll(s, keep);
  }

  /** `slugify` is idempotent. */
  lemma SlugifyIdempotent(text: string)
    ensures Slugify(Slugify(text)) == Slugify(text)
  {
    SlugifyFixesSlugs(Slugify(text));
  }

  lemma FoldedFixesWhitespace(w: string)
    requires forall c :: c in w ==> IsWhitespace(c)
    ensures Folded(w) == w
  {
    forall i | 0 <= i < |w| ensures IsWhitespace(w[i]) {
      assert w[i] in w;
    }
    FoldedFixes(w);
  }

  /** Whitespace around the text does not change its slug. */
  lemma SlugifyIgnoresSurroundingWhitespace(pre: string, text: string, suf: string)
    requires forall c :: c in pre ==> IsWhitespace(c)
    requires forall c :: c in suf ==> IsWhitespace(c)
    ensures Slugify(pre + text + suf) == Slugify(text)
  {
    var folded := Folded(text);
    assert Folded(pre + text + suf) == pre + folded + suf by {
      FoldedAppend(pre + text, suf);
      FoldedAppend(pre, text);
      FoldedFixesWhitespace(pre);
      FoldedFixesWhitespace(suf);
    }
    TrimIgnoresSurroundingWhitespace(pre, folded, suf);
  }

  lemma SlugifyIgnoresSurroundingSpaces(text: string)
    ensures Slugify(" " + text + " ") == Slugify(text)
  {
    SlugifyIgnoresSurroundingWhitespace(" ", text, " ");
  }

  /**
   * Deleting the hyphens of a slug leaves exactly the letters and digits of the
   * folded text, in their original order.
   */
  lemma SlugifyKeepsAlnums(text: string)
    ensures Filter(Slugify(text), IsNotHyphen) == Filter(Folded(text), IsLowerAlnum)
  {
    var folded := Folded(text);
    var trimmed := Trim(folded);
    var kept := KeepSlugChars(trimmed);
    var hyphenated := HyphenateSpaces(kept);
    var slug := CollapseHyphens(hyphenated);
    assert slug == Slugify(text);
    calc {
      Filter(slug, IsNotHyphen);
      { SlugFilterAgree(slug); }
      Filter(slug, IsLowerAlnum);
      { CollapseHyphensKeepsAlnums(hyphenated); }
      Filter(hyphenated, IsLowerAlnum);
      { HyphenateSpacesKeepsAlnums(kept); }
      Filter(kept, IsLowerAlnum);
      { FilterFilter(trimmed, IsKeptChar, IsLowerAlnum); }
      Filter(trimmed, IsLowerAlnum);
      { FilterDropWhile(folded, IsWhitespace, IsLowerAlnum);
        FilterDropLastWhile(DropWhile(folded, IsWhitespace), IsWhitespace, IsLowerAlnum); }
      Filter(folded, IsLowerAlnum);
    }
  }

  lemma SlugFilterAgree(slug: string)
    requires forall i :: 0 <= i < |slug| ==> IsSlugChar(slug[i])
    ensures Filter(slug, IsNotHyphen) == Filter(slug, IsLowerAlnum)
  {
    forall c | c in slug ensures IsNotHyphen(c) == IsLowerAlnum(c) {
      var i :| 0 <= i < |slug| && slug[i] == c;
    }
    FilterAgree(slug, IsNotHyphen, IsLowerAlnum);
  }

  /**
   * For ASCII text, deleting the hyphens of its slug gives the lower-cased
   * text restricted to `[a-z0-9]`.
   */
  lemma SlugifyAscii(text: string)
    requires forall i :: 0 <= i < |text| ==> text[i] < '\U{80}'
    ensures Filter(Slugify(text), IsNotHyphen) == Filter(LowerCase(text), IsLowerAlnum)
  {
    NfdFixes(text);
    FilterKeepsAll(text, IsNotCombiningMark);
    SlugifyKeepsAlnums(text);
  }
}
