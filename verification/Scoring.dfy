/** Arabic-normalised matching in the eval scoring (ai/second-brain/eval/scoring.py), on text that compatibility
    normalisation (NFKC) leaves alone and with a per-character lower-casing. */
module Scoring {
  import opened Text

  // ----- normalisation ---------------------------------------------------------------------------------------

  /** The tashkeel range U+064B to U+0652 and the tatweel U+0640. */
  predicate IsDiacritic(c: char) {
    0x064B <= c as int <= 0x0652 || c as int == 0x0640
  }

  function DropDiacritics(s: string): string {
    if s == [] then []
    else if IsDiacritic(s[0]) then DropDiacritics(s[1..])
    else [s[0]] + DropDiacritics(s[1..])
  }

  /** `text.replace(a, b)` for single characters. */
  function Replace(a: char, b: char, s: string): string {
    MapChars((c: char) => if c == a then b else c, s)
  }

  const ALEF := '\U{0627}'

  /** The letter variants folded one after the other. */
  function FoldLetters(s: string): string {
    var s1 := Replace('\U{0623}', ALEF, s);
    var s2 := Replace('\U{0625}', ALEF, s1);
    var s3 := Replace('\U{0622}', ALEF, s2);
    var s4 := Replace('\U{0671}', ALEF, s3);
    var s5 := Replace('\U{0629}', '\U{0647}', s4);
    Replace('\U{0649}', '\U{064A}', s5)
  }

  /** Every maximal run of whitespace becomes one space. */
  function Collapse(s: string): string {
    if s == [] then []
    else if !IsSpace(s[0]) then [s[0]] + Collapse(s[1..])
    else if |s| > 1 && IsSpace(s[1]) then Collapse(s[1..])
    else [' '] + Collapse(s[1..])
  }

  function Normalize(lower: char -> char, text: string): string {
    MapChars(lower, Trim(Collapse(FoldLetters(DropDiacritics(text)))))
  }

  // ----- each step keeps substrings --------------------------------------------------------------------------

  lemma {:induction false} DropConcat(a: string, b: string)
    ensures DropDiacritics(a + b) == DropDiacritics(a) + DropDiacritics(b)
  {
    if a == [] {
      assert a + b == b;
    } else {
      assert (a + b)[1..] == a[1..] + b;
      DropConcat(a[1..], b);
    }
  }

  /** What a letter becomes. */
  function FoldLetter(c: char): char {
    if c == '\U{0623}' || c == '\U{0625}' || c == '\U{0622}' || c == '\U{0671}' then ALEF
    else if c == '\U{0629}' then '\U{0647}'
    else if c == '\U{0649}' then '\U{064A}'
    else c
  }

  /** The replacements do not interfere: together they map each letter on its own. */
  lemma {:induction false} FoldLettersIsPerLetter(s: string)
    ensures FoldLetters(s) == MapChars(FoldLetter, s)
  {
    var s1 := Replace('\U{0623}', ALEF, s);
    var s2 := Replace('\U{0625}', ALEF, s1);
    var s3 := Replace('\U{0622}', ALEF, s2);
    var s4 := Replace('\U{0671}', ALEF, s3);
    var s5 := Replace('\U{0629}', '\U{0647}', s4);
    forall i | 0 <= i < |s| ensures FoldLetters(s)[i] == FoldLetter(s[i]) {
      assert s1[i] == if s[i] == '\U{0623}' then ALEF else s[i];
      assert s2[i] == if s1[i] == '\U{0625}' then ALEF else s1[i];
      assert s3[i] == if s2[i] == '\U{0622}' then ALEF else s2[i];
      assert s4[i] == if s3[i] == '\U{0671}' then ALEF else s3[i];
      assert s5[i] == if s4[i] == '\U{0629}' then '\U{0647}' else s4[i];
    }
  }

  lemma {:induction false} MapConcat(f: char -> char, a: string, b: string)
    ensures MapChars(f, a + b) == MapChars(f, a) + MapChars(f, b)
  {
  }

  lemma {:induction false} CollapseConcat(a: string, b: string)
    requires a == [] || b == [] || !IsSpace(a[|a| - 1]) || !IsSpace(b[0])
    ensures Collapse(a + b) == Collapse(a) + Collapse(b)
  {
    if a == [] {
      assert a + b == b;
    } else if b == [] {
      assert a + b == a;
    } else {
      assert (a + b)[1..] == a[1..] + b;
      CollapseConcat(a[1..], b);
      SameFirst(a, b);
      CollapseFirst(a + b);
      CollapseFirst(a);
      Regroup(KeptOfFirst(a), Collapse(a[1..]), Collapse(b));
    }
  }

  lemma {:induction false} SameFirst(a: string, b: string)
    requires a != [] && b != [] && (!IsSpace(a[|a| - 1]) || !IsSpace(b[0]))
    ensures KeptOfFirst(a + b) == KeptOfFirst(a)
  {
    assert (a + b)[0] == a[0] && (a + b)[1] == if |a| > 1 then a[1] else b[0];
  }

  /** What is kept of the first character: a space only at the end of its run. */
  function KeptOfFirst(s: string): string
    requires s != []
  {
    if !IsSpace(s[0]) then [s[0]] else if |s| > 1 && IsSpace(s[1]) then [] else [' ']
  }

  lemma {:induction false} CollapseFirst(s: string)
    requires s != []
    ensures Collapse(s) == KeptOfFirst(s) + Collapse(s[1..])
  {
  }

  predicate Blank(s: string) {
    forall i :: 0 <= i < |s| ==> IsSpace(s[i])
  }

  /** Starts and ends with something other than whitespace. */
  predicate Firm(s: string) {
    s != [] && !IsSpace(s[0]) && !IsSpace(s[|s| - 1])
  }

  lemma {:induction false} CollapseBlank(s: string)
    requires Blank(s)
    ensures Collapse(s) == if s == [] then [] else " "
  {
    if s != [] {
      CollapseBlank(s[1..]);
    }
  }

  lemma {:induction false} CollapseFirm(s: string)
    requires s != [] && !IsSpace(s[|s| - 1])
    ensures var r := Collapse(s); r != [] && !IsSpace(r[|r| - 1]) && (!IsSpace(s[0]) ==> !IsSpace(r[0]))
  {
    if |s| > 1 {
      CollapseFirm(s[1..]);
    }
  }

  lemma {:induction false} TrimLeftAround(x: string, y: string)
    requires y != [] && !IsSpace(y[0])
    ensures TrimLeft(x + y) == TrimLeft(x) + y
  {
    if x == [] {
      assert x + y == y;
    } else {
      assert (x + y)[1..] == x[1..] + y;
      if IsSpace(x[0]) {
        TrimLeftAround(x[1..], y);
      }
    }
  }

  lemma {:induction false} TrimRightAround(x: string, y: string)
    requires x != [] && !IsSpace(x[|x| - 1])
    ensures TrimRight(x + y) == x + TrimRight(y)
  {
    if y == [] {
      assert x + y == x;
    } else {
      assert (x + y)[..|x + y| - 1] == x + y[..|y| - 1];
      if IsSpace(y[|y| - 1]) {
        TrimRightAround(x, y[..|y| - 1]);
      }
    }
  }

  lemma {:induction false} TrimAround(x: string, t: string, y: string)
    requires Firm(t)
    ensures Trim(x + t + y) == TrimLeft(x) + t + TrimRight(y)
  {
    assert x + t + y == x + (t + y);
    TrimLeftAround(x, t + y);
    assert TrimLeft(x) + (t + y) == (TrimLeft(x) + t) + y;
    TrimRightAround(TrimLeft(x) + t, y);
  }

  /** Whitespace, a firm core or nothing, whitespace. */
  lemma {:induction false} Core(s: string) returns (l: string, t: string, r: string)
    ensures s == l + t + r && Blank(l) && Blank(r) && (t == [] || Firm(t))
    ensures t == [] <==> Blank(s)
  {
    if s == [] {
      l, t, r := [], [], [];
    } else if IsSpace(s[0]) {
      l, t, r := Core(s[1..]);
      assert s == [s[0]] + s[1..];
      l := [s[0]] + l;
      assert Blank(s) <==> Blank(s[1..]);
    } else {
      var n := |s|;
      while IsSpace(s[n - 1])
        invariant 0 < n <= |s| && Blank(s[n..])
        decreases n
      {
        assert s[n - 1..] == [s[n - 1]] + s[n..];
        n := n - 1;
      }
      l, t, r := [], s[..n], s[n..];
    }
  }

  lemma {:induction false} EdgeVanishes(s: string)
    requires Blank(s)
    ensures TrimLeft(Collapse(s)) == [] && TrimRight(Collapse(s)) == [] && Trim(Collapse(s)) == []
  {
    CollapseBlank(s);
    assert TrimLeft(" ") == TrimLeft(" "[1..]) && TrimRight(" ") == TrimRight(" "[..0]);
  }

  lemma {:induction false} TidyCore(l: string, t: string, r: string)
    requires Blank(l) && Blank(r) && (t == [] || Firm(t))
    ensures Trim(Collapse(l + t + r)) == Collapse(t)
  {
    if t == [] {
      EdgeVanishes(l + t + r);
    } else {
      EdgeVanishes(l);
      EdgeVanishes(r);
      TidyAround(l, t, r);
      assert [] + Collapse(t) + [] == Collapse(t);
    }
  }

  lemma {:induction false} TidyAround(p: string, t: string, q: string)
    requires Firm(t)
    ensures Trim(Collapse(p + t + q)) == TrimLeft(Collapse(p)) + Collapse(t) + TrimRight(Collapse(q))
  {
    CollapseConcat(p, t);
    CollapseConcat(p + t, q);
    CollapseFirm(t);
    TrimAround(Collapse(p), Collapse(t), Collapse(q));
  }

  lemma {:induction false} TidyKeepsSubstrings(part: string, whole: string)
    requires IsSubstring(part, whole)
    ensures IsSubstring(Trim(Collapse(part)), Trim(Collapse(whole)))
  {
    var a, b := SubstringSplit(part, whole);
    var l, t, r := Core(part);
    TidyCore(l, t, r);
    if t == [] {
      SubstringOfConcat([], [], Trim(Collapse(whole)));
      assert [] + [] + Trim(Collapse(whole)) == Trim(Collapse(whole));
    } else {
      var p, q := a + l, r + b;
      assert whole == p + t + q;
      TidyAround(p, t, q);
      SubstringOfConcat(TrimLeft(Collapse(p)), Collapse(t), TrimRight(Collapse(q)));
    }
  }

  lemma {:induction false} MapKeepsSubstrings(f: char -> char, part: string, whole: string)
    requires IsSubstring(part, whole)
    ensures IsSubstring(MapChars(f, part), MapChars(f, whole))
  {
    var a, b := SubstringSplit(part, whole);
    MapConcat(f, a + part, b);
    MapConcat(f, a, part);
    SubstringOfConcat(MapChars(f, a), MapChars(f, part), MapChars(f, b));
  }

  lemma {:induction false} DropKeepsSubstrings(part: string, whole: string)
    requires IsSubstring(part, whole)
    ensures IsSubstring(DropDiacritics(part), DropDiacritics(whole))
  {
    var a, b := SubstringSplit(part, whole);
    DropConcat(a + part, b);
    DropConcat(a, part);
    SubstringOfConcat(DropDiacritics(a), DropDiacritics(part), DropDiacritics(b));
  }

  /** Normalising never loses a literal match: a substring of a text normalises to a substring of its normal form. */
  lemma {:induction false} NormalizeKeepsSubstrings(lower: char -> char, part: string, whole: string)
    requires IsSubstring(part, whole)
    ensures IsSubstring(Normalize(lower, part), Normalize(lower, whole))
  {
    DropKeepsSubstrings(part, whole);
    var p, w := DropDiacritics(part), DropDiacritics(whole);
    FoldLettersIsPerLetter(p);
    FoldLettersIsPerLetter(w);
    MapKeepsSubstrings(FoldLetter, p, w);
    TidyKeepsSubstrings(FoldLetters(p), FoldLetters(w));
    MapKeepsSubstrings(lower, Trim(Collapse(FoldLetters(p))), Trim(Collapse(FoldLetters(w))));
  }

  /** Nothing but whitespace and diacritics. */
  predicate Faint(s: string) {
    forall i :: 0 <= i < |s| ==> IsSpace(s[i]) || IsDiacritic(s[i])
  }

  /** A text normalises to nothing exactly when it holds only whitespace and diacritics. */
  lemma {:induction false} NormalizesToNothingIff(lower: char -> char, s: string)
    ensures Normalize(lower, s) == [] <==> Faint(s)
  {
    var d := DropDiacritics(s);
    var l, t, r := Core(FoldLetters(d));
    TidyCore(l, t, r);
    FoldLettersIsPerLetter(d);
    if t != [] {
      CollapseFirm(t);
    }
    assert Normalize(lower, s) == [] <==> Blank(FoldLetters(d));
    assert Blank(FoldLetters(d)) <==> Blank(d) by {
      forall i | 0 <= i < |d| ensures IsSpace(FoldLetters(d)[i]) <==> IsSpace(d[i]) {}
      assert forall i :: 0 <= i < |d| ==> (IsSpace(FoldLetters(d)[i]) <==> IsSpace(d[i]));
    }
    DropBlankIff(s);
  }

  lemma {:induction false} FirstAndRest(s: string)
    requires s != []
    ensures Blank(s) <==> IsSpace(s[0]) && Blank(s[1..])
    ensures Faint(s) <==> (IsSpace(s[0]) || IsDiacritic(s[0])) && Faint(s[1..])
  {
    assert s == [s[0]] + s[1..];
  }

  lemma {:induction false} DropBlankIff(s: string)
    ensures Blank(DropDiacritics(s)) <==> Faint(s)
  {
    if s != [] {
      DropBlankIff(s[1..]);
      FirstAndRest(s);
      if !IsDiacritic(s[0]) {
        var d := DropDiacritics(s);
        assert d[1..] == DropDiacritics(s[1..]);
        FirstAndRest(d);
      }
    }
  }

  // ----- what normalisation makes alike ----------------------------------------------------------------------

  /** The marks that are dropped: the eight tashkeel marks and the tatweel. */
  lemma {:induction false} DiacriticsAre(c: char)
    ensures IsDiacritic(c) <==>
      c in "\U{064B}\U{064C}\U{064D}\U{064E}\U{064F}\U{0650}\U{0651}\U{0652}\U{0640}"
  {
  }

  /** The letters that become another: the alef with hamza above, hamza below, madda or wasla, the teh marbuta and the
      alef maksura. */
  lemma {:induction false} LettersAre(c: char)
    ensures c in "\U{0623}\U{0625}\U{0622}\U{0671}" ==> FoldLetter(c) == '\U{0627}'
    ensures c == '\U{0629}' ==> FoldLetter(c) == '\U{0647}'
    ensures c == '\U{0649}' ==> FoldLetter(c) == '\U{064A}'
    ensures c !in "\U{0623}\U{0625}\U{0622}\U{0671}\U{0629}\U{0649}" ==> FoldLetter(c) == c
  {
  }

  /** The words of a text, without the marks, with the letters folded, and in lower case. */
  function PlainWords(lower: char -> char, s: string): seq<string> {
    MapWords(lower, MapWords(FoldLetter, Words(DropDiacritics(s))))
  }

  lemma {:induction false} CollapseTrimIsJoin(s: string)
    ensures Trim(Collapse(s)) == JoinSpace(Words(s))
    decreases |s|
  {
    var l, t, r := Core(s);
    TidyCore(l, t, r);
    WordsOfCore(l, t, r);
    CollapseIsJoin(t);
  }

  lemma {:induction false} NoWords(s: string)
    requires Blank(s)
    ensures Words(s) == []
  {
    if s != [] {
      NoWords(s[1..]);
    }
  }

  lemma {:induction false} WordsOfCore(l: string, t: string, r: string)
    requires Blank(l) && Blank(r)
    ensures Words(l + t + r) == Words(t)
  {
    if l != [] {
      assert (l + t + r)[1..] == l[1..] + t + r;
      WordsOfCore(l[1..], t, r);
    } else if r != [] {
      assert l + t + r == t + r;
      WordsOfConcat(t, r);
      NoWords(r);
    } else {
      assert l + t + r == t;
    }
  }

  /** In a text that starts and ends with a word, one space between the words. */
  lemma {:induction false} CollapseIsJoin(s: string)
    requires s == [] || Firm(s)
    ensures Collapse(s) == JoinSpace(Words(s))
    decreases |s|
  {
    if s != [] {
      var n := WordLength(s);
      WordLengthSpaceFree(s);
      CollapseWord(s[..n]);
      if n == |s| {
        assert s[..n] == s && Words(s) == [s] + Words([]);
      } else {
        var l, t, r := Core(s[n..]);
        LastStays(s, n, l, t, r);
        assert s == s[..n] + l + t;
        CollapseGap(s[..n], l, t);
        WordsOfCore(l, t, []);
        assert l + t + [] == s[n..];
        CollapseIsJoin(t);
        assert ([s[..n]] + Words(t))[1..] == Words(t);
        FirmHasWords(t);
      }
    }
  }

  lemma {:induction false} LastStays(s: string, n: nat, l: string, t: string, r: string)
    requires Firm(s) && n < |s| && IsSpace(s[n]) && s[n..] == l + t + r && Blank(l) && Blank(r) && (t == [] || Firm(t))
    ensures r == [] && Firm(t) && l != []
  {
    var rest := l + t + r;
    assert rest[|rest| - 1] == s[|s| - 1] && rest[0] == s[n];
  }

  lemma {:induction false} FirmHasWords(t: string)
    requires Firm(t)
    ensures Words(t) != []
  {
  }

  lemma {:induction false} CollapseWord(w: string)
    requires SpaceFree(w)
    ensures Collapse(w) == w
  {
    if w != [] {
      CollapseWord(w[1..]);
    }
  }

  lemma {:induction false} CollapseGap(w: string, l: string, t: string)
    requires w != [] && SpaceFree(w) && l != [] && Blank(l) && Firm(t)
    ensures Collapse(w + l + t) == w + " " + Collapse(t)
  {
    CollapseConcat(w + l, t);
    CollapseConcat(w, l);
    CollapseWord(w);
    CollapseBlank(l);
  }

  /** A normal form is its plain words with one space in between, ... */
  lemma {:induction false} NormalFormIs(lower: char -> char, s: string)
    requires KeepsSpaces(lower)
    ensures Normalize(lower, s) == JoinSpace(PlainWords(lower, s))
    ensures AreWords(PlainWords(lower, s))
  {
    var d := DropDiacritics(s);
    FoldLettersIsPerLetter(d);
    WordsOfMapped(FoldLetter, d);
    CollapseTrimIsJoin(FoldLetters(d));
    MapJoin(lower, Words(FoldLetters(d)));
    WordsAreWords(FoldLetters(d));
    MappedWords(lower, Words(FoldLetters(d)));
  }

  lemma {:induction false} MappedWords(f: char -> char, ws: seq<string>)
    requires KeepsSpaces(f) && AreWords(ws)
    ensures AreWords(MapWords(f, ws))
  {
    forall i | 0 <= i < |ws| ensures MapWords(f, ws)[i] != [] && SpaceFree(MapWords(f, ws)[i]) {
      assert ws[i] != [] && SpaceFree(ws[i]);
    }
  }

  lemma {:induction false} WordsOfMapped(f: char -> char, s: string)
    requires KeepsSpaces(f)
    ensures Words(MapChars(f, s)) == MapWords(f, Words(s))
    decreases |s|
  {
    var m := MapChars(f, s);
    if s != [] && IsSpace(s[0]) {
      assert m[1..] == MapChars(f, s[1..]);
      WordsOfMapped(f, s[1..]);
    } else if s != [] {
      var n := WordLength(s);
      WordLengthSpaceFree(s);
      assert m == m[..n] + m[n..] && m[n..] == MapChars(f, s[n..]) && m[..n] == MapChars(f, s[..n]);
      WordLengthOf(m[..n], m[n..]);
      WordsOfMapped(f, s[n..]);
    }
  }

  /** ... so two texts have the same one exactly when they have the same words up to marks, letter variants and case. */
  lemma {:induction false} SameNormalFormIff(lower: char -> char, s: string, t: string)
    requires KeepsSpaces(lower)
    ensures Normalize(lower, s) == Normalize(lower, t) <==> PlainWords(lower, s) == PlainWords(lower, t)
  {
    NormalFormIs(lower, s);
    NormalFormIs(lower, t);
    WordsOfJoin(PlainWords(lower, s));
    WordsOfJoin(PlainWords(lower, t));
  }

  /** Marks are dropped wherever they are, and nothing else is. */
  lemma {:induction false} DropIs(a: string, c: char, b: string)
    ensures DropDiacritics(a + [c] + b)
         == DropDiacritics(a) + (if IsDiacritic(c) then [] else [c]) + DropDiacritics(b)
  {
    DropConcat(a + [c], b);
    DropConcat(a, [c]);
    assert [c][1..] == [] && DropDiacritics([c]) == if IsDiacritic(c) then [] else [c];
  }

  // ----- matching and ranking --------------------------------------------------------------------------------

  predicate Hits(lower: char -> char, fragment: string, candidate: string) {
    fragment != [] && IsSubstring(Normalize(lower, fragment), Normalize(lower, candidate))
  }

  predicate MatchesAny(lower: char -> char, expected: seq<string>, candidate: string) {
    exists e :: e in expected && Hits(lower, e, candidate)
  }

  function Matcher(lower: char -> char, expected: seq<string>): string -> bool {
    (candidate: string) => MatchesAny(lower, expected, candidate)
  }

  /** `rank` is the least matching position, counted from 1, or 0 when nothing matches. */
  ghost predicate IsRank(matches: string -> bool, ranked: seq<string>, rank: nat) {
    && rank <= |ranked|
    && (0 < rank ==> matches(ranked[rank - 1]))
    && forall k :: 0 <= k < (if rank == 0 then |ranked| else rank - 1) ==> !matches(ranked[k])
  }

  /** The early-return search. */
  method FirstMatch(matches: string -> bool, ranked: seq<string>) returns (rank: nat)
    ensures IsRank(matches, ranked, rank)
  {
    for i := 0 to |ranked|
      invariant forall k :: 0 <= k < i ==> !matches(ranked[k])
    {
      if matches(ranked[i]) {
        return i + 1;
      }
    }
    rank := 0;
  }

  /** `_first_hit_rank` */
  method FirstHitRank(lower: char -> char, expected: seq<string>, ranked: seq<string>) returns (rank: nat)
    ensures IsRank(Matcher(lower, expected), ranked, rank)
  {
    rank := FirstMatch(Matcher(lower, expected), ranked);
  }

  function ReciprocalRank(rank: nat): real {
    if rank != 0 then 1.0 / rank as real else 0.0
  }

  /** The reciprocal rank of a match times its rank is one, and without a match it is zero. */
  lemma {:induction false} ReciprocalRankIs(rank: nat)
    ensures if rank == 0 then ReciprocalRank(rank) == 0.0 else ReciprocalRank(rank) * rank as real == 1.0
  {
  }

  /** A result that literally contains an expected fragment is never missed: the rank is at most its position. */
  lemma {:induction false} LiteralMatchBoundsRank(lower: char -> char, expected: seq<string>, ranked: seq<string>,
                                                  rank: nat, e: string, i: nat)
    requires IsRank(Matcher(lower, expected), ranked, rank)
    requires e in expected && e != [] && i < |ranked| && IsSubstring(e, ranked[i])
    ensures 0 < rank <= i + 1
    ensures ReciprocalRank(rank) >= ReciprocalRank(i + 1)
  {
    NormalizeKeepsSubstrings(lower, e, ranked[i]);
    assert Hits(lower, e, ranked[i]);
    assert Matcher(lower, expected)(ranked[i]);
    Reciprocals(rank as real, (i + 1) as real);
  }

  lemma {:induction false} Reciprocals(a: real, b: real)
    requires 0.0 < a <= b
    ensures 1.0 / a >= 1.0 / b
  {
    var x, y := 1.0 / a, 1.0 / b;
    assert x * a == 1.0 && y * b == 1.0 && 0.0 < y;
    if x < y {
      Scale(x, y, a);
      if a < b { Scale(a, b, y); }
    }
  }

  lemma {:induction false} Scale(x: real, y: real, c: real)
    requires x < y && 0.0 < c
    ensures x * c < y * c
  {
  }

  /** More results behind the given ones never change a rank, nor lower a reciprocal rank. */
  lemma {:induction false} AppendingKeepsRank(matches: string -> bool, ranked: seq<string>, more: seq<string>,
                                              rank: nat, rank': nat)
    requires IsRank(matches, ranked, rank) && IsRank(matches, ranked + more, rank')
    ensures 0 < rank ==> rank' == rank
    ensures rank == 0 && 0 < rank' ==> |ranked| < rank'
    ensures ReciprocalRank(rank') >= ReciprocalRank(rank)
  {
    var all := ranked + more;
    assert forall k :: 0 <= k < |ranked| ==> all[k] == ranked[k];
    if 0 < rank {
      assert matches(all[rank - 1]);
      assert 0 < rank' <= rank;
    }
  }

  lemma {:induction false} FaintMatchesEverything(lower: char -> char, expected: seq<string>, e: string,
                                                  candidate: string)
    requires e in expected && e != [] && Faint(e)
    ensures MatchesAny(lower, expected, candidate)
  {
    NormalizesToNothingIff(lower, e);
    var c := Normalize(lower, candidate);
    SubstringOfConcat([], [], c);
    assert [] + [] + c == c;
    assert Hits(lower, e, candidate);
  }

  lemma {:induction false} OnlyFaintMatchesNothing(lower: char -> char, expected: seq<string>) returns (e: string)
    requires MatchesAny(lower, expected, "")
    ensures e in expected && e != [] && Faint(e)
  {
    e :| e in expected && Hits(lower, e, "");
    NormalizesToNothingIff(lower, "");
    var a, b := SubstringSplit(Normalize(lower, e), Normalize(lower, ""));
    NormalizesToNothingIff(lower, e);
  }

  /** An expected list matches every result exactly when it has a non-empty fragment of nothing but whitespace and
      diacritics. */
  lemma {:induction false} MatchesEverythingIff(lower: char -> char, expected: seq<string>)
    ensures (forall candidate :: Matcher(lower, expected)(candidate))
      <==> exists e :: e in expected && e != [] && Faint(e)
  {
    if forall candidate :: Matcher(lower, expected)(candidate) {
      assert Matcher(lower, expected)("");
      var e := OnlyFaintMatchesNothing(lower, expected);
    }
    if exists e :: e in expected && e != [] && Faint(e) {
      var e :| e in expected && e != [] && Faint(e);
      forall candidate ensures Matcher(lower, expected)(candidate) {
        FaintMatchesEverything(lower, expected, e, candidate);
      }
    }
  }
}
