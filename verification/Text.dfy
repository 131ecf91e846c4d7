/** Whitespace handling shared by the cache key and the eval scoring: Python's `str.split`, `" ".join`,
    `str.strip`, a per-character mapping, and substrings. */
module Text {

  /** The characters Python's `str.isspace` accepts, which `str.split`, `str.strip` and `\s` share. */
  predicate IsSpace(c: char) {
    var n := c as int;
    || 0x09 <= n <= 0x0D || 0x1C <= n <= 0x20 || n == 0x85 || n == 0xA0 || n == 0x1680
    || 0x2000 <= n <= 0x200A || n == 0x2028 || n == 0x2029 || n == 0x202F || n == 0x205F || n == 0x3000
  }

  lemma {:induction false} SpacesAre(c: char)
    ensures IsSpace(c) <==>
      c in "\t\n\U{000B}\U{000C}\r\U{001C}\U{001D}\U{001E}\U{001F} \U{0085}\U{00A0}\U{1680}" +
           "\U{2000}\U{2001}\U{2002}\U{2003}\U{2004}\U{2005}\U{2006}\U{2007}\U{2008}\U{2009}\U{200A}" +
           "\U{2028}\U{2029}\U{202F}\U{205F}\U{3000}"
  {
  }

  function MapChars(f: char -> char, s: string): (r: string)
    ensures |r| == |s|
  {
    seq(|s|, i requires 0 <= i < |s| => f(s[i]))
  }

  function TrimLeft(s: string): string {
    if s != [] && IsSpace(s[0]) then TrimLeft(s[1..]) else s
  }

  function TrimRight(s: string): string {
    if s != [] && IsSpace(s[|s| - 1]) then TrimRight(s[..|s| - 1]) else s
  }

  function Trim(s: string): string {
    TrimRight(TrimLeft(s))
  }

  /** The length of the run of non-space characters that starts `s`. */
  function WordLength(s: string): (n: nat)
    ensures n <= |s|
    ensures s != [] && !IsSpace(s[0]) ==> 0 < n
  {
    if s == [] || IsSpace(s[0]) then 0 else 1 + WordLength(s[1..])
  }

  /** `s.split()` */
  function Words(s: string): seq<string> {
    if s == [] then []
    else if IsSpace(s[0]) then Words(s[1..])
    else [s[..WordLength(s)]] + Words(s[WordLength(s)..])
  }

  /** `" ".join(ws)` */
  function JoinSpace(ws: seq<string>): string {
    if ws == [] then "" else if |ws| == 1 then ws[0] else ws[0] + " " + JoinSpace(ws[1..])
  }

  predicate SpaceFree(s: string) {
    forall i :: 0 <= i < |s| ==> !IsSpace(s[i])
  }

  predicate AreWords(ws: seq<string>) {
    forall i :: 0 <= i < |ws| ==> ws[i] != [] && SpaceFree(ws[i])
  }

  lemma {:induction false} WordLengthSpaceFree(s: string)
    ensures SpaceFree(s[..WordLength(s)])
    ensures WordLength(s) < |s| ==> IsSpace(s[WordLength(s)])
  {
    if s != [] && !IsSpace(s[0]) {
      WordLengthSpaceFree(s[1..]);
      assert s[..WordLength(s)] == [s[0]] + s[1..][..WordLength(s[1..])];
    }
  }

  lemma {:induction false} WordsAreWords(s: string)
    ensures AreWords(Words(s))
  {
    if s != [] {
      if IsSpace(s[0]) {
        WordsAreWords(s[1..]);
      } else {
        WordLengthSpaceFree(s);
        WordsAreWords(s[WordLength(s)..]);
      }
    }
  }

  lemma {:induction false} WordLengthOf(w: string, rest: string)
    requires SpaceFree(w) && (rest == [] || IsSpace(rest[0]))
    ensures WordLength(w + rest) == |w|
  {
    if w != [] {
      assert (w + rest)[1..] == w[1..] + rest;
      WordLengthOf(w[1..], rest);
    }
  }

  /** Splitting undoes joining. */
  lemma {:induction false} WordsOfJoin(ws: seq<string>)
    requires AreWords(ws)
    ensures Words(JoinSpace(ws)) == ws
  {
    if ws != [] {
      var w := ws[0];
      var rest := if |ws| == 1 then "" else " " + JoinSpace(ws[1..]);
      assert JoinSpace(ws) == w + rest;
      WordLengthOf(w, rest);
      assert (w + rest)[..|w|] == w && (w + rest)[|w|..] == rest;
      WordsOfJoin(ws[1..]);
      if |ws| > 1 {
        assert rest[1..] == JoinSpace(ws[1..]);
      }
    }
  }

  lemma {:induction false} JoinEnds(ws: seq<string>)
    requires AreWords(ws) && ws != []
    ensures var s := JoinSpace(ws); s != [] && !IsSpace(s[0]) && !IsSpace(s[|s| - 1])
  {
    if |ws| > 1 {
      JoinEnds(ws[1..]);
    }
  }

  lemma TrimJoin(ws: seq<string>)
    requires AreWords(ws)
    ensures Trim(JoinSpace(ws)) == JoinSpace(ws)
  {
    if ws != [] {
      JoinEnds(ws);
    }
  }

  /** A case mapping that never turns a space into something else or the other way round. */
  ghost predicate KeepsSpaces(f: char -> char) {
    f(' ') == ' ' && forall c :: IsSpace(f(c)) <==> IsSpace(c)
  }

  function MapWords(f: char -> char, ws: seq<string>): (r: seq<string>)
    ensures |r| == |ws|
  {
    seq(|ws|, i requires 0 <= i < |ws| => MapChars(f, ws[i]))
  }

  lemma {:induction false} MapJoin(f: char -> char, ws: seq<string>)
    requires KeepsSpaces(f)
    ensures MapChars(f, JoinSpace(ws)) == JoinSpace(MapWords(f, ws))
  {
    if |ws| > 1 {
      MapJoin(f, ws[1..]);
      assert MapWords(f, ws)[1..] == MapWords(f, ws[1..]);
    }
  }

  lemma {:induction false} WordThen(w: string, rest: string)
    requires w != [] && SpaceFree(w) && (rest == [] || IsSpace(rest[0]))
    ensures Words(w + rest) == [w] + Words(rest)
  {
    WordLengthOf(w, rest);
    assert (w + rest)[..|w|] == w && (w + rest)[|w|..] == rest;
  }

  lemma {:induction false} FirstWord(s: string) returns (w: string, rest: string)
    requires s != [] && !IsSpace(s[0])
    ensures s == w + rest && w != [] && SpaceFree(w) && (rest == [] || IsSpace(rest[0]))
  {
    WordLengthSpaceFree(s);
    w, rest := s[..WordLength(s)], s[WordLength(s)..];
  }

  /** Whitespace separates words: with the words of a single word this says what all words of a text are. */
  lemma {:induction false} WordsOfConcat(a: string, b: string)
    requires b == [] || IsSpace(b[0])
    ensures Words(a + b) == Words(a) + Words(b)
    decreases |a|
  {
    if a == [] {
      assert a + b == b;
    } else if IsSpace(a[0]) {
      assert (a + b)[1..] == a[1..] + b;
      WordsOfConcat(a[1..], b);
    } else {
      var w, rest := FirstWord(a);
      WordsOfConcat(rest, b);
      OneMoreWord(w, rest, b);
    }
  }

  lemma {:induction false} OneMoreWord(w: string, rest: string, b: string)
    requires w != [] && SpaceFree(w) && (rest == [] || IsSpace(rest[0])) && (b == [] || IsSpace(b[0]))
    requires Words(rest + b) == Words(rest) + Words(b)
    ensures Words((w + rest) + b) == Words(w + rest) + Words(b)
  {
    WordThen(w, rest);
    WordThen(w, rest + b);
    Regroup(w, rest, b);
    Regroup([w], Words(rest), Words(b));
  }

  lemma {:induction false} Regroup<T>(a: seq<T>, b: seq<T>, c: seq<T>)
    ensures a + (b + c) == (a + b) + c
  {
  }

  /** What is between the separators, empty pieces included. */
  function SplitOn(sep: char, s: string): (pieces: seq<string>)
    ensures pieces != []
  {
    if s == [] then [""]
    else
      var rest := SplitOn(sep, s[1..]);
      if s[0] == sep then [""] + rest else [[s[0]] + rest[0]] + rest[1..]
  }

  lemma {:induction false} SplitOnNone(sep: char, s: string)
    requires sep !in s
    ensures SplitOn(sep, s) == [s]
  {
    if s != [] {
      SplitOnNone(sep, s[1..]);
      assert [s[0]] + s[1..] == s;
    }
  }

  lemma {:induction false} SplitOnConcat(sep: char, a: string, b: string)
    ensures SplitOn(sep, a + [sep] + b) == SplitOn(sep, a) + SplitOn(sep, b)
  {
    var s := a + [sep] + b;
    if a == [] {
      assert s == [sep] + b && s[1..] == b;
    } else {
      assert s[1..] == a[1..] + [sep] + b;
      SplitOnConcat(sep, a[1..], b);
    }
  }

  // ----- substrings ------------------------------------------------------------------------------------------

  /** `part in whole` */
  predicate IsSubstring(part: string, whole: string) {
    exists i :: 0 <= i <= |whole| && part <= whole[i..]
  }

  lemma SubstringOfConcat(a: string, part: string, b: string)
    ensures IsSubstring(part, a + part + b)
  {
    assert (a + part + b)[|a|..] == part + b;
  }

  lemma SubstringSplit(part: string, whole: string) returns (a: string, b: string)
    requires IsSubstring(part, whole)
    ensures whole == a + part + b
  {
    var i :| 0 <= i <= |whole| && part <= whole[i..];
    a, b := whole[..i], whole[i..][|part|..];
  }
}
