/** Route discovery in the API documentation generator (scripts/generate-watheeq-api-docs.py): brace matching,
    the blocks around a route, and the joined path.  Regular-expression matches are taken as given. */
module RouteBlocks {
  import opened Ordering
  import opened Text

  // ----- joining path segments -------------------------------------------------------------------------------

  function StripLeft(s: string): string {
    if s != [] && s[0] == '/' then StripLeft(s[1..]) else s
  }

  function StripRight(s: string): string {
    if s != [] && s[|s| - 1] == '/' then StripRight(s[..|s| - 1]) else s
  }

  /** `s.strip("/")` */
  function Strip(s: string): string {
    StripRight(StripLeft(s))
  }

  /** The segments that are not all slashes, stripped. */
  function Parts(segments: seq<string>): seq<string> {
    if segments == [] then []
    else (if Strip(segments[0]) != [] then [Strip(segments[0])] else []) + Parts(segments[1..])
  }

  function JoinSlash(parts: seq<string>): string {
    if parts == [] then "" else if |parts| == 1 then parts[0] else parts[0] + "/" + JoinSlash(parts[1..])
  }

  function JoinRoute(segments: seq<string>): string {
    "/" + JoinSlash(Parts(segments))
  }

  /** Starts and ends with something other than a slash. */
  predicate Bare(s: string) {
    s != [] && s[0] != '/' && s[|s| - 1] != '/'
  }

  lemma {:induction false} StripRightKeeps(s: string)
    requires s != [] && s[0] != '/'
    ensures Bare(StripRight(s))
  {
    if s[|s| - 1] == '/' {
      StripRightKeeps(s[..|s| - 1]);
    }
  }

  lemma {:induction false} StripBare(s: string)
    ensures Strip(s) == [] || Bare(Strip(s))
    ensures Bare(s) ==> Strip(s) == s && Strip("/" + s) == s
  {
    if s != [] && s[0] == '/' {
      StripBare(s[1..]);
    } else if s != [] {
      StripRightKeeps(s);
      assert ("/" + s)[1..] == s;
    }
  }

  lemma {:induction false} PartsConcat(a: seq<string>, b: seq<string>)
    ensures Parts(a + b) == Parts(a) + Parts(b)
  {
    if a == [] {
      assert a + b == b;
    } else {
      assert (a + b)[1..] == a[1..] + b;
      PartsConcat(a[1..], b);
    }
  }

  lemma {:induction false} JoinSlashBare(parts: seq<string>)
    requires parts != [] && forall i :: 0 <= i < |parts| ==> Bare(parts[i])
    ensures Bare(JoinSlash(parts))
  {
    if |parts| > 1 {
      JoinSlashBare(parts[1..]);
    }
  }

  lemma {:induction false} PartsAreBare(segments: seq<string>)
    ensures forall i :: 0 <= i < |Parts(segments)| ==> Bare(Parts(segments)[i])
  {
    if segments != [] {
      StripBare(segments[0]);
      PartsAreBare(segments[1..]);
    }
  }

  lemma {:induction false} JoinSlashNested(a: seq<string>, p: seq<string>)
    requires p != []
    ensures JoinSlash(a + [JoinSlash(p)]) == JoinSlash(a + p)
  {
    if a == [] {
      assert a + [JoinSlash(p)] == [JoinSlash(p)] && a + p == p;
    } else {
      assert (a + [JoinSlash(p)])[1..] == a[1..] + [JoinSlash(p)] && (a + p)[1..] == a[1..] + p;
      JoinSlashNested(a[1..], p);
    }
  }

  /** Joining is associative: joining an already joined tail is joining all the segments at once. */
  lemma JoinRouteFlattens(xs: seq<string>, ys: seq<string>)
    ensures JoinRoute(xs + [JoinRoute(ys)]) == JoinRoute(xs + ys)
  {
    var tail, p := JoinRoute(ys), Parts(ys);
    PartsConcat(xs, [tail]);
    PartsConcat(xs, ys);
    assert [tail][1..] == [];
    if p == [] {
      assert tail == "/" && "/"[1..] == "";
      assert Parts([tail]) == [];
    } else {
      PartsAreBare(ys);
      JoinSlashBare(p);
      StripBare(JoinSlash(p));
      assert Parts([tail]) == [JoinSlash(p)];
      JoinSlashNested(Parts(xs), p);
    }
  }

  // ----- what joining yields ---------------------------------------------------------------------------------

  predicate Slashes(s: string) {
    forall i :: 0 <= i < |s| ==> s[i] == '/'
  }

  lemma {:induction false} StripAround(s: string, a: string, t: string)
    requires Slashes(s) && Bare(a) && Slashes(t)
    ensures Strip(s + a + t) == a
  {
    var all := s + a + t;
    if s != [] {
      assert all[1..] == s[1..] + a + t;
      StripAround(s[1..], a, t);
    } else if t != [] {
      assert all[..|all| - 1] == s + a + t[..|t| - 1];
      StripAround(s, a, t[..|t| - 1]);
    } else {
      assert all == a;
    }
  }

  lemma {:induction false} StripSlashes(s: string)
    requires Slashes(s)
    ensures Strip(s) == []
  {
    if s != [] {
      StripSlashes(s[1..]);
    }
  }

  /** Joining, one segment at a time: of nothing it is "/", segments of slashes alone do not count, and any other one
      contributes "/" and what is between its first and its last character other than a slash, ahead of the rest. */
  lemma {:induction false} JoinRouteIs(s: string, a: string, t: string, rest: seq<string>)
    requires Slashes(s) && Bare(a) && Slashes(t)
    ensures JoinRoute([]) == "/" && JoinRoute([s] + rest) == JoinRoute(rest)
    ensures JoinRoute([s + a + t] + rest) == "/" + a + if JoinRoute(rest) == "/" then "" else JoinRoute(rest)
  {
    StripSlashes(s);
    StripAround(s, a, t);
    var parts := Parts(rest);
    assert ([s] + rest)[1..] == rest && ([s + a + t] + rest)[1..] == rest;
    assert [] + parts == parts && ([a] + parts)[1..] == parts;
    if parts != [] {
      PartsAreBare(rest);
      JoinSlashBare(parts);
    }
  }

  function NonEmpty(pieces: seq<string>): seq<string> {
    if pieces == [] then []
    else (if pieces[0] != [] then [pieces[0]] else []) + NonEmpty(pieces[1..])
  }

  /** The path's pieces between slashes. */
  function Pieces(path: string): seq<string> {
    NonEmpty(SplitOn('/', path))
  }

  function AllPieces(paths: seq<string>): seq<string> {
    if paths == [] then [] else Pieces(paths[0]) + AllPieces(paths[1..])
  }

  lemma {:induction false} NonEmptyConcat(a: seq<string>, b: seq<string>)
    ensures NonEmpty(a + b) == NonEmpty(a) + NonEmpty(b)
  {
    if a == [] {
      assert a + b == b;
    } else {
      assert (a + b)[1..] == a[1..] + b;
      NonEmptyConcat(a[1..], b);
    }
  }

  lemma {:induction false} PiecesConcat(a: string, b: string)
    ensures Pieces(a + "/" + b) == Pieces(a) + Pieces(b)
  {
    SplitOnConcat('/', a, b);
    NonEmptyConcat(SplitOn('/', a), SplitOn('/', b));
  }

  lemma {:induction false} NoPieces()
    ensures Pieces("") == []
  {
    assert SplitOn('/', "")[1..] == [];
  }

  lemma {:induction false} PiecesOfStripped(s: string)
    ensures Pieces(Strip(s)) == Pieces(s)
  {
    NoPieces();
    if s != [] && s[0] == '/' {
      PiecesConcat("", s[1..]);
      assert s == "" + "/" + s[1..];
      PiecesOfStripped(s[1..]);
    } else if s != [] && s[|s| - 1] == '/' {
      PiecesConcat(s[..|s| - 1], "");
      assert s == s[..|s| - 1] + "/" + "";
      PiecesOfStripped(s[..|s| - 1]);
    }
  }

  lemma {:induction false} PiecesOfParts(segments: seq<string>)
    ensures Pieces(JoinSlash(Parts(segments))) == AllPieces(segments)
  {
    NoPieces();
    if segments != [] {
      var first, rest := Strip(segments[0]), Parts(segments[1..]);
      PiecesOfParts(segments[1..]);
      PiecesOfStripped(segments[0]);
      if first != [] && rest != [] {
        PiecesConcat(first, JoinSlash(rest));
        assert ([first] + rest)[1..] == rest;
      } else if first != [] {
        assert [first] + [] == [first];
      } else {
        assert [] + rest == rest;
      }
    }
  }

  /** Split at slashes, the joined route is the pieces of its segments, in their order. */
  lemma {:induction false} JoinRoutePieces(segments: seq<string>)
    ensures Pieces(JoinRoute(segments)) == AllPieces(segments)
  {
    NoPieces();
    PiecesOfParts(segments);
    PiecesConcat("", JoinSlash(Parts(segments)));
    assert JoinRoute(segments) == "" + "/" + JoinSlash(Parts(segments));
  }

  // ----- brace matching --------------------------------------------------------------------------------------

  /** Opening minus closing braces in source[lo..hi]. */
  function Net(source: string, lo: nat, hi: nat): int
    requires lo <= hi <= |source|
  {
    if lo == hi then 0
    else Net(source, lo, hi - 1) + (if source[hi - 1] == '{' then 1 else if source[hi - 1] == '}' then -1 else 0)
  }

  lemma {:induction false} NetSplit(source: string, lo: nat, mid: nat, hi: nat)
    requires lo <= mid <= hi <= |source|
    ensures Net(source, lo, hi) == Net(source, lo, mid) + Net(source, mid, hi)
  {
    if mid < hi {
      NetSplit(source, lo, mid, hi - 1);
    }
  }

  /** `close` is the first place where the braces opened from `open` on are balanced again. */
  ghost predicate Closes(source: string, open: nat, close: nat) {
    && open < close < |source|
    && source[open] == '{'
    && Net(source, open, close + 1) == 0
    && forall k :: open < k <= close ==> Net(source, open, k) > 0
  }

  lemma CloseIsUnique(source: string, open: nat, c: nat, d: nat)
    requires Closes(source, open, c) && Closes(source, open, d)
    ensures c == d
  {
  }

  /** A block is closed exactly when the braces from its opening one on balance out somewhere. */
  lemma ClosedIff(source: string, open: nat)
    requires open < |source| && source[open] == '{'
    ensures (exists c: nat :: Closes(source, open, c))
      <==> exists k :: open < k <= |source| && Net(source, open, k) <= 0
  {
    if exists c: nat :: Closes(source, open, c) {
      var c: nat :| Closes(source, open, c);
      assert Net(source, open, c + 1) <= 0;
    }
    if k :| open < k <= |source| && Net(source, open, k) <= 0 {
      var c := FirstBalance(source, open, k);
    }
  }

  /** The depth moves by at most one, so it cannot pass below zero without being zero. */
  lemma FirstBalance(source: string, open: nat, k: nat) returns (c: nat)
    requires open < k <= |source| && source[open] == '{' && Net(source, open, k) <= 0
    ensures Closes(source, open, c)
  {
    c := open;
    assert Net(source, open, open) == 0;
    while Net(source, open, c + 1) > 0
      invariant open <= c < k
      invariant forall j :: open < j <= c ==> Net(source, open, j) > 0
      decreases k - c
    {
      c := c + 1;
    }
  }

  /** Two blocks either do not meet or one lies within the other. */
  lemma ClosedBlocksNest(source: string, o1: nat, c1: nat, o2: nat, c2: nat)
    requires Closes(source, o1, c1) && Closes(source, o2, c2) && o1 < o2
    ensures c1 < o2 || c2 < c1
  {
    if o2 <= c1 {
      NetSplit(source, o1, o2, c1 + 1);
    }
  }

  // ----- the intervals ---------------------------------------------------------------------------------------

  /** A match of the route-block expression: where it lies and the path it captured. */
  datatype Match = Match(start: nat, end: nat, path: string)

  datatype Interval = Interval(start: nat, end: nat, prefix: string)

  /** Successive matches do not overlap. */
  ghost predicate Scanned(source: string, matches: seq<Match>) {
    && (forall i :: 0 <= i < |matches| ==> matches[i].start < matches[i].end <= |source|)
    && (forall i, j :: 0 <= i < j < |matches| ==> matches[i].end <= matches[j].start)
  }

  /** `open` is the first opening brace of the match. */
  ghost predicate Opens(source: string, m: Match, open: nat) {
    && m.start <= open < m.end <= |source| && source[open] == '{'
    && forall k :: m.start <= k < open ==> source[k] != '{'
  }

  /** The interval a match gives rise to, if its first brace is ever closed. */
  ghost predicate Covers(source: string, m: Match, b: Interval) {
    Opens(source, m, b.start) && Closes(source, b.start, b.end) && b.prefix == m.path
  }

  ghost predicate Ascending(blocks: seq<Interval>) {
    forall i, j :: 0 <= i < j < |blocks| ==> blocks[i].start < blocks[j].start
  }

  /** The intervals of the matches that have one, in source order. */
  ghost predicate AreBlocks(source: string, matches: seq<Match>, blocks: seq<Interval>) {
    && Ascending(blocks)
    && (forall b :: b in blocks ==> exists m :: m in matches && Covers(source, m, b))
    && (forall m, b :: m in matches && Covers(source, m, b) ==> b in blocks)
  }

  lemma {:induction false} AscendingSnoc(blocks: seq<Interval>, last: Interval)
    requires Ascending(blocks) && forall b :: b in blocks ==> b.start < last.start
    ensures Ascending(blocks + [last])
  {
  }

  /** A match without an interval adds none. */
  lemma {:induction false} NoBlockAdded(source: string, matches: seq<Match>, m: Match, blocks: seq<Interval>)
    requires AreBlocks(source, matches, blocks) && forall b :: !Covers(source, m, b)
    ensures AreBlocks(source, matches + [m], blocks)
  {
    forall b | b in blocks ensures exists x :: x in matches + [m] && Covers(source, x, b) {
      var x :| x in matches && Covers(source, x, b);
      assert x in matches + [m];
    }
  }

  /** One with an interval, which is its only one, adds that. */
  lemma {:induction false} BlockAdded(source: string, matches: seq<Match>, m: Match, blocks: seq<Interval>,
                                      last: Interval)
    requires AreBlocks(source, matches, blocks) && Covers(source, m, last)
    requires forall b :: b in blocks ==> b.start < m.start
    ensures AreBlocks(source, matches + [m], blocks + [last])
  {
    AscendingSnoc(blocks, last);
    forall b | b in blocks + [last] ensures exists x :: x in matches + [m] && Covers(source, x, b) {
      if b in blocks {
        var x :| x in matches && Covers(source, x, b);
        assert x in matches + [m];
      } else {
        assert m in matches + [m];
      }
    }
    forall x, b | x in matches + [m] && Covers(source, x, b) ensures b in blocks + [last] {
      if x in matches {
        assert b in blocks;
      } else {
        CloseIsUnique(source, last.start, last.end, b.end);
      }
    }
  }

  method RouteBlockIntervals(source: string, matches: seq<Match>) returns (intervals: seq<Interval>)
    requires Scanned(source, matches)
    ensures AreBlocks(source, matches, intervals)
  {
    intervals := [];
    for i := 0 to |matches|
      invariant AreBlocks(source, matches[..i], intervals)
      invariant forall b, k :: b in intervals && i <= k < |matches| ==> b.start < matches[k].start
    {
      var m := matches[i];
      assert matches[..i + 1] == matches[..i] + [m];
      var opening := FirstBrace(source, m);
      if opening == m.end {
        NoBlockAdded(source, matches[..i], m, intervals);
        continue;
      }
      var closed, index := MatchingBrace(source, opening);
      if closed {
        BlockAdded(source, matches[..i], m, intervals, Interval(opening, index, m.path));
        intervals := intervals + [Interval(opening, index, m.path)];
      } else {
        assert forall b :: Covers(source, m, b) ==> b.start == opening;
        NoBlockAdded(source, matches[..i], m, intervals);
      }
    }
    assert matches[..|matches|] == matches;
  }

  /** `source.find("{", m.start, m.end)`, with `m.end` for "none". */
  method FirstBrace(source: string, m: Match) returns (opening: nat)
    requires m.start < m.end <= |source|
    ensures m.start <= opening <= m.end
    ensures forall k :: m.start <= k < opening ==> source[k] != '{'
    ensures opening < m.end ==> Opens(source, m, opening)
  {
    opening := m.start;
    while opening < m.end && source[opening] != '{'
      invariant m.start <= opening <= m.end
      invariant forall k :: m.start <= k < opening ==> source[k] != '{'
    {
      opening := opening + 1;
    }
  }

  /** The depth-counting scan from an opening brace. */
  method MatchingBrace(source: string, opening: nat) returns (closed: bool, index: nat)
    requires opening < |source| && source[opening] == '{'
    ensures closed ==> Closes(source, opening, index)
    ensures !closed ==> forall c: nat :: !Closes(source, opening, c)
  {
    var depth := 0;
    index := opening;
    while index < |source|
      invariant opening <= index <= |source|
      invariant depth == Net(source, opening, index)
      invariant forall k :: opening < k <= index ==> Net(source, opening, k) > 0
    {
      if source[index] == '{' {
        depth := depth + 1;
      } else if source[index] == '}' {
        depth := depth - 1;
        if depth == 0 {
          return true, index;
        }
      }
      index := index + 1;
    }
    closed := false;
    forall c: nat ensures !Closes(source, opening, c) {
      assert opening < c < |source| ==> Net(source, opening, c + 1) > 0;
    }
  }

  predicate Inside(inner: Interval, outer: Interval) {
    outer.start < inner.start && inner.end < outer.end
  }

  /** The blocks of any source form a laminar family: two of them are nested or disjoint. */
  lemma BlocksAreLaminar(source: string, matches: seq<Match>, blocks: seq<Interval>, i: nat, j: nat)
    requires AreBlocks(source, matches, blocks) && i < j < |blocks|
    ensures blocks[i].end < blocks[j].start || Inside(blocks[j], blocks[i])
  {
    var a, b := blocks[i], blocks[j];
    assert a in blocks && b in blocks;
    ClosedBlocksNest(source, a.start, a.end, b.start, b.end);
  }

  /** The handler's body lies between the brace that ends the match and `close`.  The block is that body exactly when
      the match has no brace before, in particular none in the path. */
  lemma {:induction false} BlockIsBodyIff(source: string, m: Match, b: Interval, close: nat)
    requires 0 < m.end && Covers(source, m, b) && Closes(source, m.end - 1, close)
    ensures b.start == m.end - 1 && b.end == close <==> forall k :: m.start <= k < m.end - 1 ==> source[k] != '{'
  {
    if b.start == m.end - 1 {
      CloseIsUnique(source, b.start, b.end, close);
    }
  }

  /** When braces are balanced within the match, as by a path parameter, no route of the handler is in the block. */
  lemma {:induction false} ParameterHidesBody(source: string, m: Match, b: Interval, k: nat, route: nat)
    requires Covers(source, m, b) && b.start < k < m.end && Net(source, b.start, k) <= 0
    requires m.end <= route
    ensures !(b.start < route < b.end)
  {
    assert !(b.start < k <= b.end);
  }

  /** When they are not, a route of the handler is in the block, even one that ends elsewhere than the handler. */
  lemma {:induction false} RouteInBodyIff(source: string, m: Match, b: Interval, close: nat, route: nat)
    requires 0 < m.end && Covers(source, m, b) && Closes(source, m.end - 1, close) && m.end - 1 < route < close
    ensures b.start < route < b.end <==> forall k :: b.start < k < m.end ==> Net(source, b.start, k) > 0
  {
    if b.start == m.end - 1 {
      CloseIsUnique(source, b.start, b.end, close);
    } else {
      assert b.start < m.end - 1;
      if forall k :: b.start < k < m.end ==> Net(source, b.start, k) > 0 {
        assert Net(source, b.start, m.end - 1) > 0;
        assert b.end != m.end - 1;
        ClosedBlocksNest(source, b.start, b.end, m.end - 1, close);
      } else {
        var k :| b.start < k < m.end && !(Net(source, b.start, k) > 0);
        ParameterHidesBody(source, m, b, k, route);
      }
    }
  }

  /** A route in the handler's body is found inside an interval of the match, and so gets its prefix, exactly when the
      braces from the match's first one on are not balanced again within the match but are somewhere. */
  lemma {:induction false} RouteInBlockIff(source: string, m: Match, open: nat, close: nat, route: nat)
    requires 0 < m.end && Opens(source, m, open) && Closes(source, m.end - 1, close) && m.end - 1 < route < close
    ensures (exists b :: Covers(source, m, b) && b.start < route < b.end)
      <==> && (forall k :: open < k < m.end ==> Net(source, open, k) > 0)
           && exists k :: open < k <= |source| && Net(source, open, k) <= 0
  {
    ClosedIff(source, open);
    if c: nat :| Closes(source, open, c) {
      var b := Interval(open, c, m.path);
      assert Covers(source, m, b);
      RouteInBodyIff(source, m, b, close, route);
      forall b' | Covers(source, m, b') ensures b' == b {
        CloseIsUnique(source, open, c, b'.end);
      }
    }
  }

  ghost predicate NoBraces(source: string, lo: nat, hi: nat) {
    forall k :: lo <= k < hi && k < |source| ==> source[k] != '{' && source[k] != '}'
  }

  lemma {:induction false} NetSkips(source: string, lo: nat, mid: nat, hi: nat)
    requires lo <= mid <= hi <= |source| && NoBraces(source, mid, hi)
    ensures Net(source, lo, hi) == Net(source, lo, mid)
  {
    if mid < hi {
      NetSkips(source, lo, mid, hi - 1);
    }
  }

  /** A closing brace closes an opening one when there is none in between. */
  lemma {:induction false} ClosesNext(source: string, open: nat, close: nat)
    requires open < close < |source| && source[open] == '{' && source[close] == '}'
    requires NoBraces(source, open + 1, close)
    ensures Closes(source, open, close)
  {
    assert Net(source, open, open) == 0 && Net(source, open, open + 1) == 1;
    forall k | open < k <= close ensures Net(source, open, k) == 1 {
      NetSkips(source, open, open + 1, k);
    }
  }

  /** The braces of a source, given where they are. */
  ghost predicate BracesAt(source: string, opens: set<nat>, closes: set<nat>) {
    forall k: nat :: k < |source| ==> (source[k] == '{' <==> k in opens) && (source[k] == '}' <==> k in closes)
  }

  const PARAMETER := "r.Route(\"/{p}\",func(){r.Get(\"/x\",h)})"

  lemma {:induction false} ParameterBraces(k: nat)
    requires k < 37
    ensures |PARAMETER| == 37
    ensures PARAMETER[k] == '{' <==> k == 10 || k == 21
    ensures PARAMETER[k] == '}' <==> k == 12 || k == 35
  {
  }

  lemma {:induction false} ParameterFirst(source: string)
    requires |source| == 37 && BracesAt(source, {10, 21}, {12, 35})
    ensures Covers(source, Match(0, 22, "/{p}"), Interval(10, 12, "/{p}")) && Closes(source, 21, 35)
    ensures forall b :: Covers(source, Match(0, 22, "/{p}"), b) ==> b == Interval(10, 12, "/{p}")
  {
    ClosesNext(source, 10, 12);
    ClosesNext(source, 21, 35);
    forall b | Covers(source, Match(0, 22, "/{p}"), b) ensures b == Interval(10, 12, "/{p}") {
      CloseIsUnique(source, 10, b.end, 12);
    }
  }

  /** The block is a path parameter, and the route at 23 in the handler, which ends at 35, is in none. */
  lemma {:induction false} ParameterExample()
    ensures var m := Match(0, 22, "/{p}");
      && Covers(PARAMETER, m, Interval(10, 12, "/{p}")) && Closes(PARAMETER, m.end - 1, 35)
      && !exists b :: Covers(PARAMETER, m, b) && b.start < 23 < b.end
  {
    ParameterBraces(0);
    assert BracesAt(PARAMETER, {10, 21}, {12, 35}) by {
      forall k: nat | k < 37
        ensures (PARAMETER[k] == '{' <==> k == 10 || k == 21) && (PARAMETER[k] == '}' <==> k == 12 || k == 35)
      {
        ParameterBraces(k);
      }
    }
    ParameterFirst(PARAMETER);
  }

  const UNBALANCED := "r.Route(\"/{p\",func(){r.Get(\"/x\",h)})"

  lemma {:induction false} UnbalancedBraces(k: nat)
    requires k < 36
    ensures |UNBALANCED| == 36
    ensures UNBALANCED[k] == '{' <==> k == 10 || k == 20
    ensures UNBALANCED[k] == '}' <==> k == 34
  {
  }

  lemma {:induction false} NeverBalanced(source: string, k: nat)
    requires |source| == 36 && BracesAt(source, {10, 20}, {34}) && 10 < k <= 36
    ensures Net(source, 10, k) > 0
  {
    assert Net(source, 10, 10) == 0 && Net(source, 10, 11) == 1;
    NetSkips(source, 10, 11, if k < 20 then k else 20);
    if k > 20 {
      assert Net(source, 10, 21) == 2;
      NetSkips(source, 10, 21, if k < 34 then k else 34);
      if k > 34 {
        assert Net(source, 10, 35) == 1;
        NetSkips(source, 10, 35, k);
      }
    }
  }

  lemma {:induction false} NothingCovers(source: string, m: Match)
    requires |source| == 36 && BracesAt(source, {10, 20}, {34}) && m.start == 0 && m.end == 21
    ensures Opens(source, m, 10) && Closes(source, 20, 34) && forall b :: !Covers(source, m, b)
  {
    ClosesNext(source, 20, 34);
    forall b ensures !Covers(source, m, b) {
      if Covers(source, m, b) {
        NeverBalanced(source, b.end + 1);
      }
    }
  }

  /** A brace in the path that nothing closes leaves the match without an interval. */
  lemma {:induction false} UnbalancedExample()
    ensures var m := Match(0, 21, "/{p");
      Opens(UNBALANCED, m, 10) && Closes(UNBALANCED, m.end - 1, 34) && forall b :: !Covers(UNBALANCED, m, b)
  {
    UnbalancedBraces(0);
    assert BracesAt(UNBALANCED, {10, 20}, {34}) by {
      forall k: nat | k < 36
        ensures (UNBALANCED[k] == '{' <==> k == 10 || k == 20) && (UNBALANCED[k] == '}' <==> k == 34)
      {
        UnbalancedBraces(k);
      }
    }
    NothingCovers(UNBALANCED, Match(0, 21, "/{p"));
  }

  // ----- the path of a route ---------------------------------------------------------------------------------

  datatype Route = Route(start: nat, path: string)

  /** The blocks around a position. */
  function Enclosing(blocks: seq<Interval>, pos: nat): seq<Interval> {
    if blocks == [] then []
    else
      var rest, b := blocks[..|blocks| - 1], blocks[|blocks| - 1];
      if b.start < pos < b.end then Enclosing(rest, pos) + [b] else Enclosing(rest, pos)
  }

  lemma {:induction false} EnclosingMember(blocks: seq<Interval>, pos: nat, b: Interval)
    ensures b in Enclosing(blocks, pos) <==> b in blocks && b.start < pos < b.end
  {
    if blocks != [] {
      var rest, last := blocks[..|blocks| - 1], blocks[|blocks| - 1];
      EnclosingMember(rest, pos, b);
      assert b in blocks <==> b in rest || b == last;
    }
  }

  lemma {:induction false} EnclosingAscends(blocks: seq<Interval>, pos: nat)
    requires Ascending(blocks)
    ensures Ascending(Enclosing(blocks, pos))
  {
    if blocks != [] {
      var rest, last := blocks[..|blocks| - 1], blocks[|blocks| - 1];
      EnclosingAscends(rest, pos);
      forall b | b in Enclosing(rest, pos) ensures b.start < last.start {
        EnclosingMember(rest, pos, b);
      }
      AscendingSnoc(Enclosing(rest, pos), last);
    }
  }

  lemma {:induction false} EnclosingIs(blocks: seq<Interval>, pos: nat)
    requires Ascending(blocks)
    ensures forall b :: b in Enclosing(blocks, pos) <==> b in blocks && b.start < pos < b.end
    ensures Ascending(Enclosing(blocks, pos))
  {
    forall b ensures b in Enclosing(blocks, pos) <==> b in blocks && b.start < pos < b.end {
      EnclosingMember(blocks, pos, b);
    }
    EnclosingAscends(blocks, pos);
  }

  /** The blocks around a position form a chain, outermost first. */
  lemma EnclosingIsChain(source: string, matches: seq<Match>, blocks: seq<Interval>, pos: nat)
    requires AreBlocks(source, matches, blocks)
    ensures var chain := Enclosing(blocks, pos);
      && (forall b :: b in chain <==> b in blocks && b.start < pos < b.end)
      && (forall i, j :: 0 <= i < j < |chain| ==> Inside(chain[j], chain[i]))
  {
    EnclosingIs(blocks, pos);
    var chain := Enclosing(blocks, pos);
    forall i, j | 0 <= i < j < |chain| ensures Inside(chain[j], chain[i]) {
      var a, b := chain[i], chain[j];
      ClosedBlocksNest(source, a.start, a.end, b.start, b.end);
    }
  }

  /** A router mounted inside the routers of a chain of blocks: each one adds its prefix to what it contains. */
  function Mount(chain: seq<Interval>, path: string): string {
    if chain == [] then path else JoinRoute([chain[0].prefix, Mount(chain[1..], path)])
  }

  function Prefixes(chain: seq<Interval>): seq<string> {
    seq(|chain|, i requires 0 <= i < |chain| => chain[i].prefix)
  }

  /** Joining all the prefixes at once composes them down the chain. */
  lemma {:induction false} JoinComposesChain(before: seq<string>, chain: seq<Interval>, path: string)
    ensures JoinRoute(before + Prefixes(chain) + [path]) == JoinRoute(before + [Mount(chain, path)])
    decreases |chain|
  {
    if chain == [] {
      assert before + Prefixes(chain) + [path] == before + [path];
    } else {
      var p, rest := chain[0].prefix, Mount(chain[1..], path);
      JoinRouteFlattens(before, [p, rest]);
      assert before + [p, rest] == before + [p] + [rest];
      JoinComposesChain(before + [p], chain[1..], path);
      assert before + Prefixes(chain) + [path] == before + [p] + Prefixes(chain[1..]) + [path];
    }
  }

  /** Tuples of a start and a prefix, as Python orders them. */
  predicate PairLeq(a: (nat, string), b: (nat, string)) {
    a.0 < b.0 || (a.0 == b.0 && StringLeq(a.1, b.1))
  }

  lemma PairOrder()
    ensures TotalPreorder(PairLeq)
  {
    forall a, b ensures PairLeq(a, b) || PairLeq(b, a) { StringLeqTotal(a.1, b.1); }
    forall a, b, c | PairLeq(a, b) && PairLeq(b, c) ensures PairLeq(a, c) {
      if a.0 == b.0 == c.0 { StringLeqTransitive(a.1, b.1, c.1); }
    }
  }

  function Pairs(chain: seq<Interval>): (r: seq<(nat, string)>)
    ensures |r| == |chain|
  {
    seq(|chain|, i requires 0 <= i < |chain| => (chain[i].start, chain[i].prefix))
  }

  /** The collected blocks are already in order, so sorting them changes nothing. */
  lemma SortingPairs(chain: seq<Interval>)
    requires Ascending(chain)
    ensures Sort(Pairs(chain), PairLeq) == Pairs(chain)
  {
    PairOrder();
    SortSorted(Pairs(chain), PairLeq);
    SortedUnique(Pairs(chain), Sort(Pairs(chain), PairLeq), PairLeq);
  }

  /** The (start, prefix) pairs of the blocks around a position, in source order. */
  method CollectAround(blocks: seq<Interval>, pos: nat) returns (nested: seq<(nat, string)>)
    ensures nested == Pairs(Enclosing(blocks, pos))
  {
    nested := [];
    for k := 0 to |blocks|
      invariant nested == Pairs(Enclosing(blocks[..k], pos))
    {
      assert blocks[..k + 1][..k] == blocks[..k];
      if blocks[k].start < pos < blocks[k].end {
        nested := nested + [(blocks[k].start, blocks[k].prefix)];
      }
    }
    assert blocks[..|blocks|] == blocks;
  }

  function Seconds(pairs: seq<(nat, string)>): (r: seq<string>)
    ensures |r| == |pairs|
  {
    seq(|pairs|, i requires 0 <= i < |pairs| => pairs[i].1)
  }

  lemma SecondsOfPairs(chain: seq<Interval>)
    ensures Seconds(Pairs(chain)) == Prefixes(chain)
  {
  }

  lemma ComposeAround(mountPrefix: string, chain: seq<Interval>, path: string)
    requires Ascending(chain)
    ensures JoinRoute([mountPrefix] + Seconds(Sort(Pairs(chain), PairLeq)) + [path])
         == JoinRoute([mountPrefix, Mount(chain, path)])
  {
    SortingPairs(chain);
    SecondsOfPairs(chain);
    JoinComposesChain([mountPrefix], chain, path);
    assert [mountPrefix] + [Mount(chain, path)] == [mountPrefix, Mount(chain, path)];
  }

  function PathOf(mountPrefix: string, blocks: seq<Interval>, route: Route): string {
    JoinRoute([mountPrefix, Mount(Enclosing(blocks, route.start), route.path)])
  }

  method ComposePath(blocks: seq<Interval>, mountPrefix: string, route: Route) returns (path: string)
    requires Ascending(blocks)
    ensures path == PathOf(mountPrefix, blocks, route)
    ensures Pieces(path)
         == Pieces(mountPrefix) + AllPieces(Prefixes(Enclosing(blocks, route.start))) + Pieces(route.path)
  {
    PathPieces(mountPrefix, blocks, route);
    EnclosingIs(blocks, route.start);
    ComposeAround(mountPrefix, Enclosing(blocks, route.start), route.path);
    var nested := CollectAround(blocks, route.start);
    path := JoinRoute([mountPrefix] + Seconds(Sort(nested, PairLeq)) + [route.path]);
  }

  lemma {:induction false} AllPiecesConcat(a: seq<string>, b: seq<string>)
    ensures AllPieces(a + b) == AllPieces(a) + AllPieces(b)
  {
    if a == [] {
      assert a + b == b;
    } else {
      assert (a + b)[1..] == a[1..] + b;
      AllPiecesConcat(a[1..], b);
    }
  }

  /** Split at slashes it is the pieces of the mount prefix, of the prefixes of the blocks around the route, outermost
      first, and of the route's own path. */
  lemma {:induction false} PathPieces(mountPrefix: string, blocks: seq<Interval>, route: Route)
    ensures Pieces(PathOf(mountPrefix, blocks, route))
         == Pieces(mountPrefix) + AllPieces(Prefixes(Enclosing(blocks, route.start))) + Pieces(route.path)
  {
    var prefixes := Prefixes(Enclosing(blocks, route.start));
    JoinComposesChain([mountPrefix], Enclosing(blocks, route.start), route.path);
    assert [mountPrefix] + [Mount(Enclosing(blocks, route.start), route.path)]
        == [mountPrefix, Mount(Enclosing(blocks, route.start), route.path)];
    JoinRoutePieces([mountPrefix] + prefixes + [route.path]);
    AllPiecesConcat([mountPrefix] + prefixes, [route.path]);
    AllPiecesConcat([mountPrefix], prefixes);
    assert AllPieces([mountPrefix]) == Pieces(mountPrefix) && AllPieces([route.path]) == Pieces(route.path);
  }

  /** A route of a mounted router, outside any block. */
  lemma {:induction false} MountedRoute(prefix: string, path: string, start: nat)
    requires Bare(prefix) && Bare(path)
    ensures PathOf("/" + prefix, [], Route(start, "/" + path)) == "/" + prefix + "/" + path
  {
    JoinRouteIs("/", prefix, "", ["/" + path]);
    JoinRouteIs("/", path, "", []);
    assert "/" + prefix + "" == "/" + prefix && "/" + path + "" == "/" + path;
    assert ["/" + path] + [] == ["/" + path] && ["/" + prefix] + ["/" + path] == ["/" + prefix, "/" + path];
    assert "/" + prefix + "/" + path == "/" + prefix + ("/" + path);
  }

  lemma {:induction false} MountedExample()
    ensures PathOf("/scim/v2", [], Route(0, "/Groups")) == "/scim/v2/Groups"
  {
    MountedRoute("scim/v2", "Groups", 0);
    assert "/" + "scim/v2" == "/scim/v2" && "/" + "Groups" == "/Groups";
    assert "/scim/v2" + "/" + "Groups" == "/scim/v2/Groups";
  }

  /** Every route's path is the mount prefix followed by the route mounted in its chain of enclosing blocks. */
  method DiscoveredPaths(source: string, mountPrefix: string, blockMatches: seq<Match>, routes: seq<Route>)
    returns (paths: seq<string>, ghost blocks: seq<Interval>)
    requires Scanned(source, blockMatches)
    ensures AreBlocks(source, blockMatches, blocks) && |paths| == |routes|
    ensures forall i :: 0 <= i < |routes| ==> paths[i] == PathOf(mountPrefix, blocks, routes[i])
  {
    var found := RouteBlockIntervals(source, blockMatches);
    blocks, paths := found, [];
    for r := 0 to |routes|
      invariant |paths| == r
      invariant forall i :: 0 <= i < r ==> paths[i] == PathOf(mountPrefix, blocks, routes[i])
    {
      var path := ComposePath(found, mountPrefix, routes[r]);
      paths := paths + [path];
    }
  }
}
