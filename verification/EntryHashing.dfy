/** What an audit entry's hash covers (backend/internal/audit/hash/chain.go): the delimited preimage, when it can be
    decoded, and what a chain's last hash pins down. */
module EntryHashing {
  import opened Text

  const GENESIS := "GENESIS"

  /** The hashed fields of an entry as the text that is hashed (nil user and nil JSON are the empty text, JSON is
      compacted), and `created_at` in microseconds, the precision that is stored. */
  datatype Entry = Entry(id: string, tenant: string, user: string, service: string, action: string,
                         resourceType: string, resourceId: string, oldValue: string, newValue: string,
                         createdAt: int)

  function Fields(e: Entry): (r: seq<string>)
    ensures |r| == 9
  {
    [e.id, e.tenant, e.user, e.service, e.action, e.resourceType, e.resourceId, e.oldValue, e.newValue]
  }

  // ----- decimal text ----------------------------------------------------------------------------------------

  function Digits(n: nat): (s: string)
    ensures s != [] && forall i :: 0 <= i < |s| ==> '0' <= s[i] <= '9'
  {
    var d := [(('0' as int) + n % 10) as char];
    if n < 10 then d else Digits(n / 10) + d
  }

  function Decimal(n: int): string {
    if n < 0 then "-" + Digits(-n) else Digits(n)
  }

  lemma {:induction false} DigitsInjective(m: nat, n: nat)
    requires Digits(m) == Digits(n)
    ensures m == n
  {
    var s, t := Digits(m), Digits(n);
    assert s[|s| - 1] == t[|t| - 1];
    assert m % 10 == n % 10;
    if m >= 10 && n >= 10 {
      assert s[..|s| - 1] == Digits(m / 10) && t[..|t| - 1] == Digits(n / 10);
      DigitsInjective(m / 10, n / 10);
    }
  }

  lemma {:induction false} DecimalInjective(m: int, n: int)
    requires Decimal(m) == Decimal(n)
    ensures m == n
  {
    var a, b := if m < 0 then -m else m, if n < 0 then -n else n;
    assert Decimal(m)[0] == Decimal(n)[0];
    assert m < 0 <==> n < 0;
    assert m < 0 ==> Digits(a) == Decimal(m)[1..] == Decimal(n)[1..] == Digits(b);
    DigitsInjective(a, b);
  }

  // ----- the preimage ----------------------------------------------------------------------------------------

  predicate PipeFree(s: string) {
    '|' !in s
  }

  predicate AllPipeFree(xs: seq<string>) {
    forall i :: 0 <= i < |xs| ==> PipeFree(xs[i])
  }

  function JoinPipe(xs: seq<string>): string {
    if xs == [] then "" else if |xs| == 1 then xs[0] else xs[0] + "|" + JoinPipe(xs[1..])
  }

  function Preimage(e: Entry, prev: string): string {
    JoinPipe(Fields(e)) + "|" + Decimal(e.createdAt * 1000) + "|" + prev
  }

  function EntryHash(sha: string -> string, e: Entry, prev: string): string {
    sha(Preimage(e, prev))
  }

  /** A collision-free digest whose output is hexadecimal text, so neither "GENESIS" nor containing a pipe. */
  ghost predicate Digest(sha: string -> string) {
    && (forall x, y :: sha(x) == sha(y) ==> x == y)
    && (forall x :: sha(x) != GENESIS && PipeFree(sha(x)))
  }

  lemma {:induction false} SplitAtLastPipe(a: string, p: string, b: string, q: string)
    requires a + "|" + p == b + "|" + q && PipeFree(p) && PipeFree(q)
    ensures a == b && p == q
  {
    var s, t := a + "|" + p, b + "|" + q;
    assert s[|a|] == t[|a|] == '|' && s[|b|] == t[|b|] == '|';
    assert a == s[..|a|] == t[..|b|] == b;
    assert p == s[|a| + 1..] == t[|b| + 1..] == q;
  }

  /** The preimage always determines the time, the previous hash, and the fields joined together. */
  lemma {:induction false} PreimageDetermines(e: Entry, p: string, f: Entry, q: string)
    requires Preimage(e, p) == Preimage(f, q) && PipeFree(p) && PipeFree(q)
    ensures p == q && e.createdAt == f.createdAt && JoinPipe(Fields(e)) == JoinPipe(Fields(f))
  {
    var d, c := Decimal(e.createdAt * 1000), Decimal(f.createdAt * 1000);
    SplitAtLastPipe(JoinPipe(Fields(e)) + "|" + d, p, JoinPipe(Fields(f)) + "|" + c, q);
    SplitAtLastPipe(JoinPipe(Fields(e)), d, JoinPipe(Fields(f)), c);
    DecimalInjective(e.createdAt * 1000, f.createdAt * 1000);
  }

  // ----- the text that is hashed -----------------------------------------------------------------------------

  function Natural(s: string): int {
    if s == [] then 0 else 10 * Natural(s[..|s| - 1]) + (s[|s| - 1] as int - '0' as int)
  }

  /** The value of a decimal numeral. */
  function ValueOf(s: string): int {
    if s != [] && s[0] == '-' then -Natural(s[1..]) else Natural(s)
  }

  predicate AllDigits(s: string) {
    s != [] && forall i :: 0 <= i < |s| ==> '0' <= s[i] <= '9'
  }

  /** Digits without a leading zero, perhaps after a minus sign. */
  predicate IsNumeral(s: string) {
    var digits := if s != [] && s[0] == '-' then s[1..] else s;
    AllDigits(digits) && (digits[0] == '0' ==> s == "0")
  }

  lemma {:induction false} DigitsMean(n: nat)
    ensures Natural(Digits(n)) == n && (Digits(n)[0] == '0' ==> n == 0)
  {
    var s := Digits(n);
    assert s[|s| - 1] as int - '0' as int == n % 10;
    if n < 10 {
      assert s[..0] == [];
    } else {
      DigitsMean(n / 10);
      assert s[..|s| - 1] == Digits(n / 10);
    }
  }

  lemma {:induction false} DecimalMeans(n: int)
    ensures IsNumeral(Decimal(n)) && ValueOf(Decimal(n)) == n && PipeFree(Decimal(n))
  {
    DigitsMean(if n < 0 then -n else n);
    assert n < 0 ==> Decimal(n)[1..] == Digits(-n);
  }

  lemma {:induction false} SplitJoined(xs: seq<string>)
    requires xs != [] && AllPipeFree(xs)
    ensures SplitOn('|', JoinPipe(xs)) == xs
  {
    SplitOnNone('|', xs[0]);
    if |xs| > 1 {
      SplitJoined(xs[1..]);
      SplitOnConcat('|', xs[0], JoinPipe(xs[1..]));
      assert xs == [xs[0]] + xs[1..];
    }
  }

  lemma {:induction false} SplitPreimage(e: Entry, prev: string)
    requires PipeFree(prev)
    ensures SplitOn('|', Preimage(e, prev))
         == SplitOn('|', JoinPipe(Fields(e))) + [Decimal(e.createdAt * 1000)] + [prev]
  {
    var joined, time := JoinPipe(Fields(e)), Decimal(e.createdAt * 1000);
    DecimalMeans(e.createdAt * 1000);
    SplitOnNone('|', time);
    SplitOnNone('|', prev);
    SplitOnConcat('|', joined, time);
    SplitOnConcat('|', joined + "|" + time, prev);
  }

  /** Whatever the fields contain, the hashed text ends with the time in nanoseconds and the previous hash, ... */
  lemma {:induction false} HashedTime(e: Entry, prev: string)
    requires PipeFree(prev)
    ensures var pieces := SplitOn('|', Preimage(e, prev));
      && |pieces| > 2 && pieces[|pieces| - 1] == prev
      && IsNumeral(pieces[|pieces| - 2]) && ValueOf(pieces[|pieces| - 2]) == 1000 * e.createdAt
  {
    SplitPreimage(e, prev);
    DecimalMeans(e.createdAt * 1000);
  }

  /** ... and where they have no delimiters it splits into them, in this order. */
  lemma {:induction false} HashedFields(e: Entry, prev: string)
    requires PipeFree(e.id) && PipeFree(e.tenant) && PipeFree(e.user) && PipeFree(e.service) && PipeFree(e.action)
    requires PipeFree(e.resourceType) && PipeFree(e.resourceId) && PipeFree(e.oldValue) && PipeFree(e.newValue)
    requires PipeFree(prev)
    ensures var pieces := SplitOn('|', Preimage(e, prev));
      && |pieces| == 11 && ValueOf(pieces[9]) == 1000 * e.createdAt && pieces[10] == prev
      && pieces[..9] == [e.id, e.tenant, e.user, e.service, e.action, e.resourceType, e.resourceId, e.oldValue,
                         e.newValue]
  {
    SplitPreimage(e, prev);
    DecimalMeans(e.createdAt * 1000);
    NoPipesInFields(e);
    SplitJoined(Fields(e));
    NineAndTwo(Fields(e), Decimal(e.createdAt * 1000), prev);
  }

  lemma {:induction false} NoPipesInFields(e: Entry)
    requires PipeFree(e.id) && PipeFree(e.tenant) && PipeFree(e.user) && PipeFree(e.service) && PipeFree(e.action)
    requires PipeFree(e.resourceType) && PipeFree(e.resourceId) && PipeFree(e.oldValue) && PipeFree(e.newValue)
    ensures AllPipeFree(Fields(e))
  {
  }

  lemma {:induction false} NineAndTwo(xs: seq<string>, a: string, b: string)
    requires |xs| == 9
    ensures |xs + [a] + [b]| == 11 && (xs + [a] + [b])[..9] == xs
    ensures (xs + [a] + [b])[9] == a && (xs + [a] + [b])[10] == b
  {
  }

  lemma {:induction false} JoinCons(x: string, xs: seq<string>)
    requires xs != []
    ensures JoinPipe([x] + xs) == x + "|" + JoinPipe(xs)
  {
  }

  /** One entry, created a microsecond after the epoch, and what is digested for it. */
  lemma {:induction false} HashedExample(sha: string -> string)
    ensures EntryHash(sha, Entry("i", "t", "", "s", "a", "rt", "r", "", "", 1), GENESIS)
         == sha("i|t||s|a|rt|r|||1000|GENESIS")
  {
    var e := Entry("i", "t", "", "s", "a", "rt", "r", "", "", 1);
    JoinedExample();
    ThousandExample();
    assert Fields(e) == ["i", "t", "", "s", "a", "rt", "r", "", ""];
    TextExample();
  }

  lemma {:induction false} TextExample()
    ensures "i|t||s|a|rt|r||" + "|" + "1000" + "|" + GENESIS == "i|t||s|a|rt|r|||1000|GENESIS"
  {
    var text := "i|t||s|a|rt|r||" + "|" + "1000" + "|" + GENESIS;
    assert |text| == 28;
  }

  lemma {:induction false} ThousandExample()
    ensures Decimal(1 * 1000) == "1000"
  {
    assert Digits(1) == "1" && Digits(10) == Digits(1) + "0" && Digits(100) == Digits(10) + "0";
  }

  lemma {:induction false} JoinedExample()
    ensures JoinPipe(["i", "t", "", "s", "a", "rt", "r", "", ""]) == "i|t||s|a|rt|r||"
  {
    JoinedMiddle();
    JoinCons("t", ["", "s", "a", "rt", "r", "", ""]);
    JoinCons("i", ["t", "", "s", "a", "rt", "r", "", ""]);
  }

  lemma {:induction false} JoinedMiddle()
    ensures JoinPipe(["", "s", "a", "rt", "r", "", ""]) == "|s|a|rt|r||"
  {
    JoinedEnd();
    JoinCons("a", ["rt", "r", "", ""]);
    JoinCons("s", ["a", "rt", "r", "", ""]);
    JoinCons("", ["s", "a", "rt", "r", "", ""]);
  }

  lemma {:induction false} JoinedEnd()
    ensures JoinPipe(["rt", "r", "", ""]) == "rt|r||"
  {
    JoinCons("", [""]);
    JoinCons("r", ["", ""]);
    JoinCons("rt", ["r", "", ""]);
  }

  // ----- when the fields can be told apart -------------------------------------------------------------------

  function Pipes(s: string): nat {
    if s == [] then 0 else (if s[0] == '|' then 1 else 0) + Pipes(s[1..])
  }

  lemma {:induction false} PipesConcat(a: string, b: string)
    ensures Pipes(a + b) == Pipes(a) + Pipes(b)
  {
    if a == [] {
      assert a + b == b;
    } else {
      assert (a + b)[1..] == a[1..] + b;
      PipesConcat(a[1..], b);
    }
  }

  lemma {:induction false} PipesZero(s: string)
    ensures Pipes(s) == 0 <==> PipeFree(s)
  {
    if s != [] {
      PipesZero(s[1..]);
    }
  }

  lemma {:induction false} PipesJoin(xs: seq<string>)
    requires xs != []
    ensures Pipes(JoinPipe(xs)) >= |xs| - 1
    ensures Pipes(JoinPipe(xs)) == |xs| - 1 <==> AllPipeFree(xs)
  {
    PipesZero(xs[0]);
    if |xs| > 1 {
      PipesJoin(xs[1..]);
      PipesConcat(xs[0] + "|", JoinPipe(xs[1..]));
      PipesConcat(xs[0], "|");
      assert "|"[1..] == [];
      assert Pipes("|") == 1;
      assert AllPipeFree(xs) <==> PipeFree(xs[0]) && AllPipeFree(xs[1..]);
    }
  }

  lemma {:induction false} SplitAtFirstPipe(x: string, a: string, y: string, b: string)
    requires x + "|" + a == y + "|" + b && PipeFree(x) && PipeFree(y)
    ensures x == y && a == b
  {
    var s, t := x + "|" + a, y + "|" + b;
    assert s[|x|] == t[|x|] == '|' && s[|y|] == t[|y|] == '|';
    assert x == s[..|x|] == t[..|y|] == y;
    assert a == s[|x| + 1..] == t[|y| + 1..] == b;
  }

  lemma {:induction false} PipeFreeJoinInjective(xs: seq<string>, ys: seq<string>)
    requires |xs| == |ys| && AllPipeFree(xs) && AllPipeFree(ys) && JoinPipe(xs) == JoinPipe(ys)
    ensures xs == ys
  {
    if |xs| > 1 {
      SplitAtFirstPipe(xs[0], JoinPipe(xs[1..]), ys[0], JoinPipe(ys[1..]));
      PipeFreeJoinInjective(xs[1..], ys[1..]);
      assert xs == [xs[0]] + xs[1..] && ys == [ys[0]] + ys[1..];
    }
  }

  lemma {:induction false} JoinMerged(before: seq<string>, u: string, v: string, after: seq<string>)
    ensures JoinPipe(before + [u, v] + after) == JoinPipe(before + [u + "|" + v] + after)
  {
    var two, one := before + [u, v] + after, before + [u + "|" + v] + after;
    if before == [] {
      assert two[1..] == [v] + after && one[1..] == after;
      if after == [] {
        assert two[1..] == [v];
        assert JoinPipe(two) == u + "|" + v;
      } else {
        assert ([v] + after)[1..] == after;
        assert JoinPipe(two) == u + "|" + (v + "|" + JoinPipe(after));
      }
    } else {
      assert two[1..] == before[1..] + [u, v] + after && one[1..] == before[1..] + [u + "|" + v] + after;
      JoinMerged(before[1..], u, v, after);
    }
  }

  /** A field with a pipe can be cut there and the rest moved into its neighbour. */
  lemma {:induction false} OtherSplit(xs: seq<string>, i: nat) returns (ys: seq<string>)
    requires 2 <= |xs| && i < |xs| && !PipeFree(xs[i])
    ensures |ys| == |xs| && ys != xs && JoinPipe(ys) == JoinPipe(xs)
  {
    var k :| 0 <= k < |xs[i]| && xs[i][k] == '|';
    var a, b := xs[i][..k], xs[i][k + 1..];
    assert xs[i] == a + "|" + b;
    if i + 1 < |xs| {
      var before, next, after := xs[..i], xs[i + 1], xs[i + 2..];
      ys := before + [a, b + "|" + next] + after;
      assert xs == before + [xs[i], next] + after;
      JoinMerged(before, xs[i], next, after);
      JoinMerged(before, a, b + "|" + next, after);
      assert xs[i] + "|" + next == a + "|" + (b + "|" + next);
      assert ys[i] == a;
    } else {
      var before, last := xs[..i - 1], xs[i - 1];
      ys := before + [last + "|" + a, b] + [];
      assert xs == before + [last, xs[i]] + [];
      JoinMerged(before, last, xs[i], []);
      JoinMerged(before, last + "|" + a, b, []);
      assert last + "|" + xs[i] == (last + "|" + a) + "|" + b;
      assert ys[i] == b;
    }
  }

  // ----- what the tables can hold ----------------------------------------------------------------------------

  /** Reading on from inside or outside a JSON string, perhaps after a backslash: outside strings JSON has neither pipes
      nor backslashes, and every string is closed. */
  predicate WellQuoted(s: string, inside: bool, escaped: bool) {
    if s == [] then !inside
    else if !inside then s[0] != '|' && s[0] != '\\' && WellQuoted(s[1..], s[0] == '"', false)
    else if escaped then WellQuoted(s[1..], true, false)
    else WellQuoted(s[1..], s[0] != '"', s[0] == '\\')
  }

  /** What every JSON text, and the empty text for none, satisfies. */
  predicate JsonText(s: string) {
    WellQuoted(s, false, false)
  }

  /** The fields that may hold any text. */
  function FreeText(e: Entry): seq<string> {
    [e.service, e.action, e.resourceType, e.resourceId]
  }

  /** The other columns hold UUIDs and JSON. */
  predicate Storable(e: Entry) {
    && PipeFree(e.id) && PipeFree(e.tenant) && PipeFree(e.user)
    && JsonText(e.oldValue) && JsonText(e.newValue)
  }

  /** A text cannot be read both from outside and from inside a string. */
  lemma {:induction false} NotBothWays(s: string)
    requires WellQuoted(s, false, false)
    ensures !WellQuoted(s, true, false)
  {
    if s != [] {
      if s[0] == '"' {
        if WellQuoted(s[1..], false, false) {
          NotBothWays(s[1..]);
        }
      } else {
        NotBothWays(s[1..]);
      }
    }
  }

  /** A pipe in a JSON text is inside a string. */
  lemma {:induction false} PipeIsInside(u: string, v: string, inside: bool, escaped: bool)
    requires WellQuoted(u + "|" + v, inside, escaped)
    ensures WellQuoted(v, true, false)
  {
    var s := u + "|" + v;
    if u == [] {
      assert s[0] == '|' && s[1..] == v;
    } else {
      assert s[0] == u[0] && s[1..] == u[1..] + "|" + v;
      if !inside {
        PipeIsInside(u[1..], v, u[0] == '"', false);
      } else if escaped {
        PipeIsInside(u[1..], v, true, false);
      } else {
        PipeIsInside(u[1..], v, u[0] != '"', u[0] == '\\');
      }
    }
  }

  /** A JSON text at the end can be told from what is before it. */
  lemma {:induction false} JsonAtEnd(x: string, a: string, y: string, b: string)
    requires x + "|" + a == y + "|" + b && JsonText(a) && JsonText(b)
    ensures x == y && a == b
  {
    var s, t := x + "|" + a, y + "|" + b;
    if |x| < |y| {
      CutJson(x, a, y, b);
    } else if |y| < |x| {
      CutJson(y, b, x, a);
    }
    assert x == s[..|x|] == t[..|y|] == y;
    assert a == s[|x| + 1..] == t[|y| + 1..] == b;
  }

  lemma {:induction false} CutJson(x: string, a: string, y: string, b: string)
    requires x + "|" + a == y + "|" + b && |x| < |y| && JsonText(a)
    ensures !JsonText(b)
  {
    var s, t := x + "|" + a, y + "|" + b;
    var u := y[|x| + 1..];
    assert a == s[|x| + 1..] == t[|x| + 1..] == u + "|" + b;
    PipeIsInside(u, b, false, false);
    if JsonText(b) {
      NotBothWays(b);
    }
  }

  function Ids(e: Entry): string {
    e.id + "|" + e.tenant + "|" + e.user
  }

  lemma {:induction false} FieldsJoin(e: Entry)
    ensures JoinPipe(Fields(e)) == Ids(e) + "|" + JoinPipe(FreeText(e)) + "|" + e.oldValue + "|" + e.newValue
  {
    var free, last := FreeText(e), [e.oldValue, e.newValue];
    assert JoinPipe(last) == e.oldValue + "|" + e.newValue;
    JoinConcat(free, last);
    JoinConcat([e.id, e.tenant, e.user], free + last);
    JoinThree(e.id, e.tenant, e.user);
    assert Fields(e) == [e.id, e.tenant, e.user] + (free + last);
  }

  lemma {:induction false} JoinThree(a: string, b: string, c: string)
    ensures JoinPipe([a, b, c]) == a + "|" + b + "|" + c
  {
    assert [a, b, c][1..] == [b, c] && [b, c][1..] == [c];
    assert JoinPipe([b, c]) == b + "|" + c;
  }

  lemma {:induction false} JoinConcat(a: seq<string>, b: seq<string>)
    requires a != [] && b != []
    ensures JoinPipe(a + b) == JoinPipe(a) + "|" + JoinPipe(b)
  {
    if |a| == 1 {
      assert (a + b)[1..] == b;
    } else {
      assert (a + b)[1..] == a[1..] + b;
      JoinConcat(a[1..], b);
    }
  }

  /** Between entries the tables can hold, the joined fields always tell the ids and the JSON values apart, and the free
      text joined together. */
  lemma {:induction false} StorableParts(e: Entry, f: Entry)
    requires Storable(e) && Storable(f) && JoinPipe(Fields(e)) == JoinPipe(Fields(f))
    ensures e.id == f.id && e.tenant == f.tenant && e.user == f.user
    ensures e.oldValue == f.oldValue && e.newValue == f.newValue
    ensures JoinPipe(FreeText(e)) == JoinPipe(FreeText(f))
  {
    FieldsJoin(e);
    FieldsJoin(f);
    var x, y := JoinPipe(FreeText(e)), JoinPipe(FreeText(f));
    JsonAtEnd(Ids(e) + "|" + x + "|" + e.oldValue, e.newValue, Ids(f) + "|" + y + "|" + f.oldValue, f.newValue);
    JsonAtEnd(Ids(e) + "|" + x, e.oldValue, Ids(f) + "|" + y, f.oldValue);
    IdsAtStart(e.id, e.tenant, e.user, x, f.id, f.tenant, f.user, y);
  }

  lemma {:induction false} IdsAtStart(a: string, b: string, c: string, x: string, a': string, b': string, c': string,
                                      y: string)
    requires PipeFree(a) && PipeFree(b) && PipeFree(c) && PipeFree(a') && PipeFree(b') && PipeFree(c')
    requires a + "|" + b + "|" + c + "|" + x == a' + "|" + b' + "|" + c' + "|" + y
    ensures a == a' && b == b' && c == c' && x == y
  {
    var cx, dy := c + "|" + x, c' + "|" + y;
    var bcx, bdy := b + "|" + cx, b' + "|" + dy;
    assert a + "|" + bcx == a + "|" + b + "|" + c + "|" + x;
    assert a' + "|" + bdy == a' + "|" + b' + "|" + c' + "|" + y;
    SplitAtFirstPipe(a, bcx, a', bdy);
    SplitAtFirstPipe(b, cx, b', dy);
    SplitAtFirstPipe(c, x, c', y);
  }

  /** Entries hashed onto the same hash. */
  lemma {:induction false} SamePrev(e: Entry, f: Entry, prev: string)
    requires Preimage(e, prev) == Preimage(f, prev)
    ensures e.createdAt == f.createdAt && JoinPipe(Fields(e)) == JoinPipe(Fields(f))
  {
    var d, c := Decimal(e.createdAt * 1000), Decimal(f.createdAt * 1000);
    var x, y, end := JoinPipe(Fields(e)) + "|" + d, JoinPipe(Fields(f)) + "|" + c, "|" + prev;
    assert x + end == Preimage(e, prev) && y + end == Preimage(f, prev);
    assert |x| == |y| && x == (x + end)[..|x|] && y == (y + end)[..|y|];
    SplitAtLastPipe(JoinPipe(Fields(e)), d, JoinPipe(Fields(f)), c);
    DecimalInjective(e.createdAt * 1000, f.createdAt * 1000);
  }

  lemma {:induction false} SameParts(e: Entry, f: Entry)
    requires Storable(e) && Storable(f) && JoinPipe(Fields(e)) == JoinPipe(Fields(f)) && e.createdAt == f.createdAt
    requires AllPipeFree(FreeText(e))
    ensures e == f
  {
    StorableParts(e, f);
    var xs, ys := FreeText(e), FreeText(f);
    PipesJoin(xs);
    PipesJoin(ys);
    PipeFreeJoinInjective(xs, ys);
    assert forall k :: 0 <= k < 4 ==> xs[k] == ys[k];
  }

  /** Among the entries the tables can hold, one is the only one with its preimage exactly when none of its free texts
      contains a pipe; pipes inside JSON values do no harm. */
  lemma {:induction false} FieldsDeterminedIff(e: Entry, prev: string)
    requires Storable(e)
    ensures (forall f :: Storable(f) && Preimage(f, prev) == Preimage(e, prev) ==> f == e) <==> AllPipeFree(FreeText(e))
  {
    var xs := FreeText(e);
    if AllPipeFree(xs) {
      forall f | Storable(f) && Preimage(f, prev) == Preimage(e, prev) ensures f == e {
        SamePrev(e, f, prev);
        SameParts(e, f);
      }
    } else {
      var i :| 0 <= i < |xs| && !PipeFree(xs[i]);
      var ys := OtherSplit(xs, i);
      var f := e.(service := ys[0], action := ys[1], resourceType := ys[2], resourceId := ys[3]);
      assert FreeText(f) == ys;
      FieldsJoin(e);
      FieldsJoin(f);
      assert Preimage(f, prev) == Preimage(e, prev) && Storable(f) && f != e;
    }
  }

  // ----- what the last hash of a chain pins down -------------------------------------------------------------

  /** Hashes an entry onto the hash before it. */
  type Hasher = (Entry, string) -> string

  function HasherOf(sha: string -> string): Hasher {
    (e: Entry, prev: string) => EntryHash(sha, e, prev)
  }

  /** The last hash of the chain over `es` that starts from `start`. */
  function ChainHash(h: Hasher, start: string, es: seq<Entry>): string {
    if es == [] then start else h(es[|es| - 1], ChainHash(h, start, es[..|es| - 1]))
  }

  lemma {:induction false} ChainHashPipeFree(sha: string -> string, es: seq<Entry>)
    requires Digest(sha)
    ensures PipeFree(ChainHash(HasherOf(sha), GENESIS, es))
  {
  }

  /** Entry `e` of one chain and entry `f` of another are the same as far as the hash shows. */
  ghost predicate Alike(e: Entry, f: Entry) {
    && e.createdAt == f.createdAt
    && JoinPipe(Fields(e)) == JoinPipe(Fields(f))
    && (Storable(e) && Storable(f) ==>
          && e.id == f.id && e.tenant == f.tenant && e.user == f.user
          && e.oldValue == f.oldValue && e.newValue == f.newValue
          && (AllPipeFree(FreeText(e)) ==> e == f))
  }

  lemma {:induction false} LastLink(sha: string -> string, e: Entry, p: string, f: Entry, q: string)
    requires Digest(sha) && PipeFree(p) && PipeFree(q) && EntryHash(sha, e, p) == EntryHash(sha, f, q)
    ensures p == q && Alike(e, f)
  {
    PreimageDetermines(e, p, f, q);
    if Storable(e) && Storable(f) {
      StorableParts(e, f);
      if AllPipeFree(FreeText(e)) {
        SameParts(e, f);
      }
    }
  }

  ghost predicate AllAlike(es: seq<Entry>, fs: seq<Entry>) {
    |es| == |fs| && forall i :: 0 <= i < |es| ==> Alike(es[i], fs[i])
  }

  lemma {:induction false} AllAlikeSnoc(es: seq<Entry>, fs: seq<Entry>)
    requires es != [] && fs != [] && Alike(es[|es| - 1], fs[|fs| - 1])
    requires AllAlike(es[..|es| - 1], fs[..|fs| - 1])
    ensures AllAlike(es, fs)
  {
    forall i | 0 <= i < |es| ensures Alike(es[i], fs[i]) {
      if i < |es| - 1 {
        assert Alike(es[..|es| - 1][i], fs[..|fs| - 1][i]);
      }
    }
  }

  /** Two chains from genesis with the same last hash have the same length and agree at every position on the time and
      the joined fields: for entries the tables can hold on the ids and the JSON values, and where the first one's free
      texts have no pipes, on every field. */
  lemma {:induction false} ChainBinding(sha: string -> string, es: seq<Entry>, fs: seq<Entry>)
    requires Digest(sha) && ChainHash(HasherOf(sha), GENESIS, es) == ChainHash(HasherOf(sha), GENESIS, fs)
    ensures AllAlike(es, fs)
  {
    var h := HasherOf(sha);
    if es != [] && fs != [] {
      var es', fs' := es[..|es| - 1], fs[..|fs| - 1];
      ChainHashPipeFree(sha, es');
      ChainHashPipeFree(sha, fs');
      LastLink(sha, es[|es| - 1], ChainHash(h, GENESIS, es'), fs[|fs| - 1], ChainHash(h, GENESIS, fs'));
      ChainBinding(sha, es', fs');
      AllAlikeSnoc(es, fs);
    }
  }
}
