/** String helpers with the meaning Python gives them: str.isspace, str.strip,
    str.join, str.endswith, str() of a non-negative int, and the code-point
    ordering that sorted() uses on str values. */
module Text {

  /** Python's str.isspace(); the `\s` class of `re` on str patterns is the same set. */
  predicate IsSpace(c: char) {
    ('\U{9}' <= c <= '\U{D}') || ('\U{1C}' <= c <= '\U{20}') || c == '\U{85}' || c == '\U{A0}'
    || c == '\U{1680}' || ('\U{2000}' <= c <= '\U{200A}') || c == '\U{2028}' || c == '\U{2029}'
    || c == '\U{202F}' || c == '\U{205F}' || c == '\U{3000}'
  }

  predicate IsQuote(c: char) {
    c == '"'
  }

  /** Pattern `p` occurs in `s` starting at index `i`. */
  predicate HasAt(s: string, i: nat, p: string) {
    i + |p| <= |s| && forall j :: 0 <= j < |p| ==> s[i + j] == p[j]
  }

  /** A slice of a slice is a slice of the original. */
  lemma {:induction false} SubSlice(s: string, a: nat, b: nat, c: nat, d: nat)
    requires a <= b <= |s| && c <= d <= b - a
    ensures s[a..b][c..d] == s[a + c..a + d]
  {
    var u, v := s[a..b][c..d], s[a + c..a + d];
    forall k | 0 <= k < |u| ensures u[k] == v[k] {
      assert u[k] == s[a..b][c + k];
    }
  }

  lemma {:induction false} InfixAt(p: string, x: string, q: string)
    ensures HasAt(p + x + q, |p|, x)
  {
    assert (p + x + q)[|p|..|p| + |x|] == x;
  }

  predicate EndsWith(s: string, suffix: string) {
    |suffix| <= |s| && s[|s| - |suffix|..] == suffix
  }

  /** Neither end of `t` is a character that `drop` would remove. */
  predicate TrimmedBy(t: string, drop: char -> bool) {
    t == [] || (!drop(t[0]) && !drop(t[|t| - 1]))
  }

  /** str.lstrip with the characters selected by `drop`. */
  function TrimLeft(s: string, drop: char -> bool): (r: string)
    ensures |r| <= |s|
    ensures r == [] || !drop(r[0])
  {
    if s != [] && drop(s[0]) then TrimLeft(s[1..], drop) else s
  }

  /** str.rstrip with the characters selected by `drop`. */
  function TrimRight(s: string, drop: char -> bool): (r: string)
    ensures |r| <= |s|
    ensures r == [] || !drop(r[|r| - 1])
  {
    if s != [] && drop(s[|s| - 1]) then TrimRight(s[..|s| - 1], drop) else s
  }

  /** str.strip with the characters selected by `drop`: `s` is the result with a
      run of dropped characters before it and a run after it, and the result
      neither begins nor ends with a dropped character. */
  function Trim(s: string, drop: char -> bool): (r: string)
    ensures TrimmedBy(r, drop)
  {
    TrimRightDropped(TrimLeft(s, drop), drop);
    TrimRight(TrimLeft(s, drop), drop)
  }

  /** str.strip leaves a text that is already stripped as it is. */
  lemma {:induction false} TrimOfTrimmed(s: string, drop: char -> bool)
    requires TrimmedBy(s, drop)
    ensures Trim(s, drop) == s
  {
    TrimLeftKeep(s, drop);
    TrimRightKeep(s, drop);
  }

  /** lstrip removes a prefix, made only of characters that `drop` selects. */
  lemma {:induction false} TrimLeftDropped(s: string, drop: char -> bool)
    ensures TrimLeft(s, drop) == s[|s| - |TrimLeft(s, drop)|..]
    ensures forall k :: 0 <= k < |s| - |TrimLeft(s, drop)| ==> drop(s[k])
    decreases |s|
  {
    if s != [] && drop(s[0]) {
      TrimLeftDropped(s[1..], drop);
      var n := |s| - |TrimLeft(s, drop)|;
      assert s[1..][n - 1..] == s[n..];
      forall k | 1 <= k < n ensures drop(s[k]) {
        assert s[k] == s[1..][k - 1];
      }
    }
  }

  /** rstrip removes a suffix, made only of characters that `drop` selects. */
  lemma {:induction false} TrimRightDropped(s: string, drop: char -> bool)
    ensures TrimRight(s, drop) == s[..|TrimRight(s, drop)|]
    ensures forall k :: |TrimRight(s, drop)| <= k < |s| ==> drop(s[k])
    decreases |s|
  {
    if s != [] && drop(s[|s| - 1]) {
      TrimRightDropped(s[..|s| - 1], drop);
      assert s[..|s| - 1][..|TrimRight(s, drop)|] == s[..|TrimRight(s, drop)|];
      forall k | |TrimRight(s, drop)| <= k < |s| - 1 ensures drop(s[k]) {
        assert s[k] == s[..|s| - 1][k];
      }
    }
  }

  /** What str.strip leaves out: a run of dropped characters on each side. */
  lemma {:induction false} TrimShape(s: string, drop: char -> bool)
    ensures var r, i := Trim(s, drop), |s| - |TrimLeft(s, drop)|;
      i + |r| <= |s| && s[i..i + |r|] == r
      && (forall k :: 0 <= k < i ==> drop(s[k]))
      && (forall k :: i + |r| <= k < |s| ==> drop(s[k]))
  {
    var left := TrimLeft(s, drop);
    var r := TrimRight(left, drop);
    var i := |s| - |left|;
    TrimLeftDropped(s, drop);
    TrimRightDropped(left, drop);
    assert left == s[i..|s|];
    SubSlice(s, i, |s|, 0, |r|);
    assert left[0..|r|] == r;
    forall k | i + |r| <= k < |s| ensures drop(s[k]) {
      assert s[k] == left[k - i];
    }
  }

  /** `strip('"')` of a quoted text whose own ends are not quotes gives back that text. */
  lemma {:induction false} StripQuotesOfQuoted(d: string)
    requires TrimmedBy(d, IsQuote)
    ensures StripQuotes("\"" + d + "\"") == d
  {
    var q := "\"" + d + "\"";
    var tail := d + "\"";
    assert q[1..] == tail;
    TrimLeftDrop(q, IsQuote);
    if d == [] {
      assert tail[1..] == [];
      TrimLeftDrop(tail, IsQuote);
    } else {
      assert tail[0] == d[0];
      TrimLeftKeep(tail, IsQuote);
      assert tail[..|tail| - 1] == d;
      TrimRightDrop(tail, IsQuote);
      TrimRightKeep(d, IsQuote);
    }
  }

  lemma {:induction false} TrimLeftDrop(s: string, drop: char -> bool)
    requires s != [] && drop(s[0])
    ensures TrimLeft(s, drop) == TrimLeft(s[1..], drop)
  {
  }

  lemma {:induction false} TrimLeftKeep(s: string, drop: char -> bool)
    requires s == [] || !drop(s[0])
    ensures TrimLeft(s, drop) == s
  {
  }

  lemma {:induction false} TrimRightDrop(s: string, drop: char -> bool)
    requires s != [] && drop(s[|s| - 1])
    ensures TrimRight(s, drop) == TrimRight(s[..|s| - 1], drop)
  {
  }

  lemma {:induction false} TrimRightKeep(s: string, drop: char -> bool)
    requires s == [] || !drop(s[|s| - 1])
    ensures TrimRight(s, drop) == s
  {
  }

  /** Python's `s.strip()`. */
  function Strip(s: string): string {
    Trim(s, IsSpace)
  }

  /** Python's `s.strip('"')`: every leading and trailing `"` goes, not one layer. */
  function StripQuotes(s: string): string {
    Trim(s, IsQuote)
  }

  /** Python's `sep.join(xs)`. */
  function Join(sep: string, xs: seq<string>): string
    decreases |xs|
  {
    if |xs| == 0 then ""
    else if |xs| == 1 then xs[0]
    else xs[0] + sep + Join(sep, xs[1..])
  }

  /** Python's `s.split(c)` for a one-character separator; the reference
      against which rendered lines are checked. */
  function Split(s: string, c: char): (parts: seq<string>)
    ensures |parts| >= 1
  {
    if s == [] then [""]
    else
      var rest := Split(s[1..], c);
      if s[0] == c then [""] + rest else [[s[0]] + rest[0]] + rest[1..]
  }

  lemma {:induction false} SplitAfterPlain(x: string, t: string, c: char)
    requires c !in x
    ensures Split(x + t, c) == [x + Split(t, c)[0]] + Split(t, c)[1..]
    decreases |x|
  {
    if x != [] {
      assert (x + t)[1..] == x[1..] + t;
      SplitAfterPlain(x[1..], t, c);
      assert [x[0]] + (x[1..] + Split(t, c)[0]) == x + Split(t, c)[0];
    } else {
      assert x + t == t;
      assert x + Split(t, c)[0] == Split(t, c)[0];
      assert Split(t, c) == [Split(t, c)[0]] + Split(t, c)[1..];
    }
  }

  /** Splitting a piece without `c`, then `c`, then `t`, yields that piece first. */
  lemma {:induction false} SplitPiece(x: string, t: string, c: char)
    requires c !in x
    ensures Split(x + [c] + t, c) == [x] + Split(t, c)
  {
    assert x + [c] + t == x + ([c] + t);
    SplitAfterPlain(x, [c] + t, c);
    assert ([c] + t)[0] == c && ([c] + t)[1..] == t;
    assert Split([c] + t, c) == [""] + Split(t, c);
    assert x + "" == x;
  }

  /** Round trip: `split` undoes `join` when no piece contains the separator. */
  lemma {:induction false} SplitJoin(xs: seq<string>, c: char)
    requires |xs| >= 1
    requires forall i :: 0 <= i < |xs| ==> c !in xs[i]
    ensures Split(Join([c], xs), c) == xs
    decreases |xs|
  {
    if |xs| == 1 {
      SplitAfterPlain(xs[0], "", c);
      assert xs[0] + "" == xs[0];
    } else {
      SplitJoin(xs[1..], c);
      SplitPiece(xs[0], Join([c], xs[1..]), c);
      assert [xs[0]] + xs[1..] == xs;
    }
  }

  /** Concatenation of `f(x)` for each `x`, in order: Python's accumulate-by-`+=` loop. */
  function ConcatMap<T>(xs: seq<T>, f: T -> string): string
    decreases |xs|
  {
    if xs == [] then "" else ConcatMap(xs[..|xs| - 1], f) + f(xs[|xs| - 1])
  }

  lemma {:induction false} ConcatMapAppend<T>(a: seq<T>, b: seq<T>, f: T -> string)
    ensures ConcatMap(a + b, f) == ConcatMap(a, f) + ConcatMap(b, f)
    decreases |b|
  {
    if b == [] {
      assert a + b == a;
    } else {
      assert (a + b)[..|a + b| - 1] == a + b[..|b| - 1];
      ConcatMapAppend(a, b[..|b| - 1], f);
    }
  }

  lemma {:induction false} ConcatMapCons<T>(x: T, xs: seq<T>, f: T -> string)
    ensures ConcatMap([x] + xs, f) == f(x) + ConcatMap(xs, f)
  {
    ConcatMapAppend([x], xs, f);
    assert [x][..0] == [];
  }

  /** The result of `+=`-ing each `f(x)`, where `f(x)` is a line `line(x)`
      and a line break, splits back into those lines and a final empty piece,
      when no line contains a line break. */
  lemma {:induction false} SplitTerminatedLines<T>(xs: seq<T>, f: T -> string, line: T -> string)
    requires forall i :: 0 <= i < |xs| ==> f(xs[i]) == line(xs[i]) + "\n" && '\n' !in line(xs[i])
    ensures Split(ConcatMap(xs, f), '\n') == seq(|xs|, i requires 0 <= i < |xs| => line(xs[i])) + [""]
    decreases |xs|
  {
    if xs != [] {
      ConcatMapCons(xs[0], xs[1..], f);
      assert [xs[0]] + xs[1..] == xs;
      SplitTerminatedLines(xs[1..], f, line);
      SplitPiece(line(xs[0]), ConcatMap(xs[1..], f), '\n');
      assert f(xs[0]) + ConcatMap(xs[1..], f) == line(xs[0]) + ['\n'] + ConcatMap(xs[1..], f);
    }
  }

  // ---- decimal rendering of counts ----

  function DigitChar(d: nat): (c: char)
    requires d < 10
  {
    "0123456789"[d]
  }

  function DigitValue(c: char): nat {
    if '0' <= c <= '9' then (c as int - '0' as int) as nat else 0
  }

  predicate IsDigit(c: char) {
    '0' <= c <= '9'
  }

  /** Python's `str(n)` for n >= 0: decimal digits, no leading zero except for 0 itself. */
  function NatToString(n: nat): (s: string)
    ensures |s| >= 1 && forall i :: 0 <= i < |s| ==> IsDigit(s[i])
    ensures s[0] == '0' ==> n == 0 && s == "0"
    decreases n
  {
    if n < 10 then [DigitChar(n)] else NatToString(n / 10) + [DigitChar(n % 10)]
  }

  /** The number a string of decimal digits denotes. */
  function DecimalValue(s: string): nat
    decreases |s|
  {
    if s == [] then 0 else DecimalValue(s[..|s| - 1]) * 10 + DigitValue(s[|s| - 1])
  }

  /** Round trip: the printed count reads back as the count. */
  lemma {:induction false} DecimalRoundTrip(n: nat)
    ensures DecimalValue(NatToString(n)) == n
    decreases n
  {
    if n >= 10 {
      DecimalRoundTrip(n / 10);
      var s := NatToString(n);
      assert s[..|s| - 1] == NatToString(n / 10);
    }
  }

  // ---- the ordering sorted() uses on str: code point by code point ----

  predicate LexLe(a: string, b: string)
    decreases |a|
  {
    a == [] || (b != [] && (a[0] < b[0] || (a[0] == b[0] && LexLe(a[1..], b[1..]))))
  }

  lemma {:induction false} LexLeRefl(a: string)
    ensures LexLe(a, a)
    decreases |a|
  {
    if a != [] {
      LexLeRefl(a[1..]);
    }
  }

  lemma {:induction false} LexLeTotal(a: string, b: string)
    ensures LexLe(a, b) || LexLe(b, a)
    decreases |a|
  {
    if a != [] && b != [] && a[0] == b[0] {
      LexLeTotal(a[1..], b[1..]);
    }
  }

  lemma {:induction false} LexLeTrans(a: string, b: string, c: string)
    requires LexLe(a, b) && LexLe(b, c)
    ensures LexLe(a, c)
    decreases |a|
  {
    if a != [] && b != [] && c != [] && a[0] == b[0] == c[0] {
      LexLeTrans(a[1..], b[1..], c[1..]);
    }
  }

  lemma {:induction false} LexLeAntisym(a: string, b: string)
    requires LexLe(a, b) && LexLe(b, a)
    ensures a == b
    decreases |a|
  {
    if a != [] && b != [] {
      LexLeAntisym(a[1..], b[1..]);
      assert a == [a[0]] + a[1..] && b == [b[0]] + b[1..];
    }
  }

  predicate SortedLex(xs: seq<string>) {
    forall i, j :: 0 <= i < j < |xs| ==> LexLe(xs[i], xs[j])
  }

  /** A string no greater than the first of a sorted sequence can go before it. */
  lemma {:induction false} SortedCons(y: string, r: seq<string>)
    requires SortedLex(r) && forall k :: 0 <= k < |r| ==> LexLe(y, r[k])
    ensures SortedLex([y] + r)
  {
    var t := [y] + r;
    forall i, j | 0 <= i < j < |t| ensures LexLe(t[i], t[j]) {
      if i > 0 {
        assert t[i] == r[i - 1] && t[j] == r[j - 1];
      } else {
        assert t[j] == r[j - 1];
      }
    }
  }

  lemma {:induction false} InsertBefore(x: string, xs: seq<string>)
    requires SortedLex(xs) && xs != [] && LexLe(x, xs[0])
    ensures forall k :: 0 <= k < |xs| ==> LexLe(x, xs[k])
  {
    forall k | 0 < k < |xs| ensures LexLe(x, xs[k]) {
      LexLeTrans(x, xs[0], xs[k]);
    }
  }

  lemma {:induction false} InsertAfter(x: string, xs: seq<string>, rest: seq<string>)
    requires SortedLex(xs) && xs != [] && !LexLe(x, xs[0])
    requires multiset(rest) == multiset(xs[1..]) + multiset{x}
    ensures forall k :: 0 <= k < |rest| ==> LexLe(xs[0], rest[k])
  {
    LexLeTotal(x, xs[0]);
    forall k | 0 <= k < |rest| ensures LexLe(xs[0], rest[k]) {
      assert rest[k] in multiset(rest);
      if rest[k] != x {
        assert rest[k] in multiset(xs[1..]);
        var j :| 0 <= j < |xs[1..]| && xs[1..][j] == rest[k];
        assert xs[j + 1] == rest[k];
      }
    }
  }

  function InsertLex(x: string, xs: seq<string>): (r: seq<string>)
    requires SortedLex(xs)
    ensures SortedLex(r) && multiset(r) == multiset(xs) + multiset{x}
    decreases |xs|
  {
    if xs == [] then [x]
    else if LexLe(x, xs[0]) then
      InsertBefore(x, xs);
      SortedCons(x, xs);
      [x] + xs
    else
      assert SortedLex(xs[1..]);
      var rest := InsertLex(x, xs[1..]);
      InsertAfter(x, xs, rest);
      SortedCons(xs[0], rest);
      assert xs == [xs[0]] + xs[1..];
      [xs[0]] + rest
  }

  /** Python's `sorted()` on a list of str: a sorted permutation of the input. */
  function SortLex(xs: seq<string>): (r: seq<string>)
    ensures SortedLex(r) && multiset(r) == multiset(xs)
    decreases |xs|
  {
    if xs == [] then []
    else
      assert xs == [xs[0]] + xs[1..];
      InsertLex(xs[0], SortLex(xs[1..]))
  }

  lemma {:induction false} SortedHeadIsLeast(a: seq<string>, x: string)
    requires SortedLex(a) && x in multiset(a)
    ensures LexLe(a[0], x)
  {
    var i :| 0 <= i < |a| && a[i] == x;
    if i == 0 {
      LexLeRefl(x);
    }
  }

  lemma {:induction false} MultisetTail(a: seq<string>)
    requires a != []
    ensures multiset(a[1..]) == multiset(a) - multiset{a[0]}
  {
    assert a == [a[0]] + a[1..];
  }

  /** Two sorted arrangements of the same multiset begin with the same string. */
  lemma {:induction false} SortedSameHead(a: seq<string>, b: seq<string>)
    requires SortedLex(a) && SortedLex(b) && multiset(a) == multiset(b) && a != []
    ensures b != [] && a[0] == b[0]
  {
    assert a[0] in multiset(a);
    assert b != [];
    assert b[0] in multiset(b);
    SortedHeadIsLeast(a, b[0]);
    SortedHeadIsLeast(b, a[0]);
    LexLeAntisym(a[0], b[0]);
  }

  /** A sorted arrangement of a multiset of strings is unique, so sorted() does
      not depend on the order its input came in. */
  lemma {:induction false} SortedUnique(a: seq<string>, b: seq<string>)
    requires SortedLex(a) && SortedLex(b) && multiset(a) == multiset(b)
    ensures a == b
    decreases |a|
  {
    if a == [] {
      assert |b| == |multiset(b)| == 0;
    } else {
      SortedSameHead(a, b);
      MultisetTail(a);
      MultisetTail(b);
      SortedUnique(a[1..], b[1..]);
      assert a == [a[0]] + a[1..] && b == [b[0]] + b[1..];
    }
  }
}
