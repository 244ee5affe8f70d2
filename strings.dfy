/** Text primitives the request pipeline relies on: JavaScript's `trim`,
    `startsWith`/`endsWith`, `Array.prototype.join`, `String.prototype.split`
    on a one-character separator, and decimal rendering of numbers. */
module Strings {

  /** ECMAScript's WhiteSpace and LineTerminator code points, the set that
      `String.prototype.trim` removes (the space separators are the Zs
      category of current Unicode). */
  const Whitespace: set<char> := {
    '\t', '\n', '\r', ' ', '\U{000B}', '\U{000C}', '\U{00A0}', '\U{1680}',
    '\U{2000}', '\U{2001}', '\U{2002}', '\U{2003}', '\U{2004}', '\U{2005}',
    '\U{2006}', '\U{2007}', '\U{2008}', '\U{2009}', '\U{200A}',
    '\U{2028}', '\U{2029}', '\U{202F}', '\U{205F}', '\U{3000}', '\U{FEFF}'
  }

  predicate IsWs(c: char) {
    c in Whitespace
  }

  /** Neither end of `s` is a whitespace character (true of the empty string). */
  predicate TrimmedEnds(s: string) {
    s == [] || (!IsWs(s[0]) && !IsWs(s[|s| - 1]))
  }

  predicate StartsWith(s: string, prefix: string) {
    |prefix| <= |s| && s[..|prefix|] == prefix
  }

  /** `s.endsWith(suffix)`: every text ends with the empty suffix, a text
      never ends with a longer one, and a text that ends with a non-empty
      suffix has that suffix's last character as its own. */
  function EndsWith(s: string, suffix: string): (b: bool)
    ensures suffix == [] ==> b
    ensures |suffix| > |s| ==> !b
    ensures b && suffix != [] ==> s[|s| - 1] == suffix[|suffix| - 1]
  {
    |suffix| <= |s| && s[|s| - |suffix|..] == suffix
  }

  /** Cutting `s` before index `i` and from index `j` on removes only
      whitespace, and what is kept neither starts nor ends with whitespace:
      the pieces `trim` may be said to leave. */
  predicate TrimCut(s: string, i: int, j: int) {
    && 0 <= i <= j <= |s|
    && (forall k :: 0 <= k < i ==> IsWs(s[k]))
    && (forall k :: j <= k < |s| ==> IsWs(s[k]))
    && (i < j ==> !IsWs(s[i]) && !IsWs(s[j - 1]))
  }

  /** The first index at or after `i` that does not hold whitespace, or
      `|s|` when there is none. */
  function SkipWs(s: string, i: nat): (r: nat)
    requires i <= |s|
    ensures i <= r <= |s|
    ensures forall k :: i <= k < r ==> IsWs(s[k])
    ensures r < |s| ==> !IsWs(s[r])
    decreases |s| - i
  {
    if i < |s| && IsWs(s[i]) then SkipWs(s, i + 1) else i
  }

  /** The end of the last stretch before index `j`, and not before `i`,
      that does not end with whitespace. */
  function SkipWsBack(s: string, i: nat, j: nat): (r: nat)
    requires i <= j <= |s|
    ensures i <= r <= j
    ensures forall k :: r <= k < j ==> IsWs(s[k])
    ensures r > i ==> !IsWs(s[r - 1])
    decreases j
  {
    if j > i && IsWs(s[j - 1]) then SkipWsBack(s, i, j - 1) else j
  }

  /** JavaScript `String.prototype.trim`: no whitespace is left at either
      end, and nothing is added. */
  function Trim(s: string): (r: string)
    ensures |r| <= |s|
    ensures TrimmedEnds(r)
  {
    var i := SkipWs(s, 0);
    var j := SkipWsBack(s, i, |s|);
    s[i..j]
  }

  /** What `Trim` leaves is such a piece: only whitespace is cut from either
      side. */
  lemma TrimCharacterized(s: string) returns (i: nat, j: nat)
    ensures TrimCut(s, i, j) && Trim(s) == s[i..j]
  {
    i := SkipWs(s, 0);
    j := SkipWsBack(s, i, |s|);
  }

  /** The characterisation determines the result: every such piece of `s`
      is `Trim(s)`. */
  lemma TrimUnique(s: string, i: nat, j: nat)
    requires TrimCut(s, i, j)
    ensures s[i..j] == Trim(s)
  {
    var a := SkipWs(s, 0);
    var b := SkipWsBack(s, a, |s|);
    assert (a == i && b == j) || (i == j && a == b);
  }

  /** Text whose ends are not whitespace is left alone by `trim`. */
  lemma TrimNoop(s: string)
    requires TrimmedEnds(s)
    ensures Trim(s) == s
  {
    assert s == s[0..|s|];
    assert TrimCut(s, 0, |s|);
    TrimUnique(s, 0, |s|);
  }

  lemma TrimIdempotent(s: string)
    ensures Trim(Trim(s)) == Trim(s)
  {
    TrimNoop(Trim(s));
  }

  /** JavaScript `Array.prototype.join(sep)` on strings. */
  function Join(parts: seq<string>, sep: string): (r: string)
    ensures |parts| >= 1 ==> StartsWith(r, parts[0])
    decreases |parts|
  {
    if |parts| == 0 then ""
    else if |parts| == 1 then parts[0]
    else parts[0] + sep + Join(parts[1..], sep)
  }

  /** Joining one more part adds the separator and the part at the end,
      and never a separator after the last part. */
  lemma {:induction false} JoinSnoc(parts: seq<string>, p: string, sep: string)
    requires |parts| >= 1
    ensures Join(parts + [p], sep) == Join(parts, sep) + sep + p
    decreases |parts|
  {
    var ps := parts + [p];
    if |parts| > 1 {
      assert ps[1..] == parts[1..] + [p];
      JoinSnoc(parts[1..], p, sep);
    } else {
      assert ps[1..] == [p];
    }
  }

  /** JavaScript `String.prototype.split(c)` for a one-character separator:
      always at least one piece, and no piece contains the separator. */
  function Split(s: string, c: char): (r: seq<string>)
    ensures |r| >= 1
    ensures forall k :: 0 <= k < |r| ==> c !in r[k]
    decreases |s|
  {
    if s == [] then [""]
    else
      var rest := Split(s[1..], c);
      if s[0] == c then [""] + rest
      else [[s[0]] + rest[0]] + rest[1..]
  }

  lemma {:induction false} SplitAfterPiece(p: string, c: char, t: string)
    requires c !in p
    ensures Split(p + [c] + t, c) == [p] + Split(t, c)
    decreases |p|
  {
    if p == [] {
      assert ([] + [c] + t)[1..] == t;
    } else {
      assert (p + [c] + t)[1..] == p[1..] + [c] + t;
      SplitAfterPiece(p[1..], c, t);
      assert [p[0]] + p[1..] == p;
    }
  }

  lemma {:induction false} SplitNoSeparator(p: string, c: char)
    requires c !in p
    ensures Split(p, c) == [p]
    decreases |p|
  {
    if p != [] {
      SplitNoSeparator(p[1..], c);
      assert [p[0]] + p[1..] == p;
    }
  }

  /** Splitting a join on the same separator gives the parts back, provided
      no part contains the separator. */
  lemma {:induction false} SplitJoin(parts: seq<string>, c: char)
    requires |parts| >= 1
    requires forall k :: 0 <= k < |parts| ==> c !in parts[k]
    ensures Split(Join(parts, [c]), c) == parts
    decreases |parts|
  {
    if |parts| == 1 {
      SplitNoSeparator(parts[0], c);
    } else {
      SplitJoin(parts[1..], c);
      SplitAfterPiece(parts[0], c, Join(parts[1..], [c]));
      assert [parts[0]] + parts[1..] == parts;
    }
  }

  /** Joining the pieces of a split restores the text. */
  lemma {:induction false} JoinSplit(s: string, c: char)
    ensures Join(Split(s, c), [c]) == s
    decreases |s|
  {
    if s != [] {
      var rest := Split(s[1..], c);
      JoinSplit(s[1..], c);
      if s[0] == c {
        assert Split(s, c)[1..] == rest;
      } else {
        var r := Split(s, c);
        if |rest| == 1 {
          assert r == [[s[0]] + rest[0]];
        } else {
          assert r[1..] == rest[1..];
          assert Join(rest, [c]) == rest[0] + [c] + Join(rest[1..], [c]);
        }
      }
      assert [s[0]] + s[1..] == s;
    }
  }

  function DigitChar(d: nat): char
    requires d < 10
  {
    "0123456789"[d]
  }

  predicate IsDigit(c: char) {
    '0' <= c <= '9'
  }

  function DigitValue(c: char): nat
    requires IsDigit(c)
  {
    (c as int - '0' as int) as nat
  }

  lemma DigitRoundTrip(d: nat)
    requires d < 10
    ensures IsDigit(DigitChar(d)) && DigitValue(DigitChar(d)) == d
  {
  }

  /** Decimal rendering of a natural number, as JavaScript prints integers:
      digits only, no leading zero except for zero itself. */
  function Decimal(n: nat): (r: string)
    ensures |r| >= 1
    ensures forall k :: 0 <= k < |r| ==> IsDigit(r[k])
    ensures r[0] != '0' || n == 0
    decreases n
  {
    if n < 10 then [DigitChar(n)] else Decimal(n / 10) + [DigitChar(n % 10)]
  }

  /** Reading a string of digits back as a number. */
  function ParseDecimal(s: string): nat
    requires forall k :: 0 <= k < |s| ==> IsDigit(s[k])
    decreases |s|
  {
    if s == [] then 0 else ParseDecimal(s[..|s| - 1]) * 10 + DigitValue(s[|s| - 1])
  }

  lemma {:induction false} DecimalRoundTrip(n: nat)
    ensures ParseDecimal(Decimal(n)) == n
    decreases n
  {
    if n >= 10 {
      DecimalRoundTrip(n / 10);
      var s := Decimal(n);
      assert s[..|s| - 1] == Decimal(n / 10);
      assert s[|s| - 1] == DigitChar(n % 10);
      DigitRoundTrip(n % 10);
    }
  }

  /** JavaScript's rendering of an integer-valued number below 10^21 in
      magnitude: an optional "-" and then the decimal digits of its
      magnitude. */
  function IntText(n: int): (r: string)
    ensures r != []
    ensures n < 0 <==> r[0] == '-'
    ensures n >= 0 ==> (forall k :: 0 <= k < |r| ==> IsDigit(r[k])) && ParseDecimal(r) == n
    ensures n < 0 ==> (forall k :: 1 <= k < |r| ==> IsDigit(r[k])) && ParseDecimal(r[1..]) == -n
  {
    if n < 0 then
      DecimalRoundTrip(-n);
      assert ("-" + Decimal(-n))[1..] == Decimal(-n);
      "-" + Decimal(-n)
    else
      DecimalRoundTrip(n);
      Decimal(n)
  }
}
