/**
  The string primitives the application leans on: JavaScript's `String.prototype.trim`,
  `toLowerCase` (on the ASCII letters) and the decimal rendering of a count.
 */
module Text {

  /** The characters `trim` removes: ECMAScript WhiteSpace and LineTerminator. */
  predicate IsSpace(c: char)
  {
    || c == '\t' || c == '\n' || c == '\U{000B}' || c == '\U{000C}' || c == '\r' || c == ' '
    || c == '\U{00A0}' || c == '\U{1680}' || ('\U{2000}' <= c <= '\U{200A}')
    || c == '\U{2028}' || c == '\U{2029}' || c == '\U{202F}' || c == '\U{205F}'
    || c == '\U{3000}' || c == '\U{FEFF}'
  }

  predicate AllSpace(s: string)
  {
    forall k :: 0 <= k < |s| ==> IsSpace(s[k])
  }

  /** Trimming `s` keeps exactly `s[i..j]`: only white space lies outside it, and
      the kept part neither starts nor ends with white space. */
  ghost predicate TrimmedAt(s: string, i: int, j: int)
  {
    && 0 <= i <= j <= |s|
    && (forall k :: 0 <= k < i ==> IsSpace(s[k]))
    && (forall k :: j <= k < |s| ==> IsSpace(s[k]))
    && (i < j ==> !IsSpace(s[i]) && !IsSpace(s[j - 1]))
  }

  /** The first position at or after `k` that holds no white space, or `|s|`. */
  function SkipFrom(s: string, k: nat): (r: nat)
    requires k <= |s|
    ensures k <= r <= |s|
    ensures forall m :: k <= m < r ==> IsSpace(s[m])
    ensures r < |s| ==> !IsSpace(s[r])
    decreases |s| - k
  {
    if k == |s| || !IsSpace(s[k]) then k else SkipFrom(s, k + 1)
  }

  /** One past the last position before `e`, and not below `lo`, that holds no white
      space, or `lo`. */
  function BackFrom(s: string, lo: nat, e: nat): (r: nat)
    requires lo <= e <= |s|
    ensures lo <= r <= e
    ensures forall m :: r <= m < e ==> IsSpace(s[m])
    ensures r > lo ==> !IsSpace(s[r - 1])
    decreases e
  {
    if e == lo || !IsSpace(s[e - 1]) then e else BackFrom(s, lo, e - 1)
  }

  /** The number of white-space characters `trim` removes from the front of `s`. */
  function Lead(s: string): nat
    ensures Lead(s) <= |s|
  {
    SkipFrom(s, 0)
  }

  /** Where the kept part of `s` ends. */
  function Tail(s: string): nat
    ensures Lead(s) <= Tail(s) <= |s|
  {
    BackFrom(s, Lead(s), |s|)
  }

  /** `String.prototype.trim`: removes white space at both ends and nothing else
      (`TrimIsTrimmedAt`). */
  function Trim(s: string): (r: string)
    ensures |r| == Tail(s) - Lead(s)
    ensures r == s[Lead(s)..Tail(s)]
  {
    s[Lead(s)..Tail(s)]
  }

  lemma TrimIsTrimmedAt(s: string)
    ensures TrimmedAt(s, Lead(s), Tail(s))
  {
  }

  /** Only one substring of `s` can be what trimming leaves. */
  lemma TrimmedAtUnique(s: string, i: int, j: int, i': int, j': int)
    requires TrimmedAt(s, i, j) && TrimmedAt(s, i', j')
    ensures i < j ==> i' == i && j' == j
    ensures i == j ==> i' == j'
  {
    if i < j {
      assert i' == i;
      assert j' == j;
    } else {
      assert forall k :: 0 <= k < |s| ==> IsSpace(s[k]);
    }
  }

  /** Whatever satisfies `TrimmedAt` is what `Trim` returns. */
  lemma TrimOfTrimmedAt(s: string, i: int, j: int)
    requires TrimmedAt(s, i, j)
    ensures Trim(s) == s[i..j]
  {
    TrimIsTrimmedAt(s);
    TrimmedAtUnique(s, i, j, Lead(s), Tail(s));
  }

  /** Text padded with white space trims back to itself, whatever the padding. */
  lemma TrimPadded(a: string, u: string, b: string)
    requires AllSpace(a) && AllSpace(b)
    requires |u| > 0 ==> !IsSpace(u[0]) && !IsSpace(u[|u| - 1])
    ensures Trim(a + u + b) == u
  {
    var s := a + u + b;
    assert s[|a|..|a| + |u|] == u;
    assert forall k :: 0 <= k < |a| ==> s[k] == a[k];
    assert forall k :: |a| + |u| <= k < |s| ==> s[k] == b[k - |a| - |u|];
    TrimOfTrimmedAt(s, |a|, |a| + |u|);
  }

  /** Trimming twice is trimming once. */
  lemma TrimIdempotent(s: string)
    ensures Trim(Trim(s)) == Trim(s)
  {
    var u := Trim(s);
    assert "" + u + "" == u;
    TrimPadded("", u, "");
  }

  lemma AllSpaceAppend(a: string, b: string)
    requires AllSpace(a) && AllSpace(b)
    ensures AllSpace(a + b)
  {
    assert forall k :: 0 <= k < |a| + |b| ==> (a + b)[k] == if k < |a| then a[k] else b[k - |a|];
  }

  /** White space around a text changes nothing about its trimmed form. */
  lemma TrimIgnoresPadding(a: string, u: string, b: string)
    requires AllSpace(a) && AllSpace(b)
    ensures Trim(a + u + b) == Trim(u)
  {
    var t := Trim(u);
    var i, j := Lead(u), Tail(u);
    var p, q := u[..i], u[j..];
    TrimIsTrimmedAt(u);
    assert u == p + t + q by {
      assert t == u[i..j];
    }
    assert AllSpace(p) && AllSpace(q);
    AllSpaceAppend(a, p);
    AllSpaceAppend(q, b);
    Regroup(a, p, t, q, b);
    TrimPadded(a + p, t, q + b);
  }

  lemma Regroup(a: string, p: string, t: string, q: string, b: string)
    ensures a + (p + t + q) + b == (a + p) + t + (q + b)
  {
  }

  function LowerChar(c: char): char
  {
    if 'A' <= c <= 'Z' then (c as int - 'A' as int + 'a' as int) as char else c
  }

  /** `toLowerCase` on the ASCII letters; every other character is kept. */
  function Lower(s: string): (r: string)
    ensures |r| == |s|
    ensures forall k :: 0 <= k < |s| ==> r[k] == LowerChar(s[k])
    ensures forall k :: 0 <= k < |r| ==> !('A' <= r[k] <= 'Z')
    ensures forall k :: 0 <= k < |s| ==> (r[k] == s[k] <==> !('A' <= s[k] <= 'Z'))
  {
    seq(|s|, k requires 0 <= k < |s| => LowerChar(s[k]))
  }

  /** Lower-casing neither creates nor removes white space. */
  lemma LowerTrimmedAt(s: string, i: int, j: int)
    requires TrimmedAt(s, i, j)
    ensures TrimmedAt(Lower(s), i, j)
  {
    var l := Lower(s);
    forall k | 0 <= k < |s|
      ensures IsSpace(l[k]) <==> IsSpace(s[k])
    {
    }
  }

  /** Hence lower-casing commutes with trimming. */
  lemma TrimLowerCommute(s: string)
    ensures Trim(Lower(s)) == Lower(Trim(s))
  {
    var i, j := Lead(s), Tail(s);
    TrimIsTrimmedAt(s);
    LowerTrimmedAt(s, i, j);
    TrimOfTrimmedAt(Lower(s), i, j);
    LowerSlice(s, i, j);
  }

  lemma LowerSlice(s: string, i: int, j: int)
    requires 0 <= i <= j <= |s|
    ensures Lower(s[i..j]) == Lower(s)[i..j]
  {
    var t := s[i..j];
    var a, b := Lower(t), Lower(s)[i..j];
    assert |a| == |b|;
    forall k | 0 <= k < |a|
      ensures a[k] == b[k]
    {
      assert t[k] == s[i + k];
      assert a[k] == LowerChar(t[k]);
      assert b[k] == Lower(s)[i + k] == LowerChar(s[i + k]);
    }
    assert a == b;
  }

  function Digit(d: nat): char
    requires d < 10
  {
    ('0' as int + d) as char
  }

  /** The decimal rendering JavaScript gives a non-negative integer count. */
  function NatToString(n: nat): (r: string)
    ensures |r| >= 1
    ensures forall k :: 0 <= k < |r| ==> '0' <= r[k] <= '9'
    ensures |r| > 1 ==> r[0] != '0'
  {
    if n < 10 then [Digit(n)] else NatToString(n / 10) + [Digit(n % 10)]
  }

  /** The value of a string of decimal digits. */
  function DigitsValue(s: string): nat
    requires forall k :: 0 <= k < |s| ==> '0' <= s[k] <= '9'
  {
    if |s| == 0 then 0 else DigitsValue(s[..|s| - 1]) * 10 + (s[|s| - 1] as int - '0' as int)
  }

  /** Reading the rendered count back gives the count. */
  lemma {:induction false} NatToStringRoundTrip(n: nat)
    ensures DigitsValue(NatToString(n)) == n
  {
    if n >= 10 {
      var s := NatToString(n);
      assert s[..|s| - 1] == NatToString(n / 10);
      NatToStringRoundTrip(n / 10);
    }
  }
}
