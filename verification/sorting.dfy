/** A stable insertion sort by a total preorder, standing in for
    JavaScript's `Array.prototype.sort` and Python's `sorted`, and the
    order of UTF-16 code units that JavaScript's default `sort()` puts
    strings in. */
module Sorting {

  ghost predicate TotalPreorder<T(!new)>(le: (T, T) -> bool) {
    && (forall x, y :: le(x, y) || le(y, x))
    && (forall x, y, z :: le(x, y) && le(y, z) ==> le(x, z))
  }

  predicate SortedBy<T>(s: seq<T>, le: (T, T) -> bool) {
    forall i, j :: 0 <= i < j < |s| ==> le(s[i], s[j])
  }

  /** `x` placed after every element of `s` that is not above it, so that
      equal elements keep their relative order. */
  function InsertBy<T(!new)>(x: T, s: seq<T>, le: (T, T) -> bool): (r: seq<T>)
    requires TotalPreorder(le)
    requires SortedBy(s, le)
    ensures SortedBy(r, le)
    ensures multiset(r) == multiset(s) + multiset{x}
    ensures |r| == |s| + 1
  {
    if |s| == 0 then [x]
    else if le(s[0], x) then
      var rest := InsertBy(x, s[1..], le);
      InsertAfterHead(x, s, rest, le);
      [s[0]] + rest
    else
      ConsSorted(x, s, le);
      [x] + s
  }

  /** The step of `InsertBy` that keeps the head in front. */
  lemma InsertAfterHead<T(!new)>(x: T, s: seq<T>, rest: seq<T>, le: (T, T) -> bool)
    requires SortedBy(s, le) && |s| > 0 && le(s[0], x)
    requires SortedBy(rest, le) && multiset(rest) == multiset(s[1..]) + multiset{x}
    ensures SortedBy([s[0]] + rest, le)
    ensures multiset([s[0]] + rest) == multiset(s) + multiset{x}
  {
    assert forall k :: 0 <= k < |s[1..]| ==> le(s[0], s[1..][k]);
    BoundSurvivesInsert(s[0], x, s[1..], rest, le);
    ConsSorted(s[0], rest, le);
    assert s == [s[0]] + s[1..];
  }

  /** A lower bound of `x` and of every element of `s` bounds every
      element of any rearrangement of `s` with `x`. */
  lemma BoundSurvivesInsert<T(!new)>(lo: T, x: T, s: seq<T>, r: seq<T>, le: (T, T) -> bool)
    requires le(lo, x)
    requires forall k :: 0 <= k < |s| ==> le(lo, s[k])
    requires multiset(r) == multiset(s) + multiset{x}
    ensures forall j :: 0 <= j < |r| ==> le(lo, r[j])
  {
    forall j | 0 <= j < |r| ensures le(lo, r[j]) {
      assert r[j] in multiset(r);
      if r[j] != x {
        assert r[j] in multiset(s);
        var k :| 0 <= k < |s| && s[k] == r[j];
      }
    }
  }

  lemma ConsSorted<T>(h: T, s: seq<T>, le: (T, T) -> bool)
    requires SortedBy(s, le)
    requires forall j :: 0 <= j < |s| ==> le(h, s[j])
    ensures SortedBy([h] + s, le)
  {
    var r := [h] + s;
    forall i, j | 0 <= i < j < |r| ensures le(r[i], r[j]) {
      assert r[j] == s[j - 1];
      if i > 0 {
        assert r[i] == s[i - 1];
      }
    }
  }

  /** The elements of `s` in ascending `le` order; equal elements stay in
      their original order. */
  function SortBy<T(!new)>(s: seq<T>, le: (T, T) -> bool): (r: seq<T>)
    requires TotalPreorder(le)
    ensures SortedBy(r, le)
    ensures multiset(r) == multiset(s)
    ensures |r| == |s|
  {
    if |s| == 0 then []
    else
      assert s == s[..|s| - 1] + [s[|s| - 1]];
      InsertBy(s[|s| - 1], SortBy(s[..|s| - 1], le), le)
  }

  // ---------------------------------------------------------------------
  // String order
  // ---------------------------------------------------------------------

  /** Lexicographic order on sequences of numbers; a prefix comes first. */
  predicate LexLe(a: seq<int>, b: seq<int>) {
    |a| == 0 || (|b| > 0 && (a[0] < b[0] || (a[0] == b[0] && LexLe(a[1..], b[1..]))))
  }

  lemma {:induction false} LexLeTotal(a: seq<int>, b: seq<int>)
    ensures LexLe(a, b) || LexLe(b, a)
    decreases |a|
  {
    if |a| > 0 && |b| > 0 && a[0] == b[0] {
      LexLeTotal(a[1..], b[1..]);
    }
  }

  lemma {:induction false} LexLeTransitive(a: seq<int>, b: seq<int>, c: seq<int>)
    requires LexLe(a, b) && LexLe(b, c)
    ensures LexLe(a, c)
    decreases |a|
  {
    if |a| > 0 && a[0] == b[0] && b[0] == c[0] {
      LexLeTransitive(a[1..], b[1..], c[1..]);
    }
  }

  lemma {:induction false} LexLeAntisymmetric(a: seq<int>, b: seq<int>)
    requires LexLe(a, b) && LexLe(b, a)
    ensures a == b
    decreases |a|
  {
    if |a| > 0 {
      LexLeAntisymmetric(a[1..], b[1..]);
      assert a == [a[0]] + a[1..] && b == [b[0]] + b[1..];
    }
  }

  /** The UTF-16 code units of one character: itself below U+10000, a
      high and a low surrogate above. */
  function Units(c: char): (r: seq<int>)
    ensures |r| == if c as int < 0x10000 then 1 else 2
    ensures 0xD800 <= r[0] < 0xDC00 <==> |r| == 2
  {
    var v := c as int;
    if v < 0x10000 then [v]
    else [0xD800 + (v - 0x10000) / 0x400, 0xDC00 + (v - 0x10000) % 0x400]
  }

  /** A character is the only one with its code units. */
  lemma UnitsInjective(c: char, d: char)
    requires Units(c) == Units(d)
    ensures c == d
  {
    var v, w := c as int, d as int;
    if v >= 0x10000 {
      assert v - 0x10000 == (v - 0x10000) / 0x400 * 0x400 + (v - 0x10000) % 0x400;
      assert w - 0x10000 == (w - 0x10000) / 0x400 * 0x400 + (w - 0x10000) % 0x400;
    }
  }

  /** A string as JavaScript stores it: its UTF-16 code units. */
  function Utf16(s: string): (r: seq<int>)
    ensures |s| > 0 ==> |r| > 0
  {
    if |s| == 0 then [] else Units(s[0]) + Utf16(s[1..])
  }

  /** Different strings have different code units. */
  lemma {:induction false} Utf16Injective(a: string, b: string)
    requires Utf16(a) == Utf16(b)
    ensures a == b
    decreases |a|
  {
    if |a| > 0 {
      var u, w := Units(a[0]), Units(b[0]);
      assert Utf16(a) == u + Utf16(a[1..]) && Utf16(b) == w + Utf16(b[1..]);
      assert u[0] == Utf16(a)[0] == w[0];
      assert |u| == |w|;
      assert u == Utf16(a)[..|u|] == w;
      UnitsInjective(a[0], b[0]);
      assert Utf16(a[1..]) == Utf16(a)[|u|..] == Utf16(b[1..]);
      Utf16Injective(a[1..], b[1..]);
      assert a == [a[0]] + a[1..] && b == [b[0]] + b[1..];
    }
  }

  /** The order JavaScript's default `sort()` puts strings in: by UTF-16
      code units. */
  predicate CodeUnitLe(a: string, b: string) {
    LexLe(Utf16(a), Utf16(b))
  }

  /** The string order is a total order. */
  lemma CodeUnitLeIsTotalPreorder()
    ensures TotalPreorder(CodeUnitLe)
  {
    forall a, b ensures CodeUnitLe(a, b) || CodeUnitLe(b, a) {
      LexLeTotal(Utf16(a), Utf16(b));
    }
    forall a, b, c | CodeUnitLe(a, b) && CodeUnitLe(b, c) ensures CodeUnitLe(a, c) {
      LexLeTransitive(Utf16(a), Utf16(b), Utf16(c));
    }
  }

  lemma CodeUnitLeAntisymmetric(a: string, b: string)
    requires CodeUnitLe(a, b) && CodeUnitLe(b, a)
    ensures a == b
  {
    LexLeAntisymmetric(Utf16(a), Utf16(b));
    Utf16Injective(a, b);
  }

  /** Order by code point, character by character. */
  predicate CodePointLe(a: string, b: string) {
    LexLe(CodePoints(a), CodePoints(b))
  }

  function CodePoints(s: string): (r: seq<int>)
    ensures |r| == |s| && forall i :: 0 <= i < |s| ==> r[i] == s[i] as int
  {
    seq(|s|, i requires 0 <= i < |s| => s[i] as int)
  }

  /** Below U+10000 a character is its one code unit, so there the two
      orders agree. */
  lemma {:induction false} Utf16OfBasic(s: string)
    requires forall i :: 0 <= i < |s| ==> s[i] as int < 0x10000
    ensures Utf16(s) == CodePoints(s)
    decreases |s|
  {
    if |s| > 0 {
      Utf16OfBasic(s[1..]);
      assert CodePoints(s) == [s[0] as int] + CodePoints(s[1..]);
    }
  }

  lemma OrdersAgreeBelowSurrogates(a: string, b: string)
    requires forall i :: 0 <= i < |a| ==> a[i] as int < 0x10000
    requires forall i :: 0 <= i < |b| ==> b[i] as int < 0x10000
    ensures CodeUnitLe(a, b) <==> CodePointLe(a, b)
  {
    Utf16OfBasic(a);
    Utf16OfBasic(b);
  }

  /** Above U+FFFF they differ: U+1F600 has the higher code point but the
      lower first code unit (0xD83D) than U+FF61. */
  lemma OrdersDisagreeAboveFFFF()
    ensures CodePointLe("\U{FF61}", "\U{1F600}") && !CodePointLe("\U{1F600}", "\U{FF61}")
    ensures CodeUnitLe("\U{1F600}", "\U{FF61}") && !CodeUnitLe("\U{FF61}", "\U{1F600}")
  {
    assert Utf16("\U{1F600}") == [0xD83D, 0xDE00] by {
      assert Units('\U{1F600}') == [0xD83D, 0xDE00];
    }
    assert Utf16("\U{FF61}") == [0xFF61];
  }
}
