/** The Python string operations the scraper relies on (`strip`, `split`,
    `join`, `replace`, `lower`, `in`, slicing and `str(int)`), on ASCII
    strings, each with a characterisation that does not depend on how it is
    computed: a contract or lemma that pins down its result. */
module Strings {
  import opened Chars

  // ---------------------------------------------------------------------
  // Case and whitespace
  // ---------------------------------------------------------------------

  /** `s.lower()` */
  function Lower(s: string): (r: string)
    ensures |r| == |s|
    ensures forall i :: 0 <= i < |s| ==> r[i] == ToLower(s[i])
  {
    if |s| == 0 then "" else [ToLower(s[0])] + Lower(s[1..])
  }

  lemma LowerConcat(a: string, b: string)
    ensures Lower(a + b) == Lower(a) + Lower(b)
  {
    assert forall i :: 0 <= i < |a + b| ==> Lower(a + b)[i] == (Lower(a) + Lower(b))[i];
  }

  /** `s` with every whitespace character deleted. */
  function RemoveSpaces(s: string): (r: string)
    ensures |r| <= |s|
    ensures NoSpaces(r)
  {
    if |s| == 0 then ""
    else if IsSpace(s[0]) then RemoveSpaces(s[1..])
    else [s[0]] + RemoveSpaces(s[1..])
  }

  predicate NoSpaces(s: string) {
    forall i :: 0 <= i < |s| ==> !IsSpace(s[i])
  }

  predicate AllSpaces(s: string) {
    forall i :: 0 <= i < |s| ==> IsSpace(s[i])
  }

  lemma {:induction false} RemoveSpacesConcat(a: string, b: string)
    ensures RemoveSpaces(a + b) == RemoveSpaces(a) + RemoveSpaces(b)
    decreases |a|
  {
    if |a| == 0 {
      assert a + b == b;
    } else {
      assert (a + b)[1..] == a[1..] + b;
      RemoveSpacesConcat(a[1..], b);
    }
  }

  lemma {:induction false} RemoveSpacesOfWord(s: string)
    requires NoSpaces(s)
    ensures RemoveSpaces(s) == s
    decreases |s|
  {
    if |s| > 0 {
      RemoveSpacesOfWord(s[1..]);
    }
  }

  lemma {:induction false} RemoveSpacesOfBlank(s: string)
    requires AllSpaces(s)
    ensures RemoveSpaces(s) == ""
    decreases |s|
  {
    if |s| > 0 {
      RemoveSpacesOfBlank(s[1..]);
    }
  }

  lemma AllSpacesCons(c: char, t: string)
    requires IsSpace(c) && AllSpaces(t)
    ensures AllSpaces([c] + t)
  {
    assert forall i :: 1 <= i < |[c] + t| ==> ([c] + t)[i] == t[i - 1];
  }

  lemma AllSpacesSnoc(t: string, c: char)
    requires IsSpace(c) && AllSpaces(t)
    ensures AllSpaces(t + [c])
  {
    assert forall i :: 0 <= i < |t| ==> (t + [c])[i] == t[i];
  }

  /** How much leading whitespace `s` has: `s.lstrip()` is `s[Lead(s)..]`. */
  function Lead(s: string): (n: nat)
    ensures n <= |s| && AllSpaces(s[..n])
    ensures n < |s| ==> !IsSpace(s[n])
  {
    if |s| > 0 && IsSpace(s[0]) then
      var k := Lead(s[1..]);
      assert s[..k + 1] == [s[0]] + s[1..][..k];
      AllSpacesCons(s[0], s[1..][..k]);
      k + 1
    else 0
  }

  /** Where the trailing whitespace of `s` starts: `s.rstrip()` is
      `s[..Trail(s)]`. */
  function Trail(s: string): (n: nat)
    ensures n <= |s| && AllSpaces(s[n..])
    ensures n > 0 ==> !IsSpace(s[n - 1])
  {
    if |s| > 0 && IsSpace(s[|s| - 1]) then
      var t := s[..|s| - 1];
      var k := Trail(t);
      assert s[k..] == t[k..] + [s[|s| - 1]];
      AllSpacesSnoc(t[k..], s[|s| - 1]);
      k
    else |s|
  }

  /** `s.strip()`: the slice of `s` left after dropping whitespace at both
      ends; it neither starts nor ends with whitespace. */
  function Strip(s: string): (r: string)
    ensures Lead(s) + |r| <= |s| && r == s[Lead(s)..Lead(s) + |r|]
    ensures AllSpaces(s[..Lead(s)]) && AllSpaces(s[Lead(s) + |r|..])
    ensures |r| == 0 || (!IsSpace(r[0]) && !IsSpace(r[|r| - 1]))
  {
    var i := Lead(s);
    var t := s[i..];
    var n := Trail(t);
    assert t[..n] == s[i..i + n];
    assert s[i + n..] == t[n..];
    t[..n]
  }

  /** A string that starts with a non-space character keeps it when
      stripped. */
  lemma StripKeepsHead(s: string)
    requires |s| > 0 && !IsSpace(s[0])
    ensures |Strip(s)| > 0 && Strip(s) == s[..|Strip(s)|]
  {
    assert Lead(s) == 0;
    assert s[0..] == s;
  }

  /** Stripping deletes whitespace only. */
  lemma StripKeepsText(s: string)
    ensures RemoveSpaces(Strip(s)) == RemoveSpaces(s)
  {
    var i := Lead(s);
    RemoveSpacesOfPadded(s, s[..i], Strip(s), s[i + |Strip(s)|..]);
  }

  lemma RemoveSpacesOfPadded(s: string, a: string, m: string, b: string)
    requires AllSpaces(a) && AllSpaces(b)
    requires |a| + |m| <= |s| && a == s[..|a|] && m == s[|a|..|a| + |m|] && b == s[|a| + |m|..]
    ensures RemoveSpaces(s) == RemoveSpaces(m)
  {
    calc {
      RemoveSpaces(s);
      { PrefixMiddleSuffix(s, |a|, |a| + |m|); }
      RemoveSpaces(a + (m + b));
      { RemoveSpacesConcat(a, m + b); RemoveSpacesConcat(m, b); }
      RemoveSpaces(a) + (RemoveSpaces(m) + RemoveSpaces(b));
      { RemoveSpacesOfBlank(a); RemoveSpacesOfBlank(b); }
      "" + (RemoveSpaces(m) + "");
      RemoveSpaces(m);
    }
  }

  lemma PrefixMiddleSuffix(s: string, i: nat, j: nat)
    requires i <= j <= |s|
    ensures s == s[..i] + (s[i..j] + s[j..])
  {
  }

  /** A string with no surrounding whitespace is its own strip. */
  lemma StripTrimmed(s: string)
    requires |s| == 0 || (!IsSpace(s[0]) && !IsSpace(s[|s| - 1]))
    ensures Strip(s) == s
  {
  }

  // ---------------------------------------------------------------------
  // Joining and splitting
  // ---------------------------------------------------------------------

  /** `sep.join(words)` */
  function Join(words: seq<string>, sep: string): string
  {
    if |words| == 0 then ""
    else if |words| == 1 then words[0]
    else words[0] + sep + Join(words[1..], sep)
  }

  /** All the words laid end to end (`"".join(words)`). */
  function Concat(words: seq<string>): string
  {
    if |words| == 0 then "" else words[0] + Concat(words[1..])
  }

  /** Joining with single spaces adds whitespace only. */
  lemma {:induction false} RemoveSpacesOfJoin(words: seq<string>)
    ensures RemoveSpaces(Join(words, " ")) == RemoveSpaces(Concat(words))
    decreases |words|
  {
    if |words| == 1 {
      assert words[1..] == [];
      assert Concat(words) == words[0] + "";
      assert words[0] + "" == words[0];
    } else if |words| > 1 {
      var w := words[0];
      RemoveSpacesOfJoin(words[1..]);
      RemoveSpacesConcat(w + " ", Join(words[1..], " "));
      RemoveSpacesConcat(w, " ");
      RemoveSpacesConcat(w, Concat(words[1..]));
    }
  }

  /** Length of the run of non-whitespace characters at the front of `s`. */
  function WordLength(s: string): (n: nat)
    ensures n <= |s|
    ensures NoSpaces(s[..n])
    ensures n == |s| || IsSpace(s[n])
  {
    if |s| == 0 || IsSpace(s[0]) then 0 else 1 + WordLength(s[1..])
  }

  /** `s.split()`: the maximal runs of non-whitespace characters. */
  function Tokens(s: string): (r: seq<string>)
    ensures forall k :: 0 <= k < |r| ==> |r[k]| > 0 && NoSpaces(r[k])
    decreases |s|
  {
    if |s| == 0 then []
    else if IsSpace(s[0]) then Tokens(s[1..])
    else
      var n := WordLength(s);
      [s[..n]] + Tokens(s[n..])
  }

  /** Splitting on whitespace loses nothing but the whitespace. */
  lemma {:induction false} TokensKeepText(s: string)
    ensures Concat(Tokens(s)) == RemoveSpaces(s)
    decreases |s|
  {
    if |s| == 0 {
    } else if IsSpace(s[0]) {
      TokensKeepText(s[1..]);
    } else {
      var n := WordLength(s);
      TokensKeepText(s[n..]);
      assert s == s[..n] + s[n..];
      RemoveSpacesConcat(s[..n], s[n..]);
      RemoveSpacesOfWord(s[..n]);
    }
  }

  lemma {:induction false} WordLengthOfWord(w: string, rest: string)
    requires NoSpaces(w)
    requires |rest| == 0 || IsSpace(rest[0])
    ensures WordLength(w + rest) == |w|
    decreases |w|
  {
    if |w| > 0 {
      assert (w + rest)[1..] == w[1..] + rest;
      WordLengthOfWord(w[1..], rest);
    } else {
      assert w + rest == rest;
    }
  }

  /** Joining non-empty, whitespace-free words with single spaces and
      splitting the result on whitespace gives the words back. */
  lemma {:induction false} TokensOfJoin(words: seq<string>)
    requires forall k :: 0 <= k < |words| ==> |words[k]| > 0 && NoSpaces(words[k])
    ensures Tokens(Join(words, " ")) == words
    decreases |words|
  {
    if |words| == 0 {
    } else if |words| == 1 {
      var w := words[0];
      WordLengthOfWord(w, "");
      assert w + "" == w;
      assert w[..|w|] == w;
      assert w[|w|..] == "";
    } else {
      var w := words[0];
      var rest := Join(words[1..], " ");
      var s := w + " " + rest;
      assert Join(words, " ") == s;
      WordLengthOfWord(w, " " + rest);
      assert s == w + (" " + rest);
      assert s[..|w|] == w;
      assert s[|w|..] == " " + rest;
      assert (" " + rest)[1..] == rest;
      TokensOfJoin(words[1..]);
      assert words == [w] + words[1..];
    }
  }

  /** No whitespace at either end, and every whitespace character inside is
      a single `' '` between two non-whitespace characters. */
  predicate SingleSpaced(s: string) {
    && (|s| > 0 ==> !IsSpace(s[0]) && !IsSpace(s[|s| - 1]))
    && forall k :: 0 < k < |s| - 1 && IsSpace(s[k]) ==>
         s[k] == ' ' && !IsSpace(s[k - 1]) && !IsSpace(s[k + 1])
  }

  /** Joining non-empty, whitespace-free words with `" "` leaves them
      single-spaced. */
  lemma {:induction false} JoinSingleSpaced(words: seq<string>)
    requires forall k :: 0 <= k < |words| ==> |words[k]| > 0 && NoSpaces(words[k])
    ensures SingleSpaced(Join(words, " "))
    ensures |words| > 0 ==> |Join(words, " ")| > 0
    decreases |words|
  {
    if |words| == 1 {
      assert Join(words, " ") == words[0];
    } else if |words| > 1 {
      JoinSingleSpaced(words[1..]);
      assert Join(words, " ") == words[0] + " " + Join(words[1..], " ");
      SingleSpacedCons(words[0], Join(words[1..], " "));
    }
  }

  lemma SingleSpacedCons(w: string, t: string)
    requires |w| > 0 && NoSpaces(w) && |t| > 0 && SingleSpaced(t)
    ensures SingleSpaced(w + " " + t)
  {
    var s := w + " " + t;
    assert forall k :: 0 <= k < |w| ==> s[k] == w[k];
    assert forall k :: |w| < k < |s| ==> s[k] == t[k - |w| - 1];
    forall k | 0 < k < |s| - 1 && IsSpace(s[k])
      ensures s[k] == ' ' && !IsSpace(s[k - 1]) && !IsSpace(s[k + 1])
    {
      if k > |w| + 1 {
        assert s[k - 1] == t[k - |w| - 2];
      }
    }
    assert s[|s| - 1] == t[|t| - 1];
  }

  /** `gaps[0] + words[0] + gaps[1] + ... + words[n - 1] + gaps[n]`. */
  function Weave(gaps: seq<string>, words: seq<string>): string
    requires |gaps| == |words| + 1
    decreases |words|
  {
    if |words| == 0 then gaps[0] else gaps[0] + words[0] + Weave(gaps[1..], words[1..])
  }

  /** `words` laid out with whitespace `gaps` around them: each word is
      non-empty and free of whitespace, each gap is whitespace only, and
      two words are always separated by at least one whitespace character,
      so that each word is a maximal run of non-whitespace. */
  predicate WordLayout(gaps: seq<string>, words: seq<string>) {
    && |gaps| == |words| + 1
    && (forall k :: 0 <= k < |gaps| ==> AllSpaces(gaps[k]))
    && (forall k :: 0 < k < |words| ==> |gaps[k]| > 0)
    && (forall k :: 0 <= k < |words| ==> |words[k]| > 0 && NoSpaces(words[k]))
  }

  /** `split()` gives back the words of any layout: the tokens are the
      maximal runs of non-whitespace, in order. */
  lemma {:induction false} TokensOfLayout(gaps: seq<string>, words: seq<string>)
    requires WordLayout(gaps, words)
    ensures Tokens(Weave(gaps, words)) == words
    decreases |words|
  {
    if |words| == 0 {
      TokensOfBlank(gaps[0], "");
      assert gaps[0] + "" == gaps[0];
    } else {
      var w := words[0];
      var rest := Weave(gaps[1..], words[1..]);
      assert Weave(gaps, words) == gaps[0] + (w + rest);
      assert WordLayout(gaps[1..], words[1..]);
      assert |rest| == 0 || IsSpace(rest[0]) by {
        if |words| > 1 {
          assert rest == gaps[1] + (words[1] + Weave(gaps[2..], words[2..]));
          assert rest[0] == gaps[1][0];
        }
      }
      TokensOfBlank(gaps[0], w + rest);
      TokensOfWordThen(w, rest);
      TokensOfLayout(gaps[1..], words[1..]);
    }
  }

  /** Leading whitespace is skipped. */
  lemma {:induction false} TokensOfBlank(g: string, t: string)
    requires AllSpaces(g)
    ensures Tokens(g + t) == Tokens(t)
    decreases |g|
  {
    if |g| > 0 {
      assert (g + t)[1..] == g[1..] + t;
      TokensOfBlank(g[1..], t);
    } else {
      assert g + t == t;
    }
  }

  /** A word ended by whitespace, or by the end of the string, is a token. */
  lemma TokensOfWordThen(w: string, t: string)
    requires |w| > 0 && NoSpaces(w)
    requires |t| == 0 || IsSpace(t[0])
    ensures Tokens(w + t) == [w] + Tokens(t)
  {
    var s := w + t;
    WordLengthOfWord(w, t);
    assert s[..|w|] == w;
    assert s[|w|..] == t;
  }

  /** The whitespace around the tokens of `s`, run by run. */
  function TokenGaps(s: string): (r: seq<string>)
    ensures |r| > 0
    ensures |s| > 0 && IsSpace(s[0]) ==> |r[0]| > 0
    decreases |s|
  {
    if |s| == 0 then [""]
    else if IsSpace(s[0]) then
      var g := TokenGaps(s[1..]);
      [[s[0]] + g[0]] + g[1..]
    else
      [""] + TokenGaps(s[WordLength(s)..])
  }

  /** Every string is the layout of its tokens, so together with
      `TokensOfLayout` the tokens of `s` are the one word list that lays
      `s` out. */
  lemma {:induction false} TokensLayout(s: string)
    ensures WordLayout(TokenGaps(s), Tokens(s)) && Weave(TokenGaps(s), Tokens(s)) == s
    decreases |s|
  {
    if |s| == 0 {
    } else if IsSpace(s[0]) {
      TokensLayout(s[1..]);
      LayoutAfterSpace(s);
    } else {
      TokensLayout(s[WordLength(s)..]);
      LayoutAfterWord(s);
    }
  }

  lemma LayoutAfterSpace(s: string)
    requires |s| > 0 && IsSpace(s[0])
    requires WordLayout(TokenGaps(s[1..]), Tokens(s[1..]))
    requires Weave(TokenGaps(s[1..]), Tokens(s[1..])) == s[1..]
    ensures WordLayout(TokenGaps(s), Tokens(s)) && Weave(TokenGaps(s), Tokens(s)) == s
  {
    var g, r := TokenGaps(s[1..]), Tokens(s[1..]);
    LayoutConsSpace(s[0], g, r, s[1..]);
    assert [s[0]] + s[1..] == s;
  }

  lemma LayoutAfterWord(s: string)
    requires |s| > 0 && !IsSpace(s[0])
    requires WordLayout(TokenGaps(s[WordLength(s)..]), Tokens(s[WordLength(s)..]))
    requires Weave(TokenGaps(s[WordLength(s)..]), Tokens(s[WordLength(s)..])) == s[WordLength(s)..]
    ensures WordLayout(TokenGaps(s), Tokens(s)) && Weave(TokenGaps(s), Tokens(s)) == s
  {
    var n := WordLength(s);
    var t := s[n..];
    var g, r := TokenGaps(t), Tokens(t);
    assert |r| > 0 ==> |g[0]| > 0 by {
      TokensOfNonEmpty(t);
      if |t| > 0 {
        assert t[0] == s[n];
      }
    }
    LayoutConsWord(s[..n], g, r, t);
    PrefixSuffix(s, n);
  }

  lemma PrefixSuffix(s: string, n: nat)
    requires n <= |s|
    ensures s[..n] + s[n..] == s
  {
  }

  /** Only a non-empty string has tokens. */
  lemma TokensOfNonEmpty(t: string)
    ensures |Tokens(t)| > 0 ==> |t| > 0
  {
    if |t| == 0 {
      assert Tokens(t) == [];
    }
  }

  /** Whitespace put in front of a layout joins its first gap. */
  lemma LayoutConsSpace(c: char, g: seq<string>, r: seq<string>, t: string)
    requires IsSpace(c) && WordLayout(g, r) && Weave(g, r) == t
    ensures WordLayout([[c] + g[0]] + g[1..], r) && Weave([[c] + g[0]] + g[1..], r) == [c] + t
  {
    var h := [[c] + g[0]] + g[1..];
    AllSpacesCons(c, g[0]);
    assert forall k :: 0 < k < |h| ==> h[k] == g[k];
    if |r| > 0 {
      assert h[1..] == g[1..];
      assert Weave(h, r) == ([c] + g[0]) + r[0] + Weave(g[1..], r[1..]);
    }
  }

  /** A word put in front of a layout that opens with whitespace (or has
      no words) is a new first word. */
  lemma LayoutConsWord(w: string, g: seq<string>, r: seq<string>, t: string)
    requires |w| > 0 && NoSpaces(w) && WordLayout(g, r) && Weave(g, r) == t
    requires |r| > 0 ==> |g[0]| > 0
    ensures WordLayout([""] + g, [w] + r) && Weave([""] + g, [w] + r) == w + t
  {
    var h, q := [""] + g, [w] + r;
    assert h[1..] == g && q[1..] == r;
    assert forall k :: 0 < k < |h| ==> h[k] == g[k - 1];
    assert forall k :: 0 < k < |q| ==> q[k] == r[k - 1];
    assert Weave(h, q) == h[0] + q[0] + Weave(h[1..], q[1..]);
    assert h[0] + q[0] == w;
  }


  /** Length of the prefix of `s` before the first `d`, or `|s|`. */
  function FieldLength(s: string, d: char): (n: nat)
    ensures n <= |s|
    ensures d !in s[..n]
    ensures n == |s| || s[n] == d
  {
    if |s| == 0 || s[0] == d then 0 else 1 + FieldLength(s[1..], d)
  }

  /** `s.split(d)` for a one-character separator: always at least one
      field, none containing `d`, and joining them with `d` gives `s`
      back. */
  function Split(s: string, d: char): (r: seq<string>)
    ensures |r| >= 1
    ensures forall k :: 0 <= k < |r| ==> d !in r[k]
    ensures Join(r, [d]) == s
    decreases |s|
  {
    var n := FieldLength(s, d);
    if n == |s| then
      assert s[..n] == s;
      [s]
    else
      var rest := Split(s[n + 1..], d);
      assert s == s[..n] + [d] + s[n + 1..];
      [s[..n]] + rest
  }

  lemma {:induction false} FieldLengthOfField(w: string, d: char, rest: string)
    requires d !in w
    requires |rest| == 0 || rest[0] == d
    ensures FieldLength(w + rest, d) == |w|
    decreases |w|
  {
    if |w| > 0 {
      assert (w + rest)[1..] == w[1..] + rest;
      FieldLengthOfField(w[1..], d, rest);
    } else {
      assert w + rest == rest;
    }
  }

  /** Splitting two separator-free fields joined by the separator gives the
      two fields. */
  lemma SplitTwo(a: string, d: char, b: string)
    requires d !in a && d !in b
    ensures Split(a + [d] + b, d) == [a, b]
  {
    var s := a + [d] + b;
    FieldLengthOfField(a, d, [d] + b);
    assert s == a + ([d] + b);
    assert s[..|a|] == a;
    assert s[|a| + 1..] == b;
    FieldLengthOfField(b, d, "");
    assert b + "" == b;
    assert b[..|b|] == b;
  }

  /** A string without the separator is a single field. */
  lemma SplitNone(a: string, d: char)
    requires d !in a
    ensures Split(a, d) == [a]
  {
    FieldLengthOfField(a, d, "");
    assert a + "" == a;
  }

  // ---------------------------------------------------------------------
  // Search and replace
  // ---------------------------------------------------------------------

  /** Some occurrence of `pat` in `s` starts at position `p`. */
  predicate OccursAt(s: string, pat: string, p: nat) {
    p + |pat| <= |s| && s[p..p + |pat|] == pat
  }

  /** `sub in s` */
  predicate Contains(s: string, sub: string) {
    exists p: nat :: p <= |s| && OccursAt(s, sub, p)
  }

  /** A string lacking the first character of `sub` does not contain it. */
  lemma ContainsNeedsFirstChar(s: string, sub: string)
    requires |sub| > 0 && sub[0] !in s
    ensures !Contains(s, sub)
  {
    forall p: nat | p <= |s| ensures !OccursAt(s, sub, p) {
      if p + |sub| <= |s| {
        assert s[p..p + |sub|][0] == s[p];
      }
    }
  }

  lemma ContainsHasFirstChar(s: string, sub: string)
    requires |sub| > 0 && Contains(s, sub)
    ensures sub[0] in s
  {
    var p: nat :| p <= |s| && OccursAt(s, sub, p);
    assert s[p..p + |sub|][0] == s[p];
  }

  /** `s.replace(pat, rep)`: occurrences of `pat` replaced left to right,
      without overlaps. */
  function Replace(s: string, pat: string, rep: string): string
    requires |pat| > 0
    decreases |s|
  {
    if |s| == 0 then ""
    else if pat <= s then rep + Replace(s[|pat|..], pat, rep)
    else [s[0]] + Replace(s[1..], pat, rep)
  }

  /** `pat not in s` */
  ghost predicate Absent(s: string, pat: string) {
    forall p: nat :: !OccursAt(s, pat, p)
  }

  lemma OccursShift(s: string, pat: string, p: nat)
    requires |s| > 0
    ensures OccursAt(s[1..], pat, p) <==> OccursAt(s, pat, p + 1)
  {
    if p + 1 + |pat| <= |s| {
      assert s[1..][p..p + |pat|] == s[p + 1..p + 1 + |pat|];
    }
  }

  /** Where the pattern does not occur, replacing changes nothing. */
  lemma {:induction false} ReplaceAbsent(s: string, pat: string, rep: string)
    requires |pat| > 0
    requires Absent(s, pat)
    ensures Replace(s, pat, rep) == s
    decreases |s|
  {
    if |s| > 0 {
      assert !OccursAt(s, pat, 0);
      forall p: nat ensures !OccursAt(s[1..], pat, p) {
        OccursShift(s, pat, p);
      }
      ReplaceAbsent(s[1..], pat, rep);
    }
  }

  /** Python's `replace` works from the left and without overlaps: if the
      first occurrence of the pattern in `s` starts at `n`, the replacement
      goes there and the rest of `s`, after that occurrence, is replaced in
      the same way. With `ReplaceAbsent` this determines `Replace` on every
      string. */
  lemma {:induction false} ReplaceFirst(s: string, n: nat, pat: string, rep: string)
    requires |pat| > 0 && OccursAt(s, pat, n)
    requires forall p: nat :: p < n ==> !OccursAt(s, pat, p)
    ensures Replace(s, pat, rep) == s[..n] + rep + Replace(s[n + |pat|..], pat, rep)
    decreases n
  {
    if n == 0 {
      assert pat <= s;
    } else {
      var tail := Replace(s[n + |pat|..], pat, rep);
      assert Replace(s, pat, rep) == [s[0]] + Replace(s[1..], pat, rep) by {
        assert !OccursAt(s, pat, 0);
        PrefixOccurs(s, pat);
      }
      assert Replace(s[1..], pat, rep) == s[1..][..n - 1] + rep + tail by {
        ShiftFirstOccurrence(s, n, pat);
        ReplaceFirst(s[1..], n - 1, pat, rep);
        assert s[1..][n - 1 + |pat|..] == s[n + |pat|..];
      }
      ConsSplice(s, n, rep, tail);
    }
  }

  /** If the pattern occurs in `s` once, at `n`, replacing splices the
      replacement in there. */
  lemma ReplaceOnce(s: string, n: nat, pat: string, rep: string)
    requires |pat| > 0 && OccursAt(s, pat, n)
    requires forall p: nat :: p < n ==> !OccursAt(s, pat, p)
    requires Absent(s[n + |pat|..], pat)
    ensures Replace(s, pat, rep) == s[..n] + rep + s[n + |pat|..]
  {
    ReplaceFirst(s, n, pat, rep);
    ReplaceAbsent(s[n + |pat|..], pat, rep);
  }

  /** Being a prefix is occurring at position 0. */
  lemma PrefixOccurs(s: string, pat: string)
    ensures pat <= s <==> OccursAt(s, pat, 0)
  {
    if pat <= s {
      assert s[0..|pat|] == pat;
    }
  }

  lemma ConsSplice(s: string, n: nat, rep: string, tail: string)
    requires 0 < n <= |s|
    ensures [s[0]] + (s[1..][..n - 1] + rep + tail) == s[..n] + rep + tail
  {
    assert s[1..][..n - 1] == s[1..n];
    assert s[..n] == [s[0]] + s[1..n];
  }

  /** The first occurrence at `n > 0` is the first at `n - 1` once the
      first character is dropped. */
  lemma ShiftFirstOccurrence(s: string, n: nat, pat: string)
    requires n > 0 && |pat| > 0 && OccursAt(s, pat, n)
    requires forall p: nat :: p < n ==> !OccursAt(s, pat, p)
    ensures OccursAt(s[1..], pat, n - 1)
    ensures forall p: nat :: p < n - 1 ==> !OccursAt(s[1..], pat, p)
  {
    forall p: nat | p < n - 1 ensures !OccursAt(s[1..], pat, p) {
      OccursShift(s, pat, p);
    }
    OccursShift(s, pat, n - 1);
  }

  // ---------------------------------------------------------------------
  // Slicing and integer formatting
  // ---------------------------------------------------------------------

  /** `s[:n]`: the longest prefix of `s` of length at most `n`. */
  function Truncate(s: string, n: nat): (r: string)
    ensures r <= s
    ensures |r| == if |s| <= n then |s| else n
  {
    if |s| <= n then s else s[..n]
  }

  function DigitChar(d: nat): (c: char)
    requires d < 10
    ensures IsDigit(c)
  {
    ('0' as int + d) as char
  }

  function DigitValue(c: char): nat
    requires IsDigit(c)
  {
    c as int - '0' as int
  }

  /** Decimal digits of `n`, most significant first, without leading
      zeros. */
  function NatToString(n: nat): (r: string)
    ensures |r| >= 1
    ensures forall k :: 0 <= k < |r| ==> IsDigit(r[k])
    decreases n
  {
    if n < 10 then [DigitChar(n)] else NatToString(n / 10) + [DigitChar(n % 10)]
  }

  /** `str(n)` for a Python `int`. */
  function IntToString(n: int): (r: string)
    ensures |r| >= 1 && (r[0] == '-' || IsDigit(r[0]))
    ensures forall k :: 1 <= k < |r| ==> IsDigit(r[k])
  {
    if n < 0 then "-" + NatToString(-n) else NatToString(n)
  }

  predicate AllDigits(s: string) {
    forall k :: 0 <= k < |s| ==> IsDigit(s[k])
  }

  /** The value of a string of decimal digits. */
  function DigitsValue(s: string): nat
    requires AllDigits(s)
  {
    if |s| == 0 then 0 else DigitsValue(s[..|s| - 1]) * 10 + DigitValue(s[|s| - 1])
  }

  /** `int(s)` on what `str` produces. */
  function ParseInt(s: string): int
    requires |s| >= 1 && (s[0] == '-' || IsDigit(s[0]))
    requires forall k :: 1 <= k < |s| ==> IsDigit(s[k])
  {
    if s[0] == '-' then 0 - DigitsValue(s[1..]) else DigitsValue(s)
  }

  lemma {:induction false} DigitsValueOfNatToString(n: nat)
    ensures DigitsValue(NatToString(n)) == n
    decreases n
  {
    if n >= 10 {
      var r := NatToString(n);
      DigitsValueOfNatToString(n / 10);
      assert r[..|r| - 1] == NatToString(n / 10);
    }
  }

  /** `int(str(n)) == n`. */
  lemma ParseIntToString(n: int)
    ensures ParseInt(IntToString(n)) == n
  {
    if n < 0 {
      assert IntToString(n)[1..] == NatToString(-n);
      DigitsValueOfNatToString(-n);
    } else {
      DigitsValueOfNatToString(n);
    }
  }

  /** Distinct integers print differently. */
  lemma IntToStringInjective(a: int, b: int)
    requires IntToString(a) == IntToString(b)
    ensures a == b
  {
    ParseIntToString(a);
    ParseIntToString(b);
  }
}
