/** Sequence helpers shared by the frontend and the scraper: JavaScript's
    `[...new Set(xs)]` (which keeps first occurrences, in order) and
    `flatMap`. */
module Lists {

  predicate NoDuplicates<T(==,!new)>(s: seq<T>) {
    forall i, j :: 0 <= i < j < |s| ==> s[i] != s[j]
  }

  /** `s` without the elements of `seen` and without repeats, keeping the
      first occurrence of each element. */
  function DedupFrom<T(==,!new)>(s: seq<T>, seen: set<T>): (r: seq<T>)
    ensures NoDuplicates(r)
    ensures forall x :: x in r <==> x in s && x !in seen
    ensures |r| <= |s|
  {
    if |s| == 0 then []
    else if s[0] in seen then DedupFrom(s[1..], seen)
    else [s[0]] + DedupFrom(s[1..], seen + {s[0]})
  }

  /** `[...new Set(s)]`: a set built from `s` iterates in insertion order,
      so the result lists each element once, where it first occurs. */
  function Dedup<T(==,!new)>(s: seq<T>): (r: seq<T>)
    ensures NoDuplicates(r)
    ensures forall x :: x in r <==> x in s
    ensures |r| <= |s|
  {
    DedupFrom(s, {})
  }

  /** Reference definition: the elements of `s` at the positions where they
      occur for the first time, in the order of those positions. */
  function FirstOccurrences<T(==,!new)>(s: seq<T>): seq<T>
  {
    if |s| == 0 then []
    else
      var init := s[..|s| - 1];
      var x := s[|s| - 1];
      FirstOccurrences(init) + (if x in init then [] else [x])
  }

  lemma {:induction false} DedupFromSnoc<T(!new)>(s: seq<T>, x: T, seen: set<T>)
    ensures DedupFrom(s + [x], seen)
            == DedupFrom(s, seen) + (if x in seen || x in s then [] else [x])
    decreases |s|
  {
    if |s| == 0 {
      assert s + [x] == [x];
    } else if s[0] in seen {
      DedupFromSnoc(s[1..], x, seen);
      SnocAfterSeenHead(s, x, seen);
    } else {
      DedupFromSnoc(s[1..], x, seen + {s[0]});
      SnocAfterNewHead(s, x, seen);
    }
  }

  /** The step of `DedupFromSnoc` when the head was seen before. */
  lemma SnocAfterSeenHead<T(!new)>(s: seq<T>, x: T, seen: set<T>)
    requires |s| > 0 && s[0] in seen
    requires DedupFrom(s[1..] + [x], seen)
             == DedupFrom(s[1..], seen) + (if x in seen || x in s[1..] then [] else [x])
    ensures DedupFrom(s + [x], seen)
            == DedupFrom(s, seen) + (if x in seen || x in s then [] else [x])
  {
    var t := s + [x];
    SnocTail(s, x);
    assert x in s <==> x == s[0] || x in s[1..];
  }

  /** The step of `DedupFromSnoc` when the head is new. */
  lemma SnocAfterNewHead<T(!new)>(s: seq<T>, x: T, seen: set<T>)
    requires |s| > 0 && s[0] !in seen
    requires DedupFrom(s[1..] + [x], seen + {s[0]})
             == DedupFrom(s[1..], seen + {s[0]})
                + (if x in seen + {s[0]} || x in s[1..] then [] else [x])
    ensures DedupFrom(s + [x], seen)
            == DedupFrom(s, seen) + (if x in seen || x in s then [] else [x])
  {
    var a := DedupFrom(s[1..], seen + {s[0]});
    var e: seq<T> := if x in seen || x in s then [] else [x];
    assert DedupFrom(s + [x], seen) == [s[0]] + (a + e) by {
      SnocTail(s, x);
      DedupFromNewHead(s + [x], seen);
      assert x in s <==> x == s[0] || x in s[1..];
    }
    assert DedupFrom(s, seen) == [s[0]] + a by {
      DedupFromNewHead(s, seen);
    }
    ConsAssociates(s[0], a, e);
  }

  lemma ConsAssociates<T>(h: T, a: seq<T>, e: seq<T>)
    ensures [h] + (a + e) == ([h] + a) + e
  {
  }

  lemma SnocTail<T>(s: seq<T>, x: T)
    requires |s| > 0
    ensures (s + [x])[0] == s[0] && (s + [x])[1..] == s[1..] + [x]
  {
  }

  lemma DedupFromNewHead<T(!new)>(s: seq<T>, seen: set<T>)
    requires |s| > 0 && s[0] !in seen
    ensures DedupFrom(s, seen) == [s[0]] + DedupFrom(s[1..], seen + {s[0]})
  {
  }

  /** De-duplication keeps exactly the first occurrences, in their original
      order. */
  lemma {:induction false} DedupKeepsFirstOccurrences<T(!new)>(s: seq<T>)
    ensures Dedup(s) == FirstOccurrences(s)
    decreases |s|
  {
    if |s| > 0 {
      var init := s[..|s| - 1];
      assert s == init + [s[|s| - 1]];
      DedupFromSnoc(init, s[|s| - 1], {});
      DedupKeepsFirstOccurrences(init);
    }
  }

  lemma {:induction false} DedupFromDistinct<T(!new)>(s: seq<T>, seen: set<T>)
    requires NoDuplicates(s)
    requires forall i :: 0 <= i < |s| ==> s[i] !in seen
    ensures DedupFrom(s, seen) == s
    decreases |s|
  {
    if |s| > 0 {
      assert forall i :: 1 <= i < |s| ==> s[i] != s[0];
      DedupFromDistinct(s[1..], seen + {s[0]});
    }
  }

  /** A list without repeats is left alone. */
  lemma DedupOfDistinct<T(!new)>(s: seq<T>)
    requires NoDuplicates(s)
    ensures Dedup(s) == s
  {
    DedupFromDistinct(s, {});
  }

  /** De-duplicating twice is de-duplicating once. */
  lemma DedupIdempotent<T(!new)>(s: seq<T>)
    ensures Dedup(Dedup(s)) == Dedup(s)
  {
    DedupOfDistinct(Dedup(s));
  }

  /** `ss.flatMap(x => x)`: the lists laid end to end. */
  function Flatten<T(!new)>(ss: seq<seq<T>>): (r: seq<T>)
    ensures forall x :: x in r <==> exists i :: 0 <= i < |ss| && x in ss[i]
  {
    if |ss| == 0 then []
    else
      var rest := Flatten(ss[1..]);
      assert forall i :: 1 <= i < |ss| ==> ss[i] == ss[1..][i - 1];
      ss[0] + rest
  }

  lemma {:induction false} FlattenConcat<T(!new)>(a: seq<seq<T>>, b: seq<seq<T>>)
    ensures Flatten(a + b) == Flatten(a) + Flatten(b)
    decreases |a|
  {
    if |a| == 0 {
      assert a + b == b;
    } else {
      assert (a + b)[1..] == a[1..] + b;
      FlattenConcat(a[1..], b);
    }
  }

  lemma FlattenSingle<T(!new)>(x: seq<T>)
    ensures Flatten([x]) == x
  {
    assert [x][1..] == [];
  }

  /** The elements of `s`, as a set. */
  function Elements<T(!new)>(s: seq<T>): set<T> {
    set x | x in s
  }

  lemma ElementsOfOne<T(!new)>(a: T)
    ensures Elements([a]) == {a}
  {
  }

  lemma ElementsOfThree<T(!new)>(a: T, b: T, c: T)
    ensures Elements([a, b, c]) == {a, b, c}
  {
  }

  lemma ElementsConcat<T(!new)>(a: seq<T>, b: seq<T>)
    ensures Elements(a + b) == Elements(a) + Elements(b)
  {
  }

  /** A list without repeats has as many elements as its set. */
  lemma {:induction false} DistinctCardinality<T(!new)>(s: seq<T>)
    requires NoDuplicates(s)
    ensures |Elements(s)| == |s|
    decreases |s|
  {
    if |s| > 0 {
      DistinctCardinality(s[1..]);
      assert Elements(s) == Elements(s[1..]) + {s[0]};
      assert s[0] !in Elements(s[1..]);
    }
  }

  /** No repeats means every element occurs at most once. */
  lemma {:induction false} NoDuplicatesMultiset<T(!new)>(s: seq<T>)
    ensures NoDuplicates(s) <==> forall x :: multiset(s)[x] <= 1
    decreases |s|
  {
    if |s| > 0 {
      NoDuplicatesMultiset(s[1..]);
      assert s == [s[0]] + s[1..];
      assert multiset(s) == multiset{s[0]} + multiset(s[1..]);
      if NoDuplicates(s) {
        assert s[0] !in s[1..];
        assert NoDuplicates(s[1..]);
      }
      if forall x :: multiset(s)[x] <= 1 {
        assert forall x :: multiset(s[1..])[x] <= 1 by {
          forall x ensures multiset(s[1..])[x] <= 1 {
            assert multiset(s)[x] <= 1;
          }
        }
        assert multiset(s[1..])[s[0]] == 0 by {
          assert multiset(s)[s[0]] <= 1;
        }
        forall i, j | 0 <= i < j < |s| ensures s[i] != s[j] {
          if i == 0 {
            assert s[j] in s[1..];
          } else {
            assert s[1..][i - 1] == s[i] && s[1..][j - 1] == s[j];
          }
        }
      }
    }
  }

  /** Taking the same element out of two reorderings of one list leaves
      two reorderings of one list. */
  lemma RemoveMatching<T(!new)>(a: seq<T>, b: seq<T>, k: int)
    requires multiset(a) == multiset(b) && |a| > 0
    requires 0 <= k < |b| && b[k] == a[0]
    ensures multiset(a[1..]) == multiset(b[..k] + b[k + 1..])
  {
    var x := a[0];
    assert b == b[..k] + [x] + b[k + 1..];
    assert a == [x] + a[1..];
    assert multiset(b) == multiset(b[..k]) + multiset([x]) + multiset(b[k + 1..]);
    assert multiset(a) == multiset([x]) + multiset(a[1..]);
    assert multiset(b[..k] + b[k + 1..]) == multiset(b[..k]) + multiset(b[k + 1..]);
    forall y ensures multiset(b[..k] + b[k + 1..])[y] == multiset(a[1..])[y] {
      assert multiset(a)[y] == multiset(b)[y];
    }
  }

  /** Reordering a list without repeats leaves it without repeats. */
  lemma NoDuplicatesPermutation<T(!new)>(a: seq<T>, b: seq<T>)
    requires NoDuplicates(a) && multiset(a) == multiset(b)
    ensures NoDuplicates(b)
  {
    NoDuplicatesMultiset(a);
    NoDuplicatesMultiset(b);
  }
}
