/** The founder de-duplication pass: founders whose cleaned names and
    company agree are taken to be one person, the row with the lowest id is
    kept and every other row of the group is deleted. */
module DuplicateFounders {
  import opened Chars
  import opened Strings
  import opened Records

  /** The letters and digits of `s`, lower-cased. */
  function CleanChars(s: string): (r: string)
    ensures |r| <= |s|
    ensures forall k :: 0 <= k < |r| ==> IsLower(r[k]) || IsDigit(r[k])
    ensures forall c :: c in r <==> exists k :: 0 <= k < |s| && IsAlnum(s[k]) && ToLower(s[k]) == c
  {
    if |s| == 0 then ""
    else (if IsAlnum(s[0]) then [ToLower(s[0])] else []) + CleanChars(s[1..])
  }

  /** `clean_string`: a missing or empty value cleans to the empty string. */
  function CleanString(s: Option<string>): (r: string)
    ensures s.None? || s == Some("") ==> r == ""
    ensures s.Some? ==> r == CleanChars(s.value)
    ensures forall k :: 0 <= k < |r| ==> IsLower(r[k]) || IsDigit(r[k])
  {
    match s
    case None => ""
    case Some(v) => if v == "" then "" else CleanChars(v)
  }

  /** One character: a letter or digit is kept, lower-cased, and anything
      else is dropped. With `CleanCharsConcat` this fixes the cleaning of
      every string, character by character and in order. */
  lemma CleanCharsOfOne(c: char)
    ensures CleanChars([c]) == if IsAlnum(c) then [ToLower(c)] else []
  {
  }

  /** Cleaning a cleaned string changes nothing. */
  lemma {:induction false} CleanCharsIdempotent(s: string)
    ensures CleanChars(CleanChars(s)) == CleanChars(s)
    decreases |s|
  {
    if |s| > 0 {
      CleanCharsIdempotent(s[1..]);
      var head := if IsAlnum(s[0]) then [ToLower(s[0])] else [];
      var tail := CleanChars(s[1..]);
      CleanCharsConcat(head, tail);
      if IsAlnum(s[0]) {
        assert head[1..] == [];
      }
    }
  }

  lemma {:induction false} CleanCharsConcat(a: string, b: string)
    ensures CleanChars(a + b) == CleanChars(a) + CleanChars(b)
    decreases |a|
  {
    if |a| == 0 {
      assert a + b == b;
    } else {
      assert (a + b)[1..] == a[1..] + b;
      CleanCharsConcat(a[1..], b);
    }
  }

  /** Whitespace never reaches the key: cleaning ignores it. */
  lemma {:induction false} CleanCharsIgnoresSpaces(s: string)
    ensures CleanChars(RemoveSpaces(s)) == CleanChars(s)
    decreases |s|
  {
    if |s| > 0 {
      CleanCharsIgnoresSpaces(s[1..]);
      if !IsSpace(s[0]) {
        assert RemoveSpaces(s) == [s[0]] + RemoveSpaces(s[1..]);
        assert ([s[0]] + RemoveSpaces(s[1..]))[1..] == RemoveSpaces(s[1..]);
      }
    }
  }

  /** Nor does case: a name cleans the same as its lower-cased form. */
  lemma {:induction false} CleanCharsIgnoresCase(s: string)
    ensures CleanChars(Lower(s)) == CleanChars(s)
    decreases |s|
  {
    if |s| > 0 {
      CleanCharsIgnoresCase(s[1..]);
      assert Lower(s) == [ToLower(s[0])] + Lower(s[1..]);
      assert Lower(s)[1..] == Lower(s[1..]);
    }
  }

  /** The key as the script builds it: both cleaned names and the company
      id, written out one after the other. */
  function LenientKey(f: FounderRow): string {
    CleanString(Some(f.firstName)) + CleanString(f.lastName) + IntToString(f.companyId)
  }

  /** The key the script means: the cleaned name, and the company kept apart
      from it. */
  function FounderKey(f: FounderRow): (string, int) {
    (CleanString(Some(f.firstName)) + CleanString(f.lastName), f.companyId)
  }

  /** The script's key runs the last name into the company id, so two
      founders of different companies can share it: "Ann Lee1" at company 2
      and "Ann Lee" at company 12 both become "annlee12". */
  lemma LenientKeyMergesCompanies(a: FounderRow, b: FounderRow)
    requires a.firstName == "Ann" && a.lastName == Some("Lee1") && a.companyId == 2
    requires b.firstName == "Ann" && b.lastName == Some("Lee") && b.companyId == 12
    ensures LenientKey(a) == LenientKey(b)
    ensures a.companyId != b.companyId
  {
    assert CleanChars("Ann") == "ann";
    assert CleanChars("Lee1") == "lee1";
    assert CleanChars("Lee") == "lee";
    assert NatToString(2) == "2";
    assert NatToString(12) == NatToString(1) + "2";
  }

  /** The intended key never groups founders of different companies. */
  lemma FounderKeySeparatesCompanies(a: FounderRow, b: FounderRow)
    requires FounderKey(a) == FounderKey(b)
    ensures a.companyId == b.companyId
    ensures CleanString(Some(a.firstName)) + CleanString(a.lastName)
            == CleanString(Some(b.firstName)) + CleanString(b.lastName)
  {
  }

  /** The script's key is coarser than the intended one: whatever the
      intended key groups, the script groups too. */
  lemma FounderKeyRefinesLenientKey(a: FounderRow, b: FounderRow)
    requires FounderKey(a) == FounderKey(b)
    ensures LenientKey(a) == LenientKey(b)
  {
  }

  predicate NoDigits(s: string) {
    forall k :: 0 <= k < |s| ==> !IsDigit(s[k]) && s[k] != '-'
  }

  /** A string made of a digit-free part followed by a written integer can be
      cut back into the two in one way only. */
  lemma CutBeforeNumber(a1: string, s1: string, a2: string, s2: string)
    requires NoDigits(a1) && NoDigits(a2)
    requires |s1| > 0 && (s1[0] == '-' || IsDigit(s1[0]))
    requires |s2| > 0 && (s2[0] == '-' || IsDigit(s2[0]))
    requires a1 + s1 == a2 + s2
    ensures a1 == a2 && s1 == s2
  {
    var t := a1 + s1;
    assert forall k :: 0 <= k < |a1| ==> t[k] == a1[k];
    assert forall k :: 0 <= k < |a2| ==> t[k] == a2[k];
    assert t[|a1|] == s1[0];
    assert t[|a2|] == s2[0];
    assert |a1| == |a2|;
    assert a1 == t[..|a1|] == a2;
    assert s1 == t[|a1|..] == s2;
  }

  /** When neither name holds a digit the script's key is exact: founders
      share it only if they share the intended key. */
  lemma LenientKeyExactWithoutDigits(a: FounderRow, b: FounderRow)
    requires NoDigits(FounderKey(a).0) && NoDigits(FounderKey(b).0)
    requires LenientKey(a) == LenientKey(b)
    ensures FounderKey(a) == FounderKey(b)
  {
    var na := FounderKey(a).0;
    var nb := FounderKey(b).0;
    assert LenientKey(a) == na + IntToString(a.companyId);
    assert LenientKey(b) == nb + IntToString(b.companyId);
    CutBeforeNumber(na, IntToString(a.companyId), nb, IntToString(b.companyId));
    IntToStringInjective(a.companyId, b.companyId);
  }

  /** The founders the loop gets through: computing the (printed) strict
      key lower-cases the last name, which raises on a founder without one
      and ends the run there. */
  function Processed(founders: seq<FounderRow>): (r: seq<FounderRow>)
    ensures r <= founders
    ensures forall j :: 0 <= j < |r| ==> r[j].lastName.Some?
    ensures |r| < |founders| ==> founders[|r|].lastName.None?
  {
    if |founders| == 0 || founders[0].lastName.None? then []
    else [founders[0]] + Processed(founders[1..])
  }

  /** Ids are the table's primary key. */
  predicate UniqueIds(ps: seq<FounderRow>) {
    forall i, j :: 0 <= i < j < |ps| ==> ps[i].id != ps[j].id
  }

  /** How many of the attempted deletions went through: an attempt on an id
      in `failing` raises and is not counted. */
  function Succeeded(attempts: seq<int>, failing: set<int>): (r: nat)
    ensures r <= |attempts|
  {
    if |attempts| == 0 then 0
    else Succeeded(attempts[..|attempts| - 1], failing)
         + (if attempts[|attempts| - 1] in failing then 0 else 1)
  }

  lemma {:induction false} SucceededAll(attempts: seq<int>, failing: set<int>)
    ensures (forall a :: a in attempts ==> a !in failing) ==> Succeeded(attempts, failing) == |attempts|
    decreases |attempts|
  {
    if |attempts| > 0 && forall a :: a in attempts ==> a !in failing {
      var init := attempts[..|attempts| - 1];
      assert forall a :: a in init ==> a in attempts;
      assert attempts[|attempts| - 1] in attempts;
      SucceededAll(init, failing);
      assert Succeeded(init, failing) == |init|;
    }
  }

  /** Ids are unique among the first `n` founders. */
  ghost predicate UniqueUpTo(founders: seq<FounderRow>, n: nat) {
    forall i, j :: 0 <= i < j < n && j < |founders| ==> founders[i].id != founders[j].id
  }

  /** What the loop knows after the first `n` founders, whose keys are
      `keys`. The dictionary `kept` holds, for every key seen, the position
      of the founder kept for it, the one with the lowest id. Every other
      founder has cost one delete call; `from` gives the position of the
      founder each call was made for. */
  ghost predicate Grouped<K>(founders: seq<FounderRow>, keys: seq<K>, n: nat, kept: map<K, nat>,
                             attempts: seq<int>, from: seq<nat>)
  {
    && n <= |founders| == |keys|
    && (forall k :: k in kept ==> kept[k] < n && keys[kept[k]] == k)
    && (forall j :: 0 <= j < n ==> keys[j] in kept && founders[kept[keys[j]]].id <= founders[j].id)
    && |attempts| == n - |kept|
    && |from| == |attempts|
    && (forall t :: 0 <= t < |from| ==> from[t] < n && attempts[t] == founders[from[t]].id)
  }

  /** With unique ids, exactly the founders not kept have had a delete
      call. */
  ghost predicate DeletedExactly<K>(founders: seq<FounderRow>, keys: seq<K>, n: nat, kept: map<K, nat>,
                                    attempts: seq<int>)
  {
    UniqueUpTo(founders, n) ==>
      forall j :: 0 <= j < n && j < |founders| && j < |keys| && keys[j] in kept
        ==> (founders[j].id in attempts <==> j != kept[keys[j]])
  }

  /** With unique ids, the founder just read has had no delete call yet. */
  lemma FreshId(founders: seq<FounderRow>, i: nat, attempts: seq<int>, from: seq<nat>)
    requires i < |founders|
    requires UniqueUpTo(founders, i + 1)
    requires |from| == |attempts|
    requires forall t :: 0 <= t < |from| ==> from[t] < i && attempts[t] == founders[from[t]].id
    ensures founders[i].id !in attempts
    ensures UniqueUpTo(founders, i)
  {
  }

  /** A founder with a new key is kept. */
  lemma NewKeyStep<K>(founders: seq<FounderRow>, keys: seq<K>, i: nat,
                      kept: map<K, nat>, attempts: seq<int>, from: seq<nat>)
    requires i < |founders|
    requires Grouped(founders, keys, i, kept, attempts, from)
    requires DeletedExactly(founders, keys, i, kept, attempts)
    requires keys[i] !in kept
    ensures Grouped(founders, keys, i + 1, kept[keys[i] := i], attempts, from)
    ensures DeletedExactly(founders, keys, i + 1, kept[keys[i] := i], attempts)
  {
    NewKeyGrouped(founders, keys, i, kept, attempts, from);
    NewKeyDeletes(founders, keys, i, kept, attempts, from);
  }

  lemma NewKeyGrouped<K>(founders: seq<FounderRow>, keys: seq<K>, i: nat,
                         kept: map<K, nat>, attempts: seq<int>, from: seq<nat>)
    requires i < |founders|
    requires Grouped(founders, keys, i, kept, attempts, from)
    requires keys[i] !in kept
    ensures Grouped(founders, keys, i + 1, kept[keys[i] := i], attempts, from)
  {
    var kept' := kept[keys[i] := i];
    assert |kept'| == |kept| + 1;
    forall j | 0 <= j < i + 1
      ensures keys[j] in kept' && founders[kept'[keys[j]]].id <= founders[j].id
    {
      if j < i {
        assert keys[j] != keys[i];
        assert kept'[keys[j]] == kept[keys[j]];
      }
    }
  }

  lemma NewKeyDeletes<K>(founders: seq<FounderRow>, keys: seq<K>, i: nat,
                         kept: map<K, nat>, attempts: seq<int>, from: seq<nat>)
    requires i < |founders|
    requires Grouped(founders, keys, i, kept, attempts, from)
    requires DeletedExactly(founders, keys, i, kept, attempts)
    requires keys[i] !in kept
    ensures DeletedExactly(founders, keys, i + 1, kept[keys[i] := i], attempts)
  {
    var kept' := kept[keys[i] := i];
    if UniqueUpTo(founders, i + 1) {
      FreshId(founders, i, attempts, from);
      forall j | 0 <= j < i + 1 && keys[j] in kept'
        ensures founders[j].id in attempts <==> j != kept'[keys[j]]
      {
        if j < i {
          assert keys[j] != keys[i];
          assert kept'[keys[j]] == kept[keys[j]];
        }
      }
    }
  }

  /** A founder with a key already seen: of the pair, the one with the
      higher id gets the delete call and the other stays in the
      dictionary. */
  lemma RepeatedKeyStep<K>(founders: seq<FounderRow>, keys: seq<K>, i: nat,
                           kept: map<K, nat>, attempts: seq<int>, from: seq<nat>)
    requires i < |founders|
    requires Grouped(founders, keys, i, kept, attempts, from)
    requires keys[i] in kept
    ensures var e := kept[keys[i]];
            var later := founders[i].id > founders[e].id;
            Grouped(founders, keys, i + 1,
                    kept[keys[i] := if later then e else i],
                    attempts + [if later then founders[i].id else founders[e].id],
                    from + [if later then i else e])
  {
    var e := kept[keys[i]];
    var later := founders[i].id > founders[e].id;
    var kept' := kept[keys[i] := if later then e else i];
    var attempts' := attempts + [if later then founders[i].id else founders[e].id];
    var from' := from + [if later then i else e];
    assert forall t :: 0 <= t < |from| ==> from'[t] == from[t] && attempts'[t] == attempts[t];
    assert kept'.Keys == kept.Keys;
  }

  /** The same step keeps the delete calls on exactly the founders not
      kept. */
  lemma RepeatedKeyStepDeletes<K>(founders: seq<FounderRow>, keys: seq<K>, i: nat,
                                  kept: map<K, nat>, attempts: seq<int>, from: seq<nat>)
    requires i < |founders|
    requires Grouped(founders, keys, i, kept, attempts, from)
    requires DeletedExactly(founders, keys, i, kept, attempts)
    requires keys[i] in kept
    ensures var e := kept[keys[i]];
            var later := founders[i].id > founders[e].id;
            DeletedExactly(founders, keys, i + 1, kept[keys[i] := if later then e else i],
                           attempts + [if later then founders[i].id else founders[e].id])
  {
    var e := kept[keys[i]];
    var later := founders[i].id > founders[e].id;
    var attempts' := attempts + [if later then founders[i].id else founders[e].id];
    var kept' := kept[keys[i] := if later then e else i];
    if UniqueUpTo(founders, i + 1) {
      FreshId(founders, i, attempts, from);
      assert founders[e].id !in attempts;
      forall j | 0 <= j < i + 1 && keys[j] in kept'
        ensures founders[j].id in attempts' <==> j != kept'[keys[j]]
      {
        if j == i {
          assert kept'[keys[j]] == (if later then e else i);
        } else if j == e {
          assert founders[j].id != founders[i].id;
        } else {
          assert founders[j].id != founders[i].id && founders[j].id != founders[e].id;
          assert founders[j].id in attempts' <==> founders[j].id in attempts;
          if keys[j] == keys[i] {
            assert kept[keys[j]] == e;
          } else {
            assert kept'[keys[j]] == kept[keys[j]];
          }
        }
      }
    }
  }

  /** One turn of the loop, in either case. */
  lemma Step<K>(founders: seq<FounderRow>, keys: seq<K>, i: nat,
                kept: map<K, nat>, attempts: seq<int>, from: seq<nat>,
                kept': map<K, nat>, attempts': seq<int>, from': seq<nat>)
    requires i < |founders|
    requires Grouped(founders, keys, i, kept, attempts, from)
    requires DeletedExactly(founders, keys, i, kept, attempts)
    requires keys[i] !in kept ==> kept' == kept[keys[i] := i] && attempts' == attempts && from' == from
    requires keys[i] in kept ==>
               var e := kept[keys[i]];
               var later := founders[i].id > founders[e].id;
               && kept' == kept[keys[i] := if later then e else i]
               && attempts' == attempts + [if later then founders[i].id else founders[e].id]
               && from' == from + [if later then i else e]
    ensures Grouped(founders, keys, i + 1, kept', attempts', from')
    ensures DeletedExactly(founders, keys, i + 1, kept', attempts')
  {
    if keys[i] in kept {
      RepeatedKeyStep(founders, keys, i, kept, attempts, from);
      RepeatedKeyStepDeletes(founders, keys, i, kept, attempts, from);
    } else {
      NewKeyStep(founders, keys, i, kept, attempts, from);
    }
  }

  /** One turn of the script's loop, on the founder at position `i`: a new
      key enters the dictionary; a repeated one makes a delete call on the
      higher id of the pair, counted unless it raises, and the dictionary
      keeps the lower. */
  method Visit<K(==)>(founders: seq<FounderRow>, keys: seq<K>, i: nat, failing: set<int>,
                      kept: map<K, nat>, attempts: seq<int>, deletedCount: nat, ghost from: seq<nat>)
    returns (kept': map<K, nat>, attempts': seq<int>, deletedCount': nat, ghost from': seq<nat>)
    requires i < |founders| == |keys|
    requires Grouped(founders, keys, i, kept, attempts, from)
    requires DeletedExactly(founders, keys, i, kept, attempts)
    requires deletedCount == Succeeded(attempts, failing)
    ensures Grouped(founders, keys, i + 1, kept', attempts', from')
    ensures DeletedExactly(founders, keys, i + 1, kept', attempts')
    ensures deletedCount' == Succeeded(attempts', failing)
  {
    var f, k := founders[i], keys[i];
    kept', attempts', deletedCount', from' := kept, attempts, deletedCount, from;
    if k in kept {
      var existing := founders[kept[k]];
      var toDelete := if f.id > existing.id then f else existing;
      from' := from + [if f.id > existing.id then i else kept[k]];
      kept' := kept[k := if f.id > existing.id then kept[k] else i];
      attempts' := attempts + [toDelete.id];
      if toDelete.id !in failing {
        deletedCount' := deletedCount + 1;
      }
    } else {
      kept' := kept[k := i];
    }
    Step(founders, keys, i, kept, attempts, from, kept', attempts', from');
  }

  /** The de-duplication loop, given the key of each founder. `kept` is the
      dictionary, holding for each key the position of the founder kept,
      `attempts` the ids the delete calls were made for, in order,
      `deletedCount` the count the script reports and `crashed` whether it
      stopped at a founder without a last name. Every group keeps its
      founder with the lowest id, every other founder of the group gets one
      delete call, and the kept one none. */
  method DecideDeletions<K(==)>(founders: seq<FounderRow>, keys: seq<K>, failing: set<int>)
    returns (kept: map<K, nat>, attempts: seq<int>, deletedCount: nat, crashed: bool)
    requires |keys| == |founders|
    ensures crashed <==> exists j :: 0 <= j < |founders| && founders[j].lastName.None?
    ensures forall k :: k in kept ==> kept[k] < |Processed(founders)| && keys[kept[k]] == k
    ensures forall j :: 0 <= j < |Processed(founders)| ==>
              keys[j] in kept && founders[kept[keys[j]]].id <= founders[j].id
    ensures |attempts| == |Processed(founders)| - |kept|
    ensures forall a :: a in attempts ==> exists j :: 0 <= j < |Processed(founders)| && founders[j].id == a
    ensures UniqueIds(Processed(founders)) ==>
              forall j :: 0 <= j < |Processed(founders)| ==> (founders[j].id in attempts <==> j != kept[keys[j]])
    ensures deletedCount == Succeeded(attempts, failing)
    ensures (forall a :: a in attempts ==> a !in failing) ==> deletedCount == |Processed(founders)| - |kept|
  {
    var n := |Processed(founders)|;
    ghost var from;
    kept, attempts, deletedCount, from := VisitFrom(founders, keys, 0, n, failing, map[], [], 0, []);
    crashed := n < |founders|;
    SucceededAll(attempts, failing);
    CrashesOnMissingLastName(founders);
    GroupedAtEnd(founders, keys, n, kept, attempts, from);
  }

  /** The loop from position `i` up to `n`, given its state after the
      first `i` founders. */
  method VisitFrom<K(==)>(founders: seq<FounderRow>, keys: seq<K>, i: nat, n: nat, failing: set<int>,
                          kept: map<K, nat>, attempts: seq<int>, deletedCount: nat, ghost from: seq<nat>)
    returns (kept': map<K, nat>, attempts': seq<int>, deletedCount': nat, ghost from': seq<nat>)
    requires i <= n <= |founders| == |keys|
    requires Grouped(founders, keys, i, kept, attempts, from)
    requires DeletedExactly(founders, keys, i, kept, attempts)
    requires deletedCount == Succeeded(attempts, failing)
    ensures Grouped(founders, keys, n, kept', attempts', from')
    ensures DeletedExactly(founders, keys, n, kept', attempts')
    ensures deletedCount' == Succeeded(attempts', failing)
    decreases n - i
  {
    if i == n {
      kept', attempts', deletedCount', from' := kept, attempts, deletedCount, from;
    } else {
      var k1, a1, d1, f1 := Visit(founders, keys, i, failing, kept, attempts, deletedCount, from);
      kept', attempts', deletedCount', from' := VisitFrom(founders, keys, i + 1, n, failing, k1, a1, d1, f1);
    }
  }

  /** The loop's knowledge once it has got through every founder it
      reaches, restated with the founders it reached. */
  lemma GroupedAtEnd<K>(founders: seq<FounderRow>, keys: seq<K>, n: nat,
                        kept: map<K, nat>, attempts: seq<int>, from: seq<nat>)
    requires n == |Processed(founders)|
    requires Grouped(founders, keys, n, kept, attempts, from)
    requires DeletedExactly(founders, keys, n, kept, attempts)
    ensures forall a :: a in attempts ==> exists j :: 0 <= j < |Processed(founders)| && founders[j].id == a
    ensures UniqueIds(Processed(founders)) ==>
              forall j :: 0 <= j < |Processed(founders)| ==> (founders[j].id in attempts <==> j != kept[keys[j]])
  {
    var ps := Processed(founders);
    assert forall j :: 0 <= j < n ==> ps[j] == founders[j];
    assert UniqueIds(ps) ==> UniqueUpTo(founders, n);
    forall a | a in attempts ensures exists j :: 0 <= j < n && founders[j].id == a {
      var t :| 0 <= t < |attempts| && attempts[t] == a;
    }
  }

  /** The run ends early exactly when some founder has no last name. */
  lemma CrashesOnMissingLastName(founders: seq<FounderRow>)
    ensures |Processed(founders)| < |founders| <==> exists j :: 0 <= j < |founders| && founders[j].lastName.None?
  {
    var ps := Processed(founders);
    assert forall j :: 0 <= j < |ps| ==> founders[j] == ps[j];
  }

  /** What the loop's outcome means for pairs of founders: with unique
      ids, of two founders sharing a key the higher id gets a delete call,
      and a founder gets one only when another with its key and a lower id
      exists. */
  lemma DeletionsByKey<K>(founders: seq<FounderRow>, keys: seq<K>, kept: map<K, nat>, attempts: seq<int>)
    requires |keys| == |founders|
    requires forall k :: k in kept ==> kept[k] < |Processed(founders)| && keys[kept[k]] == k
    requires forall j :: 0 <= j < |Processed(founders)| ==>
               keys[j] in kept && founders[kept[keys[j]]].id <= founders[j].id
    requires UniqueIds(Processed(founders)) ==>
               forall j :: 0 <= j < |Processed(founders)| ==> (founders[j].id in attempts <==> j != kept[keys[j]])
    ensures UniqueIds(Processed(founders)) ==>
              forall i, j :: 0 <= i < |Processed(founders)| && 0 <= j < |Processed(founders)|
                && keys[i] == keys[j] && founders[i].id < founders[j].id
                ==> founders[j].id in attempts
    ensures UniqueIds(Processed(founders)) ==>
              forall j :: 0 <= j < |Processed(founders)| && founders[j].id in attempts ==>
                exists i :: 0 <= i < |Processed(founders)| && keys[i] == keys[j] && founders[i].id < founders[j].id
  {
    var ps := Processed(founders);
    var n := |ps|;
    if UniqueIds(ps) {
      assert UniqueUpTo(founders, n) by {
        assert forall j :: 0 <= j < n ==> ps[j] == founders[j];
      }
      KeyGroups(founders, keys, n, kept, attempts);
    }
  }

  /** With unique ids, a founder has a delete call exactly when its group
      holds a founder with a lower id. */
  lemma KeyGroups<K>(founders: seq<FounderRow>, keys: seq<K>, n: nat, kept: map<K, nat>, attempts: seq<int>)
    requires n <= |founders| == |keys|
    requires UniqueUpTo(founders, n)
    requires forall k :: k in kept ==> kept[k] < n && keys[kept[k]] == k
    requires forall j :: 0 <= j < n ==> keys[j] in kept && founders[kept[keys[j]]].id <= founders[j].id
    requires forall j :: 0 <= j < n ==> (founders[j].id in attempts <==> j != kept[keys[j]])
    ensures forall i, j :: 0 <= i < n && 0 <= j < n && keys[i] == keys[j] && founders[i].id < founders[j].id
              ==> founders[j].id in attempts
    ensures forall j :: 0 <= j < n && founders[j].id in attempts ==>
              exists i :: 0 <= i < n && keys[i] == keys[j] && founders[i].id < founders[j].id
  {
    forall j | 0 <= j < n && founders[j].id in attempts
      ensures exists i :: 0 <= i < n && keys[i] == keys[j] && founders[i].id < founders[j].id
    {
      var i := kept[keys[j]];
      assert founders[i].id != founders[j].id;
    }
  }

  /** The script's loop for a given key per founder, with its outcome
      stated for pairs of founders. */
  method RemoveByKey<K(==)>(founders: seq<FounderRow>, keys: seq<K>, failing: set<int>)
    returns (attempts: seq<int>, deletedCount: nat, crashed: bool)
    requires |keys| == |founders|
    ensures crashed <==> exists j :: 0 <= j < |founders| && founders[j].lastName.None?
    ensures deletedCount == Succeeded(attempts, failing)
    ensures UniqueIds(Processed(founders)) ==>
              forall i, j :: 0 <= i < |Processed(founders)| && 0 <= j < |Processed(founders)|
                && keys[i] == keys[j] && founders[i].id < founders[j].id
                ==> founders[j].id in attempts
    ensures UniqueIds(Processed(founders)) ==>
              forall j :: 0 <= j < |Processed(founders)| && founders[j].id in attempts ==>
                exists i :: 0 <= i < |Processed(founders)| && keys[i] == keys[j] && founders[i].id < founders[j].id
  {
    var kept;
    kept, attempts, deletedCount, crashed := DecideDeletions(founders, keys, failing);
    DeletionsByKey(founders, keys, kept, attempts);
  }

  function LenientKeys(founders: seq<FounderRow>): (r: seq<string>)
    ensures |r| == |founders| && forall i :: 0 <= i < |founders| ==> r[i] == LenientKey(founders[i])
  {
    seq(|founders|, j requires 0 <= j < |founders| => LenientKey(founders[j]))
  }

  function FounderKeys(founders: seq<FounderRow>): (r: seq<(string, int)>)
    ensures |r| == |founders| && forall i :: 0 <= i < |founders| ==> r[i] == FounderKey(founders[i])
  {
    seq(|founders|, j requires 0 <= j < |founders| => FounderKey(founders[j]))
  }

  /** The script as written: founders are grouped by the lenient key. Of
      two founders read before the run ends that share it, the one with the
      higher id gets a delete call; and a founder gets one only when another
      with the same lenient key has a lower id. */
  method RemoveDuplicatesAsWritten(founders: seq<FounderRow>, failing: set<int>)
    returns (attempts: seq<int>, deletedCount: nat, crashed: bool)
    ensures crashed <==> exists j :: 0 <= j < |founders| && founders[j].lastName.None?
    ensures deletedCount == Succeeded(attempts, failing)
    ensures UniqueIds(Processed(founders)) ==>
              forall i, j :: 0 <= i < |Processed(founders)| && 0 <= j < |Processed(founders)|
                && LenientKey(founders[i]) == LenientKey(founders[j]) && founders[i].id < founders[j].id
                ==> founders[j].id in attempts
    ensures UniqueIds(Processed(founders)) ==>
              forall j :: 0 <= j < |Processed(founders)| && founders[j].id in attempts ==>
                exists i :: 0 <= i < |Processed(founders)| && founders[i].id < founders[j].id
                  && LenientKey(founders[i]) == LenientKey(founders[j])
  {
    var keys := LenientKeys(founders);
    attempts, deletedCount, crashed := RemoveByKey(founders, keys, failing);
    DeletionsByKeyOf(founders, LenientKey, keys, attempts);
  }

  /** The script with the intended key. Of two founders of one company that
      share a cleaned name, the one with the higher id gets a delete call;
      and a founder gets one only when another of the same company and
      cleaned name has a lower id (so, by `FounderKeySeparatesCompanies`,
      never because of a founder of another company). */
  method RemoveDuplicates(founders: seq<FounderRow>, failing: set<int>)
    returns (attempts: seq<int>, deletedCount: nat, crashed: bool)
    ensures crashed <==> exists j :: 0 <= j < |founders| && founders[j].lastName.None?
    ensures deletedCount == Succeeded(attempts, failing)
    ensures UniqueIds(Processed(founders)) ==>
              forall i, j :: 0 <= i < |Processed(founders)| && 0 <= j < |Processed(founders)|
                && FounderKey(founders[i]) == FounderKey(founders[j]) && founders[i].id < founders[j].id
                ==> founders[j].id in attempts
    ensures UniqueIds(Processed(founders)) ==>
              forall j :: 0 <= j < |Processed(founders)| && founders[j].id in attempts ==>
                exists i :: 0 <= i < |Processed(founders)| && founders[i].id < founders[j].id
                  && FounderKey(founders[i]) == FounderKey(founders[j])
  {
    var keys := FounderKeys(founders);
    attempts, deletedCount, crashed := RemoveByKey(founders, keys, failing);
    DeletionsByKeyOf(founders, FounderKey, keys, attempts);
  }

  /** `DeletionsByKey` restated with the key of each founder computed by
      `key`. */
  lemma DeletionsByKeyOf<K>(founders: seq<FounderRow>, key: FounderRow -> K, keys: seq<K>, attempts: seq<int>)
    requires |keys| == |founders| && forall i :: 0 <= i < |founders| ==> keys[i] == key(founders[i])
    requires UniqueIds(Processed(founders)) ==>
               forall i, j :: 0 <= i < |Processed(founders)| && 0 <= j < |Processed(founders)|
                 && keys[i] == keys[j] && founders[i].id < founders[j].id
                 ==> founders[j].id in attempts
    requires UniqueIds(Processed(founders)) ==>
               forall j :: 0 <= j < |Processed(founders)| && founders[j].id in attempts ==>
                 exists i :: 0 <= i < |Processed(founders)| && keys[i] == keys[j] && founders[i].id < founders[j].id
    ensures UniqueIds(Processed(founders)) ==>
              forall i, j :: 0 <= i < |Processed(founders)| && 0 <= j < |Processed(founders)|
                && key(founders[i]) == key(founders[j]) && founders[i].id < founders[j].id
                ==> founders[j].id in attempts
    ensures UniqueIds(Processed(founders)) ==>
              forall j :: 0 <= j < |Processed(founders)| && founders[j].id in attempts ==>
                exists i :: 0 <= i < |Processed(founders)| && founders[i].id < founders[j].id
                  && key(founders[i]) == key(founders[j])
  {
    var n := |Processed(founders)|;
    assert n <= |founders|;
    if UniqueIds(Processed(founders)) {
      forall j | 0 <= j < n && founders[j].id in attempts
        ensures exists i :: 0 <= i < n && founders[i].id < founders[j].id
                  && key(founders[i]) == key(founders[j])
      {
        var i :| 0 <= i < n && keys[i] == keys[j] && founders[i].id < founders[j].id;
        assert key(founders[i]) == keys[i];
      }
    }
  }
}
