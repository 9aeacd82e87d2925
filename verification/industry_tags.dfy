/** The scraper's industry-tag normalisation and the company record it
    upserts: compound tags are split on a handful of separators, each part
    is renamed to a canonical tag when it matches a rule, and repeats are
    dropped. */
module IndustryTags {
  import opened Chars
  import opened Strings
  import opened Lists
  import opened Records

  // ---------------------------------------------------------------------
  // Splitting compound tags
  // ---------------------------------------------------------------------

  /** The separators turned into `/`, in the order they are replaced. */
  const Separators: seq<string> := [" or ", " & ", ", ", " Or "]

  /** The chain of `.replace(sep, "/")` calls, one per pattern in order. */
  function ReplaceAll(s: string, pats: seq<string>): string
    requires forall k :: 0 <= k < |pats| ==> |pats[k]| > 0
    decreases |pats|
  {
    if |pats| == 0 then s else ReplaceAll(Replace(s, pats[0], "/"), pats[1..])
  }

  /** The parts of one raw tag: separators replaced by `/`, then split on
      `/`. */
  function Parts(tag: string): (r: seq<string>)
    ensures |r| >= 1
    ensures forall k :: 0 <= k < |r| ==> '/' !in r[k]
  {
    Split(ReplaceAll(tag, Separators), '/')
  }

  /** The word "or" or "Or" starts at index `i` of `s`: bounded by a space
      or the end of `s` on both sides. */
  predicate OrWordAt(s: string, i: nat) {
    && i + 2 <= |s| && (s[i] == 'o' || s[i] == 'O') && s[i + 1] == 'r'
    && (i == 0 || s[i - 1] == ' ') && (i + 2 == |s| || s[i + 2] == ' ')
  }

  /** Letters, digits and spaces, with no word "or" or "Or" among them. */
  predicate Phrase(s: string) {
    && (forall k :: 0 <= k < |s| ==> IsAlnum(s[k]) || s[k] == ' ')
    && (forall i :: 0 <= i < |s| ==> !OrWordAt(s, i))
  }

  /** What may stand between two parts: a separator, or `/` itself. */
  predicate IsJoint(m: string) {
    m in Separators || m == "/"
  }

  lemma NotAt(t: string, pat: string, p: nat, k: nat)
    requires k < |pat|
    requires p + k >= |t| || t[p + k] != pat[k]
    ensures !OccursAt(t, pat, p)
  {
    if p + |pat| <= |t| {
      assert t[p..p + |pat|][k] == t[p + k];
    }
  }

  lemma JointChar(a: string, m: string, b: string, q: nat)
    requires q < |a| + |m| + |b|
    ensures (a + m + b)[q] == if q < |a| then a[q]
                              else if q < |a| + |m| then m[q - |a|]
                              else b[q - |a| - |m|]
  {
  }

  /** A slice of `a + m + b` that lies within `m` is a slice of `m`. */
  lemma SliceOfMiddle(a: string, m: string, b: string, i: nat, j: nat)
    requires i <= j <= |m|
    ensures (a + m + b)[|a| + i..|a| + j] == m[i..j]
  {
    var t := a + m + b;
    var x, y := t[|a| + i..|a| + j], m[i..j];
    forall k | 0 <= k < |x| ensures x[k] == y[k] {
      assert x[k] == t[|a| + i + k];
    }
  }

  /** No separator occurs in a phrase. */
  lemma NoSeparatorInPhrase(s: string, pat: string, p: nat)
    requires Phrase(s) && pat in Separators
    ensures !OccursAt(s, pat, p)
  {
    if p + |pat| <= |s| {
      if pat == " & " {
        NotAt(s, pat, p, 1);
      } else if pat == ", " {
        NotAt(s, pat, p, 0);
      } else {
        assert !OrWordAt(s, p + 1);
        if s[p] != ' ' {
          NotAt(s, pat, p, 0);
        } else if s[p + 1] != pat[1] {
          NotAt(s, pat, p, 1);
        } else if s[p + 2] != 'r' {
          NotAt(s, pat, p, 2);
        } else {
          NotAt(s, pat, p, 3);
        }
      }
    }
  }

  /** Between two phrases, a separator occurs only as the joint itself. */
  lemma NoSeparatorAt(a: string, m: string, b: string, pat: string, p: nat)
    requires Phrase(a) && Phrase(b) && IsJoint(m) && pat in Separators
    requires pat != m || p != |a|
    ensures !OccursAt(a + m + b, pat, p)
  {
    if p + |pat| <= |a| + |m| + |b| {
      if pat == " & " || pat == ", " {
        SymbolNotAt(a, m, b, pat, p);
      } else {
        OrNotAt(a, m, b, pat, p);
      }
    }
  }

  /** `&` and `,` appear between two phrases only inside the joint. */
  lemma SymbolNotAt(a: string, m: string, b: string, pat: string, p: nat)
    requires Phrase(a) && Phrase(b) && IsJoint(m)
    requires pat == " & " || pat == ", "
    requires pat != m || p != |a|
    requires p + |pat| <= |a| + |m| + |b|
    ensures !OccursAt(a + m + b, pat, p)
  {
    var j := if pat == " & " then 1 else 0;
    JointChar(a, m, b, p + j);
    NotAt(a + m + b, pat, p, j);
  }

  lemma WindowDiffers(t: string, pat: string, p: nat)
    requires |pat| == 4 && p + 4 <= |t|
    requires t[p] != pat[0] || t[p + 1] != pat[1] || t[p + 2] != pat[2] || t[p + 3] != pat[3]
    ensures !OccursAt(t, pat, p)
  {
    if t[p] != pat[0] {
      NotAt(t, pat, p, 0);
    } else if t[p + 1] != pat[1] {
      NotAt(t, pat, p, 1);
    } else if t[p + 2] != pat[2] {
      NotAt(t, pat, p, 2);
    } else {
      NotAt(t, pat, p, 3);
    }
  }

  /** " or " and " Or " appear between two phrases only as the joint. */
  lemma OrNotAt(a: string, m: string, b: string, pat: string, p: nat)
    requires Phrase(a) && Phrase(b) && IsJoint(m)
    requires pat == " or " || pat == " Or "
    requires pat != m || p != |a|
    requires p + 4 <= |a| + |m| + |b|
    ensures !OccursAt(a + m + b, pat, p)
  {
    if |a| <= p + 2 < |a| + |m| {
      OrNotAcrossJoint(a, m, b, pat, p);
    } else if p + 2 < |a| {
      OrNotInFirst(a, m, b, pat, p);
    } else {
      OrNotInSecond(a, m, b, pat, p);
    }
  }

  /** The `r` of a window on the joint is the joint's own. */
  lemma OrNotAcrossJoint(a: string, m: string, b: string, pat: string, p: nat)
    requires IsJoint(m) && (pat == " or " || pat == " Or ")
    requires pat != m || p != |a|
    requires |a| <= p + 2 < |a| + |m| && p + 4 <= |a| + |m| + |b|
    ensures !OccursAt(a + m + b, pat, p)
  {
    var t := a + m + b;
    JointChar(a, m, b, p + 2);
    if t[p + 2] != 'r' {
      NotAt(t, pat, p, 2);
    } else {
      SliceOfMiddle(a, m, b, 0, |m|);
    }
  }

  lemma OrNotInFirst(a: string, m: string, b: string, pat: string, p: nat)
    requires Phrase(a) && IsJoint(m) && (pat == " or " || pat == " Or ")
    requires p + 2 < |a| && p + 4 <= |a| + |m| + |b|
    ensures !OccursAt(a + m + b, pat, p)
  {
    var t := a + m + b;
    JointChar(a, m, b, p + 3);
    assert !OrWordAt(a, p + 1);
    WindowDiffers(t, pat, p);
  }

  lemma OrNotInSecond(a: string, m: string, b: string, pat: string, p: nat)
    requires Phrase(b) && IsJoint(m) && (pat == " or " || pat == " Or ")
    requires |a| + |m| <= p + 2 && p + 4 <= |a| + |m| + |b|
    ensures !OccursAt(a + m + b, pat, p)
  {
    var t := a + m + b;
    JointChar(a, m, b, p);
    JointChar(a, m, b, p + 1);
    if p + 1 < |a| + |m| {
      NotAt(t, pat, p, 1);
    } else {
      assert !OrWordAt(b, p + 1 - |a| - |m|);
      WindowDiffers(t, pat, p);
    }
  }

  lemma {:induction false} ReplaceAllUnchanged(t: string, pats: seq<string>)
    requires forall k :: 0 <= k < |pats| ==> |pats[k]| > 0 && Absent(t, pats[k])
    ensures ReplaceAll(t, pats) == t
    decreases |pats|
  {
    if |pats| > 0 {
      ReplaceAbsent(t, pats[0], "/");
      ReplaceAllUnchanged(t, pats[1..]);
    }
  }

  /** Nothing but `/` joins two phrases once the separators are replaced. */
  lemma SlashJointUnchanged(a: string, b: string, pats: seq<string>)
    requires Phrase(a) && Phrase(b)
    requires forall k :: 0 <= k < |pats| ==> pats[k] in Separators
    ensures ReplaceAll(a + "/" + b, pats) == a + "/" + b
  {
    forall k | 0 <= k < |pats| ensures |pats[k]| > 0 && Absent(a + "/" + b, pats[k]) {
      forall p: nat ensures !OccursAt(a + "/" + b, pats[k], p) {
        NoSeparatorAt(a, "/", b, pats[k], p);
      }
    }
    ReplaceAllUnchanged(a + "/" + b, pats);
  }

  lemma {:induction false} ReplaceAllAtJoint(a: string, sep: string, b: string, pats: seq<string>)
    requires Phrase(a) && Phrase(b) && sep in Separators
    requires forall k :: 0 <= k < |pats| ==> pats[k] in Separators
    ensures ReplaceAll(a + sep + b, pats) == if sep in pats then a + "/" + b else a + sep + b
    decreases |pats|
  {
    if |pats| > 0 {
      var t := a + sep + b;
      var pat := pats[0];
      if pat == sep {
        ReplaceAtJoint(a, sep, b);
        SlashJointUnchanged(a, b, pats[1..]);
      } else {
        forall p: nat ensures !OccursAt(t, pat, p) {
          NoSeparatorAt(a, sep, b, pat, p);
        }
        ReplaceAbsent(t, pat, "/");
        ReplaceAllAtJoint(a, sep, b, pats[1..]);
      }
    }
  }

  lemma ReplaceAtJoint(a: string, sep: string, b: string)
    requires Phrase(a) && Phrase(b) && sep in Separators
    ensures Replace(a + sep + b, sep, "/") == a + "/" + b
  {
    var t := a + sep + b;
    assert OccursAt(t, sep, |a|) by {
      SliceOfMiddle(a, sep, b, 0, |sep|);
    }
    forall p: nat | p < |a| ensures !OccursAt(t, sep, p) {
      NoSeparatorAt(a, sep, b, sep, p);
    }
    assert t[|a| + |sep|..] == b;
    forall p: nat ensures !OccursAt(b, sep, p) {
      NoSeparatorInPhrase(b, sep, p);
    }
    ReplaceOnce(t, |a|, sep, "/");
    assert t[..|a|] == a;
  }

  /** Between two phrases, each of the four separators splits a tag
      exactly as `/` does. */
  lemma SeparatorSplitsLikeSlash(a: string, sep: string, b: string)
    requires Phrase(a) && Phrase(b) && sep in Separators
    ensures Parts(a + sep + b) == Parts(a + "/" + b) == [a, b]
  {
    ReplaceAllAtJoint(a, sep, b, Separators);
    SlashJointUnchanged(a, b, Separators);
    assert '/' !in a && '/' !in b;
    SplitTwo(a, '/', b);
  }

  // ---------------------------------------------------------------------
  // Canonical names
  // ---------------------------------------------------------------------

  /** The renaming rules for one part, in the order they are tried, on its
      lower-cased, stripped `key`; a part matching none is kept as
      `fallback`, stripped but with its case. */
  function CanonicalOfKey(key: string, fallback: string): (r: seq<string>)
    ensures 1 <= |r| <= 3
  {
    if key == "ai" then ["AI"]
    else if key == "enterprise software" then ["Enterprise"]
    else if key == "environmental science" then ["Environment"]
    else if Contains(key, "development") then ["Developer Tools"]
    else if key == "biotechnology" then ["Biotech"]
    else if key == "web3" then ["Web3"]
    else if key == "b2c" then ["B2C"]
    else if key == "b2b" then ["B2B"]
    else if key == "ar vr xr" then ["AR", "VR", "XR"]
    else if key == "enterprise solutions" then ["Enterprise"]
    else if key == "ml" then ["Machine Learning"]
    else if key == "financial services" then ["Financial Services"]
    else [fallback]
  }

  function Canonical(part: string): (r: seq<string>)
    ensures 1 <= |r| <= 3
  {
    CanonicalOfKey(Strip(Lower(part)), Strip(part))
  }

  /** The exact-match rules as a table: a key and the tags it becomes. */
  const Rules: seq<(string, seq<string>)> := [
    ("ai", ["AI"]),
    ("enterprise software", ["Enterprise"]),
    ("environmental science", ["Environment"]),
    ("biotechnology", ["Biotech"]),
    ("web3", ["Web3"]),
    ("b2c", ["B2C"]),
    ("b2b", ["B2B"]),
    ("ar vr xr", ["AR", "VR", "XR"]),
    ("enterprise solutions", ["Enterprise"]),
    ("ml", ["Machine Learning"]),
    ("financial services", ["Financial Services"])
  ]

  /** No exact key mentions "development", so the exact rules and the
      "development" rule never compete, and the order of the if-chain
      does not matter. */
  lemma NoRuleMentionsDevelopment(i: int)
    requires 0 <= i < |Rules|
    ensures !Contains(Rules[i].0, "development")
  {
    assert 'd' !in Rules[i].0;
    ContainsNeedsFirstChar(Rules[i].0, "development");
  }

  /** Each exact key is renamed as its table entry says. */
  lemma CanonicalByRule(i: int, fallback: string)
    requires 0 <= i < |Rules|
    ensures CanonicalOfKey(Rules[i].0, fallback) == Rules[i].1
  {
    NoRuleMentionsDevelopment(i);
  }

  /** A key mentioning "development" is renamed "Developer Tools". */
  lemma CanonicalDevelopment(key: string, fallback: string)
    requires Contains(key, "development")
    ensures CanonicalOfKey(key, fallback) == ["Developer Tools"]
  {
    ContainsHasFirstChar(key, "development");
    assert 'd' in key;
    assert key != "ai" && key != "enterprise software" && key != "environmental science";
  }

  /** Any other key keeps the part. */
  lemma CanonicalFallback(key: string, fallback: string)
    requires forall i :: 0 <= i < |Rules| ==> Rules[i].0 != key
    requires !Contains(key, "development")
    ensures CanonicalOfKey(key, fallback) == [fallback]
  {
    assert Rules[0].0 != key && Rules[1].0 != key && Rules[2].0 != key;
    assert Rules[3].0 != key && Rules[4].0 != key && Rules[5].0 != key;
    assert Rules[6].0 != key && Rules[7].0 != key && Rules[8].0 != key;
    assert Rules[9].0 != key && Rules[10].0 != key;
  }

  /** Parts that differ only in case and surrounding whitespace, and that
      some rule renames, are renamed alike. */
  lemma CanonicalIgnoresCase(p: string, q: string)
    requires Strip(Lower(p)) == Strip(Lower(q))
    requires (exists i :: 0 <= i < |Rules| && Rules[i].0 == Strip(Lower(p)))
             || Contains(Strip(Lower(p)), "development")
    ensures Canonical(p) == Canonical(q)
  {
    var key := Strip(Lower(p));
    if Contains(key, "development") {
      CanonicalDevelopment(key, Strip(p));
      CanonicalDevelopment(key, Strip(q));
    } else {
      var i :| 0 <= i < |Rules| && Rules[i].0 == key;
      CanonicalByRule(i, Strip(p));
      CanonicalByRule(i, Strip(q));
    }
  }

  // ---------------------------------------------------------------------
  // The whole normalisation
  // ---------------------------------------------------------------------

  /** The renamed parts of one raw tag, in order. */
  function TagCanonical(tag: string): (r: seq<string>)
    ensures forall t :: t in r <==>
              exists k :: 0 <= k < |Parts(tag)| && t in Canonical(Parts(tag)[k])
  {
    var parts := Parts(tag);
    var lists := seq(|parts|, i requires 0 <= i < |parts| => Canonical(parts[i]));
    assert forall k :: 0 <= k < |parts| ==> lists[k] == Canonical(parts[k]);
    Flatten(lists)
  }

  /** `cleaned_tags` after the loop: every part of every tag, renamed, in
      order. */
  function CleanedList(tags: seq<string>): (r: seq<string>)
    ensures forall t :: t in r <==> exists i :: 0 <= i < |tags| && t in TagCanonical(tags[i])
  {
    Flatten(TagLists(tags))
  }

  function TagLists(tags: seq<string>): (r: seq<seq<string>>)
    ensures |r| == |tags| && forall i :: 0 <= i < |tags| ==> r[i] == TagCanonical(tags[i])
  {
    seq(|tags|, i requires 0 <= i < |tags| => TagCanonical(tags[i]))
  }

  /** `clean_industry_tags(industry_tags)`: the result of `list(set(...))`
      has no fixed order, so it is modelled as a set. */
  function CleanIndustryTags(tags: Option<seq<string>>): (r: set<string>)
    ensures tags.None? || tags.value == [] ==> r == {}
    ensures tags.Some? ==> forall t :: t in r <==>
              exists i, k :: 0 <= i < |tags.value| && 0 <= k < |Parts(tags.value[i])|
                             && t in Canonical(Parts(tags.value[i])[k])
  {
    if tags.None? || |tags.value| == 0 then {} else Elements(CleanedList(tags.value))
  }

  lemma CleanedListConcat(a: seq<string>, b: seq<string>)
    ensures CleanedList(a + b) == CleanedList(a) + CleanedList(b)
  {
    var fa, fb, fab := TagLists(a), TagLists(b), TagLists(a + b);
    forall i | 0 <= i < |fab| ensures fab[i] == (fa + fb)[i] {
      if i < |a| {
        assert (a + b)[i] == a[i];
      } else {
        assert (a + b)[i] == b[i - |a|];
      }
    }
    assert fab == fa + fb;
    FlattenConcat(fa, fb);
  }

  /** Each raw tag is normalised on its own: the tags of a concatenation
      are the union of the tags of its halves. */
  lemma CleanIndustryTagsUnion(a: seq<string>, b: seq<string>)
    ensures CleanIndustryTags(Some(a + b)) == CleanIndustryTags(Some(a)) + CleanIndustryTags(Some(b))
  {
    CleanedListConcat(a, b);
    ElementsConcat(CleanedList(a), CleanedList(b));
    TagsOfList(a);
    TagsOfList(b);
    TagsOfList(a + b);
  }

  /** The empty list needs no special case after all. */
  lemma TagsOfList(tags: seq<string>)
    ensures CleanIndustryTags(Some(tags)) == Elements(CleanedList(tags))
  {
    if |tags| == 0 {
      assert CleanedList(tags) == [];
    }
  }

  /** A tag with no separator and no slash. */
  ghost predicate PlainTag(tag: string) {
    '/' !in tag && forall k :: 0 <= k < |Separators| ==> Absent(tag, Separators[k])
  }

  /** A phrase has nothing to split on. */
  lemma PhraseIsPlain(s: string)
    requires Phrase(s)
    ensures PlainTag(s)
  {
    forall k, p: nat | 0 <= k < |Separators| ensures !OccursAt(s, Separators[k], p) {
      NoSeparatorInPhrase(s, Separators[k], p);
    }
  }

  /** A plain tag is a single part. */
  lemma PartsOfPlainTag(tag: string)
    requires PlainTag(tag)
    ensures Parts(tag) == [tag]
  {
    ReplaceAllUnchanged(tag, Separators);
    SplitNone(tag, '/');
  }

  /** A plain tag gives the renamed forms of itself, and nothing else. */
  lemma PlainTagClean(tag: string)
    requires PlainTag(tag)
    ensures CleanIndustryTags(Some([tag])) == Elements(Canonical(tag))
  {
    PartsOfPlainTag(tag);
  }

  lemma PlainTagGives(tag: string, out: seq<string>)
    requires PlainTag(tag) && Canonical(tag) == out
    ensures CleanIndustryTags(Some([tag])) == Elements(out)
  {
    PlainTagClean(tag);
  }

  /** A plain tag whose key is in the table becomes that entry's tags. */
  lemma PlainTagByRule(tag: string, i: int)
    requires PlainTag(tag) && 0 <= i < |Rules| && Strip(Lower(tag)) == Rules[i].0
    ensures CleanIndustryTags(Some([tag])) == Elements(Rules[i].1)
  {
    calc {
      CleanIndustryTags(Some([tag]));
      { PlainTagClean(tag); }
      Elements(Canonical(tag));
      { CanonicalByRule(i, Strip(tag)); }
      Elements(Rules[i].1);
    }
  }

  /** A plain tag mentioning "development", in any case, becomes
      "Developer Tools". */
  lemma PlainTagDevelopment(tag: string)
    requires PlainTag(tag) && Contains(Strip(Lower(tag)), "development")
    ensures CleanIndustryTags(Some([tag])) == {"Developer Tools"}
  {
    calc {
      CleanIndustryTags(Some([tag]));
      { PlainTagClean(tag); }
      Elements(Canonical(tag));
      { CanonicalDevelopment(Strip(Lower(tag)), Strip(tag)); }
      Elements(["Developer Tools"]);
      { ElementsOfOne("Developer Tools"); }
      ({"Developer Tools"});
    }
  }

  /** Any other plain tag is kept, stripped but with its case. */
  lemma PlainTagFallback(tag: string)
    requires PlainTag(tag)
    requires forall i :: 0 <= i < |Rules| ==> Rules[i].0 != Strip(Lower(tag))
    requires !Contains(Strip(Lower(tag)), "development")
    ensures CleanIndustryTags(Some([tag])) == {Strip(tag)}
  {
    assert Canonical(tag) == [Strip(tag)] by {
      CanonicalFallback(Strip(Lower(tag)), Strip(tag));
    }
    PlainTagGives(tag, [Strip(tag)]);
    ElementsOfOne(Strip(tag));
  }

  /** "ar vr xr", in any case, becomes three tags. */
  lemma ArVrXrExpands(tag: string)
    requires PlainTag(tag) && Strip(Lower(tag)) == "ar vr xr"
    ensures CleanIndustryTags(Some([tag])) == {"AR", "VR", "XR"}
  {
    assert Rules[7] == ("ar vr xr", ["AR", "VR", "XR"]);
    calc {
      CleanIndustryTags(Some([tag]));
      { PlainTagByRule(tag, 7); }
      Elements(["AR", "VR", "XR"]);
      { ElementsOfThree("AR", "VR", "XR"); }
      ({"AR", "VR", "XR"});
    }
  }

  /** Two phrases joined by a separator or a slash give the renamed forms
      of both. */
  lemma CompoundTag(a: string, m: string, b: string)
    requires Phrase(a) && Phrase(b) && IsJoint(m)
    ensures CleanIndustryTags(Some([a + m + b])) == Elements(Canonical(a)) + Elements(Canonical(b))
  {
    if m == "/" {
      SeparatorSplitsLikeSlash(a, " & ", b);
    } else {
      SeparatorSplitsLikeSlash(a, m, b);
    }
    TwoPartTag(a + m + b, a, b);
  }

  lemma TwoPartTag(tag: string, a: string, b: string)
    requires Parts(tag) == [a, b]
    ensures CleanIndustryTags(Some([tag])) == Elements(Canonical(a)) + Elements(Canonical(b))
  {
    var r := CleanIndustryTags(Some([tag]));
    OneTagMembers(tag, [a, b]);
    forall t ensures t in r <==> t in Canonical(a) || t in Canonical(b) {
      if t in r {
        var k :| 0 <= k < 2 && t in Canonical([a, b][k]);
      }
      if t in Canonical(a) {
        assert t in Canonical([a, b][0]);
      }
      if t in Canonical(b) {
        assert t in Canonical([a, b][1]);
      }
    }
  }

  /** The tags of one raw tag are the renamed forms of its parts. */
  lemma OneTagMembers(tag: string, parts: seq<string>)
    requires Parts(tag) == parts
    ensures forall t :: t in CleanIndustryTags(Some([tag])) <==>
              exists k :: 0 <= k < |parts| && t in Canonical(parts[k])
  {
    var r := CleanIndustryTags(Some([tag]));
    assert [tag][0] == tag;
    forall t ensures t in r <==> exists k :: 0 <= k < |parts| && t in Canonical(parts[k]) {
      if t in r {
        var i, k :| 0 <= i < 1 && 0 <= k < |Parts([tag][i])| && t in Canonical(Parts([tag][i])[k]);
        assert t in Canonical(parts[k]);
      }
      if exists k :: 0 <= k < |parts| && t in Canonical(parts[k]) {
        var k :| 0 <= k < |parts| && t in Canonical(parts[k]);
        assert t in Canonical(Parts([tag][0])[k]);
      }
    }
  }

  // ---------------------------------------------------------------------
  // The upserted company record
  // ---------------------------------------------------------------------

  /** The scraped company as `insert_into_db` reads it. */
  datatype ScrapedCompany = ScrapedCompany(
    name: string,
    efWebsiteUrl: string,
    description: Option<string>,
    logo: Option<string>,
    demoVideo: Option<string>,
    industryTags: Option<seq<string>>)

  /** `update_data` */
  datatype UpdateData = UpdateData(
    name: string,
    efWebsiteUrl: string,
    description: Option<string>,
    logo: Option<string>,
    demoVideo: Option<string>,
    industryTags: set<string>)

  /** `value[:n] if value else None` */
  function OptionalPrefix(value: Option<string>, n: nat): (r: Option<string>)
    ensures r.None? <==> value.None? || value.value == ""
    ensures r.Some? ==> r.value <= value.value && |r.value| == if |value.value| <= n then |value.value| else n
  {
    if value.None? || value.value == "" then None else Some(Truncate(value.value, n))
  }

  /** The record built for the upsert. */
  function BuildUpdate(c: ScrapedCompany): (r: UpdateData)
    ensures r.name <= c.name && |r.name| == if |c.name| <= 255 then |c.name| else 255
    ensures r.efWebsiteUrl <= c.efWebsiteUrl
    ensures |r.efWebsiteUrl| == if |c.efWebsiteUrl| <= 255 then |c.efWebsiteUrl| else 255
    ensures r.description.None? <==> c.description.None? || c.description.value == ""
    ensures r.description.Some? ==> r.description.value <= c.description.value
    ensures r.description.Some? ==>
              |r.description.value| == if |c.description.value| <= 2000 then |c.description.value| else 2000
    ensures r.logo.None? <==> c.logo.None? || c.logo.value == ""
    ensures r.logo.Some? ==> r.logo.value <= c.logo.value
    ensures r.logo.Some? ==> |r.logo.value| == if |c.logo.value| <= 255 then |c.logo.value| else 255
    ensures r.demoVideo.None? <==> c.demoVideo.None? || c.demoVideo.value == ""
    ensures r.demoVideo.Some? ==> r.demoVideo.value <= c.demoVideo.value
    ensures r.demoVideo.Some? ==>
              |r.demoVideo.value| == if |c.demoVideo.value| <= 255 then |c.demoVideo.value| else 255
    ensures r.industryTags == CleanIndustryTags(c.industryTags)
  {
    UpdateData(Truncate(c.name, 255), Truncate(c.efWebsiteUrl, 255),
               OptionalPrefix(c.description, 2000), OptionalPrefix(c.logo, 255),
               OptionalPrefix(c.demoVideo, 255), CleanIndustryTags(c.industryTags))
  }
}
