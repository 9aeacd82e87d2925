/** How the scraper turns a founder's heading into a first and a last name:
    a run-together name such as "DrJohnSmith" is cut before every capital
    letter, a leading courtesy title is dropped, the rest is split on
    whitespace, and the founders are paired with the LinkedIn links by
    position. */
module FounderNames {
  import opened Chars
  import opened Strings
  import opened Records

  // ---------------------------------------------------------------------
  // Cutting before capitals
  // ---------------------------------------------------------------------

  /** No capital letter after the first character. */
  predicate TailLower(w: string) {
    forall k :: 0 < k < |w| ==> !IsUpper(w[k])
  }

  /** A capital letter followed by no other. */
  predicate Capitalised(w: string) {
    |w| > 0 && IsUpper(w[0]) && TailLower(w)
  }

  /** Every capital letter after the first character has a space before
      it. */
  predicate CapitalsSeparated(s: string) {
    forall k :: 0 < k < |s| && IsUpper(s[k]) ==> s[k - 1] == ' '
  }

  lemma StripKeepsTailLower(s: string)
    ensures TailLower(s) ==> TailLower(Strip(s))
  {
    TailLowerSlice(s, Lead(s), Lead(s) + |Strip(s)|);
  }

  lemma TailLowerSlice(s: string, i: nat, j: nat)
    requires i <= j <= |s|
    ensures TailLower(s) ==> TailLower(s[i..j])
  {
    if TailLower(s) {
      forall k | 0 < k < j - i ensures !IsUpper(s[i..j][k]) {
        assert s[i..j][k] == s[i + k];
      }
    }
  }

  lemma StripKeepsCapitalised(s: string)
    ensures Capitalised(s) ==> Capitalised(Strip(s))
  {
    if Capitalised(s) {
      StripKeepsHead(s);
      assert Strip(s)[0] == s[0];
      StripKeepsTailLower(s);
    }
  }

  /** The loop over `name[1:]`: `current` is the word being built, and the
      result is the words appended from here on, the last one unstripped. */
  function CapitalWords(rest: string, current: string): (r: seq<string>)
    requires |current| > 0
    ensures |r| >= 1
    ensures TailLower(current) ==> TailLower(r[0])
    ensures Capitalised(current) ==> Capitalised(r[0])
    ensures forall i :: 1 <= i < |r| ==> Capitalised(r[i])
    decreases |rest|
  {
    if |rest| == 0 then [current]
    else if IsUpper(rest[0]) then
      var tail := CapitalWords(rest[1..], [rest[0]]);
      StripKeepsTailLower(current);
      StripKeepsCapitalised(current);
      ConsCapitalised(Strip(current), tail);
      [Strip(current)] + tail
    else
      GrowKeepsCase(current, rest[0]);
      CapitalWords(rest[1..], current + [rest[0]])
  }

  lemma GrowKeepsCase(w: string, c: char)
    requires |w| > 0 && !IsUpper(c)
    ensures TailLower(w) ==> TailLower(w + [c])
    ensures Capitalised(w) ==> Capitalised(w + [c])
  {
    assert forall k :: 0 <= k < |w| ==> (w + [c])[k] == w[k];
  }

  lemma ConsCapitalised(w: string, tail: seq<string>)
    requires |tail| >= 1 && Capitalised(tail[0])
    requires forall i :: 1 <= i < |tail| ==> Capitalised(tail[i])
    ensures forall i :: 1 <= i < |[w] + tail| ==> Capitalised(([w] + tail)[i])
  {
    assert forall i :: 1 <= i < |[w] + tail| ==> ([w] + tail)[i] == tail[i - 1];
  }

  /** The words of a non-empty name, cut before each capital letter. */
  function Words(name: string): (r: seq<string>)
    requires |name| > 0
    ensures |r| >= 1 && TailLower(r[0])
    ensures forall i :: 1 <= i < |r| ==> Capitalised(r[i])
  {
    CapitalWords(name[1..], [name[0]])
  }

  /** `" ".join(words)` */
  function JoinedName(name: string): string
    requires |name| > 0
  {
    Join(Words(name), " ")
  }

  lemma {:induction false} JoinSeparatesCapitals(words: seq<string>)
    requires |words| >= 1 && TailLower(words[0])
    requires forall i :: 1 <= i < |words| ==> Capitalised(words[i])
    ensures CapitalsSeparated(Join(words, " "))
    decreases |words|
  {
    if |words| > 1 {
      var w := words[0];
      var rest := Join(words[1..], " ");
      JoinSeparatesCapitals(words[1..]);
      var s := w + " " + rest;
      assert Join(words, " ") == s;
      assert forall k :: 0 <= k < |w| ==> s[k] == w[k];
      assert s[|w|] == ' ';
      assert forall k :: |w| < k < |s| ==> s[k] == rest[k - |w| - 1];
    }
  }

  lemma ConsKeepsText(a: string, ws: seq<string>, x: string, y: string)
    requires RemoveSpaces(a) == RemoveSpaces(x)
    requires RemoveSpaces(Concat(ws)) == RemoveSpaces(y)
    ensures RemoveSpaces(Concat([a] + ws)) == RemoveSpaces(x + y)
  {
    assert ([a] + ws)[1..] == ws;
    RemoveSpacesConcat(a, Concat(ws));
    RemoveSpacesConcat(x, y);
  }

  lemma LowerStepKeepsText(rest: string, current: string)
    requires |current| > 0 && |rest| > 0 && !IsUpper(rest[0])
    requires RemoveSpaces(Concat(CapitalWords(rest[1..], current + [rest[0]])))
             == RemoveSpaces(current + [rest[0]] + rest[1..])
    ensures RemoveSpaces(Concat(CapitalWords(rest, current))) == RemoveSpaces(current + rest)
  {
    LowerStepWords(rest, current);
    LowerStepText(rest, current);
  }

  lemma LowerStepWords(rest: string, current: string)
    requires |current| > 0 && |rest| > 0 && !IsUpper(rest[0])
    ensures Concat(CapitalWords(rest, current)) == Concat(CapitalWords(rest[1..], current + [rest[0]]))
  {
  }

  lemma LowerStepText(rest: string, current: string)
    requires |rest| > 0
    ensures current + [rest[0]] + rest[1..] == current + rest
  {
  }

  lemma UpperStepKeepsText(rest: string, current: string)
    requires |current| > 0 && |rest| > 0 && IsUpper(rest[0])
    requires RemoveSpaces(Concat(CapitalWords(rest[1..], [rest[0]]))) == RemoveSpaces(rest)
    ensures RemoveSpaces(Concat(CapitalWords(rest, current))) == RemoveSpaces(current + rest)
  {
    CutBeforeCapital(rest, current);
    CutKeepsText(current, rest, CapitalWords(rest[1..], [rest[0]]));
  }

  lemma CutKeepsText(current: string, rest: string, ws: seq<string>)
    requires RemoveSpaces(Concat(ws)) == RemoveSpaces(rest)
    ensures RemoveSpaces(Concat([Strip(current)] + ws)) == RemoveSpaces(current + rest)
  {
    StripKeepsText(current);
    ConsKeepsText(Strip(current), ws, current, rest);
  }

  /** Cutting and re-joining only inserts and removes whitespace. */
  lemma {:induction false} CapitalWordsKeepText(rest: string, current: string)
    requires |current| > 0
    ensures RemoveSpaces(Concat(CapitalWords(rest, current))) == RemoveSpaces(current + rest)
    decreases |rest|
  {
    if |rest| == 0 {
      assert Concat([current]) == current + Concat([]);
      assert current + rest == current;
    } else if IsUpper(rest[0]) {
      CapitalWordsKeepText(rest[1..], [rest[0]]);
      assert [rest[0]] + rest[1..] == rest;
      UpperStepKeepsText(rest, current);
    } else {
      CapitalWordsKeepText(rest[1..], current + [rest[0]]);
      LowerStepKeepsText(rest, current);
    }
  }

  lemma JoinedNameKeepsText(name: string)
    requires |name| > 0
    ensures RemoveSpaces(JoinedName(name)) == RemoveSpaces(name)
  {
    RemoveSpacesOfJoin(Words(name));
    CapitalWordsKeepText(name[1..], [name[0]]);
    assert [name[0]] + name[1..] == name;
  }

  // ---------------------------------------------------------------------
  // Courtesy titles
  // ---------------------------------------------------------------------

  lemma CapitalsSeparatedSlice(s: string, i: int, j: int)
    requires 0 <= i <= j <= |s|
    ensures CapitalsSeparated(s) ==> CapitalsSeparated(s[i..j])
  {
    forall k | 0 < k < j - i && IsUpper(s[i..j][k]) && CapitalsSeparated(s)
      ensures s[i..j][k - 1] == ' '
    {
      assert s[i..j][k] == s[i + k];
    }
  }

  lemma StripKeepsSeparation(s: string)
    ensures CapitalsSeparated(s) ==> CapitalsSeparated(Strip(s))
  {
    var i := Lead(s);
    CapitalsSeparatedSlice(s, i, i + |Strip(s)|);
  }

  /** The courtesy titles dropped from the front of a name. The source
      keeps them in a set; the order here is arbitrary, and
      `OpeningTitleUnique` shows it does not matter. */
  const Titles: seq<string> := ["Dr.", "Dr", "Mr.", "Mr", "Ms.", "Ms", "Mrs.", "Mrs",
                                "Miss", "Sir", "Madam", "Mx", "Prof.", "Prof"]

  /** `full_name.startswith(title + " ")` */
  predicate Opens(title: string, full: string) {
    title + " " <= full
  }

  lemma TitlesHaveNoSpace()
    ensures forall t :: t in Titles ==> ' ' !in t && NoSpaces(t)
  {
  }

  /** At most one title without spaces can open a name, so it does not
      matter in which order the titles are tried. */
  lemma OpeningTitleUnique(full: string, a: string, b: string)
    requires ' ' !in a && ' ' !in b
    requires Opens(a, full) && Opens(b, full)
    ensures a == b
  {
    assert full[|a|] == (a + " ")[|a|] == ' ';
    assert full[|b|] == (b + " ")[|b|] == ' ';
    assert forall q :: 0 <= q < |a| ==> full[q] == a[q] && full[q] in a;
    assert forall q :: 0 <= q < |b| ==> full[q] == b[q] && full[q] in b;
    assert |a| == |b|;
    assert a == (a + " ")[..|a|] == full[..|a|];
    assert b == (b + " ")[..|b|] == full[..|b|];
  }

  /** The loop over the titles: the first that opens the name is cut off,
      and what is left is stripped. */
  function StripTitle(full: string, titles: seq<string>): (r: string)
    ensures CapitalsSeparated(full) ==> CapitalsSeparated(r)
  {
    if |titles| == 0 then full
    else if Opens(titles[0], full) then
      var n := |titles[0]| + 1;
      assert n <= |full|;
      CutKeepsSeparation(full, n);
      Strip(full[n..])
    else
      StripTitle(full, titles[1..])
  }

  lemma CutKeepsSeparation(full: string, n: nat)
    requires n <= |full|
    ensures CapitalsSeparated(full) ==> CapitalsSeparated(Strip(full[n..]))
  {
    CapitalsSeparatedSlice(full, n, |full|);
    assert full[n..|full|] == full[n..];
    StripKeepsSeparation(full[n..]);
  }

  /** A name no title opens is left alone; one that a title opens loses
      that title and the whitespace after it, whichever order the titles
      are tried in, provided no title holds a space. */
  lemma {:induction false} StripTitleCuts(full: string, titles: seq<string>)
    ensures (forall t :: t in titles ==> !Opens(t, full)) ==> StripTitle(full, titles) == full
    ensures (forall t :: t in titles ==> ' ' !in t)
            ==> forall t :: t in titles && Opens(t, full) ==> StripTitle(full, titles) == Strip(full[|t| + 1..])
    decreases |titles|
  {
    if |titles| > 0 {
      if Opens(titles[0], full) {
        OnlyOpeningTitle(full, titles, titles[0]);
      } else {
        StripTitleCuts(full, titles[1..]);
        assert forall t :: t in titles ==> t == titles[0] || t in titles[1..];
      }
    }
  }

  lemma OnlyOpeningTitle(full: string, titles: seq<string>, t: string)
    requires Opens(t, full) && t in titles
    ensures (forall u :: u in titles ==> ' ' !in u) ==> forall u :: u in titles && Opens(u, full) ==> u == t
  {
    forall u | (forall v :: v in titles ==> ' ' !in v) && u in titles && Opens(u, full)
      ensures u == t
    {
      OpeningTitleUnique(full, u, t);
    }
  }

  /** `split_name_by_capitals(name)`; the source indexes `name[0]`, so the
      name must not be empty. */
  function SplitNameByCapitals(name: string): (r: string)
    requires |name| > 0
    ensures CapitalsSeparated(r)
  {
    var full := JoinedName(name);
    JoinSeparatesCapitals(Words(name));
    StripTitle(full, Titles)
  }


  lemma OpensSplits(full: string, t: string)
    requires Opens(t, full)
    ensures full == t + " " + full[|t| + 1..]
  {
  }

  lemma RemoveSpacesAfterWord(t: string, after: string)
    requires NoSpaces(t)
    ensures RemoveSpaces(t + " " + after) == t + RemoveSpaces(after)
  {
    var a := t + " ";
    RemoveSpacesConcat(a, after);
    RemoveSpacesConcat(t, " ");
    RemoveSpacesOfWord(t);
    RemoveSpacesOfBlank(" ");
    assert t + "" == t;
  }

  /** Cutting off one title deletes the title and whitespace only. */
  lemma CutTitleKeepsText(full: string, t: string)
    requires NoSpaces(t) && Opens(t, full)
    ensures RemoveSpaces(full) == t + RemoveSpaces(Strip(full[|t| + 1..]))
  {
    OpensSplits(full, t);
    RemoveSpacesAfterWord(t, full[|t| + 1..]);
    StripKeepsText(full[|t| + 1..]);
  }

  /** Cutting off a title deletes the title and whitespace only. */
  lemma StripTitleKeepsText(full: string, titles: seq<string>)
    requires forall t :: t in titles ==> ' ' !in t && NoSpaces(t)
    ensures (forall t :: t in titles ==> !Opens(t, full))
            ==> RemoveSpaces(StripTitle(full, titles)) == RemoveSpaces(full)
    ensures forall t :: t in titles && Opens(t, full)
                ==> RemoveSpaces(full) == t + RemoveSpaces(StripTitle(full, titles))
  {
    StripTitleCuts(full, titles);
    forall t | t in titles && Opens(t, full)
      ensures RemoveSpaces(full) == t + RemoveSpaces(StripTitle(full, titles))
    {
      CutTitleKeepsText(full, t);
    }
  }

  /** The cleaned name has the letters of the heading, less the title when
      one was cut off. */
  lemma SplitNameKeepsText(name: string)
    requires |name| > 0
    ensures (forall t :: t in Titles ==> !Opens(t, JoinedName(name)))
            ==> RemoveSpaces(SplitNameByCapitals(name)) == RemoveSpaces(name)
    ensures forall t :: t in Titles && Opens(t, JoinedName(name))
                ==> RemoveSpaces(name) == t + RemoveSpaces(SplitNameByCapitals(name))
  {
    JoinedNameKeepsText(name);
    TitlesHaveNoSpace();
    StripTitleKeepsText(JoinedName(name), Titles);
  }

  lemma CutBeforeCapital(rest: string, current: string)
    requires |current| > 0 && |rest| > 0 && IsUpper(rest[0])
    ensures CapitalWords(rest, current) == [Strip(current)] + CapitalWords(rest[1..], [rest[0]])
  {
  }

  lemma GrowWord(rest: string, current: string)
    requires |current| > 0 && |rest| > 0 && !IsUpper(rest[0])
    ensures CapitalWords(rest, current) == CapitalWords(rest[1..], current + [rest[0]])
  {
  }

  /** A run of non-capitals is appended to the current word. */
  lemma {:induction false} GrowWordBy(tail: string, rest: string, current: string)
    requires |current| > 0
    requires forall k :: 0 <= k < |tail| ==> !IsUpper(tail[k])
    ensures CapitalWords(tail + rest, current) == CapitalWords(rest, current + tail)
    decreases |tail|
  {
    if |tail| == 0 {
      assert tail + rest == rest && current + tail == current;
    } else {
      GrowWord(tail + rest, current);
      assert (tail + rest)[1..] == tail[1..] + rest;
      GrowWordBy(tail[1..], rest, current + [tail[0]]);
      assert current + [tail[0]] + tail[1..] == current + tail;
    }
  }

  /** A capitalised word is read whole. */
  lemma CapitalisedRun(w: string, rest: string)
    requires Capitalised(w)
    ensures CapitalWords(w[1..] + rest, w[..1]) == CapitalWords(rest, w)
  {
    GrowWordBy(w[1..], rest, w[..1]);
    assert w[..1] + w[1..] == w;
  }

  /** A capitalised word ends the current one and is read whole. */
  lemma CutAt(w: string, rest: string, current: string)
    requires Capitalised(w) && |current| > 0
    ensures CapitalWords(w + rest, current) == [Strip(current)] + CapitalWords(rest, w)
  {
    CutBeforeCapital(w + rest, current);
    assert (w + rest)[1..] == w[1..] + rest && [(w + rest)[0]] == w[..1];
    CapitalisedRun(w, rest);
  }

  /** The words of "Dr" followed by two run-together capitalised names. */
  lemma DoctorWords(first: string, last: string)
    requires Capitalised(first) && Capitalised(last) && NoSpaces(first)
    ensures Words("Dr" + (first + last)) == ["Dr", first, last]
  {
    DoctorPrefix(first + last);
    AfterDoctor(first, last);
  }

  lemma DoctorPrefix(rest: string)
    ensures Words("Dr" + rest) == CapitalWords(rest, "Dr")
  {
    var name := "Dr" + rest;
    assert name[1..] == "r" + rest && [name[0]] == "D";
    GrowWordBy("r", rest, "D");
    assert "D" + "r" == "Dr";
  }

  lemma AfterDoctor(first: string, last: string)
    requires Capitalised(first) && Capitalised(last) && NoSpaces(first)
    ensures CapitalWords(first + last, "Dr") == ["Dr", first, last]
  {
    var tail := CapitalWords(last, first);
    CutAt(first, last, "Dr");
    LastName(first, last);
    DoctorTrimmed();
    assert [Strip("Dr")] + tail == ["Dr", first, last];
  }

  lemma DoctorTrimmed()
    ensures Strip("Dr") == "Dr"
  {
    StripTrimmed("Dr");
  }

  lemma LastName(first: string, last: string)
    requires Capitalised(last) && NoSpaces(first) && |first| > 0
    ensures CapitalWords(last, first) == [first, last]
  {
    CutAt(last, "", first);
    assert last + "" == last;
    StripTrimmed(first);
  }

  /** A run-together heading opening with "Dr" loses the title and is cut
      into the two names. */
  lemma DoctorExample(first: string, last: string)
    requires Capitalised(first) && Capitalised(last) && NoSpaces(first) && NoSpaces(last)
    ensures SplitNameByCapitals("Dr" + (first + last)) == first + " " + last
  {
    var rest := first + " " + last;
    var full := JoinedName("Dr" + (first + last));
    assert full == "Dr" + " " + rest by {
      DoctorWords(first, last);
      JoinThree("Dr", first, last, " ");
    }
    assert StripTitle(full, Titles) == Strip(rest) by {
      DoctorOpens(rest);
      assert "Dr" in Titles;
      TitlesHaveNoSpace();
      StripTitleCuts(full, Titles);
    }
    assert Strip(rest) == rest by {
      StripTrimmed(rest);
    }
  }

  lemma JoinThree(a: string, b: string, c: string, sep: string)
    ensures Join([a, b, c], sep) == a + sep + (b + sep + c)
  {
    var words := [a, b, c];
    assert words[1..] == [b, c] && words[1..][1..] == [c];
    assert Join([c], sep) == c;
    assert Join([b, c], sep) == b + sep + c;
  }

  lemma DoctorOpens(rest: string)
    ensures Opens("Dr", "Dr" + " " + rest)
    ensures ("Dr" + " " + rest)[|"Dr"| + 1..] == rest
  {
    var t := "Dr" + " " + rest;
    assert t[..3] == "Dr" + " ";
    assert t[3..] == rest;
  }

  // ---------------------------------------------------------------------
  // First and last name, and the LinkedIn link
  // ---------------------------------------------------------------------

  /** `parts = clean_name.split()`; the first part, and the others joined
      by single spaces (both empty when there are no parts). */
  function NameFields(clean: string): (r: (string, string))
    ensures var parts := Tokens(clean);
            && (|parts| == 0 ==> r == ("", ""))
            && (|parts| > 0 ==> r.0 == parts[0] && Tokens(r.1) == parts[1..])
    ensures NoSpaces(r.0)
    ensures RemoveSpaces(clean) == r.0 + RemoveSpaces(r.1)
    ensures |Tokens(clean)| <= 1 ==> r.1 == ""
    ensures SingleSpaced(r.1)
  {
    var parts := Tokens(clean);
    TokensKeepText(clean);
    if |parts| == 0 then ("", "")
    else
      var last := if |parts| > 1 then Join(parts[1..], " ") else "";
      TokensOfJoin(parts[1..]);
      JoinSingleSpaced(parts[1..]);
      TokensKeepText(last);
      assert Concat(parts) == parts[0] + Concat(parts[1..]);
      (parts[0], last)
  }

  /** A founder as the scraper hands it to the database step. */
  datatype ScrapedFounder = ScrapedFounder(firstName: string, lastName: string, linkedinUrl: Option<string>)

  /** One founder from a non-empty heading and the link found for it. */
  function PairedFounder(name: string, link: Option<string>): (r: ScrapedFounder)
    requires |name| > 0
    ensures NoSpaces(r.firstName) && r.linkedinUrl == link
  {
    var f := NameFields(SplitNameByCapitals(name));
    ScrapedFounder(f.0, f.1, link)
  }

  /** The founders of one company page: headings and LinkedIn links are
      paired by position, and a founder without a link gets none. An empty
      heading makes `name[0]` raise; the page's details are then dropped
      (`None`). */
  function PairFounders(names: seq<string>, links: seq<string>): (r: Option<seq<ScrapedFounder>>)
    ensures r.None? <==> exists i :: 0 <= i < |names| && names[i] == ""
    ensures r.Some? ==> |r.value| == |names|
    ensures r.Some? ==> forall i :: 0 <= i < |names| ==>
              r.value[i] == PairedFounder(names[i], if i < |links| then Some(links[i]) else None)
  {
    if forall i :: 0 <= i < |names| ==> names[i] != "" then
      Some(seq(|names|, i requires 0 <= i < |names| =>
        PairedFounder(names[i], if i < |links| then Some(links[i]) else None)))
    else None
  }

  /** Every paired founder carries the letters of their heading, less a
      leading title, split between first and last name. */
  lemma PairedFounderKeepsText(name: string, link: Option<string>)
    requires |name| > 0
    ensures var f := PairedFounder(name, link);
            (forall t :: t in Titles ==> !Opens(t, JoinedName(name)))
            ==> RemoveSpaces(name) == f.firstName + RemoveSpaces(f.lastName)
    ensures var f := PairedFounder(name, link);
            forall t :: t in Titles && Opens(t, JoinedName(name))
                ==> RemoveSpaces(name) == t + f.firstName + RemoveSpaces(f.lastName)
  {
    var clean := SplitNameByCapitals(name);
    var fields := NameFields(clean);
    assert PairedFounder(name, link) == ScrapedFounder(fields.0, fields.1, link);
    SplitNameKeepsText(name);
    TitleThenFields(RemoveSpaces(name), clean, fields.0, fields.1);
  }

  lemma TitleThenFields(text: string, clean: string, first: string, last: string)
    requires RemoveSpaces(clean) == first + RemoveSpaces(last)
    ensures forall t: string :: text == t + RemoveSpaces(clean) ==> text == t + first + RemoveSpaces(last)
  {
  }
}
