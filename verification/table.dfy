/** The title/abbreviation table of `TitleAbbreviation` and its two
    normalised lookups, `convert2abbreviation` and `convert2title`. */
module Abbreviation {
  import opened Wrappers
  import opened Text

  /** A `(full title, abbreviation)` pair, as one item of the loaded data. */
  type Entry = (string, string)

  /** The items of a dictionary, in insertion order, never repeat a key. */
  predicate DistinctTitles(entries: seq<Entry>) {
    forall i, j :: 0 <= i < j < |entries| ==> entries[i].0 != entries[j].0
  }

  /** The map obtained by assigning the pairs one after another, as a
      dictionary built in a loop or a comprehension is (see `LastWinsSpec`). */
  function LastWins<K(==), V>(pairs: seq<(K, V)>): map<K, V> {
    if |pairs| == 0 then map[]
    else
      var last := pairs[|pairs| - 1];
      LastWins(pairs[..|pairs| - 1])[last.0 := last.1]
  }

  /** Every key of the pairs is present. */
  lemma {:induction false} LastWinsHasKey<K, V>(pairs: seq<(K, V)>, i: nat)
    requires i < |pairs|
    ensures pairs[i].0 in LastWins(pairs)
  {
    if i < |pairs| - 1 {
      LastWinsHasKey(pairs[..|pairs| - 1], i);
    }
  }

  /** Every entry of the map comes from some pair. */
  lemma {:induction false} LastWinsFromPair<K, V>(pairs: seq<(K, V)>, k: K)
    requires k in LastWins(pairs)
    ensures exists i :: 0 <= i < |pairs| && pairs[i] == (k, LastWins(pairs)[k])
  {
    var n := |pairs|;
    if pairs[n - 1].0 != k {
      var init := pairs[..n - 1];
      LastWinsFromPair(init, k);
      var i :| 0 <= i < |init| && init[i] == (k, LastWins(init)[k]);
      assert pairs[i] == init[i];
    }
  }

  /** For each key, the last pair that mentions it wins. */
  lemma {:induction false} LastWinsLastPair<K, V>(pairs: seq<(K, V)>, i: nat)
    requires i < |pairs|
    requires forall j :: i < j < |pairs| ==> pairs[j].0 != pairs[i].0
    ensures pairs[i].0 in LastWins(pairs)
    ensures LastWins(pairs)[pairs[i].0] == pairs[i].1
  {
    var n := |pairs|;
    LastWinsHasKey(pairs, i);
    if i < n - 1 {
      var init := pairs[..n - 1];
      assert init[i] == pairs[i];
      LastWinsLastPair(init, i);
    }
  }

  /** The meaning of `LastWins`: every key is present, every value comes
      from some pair, and for each key the last pair that mentions it wins. */
  lemma LastWinsSpec<K, V>(pairs: seq<(K, V)>)
    ensures forall i :: 0 <= i < |pairs| ==> pairs[i].0 in LastWins(pairs)
    ensures forall k :: k in LastWins(pairs) ==>
      exists i :: 0 <= i < |pairs| && pairs[i] == (k, LastWins(pairs)[k])
    ensures forall i :: 0 <= i < |pairs| && (forall j :: i < j < |pairs| ==> pairs[j].0 != pairs[i].0) ==>
      LastWins(pairs)[pairs[i].0] == pairs[i].1
  {
    forall i | 0 <= i < |pairs|
      ensures pairs[i].0 in LastWins(pairs)
    {
      LastWinsHasKey(pairs, i);
    }
    forall k | k in LastWins(pairs)
      ensures exists i :: 0 <= i < |pairs| && pairs[i] == (k, LastWins(pairs)[k])
    {
      LastWinsFromPair(pairs, k);
    }
    forall i | 0 <= i < |pairs| && (forall j :: i < j < |pairs| ==> pairs[j].0 != pairs[i].0)
      ensures LastWins(pairs)[pairs[i].0] == pairs[i].1
    {
      LastWinsLastPair(pairs, i);
    }
  }

  /** Every pair turned around. */
  function Swapped<K, V>(pairs: seq<(K, V)>): (r: seq<(V, K)>)
    ensures |r| == |pairs|
    ensures forall i :: 0 <= i < |pairs| ==> r[i] == (pairs[i].1, pairs[i].0)
  {
    seq(|pairs|, i requires 0 <= i < |pairs| => (pairs[i].1, pairs[i].0))
  }

  /** The table: full title to abbreviation, and its inverse. */
  datatype TableData = TableData(forward: map<string, string>, inverse: map<string, string>)

  /** The inverse is derived from the forward map: its keys are exactly the
      abbreviations, and each one leads back to a title that has it. */
  ghost predicate Consistent(d: TableData) {
    && d.inverse.Keys == d.forward.Values
    && forall a :: a in d.inverse ==> d.inverse[a] in d.forward && d.forward[d.inverse[a]] == a
  }

  type Table = d: TableData | Consistent(d) witness TableData(map[], map[])

  /** The constructor: the forward map is the loaded dictionary and the
      inverse is built by iterating over its items, so where two titles share
      an abbreviation the later item wins. */
  function FromEntries(entries: seq<Entry>): (t: Table)
    requires DistinctTitles(entries)
    ensures forall i :: 0 <= i < |entries| ==>
      entries[i].0 in t.forward && t.forward[entries[i].0] == entries[i].1
    ensures forall title :: title in t.forward ==>
      exists i :: 0 <= i < |entries| && entries[i].0 == title
    ensures forall i :: 0 <= i < |entries| ==> entries[i].1 in t.inverse
    ensures forall i :: 0 <= i < |entries| && (forall j :: i < j < |entries| ==> entries[j].1 != entries[i].1) ==>
      t.inverse[entries[i].1] == entries[i].0
  {
    var d := TableData(LastWins(entries), LastWins(Swapped(entries)));
    LastWinsSpec(entries);
    InverseSpec(entries);
    EntriesConsistent(entries);
    d
  }

  /** The inverse built from the items holds every abbreviation, and the
      last item with a given abbreviation wins. */
  lemma InverseSpec(entries: seq<Entry>)
    ensures forall i :: 0 <= i < |entries| ==> entries[i].1 in LastWins(Swapped(entries))
    ensures forall i :: 0 <= i < |entries| && (forall j :: i < j < |entries| ==> entries[j].1 != entries[i].1) ==>
      LastWins(Swapped(entries))[entries[i].1] == entries[i].0
  {
    var sw := Swapped(entries);
    forall i | 0 <= i < |entries|
      ensures entries[i].1 in LastWins(sw)
    {
      LastWinsHasKey(sw, i);
    }
    forall i | 0 <= i < |entries| && (forall j :: i < j < |entries| ==> entries[j].1 != entries[i].1)
      ensures LastWins(sw)[entries[i].1] == entries[i].0
    {
      LastWinsLastPair(sw, i);
    }
  }

  /** Inverting the items of a dictionary yields a consistent table. */
  lemma EntriesConsistent(entries: seq<Entry>)
    requires DistinctTitles(entries)
    ensures Consistent(TableData(LastWins(entries), LastWins(Swapped(entries))))
  {
    var fwd, sw := LastWins(entries), Swapped(entries);
    var inv := LastWins(sw);
    forall a | a in inv
      ensures a in fwd.Values && inv[a] in fwd && fwd[inv[a]] == a
    {
      LastWinsFromPair(sw, a);
      var i :| 0 <= i < |sw| && sw[i] == (a, inv[a]);
      LastWinsLastPair(entries, i);
      LastWinsHasKey(entries, i);
    }
    forall a | a in fwd.Values
      ensures a in inv
    {
      var k :| k in fwd && fwd[k] == a;
      LastWinsFromPair(entries, k);
      var i :| 0 <= i < |entries| && entries[i] == (k, a);
      assert sw[i].0 == a;
      LastWinsHasKey(sw, i);
    }
  }

  /** Why a lookup raised `KeyError`. The Python code's messages name the data
      bank, not the input. */
  datatype LookupError = TitleNotInDataBank | AbbreviationNotInDataBank

  /** `s.title().strip()`: never longer than the input, free of surrounding
      whitespace, and starting with a capital when it starts with a letter.
      `NormaliseSpec` states which characters it holds. */
  function Normalise(s: string): (r: string)
    ensures |r| <= |s|
    ensures |r| > 0 ==> !IsSpace(r[0]) && !IsSpace(r[|r| - 1])
    ensures |r| > 0 && IsLetter(r[0]) ==> IsUpper(r[0])
  {
    var u := TitleCase(s);
    StripSlice(u);
    var a := LeadingSpaces(u);
    if 0 < a < |u| then
      assert u[a - 1] == TitleChar(a > 1 && IsLetter(s[a - 2]), s[a - 1]);
      TitleCharClass(a > 1 && IsLetter(s[a - 2]), s[a - 1]);
      assert Strip(u)[0] == u[a] == TitleChar(false, s[a]);
      Strip(u)
    else Strip(u)
  }

  /** The normal form is the stripped input, title-cased: `title()` and
      `strip()` may be applied in either order. */
  lemma NormaliseSpec(s: string)
    ensures Normalise(s) == TitleCase(Strip(s))
  {
    TitleCaseStripCommute(s);
  }

  /** Drops one leading `"The "`, if present. */
  function DropArticle(s: string): (r: string)
    ensures StartsWith(s, "The ") ==> s == "The " + r
    ensures !StartsWith(s, "The ") ==> r == s
  {
    if StartsWith(s, "The ") then s[4..] else s
  }

  /** The key `convert2abbreviation` looks up: the normal form, with one
      leading article dropped when it has one. It never ends with
      whitespace. */
  function TitleKey(title: string): (r: string)
    ensures |r| <= |title|
    ensures StartsWith(Normalise(title), "The ") ==> Normalise(title) == "The " + r
    ensures !StartsWith(Normalise(title), "The ") ==> r == Normalise(title)
    ensures |r| > 0 ==> !IsSpace(r[|r| - 1])
  {
    DropArticle(Normalise(title))
  }

  /** `convert2abbreviation`: the forward entry of the key wins; otherwise
      the key itself if it already is an abbreviation; otherwise the key with
      a period appended if that is one; otherwise `KeyError`. Every answer is
      an abbreviation of the table. */
  function ToAbbreviation(t: Table, title: string): (r: Result<string, LookupError>)
    ensures r.Success? ==> r.value in t.inverse && r.value in t.forward.Values
    ensures var key := TitleKey(title);
      && (key in t.forward ==> r == Success(t.forward[key]))
      && (key !in t.forward && key in t.inverse ==> r == Success(key))
      && (key !in t.forward && key !in t.inverse && key + "." in t.inverse ==> r == Success(key + "."))
      && (r.Failure? <==> key !in t.forward && key !in t.inverse && key + "." !in t.inverse)
    ensures r.Failure? ==> r.error == TitleNotInDataBank
  {
    var key := TitleKey(title);
    if key in t.forward then Success(t.forward[key])
    else if key in t.inverse then Success(key)
    else if key + "." in t.inverse then Success(key + ".")
    else Failure(TitleNotInDataBank)
  }

  /** `convert2title`: only the normalised input is looked up in the
      inverse, with no article dropped and no period tried. Every answer is a
      title whose abbreviation is that normalised input. */
  function ToTitle(t: Table, abbreviation: string): (r: Result<string, LookupError>)
    ensures r.Success? <==> Normalise(abbreviation) in t.inverse
    ensures r.Success? ==> r.value in t.forward && t.forward[r.value] == Normalise(abbreviation)
    ensures r.Failure? ==> r.error == AbbreviationNotInDataBank
  {
    var key := Normalise(abbreviation);
    if key in t.inverse then Success(t.inverse[key]) else Failure(AbbreviationNotInDataBank)
  }

  /** `convert2title` answers with the title of the LAST item that has the
      normalised input as its abbreviation, because the inverse was built
      by assigning the items in order. */
  lemma ToTitleLastWins(entries: seq<Entry>, abbreviation: string, i: nat)
    requires DistinctTitles(entries) && i < |entries|
    requires entries[i].1 == Normalise(abbreviation)
    requires forall j :: i < j < |entries| ==> entries[j].1 != entries[i].1
    ensures ToTitle(FromEntries(entries), abbreviation) == Success(entries[i].0)
  {
  }

  /** Normalising is idempotent. */
  lemma NormaliseIdempotent(s: string)
    ensures Normalise(Normalise(s)) == Normalise(s)
  {
    var u := TitleCase(s);
    TitleCaseStripCommute(u);
    TitleCaseIdempotent(s);
    StripIdempotent(u);
  }

  /** `convert2title` gives the same answer for an input and for its
      normalised form: case and surrounding whitespace do not matter. */
  lemma ToTitleNormalised(t: Table, abbreviation: string)
    ensures ToTitle(t, Normalise(abbreviation)) == ToTitle(t, abbreviation)
  {
    NormaliseIdempotent(abbreviation);
  }

  /** A title-cased prefix `"The "` (in any case) in front of a title that
      starts with a non-space and does not itself start with `"The "` once
      title-cased is ignored by `convert2abbreviation`. */
  lemma ArticleIgnored(t: Table, p: string, s: string)
    requires |p| == 4 && TitleCase(p) == "The "
    requires |s| > 0 && !IsSpace(s[0])
    requires !StartsWith(TitleCase(s), "The ")
    ensures ToAbbreviation(t, p + s) == ToAbbreviation(t, s)
  {
    ArticleKey(p, s);
  }

  lemma ArticleKey(p: string, s: string)
    requires |p| == 4 && TitleCase(p) == "The "
    requires |s| > 0 && !IsSpace(s[0])
    requires !StartsWith(TitleCase(s), "The ")
    ensures TitleKey(p + s) == TitleKey(s)
  {
    NormaliseAfterArticle(p, s);
    NormaliseNoArticle(s);
  }

  /** Normalising an article followed by a title that starts with a
      non-space normalises the title behind `"The "`. */
  lemma NormaliseAfterArticle(p: string, s: string)
    requires |p| == 4 && TitleCase(p) == "The "
    requires |s| > 0 && !IsSpace(s[0])
    ensures Normalise(p + s) == "The " + Normalise(s)
  {
    assert TitleCase(p)[3] == ' ';
    TitleCharClass(IsLetter(p[2]), p[3]);
    TitleCaseAppend(p, s);
    var u := TitleCase(s);
    assert u[0] == TitleChar(false, s[0]);
    TitleCharClass(false, s[0]);
    StripAfterPrefix("The ", u);
  }

  /** When the title-cased input does not start with `"The "`, neither does
      its normal form. */
  lemma NormaliseNoArticle(s: string)
    requires |s| > 0 && !IsSpace(s[0])
    requires !StartsWith(TitleCase(s), "The ")
    ensures !StartsWith(Normalise(s), "The ")
  {
    var u := TitleCase(s);
    assert u[0] == TitleChar(false, s[0]);
    TitleCharClass(false, s[0]);
    StripKeepsStart(u);
    assert |Strip(u)| >= 4 ==> u[..4] == Strip(u)[..4];
  }

  /** Round trip from a canonical title: a title stored in normal form gets
      its recorded abbreviation, and looking that abbreviation up again
      yields a title with the same abbreviation. */
  lemma TitleRoundTrip(t: Table, title: string)
    requires title in t.forward && TitleKey(title) == title
    requires Normalise(t.forward[title]) == t.forward[title]
    ensures ToAbbreviation(t, title) == Success(t.forward[title])
    ensures ToTitle(t, t.forward[title]).Success?
    ensures t.forward[ToTitle(t, t.forward[title]).value] == t.forward[title]
  {
  }

  /** Round trip from an abbreviation in normal form: its title, stored in
      normal form, is abbreviated back to it. */
  lemma AbbreviationRoundTrip(t: Table, abbreviation: string)
    requires abbreviation in t.inverse && Normalise(abbreviation) == abbreviation
    requires TitleKey(t.inverse[abbreviation]) == t.inverse[abbreviation]
    ensures ToTitle(t, abbreviation) == Success(t.inverse[abbreviation])
    ensures ToAbbreviation(t, t.inverse[abbreviation]) == Success(abbreviation)
  {
  }

  /** An input that already is an abbreviation (and is not also a full
      title) is returned unchanged. */
  lemma AlreadyAbbreviated(t: Table, abbreviation: string)
    requires abbreviation in t.inverse && abbreviation !in t.forward
    requires TitleKey(abbreviation) == abbreviation
    ensures ToAbbreviation(t, abbreviation) == Success(abbreviation)
  {
  }
}
