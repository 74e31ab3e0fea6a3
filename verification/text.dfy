/** ASCII models of the Python string operations the abbreviation code uses:
    `str.title()`, `str.strip()` and `str.startswith()`. */
module Text {

  /** Python 3 `str.isspace()` restricted to ASCII: tab, line feed, vertical tab, form
      feed, carriage return, the four information separators 0x1C-0x1F, and
      the space. */
  predicate IsSpace(c: char) {
    (9 <= c as int <= 13) || (28 <= c as int <= 32)
  }

  predicate IsLower(c: char) {
    'a' <= c <= 'z'
  }

  predicate IsUpper(c: char) {
    'A' <= c <= 'Z'
  }

  /** A cased character in the sense of `str.title()`; in ASCII, a letter. */
  predicate IsLetter(c: char) {
    IsLower(c) || IsUpper(c)
  }

  /** The upper-case form of the same letter: a letter's case partner lies
      32 code points below it. */
  function ToUpper(c: char): (u: char)
    ensures IsLetter(c) ==> IsUpper(u) && (u == c || u as int + 32 == c as int)
    ensures !IsLetter(c) ==> u == c
  {
    if IsLower(c) then (c as int - 32) as char else c
  }

  /** The lower-case form of the same letter. */
  function ToLower(c: char): (l: char)
    ensures IsLetter(c) ==> IsLower(l) && (l == c || l as int == c as int + 32)
    ensures !IsLetter(c) ==> l == c
  {
    if IsUpper(c) then (c as int + 32) as char else c
  }

  /** One character of `str.title()`: lower-cased after a cased character,
      upper-cased otherwise. */
  function TitleChar(afterLetter: bool, c: char): char {
    if afterLetter then ToLower(c) else ToUpper(c)
  }

  /** Title-casing of `s` when the character before it is (or is not) a
      letter. */
  function TitleCaseFrom(s: string, afterLetter: bool): (r: string)
    ensures |r| == |s|
    ensures forall i {:trigger r[i]} :: 0 <= i < |s| ==>
      r[i] == TitleChar(if i == 0 then afterLetter else IsLetter(s[i - 1]), s[i])
  {
    if |s| == 0 then ""
    else [TitleChar(afterLetter, s[0])] + TitleCaseFrom(s[1..], IsLetter(s[0]))
  }

  /** `str.title()`: every letter is upper-cased when the previous character
      is not a letter and lower-cased when it is; other characters are kept. */
  function TitleCase(s: string): (r: string)
    ensures |r| == |s|
    ensures forall i {:trigger r[i]} :: 0 <= i < |s| ==> r[i] == TitleChar(i > 0 && IsLetter(s[i - 1]), s[i])
  {
    TitleCaseFrom(s, false)
  }

  /** Index of the first non-whitespace character at or after `i`, or the
      length when there is none. */
  function SpacesFrom(s: string, i: nat): (k: nat)
    requires i <= |s|
    ensures i <= k <= |s|
    ensures forall j :: i <= j < k ==> IsSpace(s[j])
    ensures k < |s| ==> !IsSpace(s[k])
    decreases |s| - i
  {
    if i < |s| && IsSpace(s[i]) then SpacesFrom(s, i + 1) else i
  }

  /** Number of leading whitespace characters. */
  function LeadingSpaces(s: string): (k: nat)
    ensures k <= |s|
    ensures forall i :: 0 <= i < k ==> IsSpace(s[i])
    ensures k < |s| ==> !IsSpace(s[k])
  {
    SpacesFrom(s, 0)
  }

  /** Start of the whitespace run that ends at index `e`. */
  function SpacesBefore(s: string, e: nat): (k: nat)
    requires e <= |s|
    ensures k <= e
    ensures forall j :: k <= j < e ==> IsSpace(s[j])
    ensures 0 < k ==> !IsSpace(s[k - 1])
  {
    if 0 < e && IsSpace(s[e - 1]) then SpacesBefore(s, e - 1) else e
  }

  /** Index where the trailing whitespace of `s` begins. */
  function TrailingStart(s: string): (k: nat)
    ensures k <= |s|
    ensures forall i :: k <= i < |s| ==> IsSpace(s[i])
    ensures 0 < k ==> !IsSpace(s[k - 1])
  {
    SpacesBefore(s, |s|)
  }

  /** `str.strip()` with no argument: leading and trailing whitespace
      removed, so the result neither starts nor ends with whitespace (see
      `StripSpec` for the rest). */
  function Strip(s: string): (r: string)
    ensures |r| <= |s|
    ensures |r| > 0 ==> !IsSpace(r[0]) && !IsSpace(r[|r| - 1])
  {
    var a := LeadingSpaces(s);
    if a == |s| then ""
    else
      var b := TrailingStart(s);
      assert a < b by {
        assert !IsSpace(s[a]);
      }
      s[a..b]
  }

  /** `Strip` keeps a slice of `s` that starts after the leading
      whitespace. */
  lemma StripSlice(s: string)
    ensures LeadingSpaces(s) + |Strip(s)| <= |s|
    ensures Strip(s) == s[LeadingSpaces(s)..LeadingSpaces(s) + |Strip(s)|]
  {
    var a := LeadingSpaces(s);
    if a < |s| {
      var b := TrailingStart(s);
      assert a < b by {
        assert !IsSpace(s[a]);
      }
    }
  }

  /** `Strip` keeps exactly the part of `s` between its leading and trailing
      whitespace: nothing but whitespace is dropped, and what remains neither
      starts nor ends with whitespace. */
  lemma StripSpec(s: string)
    ensures var r, a := Strip(s), LeadingSpaces(s);
      && a + |r| <= |s|
      && r == s[a..a + |r|]
      && (|r| > 0 ==> !IsSpace(r[0]) && !IsSpace(r[|r| - 1]))
      && (forall i :: a + |r| <= i < |s| ==> IsSpace(s[i]))
  {
    StripSlice(s);
    var r, a := Strip(s), LeadingSpaces(s);
    if |r| > 0 {
      assert r[0] == s[a];
      assert r[|r| - 1] == s[TrailingStart(s) - 1];
    }
  }

  /** A string that does not start with whitespace loses only a tail when
      stripped. */
  lemma StripKeepsStart(s: string)
    requires |s| > 0 && !IsSpace(s[0])
    ensures |Strip(s)| > 0
    ensures Strip(s) == s[..|Strip(s)|]
  {
    LeadingSpacesUnique(s, 0);
    StripSpec(s);
  }

  predicate StartsWith(s: string, prefix: string) {
    |prefix| <= |s| && s[..|prefix|] == prefix
  }

  /** A stripped string starts with a word that ends in a non-space exactly
      when the word follows the leading whitespace of the unstripped one. */
  lemma StripStartsWith(s: string, w: string)
    requires |w| > 0 && !IsSpace(w[|w| - 1])
    ensures StartsWith(Strip(s), w) <==>
      LeadingSpaces(s) + |w| <= |s| && s[LeadingSpaces(s)..LeadingSpaces(s) + |w|] == w
  {
    var a := LeadingSpaces(s);
    if StartsWith(Strip(s), w) {
      StripWordAtStart(s, w);
    }
    if a + |w| <= |s| && s[a..a + |w|] == w {
      StripReachesWord(s, w);
    }
  }

  /** A stripped string's prefix sits right after the leading whitespace. */
  lemma StripWordAtStart(s: string, w: string)
    requires StartsWith(Strip(s), w)
    ensures LeadingSpaces(s) + |w| <= |s| && s[LeadingSpaces(s)..LeadingSpaces(s) + |w|] == w
  {
    var a := LeadingSpaces(s);
    StripSlice(s);
    SliceOfSlice(s, a, a + |Strip(s)|, |w|);
  }

  /** A word ending in a non-space right after the leading whitespace
      survives stripping. */
  lemma StripReachesWord(s: string, w: string)
    requires |w| > 0 && !IsSpace(w[|w| - 1])
    requires LeadingSpaces(s) + |w| <= |s| && s[LeadingSpaces(s)..LeadingSpaces(s) + |w|] == w
    ensures StartsWith(Strip(s), w)
  {
    var a, b := LeadingSpaces(s), TrailingStart(s);
    assert a + |w| <= b by {
      SliceLast(s, a, w);
    }
    StripBounds(s);
    PrefixOfSlice(s, a, b, w);
  }

  /** Once the string is not all whitespace, `Strip` keeps the slice between
      the leading and the trailing whitespace. */
  lemma StripBounds(s: string)
    requires LeadingSpaces(s) < |s|
    ensures Strip(s) == s[LeadingSpaces(s)..TrailingStart(s)]
  {
  }

  lemma PrefixOfSlice(s: string, a: nat, b: nat, w: string)
    requires a + |w| <= b <= |s| && s[a..a + |w|] == w
    ensures StartsWith(s[a..b], w)
  {
    assert s[a..b][..|w|] == s[a..a + |w|];
  }

  lemma SliceOfSlice(s: string, a: nat, b: nat, n: nat)
    requires a + n <= b <= |s|
    ensures s[a..b][..n] == s[a..a + n]
  {
  }

  /** The last character of a slice equal to `w` is the last of `w`. */
  lemma SliceLast(s: string, a: nat, w: string)
    requires |w| > 0 && a + |w| <= |s| && s[a..a + |w|] == w
    ensures s[a + |w| - 1] == w[|w| - 1]
  {
    assert s[a..a + |w|][|w| - 1] == s[a + |w| - 1];
  }

  /** `LeadingSpaces` is the only index with its contract. */
  lemma LeadingSpacesUnique(s: string, k: nat)
    requires k <= |s|
    requires forall i :: 0 <= i < k ==> IsSpace(s[i])
    requires k < |s| ==> !IsSpace(s[k])
    ensures LeadingSpaces(s) == k
  {
  }

  /** `TrailingStart` is the only index with its contract. */
  lemma TrailingStartUnique(s: string, k: nat)
    requires k <= |s|
    requires forall i :: k <= i < |s| ==> IsSpace(s[i])
    requires 0 < k ==> !IsSpace(s[k - 1])
    ensures TrailingStart(s) == k
  {
  }

  /** Title-casing keeps every character's class: whitespace stays
      whitespace and letters stay letters. */
  lemma TitleCharClass(b: bool, c: char)
    ensures IsSpace(TitleChar(b, c)) == IsSpace(c)
    ensures IsLetter(TitleChar(b, c)) == IsLetter(c)
  {
  }

  /** Title-casing works word by word: after a non-letter the rest is
      title-cased on its own. */
  lemma TitleCaseAppend(p: string, s: string)
    requires |p| > 0 && !IsLetter(p[|p| - 1])
    ensures TitleCase(p + s) == TitleCase(p) + TitleCase(s)
  {
    var l := TitleCase(p + s);
    var r := TitleCase(p) + TitleCase(s);
    forall i | 0 <= i < |l|
      ensures l[i] == r[i]
    {
      if i >= |p| {
        assert (p + s)[i] == s[i - |p|];
        assert r[i] == TitleCase(s)[i - |p|];
        if i > |p| {
          assert (p + s)[i - 1] == s[i - |p| - 1];
        } else {
          assert (p + s)[i - 1] == p[|p| - 1];
        }
      } else {
        assert (p + s)[i] == p[i];
        if i > 0 {
          assert (p + s)[i - 1] == p[i - 1];
        }
      }
    }
  }

  /** `str.title()` is idempotent. */
  lemma TitleCaseIdempotent(s: string)
    ensures TitleCase(TitleCase(s)) == TitleCase(s)
  {
    var t := TitleCase(s);
    forall i | 0 <= i < |s|
      ensures TitleCase(t)[i] == t[i]
    {
      if i > 0 {
        TitleCharClass(i > 1 && IsLetter(s[i - 2]), s[i - 1]);
      }
    }
  }

  /** Two strings with whitespace at the same positions. */
  predicate SameSpaces(x: string, y: string) {
    |x| == |y| && forall i {:trigger y[i]} :: 0 <= i < |x| ==> IsSpace(x[i]) == IsSpace(y[i])
  }

  /** Strings with the same whitespace layout have the same strip
      boundaries. */
  lemma SameSpacesBounds(x: string, y: string)
    requires SameSpaces(x, y)
    ensures LeadingSpaces(x) == LeadingSpaces(y)
    ensures TrailingStart(x) == TrailingStart(y)
  {
    LeadingSpacesUnique(y, LeadingSpaces(x));
    TrailingStartUnique(y, TrailingStart(x));
  }

  /** Title-casing keeps the whitespace layout. */
  lemma TitleCaseSameSpaces(s: string)
    ensures SameSpaces(s, TitleCase(s))
  {
    var t := TitleCase(s);
    forall i | 0 <= i < |s|
      ensures IsSpace(t[i]) == IsSpace(s[i])
    {
      TitleCharClass(i > 0 && IsLetter(s[i - 1]), s[i]);
    }
  }

  /** A slice that starts after a non-letter is title-cased exactly as it
      is inside the whole string. */
  lemma TitleCaseSlice(s: string, a: nat, b: nat)
    requires a <= b <= |s|
    requires a == 0 || !IsLetter(s[a - 1])
    ensures TitleCase(s[a..b]) == TitleCase(s)[a..b]
  {
    var u := s[a..b];
    forall i | 0 <= i < |u|
      ensures TitleCase(u)[i] == TitleCase(s)[a + i]
    {
      if i > 0 {
        assert u[i - 1] == s[a + i - 1];
      }
    }
  }

  /** `str.strip()` is idempotent. */
  lemma StripIdempotent(s: string)
    ensures Strip(Strip(s)) == Strip(s)
  {
    var r := Strip(s);
    StripSpec(s);
    if |r| > 0 {
      LeadingSpacesUnique(r, 0);
      TrailingStartUnique(r, |r|);
    }
  }

  /** The same strip boundaries give the same slices. */
  lemma StripBySpaces(x: string, y: string)
    requires SameSpaces(x, y)
    ensures var a := LeadingSpaces(x);
      && a + |Strip(x)| <= |x|
      && Strip(x) == x[a..a + |Strip(x)|]
      && Strip(y) == y[a..a + |Strip(x)|]
  {
    SameSpacesBounds(x, y);
    var a := LeadingSpaces(x);
    if a < |x| {
      var b := TrailingStart(x);
      assert Strip(x) == x[a..b];
      assert Strip(y) == y[a..b];
    }
  }

  /** Stripping the title-cased string cuts it where `s` itself is cut. */
  lemma StripOfTitleCase(s: string)
    ensures LeadingSpaces(s) + |Strip(s)| <= |s|
    ensures Strip(TitleCase(s)) == TitleCase(s)[LeadingSpaces(s)..LeadingSpaces(s) + |Strip(s)|]
  {
    TitleCaseSameSpaces(s);
    StripBySpaces(s, TitleCase(s));
  }

  /** Title-casing the stripped string gives the same cut of the title-cased
      string. */
  lemma TitleCaseOfStrip(s: string)
    ensures LeadingSpaces(s) + |Strip(s)| <= |s|
    ensures TitleCase(Strip(s)) == TitleCase(s)[LeadingSpaces(s)..LeadingSpaces(s) + |Strip(s)|]
  {
    var a := LeadingSpaces(s);
    StripSlice(s);
    if a > 0 {
      assert IsSpace(s[a - 1]);
    }
    TitleCaseSlice(s, a, a + |Strip(s)|);
  }

  /** Title-casing and stripping commute, so the order in which
      `convert2abbreviation` applies them does not matter. */
  lemma TitleCaseStripCommute(s: string)
    ensures Strip(TitleCase(s)) == TitleCase(Strip(s))
  {
    StripOfTitleCase(s);
    TitleCaseOfStrip(s);
  }

  /** Stripping a string whose first character is not whitespace, behind a
      prefix that does not start with whitespace, strips only the tail. */
  lemma StripAfterPrefix(p: string, t: string)
    requires |p| > 0 && !IsSpace(p[0])
    requires |t| > 0 && !IsSpace(t[0])
    ensures Strip(p + t) == p + Strip(t)
  {
    var s := p + t;
    LeadingSpacesUnique(s, 0);
    LeadingSpacesUnique(t, 0);
    var b := TrailingStart(t);
    forall i | |p| + b <= i < |s|
      ensures IsSpace(s[i])
    {
      assert s[i] == t[i - |p|];
    }
    assert s[|p| + b - 1] == t[b - 1];
    TrailingStartUnique(s, |p| + b);
    assert s[..|p| + b] == p + t[..b];
  }
}
