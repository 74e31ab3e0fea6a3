/** Python's `str.replace(old, new)` with no count: every non-overlapping
    occurrence of the pattern, scanned left to right, is replaced. */
module Replace {

  /** `pat` occurs in `s` starting at index `k`. */
  predicate OccursAt(s: string, pat: string, k: nat) {
    k + |pat| <= |s| && s[k..k + |pat|] == pat
  }

  /** The empty pattern matches before every character and at the end, so
      `rep` is inserted at each of those `|s| + 1` places. */
  function InsertEverywhere(s: string, rep: string): (r: string)
    ensures |r| == |s| + (|s| + 1) * |rep|
    ensures forall i :: 0 <= i < |s| ==> r[i * (|rep| + 1) + |rep|] == s[i]
    ensures forall c :: c in r ==> c in s || c in rep
  {
    if |s| == 0 then rep
    else rep + [s[0]] + InsertEverywhere(s[1..], rep)
  }

  /** Each of the `|s| + 1` places of an empty-pattern replacement holds a
      full copy of `rep`: copy `i` starts at `i * (|rep| + 1)`, just before
      character `i` of the line (or at the end, for `i == |s|`). */
  lemma {:induction false} InsertEverywhereCopies(s: string, rep: string, i: nat)
    requires i <= |s|
    ensures i * (|rep| + 1) + |rep| <= |InsertEverywhere(s, rep)|
    ensures InsertEverywhere(s, rep)[i * (|rep| + 1)..i * (|rep| + 1) + |rep|] == rep
    decreases |s|
  {
    var k := |rep| + 1;
    if i > 0 {
      var tail := InsertEverywhere(s[1..], rep);
      InsertEverywhereCopies(s[1..], rep, i - 1);
      assert InsertEverywhere(s, rep) == (rep + [s[0]]) + tail;
      assert i * k == k + (i - 1) * k;
      assert InsertEverywhere(s, rep)[i * k..i * k + |rep|] == tail[(i - 1) * k..(i - 1) * k + |rep|];
    }
  }

  /** `s.replace(pat, rep)`. A line shorter than a non-empty pattern is
      left as it is; `ReplaceLeftmost` and `ReplaceAbsent` give the full
      behaviour. */
  function ReplaceAll(s: string, pat: string, rep: string): (r: string)
    ensures 0 < |pat| && |s| < |pat| ==> r == s
    decreases |s|
  {
    if |pat| == 0 then InsertEverywhere(s, rep)
    else if OccursAt(s, pat, 0) then rep + ReplaceAll(s[|pat|..], pat, rep)
    else if |s| == 0 then ""
    else [s[0]] + ReplaceAll(s[1..], pat, rep)
  }

  /** Replacing a pattern by one of the same length keeps the length of the
      line. */
  lemma {:induction false} ReplaceSameLength(s: string, pat: string, rep: string)
    requires |rep| == |pat|
    ensures |ReplaceAll(s, pat, rep)| == |s|
    decreases |s|
  {
    if |pat| == 0 {
    } else if OccursAt(s, pat, 0) {
      ReplaceSameLength(s[|pat|..], pat, rep);
    } else if |s| > 0 {
      ReplaceSameLength(s[1..], pat, rep);
    }
  }

  /** Replacement introduces no character that is in neither the line nor
      the replacement. */
  lemma {:induction false} ReplaceAlphabet(s: string, pat: string, rep: string, c: char)
    requires c in ReplaceAll(s, pat, rep)
    ensures c in s || c in rep
    decreases |s|
  {
    if |pat| == 0 {
    } else if OccursAt(s, pat, 0) {
      if c !in rep {
        ReplaceAlphabet(s[|pat|..], pat, rep, c);
      }
    } else if |s| > 0 {
      if c != s[0] {
        ReplaceAlphabet(s[1..], pat, rep, c);
      }
    }
  }

  /** Replacing a pattern by itself changes nothing. */
  lemma {:induction false} ReplaceBySelf(s: string, pat: string)
    ensures ReplaceAll(s, pat, pat) == s
    decreases |s|
  {
    if |pat| == 0 {
      InsertNothing(s);
    } else if OccursAt(s, pat, 0) {
      ReplaceBySelf(s[|pat|..], pat);
      assert s == s[..|pat|] + s[|pat|..];
    } else if |s| > 0 {
      ReplaceBySelf(s[1..], pat);
      assert s == [s[0]] + s[1..];
    }
  }

  lemma {:induction false} InsertNothing(s: string)
    ensures InsertEverywhere(s, "") == s
  {
    if |s| > 0 {
      InsertNothing(s[1..]);
      assert s == [s[0]] + s[1..];
    }
  }

  /** A string in which a non-empty pattern does not occur comes back
      unchanged. */
  lemma {:induction false} ReplaceAbsent(s: string, pat: string, rep: string)
    requires |pat| > 0
    requires forall k: nat :: !OccursAt(s, pat, k)
    ensures ReplaceAll(s, pat, rep) == s
    decreases |s|
  {
    if |s| > 0 {
      forall k: nat
        ensures !OccursAt(s[1..], pat, k)
      {
        ShiftOccurrence(s, pat, k);
      }
      ReplaceAbsent(s[1..], pat, rep);
      assert s == [s[0]] + s[1..];
    }
  }

  /** Occurrences in `s[1..]` are the occurrences in `s` one place later. */
  lemma ShiftOccurrence(s: string, pat: string, k: nat)
    requires |s| > 0
    ensures OccursAt(s[1..], pat, k) == OccursAt(s, pat, k + 1)
  {
    if k + 1 + |pat| <= |s| {
      assert s[1..][k..k + |pat|] == s[k + 1..k + 1 + |pat|];
    }
  }

  /** The leftmost occurrence is replaced and the scan resumes right after
      it: occurrences never overlap, and every later one is replaced too. */
  lemma {:induction false} ReplaceLeftmost(s: string, pat: string, rep: string, p: string, q: string)
    requires |pat| > 0
    requires s == p + pat + q
    requires forall k: nat :: k < |p| ==> !OccursAt(s, pat, k)
    ensures ReplaceAll(s, pat, rep) == p + rep + ReplaceAll(q, pat, rep)
    decreases |p|
  {
    if |p| == 0 {
      assert s[..|pat|] == pat;
      assert s[|pat|..] == q;
    } else {
      var p', s' := p[1..], s[1..];
      TailAssoc(p, pat, q);
      assert forall k: nat :: k < |p'| ==> !OccursAt(s', pat, k) by {
        forall k: nat | k < |p'|
          ensures !OccursAt(s', pat, k)
        {
          ShiftOccurrence(s, pat, k);
        }
      }
      ReplaceLeftmost(s', pat, rep, p', q);
      assert ReplaceAll(s, pat, rep) == [s[0]] + ReplaceAll(s', pat, rep) by {
        assert !OccursAt(s, pat, 0);
        ReplaceSkips(s, pat, rep);
      }
      assert [s[0]] + p' == p;
      ConsAssoc(s[0], p', rep, ReplaceAll(q, pat, rep));
    }
  }

  lemma TailAssoc(a: string, b: string, c: string)
    requires |a| > 0
    ensures (a + b + c)[1..] == a[1..] + b + c
  {
  }

  lemma ConsAssoc(x: char, a: string, b: string, c: string)
    ensures [x] + (a + b + c) == [x] + a + b + c
  {
  }

  /** Where the pattern does not start the line, the first character is
      kept and the scan moves one place on. */
  lemma ReplaceSkips(s: string, pat: string, rep: string)
    requires |pat| > 0 && |s| > 0 && !OccursAt(s, pat, 0)
    ensures ReplaceAll(s, pat, rep) == [s[0]] + ReplaceAll(s[1..], pat, rep)
  {
  }
}
