/** The per-line loop of `convert_bib`: journal lines get their braced
    title abbreviated, every other line is copied, and the titles seen are
    sorted into the two sets of the change summary. */
module BibRewrite {
  import opened Wrappers
  import opened Text
  import opened Replace
  import opened BraceScan
  import opened Abbreviation

  /** The stripped line starts with `journal` (case-sensitive, so
      `journaltitle` lines count too and `Journal` lines do not): the first
      characters after the leading whitespace spell `journal`. */
  predicate IsJournalLine(line: string): (b: bool)
    ensures b <==> var a := LeadingSpaces(line);
      a + 7 <= |line| && line[a..a + 7] == "journal"
  {
    StripStartsWith(line, "journal");
    StartsWith(Strip(line), "journal")
  }

  /** A journal line without any `{...}` body: `tit[0]` raises `IndexError`,
      which aborts the whole conversion. */
  predicate HasNoTitle(line: string) {
    IsJournalLine(line) && FirstBraceBody(line).None?
  }

  /** No journal line lacks a braced title, so the conversion does not
      abort. */
  predicate AllTitled(lines: seq<string>) {
    forall k :: 0 <= k < |lines| ==> !HasNoTitle(lines[k])
  }

  /** What the loop does with one line. */
  datatype LineKind =
    | Other
    | NoTitle
    | Found(title: string, abbreviation: string)
    | Unknown(title: string)

  /** The branch the loop takes for one line: other lines are copied, a
      journal line without a braced title aborts, and the first braced title
      of a journal line is looked up. */
  function Classify(t: Table, line: string): (r: LineKind)
    ensures r.Other? <==> !IsJournalLine(line)
    ensures r.NoTitle? <==> HasNoTitle(line)
    ensures r.Found? ==> FirstBraceBody(line) == Some(r.title) && ToAbbreviation(t, r.title) == Success(r.abbreviation)
    ensures r.Unknown? ==> FirstBraceBody(line) == Some(r.title) && ToAbbreviation(t, r.title).Failure?
  {
    if !IsJournalLine(line) then Other
    else
      match FirstBraceBody(line)
      case None => NoTitle
      case Some(title) =>
        match ToAbbreviation(t, title)
        case Success(abbreviation) => Found(title, abbreviation)
        case Failure(_) => Unknown(title)
  }

  /** The line written out: `l.replace(t, abb)` on a hit, `l` otherwise. */
  function Rewritten(line: string, kind: LineKind): string {
    if kind.Found? then ReplaceAll(line, kind.title, kind.abbreviation) else line
  }

  /** The `changes` dictionary: `'Abbreviated'` and `'Not abbreviated'`. */
  datatype Summary = Summary(abbreviated: set<string>, notAbbreviated: set<string>)

  datatype Converted = Converted(lines: seq<string>, summary: Summary)

  /** The `IOError` raised for a journal line with a wrong format; it quotes
      the line. */
  datatype FormatError = WrongFormat(line: string)

  /** The kind of every line, in order. */
  function LineKinds(t: Table, lines: seq<string>): (kinds: seq<LineKind>)
    ensures |kinds| == |lines|
    ensures forall i :: 0 <= i < |lines| ==> kinds[i] == Classify(t, lines[i])
  {
    seq(|lines|, i requires 0 <= i < |lines| => Classify(t, lines[i]))
  }

  /** Titles of the journal lines whose lookup succeeded. */
  function FoundTitles(kinds: seq<LineKind>): set<string> {
    set i | 0 <= i < |kinds| && kinds[i].Found? :: kinds[i].title
  }

  /** Titles of the journal lines whose lookup raised `KeyError`. */
  function UnknownTitles(kinds: seq<LineKind>): set<string> {
    set i | 0 <= i < |kinds| && kinds[i].Unknown? :: kinds[i].title
  }

  function AddTitle(s: Summary, kind: LineKind): Summary {
    match kind
    case Found(title, _) => s.(abbreviated := {title} + s.abbreviated)
    case Unknown(title) => s.(notAbbreviated := {title} + s.notAbbreviated)
    case _ => s
  }

  /** The loop of `convert_bib` once every line has been classified: it
      stops at the first line without a title; otherwise it keeps the number
      and order of the lines, rewrites each as its kind says, and collects the
      titles. */
  function RewriteLines(lines: seq<string>, kinds: seq<LineKind>): (r: Result<Converted, FormatError>)
    requires |kinds| == |lines|
    ensures r.Failure? <==> exists i :: 0 <= i < |kinds| && kinds[i].NoTitle?
    ensures r.Success? ==> |r.value.lines| == |lines|
    ensures r.Success? ==> forall i :: 0 <= i < |lines| ==> r.value.lines[i] == Rewritten(lines[i], kinds[i])
    ensures r.Success? ==> r.value.summary.abbreviated == FoundTitles(kinds)
    ensures r.Success? ==> r.value.summary.notAbbreviated == UnknownTitles(kinds)
    decreases |lines|
  {
    if |lines| == 0 then Success(Converted([], Summary({}, {})))
    else if kinds[0].NoTitle? then Failure(WrongFormat(lines[0]))
    else
      match RewriteLines(lines[1..], kinds[1..])
      case Failure(e) =>
        assert forall i :: 0 <= i < |kinds| - 1 ==> kinds[1..][i] == kinds[i + 1];
        Failure(e)
      case Success(rest) =>
        assert kinds == [kinds[0]] + kinds[1..];
        TitlesCons(kinds[0], kinds[1..]);
        Success(Converted([Rewritten(lines[0], kinds[0])] + rest.lines, AddTitle(rest.summary, kinds[0])))
  }

  /** `convert_bib` without the file handling: it fails when some journal
      line has no braced title (`FailsAtFirstBadLine` says which line the
      error names); otherwise it keeps the number and order of the lines,
      rewrites each as its kind says, and reports exactly the titles that
      were and were not abbreviated. */
  function ConvertBib(t: Table, lines: seq<string>): (r: Result<Converted, FormatError>)
    ensures r.Failure? <==> exists i :: 0 <= i < |lines| && HasNoTitle(lines[i])
    ensures r.Success? ==> |r.value.lines| == |lines|
    ensures r.Success? ==> forall i :: 0 <= i < |lines| ==>
      r.value.lines[i] == Rewritten(lines[i], Classify(t, lines[i]))
    ensures r.Success? ==> r.value.summary.abbreviated == FoundTitles(LineKinds(t, lines))
    ensures r.Success? ==> r.value.summary.notAbbreviated == UnknownTitles(LineKinds(t, lines))
  {
    RewriteLines(lines, LineKinds(t, lines))
  }

  /** The rewrite stops at the first line without a title and reports
      that line. */
  lemma {:induction false} RewriteStopsAtFirst(lines: seq<string>, kinds: seq<LineKind>, i: nat)
    requires |kinds| == |lines| && i < |lines|
    requires kinds[i].NoTitle?
    requires forall k :: 0 <= k < i ==> !kinds[k].NoTitle?
    ensures RewriteLines(lines, kinds) == Failure(WrongFormat(lines[i]))
    decreases i
  {
    if i > 0 {
      assert kinds[1..][i - 1] == kinds[i];
      assert lines[1..][i - 1] == lines[i];
      RewriteStopsAtFirst(lines[1..], kinds[1..], i - 1);
    }
  }

  /** The error names the first journal line without a braced title, and
      nothing is written: the lines before it do not survive. */
  lemma FailsAtFirstBadLine(t: Table, lines: seq<string>, i: nat)
    requires i < |lines| && HasNoTitle(lines[i])
    requires forall k :: 0 <= k < i ==> !HasNoTitle(lines[k])
    ensures ConvertBib(t, lines) == Failure(WrongFormat(lines[i]))
  {
    var kinds := LineKinds(t, lines);
    RewriteStopsAtFirst(lines, kinds, i);
  }

  /** The title sets of a sequence of kinds: those of its first kind added
      to those of the rest. */
  lemma TitlesCons(kind: LineKind, rest: seq<LineKind>)
    ensures FoundTitles([kind] + rest) == (if kind.Found? then {kind.title} else {}) + FoundTitles(rest)
    ensures UnknownTitles([kind] + rest) == (if kind.Unknown? then {kind.title} else {}) + UnknownTitles(rest)
  {
    var kinds := [kind] + rest;
    forall x | x in FoundTitles(kinds)
      ensures x in FoundTitles(rest) || (kind.Found? && x == kind.title)
    {
      var i :| 0 <= i < |kinds| && kinds[i].Found? && kinds[i].title == x;
      if i > 0 {
        assert rest[i - 1] == kinds[i];
      }
    }
    if kind.Found? {
      assert kinds[0] == kind;
    }
    forall x | x in FoundTitles(rest)
      ensures x in FoundTitles(kinds)
    {
      var i :| 0 <= i < |rest| && rest[i].Found? && rest[i].title == x;
      assert kinds[i + 1] == rest[i];
    }
    forall x | x in UnknownTitles(kinds)
      ensures x in UnknownTitles(rest) || (kind.Unknown? && x == kind.title)
    {
      var i :| 0 <= i < |kinds| && kinds[i].Unknown? && kinds[i].title == x;
      if i > 0 {
        assert rest[i - 1] == kinds[i];
      }
    }
    if kind.Unknown? {
      assert kinds[0] == kind;
    }
    forall x | x in UnknownTitles(rest)
      ensures x in UnknownTitles(kinds)
    {
      var i :| 0 <= i < |rest| && rest[i].Unknown? && rest[i].title == x;
      assert kinds[i + 1] == rest[i];
    }
  }

  /** A line whose stripped text does not start with `journal` is written
      out byte for byte, whatever the table holds. */
  lemma OtherLinesCopied(t: Table, lines: seq<string>, i: nat)
    requires AllTitled(lines) && i < |lines|
    requires !IsJournalLine(lines[i])
    ensures ConvertBib(t, lines).Success?
    ensures ConvertBib(t, lines).value.lines[i] == lines[i]
  {
  }

  /** When every journal line has a braced title, the conversion succeeds.
      If the title has an abbreviation, every occurrence of the title in the
      line is replaced by it and the title is reported as abbreviated;
      otherwise the line is written out unchanged and the title is reported as
      not abbreviated. */
  lemma JournalLineRewritten(t: Table, lines: seq<string>, i: nat)
    requires AllTitled(lines) && i < |lines|
    requires IsJournalLine(lines[i])
    ensures ConvertBib(t, lines).Success?
    ensures FirstBraceBody(lines[i]).Some?
    ensures var c := ConvertBib(t, lines).value;
      var title := FirstBraceBody(lines[i]).value;
      match ToAbbreviation(t, title)
      case Success(abbreviation) =>
        c.lines[i] == ReplaceAll(lines[i], title, abbreviation) && title in c.summary.abbreviated
      case Failure(_) =>
        c.lines[i] == lines[i] && title in c.summary.notAbbreviated
  {
    var kind := Classify(t, lines[i]);
    assert !HasNoTitle(lines[i]);
    assert kind.Found? || kind.Unknown?;
    var kinds := LineKinds(t, lines);
    assert kinds[i] == kind;
    assert kind.title in (if kind.Found? then FoundTitles(kinds) else UnknownTitles(kinds));
  }

  /** Every title reported as abbreviated has an abbreviation in the table,
      and every title reported as not abbreviated has none. */
  lemma TitlesMatchLookups(t: Table, lines: seq<string>)
    ensures forall x :: x in FoundTitles(LineKinds(t, lines)) ==> ToAbbreviation(t, x).Success?
    ensures forall x :: x in UnknownTitles(LineKinds(t, lines)) ==> ToAbbreviation(t, x).Failure?
  {
    var kinds := LineKinds(t, lines);
    forall x | x in FoundTitles(kinds)
      ensures ToAbbreviation(t, x).Success?
    {
      var i :| 0 <= i < |kinds| && kinds[i].Found? && kinds[i].title == x;
      assert kinds[i] == Classify(t, lines[i]);
    }
    forall x | x in UnknownTitles(kinds)
      ensures ToAbbreviation(t, x).Failure?
    {
      var i :| 0 <= i < |kinds| && kinds[i].Unknown? && kinds[i].title == x;
      assert kinds[i] == Classify(t, lines[i]);
    }
  }

  /** Because the lookup is deterministic, no title is reported both as
      abbreviated and as not abbreviated. */
  lemma SummaryDisjoint(t: Table, lines: seq<string>)
    requires AllTitled(lines)
    ensures ConvertBib(t, lines).Success?
    ensures ConvertBib(t, lines).value.summary.abbreviated !! ConvertBib(t, lines).value.summary.notAbbreviated
  {
    TitlesMatchLookups(t, lines);
  }
}
