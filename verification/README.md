# Journal title abbreviation, modelled in Dafny

This project models `TitleAbbreviation`, a small tool that converts journal
titles to their standard abbreviations and back, and that rewrites the
`journal = {...}` fields of a BibTeX file with the abbreviated titles.

The model has five parts, one module each:

- `Text` (`text.dfy`): ASCII versions of Python's `str.title()`, `str.strip()`
  and `str.startswith()`, following Python 3's `str` type. A letter is
  upper-cased when the character before it is not a letter and lower-cased
  when it is. Whitespace is what Python 3's `str.isspace()` accepts in ASCII:
  code points 9-13 and 28-32. (Python 2 byte strings strip only 9-13 and 32.)
- `Abbreviation` (`table.dfy`): the table and its two lookups. The table is
  built from the items of the loaded dictionary in order. The forward map is
  the dictionary. The inverse map is built by iterating over the items, so the
  last title with a given abbreviation wins. The subset type `Table` carries
  the invariant that links the two maps.
  - `ToAbbreviation` models `convert2abbreviation`.
  - `ToTitle` models `convert2title`.
- `BraceScan` (`brace_scan.dfy`): a hand-written scanner for the one regular
  expression the tool uses, `\{(.*?)\}`. It returns the body of the first
  match, as `re.findall(...)[0]` does.
- `Replace` (`replace.dfy`): Python's `str.replace`. It replaces every
  non-overlapping occurrence, left to right. With an empty pattern it inserts
  the replacement before every character and at the end.
- `BibRewrite` (`bib.dfy`): the per-line loop of `convert_bib`. The lines come
  in as a sequence and go out as a sequence, together with the change summary.
  A journal line without a braced title aborts the whole run with an error that
  quotes the line.

`Wrappers` (`wrappers.dfy`) holds the `Option` and `Result` datatypes. A
Python `KeyError` or `IOError` becomes a `Failure`.

Two behaviours of the code that are easy to misread:

- On a hit, `convert_bib` replaces every occurrence of the title in the line,
  because `str.replace` replaces all of them. It does not replace only the
  first occurrence.
- The `KeyError`s of both lookups carry fixed messages ("not in the data
  bank"), not the input. `LookupError` therefore has no payload.

## Model

| member | source | states |
|---|---|---|
| Abbreviation.FromEntries | abbreviation.py:25-27 | every item's title maps to its abbreviation; every forward key comes from an item; every abbreviation is a key of the inverse; the inverse maps an abbreviation to the title of the last item that has it |
| Abbreviation.EntriesConsistent | abbreviation.py:27 | inverting a dictionary's items gives an inverse whose keys are exactly the forward values, with `forward[inverse[a]] == a` for every key `a` |
| Abbreviation.LastWinsSpec | abbreviation.py:27 | a map built by assigning pairs in order holds every key; each value comes from some pair; for each key the last pair wins |
| Abbreviation.InverseSpec | abbreviation.py:27 | the inverse holds every abbreviation of the items, and the last item with an abbreviation decides its title |
| Abbreviation.ToAbbreviation | abbreviation.py:29-46 | the forward hit on the normalised, article-free key wins; otherwise the key itself if it is an abbreviation; otherwise the key plus "." if that is one; otherwise `KeyError`. Every answer is a forward value, i.e. a key of the inverse |
| Abbreviation.ArticleIgnored | abbreviation.py:33-35 | a leading "the " (any case) is ignored when the rest starts with a non-space and does not itself start with "The " once title-cased |
| Abbreviation.NormaliseAfterArticle | abbreviation.py:33 | title-casing and stripping an article followed by a title that starts with a non-space gives "The " followed by the title's normal form |
| Abbreviation.NormaliseNoArticle | abbreviation.py:33-35 | a title that starts with a non-space and whose title-cased form does not start with "The " keeps no "The " prefix after stripping, so only one article is ever dropped |
| Abbreviation.ToTitle | abbreviation.py:48-56 | succeeds exactly when the normalised input is a key of the inverse, with no article dropped and no period tried; every title returned has the normalised input as its abbreviation |
| Abbreviation.ToTitleLastWins | abbreviation.py:27-54 | for a table built from items, the title returned is the one of the last item whose abbreviation is the normalised input |
| Abbreviation.Normalise | abbreviation.py:33 | the normal form is never longer than the input, has no surrounding whitespace, and starts with a capital when it starts with a letter |
| Abbreviation.NormaliseSpec | abbreviation.py:33 | the normal form is exactly the stripped input, title-cased, so the order of `title()` and `strip()` does not matter |
| Abbreviation.DropArticle | abbreviation.py:34-35 | a string starting with "The " loses exactly those four characters; any other string is kept |
| Abbreviation.TitleKey | abbreviation.py:33-35 | the lookup key is the normal form without its leading "The " when it has one, and the normal form itself otherwise; it never ends with whitespace |
| Abbreviation.NormaliseIdempotent | abbreviation.py:33 | `title().strip()` applied twice equals applying it once |
| Abbreviation.ToTitleNormalised | abbreviation.py:52-56 | the inverse lookup gives the same answer for an input and for its normal form |
| Abbreviation.TitleRoundTrip | abbreviation.py:29-56 | a stored title that is its own lookup key, and whose recorded abbreviation is in normal form, gets that abbreviation; looking the abbreviation up again gives a title with the same abbreviation |
| Abbreviation.AbbreviationRoundTrip | abbreviation.py:29-56 | an abbreviation in normal form leads to its title, which is abbreviated back to it when the title is its own lookup key |
| Abbreviation.AlreadyAbbreviated | abbreviation.py:39-43 | an input that already is an abbreviation, is not also a title, and is its own lookup key (so title-casing, stripping and article removal leave it unchanged) comes back unchanged |
| Text.TitleCase | abbreviation.py:33 | character `i` of the result is the input's character, upper-cased after a non-letter and lower-cased after a letter |
| Text.TitleCaseFrom | abbreviation.py:33 | the same, for a string that follows a letter or a non-letter |
| Text.Strip | abbreviation.py:33 | the stripped string is never longer than the input and neither starts nor ends with whitespace |
| Text.StripSpec | abbreviation.py:33 | `strip()` keeps a slice that neither starts nor ends with whitespace, and drops only whitespace |
| Text.TitleCaseIdempotent | abbreviation.py:33 | `title()` is idempotent |
| Text.StripIdempotent | abbreviation.py:33 | `strip()` is idempotent |
| Text.TitleCaseStripCommute | abbreviation.py:33 | title-casing and stripping commute |
| Text.StripStartsWith | abbreviation.py:77 | a stripped string starts with a word that ends in a non-space exactly when that word follows the leading whitespace of the original |
| Text.TitleCaseAppend | abbreviation.py:33 | after a non-letter, the rest of a string is title-cased on its own |
| BraceScan.FindClose | abbreviation.py:78 | the lazy body scan stops at the first `}` unless a line feed comes first; when it finds nothing, no closing brace can end a body there |
| BraceScan.FirstMatchFrom | abbreviation.py:78 | the match returned is a real match, and no opening brace further left has one; nothing is returned only when no match exists |
| BraceScan.FirstBraceBody | abbreviation.py:78-80 | `tit[0]`, when there is one, is at least two characters shorter than the line and holds no `}` and no line feed |
| BraceScan.FirstBraceBodySpec | abbreviation.py:78-80 | `tit[0]` exists exactly when the pattern matches somewhere; it is the body of the leftmost match and holds no `}` and no line feed |
| Replace.ReplaceAll | abbreviation.py:82 | a line shorter than a non-empty title is left as it is |
| Replace.InsertEverywhere | abbreviation.py:82 | with an empty title, the length is `n + (n + 1) * k` for an `n`-character line and a replacement of length `k`; character `i` of the line follows the `(i + 1)`-th inserted piece, and no other character appears |
| Replace.InsertEverywhereCopies | abbreviation.py:82 | each of the `n + 1` inserted pieces is a full copy of the replacement, the `i`-th one just before character `i` of the line |
| Replace.ReplaceAlphabet | abbreviation.py:82 | every character of the result comes from the line or from the replacement |
| Replace.ReplaceSameLength | abbreviation.py:82 | replacing a title by a string of the same length keeps the line's length |
| Replace.ReplaceLeftmost | abbreviation.py:82 | the leftmost occurrence of the title is replaced and the scan resumes right after it, so every later occurrence is replaced too |
| Replace.ReplaceAbsent | abbreviation.py:82 | a line without an occurrence of a non-empty title is left as it is |
| Replace.ReplaceBySelf | abbreviation.py:82 | replacing a title by itself leaves the line unchanged |
| BibRewrite.IsJournalLine | abbreviation.py:77 | a line is a journal line exactly when the characters after its leading whitespace start with `journal` |
| BibRewrite.Classify | abbreviation.py:77-89 | a line is copied exactly when it is not a journal line and aborts exactly when it is a journal line without a braced title; otherwise its first braced title is looked up, and the lookup's outcome decides between a hit and a `KeyError` |
| BibRewrite.RewriteLines | abbreviation.py:72-92 | the loop fails exactly when some line has no title; otherwise it keeps the number and order of the lines, rewrites each as its kind says, and collects exactly the found and the unknown titles |
| BibRewrite.ConvertBib | abbreviation.py:72-92 | the conversion fails exactly when some journal line has no braced title; otherwise line `i` of the output is line `i` rewritten, and the two sets are exactly the titles that were and were not abbreviated |
| BibRewrite.RewriteStopsAtFirst | abbreviation.py:79-86 | the loop reports the first line without a title |
| BibRewrite.FailsAtFirstBadLine | abbreviation.py:79-86 | the error quotes the first journal line without a braced title, and no output is produced |
| BibRewrite.OtherLinesCopied | abbreviation.py:91-92 | when every journal line has a braced title the conversion succeeds, and a line whose stripped text does not start with `journal` is copied unchanged |
| BibRewrite.JournalLineRewritten | abbreviation.py:77-90 | when every journal line has a braced title the conversion succeeds; on a hit every occurrence is replaced and the title goes to "Abbreviated"; on `KeyError` the line is kept and the title goes to "Not abbreviated" |
| BibRewrite.TitlesMatchLookups | abbreviation.py:81-88 | every title reported as abbreviated has an abbreviation, and every title reported as not abbreviated has none |
| BibRewrite.SummaryDisjoint | abbreviation.py:83-88 | when every journal line has a braced title the conversion succeeds and no title lands in both sets of the summary |
| BibRewrite.TitlesCons | abbreviation.py:83-88 | the title sets of a sequence of lines are those of its first line added to those of the rest |

## Left out

- Loading the JSON data file (abbreviation.py:25-26). The table is built from the dictionary's items, passed in as a sequence of pairs with distinct titles.
- The default output file name (abbreviation.py:70-71). It is path handling for file I/O.
- Opening, writing and closing files in `convert_bib` (abbreviation.py:74-75, 90, 92-94). Lines go in and out as sequences. On an abort the model returns only the error. The Python code has already written the earlier lines to the output file by then.
- Printing the change summary (abbreviation.py:95-98). The summary is returned instead.
- The property getters (abbreviation.py:100-110). They only return fields.
- Full Unicode behaviour of `str.title()` and `str.strip()`. Only ASCII letters are cased, and only ASCII whitespace is stripped.
- General regular-expression matching. Only the one pattern `\{(.*?)\}` is modelled, by a hand-written scanner.
- The text of the exception messages. The errors are constructors: `TitleNotInDataBank`, `AbbreviationNotInDataBank` and `WrongFormat(line)`.
- Abbreviation.TitleRoundTrip: stated only for titles that are their own lookup key and whose recorded abbreviation is in normal form. A title such as "Journal of X" is title-cased to "Journal Of X" before the lookup, so it is not found under its stored form. Likewise an abbreviation such as "ACS Nano" is looked up as "Acs Nano" by `convert2title`, so it is not found either.
- Abbreviation.AbbreviationRoundTrip: stated only for abbreviations in normal form and titles that are their own lookup key, for the same reason. A title such as "The Journal" is in normal form but is looked up as "Journal", so it is not found.
- Replace.ReplaceAll: its own contract states only that a line shorter than a non-empty title is unchanged. For a non-empty title, the full behaviour of `str.replace` is stated by `ReplaceLeftmost` and `ReplaceAbsent`, with `ReplaceAlphabet` and `ReplaceSameLength` adding the alphabet and the length. For an empty title, `ReplaceAll` calls `InsertEverywhere`, and the result is pinned by that function's contract together with `InsertEverywhereCopies`. Keeping these facts out of `ReplaceAll`'s own contract keeps it cheap for its callers.
- BraceScan.FirstBraceBody: its own contract states only the length bound and the forbidden characters. The leftmost-match characterisation is in `FirstBraceBodySpec`, for the same reason.
- Abbreviation.Normalise: its own contract states only the length bound, the absence of surrounding whitespace and the leading capital. `NormaliseSpec` states that it is the stripped input, title-cased. Putting that equation in the function's contract makes every proof that mentions `Normalise` far more expensive.
- Text.Strip: its own contract states only the length bound and the absence of surrounding whitespace. `StripSpec` states that only whitespace is dropped.
