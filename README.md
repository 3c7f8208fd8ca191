# Recipe scraper: heading windows and training records

This project models, in Dafny, the deterministic core of `scripts/scrape.py`. The
script is a scraper that turns recipe pages into training data for an ingredient
extractor. The model covers three pieces:

- **Windowing** (`_extract_rough`, from the serialised `<body>` markup on). The
  markup is scanned with the case-insensitive pattern
  `<h(?:2|3|4)>\s*ingredients`, in the way `re.finditer` scans it. With no match
  the function fails with "This site does not seem to have ingredients".
  Otherwise it returns two windows of at most `width` characters (default 2500):
  - `before_ingredients` is `html[:min(first, width)]`;
  - `with_ingredients` is `html[last:last + width]`.
- **Comma stripping.** `str.replace(",", "")` is applied to every ingredient
  the extraction service returns.
- **Recording.** The labelled records are appended to the positive and the
  negative training files:
  - an empty ingredient list makes two `none` records in the negative file;
  - a non-empty list makes one positive record, whose target is the
    `", "`-joined list, and one negative record.

Layout:

- `text.dfy` (module `Text`) holds Python's string operations: clamped slicing,
  comma removal, `join`, and `find`/`split`. `find` and `split` serve as an
  independent reference for reading the joined target back.
- `windowing.dfy` (module `Windowing`) holds the heading matcher, the
  `finditer` scan and `_extract_rough`.
- `recorder.dfy` (module `Recorder`) holds:
  - the record template;
  - the `Recipe` response object, whose ingredient list is rewritten in place;
  - the `TrainingFiles` class, whose two fields are the append-only files;
  - `ScrapePage`, one run of `test_scrape` on already-serialised markup.

The regular expression is modelled in two ways:

- `MatchesAt` takes the longest whitespace run after the tag.
- `RegexMatchesAt` is the pattern read literally: *some* whitespace run, then
  the word.

`MatchesAtIffRegex` proves the two agree, so the greedy `\s*` with backtracking
loses nothing. `FindIter` is the non-overlapping scan that `finditer` performs:
it reports a match and resumes at the match's end. `FindIterExact` proves that
the scan reports exactly the offsets where the pattern matches, in increasing
order. This holds because no character of a match after its first is `<`, so
matches never overlap.

The extraction service is the function parameter `extractor` of `ScrapePage`.
It is applied to the message built at line 65: the instruction, a blank line,
then the with-ingredients window. The training records use a single newline
between the instruction and the window (`RecordHead`). The model keeps both
layouts as the script has them.

## Model

| member | source | states |
|---|---|---|
| Text.Slice | scripts/scrape.py:133-138 | Python slicing clamps both ends to the string and never fails: the result's length is `min(stop, len) - start` (or 0) and character `k` is `s[start + k]` |
| Text.SliceWithin | scripts/scrape.py:133-138 | a slice that starts inside the string is the sub-sequence from `start` to the clamped end |
| Text.StripCommas | scripts/scrape.py:70 | `r.replace(",", "")` leaves no comma, is no longer than its input, and changes the string exactly when it holds a comma |
| Text.StripCommasMultiset | scripts/scrape.py:70 | removing commas keeps every other character with its multiplicity; the length drops by the number of commas |
| Text.StripCommasConcat | scripts/scrape.py:70 | comma removal distributes over concatenation, so the remaining characters keep their order |
| Text.StripAll | scripts/scrape.py:69-71 | the mapped list has the same length, every element is comma-free and equals its original with commas removed, and a comma-free list is unchanged |
| Text.Join | scripts/scrape.py:89 | joining nothing gives the empty string; joining n comma-free strings with ", " leaves exactly n - 1 commas |
| Text.SplitJoin | scripts/scrape.py:89 | splitting the ", "-joined comma-free list at ", " gives the list back |
| Windowing.IsSpace | scripts/scrape.py:121 | the `\s` of the pattern on the ASCII range: space, tab, line feed and carriage return are whitespace, and no whitespace character is above the space or is `<` |
| Windowing.LowerAscii | scripts/scrape.py:121 | the ASCII folding IGNORECASE applies: A-Z map to a-z, everything else is unchanged |
| Windowing.SpaceRun | scripts/scrape.py:121 | the run `\s*` consumes is all whitespace, stays inside the text, and is followed by a non-space or the end |
| Windowing.SpaceRunUnique | scripts/scrape.py:121 | a whitespace run followed by a non-space or the end is the longest run |
| Windowing.MatchesAt | scripts/scrape.py:121 | the heading matcher: a match starts with `<` and leaves room for the tag and the word before the end of the text |
| Windowing.MatchLen | scripts/scrape.py:121 | a match lies inside the text and spans at least the tag and the word |
| Windowing.MatchesAtIffRegex | scripts/scrape.py:121 | the greedy matcher accepts an offset exactly when tag, any whitespace run and word occur there, in both directions |
| Windowing.NoMatchInside | scripts/scrape.py:121 | no match starts strictly inside another match |
| Windowing.FindIter | scripts/scrape.py:120-122 | the scan reports offsets inside the text, at or after its starting point |
| Windowing.FindIterSound | scripts/scrape.py:120-122 | every offset `finditer` reports is a match |
| Windowing.FindIterComplete | scripts/scrape.py:120-122 | every match at or after the starting point is reported |
| Windowing.FindIterIncreasing | scripts/scrape.py:120-122 | the reported offsets increase strictly |
| Windowing.FindIterExact | scripts/scrape.py:120-122 | the list of matches is exactly the set of matching offsets, in increasing order |
| Windowing.Windows | scripts/scrape.py:133-138 | the before window is a prefix of the markup; both windows are at most `width` long |
| Windowing.WindowsWithin | scripts/scrape.py:133-138 | the two slices are `html[last..min(last + width, len)]` and `html[..min(first, width)]` |
| Windowing.ExtractRough | scripts/scrape.py:120-138 | on success, before_ingredients is a prefix of the markup and neither window is longer than `width` |
| Windowing.NoHeadingFails | scripts/scrape.py:120-125 | extraction fails exactly when no offset of the markup matches the heading pattern |
| Windowing.MissingBodyFails | scripts/scrape.py:119-125 | markup serialised from a missing `<body>`, the text `None`, holds no heading, so extraction fails |
| Windowing.BeforeWindowHasNoHeading | scripts/scrape.py:127-134 | no match starts inside before_ingredients, and it is cut at `width` or at a match |
| Windowing.ExtractWindows | scripts/scrape.py:127-137 | with `first` the least and `last` the greatest match, `first <= last` and the windows are `html[..min(first, width)]` and `html[last..min(last + width, len)]` |
| Windowing.ExtractFromHeadings | scripts/scrape.py:127-137 | the windows are cut at the first and the last offset `finditer` reports, and both offsets lie inside the markup |
| Windowing.FirstHeading | scripts/scrape.py:127-128 | the first reported offset is the least match |
| Windowing.LastHeading | scripts/scrape.py:130-131 | the last reported offset is the greatest match |
| Windowing.SingleHeading | scripts/scrape.py:127-137 | with one heading, both windows are anchored at its offset |
| Windowing.MatchInWindow | scripts/scrape.py:135-137 | a window that starts at a match and holds all of it matches at its offset 0 with the same length |
| Windowing.WithWindowStartsWithHeading | scripts/scrape.py:130-137 | when `width` covers the last match, extraction succeeds and with_ingredients begins with a heading match |
| Windowing.SpaceRunUpToCase | scripts/scrape.py:121 | texts that differ only in case have the same whitespace runs |
| Windowing.MatchUpToCase | scripts/scrape.py:121 | texts that differ only in ASCII case match the pattern at the same offsets |
| Windowing.LowerAll | scripts/scrape.py:121 | lower-casing a text changes it only up to case |
| Windowing.MatchIgnoresCase | scripts/scrape.py:121 | lower-casing the markup changes no match |
| Windowing.MixedCaseAndSpacesMatch | scripts/scrape.py:121 | `<H3>`, a tab, a newline and a space, then `Ingredients`, is a match |
| Windowing.TrailingTextMatches | scripts/scrape.py:121 | the match ends after the word, so `<h2>ingredients list` matches |
| Windowing.UpperCaseWordMatches | scripts/scrape.py:121 | `<H2>INGREDIENTS LIST` matches |
| Windowing.OtherLevelsDoNotMatch | scripts/scrape.py:121 | a heading tag whose level is not 2, 3 or 4 never matches |
| Windowing.OtherTextDoesNotMatch | scripts/scrape.py:121 | for any text, a heading tag whose whitespace run is followed by the end or by a character other than `i`/`I` matches neither under the greedy matcher nor under the literal regex |
| Windowing.WordStartsWithI | scripts/scrape.py:121 | wherever the word occurs, its first character is `i` or `I` |
| Windowing.OtherTextExamples | scripts/scrape.py:121 | `<h2>The ingredients` (another word first) and `<h2>Ingredient` (the word cut short) do not match |
| Recorder.ExtractorPrompt | scripts/scrape.py:65 | the message sent to the extraction service is the instruction, then exactly `\n\n`, then exactly the with-ingredients window |
| Recorder.RecordText | scripts/scrape.py:80 | a training record starts with the user turn header and its length is the sum of the template parts, the window and the target |
| Recorder.RecordLayout | scripts/scrape.py:80 | a record is the head, the window, the middle, the target and the tail, each readable back at fixed offsets |
| Recorder.RecordInjective | scripts/scrape.py:80 | two records with windows of equal length are equal only when their windows and targets are |
| Recorder.Recipe.constructor | scripts/scrape.py:141-142 | the response object holds the ingredient list the service returned |
| Recorder.Recipe.StripIngredients | scripts/scrape.py:69-71 | the ingredient list is replaced in place by its comma-stripped copy: same length, every element comma-free |
| Recorder.TrainingFiles.AppendPositive | scripts/scrape.py:86-93 | one append to the positive file, the negative file unchanged |
| Recorder.TrainingFiles.AppendNegative | scripts/scrape.py:77-84 | one append to the negative file, the positive file unchanged |
| Recorder.TrainingFiles.WriteRecords | scripts/scrape.py:73-102 | an empty list appends two `none` records to the negative file (with-window first, then before-window); otherwise one positive record with the ", "-joined target and one negative `none` record; earlier records are kept and exactly two records are added |
| Recorder.ScrapePage | scripts/scrape.py:55-102 | the outcome is `_extract_rough` of the markup; without a heading neither file changes; otherwise the records follow from the comma-stripped answer to the with-window prompt |
| Recorder.PositiveTargetRoundTrip | scripts/scrape.py:69-89 | the positive target splits at ", " back into the stripped ingredient list and holds one comma per separator |

## Left out

- Page fetching (`page.goto`, `page.content`) is browser I/O. The model starts from markup that is already serialised.
- The BeautifulSoup work (lines 108-119) is library DOM behaviour and is not modelled: parsing, removing noise tags and empty tags, dropping attributes, and serialising `<body>`. A page without a `<body>` serialises to the text `None`; the model covers that case as the input `"None"` (`Windowing.MissingBodyFails`).
- The OpenAI/instructor call and the pydantic `Recipe` validation form a foreign network service. The model replaces them with the function parameter `extractor`, so the service is deterministic here and cannot fail.
- `json.dumps` escaping and the trailing newline of each line are library serialisation. A file is modelled as the sequence of the `text` fields of its lines.
- Not modelled: file opening and closing, `load_dotenv`, `print`, pytest parametrisation over the URL list, and parallel test runs. These are I/O and test plumbing.
- Text: strings are sequences of Unicode scalar values, so a Python string holding a lone surrogate has no counterpart in the model.
- Windowing.IsSpace: only the ASCII part of Python's `\s` is modelled (tab to carriage return, U+001C to U+001F, space). The Unicode spaces are left out to keep the proofs within the solver's budget. These are U+0085, U+00A0, U+1680, U+2000 to U+200A, U+2028, U+2029, U+202F, U+205F and U+3000.
- Windowing.LowerAscii: only ASCII case folding is modelled. Under `re.IGNORECASE` Python also lets U+0130 and U+0131 match `i`, and U+017F match `s`.
- Windowing.ExtractRough: `width` is a natural number. The script never passes a negative width, and the model does not give Python's meaning to one.
