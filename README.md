# Contract PDF redactor: value perturbation, number selection and box finding

The redactor opens contract PDFs, blacks out fixed boxes on the first
page, and rewrites the numbers it finds in "mod" documents. Each number is
lowered by a run-wide percentage. This project models the three pieces of
that pipeline that are more than calls into the PDF library. Each one comes
with proofs about it.

- **Value perturbation** (`alter_price` and `alter_number` in main.py, and
  `alter_price` in script.py), in `numeric.dfy` and `perturb.dfy`.
  - A token is cleaned to its digits and points. If nothing numeric is
    left, it is returned unchanged. Otherwise one trailing point is dropped
    and the rest is parsed.
  - The new value is `old - old * p / 100`, where the percentage `p` is an
    integer from 0 to 100.
  - `alter_price` renders the result as `$`, the comma-grouped whole part
    and two decimals.
  - `alter_number` keeps the token's number of decimals and uses no
    grouping.
  - Values are exact decimals: a mantissa and a scale.
  - `alter_price` does not guard its `float()`. A token that does not parse
    is therefore an error result (`Err(NotANumber)`), not an answer.
- **Number selection** (`modify_prices_from_mod` and `should_avoid_number`
  in main.py), in `avoid.dfy` and `numberscan.dfy`.
  - `re.finditer` of `\$?[\d,]+\.?\d*` is a greedy scanner. It is proved to
    report, in order and without overlap, the longest match at each
    position it tries, and to miss no match.
  - Each match gets a context window of up to 20 characters on either side.
  - `should_avoid_number` searches the NUMBERS_TO_AVOID patterns case-blind,
    then the avoid_contexts keywords in the lower-cased context.
    - The patterns are written as data.
    - A backtracking matcher is proved equal to their declarative meaning.
  - A match starting with `$` goes to `alter_price`; any other goes to
    `alter_number`.
  - A page's edits are recorded, and counted in `modifications_made`, only
    when the new text differs from the old.
- **Box finding** (`generate_rect_coordiante` in both files, and the anchor
  collection of `redact_first_page` in script.py), in `boundary.dfy`.
  - The pixmap is a 2-D array of channel sums.
  - Two while loops scan right, then down, to the first dark pixel
    (`r + g + b < 100`). Each scan then backs off 4 pixels.
  - The 13 first-page labels are searched in order. A label with no hit is
    skipped. A label that is found gives the box anchored at the
    bottom-left corner of its first hit.

script.py's `alter_price` and `generate_rect_coordiante` are the same code
as main.py's. One definition serves both, and the table below cites
whichever file the stated property comes from.

main.py leaves a match alone in two cases only: when `should_avoid_number`
says so, and when the rewritten text equals the old one. It has no other
filter on the match itself, and it never puts a sign back in front of the
new text.

## Model

| member | source | states |
|---|---|---|
| Numeric.Clean | main.py:69 | `re.sub(r'[^.0-9]', '', s)` keeps only digits and points and never lengthens the text |
| Numeric.CleanAppend | main.py:69 | cleaning keeps order: it distributes over concatenation |
| Numeric.CleanKeepsNumChars | main.py:88 | a text of digits and points is left as it is |
| Numeric.CleanDropsOthers | main.py:69 | a text with no digit or point cleans to "" |
| Numeric.CleanIdempotent | main.py:88 | cleaning twice is cleaning once |
| Numeric.CleanKeepsPoints | main.py:69 | every point of the input survives cleaning |
| Numeric.CleanKeepsDigits | main.py:69 | the cleaned text has a digit exactly when the input has one |
| Numeric.NatToDigits | main.py:107 | "{:.0f}" of a whole number: digits, no leading zero, reading back as the number |
| Numeric.PadDigits | main.py:105 | the fraction part: exactly `width` digits reading back as the value |
| Numeric.ParseDecimal | main.py:97 | `float()` of a cleaned text; no contract of its own: ParseDecimalAccepts says when it succeeds and FormatFixedRoundTrip what it reads |
| Numeric.FormatFixed | main.py:105-107 | "{:.Nf}" of an exact value; no contract of its own: FormatFixedChars and FormatFixedRoundTrip state its characters, its non-empty whole part without a leading zero, and its value |
| Numeric.Group | main.py:80 | the "{:,}" grouping; no contract of its own: GroupLayout and CleanGroup state where its commas go and that its digits are kept |
| Numeric.RoundHalfEven | main.py:80 | the rounding of the format; no contract of its own: RoundNearest states it |
| Numeric.DotIndex | main.py:104 | the index of the first point, with no point before it |
| Numeric.ParseDecimalAccepts | main.py:97 | `float()` of a cleaned text succeeds exactly when it has at most one point and some digit |
| Numeric.FormatFixedChars | main.py:103-107 | the fixed-point text is digits with a point exactly when decimals are asked for, and at most one point; it starts with a digit, and its whole part has no leading zero |
| Numeric.FormatFixedRoundTrip | main.py:105-107 | a formatted number reads back with the same value and the same number of places |
| Numeric.ParsePointed | main.py:104 | `whole.frac` parses with `len(frac)` places |
| Numeric.GroupLayout | main.py:80 | the "{:,}" grouping puts a comma before every third digit from the right and nowhere else |
| Numeric.CleanGroup | main.py:80 | removing the grouping commas gives back the digits |
| Numeric.RoundNearest | main.py:80 | the rounded value lies within half a unit of the exact one, and a tie goes to the even neighbour |
| Perturb.Prepare | main.py:88-94 | no token when the cleaned text is "" or "."; otherwise the cleaned text without one trailing point, and only that point is dropped |
| Perturb.AlterNumberUnchanged | main.py:87-112 | `alter_number` returns its input when the cleaned text is "" or "." and when `float()` would raise; otherwise its output is digits and at most a point |
| Perturb.AlterNumberFormat | main.py:99-107 | the output has as many decimals as the token had after its point, and no point when it had none; it reads back within half a unit of `old * (100 - p) / 100` and not above the old value; it starts with a digit, and its whole part has no leading zero |
| Perturb.Reduce | main.py:79 | the perturbation `x - x * percentage_changed` (also main.py:100 and script.py:31) with the rounding of the format; no contract of its own: ReduceAtOwnScale and ReduceToCents state it |
| Perturb.ReduceAtOwnScale | main.py:100 | at the token's own scale the new value rounds `old * (100 - p) / 100`, is at most the old value, and `p = 0` changes nothing |
| Perturb.PriceText | main.py:80 | "${:,.2f}" starts with `$` and has a point three characters from the end; PriceTextLayout states the rest of its layout |
| Perturb.GroupIsGrouped | main.py:80 | the "{:,}" grouping of a whole part starts with a digit (never a comma, since a grouped length is never a multiple of 4), has a comma at every fourth place from the right and nowhere else, and digits elsewhere |
| Perturb.PriceTextLayout | main.py:80 | the price is `$`, then the comma-grouped whole part whose digits are those of `cents / 100`, then a point, then two digits reading `cents % 100` |
| Perturb.AlterNumber | main.py:87-112 | `alter_number`; no contract of its own: AlterNumberUnchanged and AlterNumberFormat state it |
| Perturb.AlterPrice | script.py:20-23 | a token whose cleaned text is "" or "." is returned unchanged |
| Perturb.AlterPriceRaises | script.py:28 | the unguarded `float()` raises exactly when the prepared token has two points or no digit |
| Perturb.PriceTextReadsBack | main.py:80 | a rendered price cleans to the fixed-point text of its cents and parses back to those cents |
| Perturb.AlterPriceFormat | script.py:31-32 | on a number, the price is laid out as "${:,.2f}" prints some number of cents: `$`, the comma-grouped whole part, a point and two digits; those cents are within half a cent of `old * (100 - p) / 100` and not above the old price |
| Perturb.ReduceToCents | main.py:79-80 | in cents the new price rounds `old * (100 - p) / 100` and is not above the old price |
| PerturbExamples.PriceExample | main.py:68-84 | a 20% cut of "$1,000.00" gives "$800.00" |
| PerturbExamples.NumberExample | main.py:87-112 | a 30% cut of "150" gives "105" |
| PerturbExamples.CleanDollarThousand | main.py:69 | "$1,000.00" cleans to "1000.00" |
| Avoid.Lower | main.py:51 | `lower()` keeps the length and lowers each character |
| Avoid.ClassRun | main.py:31-38 | the longest run of a character class stops at the end or at a character outside it |
| Avoid.ClassRunAll | main.py:31-38 | every character of that run is in the class |
| Avoid.MatchFromMeaning | main.py:47 | the backtracking matcher succeeds at a position exactly when the pieces span a text ending at a word boundary |
| Avoid.SearchFromMeaning | main.py:47 | the scan from a position succeeds exactly when a match between two word boundaries starts at or after it |
| Avoid.Search | main.py:47 | the backtracking `re.search`; no contract of its own: SearchMatchesOccurs states it |
| Avoid.SearchMatchesOccurs | main.py:47 | `re.search(pattern, context, re.IGNORECASE)` finds a match exactly when the pattern occurs between two word boundaries |
| Avoid.AnyPatternFoundMeaning | main.py:46-48 | the pattern loop returns True exactly when some pattern of the list matches |
| Avoid.AnyKeywordInMeaning | main.py:61-63 | the keyword loop returns True exactly when some keyword is a substring |
| Avoid.FindPattern | main.py:46-48 | the loop with early return computes whether some pattern matches |
| Avoid.FindKeyword | main.py:61-63 | the loop with early return computes whether some keyword occurs |
| Avoid.ShouldAvoid | main.py:41-65 | the value of `should_avoid_number`; no contract of its own: ShouldAvoidMeaning states it |
| Avoid.ShouldAvoidNumber | main.py:41-65 | `should_avoid_number` is the pattern loop, then the keyword loop on the lower-cased context |
| Avoid.ShouldAvoidMeaning | main.py:30-65 | a number is avoided exactly when a NUMBERS_TO_AVOID pattern occurs in the context or an avoid_contexts keyword is in its lower-cased form |
| Avoid.YearPatternMeaning | main.py:31 | `\b\d{4}\b` matches exactly the four-digit runs between word boundaries |
| Avoid.FourDigitsAvoided | main.py:31 | any standalone four-digit run in the window makes the number avoided |
| Avoid.SpansWithin | main.py:32-38 | a pattern matches only inside the text |
| Avoid.SpansCover | main.py:32-38 | a piece that must repeat leaves a character of its class inside the match |
| Avoid.MarkedPatternAbsent | main.py:32-38 | every pattern but the year one needs a letter, slash, dash or colon in the context |
| Avoid.KeywordAbsent | main.py:54-63 | no keyword occurs in a context without letters |
| Avoid.UnmarkedContextAvoided | main.py:30-65 | in a context with no letter, slash, dash or colon, a number is avoided exactly when a standalone four-digit run is present |
| NumberScan.RunEnd | main.py:210 | the greedy `[\d,]*` stops at the end of the text or at a character outside the class |
| NumberScan.RunEndAll | main.py:210 | every character it passes is a digit or a comma |
| NumberScan.RunWithinRunEnd | main.py:210 | any run of digits and commas from a position ends at or before the greedy end |
| NumberScan.MatchEnd | main.py:210 | a match is never empty and stays inside the text |
| NumberScan.GreedyShape | main.py:210 | the greedy end is a match of `\$?[\d,]+\.?\d*` |
| NumberScan.ShapeWithinGreedy | main.py:210 | every match of the pattern at a position ends at or before the greedy end |
| NumberScan.StartsNumberMeaning | main.py:228 | the scanner tries a position exactly when a match of the pattern starts there |
| NumberScan.LongestMatch | main.py:210 | the reported match is the longest match at its start |
| NumberScan.MatchTextIsNumber | main.py:229 | `match.group()` is, on its own, a whole match of the pattern |
| NumberScan.FindFrom | main.py:228 | every reported match is a greedy match lying after the scan's start |
| NumberScan.OrderedCons | main.py:228 | a match ending before an ordered list can go in front of it |
| NumberScan.FindFromOrdered | main.py:228 | finditer's matches are in increasing order and do not overlap |
| NumberScan.FindFromCovers | main.py:228 | every position where a match could start lies inside a reported match |
| NumberScan.MatchesMeaning | main.py:210-229 | `Matches`, i.e. `re.finditer(number_pattern, text)`: each match starts with `$`, a digit or a comma, is the longest at its start, and every match of the pattern overlaps a reported one |
| NumberScan.ContextWindow | main.py:232-234 | `Context`, the slice `text[start_context:end_context]`: `start_context <= match.start()`, `match.end() <= end_context <= len(text)`, each side at most 20 characters, and shorter only at the text's ends |
| NumberScan.DigitBeforeTrailingPoint | main.py:93-94 | dropping the trailing point loses no digit |
| NumberScan.NoDigitFewPoints | main.py:89 | a cleaned text with no digit and at most one point is "" or "." |
| NumberScan.NumberTextPoints | main.py:210 | a match holds at most one point |
| NumberScan.PriceMatchParses | main.py:250-251 | `alter_price` never raises on a match of the number pattern |
| NumberScan.Rewrite | main.py:250-253 | a match starting with `$` is rewritten by `alter_price`, any other by `alter_number` |
| NumberScan.EditFor | main.py:229-256 | the decision for one match; no contract of its own: EditMatch computes it, and PageEditsMembers, DigitlessMatchUntouched and StandaloneYearUntouched state what it gives |
| NumberScan.EditMatch | main.py:229-256 | the loop body skips an avoided match and otherwise yields the rewritten text only when it differs |
| NumberScan.ModifyNumbersInSpan | main.py:228-268 | the matches of one span are edited in order, and the count rises once per edit |
| NumberScan.ModifyNumbersOnPage | main.py:218-268 | a page's edits are those of its spans in order, and `modifications_made` is their number |
| NumberScan.DocumentEdits | main.py:212 | one list of edits per page |
| NumberScan.ModifyNumbersInDocument | main.py:212-270 | every page is processed in order with its own count |
| NumberScan.DocumentEditsPerPage | main.py:212-218 | each page gets exactly the edits it would get on its own |
| NumberScan.CollectMembers | main.py:228-268 | an edit is recorded exactly for a match whose decision is a new text |
| NumberScan.MatchEditsMembers | main.py:228-268 | a span's edits are exactly its matches whose edit is a new text |
| NumberScan.PageEdits | main.py:220-268 | the edits of a page; no contract of its own: PageEditsMembers and PageEditsAtMostMatches state it |
| NumberScan.PageEditsMembers | main.py:220-268 | a page's edits are exactly the matches that are not avoided and whose rewritten text differs, with that text |
| NumberScan.CollectAtMostMatches | main.py:256-268 | at most one edit per match |
| NumberScan.PageEditsAtMostMatches | main.py:256-268 | `modifications_made` never exceeds the number of matches on the page |
| NumberScan.DigitlessMatchUntouched | main.py:255-256 | a match with no digit, such as ",", is never changed or counted |
| NumberScan.StandaloneYearUntouched | main.py:231-239 | a standalone four-digit match, such as a year, is always skipped |
| NumberScan.PriceEditShape | main.py:250-251 | an edit of a `$` match is laid out as "${:,.2f}" prints a price: `$`, the comma-grouped whole part, a point and two digits |
| NumberScan.PriceRewriteShape | main.py:80 | a price token that changes comes back as `$`, the comma-grouped whole part, a point and two digits |
| Boundary.Scale | main.py:120-121 | the page-to-pixel scale is positive |
| Boundary.ToPixel | main.py:122-123 | the anchor pixel of a non-negative coordinate is non-negative |
| Boundary.FirstDarkInRow | main.py:126-132 | the right scan stops at the first dark pixel of the anchor row at or after the start, or at the width, and every pixel it passes is light |
| Boundary.FirstDarkInColumn | script.py:59-66 | the down scan stops at the first dark pixel of the column at or below the start, or at the height, and every pixel it passes is light |
| Boundary.BoxRect | main.py:115-147 | the rectangle returned for an anchor has the anchor as its top-left corner; BoxRectCorners states its other corner |
| Boundary.BoxRectCorners | script.py:57-72 | the box's top-left is the anchor; scaled to pixels, its right edge is 4 before where the right scan stops and its bottom edge is 4 above where the down scan stops |
| Boundary.GenerateRect | main.py:115-147 | the two while loops compute the box of the anchor, and the top-left corner returned is the anchor |
| Boundary.Anchors | script.py:80-84 | there are no more anchors than labels |
| Boundary.AnchorsMeaning | script.py:80-84 | an anchor is collected exactly for a label with a hit, at the bottom-left `(x0, y1)` of its first hit |
| Boundary.FirstPageRectsMeaning | script.py:80-84 | one box per collected anchor, in label order, each the box at that anchor |
| Boundary.CollectFirstPageRects | script.py:78-84 | the loop over the 13 labels collects exactly those boxes, all before any redaction |

## Left out

- The PDF library (`fitz`) is not part of this model. That covers opening,
  searching, rendering the pixmap, reading pixels, redaction annotations,
  `apply_redactions`, `insert_text`, `get_text` and saving. Pixmaps come in
  as arrays of channel sums. Search results come in as a function from
  label to hits. A page comes in as the texts of its spans.
- The package bootstrap and the random draw of the percentage (main.py:7-15)
  are left out. The percentage is a parameter.
- Printing is left out.
- `is_mod`, `redact_contact_info` (including its rectangle
  `(x1, y0, x1 + 115, y1)`), `modify_prices` and `main` are not modelled.
  They are orchestration over library calls.
- Perturb.AlterPrice, Perturb.AlterNumber: do not model binary floating
  point. Values are exact decimals, and the result is rounded once, half to
  even. Python computes `float(old) - float(old) * p` in doubles, rounding
  at each step. The outputs can then differ:
  - in the last digit, on a tie or a value that is not representable;
  - in many digits, for a token of more than about 15 significant digits
    ("12345678901234567890" reads as 12345678901234567168.0);
  - entirely, for a token whose whole part has more than about 309 digits:
    it reads as infinity, `inf - inf * p` is not a number, and the result
    is always "nan" ("$nan" for a price);
  - in the trailing digits, for a token with more than about 17 decimals,
    where Python prints the binary expansion of the double.
- NumberScan.ModifyNumbersOnPage: the on-page position of a match
  (main.py:242-247) is not modelled. That is the character-width
  interpolation and the redaction box. An edit records the span, the
  matched range and the new text.
- NumberScan.ModifyNumbersOnPage: the font size of the re-inserted text is
  not modelled.
- Avoid.ShouldAvoidNumber: `\w`, `\d`, `\s`, `re.IGNORECASE` and `lower()`
  are modelled on ASCII only. Python's Unicode classes and case mappings
  are not.
- NumberScan.Matches: `[\d,]` and `\d` of the number pattern
  (main.py:210) are modelled on ASCII digits only. Python 3 also matches
  other Unicode digits. In "$５0" (a fullwidth five), Python finds the one
  match "$５0" and `alter_price` rewrites it to "$0.00". The model finds
  only "0", which `alter_number` leaves unchanged, so it records no edit.
- Avoid.ShouldAvoidNumber: the `number_match` argument is never read by
  the source, so the model omits it.
- Boundary.GenerateRect: requires the anchor pixel to lie at least 4 columns
  from the left edge and inside the image. Otherwise the back-off can give
  a negative column, whose pixel read is library behaviour.
- Boundary.GenerateRect: the page size and coordinates are exact reals, not
  doubles. `int()` is the floor of a non-negative coordinate.
- Boundary.CollectFirstPageRects: requires every anchor that is found to
  satisfy the same condition as GenerateRect.
- Boundary.CollectFirstPageRects: the redaction of the collected boxes
  (script.py:86-90) is a library call. It is not modelled beyond the boxes
  being collected first.
