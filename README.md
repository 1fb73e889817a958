# Portfolio tracker return pipeline, in Dafny

This project models the core of a small stock-portfolio tracker (a
Streamlit script, `app.py`). The tracker keeps an editable, ordered
portfolio of holdings. Each holding is a symbol with a page URL and an
allocation weight. For every holding it fetches a page, reads the day's
percentage return off the page text, and combines the returns into one
portfolio return weighted by normalized allocation.

Five modules, one per component:

- `wrappers.dfy`, module `Wrappers`: the `Option` datatype.
- `quote_extractor.dfy`, module `QuoteExtractor`: the quote extractor.
  It finds the first match of `[+-]?[0-9]+\.[0-9]+(?=%)` in the page
  text and returns its value, or `0.0` when nothing matches or the
  fetch failed. The datatype `Quote` (sign, integer digits, fraction
  digits) and the predicate `QuoteAt` say what a match is. The scanner
  (`DigitRun`, `ScanAt`, `Search`) finds matches by index arithmetic and
  is proved sound and complete against `QuoteAt`. Values are exact
  `real`s: integer part plus fraction digits over 10 to the power of
  their count, with the sign applied.
- `portfolio.dfy`, module `Portfolio`: the `stock_data` dictionary as
  the class `StockData`. It holds a sequence of distinct keys in
  insertion order and a map from key to `Entry(url, allocation)`. The
  class has the add, update and delete handlers as methods.
- `aggregator.dfy`, module `Aggregator`: `calculate_portfolio_return` as
  a method with a loop. `ReturnsOf` turns the fetched pages into one
  return per holding, and the method combines the holdings with those
  returns. It is proved against the specification
  functions `RecordsOf` and `SumContributions`. Lemmas then show that
  the result is the allocation-weighted average of the returns, and
  that a zero or negative total allocation gives zero.
- `highlights.dfy`, module `Highlights`: the figures the Portfolio tab
  draws from the records. These are the green-stock count and the best
  and worst performer (Python `max`/`min`, so the first of equal
  candidates wins). `RefreshTab` composes one refresh of the tab.

Stand-ins for the parts around the core:

- The HTTP fetch and the HTML-to-text conversion become a parameter.
  `pages[i]` is the text of the page of holding `i`, or `None` when the
  fetch raised.
- The session dictionary becomes a `StockData` object.

Two points about the handlers:

- Add performs no weight-range validation. The bounds of 0.01 to 100 are
  enforced only by the input widgets (app.py:248, 275).
- Update always overwrites both the URL and the allocation
  (app.py:282-283).

## Model

| member | source | states |
|---|---|---|
| `QuoteExtractor.DigitRun` | app.py:117 | the length of the maximal run of digits at a position: all digits, followed by a non-digit or the end |
| `QuoteExtractor.ScanAtSound` | app.py:117 | whatever the scanner finds at position i is a match of the pattern at i: sign, digits, `.`, digits, then `%` |
| `QuoteExtractor.ScanAtShape` | app.py:117 | a reported span has a sign exactly when its digits start one position late, digits up to the decimal point, and digits up to the percent sign |
| `QuoteExtractor.QuoteAtWritten` | app.py:117 | a match at a position is exactly its sign, integer digits, `.`, fraction digits and `%` written one after another there |
| `QuoteExtractor.ScanAtComplete` | app.py:117 | every match of the pattern at position i is found by the scanner, and it is the only match at i |
| `QuoteExtractor.ScanAt` | app.py:117 | a span reported at i starts at i, has its digits before the decimal point and more digits after it, and ends before the end of the text |
| `QuoteExtractor.FirstMatch` | app.py:117 | a reported first match is one the scanner finds at its start, and no earlier position starts a match; with no report, no position does |
| `QuoteExtractor.Search` | app.py:117 | the search returns a match found at or after its start position, and the scanner finds no match at any earlier position |
| `QuoteExtractor.FirstMatchSpec` | app.py:117-121 | there is no first match iff no position of the text starts a match; otherwise the first match is a match and no match starts before it |
| `QuoteExtractor.ExtractReturn` | app.py:117-121 | with no match the return is 0.0; otherwise the first span is a match of the pattern and the return is the signed value of its quote |
| `QuoteExtractor.ExtractLeftmost` | app.py:117-119 | the extracted return is the signed value of the leftmost match, the `%` excluded |
| `QuoteExtractor.ExtractNoMatch` | app.py:120-121 | a text with no match gives exactly 0.0 |
| `QuoteExtractor.ExtractAfter` | app.py:117-119 | a quote preceded only by text without digits or signs, and followed by `%`, is the one extracted |
| `QuoteExtractor.ExtractWritten` | app.py:117-119 | a quote written at the start of the text and followed by `%` is read back as its own value |
| `QuoteExtractor.ExtractExample` | app.py:117-119 | in "up -3.25% or +10.00%" the first percentage, -3.25, is taken |
| `QuoteExtractor.Quote.Magnitude` | app.py:119 | the magnitude of a quote lies between its integer part and the next integer, the fraction digits adding less than 1 |
| `QuoteExtractor.Quote.Value` | app.py:119 | the value of a quote is non-positive with a minus sign and non-negative otherwise, and its absolute value is the magnitude |
| `QuoteExtractor.FetchReturn` | app.py:107-124 | a failed fetch yields 0.0 |
| `Portfolio.Upper` | app.py:252-253 | upper-casing keeps the length and upper-cases each ASCII letter, leaving every other character alone |
| `Portfolio.UpperIdempotent` | app.py:252-253 | upper-casing an upper-cased symbol changes nothing |
| `Portfolio.Remove` | app.py:289 | after removal, the key list holds exactly the other keys |
| `Portfolio.RemoveAt` | app.py:289 | removing a key that sits at position p and nowhere else splices out exactly that position |
| `Portfolio.SpliceNoDuplicates` | app.py:289 | splicing one key out of a duplicate-free key list leaves it duplicate-free |
| `Portfolio.DeleteKeyed` | app.py:289 | deleting the key at position p of a consistent portfolio removes exactly that position, keeps keys and map in agreement, and drops exactly the holding at p |
| `Portfolio.HoldingsAppend` | app.py:253-256 | inserting a fresh key appends exactly one holding at the end of the iteration order |
| `Portfolio.HoldingsOverwrite` | app.py:282-283 | overwriting a listed key's entry changes that key's holding and no other |
| `Portfolio.HoldingsDelete` | app.py:289 | deleting the key at position p drops exactly the holding at p, keeping the others in order |
| `Portfolio.StockData.constructor` | app.py:79-80 | the portfolio starts consistent and empty: no keys and no entries |
| `Portfolio.StockData.Add` | app.py:250-262 | an empty symbol or URL is rejected and the portfolio is unchanged; an upper-cased symbol already present is rejected and the portfolio is unchanged; otherwise the upper-cased key is appended with the given URL and allocation and nothing else changes; symbols stay unique |
| `Portfolio.StockData.Update` | app.py:281-285 | only the named key's URL and allocation change; key order and all other holdings are kept; symbols stay unique |
| `Portfolio.StockData.Delete` | app.py:288-291 | only the named key is removed, and the other keys and holdings stay in their order; symbols stay unique |
| `Aggregator.TotalAllocationSign` | app.py:128 | the total allocation is non-negative when every allocation is, and positive when every allocation is positive and there is at least one |
| `Aggregator.TotalAllocationAppend` | app.py:128 | the total allocation of two portfolios one after the other is the sum of their totals |
| `Aggregator.NormalizedShare` | app.py:139 | with a positive total the normalized weight times the total is the allocation, and it lies in [0, 1] for an allocation between 0 and the total; otherwise it is 0 |
| `Aggregator.RecordOfContribution` | app.py:136-148 | a record carries its holding's symbol, its return and its raw allocation; with a positive total its contribution times the total is return times allocation, otherwise its contribution is 0 |
| `Aggregator.SumContributionsZero` | app.py:141 | a table whose every contribution is 0 sums to 0 |
| `Aggregator.SumContributionsAppend` | app.py:141 | the sum over two tables one after the other is the sum of their sums |
| `Aggregator.ReturnsOf` | app.py:136-138 | one return per holding from its own page; a failed fetch gives 0.0 for that holding only |
| `Aggregator.CalculatePortfolioReturn` | app.py:126-157 | the records are the per-holding records in portfolio order, and the returned total is the sum of their contributions |
| `Aggregator.RecordsOfAt` | app.py:136-148 | exactly one record per holding; record k has holding k's symbol, its return, its raw allocation and contribution return * normalized weight |
| `Aggregator.EmptyPortfolio` | app.py:134-157 | an empty portfolio yields no records and a total of 0 |
| `Aggregator.NonPositiveTotalGivesZero` | app.py:139 | when the allocations sum to 0 or less, every contribution is 0 and the aggregate return is 0 |
| `Aggregator.NormalizedWeightsSumToOne` | app.py:128-139 | with a positive total allocation, the normalized weights sum to 1 |
| `Aggregator.WeightedAverage` | app.py:128-141 | with a positive total allocation, the aggregate return equals sum(return_i * alloc_i) / sum(alloc_i) |
| `Aggregator.UniformReturn` | app.py:139-141 | if every holding returns the same c and the total allocation is positive, the portfolio returns c |
| `Aggregator.WeightWarning` | app.py:296-304 | the total-weight warning is shown iff the portfolio is non-empty (the summary sits under the guard of app.py:269) and its allocations sum to less than 99 or more than 101 |
| `Highlights.PositiveCount` | app.py:182 | the green-stock count never exceeds the number of records |
| `Highlights.PositiveCountIsSize` | app.py:182 | the green-stock count is the number of records whose return is positive |
| `Highlights.PositiveCountExtremes` | app.py:182 | the count is 0 iff no return is positive, and it equals the number of records iff every return is positive |
| `Highlights.BestPerformer` | app.py:229 | the position of a largest return; every earlier record has a strictly smaller return, so ties go to the first |
| `Highlights.WorstPerformer` | app.py:230 | the position of a smallest return; every earlier record has a strictly larger return, so ties go to the first |
| `Highlights.RefreshTab` | app.py:167-234 | an empty portfolio gets no summary; otherwise the summary has the records and total of the aggregation over the holdings in order, the green count, the stock count, the total weight and the best and worst performer |

## Left out

- The HTTP GET, its User-Agent header, its 10-second timeout and `raise_for_status` (app.py:109-113) are network I/O. They are replaced by the optional page text, where `None` stands for any exception.
- The HTML-to-text conversion by BeautifulSoup (app.py:114) is a foreign library. The extractor takes the text directly.
- The 5-minute result cache, `st.cache_data(ttl=300)` (app.py:106), and clearing it live in the Streamlit library. Each refresh simply receives one page per holding.
- All Streamlit rendering is presentation, not logic: page setup, CSS, tabs, progress bar, `time.sleep`, metrics, data-frame styling, success/error messages and `st.rerun`.
- Floating point is not modelled. Returns, weights and sums are exact reals, so `float()` conversion and rounding in sums and divisions do not appear.
- The display strings `"+x.xx%"`, `"x.x%"` and `"+x.xxx%"` (app.py:145-147) are float formatting. Records carry the numbers instead.
- Highlights.PositiveCount: counts returns above 0 on the exact value, while the source tests the re-parsed two-decimal display string (app.py:182). A return of 0.004 is counted here but not there.
- Highlights.BestPerformer: compares exact returns, while the source compares the re-parsed two-decimal display strings (app.py:229). Returns that round to the same two-decimal string tie there and go to the first holding.
- Highlights.WorstPerformer: compares exact returns, while the source compares the re-parsed two-decimal display strings (app.py:230). The same rounding difference applies.
- Portfolio.Upper: upper-cases ASCII letters only. Python's `str.upper` also maps other letters, and may change a string's length (`ß` becomes `SS`). There is no Unicode case table here.
- The weight widgets' bounds of 0.01 to 100 (app.py:248, 275) are enforced by the widget, not by the code. Allocations are arbitrary reals, which is why a zero or negative total is covered.
- Portfolio.StockData.Update and Portfolio.StockData.Delete require the symbol to be listed. Their buttons exist only for listed symbols (app.py:271), and Python would raise `KeyError` otherwise.
- The hard-coded seed portfolio (app.py:79-99) is example data. The model starts from an empty `StockData`.
