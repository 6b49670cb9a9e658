# Stock price statistics — a Dafny model of `stocks.py`

`stocks.py` is a command-line script. It takes one or more stock ticker
symbols and does the following for each, in argument order:

- It downloads five years of daily closing prices from the Nasdaq
  historical-quotes API (`download_data`).
- It cleans each close string such as `"$1,234.56"` and converts it to a number.
- For every ticker with a non-empty price list, it computes a record
  (`stock_prices`). The record holds the minimum, the maximum, the mean
  (`"avg"`), the median (stored under the key `"medium"`) and the ticker.
- If at least one record was computed, it writes the list of records to
  `stocks.json`.

The model has four modules:

- `Wrappers`: the `Option` and `Result` types.
- `Analysis`: `stock_prices`. Prices are mathematical reals. `min`, `max` and
  `sum` are recursive functions. `statistics.median` is the middle of an
  insertion-sorted copy.
- `Download`: the pure parts of `download_data`:
  - upper-casing the ticker;
  - removing every `'$'` and `','` from a close string;
  - the `"data"`/`"tradesTable"` presence test;
  - the row comprehension, evaluated left to right.

  The HTTP exchange becomes a `Response` value, and `float(...)` becomes a
  `parse` function that may fail. A JSON member is one of three things:
  missing, `null`, or present. Keeping those apart lets the model say
  exactly which Python exception each malformed shape raises.
- `Driver`: `main`, written as the method `Driver.Run`. Its loop appends to
  `results` and keeps this invariant: `results` equals the function `Collect`
  applied to the tickers and downloads processed so far. The lemmas are
  about `Collect`.

Two behaviours of the code go beyond what its comments say (the
`download_data` docstring at stocks.py:36 promises `None` when retrieval
fails):

- **Exceptions escape.** `download_data` catches only
  `requests.exceptions.RequestException` (stocks.py:66). Several failures
  raise instead: a close string that `float` rejects raises `ValueError`; a
  missing `"close"` or `"rows"` key raises `KeyError`; and a `null` in the
  response raises `TypeError` or `AttributeError`. Each of these escapes
  `main` and stops the run. Later tickers are not processed and nothing is
  written (`Exit.Crashed`).
- **Exit status.** An uncaught exception ends the process with status 1,
  the same status as the usage error. A run that finishes ends with 0,
  whatever happened to individual tickers.

The close cleaning at stocks.py:59 uses `replace`, so it deletes every `'$'`
and every `','` in the string.

## Model

| member | source | states |
|---|---|---|
| Analysis.Min | stocks.py:88 | the minimum of a non-empty list is one of its elements, and no element is smaller |
| Analysis.Max | stocks.py:89 | the maximum of a non-empty list is one of its elements, and no element is larger |
| Analysis.Sum | stocks.py:90 | `sum(prices)`: the sum of the list, 0 for an empty list |
| Analysis.SumAppend | stocks.py:90 | Python's left-to-right `sum` agrees with `Sum`: appending x to the list adds x to the sum |
| Analysis.Mean | stocks.py:90 | `sum(prices) / len(prices)` for a non-empty list; multiplied by the count it gives back the sum |
| Analysis.SumBounds | stocks.py:90 | a sum of n values that each lie within [lo, hi] lies within [n·lo, n·hi] |
| Analysis.MeanBounds | stocks.py:88-90 | sum/len lies between the minimum and the maximum; multiplied by the count it gives back the sum |
| Analysis.Insert | stocks.py:91 | inserting into an ascending list keeps it ascending and adds exactly one copy of the value |
| Analysis.SortAscending | stocks.py:91 | the sort used by the median is an ascending permutation of its input |
| Analysis.Median | stocks.py:91 | `statistics.median`: the middle of the sorted list. For an odd count it is an element of the list; for an even count it is the mean of two elements of the list |
| Analysis.SortedUnique | stocks.py:91 | two ascending lists with the same elements are equal, so the sorted order does not depend on the sort |
| Analysis.MedianOfSortedPermutation | stocks.py:91 | the median is read off any ascending arrangement of the list: index n/2 for odd n, the mean of indices n/2-1 and n/2 for even n |
| Analysis.MedianOrderFree | stocks.py:91 | two lists holding the same elements in any order have the same median |
| Analysis.MedianBounds | stocks.py:91 | the median lies between the minimum and the maximum |
| Analysis.MedianOfSortedThree | stocks.py:91 | the median of three ascending values is the second one |
| Analysis.MedianOfSortedFour | stocks.py:91 | the median of four ascending values is the mean of the second and third |
| Analysis.MedianOfThree | stocks.py:91 | the median of a ≤ b ≤ c is b |
| Analysis.MedianOfThreeUnsorted | stocks.py:91 | the median of three values given out of order equals the median of the same values in order |
| Analysis.MedianOfFour | stocks.py:91 | the median of a ≤ b ≤ c ≤ d is (b + c)/2 |
| Analysis.MedianExamples | stocks.py:91 | [1,2,3] and [3,1,2] give 2; [1,2,3,4] gives 2.5 |
| Analysis.StockPrices | stocks.py:83-93 | None exactly for an empty list. Otherwise min and max are elements of the list that bound it, avg is sum/len and lies between them, the median lies between them, and the ticker is returned unchanged |
| Analysis.StockPricesOfSortedThree | stocks.py:87-93 | three ascending closes give minimum t[0], maximum t[2], mean (t[0]+t[1]+t[2])/3 and median t[1] |
| Download.Upper | stocks.py:39 | same length; no lower-case letter remains; each lower-case letter becomes its capital and every other character is kept |
| Download.UpperIdempotent | stocks.py:39 | upper-casing an upper-cased ticker changes nothing |
| Download.UpperExample | stocks.py:39 | "aapl" becomes "AAPL" and "Brk.b" becomes "BRK.B" |
| Download.RemoveChar | stocks.py:59 | `replace(c, "")` leaves no c behind and keeps the count of every other character |
| Download.RemoveCharConcat | stocks.py:59 | deleting a character distributes over concatenation, so the kept characters keep their order |
| Download.Clean | stocks.py:59 | `close.replace("$", "").replace(",", "")`: the result contains no '$' and no ',' and is no longer than the input |
| Download.CleanContents | stocks.py:59 | the cleaned close has no '$' and no ','; every other character occurs as often as in the input |
| Download.CleanIsFilter | stocks.py:59 | cleaning distributes over concatenation, deletes a single '$' or ',' and keeps any other single character. So it is exactly the input with those characters deleted, in order |
| Download.RemoveCharAbsent | stocks.py:59 | deleting a character that does not occur returns the string unchanged |
| Download.CleanKeepsPlain | stocks.py:59 | a close without '$' or ',' is left unchanged |
| Download.CleanIdempotent | stocks.py:59 | cleaning a cleaned close changes nothing |
| Download.CleanExample | stocks.py:59 | "$1,234.56" is cleaned to "1234.56" |
| Download.ClosePrice | stocks.py:59 | `float(entry["close"].replace("$", "").replace(",", ""))` for one row: KeyError exactly when "close" is missing, AttributeError exactly when it is null, ValueError exactly when `float` rejects the cleaned string; otherwise the price `float` gives for the cleaned string |
| Download.DollarClosePrice | stocks.py:59 | a close written as "$" followed by a plain number converts to what `float` makes of that number |
| Download.ParseRows | stocks.py:59 | succeeds exactly when every row converts, and then gives one price per row, in row order; otherwise it raises the error of the first row that fails |
| Download.ParseRowsOk | stocks.py:59 | rows that each convert to the given price parse to exactly that list |
| Download.DownloadData | stocks.py:39-69 | None after a request exception and None when "data" or "tradesTable" is absent (the presence test of stocks.py:57, `HasTradesTable`). Prices under the upper-cased ticker exactly when the whole shape is present and every row converts. Otherwise the exception Python raises: the first failing row's error, TypeError for a null "data", "tradesTable" or "rows", KeyError for a missing "rows" |
| Driver.Usable | stocks.py:107 | the test `stock_data and stock_data["prices"]`: the download returned a dictionary and its price list is not empty |
| Driver.UsableHasRecord | stocks.py:107-109 | for a download that returned prices, the test at line 107 passes exactly when `stock_prices` returns a record, so the `if stats:` at line 109 never skips a ticker |
| Driver.Collect | stocks.py:105-112 | the `results` list after the loop when no download raises: for each ticker in argument order, its record if its download is usable and nothing otherwise; never longer than the ticker list |
| Driver.RecordOf | stocks.py:107-110 | the record appended for a usable download is the statistics record of its prices, under the ticker as typed |
| Driver.CollectSnoc | stocks.py:105-112 | one more ticker appends its record when its download returned a non-empty price list, and nothing otherwise |
| Driver.CollectConcat | stocks.py:105-112 | collecting over two runs of tickers is collecting over each and concatenating: a skipped ticker does not stop later ones, and records keep argument order |
| Driver.CollectRecords | stocks.py:105-112 | there is one record per usable download, and each record is the statistics record of some usable download under its own ticker |
| Driver.CollectedRecordsAreSound | stocks.py:105-112 | every collected record has min ≤ median ≤ max and min ≤ avg ≤ max, and its ticker is one of the arguments |
| Driver.NoUsableNoRecords | stocks.py:105-115 | when no download is usable, no record is collected, so nothing is written |
| Driver.FailedRequestExample | stocks.py:105-115 | a single ticker whose request fails is skipped, with no record and no write |
| Driver.CollectSingle | stocks.py:105-110 | a single usable ticker collects exactly its own record |
| Driver.DownloadThreeCloses | stocks.py:39-60 | a trades table with closes "$" + x, where x converts to 10, 20 and 30, downloads as [10, 20, 30] under the upper-cased ticker |
| Driver.EndToEndExample | stocks.py:96-112 | that response yields exactly one record: min 10, max 30, mean 20, median 20, under the ticker as typed |
| Driver.Run | stocks.py:96-122 | fewer than two arguments give the usage exit. The run crashes exactly when some download raises, and then with the first raised error. Otherwise the results are `Collect` over all tickers, and the file is written exactly when the results are non-empty. The exit status (`ExitStatus`) is 0 exactly when at least one ticker is given and no download raises, and 1 otherwise |

## Left out

- HTTP is not modelled: the request (`requests.get`), its headers, the URL assembly and the five-year start date from `date.today()`. On 29 February, `today.replace(year=today.year - 5)` (stocks.py:41) raises `ValueError`. That line is outside the `try` at stocks.py:51, so every run with a ticker crashes on its first ticker. `Driver.Run` does not capture this crash, because it takes the downloads to depend only on the responses. Instead, each ticker's request is given as a `Response` value, supplied in argument order. A `RequestFailed` response covers every `RequestException`: a connection failure, a 4xx/5xx status, or, with requests 2.27 or later, a body that is not JSON. Earlier versions of requests raise a plain `ValueError` for such a body, which is not caught at stocks.py:66.
- `float(...)` is a parameter `parse : string -> Option<real>`. The model does not capture which strings Python accepts, IEEE rounding in `sum / len` and in the median's halving, NaN, or infinities.
- Download.DownloadData: JSON values of a type other than the one the code expects are not modelled, because `Field<T>` only distinguishes missing, `null` and a value of the expected type. Python then behaves as follows:
  - A top-level body, or a `"data"` member, that is a list or a string turns the `in` tests at stocks.py:57 into list membership or substring tests. Usually these are false, so `download_data` returns `None` (stocks.py:63-64). When the test happens to be true (a list holding the string `"data"`, or a string such as `"metadata"`), the subscript that follows raises `TypeError`.
  - A top-level body, or a `"data"` member, that is a number or a boolean makes `in` raise `TypeError`. So does a top-level `null` body (`"data" in None`), which `Response` cannot express.
  - A `"tradesTable"` that is not an object raises `TypeError` at `["rows"]`.
  - A `"rows"` that is a number, a boolean, or a non-empty object or string, or a row that is `null` or not an object, raises `TypeError`. A `"rows"` that is an empty object or an empty string gives an empty price list (stocks.py:59-60), and the ticker is skipped (stocks.py:107, 112).
  - A `"close"` that is a number, a boolean, a list or an object raises `AttributeError` at `.replace` (stocks.py:59). `Row(close: Field<string>)` cannot express such a close.
- Download.Upper: it upper-cases ASCII letters only. Python's `str.upper` also maps non-ASCII letters, and some of them to more than one character.
- The user-facing `print` messages (lines 63, 68, 84, 98, 112, 120 and 122) are not modelled.
- Writing `stocks.json` (`json.dump` and its `try/except`, lines 115-122) is reduced to the `writes` flag of `Exit.Finished`. A failed write is only reported by the source, so it does not change the outcome.
- `sys.argv` becomes the `argv` parameter of `Driver.Run`, and `sys.exit(1)` becomes the `Usage` outcome.
- The `if stats:` test at line 109 is always true for a non-empty price list, because the record is a non-empty dictionary. The model therefore appends whenever `StockPrices` returns a record.
