# Colour statistics script: a verified model of its computational core

The script `test.py` downloads an HTML table of the colours people wore, pulls
the colour names out of the table's second column, and reports the following:
- the most worn colour;
- a frequency table of the colours;
- the probability of "Red";
- the result of a binary search for "Blue";
- a random 4-bit number and its decimal value;
- the sum of the first 50 Fibonacci numbers.

This project models the sequential logic behind those outputs in Dafny and
proves what each piece promises. It has one module per pipeline stage:

- `StringOrder` (`string_order.dfy`): Python's `<` on `str`, which is
  code-point lexicographic order. It is proved to be a strict total order. The
  binary search depends on this.
- `BinarySearch` (`binary_search.dfy`): `iterative_search`, as a method with a
  `while` loop over `low`/`high`.
  - Soundness holds for any input: a returned index holds the target.
  - Completeness holds for sorted input: `-1` only when the target is absent.
  - The loop terminates on `high - low`.
- `Fibonacci` (`fibonacci.dfy`): `fibonacci_sum`, as a method with the
  `for` loop carrying `(a, b) = (F(k), F(k+1))`. It is proved to equal
  F(0) + … + F(n−1) and the closed form F(n+1) − 1.
- `ColorStatistics` (`color_statistics.dfy`): covers the following.
  - `Counter(colors)` as the frequency table, with its keys in insertion
    (first-occurrence) order.
  - `store_in_dict`.
  - The mode that `most_common(1)` returns.
  - The rank mapping `{color: i+1 for i, color in enumerate(set(colors))}` and
    the rank sequence.

  The iteration order of `set(colors)` is unspecified in Python. It is
  therefore a parameter: any duplicate-free enumeration of the distinct
  colours. Every property proved about ranks holds for all such orders.
- `Probability` (`red_probability.dfy`): `calculate_red_probability`, over
  exact reals.
- `StripText` (`strip.dfy`) and `SplitText` (`split.dfy`): `str.strip()` with
  Python's whitespace set, and `str.split(",")` together with its inverse
  `",".join`.
- `ColorExtraction` (`color_extraction.dfy`): the row loop of
  `fetch_and_parse_colors`, as a method that extends the colour list row by
  row. The parsed document is given as its rows, each row being the list of its
  `<td>` texts.
- `BinaryNumber` (`binary_number.dfy`): `int(bits, 2)` and `generate_binary`.
  The four draws of `random.randint(0, 1)` are passed in as parameters.
- `Wrappers` (`wrappers.dfy`): the `Option` type used for Python's `None`.

Parameters stand in for the script's I/O and randomness: the network fetch,
the HTML parse and the random draws.

Three behaviours of the code are easy to misread:
- Empty pieces are kept. The code (`test.py:36`) appends every stripped
  piece of a cell, so `"Red,,Blue"` yields three colours, the middle one
  empty.
- `fibonacci_sum(50)` adds F(0) through F(49) (the loop at `test.py:95-97`),
  so it is F(51) − 1 = 20365011073, not F(50) − 1.
- Ranks follow `set` iteration order, not sorted order. The model allows any
  order and proves only order-independent facts.

## Model

| member | source | states |
|---|---|---|
| `BinarySearch.IterativeSearch` | test.py:73-83 | A result other than −1 is an index of `arr` holding `target`, with no assumption on the order of `arr`. If `arr` is sorted and contains `target`, the result is not −1. An empty list gives −1. The loop terminates on `high - low`. |
| `StringOrder.Less` | test.py:79 | Python's string `<`: nothing is below the empty string, and a proper prefix is below each of its extensions. |
| `StringOrder.LessIrreflexive` | test.py:79 | No string is less than itself under Python's string comparison. |
| `StringOrder.LessTransitive` | test.py:79 | Python's string `<` is transitive. |
| `StringOrder.LessTotal` | test.py:79 | Any two strings are equal or one is less than the other. So when `arr[mid]` is neither equal to nor greater than the target, it is smaller. |
| `StringOrder.LessAsymmetric` | test.py:79 | `a < b` excludes `b < a`. |
| `StringOrder.LessEqLess` | test.py:79-82 | `a <= b < c` implies `a < c`. This carries "everything left of `mid` is below the target" when `low` moves up. |
| `StringOrder.LessLessEq` | test.py:79-80 | `a < b <= c` implies `a < c`. This carries "everything right of `mid` is above the target" when `high` moves down. |
| `Fibonacci.FibonacciSum` | test.py:92-98 | The loop returns F(0) + … + F(n−1), with F(0)=0 and F(1)=1, which equals F(n+1) − 1. So the results for n = 0, 1, 2 are 0, 0 and 1. |
| `Fibonacci.FibPrefixSumClosedForm` | test.py:92-98 | For every n, F(0) + … + F(n−1) = F(n+1) − 1. |
| `ColorStatistics.FrequencyTable` | test.py:68-70 | `dict(Counter(colors))` has exactly the colours that occur as its keys. |
| `ColorStatistics.FrequencyTableSpec` | test.py:68-70 | Each key of the table maps to its number of occurrences in `colors`. |
| `ColorStatistics.FrequencyTableTotal` | test.py:68-70 | The counts in the frequency table add up to `len(colors)`. |
| `ColorStatistics.FrequencyTableSize` | test.py:68-70 | The table has one key per distinct colour. |
| `ColorStatistics.Distinct` | test.py:46 | The counter's key list holds every colour that occurs, each exactly once, and nothing else. |
| `ColorStatistics.DistinctInFirstOccurrenceOrder` | test.py:46 | The counter's keys are ordered by the position of each colour's first occurrence. |
| `ColorStatistics.FirstMaximalIndex` | test.py:47 | `max` over the counter's items picks a largest count. Every earlier item has a strictly smaller count, so the first of equal maxima wins. |
| `ColorStatistics.Mode` | test.py:46-47 | The mode is `None` exactly when `colors` is empty. Otherwise it is a colour of `colors` whose count is at least every colour's count. |
| `ColorStatistics.ModeIsFirstOccurringMaximum` | test.py:46-47 | If several colours share the largest count, the mode is the one that occurs first in `colors`. |
| `ColorStatistics.ModeOfSortedIsSmallestMaximum` | test.py:106-108 | On the sorted list that `main` passes, the mode is the smallest tied colour in string order. |
| `ColorStatistics.RankMapping` | test.py:49 | The mapping's keys are the enumerated colours, with the i-th mapped to i+1 and every value in 1..K. |
| `ColorStatistics.DistinctIsEnumeration` | test.py:46-49 | The counter's key list is one valid enumeration of `set(colors)`. |
| `ColorStatistics.EnumerationLength` | test.py:49 | Every enumeration of `set(colors)` has K elements, where K is the number of distinct colours. |
| `ColorStatistics.RankMappingIsBijection` | test.py:49 | In every enumeration order, the keys are exactly the colours and the values are exactly 1..K. No two colours share a rank. |
| `ColorStatistics.Ranks` | test.py:50 | The rank list is as long as the colour list. |
| `ColorStatistics.RanksFaithful` | test.py:49-50 | In every enumeration order, each rank lies in 1..K. Two positions get the same rank exactly when they hold the same colour. |
| `ColorStatistics.RanksIndependentOfOrder` | test.py:49-50 | Two enumeration orders of `set(colors)` give rank lists in which the same pairs of positions are equal. |
| `Probability.CountOfFrequencyTable` | test.py:65 | `Counter(colors).get(key, 0)` is the number of occurrences of `key`, and 0 when `key` does not occur. |
| `Probability.RedCount` | test.py:64-65 | `Counter(colors).get("Red", 0)` is the number of entries exactly equal to "Red", and it is at most `len(colors)`. |
| `Probability.Fraction` | test.py:65 | A count of at most n, divided by n, lies in [0, 1]. It is 1 exactly when the count is n and 0 exactly when the count is 0. |
| `Probability.RedProbability` | test.py:63-65 | An empty input gives 0. Otherwise the result is the number of "Red" entries divided by `len(colors)`. Either way it lies in [0, 1]. |
| `Probability.RedProbabilityExtremes` | test.py:63-65 | The probability is 1 exactly when the input is non-empty and every entry is "Red". It is 0 exactly when no entry is "Red". |
| `StripText.Strip` | test.py:34 | `s.strip()` is never longer than `s`. |
| `StripText.StripSpec` | test.py:34-36 | Only whitespace is removed, and only from the two ends. The result neither starts nor ends with whitespace. |
| `StripText.StripEmptyIffAllSpace` | test.py:34-35 | The stripped text is empty exactly when the input is all whitespace. This is the blank-cell test. |
| `StripText.StripIdempotent` | test.py:34-36 | Stripping a stripped string changes nothing. |
| `StripText.StripKeepsOut` | test.py:36 | Stripping never introduces a character that was absent, commas included. |
| `SplitText.Split` | test.py:36 | `s.split(",")` always has at least one piece, even when `s` has no comma. |
| `SplitText.SplitSpec` | test.py:36 | `s.split(",")` has one more piece than `s` has commas, and no piece contains a comma. |
| `SplitText.JoinSplit` | test.py:36 | Joining the pieces of `s.split(",")` with commas gives `s` back. |
| `SplitText.SplitJoin` | test.py:36 | Splitting the comma-join of comma-free pieces gives the same pieces back. |
| `ColorExtraction.StripAll` | test.py:36 | Stripping every piece keeps the number of pieces. |
| `ColorExtraction.RowTokensCount` | test.py:32-36 | For `RowTokens`, the colours one row adds: a row with at most one cell, or with a blank second cell, contributes nothing. Any other row contributes one colour more than its stripped second cell has commas, empty pieces included. |
| `ColorExtraction.RowTokensClean` | test.py:34-36 | For `RowTokens`: every colour a row contributes is comma-free and has no surrounding whitespace. |
| `ColorExtraction.RowTokensAreStrippedFields` | test.py:34-36 | For `RowTokens`: a row's colours are, in order, the stripped comma-free fields whose comma-join is the stripped second cell. |
| `ColorExtraction.AllTokensSnoc` | test.py:29-36 | For `AllTokens`, the colours of all rows: one more row appends exactly its own colours at the end. |
| `ColorExtraction.AllTokensEmpty` | test.py:29-39 | No colours are extracted exactly when no row contributes any. |
| `ColorExtraction.AllTokensClean` | test.py:29-39 | No extracted colour contains a comma or has surrounding whitespace. |
| `ColorExtraction.AllTokensAppend` | test.py:29-36 | The colours of a row list split in two are the colours of the first part followed by those of the second. |
| `ColorExtraction.ShortRowContributesNothing` | test.py:32 | Inserting a row with at most one cell anywhere leaves the extracted colours unchanged. |
| `ColorExtraction.ExtractColors` | test.py:26-39 | The loop's list is every row's contribution, concatenated in row order. Each entry is comma-free and stripped. |
| `BinaryNumber.DigitsValue` | test.py:88 | The base-2 value of n binary digits is below 2^n. |
| `BinaryNumber.ParseBase2` | test.py:88 | `int(s, 2)` succeeds exactly on non-empty strings of binary digits, and its value is below 2^len(s). |
| `BinaryNumber.ToBase2Value` | test.py:87-88 | Writing v < 2^w as w binary digits and reading them back gives v. |
| `BinaryNumber.ParseToBase2` | test.py:87-88 | `int(s, 2)` recovers every value that fits the width from its digit string. |
| `BinaryNumber.DigitsToBase2` | test.py:87-88 | Rewriting a digit string's value at the same width gives the same string. |
| `BinaryNumber.ToBase2Parse` | test.py:87-88 | `int(s, 2)` loses nothing: re-encoding its value at `len(s)` digits gives `s`. |
| `BinaryNumber.DigitOf` | test.py:87 | `str(randint(0, 1))` is a binary digit, and it is "1" exactly for a draw of 1. |
| `BinaryNumber.GenerateBinary` | test.py:86-89 | The string has four characters, and `int(s, 2)` on it yields the returned number, which is below 16. The number is 8·d0 + 4·d1 + 2·d2 + d3 for the draws d0..d3. |

## Left out

- `get_google_drive_file` (test.py:9-16) is left out because it is network I/O. Its non-200 error is not modelled.
- BeautifulSoup parsing, `find_all("tr")`, `find_all("td")` and `.text` (test.py:23-34) are left out because they belong to a foreign library. The model starts from the list of rows, each a list of cell texts.
- The catch-all `except Exception` that prints and returns `[]` (test.py:40-42) is left out. It only guards the network and the parser, both of which are outside the model.
- The `except IndexError` around the second-cell access (test.py:37-38) is left out because it cannot fire: the access is guarded by `len(td_elements) > 1`.
- The mean, median and variance, and the mapping of mean and median back to a colour name (test.py:52-58), are left out. They are float results from `statistics`, and the `min` tie-break follows hash-ordered `dict` iteration.
- `random.seed` and `random.randint` (test.py:87, 102) are left out because they are a process-global pseudo-random generator. The draws are parameters of `BinaryNumber.GenerateBinary`.
- `main` (test.py:101-131) is left out because it only prints and formats, and so are the unused `pandas` import (test.py:6) and `list.sort`/`sorted` (test.py:106, 114). The model takes sortedness as a hypothesis where it matters: in `BinarySearch.IterativeSearch` and `ColorStatistics.ModeOfSortedIsSmallestMaximum`.
- `Probability.RedProbability` computes over exact reals, not IEEE doubles, so the rounding of Python's `/` is not modelled. On empty input Python returns the integer `0`, and the model returns `0.0`.
- `BinaryNumber.ParseBase2` returns `None` on some forms that `int(s, 2)` accepts: surrounding whitespace, a sign, underscores between digits, a `0b` prefix and non-ASCII decimal digits. `generate_binary` never produces these forms.
- `StripText.StripSpec` uses the code points for which `str.isspace()` holds in current Python. Later Unicode revisions could change that set.
- `StringOrder.Less` compares code points, as Python 3 does. It models no locale-aware collation, and none is used.
