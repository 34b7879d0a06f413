# bookbot in Dafny

bookbot reads a book and reports on it:
- a header line naming the file;
- the number of whitespace-separated words;
- for each letter `a`–`z` in the lower-cased text, a line giving how often it occurs.

The letter lines come most frequent first.

This project models everything between reading the file and printing. It proves that model against specifications of what each step means.

- `Chars` (`chars.dfy`): per-character `str.lower()` and the `ascii_lowercase` constant. It also defines the whitespace test that `str.split()` uses.
- `Words` (`words.dfy`): `book.split()` and its length, the word count. The words are proved to be exactly the maximal runs of non-whitespace characters, in order. The count is proved equal to the number of such runs.
- `Dicts` (`dicts.dfy`): Python's insertion-ordered `dict` from characters to counts, as a key sequence plus a `map`. It covers `items()` and `dict(pairs)`.
- `Frequencies` (`frequencies.dfy`): `count_characters`. This is a method whose loop updates the key order and the count map one character at a time, as the defaultdict does. It is proved equal to a specification built from the multiset of the lower-cased text and the first-occurrence order of its characters.
- `Sorting` (`sorting.dfy`): `sorted(items, key=count, reverse=True)`, modelled as an insertion sort. It is proved to be:
  - a permutation;
  - non-increasing in count;
  - stable.
  
  A stable descending order is proved unique, so this sort gives exactly what Python's sort gives.
- `Seqs` (`seqs.dfy`): filtering and pairwise relations on sequences. Both the sort and the report use them.
- `Report` (`report.dfy`): the body of `main`. It returns the report lines instead of logging and printing them: the header, the word count, then one line per letter. The closing `for` loop of `main` is its own method, `Report.EmitLetterLines`. `Report.ReportBook` appends that method's lines after the two header lines.

Two behaviours of the code are easy to misread:
- **Tie order.** It might seem that the order of equally frequent letters is arbitrary, and that the table's insertion order does not matter. Neither is true. A `dict` remembers insertion order, so the table's keys follow first occurrence in the lower-cased text. `sorted` is stable, also with `reverse=True`. So ties are reported in order of first occurrence, and `Report.ReportEntriesCorrect` proves this.
- **Output channel.** The header and word-count lines go through `logging` and the letter lines through `print`. Here all lines form one returned sequence.

## Model

| member | source | states |
|---|---|---|
| `Chars.Lower` | main.py:44 | The result is never an upper-case ASCII letter. `A`–`Z` move up by 32 code points to `a`–`z`. Every other character is unchanged. |
| `Chars.LowerText` | main.py:44 | Lower-casing keeps the length. Each character is lowered on its own. |
| `Chars.LowerTextIdempotent` | main.py:44 | Lower-casing a lower-cased text changes nothing. |
| `Chars.LowerTextHasNoUpper` | main.py:44 | No upper-case ASCII letter occurs in a lower-cased text. |
| `Chars.IsSpace` | main.py:20 | The separators of `split()` with no argument: the characters for which `str.isspace()` holds. It has no contract of its own. It is the definition that `Words.Split` and the lemmas about it build on. |
| `Chars.AsciiLowercaseIsRange` | main.py:30 | `c in ascii_lowercase` holds for a single character exactly when it lies in `a`–`z`. |
| `Words.Split` | main.py:20 | Every word `split()` returns is non-empty and contains no whitespace. |
| `Words.SplitIsRuns` | main.py:20 | `split()` returns exactly the maximal non-whitespace runs of the text, one per position where a word begins, in order. This fixes where every word starts and ends. |
| `Words.WordCount` | main.py:20-23 | `len(book.split())`. It has no contract of its own. `Words.WordCountIsRunCount` and `Words.WordCountZero` specify it. |
| `Words.WordCountIsRunCount` | main.py:20 | `len(split())` equals the number of positions where a maximal non-whitespace run begins. |
| `Words.WordCountZero` | main.py:20 | The word count is 0 exactly when the text is empty or all whitespace. |
| `Words.SplitKeepsText` | main.py:20 | Joining the words gives every non-whitespace character of the text, in order. |
| `Dicts.Dict.Items` | main.py:25 | `items()`: one pair per key, in key order. It has no contract of its own. `Report.ItemsOfCounts` and `Dicts.FromItemsRoundTrip` specify it. |
| `Dicts.FromItems` | main.py:24-28 | `dict(pairs)` is well formed: no key is listed twice, and the listed keys are exactly the stored ones. Its keys are exactly the characters of the pairs. Key order and values are stated by `Dicts.FromItemsRoundTrip`. |
| `Dicts.FromItemsRoundTrip` | main.py:24-28 | Rebuilding a dict from pairs with distinct keys gives back the same pairs, in the same order. |
| `Frequencies.FirstOccurrences` | main.py:45-46 | The table's key order lists each character of the text once, and no other character. |
| `Frequencies.FirstIndex` | main.py:45-46 | Gives the position of the first occurrence of a character, or the length when it is absent. |
| `Frequencies.CharacterCounts` | main.py:33-47 | The table `count_characters` returns. It has no contract of its own. `Frequencies.CountCharacters` computes it with the loop, and `Frequencies.CountsAreOccurrences` and `Frequencies.KeysInFirstOccurrenceOrder` state its contents. |
| `Frequencies.CountCharacters` | main.py:33-47 | The loop builds exactly the specified table. Its keys are the characters of the lower-cased text. Each value is that character's number of occurrences, at least 1. |
| `Frequencies.CountsSumToLength` | main.py:44-46 | The counts sum to the length of the lower-cased text, which equals the length of the text. |
| `Frequencies.CountsAreOccurrences` | main.py:43-47 | A character is a key exactly when it occurs in the lower-cased text. Its value is its number of occurrences, at least 1. |
| `Frequencies.CountsOfEmptyText` | main.py:43-47 | The empty text gives the empty table. |
| `Frequencies.CountsHaveNoUpperKey` | main.py:44 | No upper-case ASCII letter is ever a key. |
| `Frequencies.CountsIgnoreCase` | main.py:44 | Counting the lower-cased text gives the same table as counting the text. |
| `Frequencies.KeysInFirstOccurrenceOrder` | main.py:45-46 | Keys come in strictly increasing order of first occurrence in the lower-cased text. |
| `Sorting.SortByCountDesc` | main.py:24-28 | The sorted entries are a permutation of the input. Their counts never increase from left to right. |
| `Sorting.SortIsStable` | main.py:24-28 | For every count, the entries with that count keep their order from the input. |
| `Sorting.StableDescendingOrderIsUnique` | main.py:24-28 | Two count-descending sequences that agree on the order within every count are equal. |
| `Sorting.SortIsTheStableSort` | main.py:24-28 | Any stable count-descending reordering of the input, such as Python's, equals the modelled sort. |
| `Sorting.SortKeepsTieOrder` | main.py:24-28 | An order that held between the input entries still holds between sorted entries of equal count. |
| `Sorting.SortKeepsKeysDistinct` | main.py:24-28 | Sorting items with distinct characters keeps them distinct. |
| `Report.IsReported` | main.py:30 | `c in ascii_lowercase` for an entry's character. It has no contract of its own. `Chars.AsciiLowercaseIsRange` shows that it means `a`–`z`. |
| `Report.ReportLines` | main.py:19-31 | Everything `main` outputs, in order. It has no contract of its own. `Report.ReportLinesCorrect` states its shape, and `Report.ReportBook` computes it. |
| `Report.ItemsOfCounts` | main.py:43-47 | The table's items have distinct characters in first-occurrence order. They are exactly the pairs `(c, occurrences of c)` for `c` in the lower-cased text. |
| `Report.ReportEntriesCorrect` | main.py:24-31 | The reported entries are exactly the letters `a`–`z` of the lower-cased text with their counts, each once. Counts never increase, and equal counts come in order of first occurrence. |
| `Report.ReportOfEntries` | main.py:29-31 | The letter lines carry the characters, counts and order of the entries they are made from. |
| `Report.ReportLinesCorrect` | main.py:20-31 | The report starts with the header, then the number of maximal non-whitespace runs. Only letter lines follow, one per letter of the lower-cased text with its count. They are ordered by count, descending, with ties in order of first occurrence. |
| `Report.EmptyBookReport` | main.py:19-31 | An empty book gives the header, "0 words", and no letter line. |
| `Report.EmitLetterLines` | main.py:29-31 | The loop emits a line `(c, n)` exactly when `c` is a key in `ascii_lowercase` with value `n`, in the dict's key order. |
| `Report.ReportBook` | main.py:19-31 | `main` emits the specified report. It starts with the header and the run count. It has one line per letter of the lower-cased text with its count. Letters are distinct and counts descending, with ties in order of first occurrence. |

## Left out

- `read_book` (main.py:49-60) opens and decodes a file, which is I/O. The model takes the book's text as a parameter. Errors from a missing or unreadable file are therefore not modelled.
- `logging.basicConfig`, `logging.info` and `print` (main.py:7, 22-23, 31) are output plumbing. The lines are returned as a sequence of `Line` values instead.
- The `__main__` block with its hard-coded path (main.py:62-64) is left out.
- The wording of the f-strings is left out. A `Line` keeps only what each line carries: the file name, the word count, or a character and its count.
- `Chars.Lower`: models only the ASCII case mapping of `str.lower()`. Python also lowers non-ASCII characters, for example the Kelvin sign U+212A to `k`, which would then count as a `k`. Some characters even lower to two, for example U+0130, so the lower-cased text can be longer than the book.
- `Chars.IsSpace` lists the characters for which Python's `str.isspace()` holds, as `str.split()` uses them. A different Unicode database version could change this set.
- Python strings may hold lone surrogate code points. Dafny's `char` cannot, so such texts are not modelled.
- `Dicts.FromItems`: does not state as a property that a repeated key takes the later value. The function does compute that, and the program never passes a repeated key.
