# AstroPHSearcher, modelled in Dafny

AstroPHSearcher is a one-file scraper for the astro-ph listing of arXiv.
`recursive_page_scrape` asks for the search-result page that starts at
offset `url_num`. It keeps `(title, pdf link)` for each result entry that
has exactly one anchor whose text contains `"pdf"`. It then asks for the
page after it: the offset grows by the number of entries on the page,
skipped entries included. It stops at the first page with no entries. Any
exception ends the run, and the run returns what has been gathered so far.
The script then builds a numbered index of the articles, and it derives a
file name per article from the article's title.

The project has four modules:

- `Text` (Text.dfy): the Python string operations the code uses. These are
  `str.strip` with Python's whitespace set, the substring test `in`,
  one-character `str.replace`, and a count.
- `Collector` (Collector.dfy): the scraper. The replies to successive page
  requests are given as a sequence of `Response`s. Each reply is a failure
  or a page of entries. A request past the end of the sequence gets an
  empty page. An entry has its title text, absent when the entry has no
  title paragraph, and its anchors, each with an optional `href`.
  - `RecursivePageScrape` is the imperative model. It loops once per page
    request and accumulates into a local sequence. It returns the list and
    the offsets it requested.
  - `Scrape` is the function the method is proved against.
  - `ScanArticles` is the inner `for` loop, specified by `ScanPage`.
  - `ScrapeCharacterized` proves that every run agrees with a page-by-page
    reference description (`Describes`). That description is built from
    `Gathered`, `PartialAt`, `Offsets` and `Consumed`.
- `SavedIndex` (SavedIndex.dfy): the index of line 78, and the function
  that reads it back.
- `Filenames` (Filenames.dfy): the file-name expression of line 93. The
  `re.sub` step follows Python's `re` semantics: leftmost, non-overlapping
  matches, a greedy `.*` that does not cross a newline, and backtracking.

A title such as `$\alpha$ Centauri Survey` has no `{`, so the pattern of
line 93 does not fire on it. The code only turns the spaces into `_` and
removes the `$`s. The name is `\alpha_Centauri_Survey.pdf`, and the
backslash command stays (`Filenames.SubWithoutBrace`).

## Model

| member | source | states |
|---|---|---|
| `Text.Strip` | AstroPHSearcher.py:44 | `str.strip`; its properties are stated by `Text.StripKeepsInfix`. |
| `Text.StripKeepsInfix` | AstroPHSearcher.py:44 | `strip` returns one contiguous piece of its argument. Only whitespace is removed on either side, and the result has no whitespace at either end. |
| `Text.Contains` | AstroPHSearcher.py:45 | The substring test `in`; its meaning is stated by `Text.ContainsIffOccurs`. |
| `Text.ContainsIffOccurs` | AstroPHSearcher.py:45 | `"pdf" in text` holds exactly when `"pdf"` occurs in the text at some index. |
| `Text.ReplaceChar` | AstroPHSearcher.py:93 | `replace(" ", "_")` keeps the length and changes exactly the spaces. |
| `Text.RemoveChar` | AstroPHSearcher.py:93 | `replace("$", "")` leaves no `$`, and the result is shorter by the number of `$` in the input. |
| `Text.RemoveCharOne` | AstroPHSearcher.py:93 | On one character, `replace("$", "")` deletes it when it is `$` and keeps it otherwise. |
| `Text.RemoveCharConcat` | AstroPHSearcher.py:93 | `replace("$", "")` works piece by piece: on a concatenation it is the concatenation of the two results. With `Text.RemoveCharOne`, the result is the input's non-`$` characters in their original order. |
| `Text.ReplaceRemoveCommute` | AstroPHSearcher.py:93 | Replacing spaces and then deleting `$` gives the same string as the other order. |
| `Collector.PdfLinks` | AstroPHSearcher.py:45 | The href comprehension over the pdf anchors; its meaning is stated by `Collector.PdfLinksMeaning`. |
| `Collector.PdfLinksMeaning` | AstroPHSearcher.py:45 | The href comprehension fails (KeyError) exactly when some pdf anchor has no `href`. Otherwise it is empty exactly when there is no pdf anchor. It has length 1 exactly when there is one and only one pdf anchor, and it is then that anchor's `href`. |
| `Collector.EntryStep` | AstroPHSearcher.py:44-52 | One pass of the inner loop body; its meaning is stated by `Collector.EntryStepMeaning`. |
| `Collector.EntryStepMeaning` | AstroPHSearcher.py:44-52 | An entry raises exactly when its title is missing or a pdf anchor has no `href`. It is kept exactly when it has a title and a single pdf anchor with an `href`. The kept article is the stripped title with that `href`. |
| `Collector.FirstRaiseMeaning` | AstroPHSearcher.py:42-52 | `FirstRaise` is the index of the first entry that raises: no entry before it raises. |
| `Collector.ScanPage` | AstroPHSearcher.py:42-52 | The inner loop over one page, as a function; its meaning is stated by `Collector.ScanPageMeaning`. |
| `Collector.ScanPageMeaning` | AstroPHSearcher.py:42-52 | One page's loop appends, in page order, exactly the kept entries before the first entry that raises. It reports whether an entry raised. |
| `Collector.ScanArticles` | AstroPHSearcher.py:42-52 | The `for` loop over a page's entries computes what `ScanPage` specifies. |
| `Collector.Scrape` | AstroPHSearcher.py:22-67 | A run makes at least one request and at most one more than the replies given. The first request is at the starting offset. |
| `Collector.StopPage` | AstroPHSearcher.py:39 | The page a run stops at is within the replies given, or just past them. |
| `Collector.StopPageMeaning` | AstroPHSearcher.py:36-39 | The run stops at the first page that is not good (fetched, non-empty, no entry raising). Every earlier page is good. |
| `Collector.Requested` | AstroPHSearcher.py:57-58 | The good pages before the stop give one more request than there are pages. |
| `Collector.RequestedSplits` | AstroPHSearcher.py:57-58 | Those requests are each good page's offset, then the starting offset plus every entry seen on them. |
| `Collector.RequestedStep` | AstroPHSearcher.py:57-58 | Each requested offset is past the previous one by the number of entries of the page fetched there. |
| `Collector.ScrapePastGoodPage` | AstroPHSearcher.py:57-63 | After a good page, the run is that request followed by the recursive call. That call starts at the offset plus the page's entry count, with the page's kept entries appended. |
| `Collector.ScrapeAtStopPage` | AstroPHSearcher.py:39 | A missing, empty or failed page, or a page with an entry that raises, is the run's last request. The run returns the accumulator plus that page's kept entries before the raise. |
| `Collector.ScrapeCharacterized` | AstroPHSearcher.py:22-67 | Every run agrees with the page-by-page description. Its result is the accumulator, then the kept entries of the good pages in order, then the partial page. It requests each good page at its offset, then one more request after their last entry. It counts as exhausted exactly when the stop page is empty or missing. |
| `Collector.ScrapeExtends` | AstroPHSearcher.py:42-63 | Monotone growth: a run only appends to its accumulator, so the result extends the list the run started from. |
| `Collector.ScrapeComplete` | AstroPHSearcher.py:36-58 | Without a failure, the result is the in-order concatenation of the kept entries of every page up to the first empty page. The last request's offset counts every entry seen, skipped or kept. With no good page, the accumulator comes back unchanged after a single request. |
| `Collector.ScrapeFetchFailure` | AstroPHSearcher.py:28-30 | A failed request returns what the earlier pages gave, without raising. That request is the last one. |
| `Collector.ScrapeEntryFailure` | AstroPHSearcher.py:64-67 | An entry that raises returns the earlier pages' kept entries plus the kept entries of its own page appended before it. |
| `Collector.RequestsAdvance` | AstroPHSearcher.py:58 | Each request after the first is at the previous offset plus the number of entries on the previous page, skipped ones included. |
| `Collector.RecursivePageScrape` | AstroPHSearcher.py:22-67 | The loop returns exactly the list and the requested offsets that `Scrape` specifies. A top-level call (`recursed` false) starts from the empty list, whatever `articles_list` is. |
| `SavedIndex.Index` | AstroPHSearcher.py:78 | The index has one item per article. Item `i` has the single key `i`. Its record has exactly the keys `title` and `link`, holding article `i`'s title and link. |
| `SavedIndex.Unindex` | AstroPHSearcher.py:78 | Reads an index back into articles; its properties are stated by `SavedIndex.UnindexIndex`, `SavedIndex.IndexUnindex` and `SavedIndex.UnindexShape`. |
| `SavedIndex.UnindexIndex` | AstroPHSearcher.py:78 | Reading the index back gives the article list it was built from. |
| `SavedIndex.IndexUnindex` | AstroPHSearcher.py:78 | Any list that reads back as an article list is the index of that list. |
| `SavedIndex.UnindexShape` | AstroPHSearcher.py:78 | A list that reads back has one item per article. Item `i` is the single-key map from `n + i` to article `i`'s record. |
| `Filenames.CloseAt` | AstroPHSearcher.py:93 | `{([^}]*)}\$` matches from a `{` exactly when the first `}` after it is followed by `$`. That `}` is the only place the group can close. |
| `Filenames.GreedyFrom` | AstroPHSearcher.py:93 | Greedy backtracking of `.*` finds the rightmost `{` at which the rest of the pattern matches, whenever there is one. |
| `Filenames.MatchAt` | AstroPHSearcher.py:93 | A match found at `p` is a match of the pattern: `$\`, then a command part, then `{group}$`. |
| `Filenames.MatchAtIsGreedy` | AstroPHSearcher.py:93 | Whenever the pattern can match at `p`, a match is found. Its `{` is the rightmost possible one. Under the letters-only reading the match is unique. |
| `Filenames.Sub` | AstroPHSearcher.py:93 | `re.sub` of the markup pattern over a whole title; its properties are stated by `Filenames.SubFrom`, `Filenames.SubWithoutBrace` and `Filenames.SubLettersKeepsCount`. |
| `Filenames.SubFrom` | AstroPHSearcher.py:93 | `re.sub` with the group as replacement never lengthens the text. |
| `Filenames.SubWithoutBrace` | AstroPHSearcher.py:93 | A title with no `{` is left unchanged, `\alpha` included. |
| `Filenames.SubLettersKeepsCount` | AstroPHSearcher.py:93 | Under the letters-only reading, the markup step keeps the count of every character other than letters, `$`, `\`, `{` and `}`, spaces and underscores included. |
| `Filenames.Sanitize` | AstroPHSearcher.py:93 | The `replace` calls and the `.pdf` suffix; their effect is stated by `Filenames.SanitizeShape`. |
| `Filenames.SanitizeShape` | AstroPHSearcher.py:93 | The name ends in `.pdf`. The part before it is the input with `$` removed and spaces turned into `_`, so it has no space and no `$`. It is shorter by the number of `$`, and its `_` count is the input's `_` count plus its space count. It holds of whatever the markup step returns, so of the name as written too. |
| `Filenames.NewTitleAsWritten` | AstroPHSearcher.py:93 | The file-name expression as written; its shape is stated by `Filenames.NewTitleAsWrittenShape`. |
| `Filenames.NewTitleAsWrittenShape` | AstroPHSearcher.py:93 | The file name as written ends in `.pdf`. The part before it is the markup step's result with `$` removed and spaces turned into `_`, so it has no space and no `$`, and it is no longer than the title. |
| `Filenames.NewTitle` | AstroPHSearcher.py:93 | The corrected file-name expression; its shape is stated by `Filenames.NewTitleShape`. |
| `Filenames.NewTitleShape` | AstroPHSearcher.py:93 | The corrected file name ends in `.pdf`. The part before it has no space and no `$`, is no longer than the title, and has one `_` for each `_` and each space of the title. |
| `Filenames.GreedyMergesSpans` | AstroPHSearcher.py:93 | As written, the title `$\a{A}$ $\b{B}$` becomes `B`, named `B.pdf`. The first span and the space are lost. |
| `Filenames.LettersKeepsSpans` | AstroPHSearcher.py:93 | With the letters-only command name, the same title becomes `A B`, named `A_B.pdf`. |

## Left out

- HTTP: `requests.get` (lines 30 and 96) and the User-Agent header are not modelled. The reply to each page request is a given `Response`, and a failed request is the `Failed` alternative.
- BeautifulSoup (lines 33, 36 and 44-45) is not modelled. An entry is given directly as its title text and its anchors' texts and `href`s. Any failure to parse a page is a `Failed` reply.
- The `print` logging and the `do_outputs` flag (lines 55 and 66) do not affect the result, so they are not modelled.
- `time.sleep` (line 56) is not modelled. The model takes `interval_timer >= 0`, as the call on line 72 passes 0. A negative value would make `time.sleep` raise `ValueError`, which lines 64-67 catch, so the run would end after its first non-empty page.
- `base_url` and `already_failed` do not affect the result, so they are not parameters of the model.
- Collector.RecursivePageScrape: takes `articles_list` by value and returns a new sequence. In the source, the list is updated in place. With `recursed=True` line 52 appends to the caller's own list, and that same object is returned. A call with `recursed=True` that omits `articles_list` appends to the shared default list of line 23, so a second such call starts with the first call's results. A call with `recursed` false is not affected, because line 25 rebinds the name to a fresh list. In the model the caller's list is never changed, and this aliasing is not captured.
- Python's recursion limit is not modelled. After about a thousand pages, `RecursionError` would be caught by the same `except` clause and end the run early.
- Which exception ended a run is not reported. The source returns the list either way, and the model's `Status` only distinguishes an exhausted run from an aborted one.
- Writing the index with `json.dump` (line 83) is not modelled. JSON turns the integer keys into strings, and the model keeps them as integers.
- `os.makedirs` (line 88), the download loop (lines 91-100) and the file writes are pure I/O, and they are not modelled. So are name collisions between articles whose titles give the same file name.
- Text is a sequence of Unicode scalar values. `str.strip` uses Python's whitespace set, and no normalisation is modelled.
- Collector.Scrape: its own contract only bounds the requests. Its content is stated by `Collector.ScrapeCharacterized` and the lemmas after it.
- Filenames.SubFrom: its own contract only bounds the length. The markup step is characterised by `Filenames.MatchAtIsGreedy`, `Filenames.SubWithoutBrace` and `Filenames.SubLettersKeepsCount`.

## Findings

| source | as written | input that shows it | evidently intended | confidence | as-written member | corrected member |
|---|---|---|---|---|---|---|
| AstroPHSearcher.py:93 | The pattern `\$\\.*{([^}]*)}\$` uses a greedy `.*`. A match starting at the first `$\` runs on to the last usable `{` on the line, so two markup spans in one title become one match. Only the last group survives, and the text between the spans is lost. | `$\a{A}$ $\b{B}$` gives `B.pdf` | Each TeX span `$\cmd{X}$` is replaced by its `X`, and the rest of the title is kept: `A_B.pdf` | not executed | `Filenames.GreedyMergesSpans` | `Filenames.LettersKeepsSpans` |
