# Job crawler: pagination, duplicate suppression and archive write

This project models the crawl orchestrator of a job-listing scraper
(`backend/main.py`). One session has three steps:

1. It loads the `(title, date)` identity keys of every posting already in the
   CSV archive.
2. It requests listing pages 1, 2, ... until one page signals "no results" or
   yields no postings.
3. It appends to the archive the collected postings whose key was not
   already known. If it appended anything, it rebuilds the JSON mirror from
   the whole archive.

The model is in five modules:

- `Wrappers` has `Option` and `Result`.
- `Csv` models the parts of Python's `csv.DictWriter` and `csv.DictReader`
  that the archive uses. A file is `Missing` or `Present(lines)`, and each
  line is a sequence of cells. The writer emits one cell per fieldname, with
  `""` for a missing key. With `extrasaction="raise"` it stops at the first
  dict that has keys outside the fieldnames. The reader zips every
  non-blank line after the header with the header.
- `Venues` has the posting record (five string fields) and the list of
  required keys.
- `Archive` models `load_existing_jobs`, `seen_titles`, `append_new_jobs`
  and `update_json_file` as functions from file contents to file contents.
- `Crawl` models `crawl_jobs`:
  - `FetchPages` is the `while True` loop, written as an imperative loop.
  - `CrawlJobs` is the whole session. It is proved equal to the
    declarative `CrawlSpec`, and the session properties are lemmas about
    `CrawlSpec`.

Inputs from outside the process become parameters:

- The page fetcher is the sequence of its answers. `pages[i]` is the
  `(jobs, no_results_found)` pair returned for page `i + 1`.
- The CSV file and the JSON file are values passed in and returned.

The source has no page bound. When no page in the given sequence ends the
crawl, the session's outcome is `Unfinished`: every given page was accepted
and the loop would request another. Termination and the number of fetches
are stated relative to the first stopping page.

Three points about what the code does:

- A page that yields no postings ends the crawl
  (`backend/main.py:103-105`); it is not skipped.
- The loop itself does not filter by already-seen titles. `seen_titles` is
  passed to `fetch_and_process_page`, which is not part of this model.
- The archive write drops postings whose full `(title, date)` key is
  already known, not postings whose title alone is known.

The append step is modelled twice:

- `Archive.AppendNewJobsAsWritten` models `append_new_jobs` as written.
- `Archive.AppendNewJobs` models the corrected write of the Findings
  section below: each posting is written without its `url` key.

The crawl session (`Crawl.CrawlJobs`, `Crawl.CrawlSpec`) and the lemmas about
it use the corrected write. As written, step 3 raises ValueError on the
first new posting (see Findings). That ends `crawl_jobs` before the JSON
mirror is rebuilt.

## Model

| member | source | states |
|---|---|---|
| `Csv.WriteRows` | backend/main.py:48-51 | `writerows` emits one line per dict, in order. Each line holds the value of each fieldname, or `""` when the dict lacks it. With `extrasaction` "raise", every dict written has no keys outside the fieldnames. Writing stops at the first dict that has such keys, and the error names exactly those keys. With "ignore", nothing is refused. |
| `Csv.WriteRowsCompletes` | backend/main.py:48-51 | `writerows` writes every dict without raising exactly when extra keys are ignored or no dict has any. |
| `Csv.ZipRow` | backend/main.py:29-30 | A row built by DictReader from a header and a line has only header names as keys. |
| `Csv.ZipRowCells` | backend/main.py:29-30 | Under a header without repeated names, each cell of a line is the row's value under its own column name, for as many cells as the line has. |
| `Csv.DataRows` | backend/main.py:63-65 | DictReader yields at most one row per line below the header. |
| `Csv.ReadRows` | backend/main.py:63-65 | `list(csv.DictReader(f))` yields fewer rows than the file has lines, because the first line is the header. |
| `Csv.ReadRowsCount` | backend/main.py:63-70 | A header followed by n non-blank lines reads back as exactly n rows: the total that `update_json_file` reports. |
| `Csv.ZipWrittenLine` | backend/main.py:48-51 | Reading one written line back under the same header gives the dict restricted to the columns, with `""` where it lacked one. |
| `Csv.DataRowsAppend` | backend/main.py:63-65 | DictReader yields the rows of two consecutive stretches of lines one after the other, so appended lines never disturb the rows already read. |
| `Csv.ReadBackWritten` | backend/main.py:46-51 | Round trip: lines written by DictWriter under a non-empty header are read back by DictReader as one column-restricted dict per written dict, in order. |
| `Venues.AsDict` | backend/models/venue.py:4-11 | A posting's dict has exactly the required keys listed in `backend/config.py`, `url` included. |
| `Archive.JobKeyOfDict` | backend/main.py:39 | `(job["title"], job.get("date", ""))` on a posting's dict is `(title, date)`. The date is always present, so the default `""` never applies. |
| `Archive.KeysOf` | backend/main.py:39 | The identity keys of a list of postings are exactly the keys `(title, date)` of its members. |
| `Archive.Project` | backend/main.py:47 | The row stored for a posting has exactly the columns title, category, date and location, each with the posting's value. It has no `url`. |
| `Archive.PersistedColumns` | backend/main.py:47 | The archive's columns are the required keys minus `url`, and `url` is the one key of every posting dict outside them. |
| `Archive.StoredRowIsProjection` | backend/main.py:47-51 | What DictReader reads back of a posting written under the archive's columns is exactly that posting's projection. |
| `Archive.LoadExistingJobs` | backend/main.py:23-30 | A missing archive gives the empty key set. Otherwise loading succeeds exactly when every row has a `title` (else KeyError). On success, a key is loaded exactly when some archived row has that `(title, date-or-"")` key. |
| `Archive.RowKeysMembers` | backend/main.py:30 | Every archived row with a title contributes exactly its own identity key and nothing else. |
| `Archive.SeenTitles` | backend/main.py:81 | A title is seen exactly when some loaded key has it as its first component. |
| `Archive.NewJobs` | backend/main.py:39 | The filter returns at most as many postings as it was given. Each one comes from the input and has a key not in `existing_jobs`. |
| `Archive.NewJobsSplit` | backend/main.py:39 | Filtering a concatenation is filtering each part and concatenating the results, so input order is kept. |
| `Archive.NewJobsCount` | backend/main.py:39 | A posting whose key is unknown is returned exactly as often as it occurs in the input. One whose key is known is never returned. There is no in-batch dedup. |
| `Archive.NewJobsEmpty` | backend/main.py:39-43 | The filter returns nothing exactly when every posting's key is already known. |
| `Archive.NewJobsKeepsUnknown` | backend/main.py:39 | When no posting's key is known, the filter returns the input unchanged. |
| `Archive.NewJobsIdempotent` | backend/main.py:39 | Filtering the same postings again, with the returned keys added to the known ones, returns nothing. |
| `Archive.Extend` | backend/main.py:45-51 | Appending writes the header first only into a missing file. An existing file keeps all its lines as a prefix, and the file ends with exactly the written lines. |
| `Archive.AppendNewJobsAsWritten` | backend/main.py:33-54 | As written: with nothing new, `[]` is returned and the archive is untouched. A completed write returns exactly the filtered postings. A raise happens only when something was new, and leaves a file in place. `Archive.AsWrittenAppendStoresNoJob` pins that file. |
| `Archive.AppendNewJobs` | backend/main.py:33-54 | `append_new_jobs` returns the filtered postings. If it returns nothing, the archive is untouched. Otherwise the archive exists, starts with the header when it was new, keeps its old lines as a prefix, and ends with exactly the lines DictWriter writes for the returned postings, one per posting (corrected write). |
| `Archive.AppendNothingNew` | backend/main.py:35-43 | `[]` is returned, with the archive unchanged, exactly when the batch is empty or every key in it is already known. |
| `Archive.StoredRowKeepsKey` | backend/main.py:30 | A stored row yields the same identity key as the posting it came from. |
| `Archive.StoredLinesReadBack` | backend/main.py:47-51 | The lines written for some postings read back, under the archive's header, as their projections, in order. |
| `Archive.AppendReadBack` | backend/main.py:45-51 | After an append, the archive is still headed by its columns. Its rows are the old rows followed by the returned postings projected onto title, category, date and location. |
| `Archive.RowKeysAppend` | backend/main.py:30 | The key set of two stretches of rows is the union of their key sets. |
| `Archive.RowKeysProjected` | backend/main.py:30 | The stored rows of some postings all have a title, and their key set is exactly those postings' keys. |
| `Archive.AppendGrowsKeys` | backend/main.py:23-54 | Loading the archive after an append gives exactly the keys loaded before plus the keys of the returned postings. The key set never shrinks. |
| `Archive.MirrorIsSnapshot` | backend/main.py:57-68 | After an append that returned postings, the rebuilt mirror is every archived row, old and new. It does not depend on what the mirror held before. |
| `Archive.UpdateJsonFile` | backend/main.py:57-68 | A missing CSV leaves the mirror as it was. Otherwise the mirror becomes every row DictReader yields for the CSV, whatever the mirror held before. |
| `Archive.AsWrittenAppendStoresNoJob` | backend/main.py:45-51 | As written, when any posting is new, `writerows` raises ValueError for the extra key `url`. The file left behind is exactly the old file, with the header added only when the file was missing, and no posting row. |
| `Crawl.FirstStop` | backend/main.py:99-105 | A page stops the crawl when it signals no results or has no postings. Returns the index of the first such page, and every earlier page does neither. Returns none when no given page stops. |
| `Crawl.FirstStopUnique` | backend/main.py:99-105 | The page that stops while no earlier page stops is the first stopping page. |
| `Crawl.FetchPages` | backend/main.py:83-109 | The loop requests pages 1..K, where page K is the first stopping page. It keeps the postings of pages 1..K-1 in page order, not those of page K, and sleeps once per accepted page. Without a stopping page, it requests and accepts every given page. |
| `Crawl.CrawlJobs` | backend/main.py:73-116 | The session loads the keys and stops without fetching if loading fails. It runs the loop, appends only when something was collected, and rebuilds the mirror only when the append returned postings, exactly as `CrawlSpec` states. |
| `Crawl.Save` | backend/main.py:111-114 | The write step returns the collected postings whose keys are new. When there are none (an empty crawl included), archive and mirror are untouched. Otherwise the archive is exactly the file `append_new_jobs` produces, and the mirror is all of its rows. |
| `Crawl.CrawlFetchesUpToFirstStop` | backend/main.py:83-109 | If pages 1..K-1 are accepted and page K stops, exactly K requests are made, for pages 1..K, with K-1 sleeps. The collected postings are those of pages 1..K-1. |
| `Crawl.CrawlWithoutStopDoesNotFinish` | backend/main.py:87-109 | If no page stops, the loop does not end within the given pages: every page is requested and every page's postings are kept. |
| `Crawl.CrawlWritesArchive` | backend/main.py:111-116 | After a finished session, exactly the collected postings with unknown keys were appended, and the archive rows are the old rows followed by their projections. The loaded keys grew by exactly their keys. Archive and mirror are untouched when nothing was appended, and the mirror equals the full archive otherwise. |
| `Crawl.SecondCrawlAppendsNothing` | backend/main.py:79-116 | After a finished session, a second session appends nothing and changes neither archive nor mirror. This holds for any second page sequence that stops and whose accepted postings were all collected by the first, such as the same pages again or the same pages thinned out by the seen titles. |
| `Crawl.FirstRunScenario` | backend/main.py:83-116 | On a missing archive, two pages of three postings followed by a no-results page give requests for pages 1, 2 and 3. The six postings are collected and the archive ends with six rows (corrected write). |

## Left out

- `fetch_and_process_page` lives in `utils/scraper_utils.py`, which is not
  part of this model. Its rendering, LLM extraction, required-key validation
  and page-level filtering by `seen_titles` are replaced by the given
  sequence of page results. So the "every stored posting has all required
  fields" property is not stated here. It belongs to that function.
- The browser, LLM strategy and usage report (`get_browser_config`,
  `get_llm_strategy`, `AsyncWebCrawler`, `show_usage`) are library calls.
  `asyncio` scheduling is also left out. The 61-second `asyncio.sleep` is
  only counted, once per accepted page; its duration is not modelled.
- `load_dotenv`, `print` messages, file paths, CSV quoting and delimiters,
  JSON encoding and I/O errors are left out. Files are modelled as line
  sequences with an "exists" distinction.
- Archive.LoadExistingJobs: DictReader's `restval`/`restkey` are not
  modelled. Under a full header, Python fills the missing cells of a short
  line with `None`, but the model leaves those keys absent. A line without
  a date cell then gives `(title, None)` in Python and `(title, "")` in the
  model. A line without a title cell gives `(None, d)` in Python,
  where `d` is its date cell or `None`, but the model fails with
  `MissingTitle`. Extra cells are dropped rather than put
  under the key `None`. Lines this program writes always have exactly four
  cells.
- Pydantic validation of `Venue` is left out; only its field list is used.
- The imported but unused `save_venues_to_csv` is not modelled.
- `Archive.AppendReadBack`, `Archive.AppendGrowsKeys`,
  `Archive.MirrorIsSnapshot`, `Crawl.CrawlWritesArchive` and
  `Crawl.SecondCrawlAppendsNothing` assume the archive is missing or starts
  with the column header. A file that exists but is empty gets no header,
  so its first appended posting would be read back as a header.
- Archive.AppendNewJobs, Crawl.CrawlJobs, Crawl.CrawlSpec,
  Crawl.CrawlWritesArchive, Crawl.SecondCrawlAppendsNothing and
  Crawl.FirstRunScenario use the corrected write of the Findings section,
  which drops `url`. As written, the first new posting makes `writerows`
  raise ValueError, so `crawl_jobs` stops at line 112 and
  `update_json_file` and `show_usage` do not run. Only the append step is
  modelled as written (`Archive.AppendNewJobsAsWritten`,
  `Archive.AsWrittenAppendStoresNoJob`).
- The crawl loop has no bound. A source that never stops is modelled as the
  `Unfinished` outcome for any finite prefix of its pages.

## Findings

| source | as written | input that shows it | evidently intended | confidence | as-written member | corrected member |
|---|---|---|---|---|---|---|
| backend/main.py:47-51 | `csv.DictWriter` is built with the four archive columns and the default `extrasaction="raise"`, but every posting dict also carries the required key `url`. `writerows` therefore raises ValueError before writing any posting. | An empty archive and one page with posting `Venue("Engineer", "Software", "2024-01-01", "London", "https://example.com/1")`, followed by a no-results page. | Store each new posting projected onto title, category, date and location, dropping `url` (`extrasaction="ignore"`). | medium, not executed. It depends on the fetcher keeping `url` in each dict, as its required-key check demands. | `Archive.AsWrittenAppendStoresNoJob` | `Archive.AppendReadBack` |
