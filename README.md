# Genius lyrics scraper: a verified model of its core

`genius_lyrics_scraper/scraper.py` reads a CSV file of songs, looks up each
song's lyrics on Genius and writes them back into a `Lyrics` column. The parts
of it that decide what gets written are modelled here in Dafny, with proofs:

- **Text** (`text.dfy`): the Python `str` operations the scraper uses, as pure
  functions: `strip()` (with Python's `isspace` set), `split(sep)[0]`,
  `replace(pat, '')` (a single left-to-right pass), `in` and `lower()`.
- **Fetcher** (`fetcher.dfy`): `get_lyrics`. The title is cut at ` (feat`,
  ` (ft.`, ` [feat` and ` [ft.` in turn and then stripped. No search is made
  when the artist or the cleaned title is empty. Every failure comes back as
  None. The provider's answer to a search is an input (`Response`).
- **Loader** (`loader.dfy`): the loaded table. It holds the header and one
  array of cells per column. A cell is `None` for a missing value and
  otherwise the text `str()` gives. The file also has the loop that picks the
  artist and song columns by case-insensitive alias, and the step that adds
  the `Lyrics` column.
- **Cleaning** (`cleaning.dfy`): what is stored for a lyric string. The embed
  footer is deleted and the text stripped. A placeholder text (an unreleased
  song, or a short note mentioning "instrumental") is replaced by
  `Lyrics Not Available`.
- **Driver** (`driver.dfy`): the row loop of `process_csv_file`.
  - Each row gets exactly one status or lyric string in its `Lyrics` cell.
  - Each row adds one to exactly one of the three counters.
  - Each row pauses once.
  - `ProcessCsv` ties column resolution, column creation and the loop together.

The row loop is `ProcessRows`. It updates the `Lyrics` array in place and is
proved against `Rows`, the reference definition: the results of all rows, each
given by the per-row function `ProcessRow`. `Tally`, `Requests` and `Statuses`
read the counters, the searches made and the final column off those results,
and the lemmas about `ProcessRow`, `Rows` and `Tally` state what the source
promises.

The world outside the program enters as parameters:

- `responses[i]` is what the provider answers if row `i` is searched: lyrics
  text, a non-string lyrics value, no match, or an exception.
- `faults[i]` says that reading or converting the cells of row `i` raises,
  which is the source's whole-row `except` path.
- The pauses and the searches made are recorded in ghost out-parameters.

Three points of the code's behaviour are worth stating outright:

- **Last match wins.** Each column whose lower-cased name is an alias
  overwrites the dictionary entry for its role, so the last matching column
  wins.
- **Chained cuts.** The four chained `split(...)[0]` calls are proved equal to
  a single cut at the earliest marker of any kind (`CleanTitleCutsAtFirstMarker`).
- **Single-pass replace.** `replace` deletes the footer in one pass and can
  leave a footer behind (`SinglePassLeavesFooter`).

## Model

| member | source | states |
|---|---|---|
| `Text.Strip` | genius_lyrics_scraper/scraper.py:36 | `str.strip()`, used on the title (:36), the cells (:127-128) and the lyrics (:147): both ends lose their whitespace in Python's `isspace` sense. Its meaning is stated by `StripSpan`, `StripEmpty` and `StripStripped` |
| `Text.StripSpan` | genius_lyrics_scraper/scraper.py:36 | `strip()` returns a contiguous slice of its input with no whitespace at either end, and everything it removed is whitespace |
| `Text.StripEmpty` | genius_lyrics_scraper/scraper.py:127-130 | a stripped string is empty exactly when the original is all whitespace |
| `Text.StripStripped` | genius_lyrics_scraper/scraper.py:36 | stripping a string without surrounding whitespace leaves it unchanged |
| `Text.Contains` | genius_lyrics_scraper/scraper.py:150-151 | Python's `pat in s`: some index of `s` starts an occurrence of `pat`. `Find` returns None exactly when it does not hold, and `Before` and `RemoveAll` are stated in its terms |
| `Text.Before` | genius_lyrics_scraper/scraper.py:32-35 | `split(sep)[0]` is a prefix of the input that does not contain `sep`. It ends exactly where the first `sep` starts, or is the whole input when `sep` does not occur |
| `Text.RemoveAll` | genius_lyrics_scraper/scraper.py:147 | `replace(pat, '')` never lengthens the text, and leaves a text without `pat` unchanged |
| `Text.RemoveAllFirst` | genius_lyrics_scraper/scraper.py:147 | `replace(pat, '')` keeps the text before the first occurrence, deletes that occurrence and carries on after it |
| `Text.RemoveAllKeeps` | genius_lyrics_scraper/scraper.py:147 | a prefix in which no occurrence of `pat` begins passes through `replace` unchanged |
| `Text.RemoveAllAround` | genius_lyrics_scraper/scraper.py:147 | a single occurrence of `pat` is deleted when nothing before it starts one and too little follows it to hold one |
| `Text.Lower` | genius_lyrics_scraper/scraper.py:84 | `lower()` keeps the length and lower-cases character by character |
| `Fetcher.CleanTitle` | genius_lyrics_scraper/scraper.py:31-37 | `song_title_cleaned`: the four chained cuts, then `strip()`. Its meaning is stated by `CleanTitleCutsAtFirstMarker`, `CleanTitleIsStrippedPrefix`, `CleanTitleHasNoMarker`, `CleanTitleIdempotent` and `CleanTitleNonEmpty` |
| `Fetcher.FirstMarker` | genius_lyrics_scraper/scraper.py:31-35 | reference definition: the first index where any featuring marker starts; no marker starts before it |
| `Fetcher.CutStep` | genius_lyrics_scraper/scraper.py:32-35 | one `split(m)[0]` applied to a prefix that ends at a marker or at the end gives a shorter such prefix, and `m` starts nowhere before the new cut |
| `Fetcher.CutPoint` | genius_lyrics_scraper/scraper.py:31-35 | the four chained cuts give the prefix that ends at the first marker of any kind |
| `Fetcher.CleanTitleCutsAtFirstMarker` | genius_lyrics_scraper/scraper.py:31-37 | the cleaned title is the stripped prefix before the earliest marker |
| `Fetcher.CleanTitleIsStrippedPrefix` | genius_lyrics_scraper/scraper.py:31-37 | the cleaned title is the stripped form of a prefix of the title, and just the stripped title when no marker occurs |
| `Fetcher.CleanTitleHasNoMarker` | genius_lyrics_scraper/scraper.py:31-37 | the cleaned title has no surrounding whitespace and contains none of the four markers |
| `Fetcher.CleanTitleIdempotent` | genius_lyrics_scraper/scraper.py:31-37 | cleaning a cleaned title returns it unchanged |
| `Fetcher.CleanTitleNonEmpty` | genius_lyrics_scraper/scraper.py:31-43 | a non-empty title without surrounding whitespace never cleans to the empty string |
| `Fetcher.FeaturedTitleScenario` | genius_lyrics_scraper/scraper.py:31-37 | the title `God's Plan (feat. Someone)` cleans to `God's Plan` |
| `Fetcher.GetLyrics` | genius_lyrics_scraper/scraper.py:29-58 | a search is made exactly when the artist and the cleaned title are non-empty, and it is for the cleaned title and the artist. A search answered by a match returns the match's lyrics value (the text itself for a string), lyrics come back only from a match, and no match or an exception gives None |
| `Fetcher.SearchGuardNeverFires` | genius_lyrics_scraper/scraper.py:40-53 | for the non-empty stripped arguments the driver passes, the search is always made, and a match's lyrics are returned as they are |
| `Loader.RoleOf` | genius_lyrics_scraper/scraper.py:84-88 | a name fills the artist role exactly when its lower-cased form is an artist alias, and the song role exactly when it is a song alias |
| `Loader.LastWithRole` | genius_lyrics_scraper/scraper.py:82-89 | reference definition of the column the mapping keeps for a role, the last one that fills it; the result is a column of the header. Its meaning is stated by `LastWithRoleMeaning`, `LastMatchUnique` and `NoMatchUnique`, and `ResolveColumns` is proved against it |
| `Loader.LastWithRoleMeaning` | genius_lyrics_scraper/scraper.py:82-89 | the reference choice is the last column that fills the role, and it is None only when no column does |
| `Loader.LastMatchUnique` | genius_lyrics_scraper/scraper.py:82-89 | the last column filling a role is the reference choice |
| `Loader.NoMatchUnique` | genius_lyrics_scraper/scraper.py:82-90 | when no column fills a role the reference choice is None |
| `Loader.ResolveColumns` | genius_lyrics_scraper/scraper.py:82-89 | the overwriting loop maps each role to the reference choice, the last matching column, and omits a role that no column fills |
| `Loader.LyricsHasNoRole` | genius_lyrics_scraper/scraper.py:84-88 | a column named `Lyrics` fills neither role |
| `Loader.LyricsNotChosen` | genius_lyrics_scraper/scraper.py:95-96 | the column chosen for a role is a column of the header and is never the `Lyrics` column |
| `Loader.ArtistsTrackHeader` | genius_lyrics_scraper/scraper.py:82-96 | the header `Artists, Track` resolves to its first column for the artist and its second for the song |
| `Loader.IndexOf` | genius_lyrics_scraper/scraper.py:112 | returns a position holding the name exactly when the name is in the header |
| `Loader.Table.constructor` | genius_lyrics_scraper/scraper.py:78 | a loaded table has the given distinct column names and, in fresh arrays, the given cells |
| `Loader.Table.EnsureLyricsColumn` | genius_lyrics_scraper/scraper.py:111-113 | the header gains `Lyrics` only when it is absent. The returned position is the only `Lyrics` column, a new column is all missing cells, and existing columns stay as they were |
| `Cleaning.CleanLyrics` | genius_lyrics_scraper/scraper.py:147 | `lyrics_cleaned`: the footer deleted in one pass, then `strip()`. Its meaning is stated by `CleanLyricsShape`, `FooterScenario`, `NestedFooterRemoved` and `SinglePassLeavesFooter` |
| `Cleaning.IsPlaceholder` | genius_lyrics_scraper/scraper.py:150-151 | the placeholder test: the lower-cased text contains the not-released phrase, or contains "instrumental" and the cleaned text is under 150 characters. Used by `StoredLyricsMeaning`, `NotAvailableIsNoPlaceholder` and `ShortInstrumentalNotAvailable` |
| `Cleaning.StoredLyrics` | genius_lyrics_scraper/scraper.py:147-157 | the value written for a truthy lyric string. Its meaning is stated by `StoredLyricsMeaning`, `StoredIsNoPlaceholder`, `ShortInstrumentalNotAvailable` and `BlankLyricsStoredEmpty` |
| `Cleaning.CleanLyricsShape` | genius_lyrics_scraper/scraper.py:147 | the cleaned lyrics have no surrounding whitespace and are no longer than the raw text. Without the footer they are just the stripped text |
| `Cleaning.StoredLyricsMeaning` | genius_lyrics_scraper/scraper.py:147-157 | the stored value is `Lyrics Not Available` exactly when the cleaned text is a placeholder (or is that text itself), and otherwise it is the cleaned text |
| `Cleaning.StoredIsNoPlaceholder` | genius_lyrics_scraper/scraper.py:149-157 | what is stored never passes the placeholder test |
| `Cleaning.NotAvailableIsNoPlaceholder` | genius_lyrics_scraper/scraper.py:150-153 | the fixed status `Lyrics Not Available` itself fails the placeholder test |
| `Cleaning.ShortInstrumentalNotAvailable` | genius_lyrics_scraper/scraper.py:150-153 | a cleaned text under 150 characters mentioning "instrumental" in any letter case is stored as `Lyrics Not Available` |
| `Cleaning.BlankLyricsStoredEmpty` | genius_lyrics_scraper/scraper.py:147-157 | lyrics made only of whitespace are stored as the empty string |
| `Cleaning.FooterScenario` | genius_lyrics_scraper/scraper.py:147 | the footer in front of the lyrics is removed together with the space after it |
| `Cleaning.NestedFooterRemoved` | genius_lyrics_scraper/scraper.py:147 | in a footer split around a second footer, only the inner one is deleted |
| `Cleaning.SinglePassLeavesFooter` | genius_lyrics_scraper/scraper.py:147 | the single pass of `replace` can leave a complete footer in the cleaned text |
| `Driver.CellText` | genius_lyrics_scraper/scraper.py:127-128 | `str(x).strip()` for a present cell and the empty string for a missing one. Its meaning is stated by `CellTextMeaning` |
| `Driver.ProcessRow` | genius_lyrics_scraper/scraper.py:120-176 | the body of the loop for one row, the step `FillLyrics` runs the loop with: the status written, the counter bumped and the search made. Its meaning is stated by `RowFault`, `RowSkipped`, `RowSearch`, `RowProcessed`, `RowStored` and `RowErrors` |
| `Driver.Truthy` | genius_lyrics_scraper/scraper.py:144 | `if lyrics:` on the fetcher's result: None and the empty string are false, any other string is true, and a non-string value is taken to be true. Its effect on a row is stated by `RowProcessed` and `RowErrors` |
| `Driver.CellTextMeaning` | genius_lyrics_scraper/scraper.py:127-128 | a cell's text has no surrounding whitespace, and it is empty exactly when the cell is missing or all whitespace |
| `Driver.RowFault` | genius_lyrics_scraper/scraper.py:171-176 | a row whose cells raise gets `Error processing row`, counts as an error and makes no search |
| `Driver.RowSkipped` | genius_lyrics_scraper/scraper.py:130-136 | a row is skipped exactly when it does not fault and its artist or title text is empty, and a skipped row gets `Skipped: Missing data` |
| `Driver.RowSearch` | genius_lyrics_scraper/scraper.py:138-141 | a row searches exactly when it does not fault and both texts are non-empty, and it searches for the cleaned title and the artist |
| `Driver.RowProcessed` | genius_lyrics_scraper/scraper.py:144-157 | a row counts as processed exactly when it searched and the provider returned a non-empty lyric string |
| `Driver.RowStored` | genius_lyrics_scraper/scraper.py:144-157 | a processed row holds the stored form of the provider's lyrics, which is never a placeholder |
| `Driver.RowErrors` | genius_lyrics_scraper/scraper.py:158-165 | a searched row with a non-string value gets `Error writing lyrics`. No match, an exception or an empty string gives `Lyrics Not Found/Error`. Both count as errors |
| `Driver.Rows` | genius_lyrics_scraper/scraper.py:119 | reference definition of the loop: one result per row, top to bottom, each the row step applied to that row. Row `k` is stated by `RowsAt`, and `ProcessRows` is proved against it |
| `Driver.RowsAt` | genius_lyrics_scraper/scraper.py:119 | the rows are handled top to bottom, and result `k` is the row function applied to row `k` |
| `Driver.ProcessRows` | genius_lyrics_scraper/scraper.py:119-180 | the loop leaves every row's `Lyrics` cell holding that row's status. It also leaves the counters at the tally of the rows and the search log at their searches in order, with one pause per row |
| `Driver.Bump` | genius_lyrics_scraper/scraper.py:133-174 | the `+= 1` on one of the three counters (:133, :154, :157, :161, :165, :174), chosen by the row's outcome, leaving the other two. Used by `Tally` |
| `Driver.Tally` | genius_lyrics_scraper/scraper.py:71-73 | the counters, started at zero, after bumping them row by row. Its meaning is stated by `TallyTotal`, `TallyAppend` and `RequestBounds`, and `ProcessRows` is proved against it |
| `Driver.TallyTotal` | genius_lyrics_scraper/scraper.py:71-73 | processed, errors and skipped add up to the number of rows |
| `Driver.TallyAppend` | genius_lyrics_scraper/scraper.py:119-180 | the counters of two runs of rows, one after the other, are the sums of their counters |
| `Driver.RequestBounds` | genius_lyrics_scraper/scraper.py:130-165 | the number of searches is at least the processed count and at most the rows not skipped |
| `Driver.RowsAccountable` | genius_lyrics_scraper/scraper.py:130-165 | every processed row made a search and no skipped row did |
| `Driver.NothingFound` | genius_lyrics_scraper/scraper.py:162-165 | when every search gets no match or raises, nothing is processed and every cell holds one of the three failure or skip statuses |
| `Driver.AllFound` | genius_lyrics_scraper/scraper.py:141-157 | when no row faults, every row has both texts and every search finds lyrics, every row is processed and searched |
| `Driver.FillLyrics` | genius_lyrics_scraper/scraper.py:111-180 | adds `Lyrics` if absent and fills it with the rows' statuses. Every other column, the artist and song columns among them, is left unchanged |
| `Driver.ProcessCsv` | genius_lyrics_scraper/scraper.py:82-180 | a run stops with nothing changed, no pause and no search exactly when the artist or song role has no column. Otherwise the table's `Lyrics` column holds the rows' statuses and every other column is unchanged, and the counters, searches and pauses are those of the rows |

## Left out

- Loading and saving the CSV file (`pd.read_csv`, `df.to_csv`). Lines 78 and 184 are foreign library I/O, so the table is given as arrays. A failed save and the outer `except` handlers (lines 188-196) are not modelled.
- The Genius client (lines 46 and 102-108), including its timeout, retries and section-header removal. It is a network call, so its answer to each search is the input `responses[i]`.
- `time.sleep` and every `print` and `traceback.print_exc`. Pauses are counted in a ghost out-parameter and elapsed time is not modelled. A negative delay, which would make `sleep` raise, is not modelled.
- `main` (lines 199-247): environment and command-line handling, the `float()` parsing of the delay, `KeyboardInterrupt` and exit codes. These are outside the core.
- `str()` on arbitrary cell values, and pandas' missing-value rules beyond "missing or text". Cells are `None` or the text `str()` would give.
- Index labels. `df.at[idx, 'Lyrics']` is modelled as a write to row `idx`'s position, as if the labels were distinct, which they are for a freshly loaded file.
- Faults after the write. The fault flag stands for an exception raised while reading or converting the row's cells, before any write. An exception from a `df.at` write, from `sleep` or from `print` after the write is not modelled.
- A lyrics value that is neither a string nor truthy. `FoundNonString` stands for a truthy non-string value, which takes the `Error writing lyrics` path. A falsy non-string value would take the not-found path and is not distinguished.
- `Text.Lower`: models `lower()` only for 'A'-'Z' and the Kelvin sign. Other Unicode case mappings cannot create or destroy a match against the all-lower-case ASCII patterns the scraper looks for, and they do not change the length that matters here, which is that of the cleaned text itself.
- `Driver.ProcessRows`: states the final content of every `Lyrics` cell, not the number of writes to it. Each loop iteration writes only its own row's cell once.
