/**
  The row loop of `process_csv_file` in genius_lyrics_scraper/scraper.py: for
  each row, read the artist and song cells, skip the row when either is blank,
  otherwise fetch the lyrics and write the cleaned lyrics or a status into the
  `Lyrics` column, count the row as processed, an error or skipped, and pause.

  The outside world is given per row: `faults[i]` says that reading or
  converting the cells of row `i` raises (the source's `except Exception as
  row_e` path), and `responses[i]` is what the provider answers if row `i` is
  searched. The pauses and the searches made are recorded in ghost
  out-parameters.
 */
module Driver {
  import opened Wrappers
  import opened Text
  import opened Fetcher
  import opened Loader
  import opened Cleaning

  const SKIPPED: string := "Skipped: Missing data"
  const NOT_FOUND: string := "Lyrics Not Found/Error"
  const WRITE_ERROR: string := "Error writing lyrics"
  const ROW_ERROR: string := "Error processing row"

  /** The counter a row adds one to. */
  datatype Counter = Processed | Errors | Skipped

  /** What one row produces: the text written to its `Lyrics` cell, the counter
      it increments, and the search it made (None: no search). */
  datatype RowResult = RowResult(status: string, counter: Counter, request: Option<Query>)

  /** `processed_count`, `error_count` and `skipped_count`. */
  datatype Summary = Summary(processed: nat, errors: nat, skipped: nat)

  /** How a run ends: the required columns are missing (nothing is written and
      the file is not saved), or every row was handled. */
  datatype Outcome = MissingColumns | Completed(summary: Summary)

  /** `str(x).strip() if pd.notna(x) else ""`. */
  function CellText(c: Cell): string {
    match c
    case None => []
    case Some(s) => Strip(s)
  }

  /** The text of a cell is stripped, and it is empty exactly when the cell is
      missing or holds only whitespace. */
  lemma CellTextMeaning(c: Cell)
    ensures IsStripped(CellText(c))
    ensures CellText(c) == [] <==> c.None? || forall k | 0 <= k < |c.value| :: IsSpace(c.value[k])
  {
    if c.Some? {
      StripEmpty(c.value);
      var a, b := StripSpan(c.value);
    }
  }

  /** Python's `if lyrics:` on what `get_lyrics` returned: None and the empty
      string are false, a non-string lyrics value is taken to be true. */
  predicate Truthy(v: Option<LyricsValue>) {
    match v
    case None => false
    case Some(Str(text)) => text != []
    case Some(NonStr) => true
  }

  /** Reference definition of one pass of the loop body. */
  function ProcessRow(artistCell: Cell, songCell: Cell, fault: bool, response: Response): RowResult {
    if fault then RowResult(ROW_ERROR, Errors, None)
    else
      var artist := CellText(artistCell);
      var title := CellText(songCell);
      if artist == [] || title == [] then RowResult(SKIPPED, Skipped, None)
      else
        var fetch := GetLyrics(artist, title, response);
        if !Truthy(fetch.lyrics) then RowResult(NOT_FOUND, Errors, fetch.request)
        else match fetch.lyrics.value
          case Str(text) => RowResult(StoredLyrics(text), Processed, fetch.request)
          case NonStr => RowResult(WRITE_ERROR, Errors, fetch.request)
  }

  /** A faulty row gets the row-error status and makes no search. */
  lemma RowFault(artistCell: Cell, songCell: Cell, response: Response)
    ensures ProcessRow(artistCell, songCell, true, response) == RowResult(ROW_ERROR, Errors, None)
  {
  }

  /** A row is skipped exactly when it does not fault and one of its cells is
      blank, and a skipped row gets the skipped status. */
  lemma RowSkipped(artistCell: Cell, songCell: Cell, fault: bool, response: Response)
    ensures var r := ProcessRow(artistCell, songCell, fault, response);
      && (r.counter == Skipped <==> !fault && (CellText(artistCell) == [] || CellText(songCell) == []))
      && (r.counter == Skipped ==> r.status == SKIPPED)
  {
  }

  /** A row makes a search exactly when it does not fault and both its cells
      have text, and the search is for the cleaned title and the artist. */
  lemma RowSearch(artistCell: Cell, songCell: Cell, fault: bool, response: Response)
    ensures var r := ProcessRow(artistCell, songCell, fault, response);
      && (r.request.Some? <==> !fault && CellText(artistCell) != [] && CellText(songCell) != [])
      && (r.request.Some? ==> r.request.value == Query(CleanTitle(CellText(songCell)), CellText(artistCell)))
  {
    var title := CellText(songCell);
    if !fault && CellText(artistCell) != [] && title != [] {
      CellTextMeaning(songCell);
      CleanTitleNonEmpty(title);
    }
  }

  /** A row is processed exactly when it makes a search and the provider returns
      a non-empty lyric string. */
  lemma RowProcessed(artistCell: Cell, songCell: Cell, fault: bool, response: Response)
    ensures var r := ProcessRow(artistCell, songCell, fault, response);
      r.counter == Processed <==> r.request.Some? && response.Found? && response.lyrics != []
  {
    var title := CellText(songCell);
    if !fault && CellText(artistCell) != [] && title != [] {
      CellTextMeaning(songCell);
      CleanTitleNonEmpty(title);
    }
  }

  /** A processed row holds the stored form of the provider's lyric string, which
      is never a placeholder. */
  lemma RowStored(artistCell: Cell, songCell: Cell, fault: bool, response: Response)
    ensures var r := ProcessRow(artistCell, songCell, fault, response);
      r.counter == Processed ==> r.status == StoredLyrics(response.lyrics) && !IsPlaceholder(r.status)
  {
    var title := CellText(songCell);
    if !fault && CellText(artistCell) != [] && title != [] {
      CellTextMeaning(songCell);
      CleanTitleNonEmpty(title);
      if response.Found? {
        StoredIsNoPlaceholder(response.lyrics);
      }
    }
  }

  /** A searched row whose answer is not a non-empty lyric string counts as an
      error: a non-string value gives the write-error status, no match, an
      exception or an empty string the not-found status. */
  lemma RowErrors(artistCell: Cell, songCell: Cell, fault: bool, response: Response)
    ensures var r := ProcessRow(artistCell, songCell, fault, response);
      && (r.request.Some? && response.FoundNonString? ==> r.status == WRITE_ERROR && r.counter == Errors)
      && (r.request.Some? && (response.NotFound? || response.Raised? || response == Found([])) ==>
            r.status == NOT_FOUND && r.counter == Errors)
  {
    var title := CellText(songCell);
    if !fault && CellText(artistCell) != [] && title != [] {
      CellTextMeaning(songCell);
      CleanTitleNonEmpty(title);
    }
  }

  /** One pass of the loop body, as a function of the row's cells, its fault
      flag and the provider's answer. */
  type Step = (Cell, Cell, bool, Response) -> RowResult

  /** The results of all rows, top to bottom, each given by `step`. */
  function Rows(step: Step, artists: seq<Cell>, songs: seq<Cell>, faults: seq<bool>, responses: seq<Response>): (rs: seq<RowResult>)
    requires |songs| == |artists| && |faults| == |artists| && |responses| == |artists|
    ensures |rs| == |artists|
  {
    if artists == [] then []
    else
      var n := |artists| - 1;
      Rows(step, artists[..n], songs[..n], faults[..n], responses[..n]) + [step(artists[n], songs[n], faults[n], responses[n])]
  }

  /** Row `k` of the results is the step applied to row `k` of the table. */
  lemma {:induction false} RowsAt(step: Step, artists: seq<Cell>, songs: seq<Cell>, faults: seq<bool>, responses: seq<Response>, k: nat)
    requires |songs| == |artists| && |faults| == |artists| && |responses| == |artists| && k < |artists|
    ensures Rows(step, artists, songs, faults, responses)[k] == step(artists[k], songs[k], faults[k], responses[k])
  {
    var n := |artists| - 1;
    if k < n {
      RowsAt(step, artists[..n], songs[..n], faults[..n], responses[..n], k);
    }
  }

  /** The `Lyrics` column the rows leave behind. */
  function Statuses(rs: seq<RowResult>): (col: seq<Cell>)
    ensures |col| == |rs|
  {
    seq(|rs|, i requires 0 <= i < |rs| => Some(rs[i].status))
  }

  /** The searches a row made, as a list of zero or one. */
  function Logged(request: Option<Query>): seq<Query> {
    if request.Some? then [request.value] else []
  }

  /** The searches the rows made, in order. */
  function Requests(rs: seq<RowResult>): (qs: seq<Query>)
    ensures |qs| <= |rs|
  {
    if rs == [] then []
    else
      Requests(rs[..|rs| - 1]) + Logged(rs[|rs| - 1].request)
  }

  function Bump(s: Summary, c: Counter): Summary {
    match c
    case Processed => s.(processed := s.processed + 1)
    case Errors => s.(errors := s.errors + 1)
    case Skipped => s.(skipped := s.skipped + 1)
  }

  /** The three counters after the rows `rs`. */
  function Tally(rs: seq<RowResult>): Summary {
    if rs == [] then Summary(0, 0, 0)
    else Bump(Tally(rs[..|rs| - 1]), rs[|rs| - 1].counter)
  }

  /** Every row adds one to exactly one counter. */
  lemma {:induction false} TallyTotal(rs: seq<RowResult>)
    ensures Tally(rs).processed + Tally(rs).errors + Tally(rs).skipped == |rs|
  {
    if rs != [] {
      TallyTotal(rs[..|rs| - 1]);
    }
  }

  function Add(a: Summary, b: Summary): Summary {
    Summary(a.processed + b.processed, a.errors + b.errors, a.skipped + b.skipped)
  }

  /** Counting two runs of rows one after the other adds their counts. */
  lemma {:induction false} TallyAppend(a: seq<RowResult>, b: seq<RowResult>)
    ensures Tally(a + b) == Add(Tally(a), Tally(b))
    decreases |b|
  {
    if b == [] {
      assert a + b == a;
    } else {
      var b', last := b[..|b| - 1], b[|b| - 1];
      assert (a + b)[..|a + b| - 1] == a + b';
      assert (a + b)[|a + b| - 1] == last;
      TallyAppend(a, b');
      assert Tally(a + b) == Bump(Add(Tally(a), Tally(b')), last.counter);
      BumpAdd(Tally(a), Tally(b'), last.counter);
    }
  }

  lemma BumpAdd(x: Summary, y: Summary, c: Counter)
    ensures Bump(Add(x, y), c) == Add(x, Bump(y, c))
  {
  }

  /** A search is made on every processed row and on no skipped one. */
  predicate Accountable(r: RowResult) {
    (r.counter == Processed ==> r.request.Some?) && (r.counter == Skipped ==> r.request.None?)
  }

  /** Every processed row made a search, and no skipped row did, so the number of
      searches lies between the processed count and the rows not skipped. */
  lemma {:induction false} RequestBounds(rs: seq<RowResult>)
    requires forall i | 0 <= i < |rs| :: Accountable(rs[i])
    ensures Tally(rs).processed <= |Requests(rs)| <= |rs| - Tally(rs).skipped
  {
    if rs != [] {
      var init := rs[..|rs| - 1];
      assert forall i | 0 <= i < |init| :: init[i] == rs[i];
      RequestBounds(init);
      assert Accountable(rs[|rs| - 1]);
    }
  }

  /** The rows of a table meet the accounting rule. */
  lemma RowsAccountable(artists: seq<Cell>, songs: seq<Cell>, faults: seq<bool>, responses: seq<Response>)
    requires |songs| == |artists| && |faults| == |artists| && |responses| == |artists|
    ensures forall i | 0 <= i < |artists| :: Accountable(Rows(ProcessRow, artists, songs, faults, responses)[i])
  {
    forall i | 0 <= i < |artists| ensures Accountable(Rows(ProcessRow, artists, songs, faults, responses)[i]) {
      RowsAt(ProcessRow, artists, songs, faults, responses, i);
      RowSkipped(artists[i], songs[i], faults[i], responses[i]);
      RowSearch(artists[i], songs[i], faults[i], responses[i]);
      RowProcessed(artists[i], songs[i], faults[i], responses[i]);
    }
  }

  /** When the provider finds nothing for any search (no match, or the call
      raises), no row is processed and every cell holds one of the three statuses. */
  lemma {:induction false} NothingFound(rs: seq<RowResult>, artists: seq<Cell>, songs: seq<Cell>, faults: seq<bool>, responses: seq<Response>)
    requires |songs| == |artists| && |faults| == |artists| && |responses| == |artists|
    requires forall i | 0 <= i < |responses| :: responses[i] == NotFound || responses[i] == Raised
    requires rs == Rows(ProcessRow, artists, songs, faults, responses)
    ensures Tally(rs).processed == 0
    ensures forall i | 0 <= i < |rs| :: rs[i].status == NOT_FOUND || rs[i].status == SKIPPED || rs[i].status == ROW_ERROR
    decreases |rs|
  {
    if rs != [] {
      var n := |rs| - 1;
      assert rs[..n] == Rows(ProcessRow, artists[..n], songs[..n], faults[..n], responses[..n]);
      NothingFound(rs[..n], artists[..n], songs[..n], faults[..n], responses[..n]);
      RowSkipped(artists[n], songs[n], faults[n], responses[n]);
      RowSearch(artists[n], songs[n], faults[n], responses[n]);
      RowErrors(artists[n], songs[n], faults[n], responses[n]);
    }
  }

  /** A clean run: when no row faults, every row has an artist and a title, and
      the provider finds non-empty lyrics for every search, every row is
      processed and searched. */
  lemma {:induction false} AllFound(rs: seq<RowResult>, artists: seq<Cell>, songs: seq<Cell>, faults: seq<bool>, responses: seq<Response>)
    requires |songs| == |artists| && |faults| == |artists| && |responses| == |artists|
    requires forall i | 0 <= i < |artists| ::
      !faults[i] && CellText(artists[i]) != [] && CellText(songs[i]) != [] && responses[i].Found? && responses[i].lyrics != []
    requires rs == Rows(ProcessRow, artists, songs, faults, responses)
    ensures Tally(rs) == Summary(|rs|, 0, 0)
    ensures |Requests(rs)| == |rs|
    decreases |rs|
  {
    if rs != [] {
      var n := |rs| - 1;
      assert rs[..n] == Rows(ProcessRow, artists[..n], songs[..n], faults[..n], responses[..n]);
      AllFound(rs[..n], artists[..n], songs[..n], faults[..n], responses[..n]);
      RowSearch(artists[n], songs[n], faults[n], responses[n]);
      RowProcessed(artists[n], songs[n], faults[n], responses[n]);
    }
  }

  /** The loop over the rows, with `step` the body of its `try` block
      (`FillLyrics` passes `ProcessRow`): writes each row's status into the
      `Lyrics` column `lyrics`, reads the artist and song columns, and pauses
      once per row. */
  method ProcessRows(step: Step, artists: array<Cell>, songs: array<Cell>, lyrics: array<Cell>, faults: seq<bool>, responses: seq<Response>)
    returns (summary: Summary, ghost sleeps: nat, ghost requests: seq<Query>)
    requires lyrics != artists && lyrics != songs
    requires songs.Length == artists.Length && lyrics.Length == artists.Length
    requires |faults| == artists.Length && |responses| == artists.Length
    modifies lyrics
    ensures var rs := Rows(step, artists[..], songs[..], faults, responses);
      && lyrics[..] == Statuses(rs)
      && summary == Tally(rs)
      && requests == Requests(rs)
    ensures sleeps == artists.Length
  {
    ghost var rs := Rows(step, artists[..], songs[..], faults, responses);
    summary, sleeps, requests := Summary(0, 0, 0), 0, [];
    for i := 0 to artists.Length
      invariant forall k | 0 <= k < i :: lyrics[k] == Some(rs[k].status)
      invariant summary == Tally(rs[..i])
      invariant requests == Requests(rs[..i])
      invariant sleeps == i
    {
      var r := step(artists[i], songs[i], faults[i], responses[i]);
      RowsAt(step, artists[..], songs[..], faults, responses, i);
      StepRow(rs, i, r);
      lyrics[i] := Some(r.status);
      summary := Bump(summary, r.counter);
      requests := requests + Logged(r.request);
      sleeps := sleeps + 1;
    }
    assert rs[..artists.Length] == rs;
    assert lyrics[..] == Statuses(rs);
  }

  /** Extending the rows handled by one extends the counters and the searches by that row's. */
  lemma StepRow(rs: seq<RowResult>, i: nat, r: RowResult)
    requires i < |rs| && rs[i] == r
    ensures Tally(rs[..i + 1]) == Bump(Tally(rs[..i]), r.counter)
    ensures Requests(rs[..i + 1]) == Requests(rs[..i]) + Logged(r.request)
  {
    assert rs[..i + 1][..i] == rs[..i];
  }

  /** `process_csv_file` once the file is loaded: choose the columns, stop when
      one is missing, otherwise make sure the `Lyrics` column exists and run
      the row loop over it. */
  method ProcessCsv(t: Table, faults: seq<bool>, responses: seq<Response>)
    returns (outcome: Outcome, ghost sleeps: nat, ghost requests: seq<Query>)
    requires t.Valid() && |faults| == t.rowCount && |responses| == t.rowCount
    modifies t, t.columns
    ensures t.Valid()
    ensures outcome.MissingColumns? <==>
      LastWithRole(old(t.header), Artist).None? || LastWithRole(old(t.header), Song).None?
    ensures outcome.MissingColumns? ==>
      t.header == old(t.header) && t.columns == old(t.columns)
      && (forall k | 0 <= k < |t.columns| :: t.Column(k) == old(t.Column(k)))
      && sleeps == 0 && requests == []
    ensures outcome.Completed? ==>
      Filled(t, LastWithRole(old(t.header), Artist).value, LastWithRole(old(t.header), Song).value,
             faults, responses, outcome.summary, sleeps, requests)
  {
    var mapping := ResolveColumns(t.header);
    if Artist !in mapping || Song !in mapping {
      return MissingColumns, 0, [];
    }
    LyricsNotChosen(t.header, Artist);
    LyricsNotChosen(t.header, Song);
    var summary;
    summary, sleeps, requests := FillLyrics(t, mapping[Artist], mapping[Song], faults, responses);
    outcome := Completed(summary);
  }

  /** The state the row loop leaves behind: the header has a `Lyrics` column,
      every `Lyrics` column holds the statuses of the rows in order, every
      other column is as it was, and the summary, the requests and the pauses
      are those of the rows. */
  twostate predicate Filled(t: Table, artistCol: nat, songCol: nat, faults: seq<bool>, responses: seq<Response>,
                            summary: Summary, sleeps: nat, requests: seq<Query>)
    requires old(t.Valid()) && |faults| == t.rowCount && |responses| == t.rowCount
    requires artistCol < |old(t.header)| && songCol < |old(t.header)|
    reads t, t.columns
  {
    var rs := Rows(ProcessRow, old(t.Column(artistCol)), old(t.Column(songCol)), faults, responses);
    && t.header == WithLyrics(old(t.header))
    && (forall k | 0 <= k < |t.header| && t.header[k] == LYRICS :: t.Column(k) == Statuses(rs))
    && (forall k | 0 <= k < |old(t.header)| && old(t.header)[k] != LYRICS :: t.Column(k) == old(t.Column(k)))
    && summary == Tally(rs)
    && requests == Requests(rs)
    && sleeps == t.rowCount
  }

  /** Everything after the column check: add the `Lyrics` column if it is
      absent and run the row loop with the given artist and song columns. */
  method FillLyrics(t: Table, artistCol: nat, songCol: nat, faults: seq<bool>, responses: seq<Response>)
    returns (summary: Summary, ghost sleeps: nat, ghost requests: seq<Query>)
    requires t.Valid() && |faults| == t.rowCount && |responses| == t.rowCount
    requires artistCol < |t.header| && t.header[artistCol] != LYRICS
    requires songCol < |t.header| && t.header[songCol] != LYRICS
    modifies t, t.columns
    ensures t.Valid()
    ensures Filled(t, artistCol, songCol, faults, responses, summary, sleeps, requests)
  {
    var lyricsCol := t.EnsureLyricsColumn();
    SeparateColumns(t.columns, lyricsCol, artistCol);
    SeparateColumns(t.columns, lyricsCol, songCol);
    var artists, songs, lyrics := t.columns[artistCol], t.columns[songCol], t.columns[lyricsCol];
    summary, sleeps, requests := ProcessRows(ProcessRow, artists, songs, lyrics, faults, responses);
    forall k | 0 <= k < |old(t.header)| && old(t.header)[k] != LYRICS ensures t.Column(k) == old(t.Column(k)) {
      assert t.header[k] == old(t.header)[k] && t.columns[k] == old(t.columns)[k];
      SeparateColumns(t.columns, lyricsCol, k);
    }
  }

  /** Two different columns of a table are different arrays. */
  lemma SeparateColumns(columns: seq<array<Cell>>, k: nat, l: nat)
    requires Distinct(columns) && k < |columns| && l < |columns| && k != l
    ensures columns[k] != columns[l]
  {
    if k < l {
      DistinctAt(columns, k, l);
    } else {
      DistinctAt(columns, l, k);
    }
  }
}
