/**
  The table side of `process_csv_file` in genius_lyrics_scraper/scraper.py:
  the in-memory table that `pd.read_csv` produces (a header and one array of
  cells per column), the case-insensitive choice of the artist and song
  columns, and the creation of the `Lyrics` column when it is absent.
 */
module Loader {
  import opened Wrappers
  import opened Text

  /** One table cell: None for a missing value (`pd.notna` false), otherwise
      the text `str()` gives for it. */
  type Cell = Option<string>

  const ARTIST_ALIASES: seq<string> := ["artist", "artists"]
  const SONG_ALIASES: seq<string> := ["song", "title", "song title", "track"]
  const LYRICS: string := "Lyrics"

  /** The two logical columns the scraper needs. */
  datatype Role = Artist | Song

  /** The role a column with this name can fill: the lower-cased name is looked
      up among the artist aliases first, then among the song aliases. */
  function RoleOf(name: string): (r: Option<Role>)
    ensures r == Some(Artist) <==> Lower(name) in ARTIST_ALIASES
    ensures r == Some(Song) <==> Lower(name) in SONG_ALIASES
  {
    var lower := Lower(name);
    if lower in ARTIST_ALIASES then Some(Artist)
    else if lower in SONG_ALIASES then Some(Song)
    else None
  }

  /** Column `i` fills `role`, and no later column does. */
  ghost predicate IsLastMatch(header: seq<string>, role: Role, i: nat) {
    i < |header| && RoleOf(header[i]) == Some(role)
    && forall j | i < j < |header| :: RoleOf(header[j]) != Some(role)
  }

  /** No column fills `role`. */
  ghost predicate NoMatch(header: seq<string>, role: Role) {
    forall j | 0 <= j < |header| :: RoleOf(header[j]) != Some(role)
  }

  /** Reference definition of the column chosen for `role`: the last one that fills it. */
  function LastWithRole(header: seq<string>, role: Role): (r: Option<nat>)
    ensures r.Some? ==> r.value < |header|
    decreases |header|
  {
    if header == [] then None
    else if RoleOf(header[|header| - 1]) == Some(role) then Some(|header| - 1)
    else LastWithRole(header[..|header| - 1], role)
  }

  /** The reference choice is the last column that fills the role, and there
      is none only when no column does. */
  lemma {:induction false} LastWithRoleMeaning(header: seq<string>, role: Role)
    ensures LastWithRole(header, role).Some? ==> IsLastMatch(header, role, LastWithRole(header, role).value)
    ensures LastWithRole(header, role).None? ==> NoMatch(header, role)
    decreases |header|
  {
    if header != [] && RoleOf(header[|header| - 1]) != Some(role) {
      var init := header[..|header| - 1];
      LastWithRoleMeaning(init, role);
      assert forall j | 0 <= j < |init| :: init[j] == header[j];
    }
  }

  /** The last column that fills the role is the reference choice. */
  lemma {:induction false} LastMatchUnique(header: seq<string>, role: Role, i: nat)
    requires IsLastMatch(header, role, i)
    ensures LastWithRole(header, role) == Some(i)
    decreases |header|
  {
    var n := |header| - 1;
    if i < n {
      var init := header[..n];
      assert forall j | 0 <= j < n :: init[j] == header[j];
      LastMatchUnique(init, role, i);
    }
  }

  /** When no column fills the role the reference choice is None. */
  lemma {:induction false} NoMatchUnique(header: seq<string>, role: Role)
    requires NoMatch(header, role)
    ensures LastWithRole(header, role) == None
    decreases |header|
  {
    if header != [] {
      var init := header[..|header| - 1];
      assert forall j | 0 <= j < |init| :: init[j] == header[j];
      NoMatchUnique(init, role);
    }
  }

  /** The loop that builds `column_mapping`: every column whose lower-cased name
      is an alias overwrites the entry for its role, so the last match wins. */
  method ResolveColumns(header: seq<string>) returns (mapping: map<Role, nat>)
    ensures forall role :: role in mapping ==> LastWithRole(header, role) == Some(mapping[role])
    ensures forall role :: role !in mapping ==> LastWithRole(header, role) == None
  {
    mapping := map[];
    for i := 0 to |header|
      invariant forall role :: role in mapping ==> IsLastMatch(header[..i], role, mapping[role])
      invariant forall role :: role !in mapping ==> NoMatch(header[..i], role)
    {
      var colLower := Lower(header[i]);
      if colLower in ARTIST_ALIASES {
        mapping := mapping[Artist := i];
      } else if colLower in SONG_ALIASES {
        mapping := mapping[Song := i];
      }
      assert header[..i + 1] == header[..i] + [header[i]];
    }
    assert header[..|header|] == header;
    forall role ensures role in mapping ==> LastWithRole(header, role) == Some(mapping[role]) {
      if role in mapping {
        LastMatchUnique(header, role, mapping[role]);
      }
    }
    forall role ensures role !in mapping ==> LastWithRole(header, role) == None {
      if role !in mapping {
        NoMatchUnique(header, role);
      }
    }
  }

  /** A column named `Lyrics` fills no role, so the output column is never
      taken for the artist or the song column. */
  lemma LyricsHasNoRole()
    ensures RoleOf(LYRICS) == None
  {
    assert Lower(LYRICS)[0] == 'l';
  }

  /** The column chosen for a role is never the `Lyrics` column. */
  lemma LyricsNotChosen(header: seq<string>, role: Role)
    ensures LastWithRole(header, role).Some? ==>
      LastWithRole(header, role).value < |header| && header[LastWithRole(header, role).value] != LYRICS
  {
    LastWithRoleMeaning(header, role);
    LyricsHasNoRole();
  }

  /** The header `Artists, Track` resolves to its first column for the artist
      and its second for the song, whatever the letter case. */
  lemma ArtistsTrackHeader(h: seq<string>)
    requires h == ["Artists", "Track"]
    ensures LastWithRole(h, Artist) == Some(0)
    ensures LastWithRole(h, Song) == Some(1)
  {
    ArtistsRole(h[0]);
    TrackRole(h[1]);
    assert h[..1] == [h[0]];
  }

  lemma ArtistsRole(name: string)
    requires name == "Artists"
    ensures RoleOf(name) == Some(Artist)
  {
    assert Lower(name) == "artists";
  }

  lemma TrackRole(name: string)
    requires name == "Track"
    ensures RoleOf(name) == Some(Song)
  {
    assert Lower(name) == "track";
  }

  /** The position of `name` in `names`, if it is there (pandas' `name in df.columns`). */
  function IndexOf(names: seq<string>, name: string): (r: Option<nat>)
    ensures r.Some? ==> r.value < |names| && names[r.value] == name
    ensures r.None? <==> name !in names
  {
    if names == [] then None
    else if names[0] == name then Some(0)
    else match IndexOf(names[1..], name)
      case Some(i) => Some(i + 1)
      case None => None
  }

  /** The header with `Lyrics` appended unless it is already there. */
  function WithLyrics(header: seq<string>): seq<string> {
    if LYRICS in header then header else header + [LYRICS]
  }

  /** No element occurs twice. */
  predicate Distinct<T(==)>(s: seq<T>)
    decreases |s|
  {
    s == [] || (s[|s| - 1] !in s[..|s| - 1] && Distinct(s[..|s| - 1]))
  }

  /** Two positions of a sequence without repeats hold different elements. */
  lemma {:induction false} DistinctAt<T>(s: seq<T>, k: nat, l: nat)
    requires Distinct(s) && k < l < |s|
    ensures s[k] != s[l]
    decreases |s|
  {
    var init := s[..|s| - 1];
    if l < |s| - 1 {
      DistinctAt(init, k, l);
    } else {
      assert init[k] == s[k];
    }
  }

  /** Appending a new element keeps a sequence without repeats. */
  lemma DistinctAppend<T>(s: seq<T>, x: T)
    requires Distinct(s) && x !in s
    ensures Distinct(s + [x])
  {
    assert (s + [x])[..|s|] == s;
  }

  /** Pairwise different elements make a sequence without repeats. */
  lemma {:induction false} PairwiseDistinct<T>(s: seq<T>)
    requires forall k, l | 0 <= k < l < |s| :: s[k] != s[l]
    ensures Distinct(s)
    decreases |s|
  {
    if s != [] {
      var init := s[..|s| - 1];
      assert forall k | 0 <= k < |init| :: init[k] == s[k];
      PairwiseDistinct(init);
    }
  }

  /** The DataFrame: a header of distinct column names (pandas makes the names
      of a loaded file unique) and, for each name, one array of `rowCount` cells. */
  class Table {
    var header: seq<string>
    var columns: seq<array<Cell>>
    const rowCount: nat

    ghost predicate Valid()
      reads this
    {
      && |columns| == |header|
      && (forall k | 0 <= k < |columns| :: columns[k].Length == rowCount)
      && Distinct(columns)
      && Distinct(header)
    }

    /** The cells of column `k`, top to bottom (none past the last column). */
    ghost function Column(k: nat): seq<Cell>
      reads this, if k < |columns| then {columns[k]} else {}
    {
      if k < |columns| then columns[k][..] else []
    }

    /** A loaded table: `data[k]` holds the cells of the column named `names[k]`. */
    constructor (names: seq<string>, data: seq<seq<Cell>>, n: nat)
      requires |data| == |names| && forall k | 0 <= k < |data| :: |data[k]| == n
      requires forall k, l | 0 <= k < l < |names| :: names[k] != names[l]
      ensures Valid() && header == names && rowCount == n
      ensures forall k | 0 <= k < |data| :: Column(k) == data[k]
      ensures forall k | 0 <= k < |columns| :: fresh(columns[k])
    {
      var cols: seq<array<Cell>> := [];
      for k := 0 to |data|
        invariant |cols| == k
        invariant forall i | 0 <= i < k :: fresh(cols[i]) && cols[i].Length == n && cols[i][..] == data[i]
        invariant Distinct(cols)
      {
        var column := new Cell[n](i requires 0 <= i < n => data[k][i]);
        assert column[..] == data[k];
        DistinctAppend(cols, column);
        cols := cols + [column];
      }
      PairwiseDistinct(names);
      header, columns, rowCount := names, cols, n;
    }

    /** `if 'Lyrics' not in df.columns: df['Lyrics'] = None`: returns the position of
        the `Lyrics` column, which is a new column of missing cells when it was
        absent; the existing columns and their cells are left as they were. */
    method EnsureLyricsColumn() returns (k: nat)
      requires Valid()
      modifies this
      ensures Valid()
      ensures header == WithLyrics(old(header)) && k < |header| && header[k] == LYRICS
      ensures forall j | 0 <= j < |header| && header[j] == LYRICS :: j == k
      ensures |old(columns)| <= |columns| && columns[..|old(columns)|] == old(columns)
      ensures LYRICS in old(header) ==> columns == old(columns) && k < |old(columns)|
      ensures LYRICS !in old(header) ==>
        k == |old(columns)| && fresh(columns[k]) && Column(k) == seq(rowCount, i => None)
    {
      var existing := IndexOf(header, LYRICS);
      if existing.Some? {
        k := existing.value;
      } else {
        var column := new Cell[rowCount](i => None);
        k := |columns|;
        DistinctAppend(header, LYRICS);
        DistinctAppend(columns, column);
        header, columns := header + [LYRICS], columns + [column];
        assert columns[..k] == old(columns);
      }
      forall j | 0 <= j < |header| && header[j] == LYRICS ensures j == k {
        if j < k {
          DistinctAt(header, j, k);
        } else if k < j {
          DistinctAt(header, k, j);
        }
      }
    }
  }
}
