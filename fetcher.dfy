/**
  The lyric fetcher of genius_lyrics_scraper/scraper.py (`get_lyrics`): the
  song title is cut before any featuring-artist annotation and stripped, and
  the provider's search is invoked only when artist and cleaned title are
  non-empty. The provider itself is outside the model: its answer for a call
  is given as a `Response`, and every way the call can go wrong collapses to
  None, as the source's `return None` paths do.
 */
module Fetcher {
  import opened Wrappers
  import opened Text

  const FEAT_PAREN: string := " (feat"
  const FT_PAREN: string := " (ft."
  const FEAT_BRACKET: string := " [feat"
  const FT_BRACKET: string := " [ft."

  predicate IsMarker(m: string) {
    m == FEAT_PAREN || m == FT_PAREN || m == FEAT_BRACKET || m == FT_BRACKET
  }

  /** Some featuring marker starts at index `i` of `t`. */
  predicate MarkerAt(t: string, i: nat) {
    OccursAt(t, FEAT_PAREN, i) || OccursAt(t, FT_PAREN, i)
    || OccursAt(t, FEAT_BRACKET, i) || OccursAt(t, FT_BRACKET, i)
  }

  /** `song_title_cleaned`: the title cut at ' (feat', then ' (ft.', then ' [feat',
      then ' [ft.' (each a `split(...)[0]`, case-sensitive), then stripped. */
  function CleanTitle(title: string): string {
    Strip(Before(Before(Before(Before(title, FEAT_PAREN), FT_PAREN), FEAT_BRACKET), FT_BRACKET))
  }

  /** Reference definition: the first index at or after `from` where any marker
      starts, or `|t|` when there is none. */
  function FirstMarker(t: string, from: nat): (k: nat)
    requires from <= |t|
    ensures from <= k <= |t|
    ensures k < |t| ==> MarkerAt(t, k)
    ensures forall j: nat | from <= j < k :: !MarkerAt(t, j)
    decreases |t| - from
  {
    if from == |t| then |t|
    else if MarkerAt(t, from) then from
    else FirstMarker(t, from + 1)
  }

  /** Every marker has its only space at index 0. */
  lemma MarkerSpaces(m: string, i: nat)
    requires IsMarker(m) && 0 < i < |m|
    ensures m[i] != ' '
  {
  }

  /** A possible cut point of `t`: its end, or a place where a marker starts. */
  predicate Boundary(t: string, c: nat) {
    c <= |t| && (c < |t| ==> MarkerAt(t, c))
  }

  /** A marker ending inside the prefix `t[..c]` occurs there exactly when it occurs in `t`. */
  lemma PrefixOccurs(t: string, c: nat, m: string, j: nat)
    requires c <= |t| && j + |m| <= c
    ensures OccursAt(t[..c], m, j) == OccursAt(t, m, j)
  {
    assert t[..c] == t[0..c];
    SliceOfSlice(t, 0, c, j, |m|);
  }

  /** Every marker starts with a space. */
  lemma MarkerStartsWithSpace(t: string, c: nat)
    requires c < |t| && MarkerAt(t, c)
    ensures t[c] == ' '
  {
    assert c + 5 <= |t|;
    assert t[c..c + 5][0] == t[c];
    if c + 6 <= |t| {
      assert t[c..c + 6][0] == t[c];
    }
  }

  /** No marker can start before a boundary and run across it: the boundary
      holds a space, and a marker has a space only at its start. */
  lemma NoStraddle(t: string, c: nat, m: string, j: nat)
    requires Boundary(t, c) && IsMarker(m) && j < c < j + |m|
    ensures !OccursAt(t, m, j)
  {
    if j + |m| <= |t| {
      MarkerStartsWithSpace(t, c);
      MarkerSpaces(m, c - j);
      assert t[j..j + |m|][c - j] == t[c];
    }
  }

  /** One `split(m)[0]` applied to the prefix `t[..c]` cut at a boundary gives a
      prefix cut at a boundary, before which `m` does not start anywhere in `t`. */
  lemma CutStep(t: string, c: nat, m: string) returns (d: nat)
    requires Boundary(t, c) && IsMarker(m)
    ensures d <= c && Boundary(t, d) && Before(t[..c], m) == t[..d]
    ensures forall j: nat | j < d :: !OccursAt(t, m, j)
  {
    var p := t[..c];
    var r := Before(p, m);
    d := |r|;
    assert p[..d] == t[..d];
    if d < c {
      PrefixOccurs(t, c, m, d);
    }
    forall j: nat | j < d ensures !OccursAt(t, m, j) {
      if j + |m| <= c {
        PrefixOccurs(t, c, m, j);
      } else {
        NoStraddle(t, c, m, j);
      }
    }
  }

  /** The four cuts together cut `t` at the first place where any marker starts. */
  lemma CutPoint(t: string) returns (k: nat)
    ensures k <= |t|
    ensures Before(Before(Before(Before(t, FEAT_PAREN), FT_PAREN), FEAT_BRACKET), FT_BRACKET) == t[..k]
    ensures k == FirstMarker(t, 0)
  {
    assert t[..|t|] == t;
    var c1 := CutStep(t, |t|, FEAT_PAREN);
    var c2 := CutStep(t, c1, FT_PAREN);
    var c3 := CutStep(t, c2, FEAT_BRACKET);
    k := CutStep(t, c3, FT_BRACKET);
    assert forall j: nat | j < k :: !MarkerAt(t, j);
    FirstMarkerUnique(t, k);
  }

  /** A boundary before which no marker starts is the first marker position. */
  lemma FirstMarkerUnique(t: string, k: nat)
    requires Boundary(t, k) && forall j: nat | j < k :: !MarkerAt(t, j)
    ensures FirstMarker(t, 0) == k
  {
  }

  /** A featured artist in parentheses is cut off together with the space
      before it: "God's Plan (feat. Someone)" cleans to "God's Plan". */
  lemma FeaturedTitleScenario(title: string)
    requires title == "God's Plan (feat. Someone)"
    ensures CleanTitle(title) == "God's Plan"
  {
    CleanTitleCutsAtFirstMarker(title);
    FeaturedTitleMarker(title);
    FirstMarkerUnique(title, 10);
    FeaturedTitlePrefix(title);
  }

  /** The scenario's title up to its marker is already stripped. */
  lemma FeaturedTitlePrefix(title: string)
    requires title == "God's Plan (feat. Someone)"
    ensures Strip(title[..10]) == "God's Plan"
  {
    assert title[..10] == "God's Plan";
    StripStripped("God's Plan");
  }

  /** In the scenario's title the first marker starts at index 10. */
  lemma FeaturedTitleMarker(title: string)
    requires title == "God's Plan (feat. Someone)"
    ensures Boundary(title, 10) && forall j: nat | j < 10 :: !MarkerAt(title, j)
  {
    assert title[10..16] == FEAT_PAREN;
    forall j: nat | j < 10 ensures !MarkerAt(title, j) {
      if MarkerAt(title, j) {
        MarkerStartsWithSpace(title, j);
        FeaturedTitleSpaces(title);
      }
    }
  }

  /** The scenario's title has its only space before index 10 at index 5, where
      no marker starts. */
  lemma FeaturedTitleSpaces(title: string)
    requires title == "God's Plan (feat. Someone)"
    ensures !MarkerAt(title, 5) && forall j: nat | j < 10 && j != 5 :: title[j] != ' '
  {
    assert title[5..10] == " Plan";
    assert title[5..10][1] == title[6];
    assert title[5..11][1] == title[6];
  }

  /** The chained `split`s agree with "cut at the earliest marker of any kind". */
  lemma CleanTitleCutsAtFirstMarker(title: string)
    ensures CleanTitle(title) == Strip(title[..FirstMarker(title, 0)])
  {
    var k := CutPoint(title);
  }

  /** The cleaned title is the stripped form of a prefix of the title, and just
      the stripped title when the title holds no marker. */
  lemma CleanTitleIsStrippedPrefix(title: string)
    ensures exists k: nat | k <= |title| :: CleanTitle(title) == Strip(title[..k])
    ensures (forall j: nat | j < |title| :: !MarkerAt(title, j)) ==> CleanTitle(title) == Strip(title)
  {
    var k := CutPoint(title);
    if forall j: nat | j < |title| :: !MarkerAt(title, j) {
      assert k == |title|;
      assert title[..k] == title;
    }
  }

  /** A slice of a string in which no marker starts has no marker of any kind. */
  lemma NoMarkerInSlice(t: string, k: nat, a: nat, b: nat, m: string)
    requires k <= |t| && a <= b <= k && IsMarker(m)
    requires forall j: nat | j < k :: !MarkerAt(t, j)
    ensures !Contains(t[..k][a..b], m)
  {
    var p := t[..k];
    forall j: nat | j <= b - a ensures !OccursAt(p[a..b], m, j) {
      if j + |m| <= b - a {
        SliceOfSlice(p, a, b, j, |m|);
        PrefixOccurs(t, k, m, a + j);
        assert !MarkerAt(t, a + j);
      }
    }
  }

  /** The cleaned title is stripped and holds none of the four markers. */
  lemma CleanTitleHasNoMarker(title: string)
    ensures IsStripped(CleanTitle(title))
    ensures forall m | IsMarker(m) :: !Contains(CleanTitle(title), m)
  {
    var k := CutPoint(title);
    var a, b := StripSpan(title[..k]);
    forall m | IsMarker(m) ensures !Contains(CleanTitle(title), m) {
      NoMarkerInSlice(title, k, a, b, m);
    }
  }

  /** Cleaning a cleaned title changes nothing. */
  lemma CleanTitleIdempotent(title: string)
    ensures CleanTitle(CleanTitle(title)) == CleanTitle(title)
  {
    var r := CleanTitle(title);
    CleanTitleHasNoMarker(title);
    assert IsMarker(FEAT_PAREN) && IsMarker(FT_PAREN) && IsMarker(FEAT_BRACKET) && IsMarker(FT_BRACKET);
    assert Before(r, FEAT_PAREN) == r;
    assert Before(r, FT_PAREN) == r;
    assert Before(r, FEAT_BRACKET) == r;
    assert Before(r, FT_BRACKET) == r;
    StripStripped(r);
  }

  /** A non-empty title without surrounding whitespace (what the driver passes)
      never cleans to the empty string: no marker can start at index 0, since
      every marker starts with a space. */
  lemma CleanTitleNonEmpty(title: string)
    requires title != [] && IsStripped(title)
    ensures CleanTitle(title) != []
  {
    var k := CutPoint(title);
    assert |title| >= 5 ==> title[0..5][0] == title[0];
    assert |title| >= 6 ==> title[0..6][0] == title[0];
    assert !MarkerAt(title, 0);
    assert k >= 1;
    var p := title[..k];
    assert p[0] == title[0];
    StripEmpty(p);
  }

  /** What the provider's `search_song` produces for one call: a match whose
      `lyrics` is a string, a match whose `lyrics` is a truthy value that is
      not a string, no match, or an exception. */
  datatype Response = Found(lyrics: string) | FoundNonString | NotFound | Raised

  /** A non-None value returned by `get_lyrics`. */
  datatype LyricsValue = Str(text: string) | NonStr

  /** The arguments of one `search_song` call. */
  datatype Query = Query(title: string, artist: string)

  /** The search call `get_lyrics` made (None: no call) and what it returned. */
  datatype Fetch = Fetch(request: Option<Query>, lyrics: Option<LyricsValue>)

  /** `get_lyrics(artist, song_title, genius)`, with the provider's answer given. */
  function GetLyrics(artist: string, songTitle: string, response: Response): (f: Fetch)
    ensures f.request.Some? <==> artist != [] && CleanTitle(songTitle) != []
    ensures f.request.Some? ==> f.request.value == Query(CleanTitle(songTitle), artist)
    ensures f.lyrics.Some? ==> f.request.Some? && (response.Found? || response.FoundNonString?)
    ensures f.request.Some? && response.Found? ==> f.lyrics == Some(Str(response.lyrics))
    ensures f.request.Some? && response.FoundNonString? ==> f.lyrics == Some(NonStr)
    ensures response.NotFound? || response.Raised? ==> f.lyrics.None?
  {
    var cleaned := CleanTitle(songTitle);
    if artist == [] || cleaned == [] then Fetch(None, None)
    else
      var lyrics := match response
        case Found(text) => Some(Str(text))
        case FoundNonString => Some(NonStr)
        case NotFound => None
        case Raised => None;
      Fetch(Some(Query(cleaned, artist)), lyrics)
  }

  /** For the arguments the driver passes (non-empty and stripped), the empty
      guard never fires: the search is made with the cleaned title, and a
      string from the provider is returned as it is. */
  lemma SearchGuardNeverFires(artist: string, songTitle: string, response: Response)
    requires artist != [] && songTitle != [] && IsStripped(songTitle)
    ensures GetLyrics(artist, songTitle, response).request == Some(Query(CleanTitle(songTitle), artist))
    ensures response.Found? ==> GetLyrics(artist, songTitle, response).lyrics == Some(Str(response.lyrics))
    ensures response.FoundNonString? ==> GetLyrics(artist, songTitle, response).lyrics == Some(NonStr)
  {
    CleanTitleNonEmpty(songTitle);
  }
}
