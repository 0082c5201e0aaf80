/**
  What `process_csv_file` in genius_lyrics_scraper/scraper.py does with a lyric
  string the provider returned: delete the embed footer, strip, and replace
  the provider's placeholder texts (unreleased songs, short instrumental
  notes) by a fixed status.
 */
module Cleaning {
  import opened Text

  const EMBED_FOOTER: string := "EmbedShare URLCopyEmbedCopy"
  const NOT_RELEASED: string := "lyrics for this song have yet to be released"
  const INSTRUMENTAL: string := "instrumental"
  /** Below this many characters a text mentioning "instrumental" counts as a placeholder. */
  const SHORT_LENGTH: nat := 150
  const NOT_AVAILABLE: string := "Lyrics Not Available"

  /** `lyrics.replace('EmbedShare URLCopyEmbedCopy', '').strip()`. */
  function CleanLyrics(raw: string): string {
    Strip(RemoveAll(raw, EMBED_FOOTER))
  }

  /** The cleaned text is stripped and no longer than the raw text, and it is
      just the stripped raw text when the footer does not occur. */
  lemma CleanLyricsShape(raw: string)
    ensures IsStripped(CleanLyrics(raw)) && |CleanLyrics(raw)| <= |raw|
    ensures !Contains(raw, EMBED_FOOTER) ==> CleanLyrics(raw) == Strip(raw)
  {
    var a, b := StripSpan(RemoveAll(raw, EMBED_FOOTER));
  }

  /** The placeholder test on the cleaned text (case-insensitive substrings, and
      a length measured on the cleaned text itself). */
  predicate IsPlaceholder(cleaned: string) {
    var lower := Lower(cleaned);
    Contains(lower, NOT_RELEASED) || (Contains(lower, INSTRUMENTAL) && |cleaned| < SHORT_LENGTH)
  }

  /** The value written to the row for a non-empty lyric string. */
  function StoredLyrics(raw: string): string {
    var cleaned := CleanLyrics(raw);
    if IsPlaceholder(cleaned) then NOT_AVAILABLE else cleaned
  }

  /** What is stored is never itself a placeholder. */
  lemma StoredIsNoPlaceholder(raw: string)
    ensures !IsPlaceholder(StoredLyrics(raw))
  {
    NotAvailableIsNoPlaceholder();
  }

  /** A placeholder is replaced by the fixed status and anything else is stored
      cleaned. */
  lemma StoredLyricsMeaning(raw: string)
    ensures StoredLyrics(raw) == NOT_AVAILABLE <==> IsPlaceholder(CleanLyrics(raw)) || CleanLyrics(raw) == NOT_AVAILABLE
    ensures StoredLyrics(raw) != NOT_AVAILABLE ==> StoredLyrics(raw) == CleanLyrics(raw)
  {
    NotAvailableIsNoPlaceholder();
  }

  /** Lyrics made only of whitespace are stored as the empty string, and the
      row still counts as processed. */
  lemma BlankLyricsStoredEmpty(raw: string)
    requires forall k | 0 <= k < |raw| :: IsSpace(raw[k])
    ensures StoredLyrics(raw) == []
  {
    assert 'E' !in raw by {
      forall k | 0 <= k < |raw| ensures raw[k] != 'E' {
        assert IsSpace(raw[k]);
      }
    }
    LacksCharacter(raw, EMBED_FOOTER, 0);
    StripEmpty(raw);
  }

  /** `pat` cannot occur in a text that lacks one of its characters. */
  lemma LacksCharacter(s: string, pat: string, k: nat)
    requires k < |pat| && pat[k] !in s
    ensures !Contains(s, pat)
  {
    forall i: nat | i <= |s| ensures !OccursAt(s, pat, i) {
      if i + |pat| <= |s| {
        assert s[i..i + |pat|][k] == s[i + k];
      }
    }
  }

  /** A lower-cased text has no 'u' when the text has neither 'u' nor 'U'. */
  lemma LowerLacksU(s: string)
    requires 'u' !in s && 'U' !in s
    ensures 'u' !in Lower(s)
  {
    forall i | 0 <= i < |s| ensures Lower(s)[i] != 'u' {
      assert s[i] in s;
    }
  }

  /** A text with no 'u' in either case does not mention "instrumental" once lower-cased. */
  lemma NoInstrumental(s: string)
    requires 'u' !in s && 'U' !in s
    ensures !Contains(Lower(s), INSTRUMENTAL)
  {
    LowerLacksU(s);
    assert INSTRUMENTAL[5] == 'u';
    LacksCharacter(Lower(s), INSTRUMENTAL, 5);
  }

  /** A text shorter than the not-released phrase cannot contain it. */
  lemma TooShortForNotReleased(s: string)
    requires |s| < |NOT_RELEASED|
    ensures !Contains(Lower(s), NOT_RELEASED)
  {
  }

  /** The fixed status is not itself taken for a placeholder. */
  lemma NotAvailableIsNoPlaceholder()
    ensures !IsPlaceholder(NOT_AVAILABLE)
  {
    NoInstrumental(NOT_AVAILABLE);
    TooShortForNotReleased(NOT_AVAILABLE);
  }

  /** A short cleaned text mentioning "instrumental", in any letter case, is
      stored as the fixed status. */
  lemma ShortInstrumentalNotAvailable(raw: string)
    requires Contains(Lower(CleanLyrics(raw)), INSTRUMENTAL) && |CleanLyrics(raw)| < SHORT_LENGTH
    ensures StoredLyrics(raw) == NOT_AVAILABLE
  {
  }

  lemma FooterScenarioCleaned(w: string)
    requires w == " Some lyrics here"
    ensures CleanLyrics(EMBED_FOOTER + w) == w[1..]
  {
    RemoveAllLeading(EMBED_FOOTER, w);
    assert |w| < |EMBED_FOOTER|;
    assert w[1..][0] == 'S' && w[1..][|w| - 2] == 'e';
    StripLeadingSpace(w);
  }

  lemma FooterScenarioText(w: string)
    requires w == " Some lyrics here"
    ensures w[1..] == "Some lyrics here"
  {
  }

  lemma FooterScenarioNoPlaceholder(c: string)
    requires c == "Some lyrics here"
    ensures !IsPlaceholder(c)
  {
    NoInstrumental(c);
    TooShortForNotReleased(c);
  }

  /** The embed footer in front of the lyrics is removed with the space after it. */
  lemma FooterScenario(raw: string)
    requires raw == EMBED_FOOTER + " Some lyrics here"
    ensures StoredLyrics(raw) == "Some lyrics here"
  {
    var w := " Some lyrics here";
    FooterScenarioCleaned(w);
    FooterScenarioText(w);
    FooterScenarioNoPlaceholder(CleanLyrics(raw));
  }

  /** No footer starts within the first 18 characters of the nested-footer text. */
  lemma NestedFooterPrefix(u: string, v: string, j: nat)
    requires u == "EmbedShare URLCopy" && v == "EmbedCopy" && j < |u|
    ensures !OccursAt(u + EMBED_FOOTER + v, EMBED_FOOTER, j)
  {
    var s := u + EMBED_FOOTER + v;
    if j == 0 {
      assert s[23] == 'S' && EMBED_FOOTER[23] == 'C';
      assert s[0..|EMBED_FOOTER|][23] == s[23];
    } else {
      assert s[j] == u[j] == u[1..][j - 1];
      assert u[1..] == "mbedShare URLCopy";
      assert 'E' !in u[1..];
      assert s[j..j + |EMBED_FOOTER|][0] == s[j];
    }
  }

  /** The pass keeps the first 18 characters and deletes the inner footer. */
  lemma NestedFooterRemoved(u: string, v: string)
    requires u == "EmbedShare URLCopy" && v == "EmbedCopy"
    ensures RemoveAll(u + EMBED_FOOTER + v, EMBED_FOOTER) == u + v
  {
    forall j: nat | j < |u| ensures !OccursAt(u + EMBED_FOOTER + v, EMBED_FOOTER, j) {
      NestedFooterPrefix(u, v, j);
    }
    RemoveAllAround(u, EMBED_FOOTER, v);
  }

  /** `replace` makes a single pass, so a footer split around another footer
      survives the cleaning. */
  lemma SinglePassLeavesFooter(u: string, v: string)
    requires u == "EmbedShare URLCopy" && v == "EmbedCopy"
    ensures CleanLyrics(u + EMBED_FOOTER + v) == EMBED_FOOTER
  {
    NestedFooterRemoved(u, v);
    NestedFooterHalves(u, v);
    FooterStripped(EMBED_FOOTER);
    StripStripped(EMBED_FOOTER);
  }

  lemma NestedFooterHalves(u: string, v: string)
    requires u == "EmbedShare URLCopy" && v == "EmbedCopy"
    ensures u + v == EMBED_FOOTER
  {
  }

  lemma FooterStripped(f: string)
    requires f == EMBED_FOOTER
    ensures IsStripped(f)
  {
    assert f[0] == 'E' && f[|f| - 1] == 'y';
  }
}
