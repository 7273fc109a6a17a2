/**
 * The trailer handling of the theater list page: a YouTube watch or short
 * link, as stored on a movie, is turned into the URL of YouTube's embeddable
 * player.
 */
module Trailer {
  import opened Wrappers
  import opened Text

  const SHORT_MARKER := "youtu.be/"
  const WATCH_MARKER := "watch?v="
  const EMBED_PREFIX := "https://www.youtube.com/embed/"

  predicate EndsWith(s: string, suffix: string) {
    |suffix| <= |s| && s[|s| - |suffix|..] == suffix
  }

  /** The marker the view splits on: the short-link marker takes priority over the watch marker. */
  function Marker(url: string): (m: Option<string>)
    ensures m.Some? ==> Contains(url, m.value) && (m.value == SHORT_MARKER || m.value == WATCH_MARKER)
    ensures m.None? <==> !Contains(url, SHORT_MARKER) && !Contains(url, WATCH_MARKER)
    ensures Contains(url, SHORT_MARKER) ==> m == Some(SHORT_MARKER)
  {
    if Contains(url, SHORT_MARKER) then Some(SHORT_MARKER)
    else if Contains(url, WATCH_MARKER) then Some(WATCH_MARKER)
    else None
  }

  /** The video id before it is cleaned: what follows the last occurrence of the marker. */
  function RawVideoId(url: string): Option<string>
  {
    match Marker(url)
    case None => None
    case Some(m) => Some(Last(Split(url, m)))
  }

  /** `video_id.split("&")[0].split("?")[0]`: drop any further query parameters. */
  function CutQuery(id: string): string {
    Split(Split(id, "&")[0], "?")[0]
  }

  /** The embed URL for an already stripped trailer URL. */
  function EmbedFromUrl(url: string): Option<string>
  {
    var raw := RawVideoId(url);
    if raw.Some? && raw.value != [] then Some(EMBED_PREFIX + CutQuery(raw.value)) else None
  }

  /** The embed URL the theater list page shows for a trailer URL, if any. */
  function EmbedUrl(trailerUrl: Option<string>): Option<string>
  {
    if !Truthy(trailerUrl) then None else EmbedFromUrl(Strip(trailerUrl.value))
  }

  /** `id` is the longest prefix of `tail` that holds neither '&' nor '?'. */
  predicate IsCleanPrefix(id: string, tail: string) {
    && |id| <= |tail| && id == tail[..|id|]
    && '&' !in id && '?' !in id
    && (|id| == |tail| || tail[|id|] == '&' || tail[|id|] == '?')
  }

  lemma MarkersDoNotOverlap()
    ensures LastCharUnique(SHORT_MARKER) && LastCharUnique(WATCH_MARKER)
  {
  }

  /** The cleaned id is the text up to the first '&' or '?'. */
  lemma CutQueryIsCleanPrefix(id: string)
    ensures IsCleanPrefix(CutQuery(id), id)
  {
    var a := Split(id, "&")[0];
    SplitFirstAtChar(id, '&');
    SplitFirstAtChar(a, '?');
    var c := CutQuery(id);
    assert c == a[..|c|];
    assert forall k :: 0 <= k < |c| ==> c[k] == a[k];
  }

  /**
   * What follows the last occurrence of the chosen marker: `p` is that
   * occurrence, and the raw id is empty exactly when the URL ends with the marker.
   */
  lemma RawVideoIdAfterLastMarker(url: string, m: string)
    requires Marker(url) == Some(m)
    ensures exists p: nat :: LastOccurrence(url, m, p) && RawVideoId(url) == Some(url[p + |m|..])
    ensures RawVideoId(url) == Some([]) <==> EndsWith(url, m)
  {
    MarkersDoNotOverlap();
    LastPieceAfterLastOccurrence(url, m);
    assert RawVideoId(url) == Some(Last(Split(url, m)));
  }

  /** For a marker whose occurrences cannot overlap, the last piece of the split follows its last occurrence. */
  lemma LastPieceAfterLastOccurrence(url: string, m: string)
    requires LastCharUnique(m) && Contains(url, m)
    ensures exists p: nat :: LastOccurrence(url, m, p) && Last(Split(url, m)) == url[p + |m|..]
    ensures Last(Split(url, m)) == [] <==> EndsWith(url, m)
  {
    SplitLastAfterLastOccurrence(url, m);
    var t := Last(Split(url, m));
    var p := |url| - |t| - |m|;
    EmptyAfterLastOccurrence(url, m, p);
    assert LastOccurrence(url, m, p) && t == url[p + |m|..];
  }

  /** The text after the last occurrence of `m` is empty exactly when `url` ends with `m`. */
  lemma EmptyAfterLastOccurrence(url: string, m: string, p: nat)
    requires LastOccurrence(url, m, p)
    ensures url[p + |m|..] == [] <==> EndsWith(url, m)
  {
    if EndsWith(url, m) {
      assert OccursAt(url, m, |url| - |m|);
    }
  }

  /** `EmbedUrlSpec` for a stripped URL. */
  lemma EmbedFromUrlSpec(url: string)
    ensures EmbedFromUrl(url).Some? <==> Marker(url).Some? && !EndsWith(url, Marker(url).value)
    ensures EmbedFromUrl(url).Some? ==>
      var m := Marker(url).value;
      var e := EmbedFromUrl(url).value;
      && |EMBED_PREFIX| <= |e| && e[..|EMBED_PREFIX|] == EMBED_PREFIX
      && exists p: nat :: LastOccurrence(url, m, p) && IsCleanPrefix(e[|EMBED_PREFIX|..], url[p + |m|..])
  {
    if Marker(url).Some? {
      var m := Marker(url).value;
      RawVideoIdAfterLastMarker(url, m);
      var p: nat :| LastOccurrence(url, m, p) && RawVideoId(url) == Some(url[p + |m|..]);
      var raw := url[p + |m|..];
      CutQueryIsCleanPrefix(raw);
      if raw != [] {
        var e := EMBED_PREFIX + CutQuery(raw);
        assert EmbedFromUrl(url) == Some(e);
        assert e[|EMBED_PREFIX|..] == CutQuery(raw);
        assert LastOccurrence(url, m, p) && IsCleanPrefix(e[|EMBED_PREFIX|..], url[p + |m|..]);
      }
    }
  }

  /**
   * The embed URL exists exactly when the trailer URL is non-empty, its
   * stripped form contains one of the markers (the short-link marker checked
   * first), and it does not end with that marker; the URL is then the embed
   * prefix followed by the text after the last occurrence of the marker, cut
   * at the first '&' or '?'.
   */
  lemma EmbedUrlSpec(trailerUrl: Option<string>)
    ensures EmbedUrl(trailerUrl).Some? <==>
      Truthy(trailerUrl) && Marker(Strip(trailerUrl.value)).Some?
      && !EndsWith(Strip(trailerUrl.value), Marker(Strip(trailerUrl.value)).value)
    ensures EmbedUrl(trailerUrl).Some? ==>
      var url := Strip(trailerUrl.value);
      var m := Marker(url).value;
      var e := EmbedUrl(trailerUrl).value;
      && |EMBED_PREFIX| <= |e| && e[..|EMBED_PREFIX|] == EMBED_PREFIX
      && exists p: nat :: LastOccurrence(url, m, p) && IsCleanPrefix(e[|EMBED_PREFIX|..], url[p + |m|..])
  {
    if Truthy(trailerUrl) {
      var url := Strip(trailerUrl.value);
      assert EmbedUrl(trailerUrl) == EmbedFromUrl(url);
      EmbedFromUrlSpec(url);
    }
  }

  /** The id inside an embed URL never carries '&' or '?'. */
  lemma EmbedIdHasNoQuery(trailerUrl: Option<string>)
    requires EmbedUrl(trailerUrl).Some?
    ensures var id := EmbedUrl(trailerUrl).value[|EMBED_PREFIX|..];
      '&' !in id && '?' !in id
  {
    var raw := RawVideoId(Strip(trailerUrl.value)).value;
    CutQueryIsCleanPrefix(raw);
    assert EmbedUrl(trailerUrl).value[|EMBED_PREFIX|..] == CutQuery(raw);
  }

  /**
   * As written, emptiness is tested before the id is cut at '&' and '?', so a
   * short link with no id but with a query still yields an embed URL whose id
   * is empty.
   */
  lemma EmptyIdStillEmbedded(url: string)
    requires url == "youtu.be/?t=5"
    ensures EmbedUrl(Some(url)) == Some(EMBED_PREFIX)
  {
    StripUnchanged(url);
    ShortLinkMarker(url);
    ShortLinkRawId(url);
    var raw := RawVideoId(url).value;
    assert raw != [] && raw[0] == '?';
    QueryOnlyIdIsEmpty(raw);
    assert EMBED_PREFIX + CutQuery(raw) == EMBED_PREFIX;
    assert Truthy(Some(url));
  }

  /** An id that starts with a query is cut to nothing. */
  lemma QueryOnlyIdIsEmpty(id: string)
    requires id != [] && id[0] == '?'
    ensures CutQuery(id) == []
  {
    CutQueryIsCleanPrefix(id);
  }

  lemma ShortLinkMarker(url: string)
    requires url == "youtu.be/?t=5"
    ensures Marker(url) == Some(SHORT_MARKER)
  {
    assert OccursAt(url, SHORT_MARKER, 0) by {
      assert url[0..9] == SHORT_MARKER;
    }
    ContainsIff(url, SHORT_MARKER);
  }

  lemma ShortLinkRawId(url: string)
    requires url == "youtu.be/?t=5" && Marker(url) == Some(SHORT_MARKER)
    ensures RawVideoId(url) == Some("?t=5")
  {
    RawVideoIdAfterLastMarker(url, SHORT_MARKER);
    var p: nat :| LastOccurrence(url, SHORT_MARKER, p) && RawVideoId(url) == Some(url[p + |SHORT_MARKER|..]);
    assert p == 0 by {
      assert p + 9 <= 13;
      assert url[p..p + 9][0] == 'y';
      assert url[p] == 'y';
    }
    assert url[9..] == "?t=5";
  }

  /** The embed URL with the emptiness test moved after the cut, so that an empty id gives none. */
  function EmbedUrlChecked(trailerUrl: Option<string>): Option<string>
  {
    if !Truthy(trailerUrl) then None
    else
      var raw := RawVideoId(Strip(trailerUrl.value));
      if raw.Some? && CutQuery(raw.value) != [] then Some(EMBED_PREFIX + CutQuery(raw.value)) else None
  }

  /**
   * The corrected embed URL always names a non-empty, clean video id, and it
   * agrees with the view's result whenever that result names one.
   */
  lemma EmbedUrlCheckedNamesVideo(trailerUrl: Option<string>)
    ensures EmbedUrlChecked(trailerUrl).Some? ==>
      var e := EmbedUrlChecked(trailerUrl).value;
      var id := e[|EMBED_PREFIX|..];
      |e| > |EMBED_PREFIX| && e[..|EMBED_PREFIX|] == EMBED_PREFIX && '&' !in id && '?' !in id
    ensures EmbedUrlChecked(trailerUrl).Some? <==>
      EmbedUrl(trailerUrl).Some? && |EmbedUrl(trailerUrl).value| > |EMBED_PREFIX|
    ensures EmbedUrlChecked(trailerUrl).Some? ==> EmbedUrlChecked(trailerUrl) == EmbedUrl(trailerUrl)
  {
    if Truthy(trailerUrl) {
      var raw := RawVideoId(Strip(trailerUrl.value));
      if raw.Some? {
        CutQueryIsCleanPrefix(raw.value);
        var id := CutQuery(raw.value);
        assert (EMBED_PREFIX + id)[|EMBED_PREFIX|..] == id;
        assert id != [] ==> raw.value != [];
      }
    }
  }
}
