/** The three URL shapes the extractor recognises, written out as
    `https://youtu.be/<id>…`, `https://www.youtube.com/watch?v=<id>…` and
    `https://www.youtube.com/embed/<id>…`, and proofs that each yields its id
    back; then the extractor on sample inputs, and the priority quirks. */
module YouTubeLinks {

  import opened Wrappers
  import opened Strings
  import opened UrlQuery
  import opened YouTube

  /** The characters of a YouTube video id. */
  predicate IsIdChar(c: char) {
    'a' <= c <= 'z' || 'A' <= c <= 'Z' || '0' <= c <= '9' || c == '-' || c == '_'
  }

  predicate IsVideoId(d: string) {
    forall c :: c in d ==> IsIdChar(c)
  }

  const SHORT_PREFIX := "https://youtu.be/"
  const WATCH_PREFIX := "https://www.youtube.com/watch?v="
  const EMBED_PREFIX := "https://www.youtube.com/embed/"

  // ---- The short-link marker and the long host name ----

  lemma ShortHostNotInDomain()
    ensures !Contains("youtube.com", SHORT_HOST)
  {
    var s, t := "youtube.com", SHORT_HOST;
    assert s == "youtube" + ['.'] + "com";
    forall i | 0 <= i <= |s| - |t| ensures !OccursAt(s, t, i) {
      if i == 2 {
        MismatchAt(s, t, 2, 0);
      } else {
        CharElsewhere("youtube", '.', "com", i + 5);
        MismatchAt(s, t, i, 5);
      }
    }
    NotContainsAt(s, t);
  }

  lemma ShortHostNotInHost()
    ensures !Contains("https://www.youtube.com", SHORT_HOST)
  {
    assert "https://www." + "youtube.com" == "https://www.youtube.com";
    ShortHostNotInDomain();
    NotContainsPrefixed("https://www.", "youtube.com", SHORT_HOST);
  }

  /** A string with a piece that lacks `t`, a separator not in `t`, and a
      rest that lacks `t` lacks `t`; the rest may be empty. */
  lemma NotContainsBeforeTail(a: string, c: char, tail: string, t: string)
    requires |t| > 0 && !Contains(a, t) && c !in t && !Contains(tail, t)
    requires tail == "" || tail[0] == c
    ensures !Contains(a + tail, t)
  {
    if tail == "" {
      assert a + tail == a;
    } else {
      NotContainsSlice(tail, t, 1, |tail|);
      assert tail[1..|tail|] == tail[1..];
      assert a + tail == a + [c] + tail[1..];
      NotContainsAround(a, c, tail[1..], t);
    }
  }

  /** A path holding no `youtu.be` after the long host holds none. */
  lemma HostPathHasNoShortHost(r: string)
    requires !Contains(r, SHORT_HOST)
    ensures !Contains("https://www.youtube.com" + ['/'] + r, SHORT_HOST)
  {
    assert '/' !in SHORT_HOST;
    ShortHostNotInHost();
    NotContainsAround("https://www.youtube.com", '/', r, SHORT_HOST);
  }

  // ---- Short links ----

  /** `https://youtu.be/<d><tail>` yields `d` when `d` has no `/` or `?` and
      the tail is empty or a `?`-query without `/`. */
  lemma ShortLinkResolves(d: string, tail: string)
    requires '/' !in d && '?' !in d
    requires tail == "" || tail[0] == '?'
    requires '/' !in tail
    ensures GetYouTubeVideoId(SHORT_PREFIX + d + tail) == Id(d)
  {
    var url := SHORT_PREFIX + d + tail;
    assert url[..|SHORT_PREFIX|] == SHORT_PREFIX;
    assert url[8..16] == SHORT_PREFIX[8..16] == SHORT_HOST;
    assert OccursAt(url, SHORT_HOST, 8);
    assert url[17..] == d + tail;
    assert url[17..17 + |d|] == d;
    ShortLinkExact(url, 17, 17 + |d|);
  }

  // ---- Watch pages ----

  /** The part of a watch link after the host holds no `youtu.be`. */
  lemma WatchPathHasNoShortHost(d: string, tail: string)
    requires IsVideoId(d) && !Contains(tail, SHORT_HOST)
    requires tail == "" || tail[0] == '&'
    ensures !Contains("watch" + ['?'] + ("v=" + d + tail), SHORT_HOST)
  {
    var vd := "v=" + d;
    assert '.' !in vd;
    MissingChar(vd, SHORT_HOST, 5);
    NotContainsBeforeTail(vd, '&', tail, SHORT_HOST);
    NotContainsAround("watch", '?', vd + tail, SHORT_HOST);
  }

  lemma WatchLinkHasNoShortHost(d: string, tail: string)
    requires IsVideoId(d) && !Contains(tail, SHORT_HOST)
    requires tail == "" || tail[0] == '&'
    ensures !Contains(WATCH_PREFIX + d + tail, SHORT_HOST)
  {
    var r := "watch" + ['?'] + ("v=" + d + tail);
    assert WATCH_PREFIX + d + tail == "https://www.youtube.com" + ['/'] + r;
    WatchPathHasNoShortHost(d, tail);
    HostPathHasNoShortHost(r);
  }

  /** A watch link parses: it starts with the scheme `https`. */
  lemma WatchLinkParses(d: string, tail: string)
    ensures Parses(WATCH_PREFIX + d + tail)
  {
    var url := WATCH_PREFIX + d + tail;
    assert IsScheme("https");
    assert url == "https" + ":" + url[6..];
    SchemeOf("https", url[6..]);
  }

  /** The query of a watch link is everything after its `?`. */
  lemma WatchPrefixParts()
    ensures WATCH_PREFIX == "https://www.youtube.com/watch" + "?" + "v="
    ensures '?' !in "https://www.youtube.com/watch" && '#' !in "https://www.youtube.com/watch"
  {
  }

  lemma WatchLinkQuery(d: string, tail: string)
    requires IsVideoId(d) && '#' !in tail
    ensures Query(WATCH_PREFIX + d + tail) == Some("v=" + d + tail)
  {
    WatchPrefixParts();
    var start := "https://www.youtube.com/watch";
    assert WATCH_PREFIX + d + tail == start + "?" + ("v=" + d + tail);
    QueryAfter(start, "v=" + d + tail);
  }

  /** The form pairs of `v=<d><tail>` start with `("v", d)`. */
  lemma WatchQueryPairs(d: string, tail: string)
    requires IsVideoId(d) && (tail == "" || tail[0] == '&')
    ensures Get(ParseForm("v=" + d + tail), "v") == Some(d)
  {
    var q := "v=" + d + tail;
    assert q[..2 + |d|] == "v=" + d;
    assert "v=" + d == "v" + "=" + d;
    SplitCharHead(q, '&', 2 + |d|);
    var parts := Split(q, "&");
    assert parts[0] == "v=" + d;
    assert FormPairs(parts) == [ParsePair(parts[0])] + FormPairs(parts[1..]);
    ParsePairOf("v", d);
    PlusFree(d);
    PlusFree("v");
    assert ParseForm(q)[0] == ("v", d);
  }

  /** `https://www.youtube.com/watch?v=<d><tail>` yields `d` when the tail
      is empty or starts a further `&` pair, has no fragment and does not
      mention `youtu.be`. */
  lemma WatchLinkResolves(d: string, tail: string)
    requires IsVideoId(d)
    requires tail == "" || tail[0] == '&'
    requires !Contains(tail, SHORT_HOST) && '#' !in tail
    ensures GetYouTubeVideoId(WATCH_PREFIX + d + tail) == Id(d)
  {
    var url := WATCH_PREFIX + d + tail;
    assert url[..|WATCH_PREFIX|] == WATCH_PREFIX;
    assert url[12..29] == WATCH_PREFIX[12..29] == WATCH_PATH;
    assert OccursAt(url, WATCH_PATH, 12);
    WatchLinkHasNoShortHost(d, tail);
    WatchLinkParses(d, tail);
    WatchLinkQuery(d, tail);
    WatchQueryPairs(d, tail);
    assert SearchParam(url, "v") == Found(d);
  }

  // ---- Embed pages ----

  lemma EmbedLinkHasNoShortHost(d: string, tail: string)
    requires IsVideoId(d) && !Contains(tail, SHORT_HOST)
    requires tail == "" || tail[0] == '?'
    ensures !Contains(EMBED_PREFIX + d + tail, SHORT_HOST)
  {
    var r := "embed" + ['/'] + (d + tail);
    assert EMBED_PREFIX + d + tail == "https://www.youtube.com" + ['/'] + r;
    MissingChar(d, SHORT_HOST, 5);
    NotContainsBeforeTail(d, '?', tail, SHORT_HOST);
    NotContainsAround("embed", '/', d + tail, SHORT_HOST);
    HostPathHasNoShortHost(r);
  }

  /** The watch path does not occur in `youtube.com/embed/<d>`. */
  lemma WatchPathNotInEmbedPath(d: string)
    requires IsVideoId(d)
    ensures !Contains("youtube.com/embed/" + d, WATCH_PATH)
  {
    var z := "com/embed/" + d;
    var y, t := "youtube" + ['.'] + z, WATCH_PATH;
    assert "youtube.com/embed/" + d == y;
    assert '.' !in z;
    forall i | 0 <= i <= |y| - |t| ensures !OccursAt(y, t, i) {
      if i == 0 {
        assert y[12] == z[4] == 'e';
        MismatchAt(y, t, 0, 12);
      } else {
        CharElsewhere("youtube", '.', z, i + 7);
        MismatchAt(y, t, i, 7);
      }
    }
    NotContainsAt(y, t);
  }

  lemma EmbedHostHasNoWatchPath(d: string)
    requires IsVideoId(d)
    ensures !Contains("//www.youtube.com/embed/" + d, WATCH_PATH)
  {
    assert "//www.youtube.com/embed/" + d == "//www." + ("youtube.com/embed/" + d);
    WatchPathNotInEmbedPath(d);
    NotContainsPrefixed("//www.", "youtube.com/embed/" + d, WATCH_PATH);
  }

  lemma WatchPathPunctuation()
    ensures '?' !in WATCH_PATH && ':' !in WATCH_PATH
  {
  }

  lemma EmbedPrefixParts()
    ensures EMBED_PREFIX == "https" + [':'] + "//www.youtube.com/embed/"
  {
  }

  lemma EmbedLinkHasNoWatchPath(d: string, tail: string)
    requires IsVideoId(d) && !Contains(tail, WATCH_PATH)
    requires tail == "" || tail[0] == '?'
    ensures !Contains(EMBED_PREFIX + d + tail, WATCH_PATH)
  {
    WatchPathPunctuation();
    EmbedPrefixParts();
    var h := "//www.youtube.com/embed/" + d;
    assert EMBED_PREFIX + d + tail == "https" + [':'] + (h + tail);
    EmbedHostHasNoWatchPath(d);
    NotContainsBeforeTail(h, '?', tail, WATCH_PATH);
    NotContainsAround("https", ':', h + tail, WATCH_PATH);
  }

  /** The embed path first occurs at index 12 of an embed link. */
  lemma EmbedPathFirstAt(d: string, tail: string)
    ensures IndexOf(EMBED_PREFIX + d + tail, EMBED_PATH) == Some(12)
  {
    var url := EMBED_PREFIX + d + tail;
    assert url[..|EMBED_PREFIX|] == EMBED_PREFIX;
    assert url[12..30] == EMBED_PREFIX[12..30] == EMBED_PATH;
    assert OccursAt(url, EMBED_PATH, 12);
    assert url[..12] == "https://www.";
    forall i | 0 <= i < 12 ensures !OccursAt(url, EMBED_PATH, i) {
      assert url[i] == url[..12][i];
      MismatchAt(url, EMBED_PATH, i, 0);
    }
  }

  /** No embed path starts inside the id of an embed link. */
  lemma NoEmbedPathInId(d: string, tail: string, p: int)
    requires IsVideoId(d) && (tail == "" || tail[0] == '?')
    requires 30 <= p < 30 + |d|
    ensures !OccursAt(EMBED_PREFIX + d + tail, EMBED_PATH, p)
  {
    var url := EMBED_PREFIX + d + tail;
    if p + |EMBED_PATH| <= |url| {
      if p + 7 < 30 + |d| {
        assert url[p + 7] == d[p - 23];
        assert d[p - 23] in d;
        MismatchAt(url, EMBED_PATH, p, 7);
      } else {
        var m := 30 + |d| - p;
        assert url[30 + |d|] == tail[0];
        assert EMBED_PATH[m] in EMBED_PATH;
        MismatchAt(url, EMBED_PATH, p, m);
      }
    }
  }

  /** `https://www.youtube.com/embed/<d><tail>` yields `d` when the tail is
      empty or a `?`-query that mentions neither earlier marker. */
  lemma EmbedLinkResolves(d: string, tail: string)
    requires IsVideoId(d)
    requires tail == "" || tail[0] == '?'
    requires !Contains(tail, SHORT_HOST) && !Contains(tail, WATCH_PATH)
    ensures GetYouTubeVideoId(EMBED_PREFIX + d + tail) == Id(d)
  {
    var url := EMBED_PREFIX + d + tail;
    EmbedLinkHasNoShortHost(d, tail);
    EmbedLinkHasNoWatchPath(d, tail);
    EmbedPathFirstAt(d, tail);
    forall p | 30 <= p < 30 + |d| ensures !OccursAt(url, EMBED_PATH, p) {
      NoEmbedPathInId(d, tail, p);
    }
    assert url[30..30 + |d|] == d;
    EmbedExact(url, 30, 30 + |d|);
  }

  // ---- Priority and faults ----

  lemma SharedWatchTextFacts()
    ensures '/' !in "watch?v=" && '/' !in "&feature=youtu.be"
    ensures WATCH_PREFIX == "https://www.youtube.com/" + "watch?v="
  {
  }

  /** The last `/`-segment of a shared watch link starts with `watch?`. */
  lemma SharedWatchLinkSegment(d: string)
    requires '/' !in d
    ensures var url := WATCH_PREFIX + d + "&feature=youtu.be";
      |url| > 29 && url[23] == '/' && '/' !in url[24..] && url[24..29] == "watch" && url[29] == '?'
  {
    SharedWatchTextFacts();
    var rest := "watch?v=" + d + "&feature=youtu.be";
    var url := WATCH_PREFIX + d + "&feature=youtu.be";
    assert url == "https://www.youtube.com/" + rest;
    assert url[24..] == rest;
    assert '/' !in rest;
    assert rest[..5] == "watch";
  }

  /** A watch page shared with `feature=youtu.be` goes through the
      short-link branch, which reads `watch` as the id: the order of the
      checks decides, not the id. */
  lemma SharedWatchLinkReadsWatch(d: string)
    requires '/' !in d
    ensures GetYouTubeVideoId(WATCH_PREFIX + d + "&feature=youtu.be") == Id("watch")
  {
    var url := WATCH_PREFIX + d + "&feature=youtu.be";
    var front := WATCH_PREFIX + d + "&feature=";
    assert url == front + SHORT_HOST + "";
    ContainsInMiddle(front, SHORT_HOST, "");
    SharedWatchLinkSegment(d);
    ShortLinkExact(url, 24, 29);
  }

  /** A watch-page prefix `https://www.youtube.com/watch` followed by a
      tail without `youtu.be` holds no `youtu.be`. */
  lemma WatchPageHasNoShortHost(tail: string)
    requires !Contains(tail, SHORT_HOST)
    ensures !Contains("https://www.youtube.com/watch" + tail, SHORT_HOST)
  {
    assert "https://www.youtube.com/watch" + tail == "https://www.youtube.com" + ['/'] + ("watch" + tail);
    NotContainsPrefixed("watch", tail, SHORT_HOST);
    HostPathHasNoShortHost("watch" + tail);
  }

  /** A watch-page prefix parses, whatever follows it. */
  lemma WatchPageParses(tail: string)
    ensures Parses("https://www.youtube.com/watch" + tail)
    ensures Contains("https://www.youtube.com/watch" + tail, WATCH_PATH)
  {
    var url := "https://www.youtube.com/watch" + tail;
    assert url[12..29] == WATCH_PATH;
    assert OccursAt(url, WATCH_PATH, 12);
    assert url == "https" + ":" + url[6..];
    SchemeOf("https", url[6..]);
  }

  /** A string without `?` has no query. */
  lemma QueryFree(url: string)
    requires '?' !in url
    ensures Query(url).None?
  {
    SplitCharHeadShape(url, '#');
    var h := |Split(url, "#")[0]|;
    forall p | 0 <= p < h ensures url[..h][p] != '?' {
      assert url[..h][p] == url[p];
    }
    NoQuery(url, h);
  }

  lemma WatchPageTextFacts()
    ensures '?' !in "https://www.youtube.com/watch"
  {
  }

  /** A watch page without a `?` has no `v` parameter: `null`, not a fault. */
  lemma WatchPageWithoutQuery(tail: string)
    requires '?' !in tail && !Contains(tail, SHORT_HOST)
    ensures GetYouTubeVideoId("https://www.youtube.com/watch" + tail) == NoId
  {
    var url := "https://www.youtube.com/watch" + tail;
    WatchPageTextFacts();
    WatchPageHasNoShortHost(tail);
    WatchPageParses(tail);
    QueryFree(url);
  }

  /** The short-link marker is not in `youtube.com/watch<tail>` when it is
      not in the tail. */
  lemma WatchPathHasNoShortHostAfter(tail: string)
    requires !Contains(tail, SHORT_HOST)
    ensures !Contains(WATCH_PATH + tail, SHORT_HOST)
  {
    assert WATCH_PATH + tail == "youtube.com" + ['/'] + ("watch" + tail);
    NotContainsPrefixed("watch", tail, SHORT_HOST);
    ShortHostNotInDomain();
    NotContainsAround("youtube.com", '/', "watch" + tail, SHORT_HOST);
  }

  /** A watch path in a string without a scheme is a parse fault. */
  lemma SchemelessWatchFaults(tail: string)
    requires ':' !in tail && !Contains(tail, SHORT_HOST)
    ensures GetYouTubeVideoId(WATCH_PATH + tail) == ParseFault
  {
    var url := WATCH_PATH + tail;
    assert url[..17] == WATCH_PATH;
    assert OccursAt(url, WATCH_PATH, 0);
    WatchPathHasNoShortHostAfter(tail);
    assert ':' !in url;
    ContainsChar(url, ':');
  }

  // ---- Sample inputs ----

  /** A short link with a share query. */
  lemma ShortLinkSample()
    ensures GetYouTubeVideoId("https://youtu.be/abc123?si=xyz") == Id("abc123")
  {
    assert "https://youtu.be/abc123?si=xyz" == SHORT_PREFIX + "abc123" + "?si=xyz";
    ShortLinkResolves("abc123", "?si=xyz");
  }

  /** The link of the collaboration tile. */
  lemma CollaborationLinkSample()
    ensures GetYouTubeVideoId("https://youtu.be/" + "Li7uBMGQinw" + "?si=rIGOtKnYaAszpGaO") == Id("Li7uBMGQinw")
  {
    ShortLinkResolves("Li7uBMGQinw", "?si=rIGOtKnYaAszpGaO");
  }

  /** Short links with nothing after the host's `/` give the empty id. */
  lemma EmptyShortLinkSamples()
    ensures GetYouTubeVideoId("https://youtu.be/") == Id("")
    ensures GetYouTubeVideoId("https://youtu.be/?x") == Id("")
  {
    assert "https://youtu.be/" == SHORT_PREFIX + "" + "";
    ShortLinkResolves("", "");
    assert "https://youtu.be/?x" == SHORT_PREFIX + "" + "?x";
    ShortLinkResolves("", "?x");
  }

  /** A watch page with a further parameter. */
  lemma WatchLinkSample()
    ensures GetYouTubeVideoId("https://www.youtube.com/watch?v=abc123&t=10") == Id("abc123")
  {
    assert "https://www.youtube.com/watch?v=abc123&t=10" == WATCH_PREFIX + "abc123" + "&t=10";
    assert IsVideoId("abc123");
    WatchLinkResolves("abc123", "&t=10");
  }

  /** Both earlier markers hold a `.`, so a tail without one holds
      neither. */
  lemma DotFreeTail(tail: string)
    requires '.' !in tail
    ensures !Contains(tail, SHORT_HOST) && !Contains(tail, WATCH_PATH)
  {
    MissingChar(tail, SHORT_HOST, 5);
    MissingChar(tail, WATCH_PATH, 7);
  }

  /** An embed page with a player query. */
  lemma EmbedLinkSample()
    ensures GetYouTubeVideoId("https://www.youtube.com/embed/" + "abc123" + "?autoplay=1") == Id("abc123")
  {
    DotFreeTail("?autoplay=1");
    assert IsVideoId("abc123");
    EmbedLinkResolves("abc123", "?autoplay=1");
  }

  /** A plain video file has no marker. */
  lemma PlainVideoSample()
    ensures GetYouTubeVideoId("https://example.com/video.mp4") == NoId
  {
    var url := "https://example.com/video.mp4";
    MissingChar(url, SHORT_HOST, 0);
    MissingChar(url, WATCH_PATH, 0);
    MissingChar(url, EMBED_PATH, 0);
    NoMarker(url);
  }

  /** The bare watch page. */
  lemma BareWatchSample()
    ensures GetYouTubeVideoId("https://www.youtube.com/watch") == NoId
  {
    assert "https://www.youtube.com/watch" + "" == "https://www.youtube.com/watch";
    WatchPageWithoutQuery("");
  }

  lemma ShortLinkPrioritySample()
    ensures GetYouTubeVideoId("https://www.youtube.com/watch?v=" + "abc123" + "&feature=youtu.be") == Id("watch")
  {
    SharedWatchLinkReadsWatch("abc123");
  }

  lemma EmbedPathParts()
    ensures EMBED_PATH == "youtube.com" + ['/'] + "embed/" && '.' !in "embed/"
  {
  }

  /** An embed path followed by text without a `.` holds no short-link
      marker. */
  lemma EmbedPathHasNoShortHost(x: string)
    requires '.' !in x
    ensures !Contains(EMBED_PATH + x, SHORT_HOST)
  {
    EmbedPathParts();
    ShortHostNotInDomain();
    AroundAppend("youtube.com", '/', "embed/", x);
    MissingChar("embed/" + x, SHORT_HOST, 5);
    NotContainsAround("youtube.com", '/', "embed/" + x, SHORT_HOST);
  }

  /** A `&next=` piece holding an embed path holds no short-link marker. */
  lemma NextTailHasNoShortHost(x: string)
    requires '.' !in x
    ensures !Contains("&next=" + (EMBED_PATH + x), SHORT_HOST)
  {
    assert 'y' !in "&next=";
    EmbedPathHasNoShortHost(x);
    NotContainsPrefixed("&next=", EMBED_PATH + x, SHORT_HOST);
  }

  /** A later embed path loses to the watch path. */
  lemma WatchPrioritySample()
    ensures GetYouTubeVideoId("https://www.youtube.com/watch?v=" + "abc123" + ("&next=" + ("youtube.com/embed/" + "x"))) == Id("abc123")
  {
    NextTailHasNoShortHost("x");
    assert IsVideoId("abc123");
    WatchLinkResolves("abc123", "&next=" + (EMBED_PATH + "x"));
  }

  lemma SchemelessWatchSample()
    ensures GetYouTubeVideoId("youtube.com/watch" + "?v=abc123") == ParseFault
  {
    MissingChar("?v=abc123", SHORT_HOST, 5);
    SchemelessWatchFaults("?v=abc123");
  }
}
