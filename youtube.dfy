/** The YouTube video-id extractor `getYouTubeVideoId` of the feature
    display: three substring markers checked in a fixed order, each with its
    own way of reading the id out of the URL. */
module YouTube {

  import opened Wrappers
  import opened Strings
  import opened UrlQuery

  /** What the extractor yields: an id (possibly empty), `null`, or the
      exception `new URL` throws on a watch-page URL it cannot parse. */
  datatype Resolution = Id(id: string) | NoId | ParseFault

  const SHORT_HOST := "youtu.be"
  const WATCH_PATH := "youtube.com/watch"
  const EMBED_PATH := "youtube.com/embed/"

  /** Short-link branch: the last `/`-separated segment, cut at its first `?`. */
  function ShortLinkId(url: string): string {
    Split(Last(Split(url, "/")), "?")[0]
  }

  /** Watch-page branch: the `v` query parameter of the parsed URL. */
  function WatchId(url: string): Resolution {
    match SearchParam(url, "v")
    case Found(v) => Id(v)
    case Absent => NoId
    case Invalid => ParseFault
  }

  /** Embed branch: the second piece of splitting at the embed path, cut at
      its first `?`. The marker occurs, so there are at least two pieces. */
  function EmbedId(url: string): string
    requires Contains(url, EMBED_PATH)
  {
    Split(Split(url, EMBED_PATH)[1], "?")[0]
  }

  /** `getYouTubeVideoId`. Only the watch-page branch can fault, and only on
      a URL that does not parse; `null` comes from a URL with no marker or
      from a watch page without a `v` parameter. */
  function GetYouTubeVideoId(url: string): (r: Resolution)
    ensures r.ParseFault? <==>
      !Contains(url, SHORT_HOST) && Contains(url, WATCH_PATH) && !Parses(url)
    ensures r.NoId? <==>
      !Contains(url, SHORT_HOST)
      && ((Contains(url, WATCH_PATH) && SearchParam(url, "v").Absent?)
          || (!Contains(url, WATCH_PATH) && !Contains(url, EMBED_PATH)))
  {
    if Contains(url, SHORT_HOST) then Id(ShortLinkId(url))
    else if Contains(url, WATCH_PATH) then WatchId(url)
    else if Contains(url, EMBED_PATH) then Id(EmbedId(url))
    else NoId
  }

  /** `id` is the short-link id of `url` read from index `k`: `k` starts the
      last `/`-segment, and `id` is that segment up to its first `?`. */
  predicate ShortLinkAt(url: string, k: int, id: string) {
    0 <= k && k + |id| <= |url|
    && (k == 0 || url[k - 1] == '/') && '/' !in url[k..]
    && url[k..k + |id|] == id && '?' !in id
    && (k + |id| == |url| || url[k + |id|] == '?')
  }

  /** The short-link branch reads from the start of the last segment. */
  lemma ShortLinkIdAt(url: string)
    ensures ShortLinkAt(url, AfterLast(url, '/'), ShortLinkId(url))
  {
    var k := AfterLast(url, '/');
    LastSegment(url);
    var seg := url[k..];
    assert ShortLinkId(url) == Split(seg, "?")[0];
    SplitCharHeadShape(seg, '?');
    PrefixOfSuffix(url, k, Split(seg, "?")[0], '?');
  }

  /** The last `/`-separated segment starts after the last `/`. */
  lemma LastSegment(url: string)
    ensures Last(Split(url, "/")) == url[AfterLast(url, '/')..]
  {
    SplitCharLast(url, '/', AfterLast(url, '/'));
  }

  /** The short-link id ends at the first `?` of the last segment. */
  lemma ShortLinkIdExact(url: string, k: nat, j: nat)
    requires k <= j <= |url| && (k == 0 || url[k - 1] == '/') && '/' !in url[k..]
    requires '?' !in url[k..j] && (j == |url| || url[j] == '?')
    ensures ShortLinkId(url) == url[k..j]
  {
    SplitCharLast(url, '/', k);
    var seg := url[k..];
    assert Last(Split(url, "/")) == seg;
    assert seg[..j - k] == url[k..j];
    assert j - k == |seg| || seg[j - k] == '?';
    SplitCharHead(seg, '?', j - k);
  }

  lemma ShortLinkBranch(url: string)
    requires Contains(url, SHORT_HOST)
    ensures GetYouTubeVideoId(url) == Id(ShortLinkId(url))
  {
  }

  /** Short-link shape and priority: whenever `youtu.be` occurs, whatever
      else the URL holds, the result is an id with no `/` and no `?`, read
      from the start of the last segment up to the first `?` after it. */
  lemma ShortLinkShape(url: string)
    requires Contains(url, SHORT_HOST)
    ensures GetYouTubeVideoId(url).Id?
    ensures ShortLinkAt(url, AfterLast(url, '/'), GetYouTubeVideoId(url).id)
    ensures '/' !in GetYouTubeVideoId(url).id
  {
    ShortLinkBranch(url);
    ShortLinkIdAt(url);
    var k := AfterLast(url, '/');
    var id := ShortLinkId(url);
    assert id == url[k..][..|id|];
  }

  /** The converse: any position pair that delimits the last segment's text
      before its first `?` gives the result, so the id is determined. */
  lemma ShortLinkExact(url: string, k: nat, j: nat)
    requires Contains(url, SHORT_HOST)
    requires k <= j <= |url| && (k == 0 || url[k - 1] == '/') && '/' !in url[k..]
    requires '?' !in url[k..j] && (j == |url| || url[j] == '?')
    ensures GetYouTubeVideoId(url) == Id(url[k..j])
  {
    ShortLinkBranch(url);
    ShortLinkIdExact(url, k, j);
  }

  /** Watch-page priority: without `youtu.be`, a watch path wins over an
      embed path. */
  lemma WatchBranch(url: string)
    requires !Contains(url, SHORT_HOST) && Contains(url, WATCH_PATH)
    ensures GetYouTubeVideoId(url) == WatchId(url)
  {
  }

  /** Watch-page shape: with no `youtu.be` but a watch path, the URL faults
      exactly when it does not parse; otherwise the id is the value of the
      first `v` pair of its query, and `null` means there is no such pair. */
  lemma WatchShape(url: string)
    requires !Contains(url, SHORT_HOST) && Contains(url, WATCH_PATH)
    ensures GetYouTubeVideoId(url).ParseFault? <==> !Parses(url)
    ensures GetYouTubeVideoId(url).Id? ==>
      Parses(url) && Query(url).Some? &&
      var pairs := ParseForm(Query(url).value);
      exists i :: 0 <= i < |pairs| && pairs[i] == ("v", GetYouTubeVideoId(url).id)
        && forall j :: 0 <= j < i ==> pairs[j].0 != "v"
    ensures GetYouTubeVideoId(url).NoId? ==>
      Parses(url) &&
      (Query(url).None? ||
       forall i :: 0 <= i < |ParseForm(Query(url).value)| ==> ParseForm(Query(url).value)[i].0 != "v")
  {
  }

  /** `id` is the embed id of `url` read from `start`: the text from there
      up to the first `?` or the next occurrence of the embed path. */
  predicate EmbedAt(url: string, start: int, id: string) {
    CutPieceAt(url, EMBED_PATH, '?', start, id)
  }

  /** The embed branch reads from just after the first embed path. */
  lemma EmbedIdAt(url: string)
    requires Contains(url, EMBED_PATH)
    ensures EmbedAt(url, IndexOf(url, EMBED_PATH).value + |EMBED_PATH|, EmbedId(url))
  {
    SecondPieceCutAt(url, EMBED_PATH, '?');
  }

  /** The embed id ends at the first `?` or embed path after `start`. */
  lemma EmbedIdExact(url: string, start: nat, j: nat)
    requires Contains(url, EMBED_PATH)
    requires start == IndexOf(url, EMBED_PATH).value + |EMBED_PATH|
    requires start <= j <= |url| && '?' !in url[start..j]
    requires forall p :: start <= p < j ==> !OccursAt(url, EMBED_PATH, p)
    requires j == |url| || url[j] == '?' || OccursAt(url, EMBED_PATH, j)
    ensures EmbedId(url) == url[start..j]
  {
    SecondPieceCutExact(url, EMBED_PATH, '?', start, j);
  }

  lemma EmbedBranch(url: string)
    requires !Contains(url, SHORT_HOST) && !Contains(url, WATCH_PATH)
    requires Contains(url, EMBED_PATH)
    ensures GetYouTubeVideoId(url) == Id(EmbedId(url))
  {
  }

  /** Embed shape: with neither earlier marker, the id is read from just
      after the first embed path, up to the next `?` or embed path. */
  lemma EmbedShape(url: string)
    requires !Contains(url, SHORT_HOST) && !Contains(url, WATCH_PATH)
    requires Contains(url, EMBED_PATH)
    ensures GetYouTubeVideoId(url).Id?
    ensures EmbedAt(url, IndexOf(url, EMBED_PATH).value + |EMBED_PATH|, GetYouTubeVideoId(url).id)
  {
    EmbedBranch(url);
    EmbedIdAt(url);
  }

  /** The converse: the end of the embed id is determined. */
  lemma EmbedExact(url: string, start: nat, j: nat)
    requires !Contains(url, SHORT_HOST) && !Contains(url, WATCH_PATH)
    requires Contains(url, EMBED_PATH)
    requires start == IndexOf(url, EMBED_PATH).value + |EMBED_PATH|
    requires start <= j <= |url| && '?' !in url[start..j]
    requires forall p :: start <= p < j ==> !OccursAt(url, EMBED_PATH, p)
    requires j == |url| || url[j] == '?' || OccursAt(url, EMBED_PATH, j)
    ensures GetYouTubeVideoId(url) == Id(url[start..j])
  {
    EmbedBranch(url);
    EmbedIdExact(url, start, j);
  }

  /** No marker, no id. */
  lemma NoMarker(url: string)
    requires !Contains(url, SHORT_HOST) && !Contains(url, WATCH_PATH) && !Contains(url, EMBED_PATH)
    ensures GetYouTubeVideoId(url) == NoId
  {
  }
}
