/** The media part of a feature tile (`FeatureItem`): which of the icon
    panel, the picture, the YouTube player and the plain video element are
    drawn, decided by the optional props and by the video-id extractor. */
module FeatureItem {

  import opened Wrappers
  import opened Strings
  import opened YouTube
  import opened YouTubeLinks

  /** The props of a tile. `icon` records whether the icon node is truthy;
      an optional string is `undefined` when it is `None`. */
  datatype Props = Props(
    title: string,
    description: string,
    tagName: string,
    icon: bool,
    imageSrc: Option<string>,
    videoSrc: Option<string>,
    reverse: bool)

  /** The elements a tile can draw inside its media box. */
  datatype Element =
    | IconPanel
    | Picture(src: string, alt: string)
    | YouTubeFrame(src: string)
    | Video(src: string)

  /** The media elements of a rendered tile, or the fault the extractor
      throws while the tile renders. */
  datatype Rendering = Tile(media: set<Element>) | RenderFault

  /** JavaScript truthiness of an optional string: present and non-empty. */
  predicate Truthy(s: Option<string>) {
    s.Some? && s.value != ""
  }

  /** `youtubeVideoId`: the extractor runs on a truthy `videoSrc` only. */
  function VideoId(videoSrc: Option<string>): Resolution {
    if Truthy(videoSrc) then GetYouTubeVideoId(videoSrc.value) else NoId
  }

  /** `isYouTubeVideo`, that is `!!youtubeVideoId`: false for `null` and
      for the empty id. */
  predicate IsYouTubeVideo(r: Resolution) {
    r.Id? && r.id != ""
  }

  const PLAYER_QUERY := "?autoplay=1&mute=1&loop=1&playlist="
  const PLAYER_FLAGS := "&controls=0&showinfo=0&rel=0"

  /** The player URL built for a resolved id: it loops the video as its own
      one-item playlist, muted and without controls. */
  function EmbedUrl(id: string): string {
    EMBED_PREFIX + id + PLAYER_QUERY + id + PLAYER_FLAGS
  }

  predicate HasFrame(media: set<Element>) {
    exists e :: e in media && e.YouTubeFrame?
  }

  predicate HasVideo(media: set<Element>) {
    exists e :: e in media && e.Video?
  }

  predicate HasPicture(media: set<Element>) {
    exists e :: e in media && e.Picture?
  }

  /** The media box of `FeatureItem`. Rendering faults exactly when the
      extractor faults on a truthy `videoSrc`; otherwise a truthy
      `videoSrc` yields exactly one of the player and the plain video, and
      a missing or empty one yields neither. */
  function Render(p: Props): (r: Rendering)
    ensures r.RenderFault? <==> Truthy(p.videoSrc) && GetYouTubeVideoId(p.videoSrc.value).ParseFault?
    ensures r.Tile? ==> (HasFrame(r.media) || HasVideo(r.media) <==> Truthy(p.videoSrc))
    ensures r.Tile? ==> !(HasFrame(r.media) && HasVideo(r.media))
    ensures r.Tile? ==> forall e :: e in r.media && e.YouTubeFrame? ==>
      VideoId(p.videoSrc).Id? && e == YouTubeFrame(EmbedUrl(VideoId(p.videoSrc).id))
    ensures r.Tile? ==> forall e :: e in r.media && e.Video? ==>
      p.videoSrc.Some? && e == Video(p.videoSrc.value)
  {
    var yt := VideoId(p.videoSrc);
    if yt.ParseFault? then RenderFault
    else
      var media := Media(p, yt);
      assert IsYouTubeVideo(yt) ==> YouTubeFrame(EmbedUrl(yt.id)) in media;
      assert Truthy(p.videoSrc) && !IsYouTubeVideo(yt) ==> Video(p.videoSrc.value) in media;
      Tile(media)
  }

  /** The elements drawn for the props and the extractor's result `yt`. */
  function Media(p: Props, yt: Resolution): set<Element> {
    var icon := if p.icon then {IconPanel} else {};
    var picture := if Truthy(p.imageSrc) then {Picture(p.imageSrc.value, p.title)} else {};
    var frame := if IsYouTubeVideo(yt) then {YouTubeFrame(EmbedUrl(yt.id))} else {};
    var video := if Truthy(p.videoSrc) && !IsYouTubeVideo(yt) then {Video(p.videoSrc.value)} else {};
    icon + picture + frame + video
  }

  /** The icon panel and the picture follow their props whatever the
      extractor returned. */
  lemma MediaIconAndPicture(p: Props, yt: Resolution)
    ensures IconPanel in Media(p, yt) <==> p.icon
    ensures HasPicture(Media(p, yt)) <==> Truthy(p.imageSrc)
    ensures forall e :: e in Media(p, yt) && e.Picture? ==> e == Picture(p.imageSrc.value, p.title)
  {
    if Truthy(p.imageSrc) {
      assert Picture(p.imageSrc.value, p.title) in Media(p, yt);
    }
  }

  /** The icon panel and the picture each follow their own prop alone: the
      panel is drawn exactly when the icon is truthy, the picture exactly
      when `imageSrc` is, with that source and the title as its text. */
  lemma IconAndPicture(p: Props)
    requires Render(p).Tile?
    ensures IconPanel in Render(p).media <==> p.icon
    ensures HasPicture(Render(p).media) <==> Truthy(p.imageSrc)
    ensures forall e :: e in Render(p).media && e.Picture? ==> e == Picture(p.imageSrc.value, p.title)
  {
    assert Render(p).media == Media(p, VideoId(p.videoSrc));
    MediaIconAndPicture(p, VideoId(p.videoSrc));
  }

  /** Two tiles with the same icon, image and title draw the same icon and
      picture elements, whatever their videos. */
  lemma IconAndPictureIndependent(p: Props, q: Props)
    requires Render(p).Tile? && Render(q).Tile?
    requires p.icon == q.icon && p.imageSrc == q.imageSrc && p.title == q.title
    ensures forall e: Element :: e.IconPanel? || e.Picture? ==> (e in Render(p).media <==> e in Render(q).media)
  {
    IconAndPicture(p);
    IconAndPicture(q);
  }

  /** With a truthy `videoSrc` that does not fault, a non-empty id gives
      the player for that id and no plain video; any other result gives
      the plain video of `videoSrc` and no player. */
  lemma VideoBranches(p: Props)
    requires Truthy(p.videoSrc) && !GetYouTubeVideoId(p.videoSrc.value).ParseFault?
    ensures var r := GetYouTubeVideoId(p.videoSrc.value);
      Render(p).Tile? &&
      (IsYouTubeVideo(r) ==> YouTubeFrame(EmbedUrl(r.id)) in Render(p).media && !HasVideo(Render(p).media))
      && (!IsYouTubeVideo(r) ==> Video(p.videoSrc.value) in Render(p).media && !HasFrame(Render(p).media))
    ensures var r := GetYouTubeVideoId(p.videoSrc.value);
      Render(p).Tile? && forall e :: e in Render(p).media && e.YouTubeFrame? ==> e == YouTubeFrame(EmbedUrl(r.id))
    ensures Render(p).Tile? && forall e :: e in Render(p).media && e.Video? ==> e == Video(p.videoSrc.value)
  {
  }

  /** An empty id, as from `https://youtu.be/`, is not a YouTube video: the
      tile falls back to the plain video element. */
  lemma EmptyIdFallsBack(p: Props)
    requires Truthy(p.videoSrc) && GetYouTubeVideoId(p.videoSrc.value) == Id("")
    ensures Render(p).Tile?
    ensures Video(p.videoSrc.value) in Render(p).media && !HasFrame(Render(p).media)
  {
    VideoBranches(p);
  }

  lemma PlayerTextParts()
    ensures PLAYER_QUERY == "?autoplay=1&mute=1&loop=1&" + "playlist="
    ensures PLAYER_FLAGS == "&" + "controls=0" + "&showinfo=0&rel=0"
  {
  }

  /** The player URL holds the playlist of its own id and turns the
      controls off. */
  lemma EmbedUrlParameters(id: string)
    ensures Contains(EmbedUrl(id), "playlist=" + id)
    ensures Contains(EmbedUrl(id), "controls=0")
  {
    PlayerTextParts();
    assert EmbedUrl(id) == (EMBED_PREFIX + id + "?autoplay=1&mute=1&loop=1&") + ("playlist=" + id) + PLAYER_FLAGS;
    ContainsInMiddle(EMBED_PREFIX + id + "?autoplay=1&mute=1&loop=1&", "playlist=" + id, PLAYER_FLAGS);
    assert EmbedUrl(id) == (EMBED_PREFIX + id + PLAYER_QUERY + id + "&") + "controls=0" + "&showinfo=0&rel=0";
    ContainsInMiddle(EMBED_PREFIX + id + PLAYER_QUERY + id + "&", "controls=0", "&showinfo=0&rel=0");
  }

  lemma PlayerTextDotFree()
    ensures '.' !in PLAYER_QUERY && '.' !in PLAYER_FLAGS
  {
  }

  /** The player URL is itself an embed link that the extractor reads the
      same id back from. */
  lemma EmbedUrlResolves(id: string)
    requires IsVideoId(id)
    ensures GetYouTubeVideoId(EmbedUrl(id)) == Id(id)
  {
    PlayerTextDotFree();
    assert '.' !in id;
    var tail := PLAYER_QUERY + id + PLAYER_FLAGS;
    assert EmbedUrl(id) == EMBED_PREFIX + id + tail;
    DotFreeTail(tail);
    EmbedLinkResolves(id, tail);
  }
}
