# YouTube video-id extraction and feature-tile media

The feature section of the landing page shows three tiles. Each tile can draw
an icon panel, a picture, a YouTube player (`<iframe>`) or a plain `<video>`,
depending on its optional props. A helper, `getYouTubeVideoId`, decides
whether a video URL is on YouTube. It checks three substring markers in a
fixed order:

1. `youtu.be`: the id is the last `/`-segment, cut at its first `?`.
2. `youtube.com/watch`: the URL is parsed and the id is its `v` query
   parameter. Parsing may throw.
3. `youtube.com/embed/`: the id is the text after the first embed path, cut
   at the first `?`.

With no marker the helper returns `null`.

The model is pure Dafny (datatypes, functions and lemmas), in seven modules:

- `Wrappers`: `Option`.
- `Strings`: JavaScript `includes`, `split` (with its inverse `Join`) and
  `parts[parts.length - 1]`, plus facts about where pieces begin and end.
- `UrlQuery`: the part of the WHATWG URL Standard the watch branch uses:
  - `new URL(url)` (section 4.4, with no base URL);
  - the query;
  - the application/x-www-form-urlencoded parser (section 5.1);
  - `URLSearchParams.get`.
- `YouTube`: `getYouTubeVideoId` and one shape theorem per branch. The result
  is `Resolution = Id(id) | NoId | ParseFault`. `ParseFault` is the exception
  `new URL` throws.
- `YouTubeLinks`: the three canonical link forms resolve to their id, the
  sample inputs resolve as expected, and the priority quirks.
- `FeatureItem`: the props, `youtubeVideoId` / `isYouTubeVideo` (JavaScript
  truthiness), the player URL template, and the set of media elements a tile
  draws.
- `FeatureDisplay`: the three tiles of the section and what each one draws.

One consequence of the check order is proved as a lemma. A
watch link shared as `…/watch?v=<id>&feature=youtu.be` contains `youtu.be`,
so it goes through the short-link branch, which yields the id `watch`
(`YouTubeLinks.SharedWatchLinkReadsWatch`). Rendering such a `videoSrc` would
embed the wrong video. The model keeps this behaviour as the code has it.

## Model

| member | source | states |
|---|---|---|
| Strings.IndexOf | src/components/feature-display.tsx:22 | a found index is an occurrence with none before it; `None` means `t` occurs nowhere (the search behind `includes` and `split`) |
| Strings.ContainsIff | src/components/feature-display.tsx:22 | `includes` holds exactly when the needle occurs at some index |
| Strings.ContainsChar | src/components/feature-display.tsx:26 | a one-character needle is contained exactly when the character is in the string |
| Strings.Split | src/components/feature-display.tsx:23 | a split always has at least one piece, and at least two exactly when the separator occurs |
| Strings.JoinSplit | src/components/feature-display.tsx:23 | no piece contains the separator, and joining the pieces with it gives the string back |
| Strings.SplitJoin | src/components/feature-display.tsx:23 | splitting joined pieces that are free of a one-character separator gives the pieces back |
| Strings.SplitFirstPiece | src/components/feature-display.tsx:26 | the first piece starts at index 0, holds no occurrence of the separator, and ends at the first occurrence or the end |
| Strings.SplitCharHead | src/components/feature-display.tsx:26 | the first piece of a split at `c` is the longest prefix free of `c` |
| Strings.SplitCharLast | src/components/feature-display.tsx:23-24 | the last piece of a split at `c` is the longest suffix free of `c` |
| Strings.SplitSecond | src/components/feature-display.tsx:37-38 | the second piece starts just after the first separator and runs to the next one or the end |
| Strings.SecondPieceCutExact | src/components/feature-display.tsx:37-38 | the second piece cut at `c` is the text after the first separator up to the next `c` or separator |
| UrlQuery.Scheme | src/components/feature-display.tsx:31 | a recognised scheme is a valid scheme name followed by `:` |
| UrlQuery.SchemeOf | src/components/feature-display.tsx:31 | every valid scheme followed by `:` is recognised, so such URLs parse |
| UrlQuery.Query | src/components/feature-display.tsx:31-32 | the query never holds a `#` |
| UrlQuery.QueryAt | src/components/feature-display.tsx:31-32 | the query is the text between the first `?` and the first `#`, when the `?` comes first |
| UrlQuery.NoQuery | src/components/feature-display.tsx:31-32 | with no `?` before the fragment there is no query |
| UrlQuery.PlusToSpace | src/components/feature-display.tsx:32 | `+` becomes a space, every other character is kept, and the length is unchanged |
| UrlQuery.ParsePairOf | src/components/feature-display.tsx:32 | `name=value` reads back as name and value, whatever `=` the value holds |
| UrlQuery.FormPairs | src/components/feature-display.tsx:32 | never more pairs than pieces, and exactly as many when no piece is empty |
| UrlQuery.FormPairsOne | src/components/feature-display.tsx:32 | a single piece gives its name-value pair, and an empty piece gives no pair |
| UrlQuery.FormPairsAppend | src/components/feature-display.tsx:32 | pieces are read independently and in order: the pairs of `a + b` are the pairs of `a` followed by those of `b` |
| UrlQuery.Get | src/components/feature-display.tsx:32 | `get` returns the value of the first pair with the name, and `null` exactly when no pair has it |
| UrlQuery.ParseSerialize | src/components/feature-display.tsx:32 | the form parser reads serialised pairs back unchanged |
| UrlQuery.SearchParam | src/components/feature-display.tsx:31-32 | the lookup is invalid exactly when the URL does not parse |
| YouTube.GetYouTubeVideoId | src/components/feature-display.tsx:20-42 | faults exactly on a watch-page URL without `youtu.be` that does not parse; `null` exactly when no marker occurs or a watch page has no `v` |
| YouTube.ShortLinkShape | src/components/feature-display.tsx:22-27 | whenever `youtu.be` occurs, the result is an id read from the start of the last `/`-segment up to its first `?`, holding neither `/` nor `?` |
| YouTube.ShortLinkIdAt | src/components/feature-display.tsx:23-26 | the short-link id starts right after the last `/` and ends at the first `?` after it or the end |
| YouTube.ShortLinkExact | src/components/feature-display.tsx:22-27 | any pair of positions delimiting the last segment's text before its first `?` is the result, so the id is determined |
| YouTube.ShortLinkBranch | src/components/feature-display.tsx:22-27 | `youtu.be` takes priority over both other markers |
| YouTube.WatchBranch | src/components/feature-display.tsx:29-33 | without `youtu.be`, a watch path takes priority over an embed path |
| YouTube.WatchShape | src/components/feature-display.tsx:30-33 | on a watch page: a fault exactly when the URL does not parse, an id that is the value of the first `v` pair, `null` exactly when there is no query or no `v` pair |
| YouTube.EmbedIdAt | src/components/feature-display.tsx:36-38 | the embed id starts right after the first embed path and ends at the next `?`, embed path or the end |
| YouTube.EmbedShape | src/components/feature-display.tsx:36-39 | with only the embed marker, the result is an id read from just after the first embed path |
| YouTube.EmbedExact | src/components/feature-display.tsx:36-39 | any end position meeting those conditions gives the result, so the embed id is determined |
| YouTube.NoMarker | src/components/feature-display.tsx:41 | with no marker the result is `null` |
| YouTubeLinks.ShortLinkResolves | src/components/feature-display.tsx:22-27 | `https://youtu.be/<d>` followed by nothing or a `?…` tail resolves to `d` |
| YouTubeLinks.WatchLinkResolves | src/components/feature-display.tsx:30-33 | `https://www.youtube.com/watch?v=<d>` followed by nothing or an `&…` tail resolves to `d` |
| YouTubeLinks.WatchLinkQuery | src/components/feature-display.tsx:31-32 | the query of a watch link is `v=<d>` and its tail |
| YouTubeLinks.WatchQueryPairs | src/components/feature-display.tsx:32 | in that query, the first `v` pair has the value `d` |
| YouTubeLinks.EmbedLinkResolves | src/components/feature-display.tsx:36-38 | `https://www.youtube.com/embed/<d>` followed by nothing or a `?…` tail resolves to `d` |
| YouTubeLinks.EmbedPathFirstAt | src/components/feature-display.tsx:37 | in an embed link the embed path first occurs at index 12 |
| YouTubeLinks.SharedWatchLinkReadsWatch | src/components/feature-display.tsx:22-33 | a watch link ending in `&feature=youtu.be` resolves to `watch`, not to its `v` value |
| YouTubeLinks.WatchPageWithoutQuery | src/components/feature-display.tsx:30-33 | a watch page without `?` resolves to `null` |
| YouTubeLinks.SchemelessWatchFaults | src/components/feature-display.tsx:30-31 | a watch path with no scheme before it faults |
| YouTubeLinks.ShortLinkSample | src/components/feature-display.tsx:22-27 | `https://youtu.be/abc123?si=xyz` resolves to `abc123` |
| YouTubeLinks.CollaborationLinkSample | src/components/feature-display.tsx:169 | the collaboration tile's link resolves to `Li7uBMGQinw` |
| YouTubeLinks.EmptyShortLinkSamples | src/components/feature-display.tsx:26 | `https://youtu.be/` and `https://youtu.be/?x` give the empty id |
| YouTubeLinks.WatchLinkSample | src/components/feature-display.tsx:30-33 | a watch link with a further `t` parameter resolves to its `v` value |
| YouTubeLinks.EmbedLinkSample | src/components/feature-display.tsx:36-38 | an embed link with a player query resolves to its id |
| YouTubeLinks.PlainVideoSample | src/components/feature-display.tsx:41 | a plain `.mp4` URL gives `null` |
| YouTubeLinks.BareWatchSample | src/components/feature-display.tsx:30-33 | the bare watch page gives `null` |
| YouTubeLinks.ShortLinkPrioritySample | src/components/feature-display.tsx:22-27 | a watch link holding `youtu.be` resolves through the short-link branch |
| YouTubeLinks.WatchPrioritySample | src/components/feature-display.tsx:29-39 | a watch link that also holds an embed path resolves through the watch branch |
| YouTubeLinks.SchemelessWatchSample | src/components/feature-display.tsx:31 | `youtube.com/watch?v=abc123` faults |
| FeatureItem.Render | src/components/feature-display.tsx:54-131 | a tile faults exactly when the extractor faults on a truthy `videoSrc`; otherwise it draws the player or the plain video exactly when `videoSrc` is truthy, never both, any player is the one for the extracted id and any video is the one of `videoSrc` |
| FeatureItem.MediaIconAndPicture | src/components/feature-display.tsx:88-108 | the icon panel and the picture follow their own props, whatever the extractor returned |
| FeatureItem.IconAndPicture | src/components/feature-display.tsx:88-108 | the icon panel is drawn exactly when `icon` is truthy, a picture exactly when `imageSrc` is, and every picture shows `imageSrc` with the title as its text |
| FeatureItem.IconAndPictureIndependent | src/components/feature-display.tsx:88-108 | tiles with the same icon, image and title draw the same icon and picture elements, whatever their videos |
| FeatureItem.VideoBranches | src/components/feature-display.tsx:111-131 | a non-empty id draws the player for that id and no plain video; any other result draws the plain video and no player; no other player or video is drawn |
| FeatureItem.EmptyIdFallsBack | src/components/feature-display.tsx:55 | an empty id is not a YouTube video, so the tile falls back to the plain video |
| FeatureItem.EmbedUrlParameters | src/components/feature-display.tsx:113 | the player URL holds `playlist=` followed by the id, and `controls=0` |
| FeatureItem.EmbedUrlResolves | src/components/feature-display.tsx:113 | the player URL built for a well-formed id resolves back to that id |
| FeatureDisplay.AutomationTile | src/components/feature-display.tsx:150-155 | the automation tile draws only the icon panel |
| FeatureDisplay.AnalyticsTile | src/components/feature-display.tsx:157-163 | the analytics tile draws only its picture, titled by the tile |
| FeatureDisplay.CollaborationTile | src/components/feature-display.tsx:165-170 | the collaboration tile draws only the player for `Li7uBMGQinw` |

## Left out

- Layout and styling are not modelled: class names, the `reverse` flex direction, the text column with tag, title and description. The prop `reverse` is carried but unused.
- `motion/react` animations are left out. They are timing and presentation from an external library.
- `next/image` and the `lucide-react` icon are external components. A picture is modelled as its `src` and `alt`. The icon is modelled as a boolean: whether the node is truthy.
- The iframe's `allow` and `allowFullScreen` attributes, and the `<video>` playback flags, are fixed markup. Only the element kinds and their `src` (and `alt`) are modelled.
- Rendering order inside the media box is not modelled: the media are a set.
- UrlQuery.Parses: simplified. A URL fails to parse exactly when it has no valid scheme before its first `:`. The model leaves out other WHATWG failures: bad hosts or ports, the special-scheme handling of `\`, and leading/trailing control and space characters. It also does not remove ASCII tab and newline characters, which `new URL` strips from anywhere in its input. So the model says `ht<tab>tps://www.youtube.com/watch?v=x` does not parse, while the source returns `x`.
- UrlQuery.SearchParam: neither names nor values are percent-decoded, and the query is not percent-encoded, unlike `URLSearchParams`. For example, `?%76=abc` has the name `v` in the source but gives `null` in the model. A tab or newline inside a value is kept, while the source drops it.
- Strings are sequences of Unicode characters. JavaScript strings are UTF-16 code units, which only matters for astral characters; no marker or delimiter involves one.
- Idempotence and determinism of the extractor need no lemma, because a Dafny function always gives the same result for the same input.
- The fault `new URL` throws is modelled as a value: `ParseFault` from the extractor, propagated as `RenderFault` by a tile. The surrounding React error handling is not part of this model.
- `src/components/pricing-section.tsx` and `src/app/page.tsx` are not part of this model. They are fixed content with no logic beyond a display suffix.
