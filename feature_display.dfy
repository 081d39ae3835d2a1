/** The feature section (`FeatureDisplay`): its three tiles as an ordered
    list of props, and what each of them draws. */
module FeatureDisplay {

  import opened Wrappers
  import opened YouTube
  import opened YouTubeLinks
  import opened FeatureItem

  const AUTOMATION_TITLE := "Streamline your workflow with AI-powered tools"
  const ANALYTICS_TITLE := "Make data-driven decisions with powerful insights"
  const COLLABORATION_TITLE := "Work together seamlessly with your team"

  const ANALYTICS_IMAGE := "/images/download.jpeg"
  const COLLABORATION_VIDEO := "https://youtu.be/" + "Li7uBMGQinw" + "?si=rIGOtKnYaAszpGaO"

  /** The tiles in display order: an icon tile, a reversed image tile and
      a video tile. */
  const FEATURES: seq<Props> := [
    Props(AUTOMATION_TITLE,
          "Our intelligent automation tools help you save time by handling repetitive tasks, allowing you to focus on what matters most - creating exceptional products.",
          "Automation", true, None, None, false),
    Props(ANALYTICS_TITLE,
          "Gain valuable insights into your performance with comprehensive analytics. Visualize trends, track progress, and identify opportunities for growth with our intuitive dashboards.",
          "Analytics", false, Some(ANALYTICS_IMAGE), None, true),
    Props(COLLABORATION_TITLE,
          "Foster effective collaboration with real-time communication tools. Share ideas, provide feedback, and work together on projects regardless of physical location.",
          "Collaboration", false, None, Some(COLLABORATION_VIDEO), false)
  ]

  /** The icon tile draws only the icon panel. */
  lemma AutomationTile()
    ensures Render(FEATURES[0]) == Tile({IconPanel})
  {
  }

  /** The image tile draws only its picture, titled by the tile. */
  lemma AnalyticsTile()
    ensures Render(FEATURES[1]) == Tile({Picture(ANALYTICS_IMAGE, ANALYTICS_TITLE)})
  {
  }

  /** The video tile draws only the looping player of `Li7uBMGQinw`. */
  lemma CollaborationTile()
    ensures Render(FEATURES[2]) == Tile({YouTubeFrame(EmbedUrl("Li7uBMGQinw"))})
  {
    var p := FEATURES[2];
    assert p.videoSrc == Some(COLLABORATION_VIDEO) && !p.icon && p.imageSrc == None;
    CollaborationLinkSample();
    assert VideoId(p.videoSrc) == Id("Li7uBMGQinw");
  }
}
