/** The video handling of backup/app.js: a click on a thumbnail replaces
    it with an autoplaying embed, with no state shared between players. */
module ClickEmbed {
  import opened Options
  import opened Browser

  datatype Content = Thumbnail | Player(src: string)

  /** A `.video-wrapper` with its `data-video-id` and what it shows. */
  datatype Wrapper = Wrapper(videoId: string, content: Content)

  const EmbedPrefix: string := "https://www.youtube.com/embed/"
  const AutoplaySuffix: string := "?autoplay=1"

  /** The `src` of the created iframe. */
  function EmbedSrc(videoId: string): string {
    EmbedPrefix + videoId + AutoplaySuffix
  }

  /** Reads the video id back out of an embed address of this shape. */
  function VideoIdOfSrc(src: string): Option<string> {
    var p := |EmbedPrefix|;
    var q := |AutoplaySuffix|;
    if |src| >= p + q && src[..p] == EmbedPrefix && src[|src| - q..] == AutoplaySuffix
    then Some(src[p..|src| - q])
    else None
  }

  /** The embed address determines the video: reading it back gives the
      id it was built from. */
  lemma EmbedSrcRoundTrip(videoId: string)
    ensures VideoIdOfSrc(EmbedSrc(videoId)) == Some(videoId)
  {
    var src := EmbedSrc(videoId);
    assert src[..|EmbedPrefix|] == EmbedPrefix;
    assert src[|src| - |AutoplaySuffix|..] == AutoplaySuffix;
    assert src[|EmbedPrefix|..|src| - |AutoplaySuffix|] == videoId;
  }

  /** The click handler of wrapper `w`'s thumbnail. A wrapper that no
      longer shows its thumbnail cannot be clicked. */
  function Click(wrappers: map<WrapperId, Wrapper>, w: WrapperId): map<WrapperId, Wrapper> {
    if w in wrappers && wrappers[w].content == Thumbnail
    then wrappers[w := wrappers[w].(content := Player(EmbedSrc(wrappers[w].videoId)))]
    else wrappers
  }

  /** A click turns exactly the clicked wrapper into a player of its own
      video and leaves every other wrapper as it was, players included. */
  lemma ClickSpec(wrappers: map<WrapperId, Wrapper>, w: WrapperId)
    ensures Click(wrappers, w).Keys == wrappers.Keys
    ensures w in wrappers && wrappers[w].content == Thumbnail ==>
      && Click(wrappers, w)[w].videoId == wrappers[w].videoId
      && Click(wrappers, w)[w].content.Player?
      && VideoIdOfSrc(Click(wrappers, w)[w].content.src) == Some(wrappers[w].videoId)
    ensures forall v :: v in wrappers && v != w ==> Click(wrappers, w)[v] == wrappers[v]
    ensures w in wrappers && wrappers[w].content.Player? ==> Click(wrappers, w) == wrappers
  {
    if w in wrappers && wrappers[w].content == Thumbnail {
      EmbedSrcRoundTrip(wrappers[w].videoId);
    }
  }

  /** Clicking two thumbnails leaves two players: nothing pauses or removes
      the first. */
  lemma PlayersAccumulate(wrappers: map<WrapperId, Wrapper>, a: WrapperId, b: WrapperId)
    requires a in wrappers && b in wrappers && a != b
    requires wrappers[a].content == Thumbnail && wrappers[b].content == Thumbnail
    ensures Click(Click(wrappers, a), b)[a].content == Player(EmbedSrc(wrappers[a].videoId))
    ensures Click(Click(wrappers, a), b)[b].content == Player(EmbedSrc(wrappers[b].videoId))
  {
  }
}
