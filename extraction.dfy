/**
 * Content extraction (`extractText` and its helpers): which text of the page is scanned,
 * by platform. The document is modelled as the values its selectors yield.
 */
module Extraction {
  import opened Wrappers
  import opened Text
  import opened Seqs
  import opened Platform
  import opened YouTube

  /** What the content script reads from the page's document, each in document order. */
  datatype Page = Page(
    url: Url,
    title: string,                 // document.title
    bodyText: Option<string>,      // document.body?.innerText
    heading: Option<string>,       // the watch-page title heading, if present
    description: Option<string>,   // the #description element, if present
    comments: seq<string>,         // the #content-text elements
    instagramNodes: seq<string>,   // headings, buttons, dialog spans, figcaptions, article spans
    tweetNodes: seq<string>)       // tweet text elements and `lang` blocks inside articles

  const MaxComments: nat := 60
  const MaxSocialNodes: nat := 80
  const MaxBodyText: nat := 8000

  /** `extractGeneric`: the first 8000 characters of the body text, else the title. */
  function GenericText(page: Page): string {
    match page.bodyText
    case None => page.title
    case Some(b) => OrElse(Take(b, MaxBodyText), page.title)
  }

  /** `extractYouTubeText`: heading (else title), description, first 60 comments; non-empty ones, one per line. */
  function YouTubePageText(page: Page): string {
    var title := OrElse(if page.heading.Some? then page.heading.value else "", page.title);
    var desc := if page.description.Some? then page.description.value else "";
    var comments := JoinLines(Take(page.comments, MaxComments));
    JoinNonEmpty([title, desc, comments])
  }

  /** The Instagram and Twitter branches: the first 80 nodes one per line, else the title. */
  function NodesText(nodes: seq<string>, title: string): string {
    OrElse(JoinLines(Take(nodes, MaxSocialNodes)), title)
  }

  /** A usable video id: present and non-empty. */
  predicate HasVideo(u: Url) {
    VideoId(u).Some? && VideoId(u).value != []
  }

  /** The transcript: the first caption language whose track yields text, or none. */
  function Transcript(page: Page, server: (string, string) -> CaptionReply, decode: string -> string): string {
    if HasVideo(page.url) then FirstNonEmpty(Transcripts(TrackText(VideoId(page.url).value, server, decode))) else ""
  }

  /** `extractText()`, the host matched against the same substrings as `getPlatform`. */
  function ExtractedText(page: Page, server: (string, string) -> CaptionReply, decode: string -> string): string {
    var host := page.url.hostname;
    if IsYouTubeHost(host) then JoinNonEmpty([Transcript(page, server, decode), YouTubePageText(page)])
    else if IsInstagramHost(host) then NodesText(page.instagramNodes, page.title)
    else if IsTwitterHost(host) then NodesText(page.tweetNodes, page.title)
    else GenericText(page)
  }

  /** The caption loop asked for `n` languages: all but the last gave no text, and it stopped at the first that did. */
  predicate StoppedAtFirstText(ts: seq<string>, n: nat) {
    1 <= n <= |ts| && (forall k :: 0 <= k < n - 1 ==> ts[k] == []) && (n == |ts| || ts[n - 1] != [])
  }

  /**
   * The caption loop of `extractText()`: tracks are requested one language at a time, in
   * order, until one yields text. `tried` lists the languages requested.
   */
  method FetchTranscript(fetch: string -> string) returns (transcript: string, tried: seq<string>)
    ensures transcript == FirstNonEmpty(Transcripts(fetch))
    ensures |tried| <= |CaptionLanguages| && tried == CaptionLanguages[..|tried|]
    ensures StoppedAtFirstText(Transcripts(fetch), |tried|)
  {
    ghost var ts := Transcripts(fetch);
    transcript := "";
    tried := [];
    var i := 0;
    while i < |CaptionLanguages|
      invariant 0 <= i <= |CaptionLanguages|
      invariant tried == CaptionLanguages[..i]
      invariant forall k :: 0 <= k < i ==> ts[k] == []
      invariant transcript == []
    {
      var l := CaptionLanguages[i];
      transcript := fetch(l);
      tried := tried + [l];
      i := i + 1;
      if transcript != [] {
        break;
      }
    }
    if transcript != [] {
      FirstNonEmptyAt(ts, i);
    }
  }

  /** `extractText()`. `tried` lists the caption languages requested. */
  method ExtractText(page: Page, server: (string, string) -> CaptionReply, decode: string -> string)
    returns (text: string, tried: seq<string>)
    ensures text == ExtractedText(page, server, decode)
    ensures |tried| <= |CaptionLanguages| && tried == CaptionLanguages[..|tried|]
    ensures IsYouTubeHost(page.url.hostname) && HasVideo(page.url) ==>
      StoppedAtFirstText(Transcripts(TrackText(VideoId(page.url).value, server, decode)), |tried|)
    ensures !(IsYouTubeHost(page.url.hostname) && HasVideo(page.url)) ==> tried == []
  {
    tried := [];
    var host := page.url.hostname;
    if IsYouTubeHost(host) {
      var vid := VideoId(page.url);
      var transcript := "";
      if vid.Some? && vid.value != "" {
        transcript, tried := FetchTranscript(TrackText(vid.value, server, decode));
      }
      text := JoinNonEmpty([transcript, YouTubePageText(page)]);
    } else if IsInstagramHost(host) {
      text := NodesText(page.instagramNodes, page.title);
    } else if IsTwitterHost(host) {
      text := NodesText(page.tweetNodes, page.title);
    } else {
      text := GenericText(page);
    }
  }

  // ------------------------------------------------------------------------------------
  // Properties of the extracted text

  /** Only the first `n` elements count: elements past the cap change nothing. */
  lemma TakeIgnoresTail<T>(xs: seq<T>, extra: seq<T>, n: nat)
    requires |xs| >= n
    ensures Take(xs + extra, n) == Take(xs, n)
  {
    assert (xs + extra)[..n] == xs[..n];
  }

  /** Nodes past the 80th change neither the Instagram nor the Twitter text. */
  lemma NodesPastCapIgnored(nodes: seq<string>, extra: seq<string>, title: string)
    requires |nodes| >= MaxSocialNodes
    ensures NodesText(nodes + extra, title) == NodesText(nodes, title)
  {
    TakeIgnoresTail(nodes, extra, MaxSocialNodes);
  }

  /** Comments past the 60th do not change the YouTube page text. */
  lemma CommentsPastCapIgnored(page: Page, extra: seq<string>)
    requires |page.comments| >= MaxComments
    ensures YouTubePageText(page.(comments := page.comments + extra)) == YouTubePageText(page)
  {
    TakeIgnoresTail(page.comments, extra, MaxComments);
  }

  /** A non-empty body text gives its first 8000 characters; an empty or missing one gives the title. */
  lemma GenericTextFacts(page: Page)
    ensures page.bodyText.None? ==> GenericText(page) == page.title
    ensures page.bodyText.Some? && page.bodyText.value != [] ==>
      GenericText(page) == Take(page.bodyText.value, MaxBodyText)
    ensures page.bodyText.Some? && page.bodyText.value == [] ==> GenericText(page) == page.title
  {
  }

  /** Away from youtube, a page with a title never yields an empty text. */
  lemma NonYouTubeTitleFallback(page: Page, server: (string, string) -> CaptionReply, decode: string -> string)
    requires !IsYouTubeHost(page.url.hostname) && page.title != []
    ensures ExtractedText(page, server, decode) != []
  {
  }

  /**
   * On youtube, the transcript comes first and the page text after it, on its own line;
   * the text is empty exactly when both are.
   */
  lemma YouTubeTextLayout(page: Page, server: (string, string) -> CaptionReply, decode: string -> string)
    requires IsYouTubeHost(page.url.hostname)
    ensures var t := Transcript(page, server, decode);
            var p := YouTubePageText(page);
            ExtractedText(page, server, decode) ==
              if t == [] then p else if p == [] then t else t + "\n" + p
  {
    JoinNonEmptyPair(Transcript(page, server, decode), YouTubePageText(page));
  }

  /** The YouTube page text is empty exactly when heading (or title), description and comments all are. */
  lemma YouTubePageTextEmpty(page: Page)
    ensures YouTubePageText(page) == [] <==>
      OrElse(if page.heading.Some? then page.heading.value else "", page.title) == [] &&
      (page.description.None? || page.description.value == []) &&
      JoinLines(Take(page.comments, MaxComments)) == []
  {
    var title := OrElse(if page.heading.Some? then page.heading.value else "", page.title);
    var desc := if page.description.Some? then page.description.value else "";
    var comments := JoinLines(Take(page.comments, MaxComments));
    var parts := [title, desc, comments];
    JoinNonEmptyFacts(parts);
    assert parts[0] == title && parts[1] == desc && parts[2] == comments;
  }
}
