/** `getPlatform`: the platform is read off the page's host name by substring tests, in order. */
module Platform {
  import opened Text

  datatype Platform = YouTube | Instagram | Twitter | OtherPlatform

  /** The string the source returns. */
  function PlatformName(p: Platform): string {
    match p
    case YouTube => "youtube"
    case Instagram => "instagram"
    case Twitter => "twitter"
    case OtherPlatform => "other"
  }

  predicate IsYouTubeHost(host: string) { Contains(host, "youtube") }

  predicate IsInstagramHost(host: string) { Contains(host, "instagram") }

  predicate IsTwitterHost(host: string) { Contains(host, "twitter") || Contains(host, "x.com") }

  function GetPlatform(host: string): Platform {
    if IsYouTubeHost(host) then YouTube
    else if IsInstagramHost(host) then Instagram
    else if IsTwitterHost(host) then Twitter
    else OtherPlatform
  }

  /**
   * The tests run in order: a host naming youtube is youtube whatever else it names;
   * instagram needs no youtube; twitter (or `x.com`) needs neither; the rest is other.
   */
  lemma GetPlatformOrder(host: string)
    ensures GetPlatform(host) == YouTube <==> exists q :: IsAt(host, "youtube", q)
    ensures GetPlatform(host) == Instagram <==>
      (forall q :: !IsAt(host, "youtube", q)) && exists q :: IsAt(host, "instagram", q)
    ensures GetPlatform(host) == Twitter <==>
      (forall q :: !IsAt(host, "youtube", q)) && (forall q :: !IsAt(host, "instagram", q)) &&
      ((exists q :: IsAt(host, "twitter", q)) || exists q :: IsAt(host, "x.com", q))
    ensures GetPlatform(host) == OtherPlatform <==>
      (forall q :: !IsAt(host, "youtube", q)) && (forall q :: !IsAt(host, "instagram", q)) &&
      (forall q :: !IsAt(host, "twitter", q)) && (forall q :: !IsAt(host, "x.com", q))
  {
  }

  /** Substring tests on the whole host: any host holding `youtube` is youtube. */
  lemma YouTubeHostExample()
    ensures GetPlatform("m.youtube.com") == YouTube
  {
    assert IsAt("m.youtube.com", "youtube", 2);
  }

  lemma InstagramHostExample()
    ensures GetPlatform("www.instagram.com") == Instagram
  {
    AbsentCharNoMatch("www.instagram.com", "youtube", 0);
    assert IsAt("www.instagram.com", "instagram", 4);
  }

  /** `x.com` is a substring test too, so any host ending in `x.com` counts as twitter. */
  lemma TwitterHostExample()
    ensures GetPlatform("x.com") == Twitter
    ensures GetPlatform("dropbox.com") == Twitter
  {
    AbsentCharNoMatch("x.com", "youtube", 0);
    AbsentCharNoMatch("x.com", "instagram", 0);
    assert IsAt("x.com", "x.com", 0);
    AbsentCharNoMatch("dropbox.com", "youtube", 0);
    AbsentCharNoMatch("dropbox.com", "instagram", 0);
    assert IsAt("dropbox.com", "x.com", 6);
  }

  lemma OtherHostExample()
    ensures GetPlatform("example.org") == OtherPlatform
  {
    var h := "example.org";
    AbsentCharNoMatch(h, "youtube", 0);
    AbsentCharNoMatch(h, "instagram", 0);
    AbsentCharNoMatch(h, "twitter", 0);
    AbsentCharNoMatch(h, "x.com", 2);
  }
}
