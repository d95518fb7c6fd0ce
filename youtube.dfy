/**
 * YouTube specifics: the video id of the page URL (`getYouTubeVideoId`) and the text
 * of a timed-text caption track (`fetchYouTubeTimedText`).
 */
module YouTube {
  import opened Wrappers
  import opened Text
  import opened Platform

  /** A parsed page URL: host name, path, and the decoded query parameters in order. */
  datatype Url = Url(hostname: string, pathname: string, query: seq<(string, string)>)

  /** `searchParams.get(name)` looking from parameter `i` on: the value of the first parameter so named. */
  function QueryGetFrom(query: seq<(string, string)>, name: string, i: nat): (r: Option<string>)
    ensures r.None? <==> forall k :: i <= k < |query| ==> query[k].0 != name
    ensures r.Some? ==> exists k :: i <= k < |query| && query[k] == (name, r.value)
                                   && forall j :: i <= j < k ==> query[j].0 != name
    decreases |query| - i
  {
    if i >= |query| then None
    else if query[i].0 == name then Some(query[i].1)
    else QueryGetFrom(query, name, i + 1)
  }

  /** `searchParams.get(name)`; `None` stands for `null`. */
  function QueryGet(query: seq<(string, string)>, name: string): Option<string> {
    QueryGetFrom(query, name, 0)
  }

  /** `[\w-]`: a character of a video id. */
  predicate IsIdChar(c: char) { IsWordChar(c) || c == '-' }

  const ShortsMarker: string := "/shorts/"

  /** End of the run of id characters starting at `i` (the greedy `[\w-]+`). */
  function IdRunEnd(s: string, i: nat): (e: nat)
    requires i <= |s|
    ensures i <= e <= |s|
    ensures forall k :: i <= k < e ==> IsIdChar(s[k])
    ensures e == |s| || !IsIdChar(s[e])
    decreases |s| - i
  {
    if i < |s| && IsIdChar(s[i]) then IdRunEnd(s, i + 1) else i
  }

  /** `/\/shorts\/([\w-]+)/` can match at `p`: the marker, then at least one id character. */
  predicate ShortsAt(path: string, p: int) {
    IsAt(path, ShortsMarker, p) && p + |ShortsMarker| < |path| && IsIdChar(path[p + |ShortsMarker|])
  }

  /** The id a match at `p` captures: the whole run of id characters after the marker. */
  function ShortsIdAt(path: string, p: nat): (id: string)
    requires ShortsAt(path, p)
    ensures id != [] && forall k :: 0 <= k < |id| ==> IsIdChar(id[k])
    ensures IsAt(path, ShortsMarker + id, p)
    ensures p + |ShortsMarker| + |id| == |path| || !IsIdChar(path[p + |ShortsMarker| + |id|])
  {
    var e := IdRunEnd(path, p + |ShortsMarker|);
    var id := path[p + |ShortsMarker|..e];
    assert path[p..p + |ShortsMarker + id|] == path[p..p + |ShortsMarker|] + id;
    id
  }

  /** The capture of the leftmost match at or after `i`. */
  function ShortsIdFrom(path: string, i: nat): (r: Option<string>)
    ensures r.None? <==> forall p :: i <= p ==> !ShortsAt(path, p)
    ensures r.Some? ==> exists p :: i <= p && ShortsAt(path, p)
                                   && (forall q :: i <= q < p ==> !ShortsAt(path, q))
                                   && r.value == ShortsIdAt(path, p)
    decreases |path| - i
  {
    if i >= |path| then None
    else if ShortsAt(path, i) then Some(ShortsIdAt(path, i))
    else ShortsIdFrom(path, i + 1)
  }

  /** `getYouTubeVideoId()`: `None` stands for `null`. */
  function VideoId(u: Url): Option<string> {
    if !IsYouTubeHost(u.hostname) then None
    else if u.pathname == "/watch" then QueryGet(u.query, "v")
    else ShortsIdFrom(u.pathname, 0)
  }

  /** Only a youtube host has a video id. On `/watch` it is the first `v` parameter, which may be empty. */
  lemma WatchVideoId(u: Url)
    ensures VideoId(u).Some? ==> IsYouTubeHost(u.hostname)
    ensures IsYouTubeHost(u.hostname) && u.pathname == "/watch" ==>
      (VideoId(u).None? <==> forall k :: 0 <= k < |u.query| ==> u.query[k].0 != "v")
    ensures IsYouTubeHost(u.hostname) && u.pathname == "/watch" && VideoId(u).Some? ==>
      exists k :: 0 <= k < |u.query| && u.query[k] == ("v", VideoId(u).value)
                  && forall j :: 0 <= j < k ==> u.query[j].0 != "v"
  {
  }

  /** Off `/watch`, there is no id exactly when no `/shorts/` is followed by an id character. */
  lemma ShortsVideoIdAbsent(u: Url)
    requires IsYouTubeHost(u.hostname) && u.pathname != "/watch"
    ensures VideoId(u).None? <==> forall p :: 0 <= p ==> !ShortsAt(u.pathname, p)
  {
  }

  /**
   * Off `/watch`, the id is the non-empty, maximal run of id characters after the first
   * `/shorts/` that is followed by one.
   */
  lemma ShortsVideoIdShape(u: Url)
    requires IsYouTubeHost(u.hostname) && u.pathname != "/watch" && VideoId(u).Some?
    ensures var id := VideoId(u).value;
      id != [] && (forall k :: 0 <= k < |id| ==> IsIdChar(id[k])) &&
      exists p :: 0 <= p && IsAt(u.pathname, ShortsMarker + id, p) &&
        (forall q :: 0 <= q < p ==> !ShortsAt(u.pathname, q)) &&
        (p + |ShortsMarker| + |id| == |u.pathname| || !IsIdChar(u.pathname[p + |ShortsMarker| + |id|]))
  {
    var path := u.pathname;
    var p :| 0 <= p && ShortsAt(path, p) && (forall q :: 0 <= q < p ==> !ShortsAt(path, q))
             && VideoId(u).value == ShortsIdAt(path, p);
    var id := ShortsIdAt(path, p);
    assert IsAt(path, ShortsMarker + id, p);
  }

  /** On `/watch` the first `v` parameter wins, and a missing one gives no id. */
  lemma WatchExamples()
    ensures VideoId(Url("www.youtube.com", "/watch", [("t", "5"), ("v", "abc"), ("v", "def")])) == Some("abc")
    ensures VideoId(Url("www.youtube.com", "/watch", [("t", "5")])) == None
  {
    assert IsAt("www.youtube.com", "youtube", 4);
  }

  lemma ShortsExample()
    ensures VideoId(Url("m.youtube.com", "/shorts/a-1_b/x", [])) == Some("a-1_b")
  {
    assert IsAt("m.youtube.com", "youtube", 2);
    var path := "/shorts/a-1_b/x";
    assert path[..8] == ShortsMarker;
    assert ShortsAt(path, 0);
    assert IdRunEnd(path, 13) == 13;
    assert IdRunEnd(path, 12) == 13;
    assert IdRunEnd(path, 11) == 13;
    assert IdRunEnd(path, 10) == 13;
    assert IdRunEnd(path, 9) == 13;
    assert IdRunEnd(path, 8) == 13;
    assert path[8..13] == "a-1_b";
  }

  /** The short-link host does not name youtube, so its URLs have no id. */
  lemma ShortLinkHostExample()
    ensures VideoId(Url("youtu.be", "/watch", [("v", "abc")])) == None
  {
    var h := "youtu.be";
    forall q ensures !IsAt(h, "youtube", q) {
      if q == 0 { assert h[5] != "youtube"[5]; }
      if q == 1 { assert h[1] != "youtube"[0]; }
    }
  }

  // ------------------------------------------------------------------------------------
  // Caption tracks: `/<text[^>]*>([\s\S]*?)<\/text>/g`

  const OpenTag: string := "<text"
  const CloseTag: string := "</text>"

  /** Where a cue's body lies in the track. */
  datatype CueSpan = CueSpan(bodyStart: nat, bodyEnd: nat)

  /**
   * The regular expression matches at `p` with body span `c`: `<text`, then attributes up
   * to the first `>`, then the shortest body that is followed by `</text>`.
   */
  predicate IsCueMatch(xml: string, p: nat, c: CueSpan) {
    IsAt(xml, OpenTag, p) && p + |OpenTag| < c.bodyStart <= c.bodyEnd
    && IsAt(xml, CloseTag, c.bodyEnd)
    && IsAt(xml, ">", c.bodyStart - 1)
    && (forall k :: p + |OpenTag| <= k < c.bodyStart - 1 ==> !IsAt(xml, ">", k))
    && (forall q :: c.bodyStart <= q < c.bodyEnd ==> !IsAt(xml, CloseTag, q))
  }

  /** The body of a cue whose attributes end with the `>` at `g`: up to the first `</text>` after it. */
  function CueBodyAfter(xml: string, g: nat): (r: Option<CueSpan>)
    ensures r.Some? ==> r.value.bodyStart == g + 1 <= r.value.bodyEnd && r.value.bodyEnd + |CloseTag| <= |xml|
    ensures r.Some? ==> IsAt(xml, CloseTag, r.value.bodyEnd)
  {
    match FindFrom(xml, CloseTag, g + 1)
    case None => None
    case Some(e) => Some(CueSpan(g + 1, e))
  }

  /** The match of the caption pattern at `p`, if it matches there. */
  function CueAt(xml: string, p: nat): (r: Option<CueSpan>)
    ensures r.Some? ==> p + |OpenTag| < r.value.bodyStart <= r.value.bodyEnd
                        && r.value.bodyEnd + |CloseTag| <= |xml|
    ensures r.Some? ==> IsAt(xml, ">", r.value.bodyStart - 1) && IsAt(xml, CloseTag, r.value.bodyEnd)
  {
    if !IsAt(xml, OpenTag, p) then None
    else match FindFrom(xml, ">", p + |OpenTag|)
      case None => None
      case Some(g) => CueBodyAfter(xml, g)
  }

  /**
   * `CueAt` finds exactly the match the regular expression makes at `p`: what it reports is
   * a match, and any match there is the one it reports (so it reports none only when the
   * pattern fails at `p`).
   */
  lemma CueAtMatches(xml: string, p: nat)
    ensures CueAt(xml, p).Some? ==> IsCueMatch(xml, p, CueAt(xml, p).value)
    ensures forall c :: IsCueMatch(xml, p, c) ==> CueAt(xml, p) == Some(c)
  {
    forall c | IsCueMatch(xml, p, c) ensures CueAt(xml, p) == Some(c) {
      CueAtUnique(xml, p, c);
    }
  }

  /** A match at `p` is determined by `p`: its `>` and its `</text>` are the first ones. */
  lemma CueAtUnique(xml: string, p: nat, c: CueSpan)
    requires IsCueMatch(xml, p, c)
    ensures CueAt(xml, p) == Some(c)
  {
    var g := c.bodyStart - 1;
    FindFromFirst(xml, ">", p + |OpenTag|, g);
    FindFromFirst(xml, CloseTag, g + 1, c.bodyEnd);
    CueAtFrom(xml, p, g, c.bodyEnd);
  }

  /**
   * The captured bodies of the successive matches. A match depends only on the text from
   * where it starts, so the scan moves one character on after a miss and resumes on what
   * follows the `</text>` after a match.
   */
  function CueBodies(xml: string): seq<string>
    decreases |xml|
  {
    if xml == [] then []
    else match CueAt(xml, 0)
      case None => CueBodies(xml[1..])
      case Some(c) => [xml[c.bodyStart..c.bodyEnd]] + CueBodies(xml[c.bodyEnd + |CloseTag|..])
  }

  /** One caption line: newlines to spaces, trimmed, then entity-decoded. */
  function CaptionLine(body: string, decode: string -> string): string {
    decode(Trim(NewlinesToSpaces(body)))
  }

  function CaptionLines(bodies: seq<string>, decode: string -> string): (r: seq<string>)
    ensures |r| == |bodies|
    ensures forall k :: 0 <= k < |bodies| ==> r[k] == CaptionLine(bodies[k], decode)
  {
    seq(|bodies|, k requires 0 <= k < |bodies| => CaptionLine(bodies[k], decode))
  }

  /** The text of a caption track: its cue lines joined by newlines. */
  function ParseCaptions(xml: string, decode: string -> string): string {
    JoinLines(CaptionLines(CueBodies(xml), decode))
  }

  /** What the caption request for one language yields. */
  datatype CaptionReply = FetchFailed | Response(ok: bool, body: string)

  /** `fetchYouTubeTimedText`: a failed request or a non-OK status yields no text. */
  function TimedText(reply: CaptionReply, decode: string -> string): string {
    match reply
    case FetchFailed => ""
    case Response(ok, body) => if ok then ParseCaptions(body, decode) else ""
  }

  /** The caption languages tried, in order. */
  const CaptionLanguages: seq<string> := ["en", "en-US", "hi", "hi-IN", "ur"]

  /** `fetchYouTubeTimedText(vid, ·)`: the track text for a language, given the server's replies. */
  function TrackText(vid: string, server: (string, string) -> CaptionReply, decode: string -> string): string -> string {
    lang => TimedText(server(vid, lang), decode)
  }

  /** The text `fetch` yields for each caption language, in order. */
  function Transcripts(fetch: string -> string): (r: seq<string>)
    ensures |r| == |CaptionLanguages|
    ensures forall k :: 0 <= k < |r| ==> r[k] == fetch(CaptionLanguages[k])
  {
    seq(|CaptionLanguages|, k requires 0 <= k < |CaptionLanguages| => fetch(CaptionLanguages[k]))
  }

  /** The first non-empty text, or the empty text when all are empty. */
  function FirstNonEmpty(ts: seq<string>): (r: string)
    ensures r == [] <==> forall k :: 0 <= k < |ts| ==> ts[k] == []
    ensures r != [] ==> exists k :: 0 <= k < |ts| && ts[k] == r && forall j :: 0 <= j < k ==> ts[j] == []
  {
    if ts == [] then []
    else if ts[0] != [] then ts[0]
    else
      var r := FirstNonEmpty(ts[1..]);
      assert r != [] ==> exists k :: 1 <= k < |ts| && ts[k] == r && forall j :: 0 <= j < k ==> ts[j] == [] by {
        if r != [] {
          var k :| 0 <= k < |ts[1..]| && ts[1..][k] == r && forall j :: 0 <= j < k ==> ts[1..][j] == [];
          assert ts[k + 1] == r;
        }
      }
      r
  }

  /** After blanks only, the first text is the one reported. */
  lemma FirstNonEmptyAt(ts: seq<string>, n: nat)
    requires 1 <= n <= |ts| && ts[n - 1] != []
    requires forall k :: 0 <= k < n - 1 ==> ts[k] == []
    ensures FirstNonEmpty(ts) == ts[n - 1]
  {
    var r := FirstNonEmpty(ts);
    var k :| 0 <= k < |ts| && ts[k] == r && forall j :: 0 <= j < k ==> ts[j] == [];
    assert k == n - 1;
  }

  // ------------------------------------------------------------------------------------
  // Rendering a caption track, and reading it back.

  /** A cue as the server writes it, with the text that precedes it. */
  datatype Cue = Cue(lead: string, attrs: string, body: string)

  /** The lead holds no `<text`, the attributes no `>`, the body no `</text>`. */
  predicate WellFormedCue(c: Cue) {
    !Contains(c.lead, OpenTag) && !Contains(c.attrs, ">") && !Contains(c.body, CloseTag)
  }

  function CueTag(c: Cue): string {
    OpenTag + c.attrs + ">" + c.body + CloseTag
  }

  /** The cues, one after the other, then a trailer. */
  function Render(cues: seq<Cue>, trailer: string): string {
    if cues == [] then trailer
    else cues[0].lead + (CueTag(cues[0]) + Render(cues[1..], trailer))
  }

  function Bodies(cues: seq<Cue>): (r: seq<string>)
    ensures |r| == |cues|
    ensures forall k :: 0 <= k < |cues| ==> r[k] == cues[k].body
  {
    seq(|cues|, k requires 0 <= k < |cues| => cues[k].body)
  }

  /** No `<text` starts inside a lead that lacks one, even when a tag follows the lead. */
  lemma NoOpenTagInLead(lead: string, rest: string, j: nat)
    requires forall q :: !IsAt(lead, OpenTag, q)
    requires IsAt(rest, OpenTag, 0)
    requires j < |lead|
    ensures !IsAt(lead + rest, OpenTag, j)
  {
    var s := lead + rest;
    if j + |OpenTag| <= |lead| {
      assert !IsAt(lead, OpenTag, j);
      assert s[j..j + |OpenTag|] == lead[j..j + |OpenTag|];
    } else if j + |OpenTag| <= |s| {
      assert s[|lead|] == rest[0] == rest[..|OpenTag|][0] == '<';
      assert s[j..j + |OpenTag|][|lead| - j] == s[|lead|];
    }
  }

  /** A lead without `<text` contributes nothing when a tag follows it. */
  lemma {:induction false} CueBodiesSkipLead(lead: string, rest: string)
    requires forall q :: !IsAt(lead, OpenTag, q)
    requires IsAt(rest, OpenTag, 0)
    ensures CueBodies(lead + rest) == CueBodies(rest)
    decreases |lead|
  {
    if lead != [] {
      NoOpenTagInLead(lead, rest, 0);
      CueBodiesMiss(lead + rest);
      assert (lead + rest)[1..] == lead[1..] + rest;
      NoMatchDropFirst(lead, OpenTag);
      CueBodiesSkipLead(lead[1..], rest);
    } else {
      assert lead + rest == rest;
    }
  }

  /** Where no `<text` starts, the scan moves one character on. */
  lemma CueBodiesMiss(xml: string)
    requires xml != [] && !IsAt(xml, OpenTag, 0)
    ensures CueBodies(xml) == CueBodies(xml[1..])
  {
  }

  /** A trailer without `<text` holds no cue. */
  lemma {:induction false} CueBodiesTrailer(t: string)
    requires forall q :: !IsAt(t, OpenTag, q)
    ensures CueBodies(t) == []
    decreases |t|
  {
    if t != [] {
      CueBodiesMiss(t);
      NoMatchDropFirst(t, OpenTag);
      CueBodiesTrailer(t[1..]);
    }
  }

  /** The first `>` after `<text` closes attributes that hold none. */
  lemma FirstGreaterThan(c: Cue, rest: string)
    requires !Contains(c.attrs, ">")
    ensures FindFrom(CueTag(c) + rest, ">", |OpenTag|) == Some(|OpenTag| + |c.attrs|)
  {
    var s := CueTag(c) + rest;
    var g := |OpenTag| + |c.attrs|;
    assert s[g..g + 1] == ">";
    forall k | |OpenTag| <= k < g ensures !IsAt(s, ">", k) {
      assert !IsAt(c.attrs, ">", k - |OpenTag|);
      assert s[k..k + 1] == c.attrs[k - |OpenTag|..k - |OpenTag| + 1];
    }
    FindFromFirst(s, ">", |OpenTag|, g);
  }

  /** The first `</text>` after the attributes ends a body that holds none; it cannot straddle the body's end. */
  lemma FirstCloseTag(c: Cue, rest: string)
    requires !Contains(c.body, CloseTag)
    ensures var b := |OpenTag| + |c.attrs| + 1;
      FindFrom(CueTag(c) + rest, CloseTag, b) == Some(b + |c.body|)
  {
    var s := CueTag(c) + rest;
    var b := |OpenTag| + |c.attrs| + 1;
    var e := b + |c.body|;
    assert s[e..e + |CloseTag|] == CloseTag;
    forall q | b <= q < e ensures !IsAt(s, CloseTag, q) {
      if q + |CloseTag| <= e {
        assert !IsAt(c.body, CloseTag, q - b);
        assert s[q..q + |CloseTag|] == c.body[q - b..q - b + |CloseTag|];
      } else if q + |CloseTag| <= |s| {
        assert s[e] == '<';
        assert s[q..q + |CloseTag|][e - q] == s[e];
      }
    }
    FindFromFirst(s, CloseTag, b, e);
  }

  /** A well-formed cue tag at the start is matched whole, whatever follows it. */
  lemma FirstCueMatch(c: Cue, rest: string)
    requires WellFormedCue(c)
    ensures CueAt(CueTag(c) + rest, 0)
         == Some(CueSpan(|OpenTag| + |c.attrs| + 1, |OpenTag| + |c.attrs| + 1 + |c.body|))
  {
    OpenTagFirst(c, rest);
    FirstGreaterThan(c, rest);
    FirstCloseTag(c, rest);
    CueAtFrom(CueTag(c) + rest, 0, |OpenTag| + |c.attrs|, |OpenTag| + |c.attrs| + 1 + |c.body|);
  }

  /** A cue tag starts with `<text`, whatever follows it. */
  lemma OpenTagFirst(c: Cue, rest: string)
    ensures IsAt(CueTag(c) + rest, OpenTag, 0)
  {
    assert (CueTag(c) + rest)[..|OpenTag|] == OpenTag;
  }

  /** The match at `p`, from where its first `>` and the first `</text>` after it lie. */
  lemma CueAtFrom(xml: string, p: nat, g: nat, e: nat)
    requires IsAt(xml, OpenTag, p)
    requires FindFrom(xml, ">", p + |OpenTag|) == Some(g)
    requires FindFrom(xml, CloseTag, g + 1) == Some(e)
    ensures CueAt(xml, p) == Some(CueSpan(g + 1, e))
  {
  }

  /** A well-formed cue at the start contributes its body, then matching resumes after it. */
  lemma TaggedCueBodies(c: Cue, rest: string)
    requires WellFormedCue(c)
    ensures CueBodies(CueTag(c) + rest) == [c.body] + CueBodies(rest)
  {
    FirstCueMatch(c, rest);
    CueTagLayout(c, rest);
  }

  /** Where the body of a cue sits in its tag, and what follows the tag. */
  lemma CueTagLayout(c: Cue, rest: string)
    ensures var bs := |OpenTag| + |c.attrs| + 1;
      |CueTag(c)| == bs + |c.body| + |CloseTag|
      && (CueTag(c) + rest)[bs..bs + |c.body|] == c.body
      && (CueTag(c) + rest)[|CueTag(c)|..] == rest
  {
    assert CueTag(c) + rest == (OpenTag + c.attrs + ">") + c.body + (CloseTag + rest);
    SliceShift(OpenTag + c.attrs + ">", c.body + (CloseTag + rest), 0, |c.body|);
    assert (c.body + (CloseTag + rest))[0..|c.body|] == c.body;
  }

  /** The lead before a well-formed cue contributes nothing. */
  lemma LeadCueBodies(c: Cue, rest: string)
    requires WellFormedCue(c)
    ensures CueBodies(c.lead + (CueTag(c) + rest)) == CueBodies(CueTag(c) + rest)
  {
    OpenTagFirst(c, rest);
    CueBodiesSkipLead(c.lead, CueTag(c) + rest);
  }

  /** Reading a rendered track back gives the bodies of its well-formed cues, in order. */
  lemma {:induction false} CaptionsRoundTrip(cues: seq<Cue>, trailer: string)
    requires forall k :: 0 <= k < |cues| ==> WellFormedCue(cues[k])
    requires !Contains(trailer, OpenTag)
    ensures CueBodies(Render(cues, trailer)) == Bodies(cues)
  {
    if cues == [] {
      CueBodiesTrailer(trailer);
    } else {
      var rest := Render(cues[1..], trailer);
      LeadCueBodies(cues[0], rest);
      TaggedCueBodies(cues[0], rest);
      CaptionsRoundTrip(cues[1..], trailer);
      assert Bodies(cues) == [cues[0].body] + Bodies(cues[1..]);
    }
  }

  /**
   * A served track yields one line per cue, in order: when the decoder puts no newline into
   * any cue line, splitting the track text at newlines gives back exactly the cue lines.
   */
  lemma TimedTextLines(cues: seq<Cue>, trailer: string, decode: string -> string)
    requires cues != []
    requires forall k :: 0 <= k < |cues| ==> WellFormedCue(cues[k])
    requires !Contains(trailer, OpenTag)
    requires forall k :: 0 <= k < |cues| ==> '\n' !in CaptionLine(cues[k].body, decode)
    ensures SplitLines(TimedText(Response(true, Render(cues, trailer)), decode))
         == CaptionLines(Bodies(cues), decode)
  {
    CaptionsRoundTrip(cues, trailer);
    SplitJoinLines(CaptionLines(Bodies(cues), decode));
  }
}
