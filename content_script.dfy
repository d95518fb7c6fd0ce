/**
 * The content script's scan: settings refreshed from storage, the page text extracted,
 * analysis by the configured backend with the local classifier as fallback, and the
 * response sent back for a scan request.
 */
module ContentScript {
  import opened Wrappers
  import opened Text
  import opened Seqs
  import opened Scorer
  import opened Language
  import opened Platform
  import opened YouTube
  import opened Extraction

  const ScanRequestType: string := "WATCHDOG_SCAN_REQUEST"
  const ApiPath: string := "/api/analyze/text"
  const MaxScanLength: nat := 12000
  const MinContentLength: nat := 3
  const NoContentLabel: string := "no-content"

  datatype Settings = Settings(enabled: bool, cloud: bool, backend: string)

  const DefaultSettings: Settings := Settings(true, false, "")

  /** The three stored keys as storage returns them; `None` is a key that is not set. */
  datatype Stored = Stored(enabled: Option<bool>, cloud: Option<bool>, backend: Option<string>)

  /**
   * Settings from stored values: enabled unless stored as `false`, cloud only when stored
   * as `true`, the backend URL trimmed (absent is empty).
   */
  function FromStored(s: Stored): Settings {
    Settings(s.enabled != Some(false), s.cloud == Some(true), Trim(StoredBackend(s)))
  }

  /** `res.watchdog_backend || ''`: the stored backend, or the empty string when unset. */
  function StoredBackend(s: Stored): string {
    if s.backend.Some? then s.backend.value else ""
  }

  /** With nothing stored the defaults apply. */
  lemma UnsetKeysGiveDefaults()
    ensures FromStored(Stored(None, None, None)) == DefaultSettings
  {
  }

  /**
   * Only an explicit `false` disables, only an explicit `true` enables the cloud, and the
   * backend is the stored string (or `''`) with its surrounding whitespace cut away.
   */
  lemma FromStoredFacts(s: Stored)
    ensures FromStored(s).enabled <==> s.enabled != Some(false)
    ensures FromStored(s).cloud <==> s.cloud == Some(true)
    ensures exists a :: TrimmedAt(StoredBackend(s), FromStored(s).backend, a)
    ensures var b := FromStored(s).backend;
      b == [] || (!IsJsWhitespace(b[0]) && !IsJsWhitespace(b[|b| - 1]))
  {
    assert FromStored(s).backend == Trim(StoredBackend(s));
  }

  /** `SETTINGS.cloud && SETTINGS.backend`: the backend is used only when both are set. */
  predicate UsesBackend(s: Settings) {
    s.cloud && s.backend != []
  }

  /** The analysis URL: the backend with one trailing `/` removed, then the API path. */
  function Endpoint(backend: string): string {
    var base := if backend != [] && backend[|backend| - 1] == '/' then backend[..|backend| - 1] else backend;
    base + ApiPath
  }

  /** The URL always ends with the API path, and a single trailing slash on the backend makes no difference. */
  lemma EndpointFacts(backend: string)
    ensures |Endpoint(backend)| >= |ApiPath|
    ensures Endpoint(backend)[|Endpoint(backend)| - |ApiPath|..] == ApiPath
    ensures backend == [] || backend[|backend| - 1] != '/' ==> Endpoint(backend) == backend + ApiPath
    ensures Endpoint(backend + "/") == backend + ApiPath
  {
    var b := backend + "/";
    assert b[..|b| - 1] == backend;
  }

  /** The JSON body posted to the backend, with the URL it is posted to. */
  datatype RemoteRequest = RemoteRequest(url: string, platform: string, language: string, text: string)

  /** What the backend call yields: a network failure, or a status with a body that may not parse. */
  datatype RemoteReply = NetworkError | HttpReply(ok: bool, body: Option<AnalysisResult>)

  function RequestFor(s: Settings, host: string, text: string): RemoteRequest {
    RemoteRequest(Endpoint(s.backend), PlatformName(GetPlatform(host)), LanguageName(GuessLanguage(text)), text)
  }

  /** `analyze(text)`: the backend's result when it answers OK with a body, else the local classifier's. */
  function AnalysisFor(s: Settings, host: string, text: string, remote: RemoteRequest -> RemoteReply): AnalysisResult {
    if UsesBackend(s) then
      match remote(RequestFor(s, host, text))
      case HttpReply(true, Some(r)) => r
      case _ => ScoreText(text)
    else ScoreText(text)
  }

  /**
   * The result is the backend's exactly when the backend is configured and answers OK with a
   * parsable body; in every other case it is the local classifier's result for the same text.
   */
  lemma AnalysisSource(s: Settings, host: string, text: string, remote: RemoteRequest -> RemoteReply)
    ensures UsesBackend(s) && remote(RequestFor(s, host, text)).HttpReply?
            && remote(RequestFor(s, host, text)).ok && remote(RequestFor(s, host, text)).body.Some? ==>
      AnalysisFor(s, host, text, remote) == remote(RequestFor(s, host, text)).body.value
    ensures !UsesBackend(s) || remote(RequestFor(s, host, text)) == NetworkError
            || remote(RequestFor(s, host, text)) == HttpReply(false, remote(RequestFor(s, host, text)).body)
            || remote(RequestFor(s, host, text)) == HttpReply(true, None) ==>
      AnalysisFor(s, host, text, remote) == ScoreText(text)
  {
  }

  /** The request names the page's platform, the language guessed from the text, and carries the text itself. */
  lemma RequestFacts(s: Settings, host: string, text: string)
    ensures RequestFor(s, host, text).text == text
    ensures RequestFor(s, host, text).platform == "youtube" <==> IsYouTubeHost(host)
    ensures RequestFor(s, host, text).language == "hindi" <==> HasDevanagari(text)
    ensures RequestFor(s, host, text).url == Endpoint(s.backend)
  {
    GuessLanguageOrder(text);
  }

  /** The reply to a scan request. */
  datatype ScanResponse =
    | Skipped                          // { ok: true, skipped: true, reason: 'disabled' }
    | NoContent                        // { ok: true, flagged: false, label: 'no-content' }
    | Analyzed(result: AnalysisResult) // { ok: true, ...result }
    | Failed(error: string)            // { ok: false, error }

  /** The scan of extracted text: too little text, or the analysis of its first 12000 characters. */
  function ScanText(s: Settings, host: string, text: string, remote: RemoteRequest -> RemoteReply): ScanResponse {
    if text == [] || |Trim(text)| < MinContentLength then NoContent
    else Analyzed(AnalysisFor(s, host, Take(text, MaxScanLength), remote))
  }

  /** The scan with settings `s` already refreshed: skipped when disabled, else the scan of the page's text. */
  function ScanOutcome(s: Settings, page: Page, server: (string, string) -> CaptionReply,
                       decode: string -> string, remote: RemoteRequest -> RemoteReply): ScanResponse {
    if !s.enabled then Skipped
    else ScanText(s, page.url.hostname, ExtractedText(page, server, decode), remote)
  }

  /** Disabled, the scan is skipped whatever the page. */
  lemma DisabledSkips(s: Settings, page: Page, server: (string, string) -> CaptionReply,
                      decode: string -> string, remote: RemoteRequest -> RemoteReply)
    ensures ScanOutcome(s, page, server, decode, remote) == Skipped <==> !s.enabled
  {
  }

  /** Enabled, there is no content exactly when the extracted text has fewer than three non-whitespace-bounded characters. */
  lemma NoContentIff(s: Settings, page: Page, server: (string, string) -> CaptionReply,
                     decode: string -> string, remote: RemoteRequest -> RemoteReply)
    requires s.enabled
    ensures ScanOutcome(s, page, server, decode, remote) == NoContent <==>
      |Trim(ExtractedText(page, server, decode))| < MinContentLength
  {
    ScanTextNoContent(s, page.url.hostname, ExtractedText(page, server, decode), remote);
  }

  lemma ScanTextNoContent(s: Settings, host: string, text: string, remote: RemoteRequest -> RemoteReply)
    ensures ScanText(s, host, text, remote) == NoContent <==> |Trim(text)| < MinContentLength
  {
  }

  /**
   * Without a backend, an analyzed page gets the local classifier's result for its first
   * 12000 characters, and the preview is the first 300 characters of the extracted text.
   */
  lemma LocalScan(s: Settings, page: Page, server: (string, string) -> CaptionReply,
                  decode: string -> string, remote: RemoteRequest -> RemoteReply)
    requires s.enabled && !UsesBackend(s)
    requires |Trim(ExtractedText(page, server, decode))| >= MinContentLength
    ensures var text := ExtractedText(page, server, decode);
      ScanOutcome(s, page, server, decode, remote) == Analyzed(ScoreText(Take(text, MaxScanLength)))
      && ScanOutcome(s, page, server, decode, remote).result.preview == Take(text, PreviewLength)
  {
    var text := ExtractedText(page, server, decode);
    TakeOfTake(text, MaxScanLength, PreviewLength);
  }

  /** The `no-content` label is none of the classifier's labels. */
  lemma NoContentLabelIsDistinct(counts: map<Lexicon.Category, nat>)
    requires Complete(counts)
    ensures Label(counts) != NoContentLabel
  {
    LabelIsLeader(counts);
  }

  /** The content script's state: the settings object its handlers update. */
  class Script {
    var enabled: bool
    var cloud: bool
    var backend: string

    function Current(): Settings
      reads this
    {
      Settings(enabled, cloud, backend)
    }

    constructor ()
      ensures Current() == DefaultSettings
    {
      enabled := true;
      cloud := false;
      backend := "";
    }

    /** `loadSettings()`: `None` is a storage that cannot be reached, which leaves the settings as they are. */
    method LoadSettings(stored: Option<Stored>)
      modifies this
      ensures Current() == if stored.Some? then FromStored(stored.value) else old(Current())
    {
      if stored.Some? {
        Apply(FromStored(stored.value));
      }
    }

    method Apply(s: Settings)
      modifies this
      ensures Current() == s
    {
      enabled := s.enabled;
      cloud := s.cloud;
      backend := s.backend;
    }

    /** `analyze(text)` with the current settings, on a page served from `host`. */
    method Analyze(host: string, text: string, remote: RemoteRequest -> RemoteReply) returns (r: AnalysisResult)
      ensures r == AnalysisFor(Current(), host, text, remote)
    {
      if cloud && backend != [] {
        var reply := remote(RequestFor(Current(), host, text));
        if reply.HttpReply? && reply.ok && reply.body.Some? {
          return reply.body.value;
        }
      }
      r := ScoreTextLocal(text);
    }

    /** The text part of the scan, with the current settings. */
    method ScanExtracted(host: string, text: string, remote: RemoteRequest -> RemoteReply) returns (response: ScanResponse)
      ensures response == ScanText(Current(), host, text, remote)
    {
      if text == [] || |Trim(text)| < MinContentLength {
        return NoContent;
      }
      var result := Analyze(host, Take(text, MaxScanLength), remote);
      response := Analyzed(result);
    }

    /** The scan once the settings are refreshed. */
    method Scan(page: Page, server: (string, string) -> CaptionReply, decode: string -> string,
                remote: RemoteRequest -> RemoteReply) returns (response: ScanResponse)
      ensures response == ScanOutcome(Current(), page, server, decode, remote)
    {
      if !enabled {
        return Skipped;
      }
      var text, _ := ExtractText(page, server, decode);
      response := ScanExtracted(page.url.hostname, text, remote);
    }

    /**
     * The message listener. `msgType` is the message's `type` (`None` when there is no
     * message); `stored` is the settings refresh, which may fail. Messages other than a scan
     * request get no response and change nothing.
     */
    method HandleMessage(msgType: Option<string>, stored: Result<Stored>, page: Page,
                         server: (string, string) -> CaptionReply, decode: string -> string,
                         remote: RemoteRequest -> RemoteReply)
      returns (response: Option<ScanResponse>)
      modifies this
      ensures msgType != Some(ScanRequestType) ==> response == None && Current() == old(Current())
      ensures msgType == Some(ScanRequestType) && stored.Failure? ==>
        response == Some(Failed(stored.error)) && Current() == old(Current())
      ensures msgType == Some(ScanRequestType) && stored.Success? ==>
        Current() == FromStored(stored.value)
        && response == Some(ScanOutcome(Current(), page, server, decode, remote))
    {
      if msgType != Some(ScanRequestType) {
        return None;
      }
      if stored.Failure? {
        return Some(Failed(stored.error));
      }
      LoadSettings(Some(stored.value));
      var scanned := Scan(page, server, decode, remote);
      response := Some(scanned);
    }
  }
}
