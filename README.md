# Watchdog content script, modelled in Dafny

This project models the content script of the Watchdog browser extension
(`public/extension/content.js`). When the popup sends a `WATCHDOG_SCAN_REQUEST` message,
the content script does the following:

1. It refreshes its settings (`enabled`, `cloud`, `backend`) from storage.
2. It extracts the page's text. On YouTube this is the caption track of the first language
   that yields text, followed by the title, description and first 60 comments. On Instagram
   and Twitter it is the first 80 caption or tweet nodes. Anywhere else it is the first 8000
   characters of the body text, falling back to the title.
3. If there is too little text it answers `no-content`.
4. Otherwise it classifies the first 12000 characters:
   - It uses the configured backend when cloud analysis is on and a backend URL is set.
   - It falls back to the local heuristic classifier `scoreTextLocal` when the backend is
     off, unreachable or not OK.

The local classifier counts whole-word occurrences of the terms of five categories
(sexual, insults, hinglishProfanity, hate, selfharm) in the lower-cased text. It then:

- weights the counts and ranks the categories with a stable sort;
- flags the text when the top weighted score reaches 1, or when sexual plus
  hinglishProfanity hits reach 2;
- labels a flagged text with its top category, and any other text `safe`;
- returns a 300-character preview and up to 10 distinct terms that occur in the text.

Modules:

| module | file | contents |
|---|---|---|
| `Wrappers` | wrappers.dfy | `Option`, `Result` |
| `Text` | text.dfy | ASCII lower-casing, JavaScript `trim`, substring search, `a \|\| b` on strings, line joins and splits |
| `Seqs` | seqs.dfy | distinctness, subsequences, `slice(0, n)`, `Array.from(new Set(...))` |
| `Lexicon` | lexicon.dfy | `WORDLIST` categories, terms and weights (in tenths) |
| `Scorer` | scorer.dfy | `scoreTextLocal`: regex counting, ranking, flag, label, `topTerms` |
| `Language` | language.dfy | `guessLanguage` |
| `Platform` | platform.dfy | `getPlatform` |
| `YouTube` | youtube.dfy | `getYouTubeVideoId`, caption XML parsing, per-language fetch results |
| `Extraction` | extraction.dfy | `extractGeneric`, `extractYouTubeText`, `extractText` |
| `ContentScript` | content_script.dfy | settings, `analyze`, the scan outcome, and the `Script` class holding `SETTINGS` with its message handler |

Code that changes state step by step is written as methods with loops:

- `Scorer.ScoreTextLocal` with its counting and pushing loops;
- `Extraction.FetchTranscript`, the caption-language loop with its `break`;
- the `ContentScript.Script` class, whose fields are the `SETTINGS` object.

Each method is proved equal to a function, and the properties are proved about those
functions.

The model takes the following as parameters, because it does not implement them:

- the page, as the values its selectors yield;
- the caption server's replies, `server(videoId, lang)`;
- `decodeHTMLEntities`, as `decode`;
- the backend's reply, `remote(request)`.

Scores are exact integers in tenths of the source's decimal weights (0.7 becomes 7), so
"score >= 1" becomes "score >= 10".

## Model

| member | source | states |
|---|---|---|
| Text.Lower | public/extension/content.js:26 | same length; every ASCII capital becomes its lower-case letter and every other character is unchanged |
| Text.LowerFacts | public/extension/content.js:53 | lower-casing leaves no ASCII capital, keeps which positions are ASCII letters, and is idempotent |
| Text.Trim | public/extension/content.js:10 | `trim()` returns a contiguous slice of the input that neither starts nor ends with JavaScript whitespace, and everything cut away on either side is whitespace |
| Text.TrimFacts | public/extension/content.js:188 | the trimmed text is empty exactly when every character is whitespace; trimming twice is trimming once |
| Text.FindFrom | public/extension/content.js:124 | the leftmost occurrence of a pattern at or after a position, or none when there is no occurrence there |
| Text.Contains | public/extension/content.js:19-21 | `includes` is true exactly when the pattern occurs at some position |
| Seqs.TakeOfTake | public/extension/content.js:74 | the 300-character preview of the 12000-character slice is the 300-character preview of the text |
| Text.OrElse | public/extension/content.js:103 | `a \|\| b` on strings is `a` when `a` is non-empty and `b` when `a` is empty, so it is empty only when both are |
| Text.NewlinesToSpaces | public/extension/content.js:125 | `replace(/\n/g,' ')` turns every newline into a space, keeps every other character, and leaves no newline |
| Text.SplitJoinLines | public/extension/content.js:125 | splitting `join('\n')` of newline-free lines at `\n` gives the lines back |
| Text.JoinSplitLines | public/extension/content.js:125 | joining the pieces of a `\n` split with `\n` gives the text back |
| Text.JoinLines | public/extension/content.js:125 | `join('\n')` of a list of strings; `Text.SplitJoinLines` shows that splitting at `\n` undoes it for newline-free lines |
| Text.SplitLines | public/extension/content.js:125 | the pieces of a text between its newlines, at least one; `Text.JoinSplitLines` shows that joining them back with `\n` gives the text |
| Text.JoinNonEmptyPair | public/extension/content.js:155 | `[a, b].filter(Boolean).join('\n')` is `b` when `a` is empty, `a` when `b` is empty, and otherwise `a`, a newline, then `b` |
| Text.JoinNonEmptyFacts | public/extension/content.js:140 | `filter(Boolean).join('\n')` is empty exactly when every part is empty; when some part is non-empty and no part holds a newline, splitting it at `\n` gives back exactly the non-empty parts, in order |
| Text.JoinNonEmpty | public/extension/content.js:140 | `filter(Boolean).join('\n')`; `Text.JoinNonEmptyFacts` and `Text.JoinNonEmptyPair` state when it is empty and what its lines are |
| Seqs.Take | public/extension/content.js:192 | `slice(0, n)`, on a string or an array, keeps the first `min(n, length)` elements |
| Seqs.Dedup | public/extension/content.js:76 | `Array.from(new Set(xs))` is duplicate-free, holds exactly the elements of `xs`, and is a subsequence of `xs` |
| Seqs.DedupFirstOccurrence | public/extension/content.js:76 | the elements come in the order of their first occurrence: wherever a later element occurs in `xs`, every earlier one has already occurred |
| Seqs.DedupOfDistinct | public/extension/content.js:76 | a duplicate-free array is kept as it is |
| Seqs.SubsequenceDistinct | public/extension/content.js:70 | the terms pushed from a duplicate-free lexicon hold no duplicates |
| Lexicon.DeclaredIsComplete | public/extension/content.js:34-50 | the five `WORDLIST` categories are each declared exactly once, and the declaration index identifies a category |
| Lexicon.AllTermsDistinct | public/extension/content.js:34-50 | no term is listed twice, within a category or across categories, so `Object.values(WORDLIST).flat()` has no duplicates |
| Platform.GetPlatform | public/extension/content.js:17-23 | `getPlatform()` on the page's host; `Platform.GetPlatformOrder` states each answer, in both directions, in the order the tests are made |
| Platform.GetPlatformOrder | public/extension/content.js:17-23 | youtube whenever the host contains `youtube`; instagram only without youtube; twitter (`twitter` or `x.com`) only without either; otherwise other, both directions |
| Platform.YouTubeHostExample | public/extension/content.js:19 | `m.youtube.com` is youtube |
| Platform.InstagramHostExample | public/extension/content.js:20 | `www.instagram.com` is instagram |
| Platform.TwitterHostExample | public/extension/content.js:21 | `x.com` is twitter, and so is `dropbox.com`, because `x.com` is a substring test |
| Platform.OtherHostExample | public/extension/content.js:22 | `example.org` is other |
| Language.GuessLanguage | public/extension/content.js:25-31 | `guessLanguage(text)`; `Language.GuessLanguageOrder` states each answer, in both directions, in the order the tests are made |
| Language.GuessLanguageOrder | public/extension/content.js:25-31 | hindi exactly when there is Devanagari anywhere; hinglish exactly when there is no Devanagari and a listed token between `\b` boundaries; punjabi exactly when neither, and there is Gurmukhi; otherwise other |
| Language.GuessIgnoresCase | public/extension/content.js:26 | the guess for a text and for its lower-cased form agree |
| Language.TokenBoundaryExamples | public/extension/content.js:28 | `mc2` is not a hinglish token (a digit is a word character for `\b`), while `MC!` is |
| Scorer.MatchEnd | public/extension/content.js:58 | a match of the term's regex starting at a position ends after it and within the text |
| Scorer.CountFrom | public/extension/content.js:59-60 | the number of matches the global regex finds from a position on; `Scorer.CountFromPositive` and `Scorer.CountTwiceFrom` state when it is positive and when it is at least 2 |
| Scorer.CountMatches | public/extension/content.js:58-60 | `t.match(re)?.length` for one term; `Scorer.CountPositiveIffWord` and `Scorer.TwoSeparatedWordsCountTwice` state when it is positive and when it is at least 2 |
| Scorer.CountFromPositive | public/extension/content.js:59-60 | the global-match count from a position is positive exactly when some later position starts a regex match |
| Scorer.MatchIffWord | public/extension/content.js:58 | the regex matches somewhere exactly when the term occurs with no ASCII letter right before or right after it |
| Scorer.CountPositiveIffWord | public/extension/content.js:57-60 | a term adds to its category's count exactly when it occurs as a whole word (ASCII-letter boundaries or the text's ends) |
| Scorer.TwoSeparatedWordsCountTwice | public/extension/content.js:58-60 | two whole-word occurrences of a term with at least two characters between them add at least 2 to the count |
| Scorer.CountTwiceFrom | public/extension/content.js:59-60 | when the first match found from a position ends no later than where another match starts, the scan counts at least 2 |
| Scorer.WordBoundaryExamples | public/extension/content.js:58-60 | `classic` gives no `ass` hit and `an ass.` gives one; `mc mc` gives one `mc` hit, because the match consumes the space, while `mc, mc` gives two |
| Scorer.CategoryCount | public/extension/content.js:55-61 | the sum of the terms' match counts for one category; `Scorer.CategoryCountPositive` states when it is positive |
| Scorer.CategoryCountPositive | public/extension/content.js:55-61 | a category's count is positive exactly when one of its terms has a hit |
| Scorer.Counts | public/extension/content.js:54-62 | `counts` holds an entry for every category |
| Scorer.Weighted | public/extension/content.js:63-64 | one entry per category, in declaration order, with score = count × weight |
| Scorer.Insert | public/extension/content.js:65 | inserting a category score adds exactly that entry |
| Scorer.InsertRanked | public/extension/content.js:65 | inserting an earlier-declared entry into a ranked list keeps it ranked: higher score first, ties in declaration order |
| Scorer.SortByScore | public/extension/content.js:65 | the sort returns a permutation of its input |
| Scorer.SortRanked | public/extension/content.js:65 | the stable sort of a list in declaration order is ranked: non-increasing score, ties keep declaration order |
| Scorer.RankedScores | public/extension/content.js:63-65 | `categories`: one entry per category; `Scorer.CategoriesRanked` states that it is the ranked permutation of the weighted scores |
| Scorer.IsFlagged | public/extension/content.js:66-67 | the `flagged` test on the leader and the pair clause; `Scorer.FlaggedIff` states it without the sort |
| Scorer.Label | public/extension/content.js:68 | the label; `Scorer.LabelIsLeader` states that it is `safe` exactly when not flagged and otherwise the leader's name |
| Scorer.CategoriesRanked | public/extension/content.js:63-66 | `categories` is a permutation of the five weighted scores, ranked, each entry carrying its own category's score, and `categories[0]` is the unique leader |
| Scorer.LeaderUnique | public/extension/content.js:66 | at most one category leads: a top score, and earliest declared among equal top scores |
| Scorer.FlaggedIff | public/extension/content.js:66-67 | `flagged` exactly when some weighted score reaches 1 or sexual plus hinglishProfanity hits reach 2 |
| Scorer.LabelIsLeader | public/extension/content.js:68 | the label is `safe` exactly when not flagged; a flagged text is labelled with the leading category's name |
| Scorer.StrongOrPairedHitsFlag | public/extension/content.js:63-67 | one hate or selfharm hit, or two sexual/hinglishProfanity hits together, always flags |
| Scorer.WeakHitsStaySafe | public/extension/content.js:63-68 | one insult and one hinglishProfanity hit stay `safe` |
| Scorer.TwoHinglishHitsFlag | public/extension/content.js:63-68 | two hinglishProfanity hits flag as `hinglishProfanity` |
| Scorer.PairClauseFlags | public/extension/content.js:67-68 | one sexual plus one hinglishProfanity hit flags through the pair clause, labelled by the higher score |
| Scorer.TieGoesToEarlierCategory | public/extension/content.js:65-68 | two insults (score 1.0) tie one hate hit (1.0), and the earlier-declared insults wins the label |
| Scorer.LeaderExample | public/extension/content.js:66-68 | a leader whose score reaches 1, or with the pair clause met, gives the flag and its own name as label |
| Scorer.MatchedSound | public/extension/content.js:70 | every pushed term is a lexicon term contained in the text |
| Scorer.MatchedComplete | public/extension/content.js:70 | every lexicon term contained in the text is pushed |
| Scorer.MatchedInOrder | public/extension/content.js:70 | pushed terms keep the flattened lexicon's order |
| Scorer.Matched | public/extension/content.js:69-70 | the terms pushed by the `forEach`; `Scorer.MatchedSound`, `Scorer.MatchedComplete` and `Scorer.MatchedInOrder` state exactly which terms and in what order |
| Scorer.TopTerms | public/extension/content.js:76 | the de-duplicated, capped pushed terms; `Scorer.CappedDedupFacts` states what they are |
| Scorer.CappedDedupFacts | public/extension/content.js:76 | de-duplicated and capped: at most 10 distinct terms, each contained, in lexicon order, and all contained terms when fewer than 10; over a duplicate-free lexicon, exactly the first 10 contained terms |
| Scorer.TopTermsFacts | public/extension/content.js:69-76 | `topTerms` is at most 10 distinct `WORDLIST` terms, each a substring of the lower-cased text, in flattened-lexicon order; it is exactly the first 10 of the contained terms in that order, and when fewer than 10 it has every contained term |
| Scorer.ScoreText | public/extension/content.js:52-78 | the result of `scoreTextLocal`; `Scorer.CountsAreWholeWordHits`, `Scorer.FlaggedIff`, `Scorer.LabelIsLeader`, `Scorer.TopTermsFacts` and `Scorer.ScoreIgnoresCase` state its fields |
| Scorer.CountsAreWholeWordHits | public/extension/content.js:54-61 | the result has all five counts, and a category's count is positive exactly when one of its terms occurs as a whole word in the lower-cased text |
| Scorer.NoWholeWordHitIsSafe | public/extension/content.js:66-68 | text without any whole-word term is not flagged and is labelled `safe` |
| Scorer.ScoreIgnoresCase | public/extension/content.js:53 | only the preview depends on letter case, and the preview is the first `min(300, length)` characters of the original text |
| Scorer.PushContained | public/extension/content.js:69-70 | the push loop yields exactly the contained terms, in order |
| Scorer.CountCategory | public/extension/content.js:56-61 | the loop over a category's terms sets that category's count to its total of regex matches and changes no other count |
| Scorer.CountCategories | public/extension/content.js:54-62 | the counting loops yield the specified `counts` |
| Scorer.ScoreTextLocal | public/extension/content.js:52-78 | the loops compute the classifier's result, so every property above holds of the method's result |
| YouTube.QueryGetFrom | public/extension/content.js:110 | `searchParams.get` returns the value of the first parameter with that name, and null exactly when there is none |
| YouTube.QueryGet | public/extension/content.js:110 | `searchParams.get(name)`; `YouTube.QueryGetFrom` states that it is the first value with that name, or null exactly when there is none |
| YouTube.IdRunEnd | public/extension/content.js:111 | `[\w-]+` is greedy: the run of id characters ends at the text's end or at a non-id character |
| YouTube.ShortsIdAt | public/extension/content.js:111-112 | the captured id is non-empty, made of id characters, directly after `/shorts/`, and maximal |
| YouTube.ShortsIdFrom | public/extension/content.js:111-112 | no id exactly when `/shorts/` followed by an id character occurs nowhere; otherwise the id at the leftmost such occurrence |
| YouTube.WatchVideoId | public/extension/content.js:106-116 | only youtube hosts have an id; on `/watch` the id is the first `v` parameter and is absent exactly when there is none |
| YouTube.ShortsVideoIdAbsent | public/extension/content.js:111-115 | off `/watch`, the id is null exactly when no `/shorts/<id>` segment occurs |
| YouTube.ShortsVideoIdShape | public/extension/content.js:111-112 | off `/watch`, a found id is a non-empty maximal `[\w-]` run after the leftmost `/shorts/` match |
| YouTube.VideoId | public/extension/content.js:106-116 | `getYouTubeVideoId()`; `YouTube.WatchVideoId`, `YouTube.ShortsVideoIdAbsent` and `YouTube.ShortsVideoIdShape` state it for each kind of path |
| YouTube.WatchExamples | public/extension/content.js:110 | the first of two `v` parameters wins; a watch URL without `v` has no id |
| YouTube.ShortsExample | public/extension/content.js:111-112 | `/shorts/a-1_b/x` yields `a-1_b` |
| YouTube.ShortLinkHostExample | public/extension/content.js:109 | a `youtu.be` host is not a youtube host, so it has no id |
| YouTube.CueBodyAfter | public/extension/content.js:124 | a body found after a `>` starts right after it and ends where a `</text>` starts, inside the payload |
| YouTube.CueAt | public/extension/content.js:124 | a cue found at a position has its body after the opening tag, right after a `>`, and ending where a `</text>` starts, inside the payload |
| YouTube.CueAtMatches | public/extension/content.js:124 | a cue found at a position is a regex match there (attributes up to the first `>`, lazy body up to the first `</text>`), and every regex match there is the one found |
| YouTube.CueAtUnique | public/extension/content.js:124 | a regex match at a position is exactly the cue found there |
| YouTube.CueBodiesSkipLead | public/extension/content.js:124 | text before a cue that holds no `<text` contributes no match |
| YouTube.CueBodiesTrailer | public/extension/content.js:124 | text holding no `<text` yields no cue bodies |
| YouTube.CueBodies | public/extension/content.js:124 | the captured bodies of `matchAll`, left to right; `YouTube.CaptionsRoundTrip` states that it gives back the bodies of rendered cues |
| YouTube.TaggedCueBodies | public/extension/content.js:124 | a well-formed cue at the front yields its body, and the scan resumes after its `</text>` |
| YouTube.CaptionsRoundTrip | public/extension/content.js:124 | parsing rendered well-formed cues (any leading text without `<text`, attributes without `>`, bodies without `</text>`) gives back exactly their bodies, in order |
| YouTube.CaptionLines | public/extension/content.js:125 | each line is its body with newlines made spaces, trimmed and decoded |
| YouTube.ParseCaptions | public/extension/content.js:124-125 | the decoded cue lines joined by `\n`; `YouTube.TimedTextLines` states when splitting it gives back those lines |
| YouTube.TimedText | public/extension/content.js:118-128 | `fetchYouTubeTimedText` given the server's reply: empty on a failed fetch or a non-OK reply; `YouTube.TimedTextLines` states the OK case |
| YouTube.TrackText | public/extension/content.js:118-121 | the track text for a language, with the server as a parameter; `YouTube.Transcripts` states the list it builds |
| YouTube.TimedTextLines | public/extension/content.js:118-128 | for an OK reply whose payload is a non-empty list of rendered well-formed cues followed by a trailer without `<text`, and whose decoded cue lines hold no newline, the returned text splits at `\n` into exactly the decoded caption lines, one per cue |
| YouTube.Transcripts | public/extension/content.js:148-150 | the track text fetched for each of `en, en-US, hi, hi-IN, ur`, in that order |
| YouTube.FirstNonEmpty | public/extension/content.js:149-152 | the first track with text, and empty exactly when every track is empty |
| YouTube.FirstNonEmptyAt | public/extension/content.js:149-152 | when the tracks before position `n` are empty and track `n` has text, the transcript is track `n` |
| Extraction.FetchTranscript | public/extension/content.js:147-153 | the loop returns the first non-empty track, requests languages in list order, and stops at the first that yields text |
| Extraction.ExtractText | public/extension/content.js:143-167 | the extracted text is the specified text for the page's platform; captions are requested only for a youtube page with a video id |
| Extraction.Transcript | public/extension/content.js:145-153 | the transcript: empty without a usable video id, else the first non-empty track; `Extraction.FetchTranscript` and `YouTube.FirstNonEmpty` state it |
| Extraction.ExtractedText | public/extension/content.js:143-167 | `extractText()` by host; `Extraction.YouTubeTextLayout` and `Extraction.NonYouTubeTitleFallback` state its shape |
| Extraction.GenericText | public/extension/content.js:102-104 | `extractGeneric()`; `Extraction.GenericTextFacts` states it is the first 8000 characters of a non-empty body, else the title |
| Extraction.YouTubePageText | public/extension/content.js:136-141 | `extractYouTubeText()`; `Extraction.YouTubePageTextEmpty` and `Extraction.CommentsPastCapIgnored` state when it is empty and what it ignores |
| Extraction.NodesText | public/extension/content.js:157-165 | the joined first 80 node texts, else the title; `Extraction.NodesPastCapIgnored` states that later nodes do not matter |
| Extraction.GenericTextFacts | public/extension/content.js:102-104 | with non-empty body text it is exactly the first `min(8000, length)` characters of the body text; without body text, or with empty body text, it is the title |
| Extraction.NonYouTubeTitleFallback | public/extension/content.js:157-166 | off YouTube a page with a title never yields empty text |
| Extraction.YouTubeTextLayout | public/extension/content.js:155 | on YouTube the text is the transcript and the page text joined by a newline, dropping whichever is empty |
| Extraction.YouTubePageTextEmpty | public/extension/content.js:136-141 | the page text is empty exactly when the heading-or-title and the description are empty and the first 60 comments, joined with newlines, are empty (no comment, or a single empty one) |
| Extraction.CommentsPastCapIgnored | public/extension/content.js:139 | comments after the 60th do not change the page text |
| Extraction.TakeIgnoresTail | public/extension/content.js:159 | nodes past the cap do not change the capped list |
| Extraction.NodesPastCapIgnored | public/extension/content.js:158-164 | Instagram and Twitter nodes after the 80th do not change the text |
| ContentScript.UnsetKeysGiveDefaults | public/extension/content.js:3 | with no stored keys the settings are the initial `{enabled: true, cloud: false, backend: ''}` |
| ContentScript.FromStoredFacts | public/extension/content.js:8-10 | enabled unless stored `false`, cloud only when stored `true`, and the backend URL is the stored string (or `''` when unset) with exactly its leading and trailing whitespace cut away |
| ContentScript.FromStored | public/extension/content.js:8-10 | the settings read from storage; `ContentScript.FromStoredFacts` and `ContentScript.UnsetKeysGiveDefaults` state each field |
| ContentScript.EndpointFacts | public/extension/content.js:87 | the URL ends with `/api/analyze/text`; a backend without a trailing `/` gets the path appended, and one trailing `/` is dropped |
| ContentScript.Endpoint | public/extension/content.js:87 | the analysis URL; `ContentScript.EndpointFacts` states its suffix and the trailing-slash rule |
| ContentScript.RequestFacts | public/extension/content.js:82-90 | the request carries the text itself, names youtube exactly for youtube hosts and hindi exactly for Devanagari text, and goes to the endpoint |
| ContentScript.AnalysisSource | public/extension/content.js:84-98 | the backend's result is used exactly when cloud and backend are set and it answers OK with a body; otherwise (off, network error, non-OK, no body) it is the local classifier's result |
| ContentScript.RequestFor | public/extension/content.js:82-91 | the POST request; `ContentScript.RequestFacts` states its fields |
| ContentScript.AnalysisFor | public/extension/content.js:81-99 | `analyze(text)`; `ContentScript.AnalysisSource` states when the backend's result is used and when the local one |
| ContentScript.DisabledSkips | public/extension/content.js:183-186 | the scan is skipped exactly when disabled |
| ContentScript.ScanTextNoContent | public/extension/content.js:188-191 | `no-content` exactly when the trimmed text is shorter than 3 |
| ContentScript.NoContentIff | public/extension/content.js:187-191 | when enabled, `no-content` exactly when the trimmed extracted text is shorter than 3 |
| ContentScript.ScanText | public/extension/content.js:188-193 | the scan of an extracted text; `ContentScript.ScanTextNoContent` and `ContentScript.LocalScan` state its two outcomes |
| ContentScript.ScanOutcome | public/extension/content.js:183-193 | the response to a scan request; `ContentScript.DisabledSkips` and `ContentScript.NoContentIff` state when it is skipped and when it is `no-content` |
| ContentScript.LocalScan | public/extension/content.js:192-193 | without a backend the response is the local classifier's result for the first 12000 characters, with the first 300 characters as preview |
| ContentScript.NoContentLabelIsDistinct | public/extension/content.js:68 | the classifier never produces the label `no-content` |
| ContentScript.Script.constructor | public/extension/content.js:3 | initial settings are enabled, no cloud, no backend |
| ContentScript.Script.LoadSettings | public/extension/content.js:5-13 | the stored values replace the settings; unreachable storage leaves them unchanged |
| ContentScript.Script.Apply | public/extension/content.js:177-179 | the three settings fields become the given ones |
| ContentScript.Script.Analyze | public/extension/content.js:81-99 | computes the backend-or-local analysis with the current settings |
| ContentScript.Script.ScanExtracted | public/extension/content.js:188-193 | `no-content` for empty or near-empty text, else the analysis of the first 12000 characters |
| ContentScript.Script.Scan | public/extension/content.js:183-193 | skipped when disabled, else the scan of the extracted text |
| ContentScript.Script.HandleMessage | public/extension/content.js:170-199 | other messages get no response and change nothing; a failed settings refresh answers `{ok: false, error}` and changes nothing; otherwise the settings are refreshed and the response is the scan outcome under them |

## Left out

- Storage and messaging are asynchronous (`chrome.storage.sync.get` callbacks, `async` handlers, `return true` to keep the channel open). The model runs each handler to completion in one step. A storage callback that never fires is not modelled.
- `ContentScript.Script.HandleMessage`: the only error modelled in the `catch` branch is a failed settings refresh. The other calls the `try` covers are total in the model, so they cannot throw.
- Stored settings have the types the popup writes (booleans and a string). `!!res.watchdog_cloud` on a non-boolean truthy value is not modelled.
- The DOM is not modelled. A page is the values its selectors yield (`document.title`, `innerText` of the body, heading, description, comments, Instagram and tweet nodes).
- `decodeHTMLEntities` needs a DOM textarea. It is a parameter `decode`.
- The caption request and the backend request are parameters: the server's reply per video id and language, and the backend's reply per request. The URL strings built with `encodeURIComponent`, the headers, the `credentials` option and the JSON encoding of the body are not modelled.
- `new URL(location.href)` is not modelled. A URL is its hostname, its pathname and its decoded query parameters, and the parser's own failures (the `catch` at line 114) cannot occur.
- The backend's JSON is taken to have the shape of the local result. A backend body with other fields, or one whose fields override `ok` in `{ ok: true, ...result }`, is not modelled.
- `toLowerCase` is modelled on ASCII letters only. Characters outside ASCII are kept as they are, including those that full Unicode lower-casing would change. Strings are sequences of characters, not UTF-16 code units.
- `trim()` uses the ECMAScript whitespace and line-terminator set as characters. Surrogate pairs are not modelled.
- Scorer.CountMatches: the text is a sequence of characters, while the source's regex runs over UTF-16 code units. A character outside the Basic Multilingual Plane is two code units, so it can serve as two boundaries. In `"mc😀mc"` the source finds two `mc` matches: the first consumes the high surrogate and the second starts at the low one. The model counts one. So `"bsdk😂bsdk"` is flagged `hinglishProfanity` by the source but labelled `safe` by the model.
- ContentScript.ScanText: `length` and `slice` count UTF-16 code units in the source and characters in the model. `"😀😀".trim().length` is 4, so the source analyzes that text, while the model answers `no-content`. The 12000-, 8000- and 300-character caps likewise count code units in the source, and there they can split a surrogate pair.
- Scorer.CategoriesRanked: scores are exact tenths, not IEEE doubles. Ties and orders that only exist in exact arithmetic can differ from the source's. For example, with 27 sexual and 21 hinglishProfanity hits, `27*0.7` evaluates to 18.9 and `21*0.9` to 18.900000000000002. The source therefore ranks hinglishProfanity first, while the model's exact tie keeps sexual first. The flag threshold is unaffected, since `n*0.7 >= 1`, `n*0.5 >= 1` and `n*0.9 >= 1` agree with the exact comparison.
- The `weights[k]||0.5` default is unreachable, because every category has a weight. It is not modelled.
- The platform and language are computed by `analyze` even when no backend is used. In the model they appear only in the backend request, because nothing else observes them.
- `src/App.jsx` and `public/extension/popup.js` are not part of this model. They hold UI wiring and network calls only.
