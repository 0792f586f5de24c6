# Media and HLS stream downloader extension — a Dafny model

The repository holds two browser extensions that find media on web pages and
download it.

**Chrome extension.** This one detects HLS playlists (`.m3u8`).
- A background page (`background.js`) keeps a registry of detected streams. It
  fills the registry from network listeners and from messages sent by the
  content script.
- Downloading a stream means: fetching and parsing the playlist, fetching its
  segments in batches of concurrent requests, sorting them back into playlist
  order and saving every segment as its own file.
- A content script (`content.js`) finds playlist URLs in the page and
  reports each of them once.
- A page script (`injected.js`) hooks `fetch`, XHR, WebSocket and
  `URL.createObjectURL` and posts the media URLs it sees to the page.
- The popup (`popup.js`) lists the streams and proposes a file name for each.

**Firefox extension (`MozilaExtension/`).** This one detects media of every kind.
- A background script keeps an insertion-ordered registry of media entries.
  Admission is checked by a URL classifier, and duplicates are refused by URL.
- The background script probes entry sizes, formats them for display, and
  downloads an entry through the browser's download manager.
- The content script scans the page with its own classifier and reports each
  URL once.
- The popup shows the list, proposes file names and rebuilds the list only
  when the set of ids changed.

**How the model is organised.**
- There is one Dafny module per source file:
  - `ChromeBackground`, `ChromeContent`, `Injected` and `ChromePopup` for the Chrome files.
  - `FirefoxBackground`, `FirefoxContent` and `FirefoxPopup` for the Firefox files.
  - `PopupCommon` for the two helpers that both popups define identically.
- Shared value-level helpers live in their own modules:
  - `Strings`: ASCII lower-casing, the `includes`/`startsWith`/`endsWith` family, `indexOf`, `split`, `trim`, `replace`.
  - `Decimal`: decimal text and `padStart`.
  - `Url`: the parts of a parsed URL.
  - `Wrappers`: `Option`/`Result`.
- Objects whose fields the scripts update in place are classes:
  - the Chrome `M3U8Downloader` registry (a `map`);
  - the Firefox registry `MediaRegistry` (an insertion-ordered `seq` plus the live download listeners);
  - the two content-script trackers, `M3U8ContentDetector` and `MediaScanner`.
- Loops become methods proved against specification functions: playlist parsing, batching, the index sort (on an `array`), the save loop, the tab-clearing loop and the unit-scaling loop.
- Everything else is functions and lemmas.

**Inputs become parameters.** Network, clock and randomness inputs are passed in as parameters:
- every `fetch` outcome is a datatype value or an oracle function;
- `Date.now()`, `new Date()` and generated ids are explicit arguments;
- `new URL(...)` is an `Option<UrlParts>` argument, `None` where the constructor throws.

## Model

| member | source | states |
|---|---|---|
| Injected.IsMediaUrl | injected.js:10-44 | the media URL test, characterised by the lemmas below: skip substrings first, then any extension or pattern anywhere |
| Injected.MediaUrlIgnoresCase | injected.js:29-43 | the media test sees only the lower-cased URL |
| Injected.SkipOverrides | injected.js:32-40 | a URL containing any skip substring is rejected, whatever else it contains |
| Injected.MediaUrlWitness | injected.js:42-43 | an accepted URL contains one of the media extensions or media patterns somewhere |
| Injected.ExtensionAccepted | injected.js:13-21 | a non-empty URL with no skip substring and any extension anywhere is media |
| Injected.PatternAccepted | injected.js:23-27 | a non-empty URL with no skip substring and any pattern anywhere is media |
| Injected.JsonRejected | injected.js:34 | the `.js` skip substring rejects every `.json` URL |
| Injected.DotTsAnywhereAccepted | injected.js:16 | `.ts` matches anywhere in the URL, not only as an extension |
| Injected.MediaBlobByPrefix | injected.js:208-209 | a blob URL is reported exactly when the object's type starts with `video/` or `audio/` |
| Injected.IsMediaBlob | injected.js:208-209 | the blob test of the `createObjectURL` hook, characterised by MediaBlobByPrefix |
| Injected.UpperCaseBlobTypeIgnored | injected.js:209 | the blob-type prefix test is case-sensitive |
| ChromeContent.IsM3U8Url | content.js:123-134 | the playlist URL test, characterised by ParsedM3U8Url and UnparsedM3U8Url |
| ChromeContent.ParsedM3U8Url | content.js:126-131 | for a parsable URL the test holds exactly when the pathname contains `.m3u8` or the query contains `m3u8` |
| ChromeContent.UnparsedM3U8Url | content.js:123-134 | for an unparsable string the test holds exactly when the text contains `.m3u8`; the empty string never passes |
| ChromeContent.InjectedTypeNotHandled | content.js:118 | the page script posts `MEDIA_DETECTED`, which is not the `M3U8_DETECTED` type the handler listens for |
| ChromeContent.M3U8ContentDetector.constructor | content.js:3-6 | the detector starts with no URL seen and nothing sent |
| ChromeContent.M3U8ContentDetector.ReportStream | content.js:137-151 | a URL seen before changes nothing; a new one joins the set and is sent once; the set is always exactly the URLs sent, and each is sent once |
| ChromeContent.M3U8ContentDetector.HandleMessage | content.js:115-121 | only `M3U8_DETECTED` messages from the page's own window are reported |
| FirefoxContent.IsValidMediaUrl | MozilaExtension/content.js:144-175 | the content script's URL test, characterised by the lemmas below |
| FirefoxContent.InvalidInputRejected | MozilaExtension/content.js:144-154 | non-strings, strings under four characters and strings that do not resolve are rejected |
| FirefoxContent.ValidityIgnoresCase | MozilaExtension/content.js:163-174 | validity depends only on the lower-cased resolved URL |
| FirefoxContent.PlayerScriptsRejected | MozilaExtension/content.js:157-166 | URLs of JW Player, video.js or a `player.js` are never valid |
| FirefoxContent.ImageRejected | MozilaExtension/content.js:168-171 | an image extension followed by `?` or the end of the URL rejects it |
| FirefoxContent.TransportStreamAccepted | MozilaExtension/content.js:14-16 | a resolved URL ending in `.ts` that passes the skip and image tests is valid |
| FirefoxContent.AmpersandQueryBreaksExtension | MozilaExtension/content.js:16 | an occurrence of `.ext` followed anywhere later by `&` never ends the URL in the extension pattern's sense, since the query group admits no `&` |
| FirefoxContent.AmpersandQueryExample | MozilaExtension/content.js:16 | `video.mp4?a=1&b=2` does not end with `mp4` in that sense |
| FirefoxContent.ScanReports | MozilaExtension/content.js:28-141 | the messages one scan sends, characterised by ScanReportsDistinct, ScanReportsSound and ScanReportsComplete |
| FirefoxContent.ScanReportsDistinct | MozilaExtension/content.js:178-184 | a scan reports each URL at most once, and never one reported before |
| FirefoxContent.ScanReportsSound | MozilaExtension/content.js:28-141 | every reported URL is a valid URL the scan came across |
| FirefoxContent.ScanReportsComplete | MozilaExtension/content.js:28-141 | every valid URL the scan came across that was not reported before is reported |
| FirefoxContent.RescanReportsNothing | MozilaExtension/content.js:178-184 | scanning the same URLs a second time reports nothing |
| FirefoxContent.MediaScanner.constructor | MozilaExtension/content.js:9-10 | the scanner starts with no URL seen, not scanning, nothing sent |
| FirefoxContent.MediaScanner.ReportMedia | MozilaExtension/content.js:178-201 | an empty or known URL is refused; a new URL joins the set before it is sent, and the result is the reply's success |
| FirefoxContent.MediaScanner.DetectMediaUrls | MozilaExtension/content.js:28-141 | a call during a scan does nothing; otherwise the messages sent are exactly the scan's reports and the flag is cleared at the end |
| FirefoxBackground.IsActualMediaUrl | MozilaExtension/background.js:35-87 | the network-level classifier, characterised by the five lemmas below |
| FirefoxBackground.SkipFormatRejects | MozilaExtension/background.js:47-58 | a URL containing any of `.ts`, `.f4v`, `segment`, `chunk` or `fragment` anywhere is rejected, whatever else holds |
| FirefoxBackground.SegmentFilesRejected | MozilaExtension/background.js:47-58 | a URL ending in `.ts` is never actual media |
| FirefoxBackground.ActualMediaWitness | MozilaExtension/background.js:53-87 | an accepted URL holds no skip substring and ends with a media extension or a manifest extension, or contains a known pattern |
| FirefoxBackground.ExtensionSuffixAccepted | MozilaExtension/background.js:60-64 | with no skip substring, a URL ending with a media extension is accepted |
| FirefoxBackground.ManifestSuffixAccepted | MozilaExtension/background.js:66-70 | with no skip substring, a URL ending with `.m3u8` or `.mpd` is accepted |
| FirefoxBackground.PatternContainedAccepted | MozilaExtension/background.js:72-86 | with no skip substring, a URL containing a known pattern anywhere is accepted |
| FirefoxBackground.IsAdmissible | MozilaExtension/background.js:93-116 | the checks before the duplicate test: a non-empty string, no registry skip substring, accepted by the classifier |
| FirefoxBackground.UploadsDirectoryRejected | MozilaExtension/background.js:98-110 | the substring `ads` rejects any URL under an `uploads` path |
| FirefoxBackground.MediaTypeOf | MozilaExtension/background.js:130-148 | the type tag of the lower-cased URL, characterised by the tag lemmas below |
| FirefoxBackground.TagOf | MozilaExtension/background.js:132-148 | the `if` chain of type tags, first matching suffix first, then the generic words |
| FirefoxBackground.StreamManifestTags | MozilaExtension/background.js:132-146 | `.m3u8` URLs are tagged HLS and `.mpd` URLs DASH |
| FirefoxBackground.M4vAndWmaGetGenericTag | MozilaExtension/background.js:129-148 | `.m4v` and `.wma` files, accepted as media, only get a generic tag |
| FirefoxBackground.NewMedia | MozilaExtension/background.js:150-161 | the stored entry: detected, unprobed size (streaming for a manifest), no error |
| FirefoxBackground.PositionOf | MozilaExtension/background.js:350-354 | the lookup by id finds the entry with that id, or reports none exactly when no entry has it |
| FirefoxBackground.OtherTabs | MozilaExtension/background.js:258-263 | the entries kept by the tab-clearing loop all belong to other tabs |
| FirefoxBackground.OtherTabsExact | MozilaExtension/background.js:254-272 | the loop keeps every entry of another tab, and removes as many entries as the tab had |
| FirefoxBackground.OtherTabsDistinct | MozilaExtension/background.js:258-263 | removing entries keeps ids and URLs unique |
| FirefoxBackground.AppendKeepsInvariant | MozilaExtension/background.js:118-161 | adding an admissible entry with a new id and a new URL keeps the registry invariant |
| FirefoxBackground.OtherTabsKeepsInvariant | MozilaExtension/background.js:254-272 | clearing a tab keeps the registry invariant |
| FirefoxBackground.ReplaceKeepsInvariants | MozilaExtension/background.js:357 | updating an entry in place with the same id and URL keeps the invariant |
| FirefoxBackground.PartitionByTab | MozilaExtension/background.js:256-263 | the loop's survivors are the other tabs' entries in order, and its count is that tab's entry count |
| FirefoxBackground.ProbedSize | MozilaExtension/background.js:175-234 | the size written: the streaming marker for a manifest; else whatever a present HEAD header holds, `NaN` included, with GET then not tried; else, when only GET yields a header, the size that header holds; nothing when neither request yields a header |
| FirefoxBackground.UnitIndex | MozilaExtension/background.js:241-248 | the chosen unit is the largest one up to TB that is at most the byte count, and the scaled amount times it is the byte count |
| FirefoxBackground.FormatFileSize | MozilaExtension/background.js:237-251 | `null`, `0` and `NaN` show as unknown and streams as streaming; any other count is shown in the largest unit up to TB that it reaches, and the amount times that unit is the count |
| FirefoxBackground.PowMonotone | MozilaExtension/background.js:241 | larger units are larger powers of 1024 |
| FirefoxBackground.RelabelType | MozilaExtension/background.js:382-393 | a missing or empty content type keeps the tag; otherwise the tag becomes the first of Video, Audio, DASH and HLS whose substring the content type contains, whatever the current tag is, and stays as it was when it contains none |
| FirefoxBackground.MixedCaseHlsTypeKeepsTag | MozilaExtension/background.js:390 | the usual mixed-case HLS content types are not recognised |
| FirefoxBackground.AfterDownload | MozilaExtension/background.js:356-470 | the entry after the download body, characterised by DownloadOutcome |
| FirefoxBackground.DownloadReply | MozilaExtension/background.js:356-470 | the promise's outcome, characterised by DownloadOutcome |
| FirefoxBackground.DownloadOutcome | MozilaExtension/background.js:356-470 | the entry ends downloading exactly when the promise resolves, and failed with exactly the rejection message otherwise; id, URL, size and tab are untouched |
| FirefoxBackground.SettleDownload | MozilaExtension/background.js:356-470 | the step-by-step writes of the download body end in the settled entry and reply |
| FirefoxBackground.InferExtension | MozilaExtension/background.js:490-507 | the appended extension is the first extension of the chain that the lower-cased URL contains, or `.mp4` when it contains none, and is made of a dot, letters and digits |
| FirefoxBackground.PathFilename | MozilaExtension/background.js:476-483 | the last path segment, cut at `?` and sanitised, holds no illegal character |
| FirefoxBackground.PathFilenameOfSegment | MozilaExtension/background.js:477-483 | a clean last segment is kept verbatim |
| FirefoxBackground.TimestampName | MozilaExtension/background.js:485-487 | the fallback name has no dot and no illegal character |
| FirefoxBackground.GenerateFilename | MozilaExtension/background.js:474-515 | the derived name is safe, holds a dot and has at least three characters |
| FirefoxBackground.GenerateFilenameCases | MozilaExtension/background.js:474-515 | parse failure, too-short name and long-enough name give the three documented results |
| FirefoxBackground.MediaRegistry.constructor | MozilaExtension/background.js:10 | the registry starts empty with no listener |
| FirefoxBackground.MediaRegistry.AddDetectedMedia | MozilaExtension/background.js:90-172 | a URL is added exactly when it is admissible and not yet stored; the new entry is appended; the invariant holds |
| FirefoxBackground.MediaRegistry.FetchFileSizeStart | MozilaExtension/background.js:175-187 | a manifest entry that still exists gets the streaming size; nothing else changes |
| FirefoxBackground.MediaRegistry.FetchFileSize | MozilaExtension/background.js:175-234 | the probed size, `NaN` included, is written only to an entry that still exists; failed probes change nothing |
| FirefoxBackground.MediaRegistry.ClearTabStreams | MozilaExtension/background.js:254-272 | exactly that tab's entries go, the others keep their order, and the count returned is how many went |
| FirefoxBackground.MediaRegistry.ClearStreams | MozilaExtension/background.js:294-300 | the registry is emptied and its former size returned |
| FirefoxBackground.MediaRegistry.DownloadMedia | MozilaExtension/background.js:347-471 | an unknown id is refused with "Media not found"; otherwise only that entry changes, to the settled one, and a listener is registered exactly when the download started |
| FirefoxBackground.MediaRegistry.Replace | MozilaExtension/background.js:357 | one entry is written back in place; the invariant holds |
| FirefoxBackground.MediaRegistry.OnDownloadChanged | MozilaExtension/background.js:436-454 | completion or error of a watched download settles its entry and removes the listener; other events change nothing |
| FirefoxBackground.SecondInsertRefused | MozilaExtension/background.js:118-124 | of two additions of the same URL, the first adds it exactly when it is admissible and new, and the second is always refused and changes nothing |
| ChromeBackground.GetHeader | background.js:221-224 | the value of the first header whose name matches case-insensitively, or none exactly when no name matches |
| ChromeBackground.GetHeaderIgnoresCase | background.js:222 | the lookup ignores the case of the name asked for |
| ChromeBackground.BeforeRequestMatches | background.js:28-32 | the request listener's test, characterised by BeforeRequestIsM3u8Substring |
| ChromeBackground.ResponseMatches | background.js:34-43 | the response listener's test, characterised by ResponseNeedsContentType, ResponseM3u8UrlWithType, ResponseHlsTypeAnyUrl and MixedCaseHlsTypeNeedsM3u8Url |
| ChromeBackground.BeforeRequestIsM3u8Substring | background.js:28-32 | the request listener fires exactly for URLs containing `m3u8` |
| ChromeBackground.ResponseNeedsContentType | background.js:34-43 | a response without a content type is never recorded, even for a `.m3u8` URL |
| ChromeBackground.ResponseM3u8UrlWithType | background.js:34-43 | a `.m3u8` URL whose first content-type header is non-empty is recorded, whatever later headers hold |
| ChromeBackground.ResponseHlsTypeAnyUrl | background.js:34-43 | a first content-type header holding either HLS type is recorded, whatever the URL |
| ChromeBackground.MixedCaseHlsTypeNeedsM3u8Url | background.js:34-43 | the type tests are case-sensitive: `application/vnd.apple.mpegURL` is recorded only for a URL containing `.m3u8` |
| ChromeBackground.Lines | background.js:127 | the trimmed lines of the playlist, characterised by LinesOfContent |
| ChromeBackground.LinesOfContent | background.js:127 | the text is its line-feed-free pieces joined by line feeds, and each line is its piece trimmed at both ends |
| ChromeBackground.UriLines | background.js:130-135 | the kept lines are non-blank and not tags |
| ChromeBackground.UriLinesAppend | background.js:130-148 | line filtering distributes over concatenation |
| ChromeBackground.UriLinesOfJoin | background.js:126-148 | clean URI lines joined by line feeds are recovered exactly |
| ChromeBackground.Resolve | background.js:138-142 | a root-relative line replaces the playlist's path; any other relative line is appended to the playlist's directory; the result starts with the origin and ends with the line |
| ChromeBackground.SegmentUrl | background.js:137-142 | absolute lines are kept, relative ones resolved, and an unparsable playlist URL throws |
| ChromeBackground.Segments | background.js:126-151 | the loop's segments or its first failure, characterised by SegmentsCharacterised |
| ChromeBackground.SegmentsCharacterised | background.js:126-151 | parsing fails exactly when some line has no URL; otherwise one segment per line, numbered by position |
| ChromeBackground.SegmentsErrPrefix | background.js:130-148 | a failure aborts the rest of the playlist |
| ChromeBackground.ParseFailsAt | background.js:138-142 | a relative line with an unparsable base fails the whole parse |
| ChromeBackground.ParseM3U8 | background.js:126-151 | the parse is the segments of the trimmed URI lines |
| ChromeBackground.ParseLines | background.js:130-148 | the loop builds exactly the segments of the URI lines |
| ChromeBackground.BatchLimitAsWritten | background.js:155 | a negative option is kept as the batch size; a missing or zero one gives the default, capped by the segment count |
| ChromeBackground.NegativeLimitNeverEnds | background.js:159-161 | with a negative batch size the loop condition holds after every round |
| ChromeBackground.BatchLimit | background.js:155 | the batch size used is between 1 and the segment count, and agrees with the source for positive or missing options |
| ChromeBackground.FlattenBatches | background.js:158-161 | the batches concatenate back to the segment list |
| ChromeBackground.BatchSizes | background.js:158-161 | every batch holds between one and `limit` segments |
| ChromeBackground.BatchesFull | background.js:158-161 | every batch but the last is full |
| ChromeBackground.BatchCount | background.js:158-161 | there are ceil(n / limit) batches |
| ChromeBackground.MakeBatches | background.js:158-161 | the chunking loop builds exactly the batches |
| ChromeBackground.Survivors | background.js:163-185 | every kept result is a segment whose request succeeded |
| ChromeBackground.SurvivorsAppend | background.js:183-184 | the results of consecutive batches append |
| ChromeBackground.SurvivorsExact | background.js:164-184 | every successful segment is kept |
| ChromeBackground.FetchBatch | background.js:164-184 | one batch keeps exactly its successful segments, in order |
| ChromeBackground.SortByIndex | background.js:188 | the sort leaves the array ordered by index and a permutation of its input |
| ChromeBackground.InsertAt | background.js:188 | one insertion step extends the sorted prefix and permutes the array |
| ChromeBackground.SurvivorsIncrease | background.js:144-147 | dropping failures keeps indices increasing |
| ChromeBackground.SortedRearrangementUnique | background.js:188 | the sort never reorders results already in playlist order |
| ChromeBackground.DownloadSegments | background.js:153-189 | the result is sorted by index and is exactly the successful segments, in playlist order for a parsed playlist |
| ChromeBackground.FetchInBatches | background.js:163-185 | the batch loop collects exactly the successful segments in order |
| ChromeBackground.SegmentFileName | background.js:197-211 | each name is the base name, `_segment_`, the index and `.ts`, sixteen characters longer than the base below position 10000 |
| ChromeBackground.SegmentFileNameIndex | background.js:197-211 | the characters between `_segment_` and `.ts` are decimal digits that read back as the position |
| ChromeBackground.SegmentNamesDistinct | background.js:197-211 | different positions get different file names |
| ChromeBackground.SegmentNames | background.js:195-211 | one name per position, in order |
| ChromeBackground.SaveSegments | background.js:191-219 | the i-th item is saved under the i-th name, every position is attempted, and the failed positions are exactly those whose save failed |
| ChromeBackground.SavedFilesFollowSegments | background.js:191-219 | saving the successful requests of a list numbered by position puts each under its position's name, in list order, and leaves none out |
| ChromeBackground.SavedFilesFollowPlaylist | background.js:94-107 | for a download that goes ahead, file i holds a segment whose request succeeded, the files hold segments in playlist order, and every such segment is saved |
| ChromeBackground.StreamPlan | background.js:94-103 | the segments the download goes ahead with, or the error that stops it, characterised by the lemmas below |
| ChromeBackground.TextPlan | background.js:96-103 | the same for a playlist text already read |
| ChromeBackground.StreamPlanOk | background.js:95-103 | a download that goes ahead has one segment per URI line, numbered from 0, at least one |
| ChromeBackground.SegmentsOk | background.js:144-147 | successfully formed segments are one per line with strictly increasing indices |
| ChromeBackground.EmptyPlaylistFails | background.js:98-100 | a playlist without URI lines fails with the "no segments" error |
| ChromeBackground.RelativeLineWithoutBaseFails | background.js:138-142 | a relative line under an unparsable playlist URL fails the download |
| ChromeBackground.PlanOfAbsoluteUrls | background.js:126-151 | a playlist of absolute URLs is planned as exactly those URLs in order |
| ChromeBackground.OutputName | background.js:107 | the file name is the option when non-empty, else `stream` |
| ChromeBackground.Settled | background.js:109-115 | completed exactly when the plan went ahead, keeping any earlier error; failed with the plan's message otherwise; URL, tab and time kept |
| ChromeBackground.NothingSurvives | background.js:179-184 | if every request fails nothing is kept |
| ChromeBackground.RunDownload | background.js:94-108 | the body fails exactly when the plan does, with its message; otherwise file i holds the i-th successful segment in playlist order, and every successful segment is saved |
| ChromeBackground.RunText | background.js:96-107 | fails exactly when the plan does, with its message; otherwise the files are the successful segments in playlist order, under their positions' names |
| ChromeBackground.M3U8Downloader.constructor | background.js:3-8 | the registry starts empty |
| ChromeBackground.M3U8Downloader.AddDetectedStream | background.js:45-59 | the stream is stored under its id as detected, every other entry unchanged |
| ChromeBackground.M3U8Downloader.OnBeforeRequest | background.js:28-32 | a request is recorded exactly when its URL contains `m3u8` |
| ChromeBackground.M3U8Downloader.OnResponseStarted | background.js:34-43 | a response is recorded exactly when the response test holds |
| ChromeBackground.M3U8Downloader.OnM3u8Found | background.js:77-83 | a content-script report is recorded exactly when it has a URL and a tab |
| ChromeBackground.M3U8Downloader.ClearStreams | background.js:72-75 | the registry is emptied |
| ChromeBackground.M3U8Downloader.DownloadStream | background.js:87-116 | an unknown id changes nothing; otherwise only that entry changes, to its settled form, and file i holds the i-th successful segment of the playlist, in order |
| ChromeBackground.M3U8Downloader.MarkDownloading | background.js:92 | the entry is marked downloading |
| ChromeBackground.M3U8Downloader.Settle | background.js:109-115 | the entry is written back completed, or failed with the message |
| ChromeBackground.CompletesWhenEverySegmentFails | background.js:103-109 | a download whose every segment fails is still marked completed, having saved nothing |
| PopupCommon.StatusText | popup.js:191-199 | the status label, characterised by StatusTextLabels |
| PopupCommon.StatusTextLabels | popup.js:191-199 | each of the four statuses is shown with its first letter upper-cased and the rest unchanged, so lower-casing the label gives the status back; every other value is shown as it is |
| PopupCommon.StatusTextIdempotent | MozilaExtension/popup.js:232-240 | a label maps to itself |
| PopupCommon.DownloadName | popup.js:129 | the name sent is non-empty and trimmed, `stream` for blank input, otherwise taken from the input |
| PopupCommon.DownloadNameIdempotent | MozilaExtension/popup.js:165 | the name sent is a fixed point of the same treatment |
| FirefoxPopup.TruncateUrl | MozilaExtension/popup.js:222-230 | missing or empty URLs show `Unknown URL`; up to 40 characters are kept; longer ones keep their first 20 and last 15 characters around `...` |
| FirefoxPopup.TruncateUrlIdempotent | MozilaExtension/popup.js:222-230 | a shortened URL is shown as it is |
| FirefoxPopup.StripExtension | MozilaExtension/popup.js:255 | the result is a prefix, and what is removed is a dot followed by a non-empty tail without dot or slash |
| FirefoxPopup.StripFinalExtension | MozilaExtension/popup.js:255 | only the final extension is removed |
| FirefoxPopup.StripWithoutDot | MozilaExtension/popup.js:255 | a name without a dot is kept |
| FirefoxPopup.GenerateFilename | MozilaExtension/popup.js:242-266 | the proposed name has between 1 and 20 characters and no slash |
| FirefoxPopup.GenerateFilenameFallbacks | MozilaExtension/popup.js:244-251 | a falsy URL, a parse failure or a last segment under two characters gives `media` |
| FirefoxPopup.GenerateFilenameOfFile | MozilaExtension/popup.js:246-262 | a file `base.ext` is proposed as `base` cut to 20 characters, or `media` when `base` is empty |
| FirefoxPopup.BelowTotal | MozilaExtension/popup.js:87-88 | the default string order compares any two strings |
| FirefoxPopup.BelowAntisymmetric | MozilaExtension/popup.js:87-88 | strings below each other are equal |
| FirefoxPopup.BelowTransitive | MozilaExtension/popup.js:87-88 | the string order is transitive |
| FirefoxPopup.Insert | MozilaExtension/popup.js:87-88 | insertion keeps a list sorted and adds exactly one element |
| FirefoxPopup.Sort | MozilaExtension/popup.js:87-88 | the sorted ids are ordered and a permutation of the ids |
| FirefoxPopup.SortedUnique | MozilaExtension/popup.js:87-89 | two sorted lists with the same elements are equal |
| FirefoxPopup.RebuildsListExactly | MozilaExtension/popup.js:86-99 | the list is rebuilt exactly when streams arrive and their ids differ as a multiset from the known ones, or the list is empty |
| ChromePopup.TruncateUrl | popup.js:186-189 | up to 50 characters are kept; longer URLs keep their first and last 25 characters around `...`, 53 in all |
| ChromePopup.TruncateUrlIdempotent | popup.js:186-189 | shortening a shortened URL gives it back unchanged |
| ChromePopup.GenerateFilename | popup.js:201-210 | the proposed name is never empty, has no slash, and is `stream` when the URL does not parse |
| ChromePopup.GenerateFilenameOfPlaylist | popup.js:203-206 | `name.m3u8` is proposed as `name`, and `.m3u8` alone as `stream` |
| ChromePopup.OnlyFirstM3u8Removed | popup.js:205 | only the first `.m3u8` of the name is removed |

## Left out

- DOM scanning is not modelled. This covers element queries, `MutationObserver`s, the text and script regular-expression extraction in both content scripts, and the media-element event hooks in `injected.js`. The URLs these scans yield are an input sequence of candidates.
- The page-side hooks of `fetch`, XHR, WebSocket and MediaSource are not modelled. The model keeps the tests they apply (`Injected.IsMediaUrl`, `FirefoxContent.IsValidMediaUrl`) and the reporting they call.
- Message routing is not modelled: the `onMessage` switch statements, `GET_STREAMS`, `GET_MEDIA_COUNT`, `SCAN_MEDIA` and the `sendResponse` plumbing. The handlers they call are modelled. Only the Chrome `M3U8_FOUND` gate (`OnM3u8Found`) is kept, because it decides what is recorded.
- Concurrency and asynchrony are not modelled. Every `async` body runs to its end in one step.
  - The Chrome `downloadStream` is not awaited by its caller, so two downloads and new detections could interleave.
  - The Firefox size probe and download could also interleave with clearing.
  - `Promise.all` is modelled as collecting the batch results in order.
- Badge updates, notifications, `setInterval` rescans, `formatDate` and all console logging are not modelled.
- Blob contents, `FileReader`, data URLs and object URLs are not modelled. Only the index and URL of a fetched segment are kept; a saved file records the fetched segment that stands for the body written under its name.
- URL parsing is abstract: `new URL(...)` is an `Option<UrlParts>` argument.
- ChromeBackground.Resolve resolves a root-relative line against the origin and any other relative line under the playlist's directory. WHATWG resolution is not modelled beyond that, for lack of a URL parser: dot segments, percent-encoding, scheme-relative `//` lines, query-only or fragment-only lines, and absolute lines whose scheme is not a lower-case `http` prefix (`HTTP://…`, `data:`). The model places all of these under the directory.
- `toLowerCase` is modelled on ASCII letters only. Lengths and the default sort order count Dafny characters, not UTF-16 code units.
- `parseInt` is not modelled. A present `content-length` header carries its result as an `Option<int>`, `None` for `NaN`; a `NaN` size is stored as `NotANumber`. `toFixed(1)` formatting is left out: `FormatFileSize` returns the scaled amount and the unit.
- Chrome's `detectedStreams` is a Dafny `map`, so its insertion order (the order `GET_STREAMS` lists streams in) is not modelled.
- The Firefox popup's own `streams` Map and the rendered DOM are not modelled. The rebuild test takes the ids the popup knows and the number of rendered children as arguments.
- `JSON.stringify` of two sorted id arrays is compared as sequence equality.
- `statusMap[status]` for property names inherited from `Object.prototype`, such as `constructor`, is not modelled. There the source returns a function, not a label.
- PopupCommon.DownloadName states that the name is a trimmed infix of the input, not that it equals `Strings.Trim(input)`. It is defined as exactly `Trim(input)`, or `stream` for blank input.
- FirefoxPopup.GenerateFilename and ChromePopup.GenerateFilename state bounds and fall-backs in their own contracts. The exact names for ordinary file paths are stated by the lemmas beside them.

## Where the specification and the code differ

Where the specification and the code disagree, the model follows the code:
- **File names.** A filename passed to the Firefox `downloadMedia` is used verbatim (`MozilaExtension/background.js:361`). No extension is appended to it.
- **Failed segments.** A Chrome download whose every segment request fails is still marked completed (`ChromeBackground.CompletesWhenEverySegmentFails`).
- **Duplicate streams.** The Chrome registry never refuses a URL it already holds. Every detection gets a fresh entry (`background.js:45-59`).
- **Status order.** Statuses are not monotone: a new download of the same entry resets it to downloading.

## Findings

| source | as written | input that shows it | evidently intended | confidence | as-written member | corrected member |
|---|---|---|---|---|---|---|
| background.js:155-161 | `Math.min(options.concurrentDownloads \|\| 6, segments.length)` keeps a negative value, and `for (let i = 0; i < n; i += limit)` then never ends, pushing an ever-growing list of chunks | `concurrentDownloads: -1` (typed into the popup's number field) with a playlist of one segment | a batch size of at least 1, falling back to the default for any value that is not a positive integer | not executed | ChromeBackground.NegativeLimitNeverEnds | ChromeBackground.BatchLimit |
