/** The Firefox content script: the page-side media URL classifier
    (`isValidMediaUrl` with `MEDIA_PATTERNS`), the set of URLs already
    reported (`reportMedia`) and the re-entrancy flag of the scan
    (`detectMediaUrls`). */
module FirefoxContent {
  import opened Wrappers
  import opened Strings

  // ---------------------------------------------------------------------
  // Classifier (`isValidMediaUrl`)
  // ---------------------------------------------------------------------

  /** Substrings of the lower-cased URL that mark page chrome, tracking and
      player scripts. */
  const SkipPatterns: seq<string> :=
    ["favicon", "icon", "logo", "thumbnail", "avatar", "profile",
     "analytics", "tracking", "beacon", "pixel", "ads", "advertisement",
     "embed.js", "player.js", "config.js", "jwplayer", "videojs"]

  const ImageExtensions: seq<string> := ["jpg", "jpeg", "png", "gif", "webp", "svg", "ico"]

  const VideoExtensions: seq<string> :=
    ["mp4", "webm", "avi", "mkv", "mov", "wmv", "flv", "m4v", "3gp", "ogv", "ts", "m2ts"]

  const AudioExtensions: seq<string> :=
    ["mp3", "wav", "flac", "aac", "ogg", "m4a", "wma", "opus", "aiff", "ape"]

  const StreamingExtensions: seq<string> := ["m3u8", "mpd", "ism", "f4v", "f4a"]

  /** The alternatives of the streaming-pattern regular expression. */
  const StreamingWords: seq<string> := ["manifest", "playlist", "videoplayback", "stream", "media"]

  /** `\.(ext)(\?|$)` at position `p`: a dot, the extension, then `?` or
      the end of the string. */
  predicate ImageMarkAt(u: string, ext: string, p: int) {
    OccursAt(u, "." + ext, p) && (p + |ext| + 1 == |u| || u[p + |ext| + 1] == '?')
  }

  predicate HasImageMark(u: string, ext: string) {
    exists p | 0 <= p <= |u| :: ImageMarkAt(u, ext, p)
  }

  /** The image test: any of the extensions, anywhere in the string. */
  predicate AnyImageMark(u: string, exts: seq<string>) {
    exts != [] && (HasImageMark(u, exts[0]) || AnyImageMark(u, exts[1..]))
  }

  /** `(\?[^&\s]*)?$` from position `k`: the end of the string, or a `?`
      followed only by characters that are neither `&` nor whitespace. */
  predicate QueryTail(u: string, k: int)
    requires 0 <= k <= |u|
  {
    k == |u| || (u[k] == '?' && forall j | k < j < |u| :: u[j] != '&' && !IsSpace(u[j]))
  }

  /** `\.(ext)(\?[^&\s]*)?$` at position `p`. */
  predicate ExtensionEndsAt(u: string, ext: string, p: int) {
    OccursAt(u, "." + ext, p) && QueryTail(u, p + |ext| + 1)
  }

  predicate ExtensionEnds(u: string, ext: string) {
    exists p | 0 <= p <= |u| :: ExtensionEndsAt(u, ext, p)
  }

  predicate AnyExtensionEnds(u: string, exts: seq<string>) {
    exts != [] && (ExtensionEnds(u, exts[0]) || AnyExtensionEnds(u, exts[1..]))
  }

  /** `MEDIA_PATTERNS.some(pattern => pattern.test(url))`; every pattern is
      case-insensitive, so it is applied to the lower-cased URL `u`. */
  predicate MatchesMediaPattern(u: string) {
    AnyExtensionEnds(u, VideoExtensions) || AnyExtensionEnds(u, AudioExtensions)
    || AnyExtensionEnds(u, StreamingExtensions)
    || ContainsAny(u, StreamingWords)
    || StartsWith(u, "data:video/") || StartsWith(u, "data:audio/")
  }

  /** `isValidMediaUrl(url)`: `url` is `None` for a value that is not a
      string; `resolved` is `new URL(url, window.location.href).href`, or
      `None` when the constructor throws. The skip and image tests, and the
      media patterns, see the resolved URL. */
  predicate IsValidMediaUrl(url: Option<string>, resolved: Option<string>) {
    if url.None? || |url.value| < 4 then false
    else if resolved.None? then false
    else
      var u := Lower(resolved.value);
      if ContainsAny(u, SkipPatterns) then false
      else if AnyImageMark(u, ImageExtensions) then false
      else MatchesMediaPattern(u)
  }

  /** Non-strings, strings shorter than four characters (the empty string
      among them) and strings that do not resolve are rejected. */
  lemma InvalidInputRejected(url: Option<string>, resolved: Option<string>)
    requires url.None? || |url.value| < 4 || resolved.None?
    ensures !IsValidMediaUrl(url, resolved)
  {
  }

  /** Only the lower-cased form of the resolved URL matters. */
  lemma ValidityIgnoresCase(url: Option<string>, resolved: string)
    ensures IsValidMediaUrl(url, Some(resolved)) == IsValidMediaUrl(url, Some(Lower(resolved)))
  {
    LowerIdempotent(resolved);
  }

  /** A skip pattern overrides every accepting pattern: a URL served by
      JW Player or video.js, or a `player.js`, is never reported. */
  lemma PlayerScriptsRejected(url: Option<string>, resolved: string)
    requires Contains(Lower(resolved), "jwplayer") || Contains(Lower(resolved), "videojs")
             || Contains(Lower(resolved), "player.js")
    ensures !IsValidMediaUrl(url, Some(resolved))
  {
    var u := Lower(resolved);
    if Contains(u, "jwplayer") {
      ContainsAnyAt(u, SkipPatterns, 15);
    } else if Contains(u, "videojs") {
      ContainsAnyAt(u, SkipPatterns, 16);
    } else {
      ContainsAnyAt(u, SkipPatterns, 13);
    }
  }

  lemma {:induction false} AnyImageMarkAt(u: string, exts: seq<string>, i: int)
    requires 0 <= i < |exts| && HasImageMark(u, exts[i])
    ensures AnyImageMark(u, exts)
  {
    if i > 0 {
      AnyImageMarkAt(u, exts[1..], i - 1);
    }
  }

  lemma {:induction false} AnyExtensionEndsAt(u: string, exts: seq<string>, i: int)
    requires 0 <= i < |exts| && ExtensionEnds(u, exts[i])
    ensures AnyExtensionEnds(u, exts)
  {
    if i > 0 {
      AnyExtensionEndsAt(u, exts[1..], i - 1);
    }
  }

  /** A URL with an image extension followed by `?` or the end, such as
      a `.png` image with or without a query, is never reported, whatever
      else it contains. */
  lemma ImageRejected(url: Option<string>, resolved: string, i: int, p: int)
    requires 0 <= i < |ImageExtensions| && 0 <= p
    requires ImageMarkAt(Lower(resolved), ImageExtensions[i], p)
    ensures !IsValidMediaUrl(url, Some(resolved))
  {
    AnyImageMarkAt(Lower(resolved), ImageExtensions, i);
    ImageMarkRejects(url, resolved);
  }

  lemma ImageMarkRejects(url: Option<string>, resolved: string)
    requires AnyImageMark(Lower(resolved), ImageExtensions)
    ensures !IsValidMediaUrl(url, Some(resolved))
  {
  }

  /** Unlike the background classifier, the page classifier accepts a bare
      `.ts` transport-stream segment once it passes the skip and image
      tests. */
  lemma TransportStreamAccepted(url: string, resolved: string)
    requires |url| >= 4
    requires EndsWith(Lower(resolved), ".ts")
    requires !ContainsAny(Lower(resolved), SkipPatterns)
    requires !AnyImageMark(Lower(resolved), ImageExtensions)
    ensures IsValidMediaUrl(Some(url), Some(resolved))
  {
    var u := Lower(resolved);
    assert ExtensionEndsAt(u, "ts", |u| - 3);
    AnyExtensionEndsAt(u, VideoExtensions, 10);
  }

  /** The optional query group `(\?[^&\s]*)?` admits no `&`: an occurrence
      of `.ext` followed anywhere later by `&` does not end the URL. */
  lemma AmpersandQueryBreaksExtension(u: string, ext: string, p: int)
    requires OccursAt(u, "." + ext, p)
    requires '&' in u[p + |ext| + 1..]
    ensures !ExtensionEndsAt(u, ext, p)
  {
    var k := p + |ext| + 1;
    var t :| 0 <= t < |u| - k && u[k..][t] == '&';
    assert u[k + t] == '&';
  }

  /** For example, `video.mp4?a=1&b=2` does not end with `mp4` in the
      pattern's sense. */
  lemma AmpersandQueryExample()
    ensures !ExtensionEnds("video.mp4?a=1&b=2", "mp4")
  {
    var u := "video.mp4?a=1&b=2";
    forall p | 0 <= p <= |u| ensures !ExtensionEndsAt(u, "mp4", p) {
      DotMp4Position(u, p);
      if OccursAt(u, ".mp4", p) {
        assert u[p + 4..][4] == '&';
        AmpersandQueryBreaksExtension(u, "mp4", p);
      }
    }
  }

  lemma DotMp4Position(u: string, p: int)
    requires u == "video.mp4?a=1&b=2" && 0 <= p
    ensures OccursAt(u, ".mp4", p) ==> p == 5
  {
    if OccursAt(u, ".mp4", p) {
      assert u[p] == u[p..p + 4][0];
    }
  }

  // ---------------------------------------------------------------------
  // Reporting (`reportMedia`) and scanning (`detectMediaUrls`)
  // ---------------------------------------------------------------------

  /** A `MEDIA_FOUND` message sent to the background script. */
  datatype MediaFound = MediaFound(url: string, source: string)

  /** One URL the scan comes across: the raw string, its resolution, the
      name of the place it was found in and the reply its report would
      get (`None` when sending throws). */
  datatype Candidate = Candidate(url: string, resolved: Option<string>, source: string, reply: Option<bool>)

  predicate Reportable(c: Candidate) {
    IsValidMediaUrl(Some(c.url), c.resolved)
  }

  function SentUrls(sent: seq<MediaFound>): set<string> {
    set m | m in sent :: m.url
  }

  predicate UrlsDistinct(sent: seq<MediaFound>) {
    forall i, j | 0 <= i < j < |sent| :: sent[i].url != sent[j].url
  }

  /** The messages a scan over `cs` sends when `seen` holds the URLs
      reported before: each reportable URL, the first time it appears. */
  function ScanReports(seen: set<string>, cs: seq<Candidate>): seq<MediaFound>
    decreases |cs|
  {
    if cs == [] then []
    else if Reportable(cs[0]) && cs[0].url !in seen then
      [MediaFound(cs[0].url, cs[0].source)] + ScanReports(seen + {cs[0].url}, cs[1..])
    else ScanReports(seen, cs[1..])
  }

  /** A scan reports each URL at most once. */
  lemma {:induction false} ScanReportsDistinct(seen: set<string>, cs: seq<Candidate>)
    ensures UrlsDistinct(ScanReports(seen, cs))
    ensures forall m | m in ScanReports(seen, cs) :: m.url !in seen
    decreases |cs|
  {
    if cs != [] {
      var c := cs[0];
      if Reportable(c) && c.url !in seen {
        ScanReportsDistinct(seen + {c.url}, cs[1..]);
        var tail := ScanReports(seen + {c.url}, cs[1..]);
        var r := [MediaFound(c.url, c.source)] + tail;
        forall i, j | 0 <= i < j < |r| ensures r[i].url != r[j].url {
          if i == 0 {
            assert r[j] in tail;
          } else {
            assert r[i] == tail[i - 1] && r[j] == tail[j - 1];
          }
        }
        forall m | m in r ensures m.url !in seen {
          if m != r[0] {
            assert m in tail;
          }
        }
      } else {
        ScanReportsDistinct(seen, cs[1..]);
      }
    }
  }

  /** Every URL a scan reports is a reportable URL it came across. */
  lemma {:induction false} ScanReportsSound(seen: set<string>, cs: seq<Candidate>)
    ensures forall m | m in ScanReports(seen, cs) :: exists c | c in cs :: Reportable(c) && c.url == m.url
    decreases |cs|
  {
    if cs != [] {
      var c := cs[0];
      var seen' := if Reportable(c) && c.url !in seen then seen + {c.url} else seen;
      ScanReportsSound(seen', cs[1..]);
      forall m | m in ScanReports(seen, cs) ensures exists d | d in cs :: Reportable(d) && d.url == m.url {
        if m in ScanReports(seen', cs[1..]) {
          var d :| d in cs[1..] && Reportable(d) && d.url == m.url;
          assert d in cs;
        } else {
          assert Reportable(c) && m.url == c.url;
        }
      }
    }
  }

  /** A scan misses no reportable URL that was not reported before. */
  lemma {:induction false} ScanReportsComplete(seen: set<string>, cs: seq<Candidate>)
    ensures forall c | c in cs && Reportable(c) && c.url !in seen :: c.url in SentUrls(ScanReports(seen, cs))
    decreases |cs|
  {
    if cs != [] {
      var c := cs[0];
      var seen' := if Reportable(c) && c.url !in seen then seen + {c.url} else seen;
      ScanReportsComplete(seen', cs[1..]);
      var r := ScanReports(seen, cs);
      var tail := ScanReports(seen', cs[1..]);
      forall d | d in cs && Reportable(d) && d.url !in seen ensures d.url in SentUrls(r) {
        if d.url == c.url {
          assert r[0] in r;
        } else {
          assert d in cs[1..] by { assert d != cs[0]; }
          var m :| m in tail && m.url == d.url;
          assert m in r;
        }
      }
    }
  }

  lemma AppendReport(sent: seq<MediaFound>, m: MediaFound)
    requires UrlsDistinct(sent) && m.url !in SentUrls(sent)
    ensures UrlsDistinct(sent + [m])
    ensures SentUrls(sent + [m]) == SentUrls(sent) + {m.url}
  {
    var s := sent + [m];
    forall i, j | 0 <= i < j < |s| ensures s[i].url != s[j].url {
      if j == |s| - 1 {
        assert s[i] in sent;
      }
    }
    forall x | x in SentUrls(s) ensures x in SentUrls(sent) + {m.url} {
      var n :| n in s && n.url == x;
      if n != m {
        assert n in sent;
      }
    }
  }

  /** The page-side state: the URLs reported so far, the scan flag and the
      messages sent to the background script. */
  class MediaScanner {
    var detectedUrls: set<string>
    var isScanning: bool
    var sent: seq<MediaFound>

    /** Every URL in the set was sent exactly once. */
    ghost predicate Valid()
      reads this
    {
      detectedUrls == SentUrls(sent) && UrlsDistinct(sent)
    }

    constructor ()
      ensures Valid() && detectedUrls == {} && !isScanning && sent == []
    {
      detectedUrls := {};
      isScanning := false;
      sent := [];
    }

    /** `reportMedia(url, source)`: the URL joins the set before the
        message is sent, so a failed send is never retried; the result is
        `response && response.success`, false when sending throws. */
    method ReportMedia(url: string, source: string, reply: Option<bool>) returns (success: bool)
      requires Valid()
      modifies this
      ensures Valid()
      ensures isScanning == old(isScanning)
      ensures url == "" || url in old(detectedUrls) ==>
        !success && detectedUrls == old(detectedUrls) && sent == old(sent)
      ensures url != "" && url !in old(detectedUrls) ==>
        && detectedUrls == old(detectedUrls) + {url}
        && sent == old(sent) + [MediaFound(url, source)]
        && success == (reply == Some(true))
    {
      if url == "" || url in detectedUrls {
        return false;
      }
      AppendReport(sent, MediaFound(url, source));
      detectedUrls := detectedUrls + {url};
      sent := sent + [MediaFound(url, source)];
      success := reply == Some(true);
    }

    /** `detectMediaUrls()` over the URLs the page yields, in the order
        the scan visits them. A call made while a scan is in progress does
        nothing; otherwise the flag is set for the scan and cleared at its
        end. */
    method DetectMediaUrls(cs: seq<Candidate>)
      requires Valid()
      modifies this
      ensures Valid()
      ensures old(isScanning) ==> isScanning && detectedUrls == old(detectedUrls) && sent == old(sent)
      ensures !old(isScanning) ==> !isScanning && sent == old(sent) + ScanReports(old(detectedUrls), cs)
    {
      if isScanning {
        return;
      }
      isScanning := true;
      var i := 0;
      while i < |cs|
        invariant 0 <= i <= |cs|
        invariant Valid() && isScanning
        invariant sent + ScanReports(detectedUrls, cs[i..]) == old(sent) + ScanReports(old(detectedUrls), cs)
      {
        var c := cs[i];
        assert cs[i..] == [c] + cs[i + 1..];
        if IsValidMediaUrl(Some(c.url), c.resolved) {
          var _ := ReportMedia(c.url, c.source, c.reply);
        }
        i := i + 1;
      }
      isScanning := false;
    }
  }

  /** Two scans over the same URLs report nothing the second time. */
  lemma RescanReportsNothing(seen: set<string>, cs: seq<Candidate>)
    ensures ScanReports(seen + SentUrls(ScanReports(seen, cs)), cs) == []
  {
    ScanReportsComplete(seen, cs);
    NothingNew(seen + SentUrls(ScanReports(seen, cs)), cs);
  }

  lemma {:induction false} NothingNew(seen: set<string>, cs: seq<Candidate>)
    requires forall c | c in cs && Reportable(c) :: c.url in seen
    ensures ScanReports(seen, cs) == []
  {
    if cs != [] {
      assert forall c | c in cs[1..] :: c in cs;
      NothingNew(seen, cs[1..]);
    }
  }
}
