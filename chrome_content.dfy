/** The Chrome content script (`M3U8ContentDetector`): its playlist URL
    test, the set of URLs already reported to the background script, and
    the filter on messages posted by the page. */
module ChromeContent {
  import opened Strings
  import opened Wrappers
  import opened Url
  import Injected

  /** `isM3U8Url(url)`: `parsed` is `new URL(url)`, `None` when the
      constructor throws. */
  predicate IsM3U8Url(url: string, parsed: Option<UrlParts>) {
    if url == "" then false
    else if parsed.Some? then
      Contains(parsed.value.pathname, ".m3u8") || Contains(parsed.value.search, "m3u8")
      || Contains(parsed.value.pathname, "playlist.m3u8") || Contains(parsed.value.pathname, "index.m3u8")
    else Contains(url, ".m3u8")
  }

  /** For a URL that parses, the `playlist.m3u8` and `index.m3u8` tests are
      subsumed: the pathname holds `.m3u8` or the query holds `m3u8`. */
  lemma ParsedM3U8Url(url: string, parts: UrlParts)
    requires url != ""
    ensures IsM3U8Url(url, Some(parts)) <==> Contains(parts.pathname, ".m3u8") || Contains(parts.search, "m3u8")
  {
    if Contains(parts.pathname, "playlist.m3u8") {
      ContainsInner(parts.pathname, "playlist.m3u8", ".m3u8", 8);
    }
    if Contains(parts.pathname, "index.m3u8") {
      ContainsInner(parts.pathname, "index.m3u8", ".m3u8", 5);
    }
  }

  /** For a string that does not parse, the raw text must hold `.m3u8`;
      the empty string is never a playlist URL. */
  lemma UnparsedM3U8Url(url: string)
    ensures IsM3U8Url(url, None) <==> Contains(url, ".m3u8")
  {
  }

  /** A message posted in the page: whether its `source` is this window,
      and the `type` and `url` of its data. */
  datatype PageMessage = PageMessage(fromWindow: bool, kind: string, url: string)

  const M3U8Detected := "M3U8_DETECTED"

  /** The message type the injected script posts is not the one the
      content script listens for. */
  lemma InjectedTypeNotHandled()
    ensures Injected.MediaDetected != M3U8Detected
  {
    assert Injected.MediaDetected[1] != M3U8Detected[1];
  }

  predicate Distinct(sent: seq<string>) {
    forall i, j | 0 <= i < j < |sent| :: sent[i] != sent[j]
  }

  lemma AppendFresh(sent: seq<string>, url: string)
    requires Distinct(sent) && url !in sent
    ensures Distinct(sent + [url])
    ensures (set u | u in sent + [url]) == (set u | u in sent) + {url}
  {
  }

  class M3U8ContentDetector {
    var detectedUrls: set<string>
    /** The URLs of the `M3U8_FOUND` messages sent, in order. */
    var sent: seq<string>

    /** Every URL in the set was sent exactly once. */
    ghost predicate Valid()
      reads this
    {
      detectedUrls == (set u | u in sent) && Distinct(sent)
    }

    constructor ()
      ensures Valid() && detectedUrls == {} && sent == []
    {
      detectedUrls := {};
      sent := [];
    }

    /** `reportStream(url)`: a URL already seen is ignored; otherwise it
        joins the set and is sent. Failures of the send are ignored. */
    method ReportStream(url: string)
      requires Valid()
      modifies this
      ensures Valid()
      ensures url in old(detectedUrls) ==> detectedUrls == old(detectedUrls) && sent == old(sent)
      ensures url !in old(detectedUrls) ==> detectedUrls == old(detectedUrls) + {url} && sent == old(sent) + [url]
    {
      if url in detectedUrls {
        return;
      }
      AppendFresh(sent, url);
      detectedUrls := detectedUrls + {url};
      sent := sent + [url];
    }

    /** `handleMessage(event)`: only `M3U8_DETECTED` messages from this
        window are reported. */
    method HandleMessage(message: PageMessage)
      requires Valid()
      modifies this
      ensures Valid()
      ensures !message.fromWindow || message.kind != M3U8Detected ==>
        detectedUrls == old(detectedUrls) && sent == old(sent)
      ensures message.fromWindow && message.kind == M3U8Detected ==>
        detectedUrls == old(detectedUrls) + {message.url}
        && sent == if message.url in old(detectedUrls) then old(sent) else old(sent) + [message.url]
    {
      if !message.fromWindow {
        return;
      }
      if message.kind == M3U8Detected {
        ReportStream(message.url);
      }
    }
  }
}
