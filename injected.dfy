/** The page-context script injected by the Chrome content script: its
    media URL test (`isMediaUrl`), the blob test of its `createObjectURL`
    hook, and the message type it posts to the page. */
module Injected {
  import opened Wrappers
  import opened Strings

  const MediaExtensions: seq<string> :=
    [".mp4", ".avi", ".mkv", ".mov", ".wmv", ".flv", ".webm", ".m4v", ".3gp", ".ogv",
     ".ts", ".m2ts", ".mts", ".vob", ".asf", ".rm", ".rmvb", ".divx", ".xvid",
     ".mp3", ".wav", ".flac", ".aac", ".ogg", ".wma", ".m4a", ".opus", ".aiff", ".ape",
     ".m3u8", ".mpd", ".ism", ".f4v", ".f4a"]

  const MediaPatterns: seq<string> :=
    ["videoplayback", "video_ts", "playlist.m3u8", "index.m3u8", "master.m3u8",
     "manifest.mpd", "chunk_", "segment_", "frag_", "init.mp4", "video/", "audio/",
     "hls", "dash", "stream"]

  const SkipPatterns: seq<string> :=
    ["favicon", "thumbnail", "preview", "poster", "logo", "icon",
     ".gif", ".jpg", ".jpeg", ".png", ".webp", ".svg", ".css", ".js",
     "analytics", "tracking", "beacon", "pixel"]

  /** The `type` of every message `reportMedia` posts to the page. */
  const MediaDetected := "MEDIA_DETECTED"

  /** `isMediaUrl(url)`: every list is searched anywhere in the lower-cased
      URL, and the skip list is consulted first. */
  predicate IsMediaUrl(url: string) {
    if url == "" then false
    else
      var u := Lower(url);
      if ContainsAny(u, SkipPatterns) then false
      else ContainsAny(u, MediaExtensions) || ContainsAny(u, MediaPatterns)
  }

  /** The test sees only the lower-cased URL. */
  lemma MediaUrlIgnoresCase(url: string)
    ensures IsMediaUrl(url) == IsMediaUrl(Lower(url))
  {
    LowerIdempotent(url);
  }

  /** A skip substring overrides every accepting rule. */
  lemma SkipOverrides(url: string, i: int)
    requires 0 <= i < |SkipPatterns| && Contains(Lower(url), SkipPatterns[i])
    ensures !IsMediaUrl(url)
  {
    ContainsAnyAt(Lower(url), SkipPatterns, i);
  }

  /** A media URL contains one of the extensions or patterns somewhere. */
  lemma MediaUrlWitness(url: string) returns (i: int, j: int)
    requires IsMediaUrl(url)
    ensures (0 <= i < |MediaExtensions| && Contains(Lower(url), MediaExtensions[i]))
            || (0 <= j < |MediaPatterns| && Contains(Lower(url), MediaPatterns[j]))
  {
    var u := Lower(url);
    i, j := -1, -1;
    if ContainsAny(u, MediaExtensions) {
      i := ContainsAnyWitness(u, MediaExtensions);
    } else {
      j := ContainsAnyWitness(u, MediaPatterns);
    }
  }

  /** Without a skip substring, any extension anywhere makes a non-empty
      URL media. */
  lemma ExtensionAccepted(url: string, i: int)
    requires url != ""
    requires 0 <= i < |MediaExtensions| && Contains(Lower(url), MediaExtensions[i])
    requires !ContainsAny(Lower(url), SkipPatterns)
    ensures IsMediaUrl(url)
  {
    ContainsAnyAt(Lower(url), MediaExtensions, i);
  }

  /** Without a skip substring, any pattern anywhere makes a non-empty URL
      media. */
  lemma PatternAccepted(url: string, j: int)
    requires url != ""
    requires 0 <= j < |MediaPatterns| && Contains(Lower(url), MediaPatterns[j])
    requires !ContainsAny(Lower(url), SkipPatterns)
    ensures IsMediaUrl(url)
  {
    ContainsAnyAt(Lower(url), MediaPatterns, j);
  }

  /** The `.js` skip substring also rejects every `.json` URL. */
  lemma JsonRejected(url: string)
    requires Contains(Lower(url), ".json")
    ensures !IsMediaUrl(url)
  {
    ContainsInner(Lower(url), ".json", ".js", 0);
    SkipOverrides(url, 13);
  }

  /** `.ts` is matched anywhere, so a host name such as `site.tsinghua`
      makes a URL media unless a skip substring intervenes. */
  lemma DotTsAnywhereAccepted(url: string)
    requires Contains(Lower(url), ".ts")
    requires !ContainsAny(Lower(url), SkipPatterns)
    ensures IsMediaUrl(url)
  {
    ExtensionAccepted(url, 10);
  }

  /** The test in the `createObjectURL` hook: `blobType` is the `type` of
      the object, `None` when the object is not a `Blob`. */
  predicate IsMediaBlob(blobType: Option<string>) {
    blobType.Some? && blobType.value != ""
    && (StartsWith(blobType.value, "video/") || StartsWith(blobType.value, "audio/"))
  }

  /** The emptiness test is subsumed: a blob is reported exactly when its
      type starts with `video/` or `audio/` (case-sensitively). */
  lemma MediaBlobByPrefix(blobType: Option<string>)
    ensures IsMediaBlob(blobType) <==>
      blobType.Some? && (StartsWith(blobType.value, "video/") || StartsWith(blobType.value, "audio/"))
  {
  }

  /** Upper-case media types are not reported. */
  lemma UpperCaseBlobTypeIgnored()
    ensures !IsMediaBlob(Some("Video/MP4"))
  {
    assert "Video/MP4"[0] != "video/"[0];
    assert "Video/MP4"[0] != "audio/"[0];
  }
}
