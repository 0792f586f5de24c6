/** The Firefox background script: the network-level media classifier, the
    registry of detected media (a module-level, insertion-ordered `Map`),
    the size probe, the download routine and the filename deriver. */
module FirefoxBackground {
  import opened Wrappers
  import opened Strings
  import opened Decimal
  import opened Url

  // ---------------------------------------------------------------------
  // Classifier (`isActualMediaUrl`)
  // ---------------------------------------------------------------------

  const VideoExtensions: seq<string> :=
    [".mp4", ".webm", ".avi", ".mkv", ".mov", ".wmv", ".flv", ".m4v",
     ".mp3", ".wav", ".flac", ".aac", ".ogg", ".m4a", ".wma"]

  const StreamingFormats: seq<string> := [".m3u8", ".mpd"]

  /** Substrings that mark a segment or fragment rather than a playable file. */
  const SkipFormats: seq<string> := [".ts", ".f4v", "segment", "chunk", "fragment"]

  const VideoPatterns: seq<string> :=
    ["videoplayback", "video.mp4", "video.webm", "media.mp4", "media.webm",
     "play.mp4", "play.webm", "master.m3u8", "playlist.m3u8", "manifest.mpd"]

  /** `isActualMediaUrl`: the skip list is consulted before any accept rule. */
  predicate IsActualMediaUrl(url: string) {
    var u := Lower(url);
    if ContainsAny(u, SkipFormats) then false
    else if EndsWithAny(u, VideoExtensions) then true
    else if EndsWithAny(u, StreamingFormats) then true
    else ContainsAny(u, VideoPatterns)
  }

  /** Any skip substring, anywhere in the URL, overrides every accepting
      rule. */
  lemma SkipFormatRejects(url: string, i: int)
    requires 0 <= i < |SkipFormats| && Contains(Lower(url), SkipFormats[i])
    ensures !IsActualMediaUrl(url)
  {
    ContainsAnyAt(Lower(url), SkipFormats, i);
  }

  /** A bare `.ts` transport-stream segment is never accepted, even when its
      name also carries a media extension earlier on. */
  lemma SegmentFilesRejected(url: string)
    requires EndsWith(Lower(url), ".ts")
    ensures !IsActualMediaUrl(url)
  {
    EndsWithContains(Lower(url), ".ts");
    SkipFormatRejects(url, 0);
  }

  /** An accepted URL holds no skip substring, and ends with a media
      extension or a manifest extension, or contains a known pattern. */
  lemma ActualMediaWitness(url: string) returns (i: int, j: int, k: int)
    requires IsActualMediaUrl(url)
    ensures !ContainsAny(Lower(url), SkipFormats)
    ensures (0 <= i < |VideoExtensions| && EndsWith(Lower(url), VideoExtensions[i]))
            || (0 <= j < |StreamingFormats| && EndsWith(Lower(url), StreamingFormats[j]))
            || (0 <= k < |VideoPatterns| && Contains(Lower(url), VideoPatterns[k]))
  {
    var u := Lower(url);
    i, j, k := -1, -1, -1;
    if EndsWithAny(u, VideoExtensions) {
      i := EndsWithAnyWitness(u, VideoExtensions);
    } else if EndsWithAny(u, StreamingFormats) {
      j := EndsWithAnyWitness(u, StreamingFormats);
    } else {
      k := ContainsAnyWitness(u, VideoPatterns);
    }
  }

  /** Without a skip substring, a URL ending with a media extension is
      accepted. */
  lemma ExtensionSuffixAccepted(url: string, i: int)
    requires 0 <= i < |VideoExtensions| && EndsWith(Lower(url), VideoExtensions[i])
    requires !ContainsAny(Lower(url), SkipFormats)
    ensures IsActualMediaUrl(url)
  {
    EndsWithAnyAt(Lower(url), VideoExtensions, i);
  }

  /** Without a skip substring, a URL ending with `.m3u8` or `.mpd` is
      accepted. */
  lemma ManifestSuffixAccepted(url: string, j: int)
    requires 0 <= j < |StreamingFormats| && EndsWith(Lower(url), StreamingFormats[j])
    requires !ContainsAny(Lower(url), SkipFormats)
    ensures IsActualMediaUrl(url)
  {
    EndsWithAnyAt(Lower(url), StreamingFormats, j);
  }

  /** Without a skip substring, a URL containing a known pattern anywhere is
      accepted, whatever it ends with. */
  lemma PatternContainedAccepted(url: string, k: int)
    requires 0 <= k < |VideoPatterns| && Contains(Lower(url), VideoPatterns[k])
    requires !ContainsAny(Lower(url), SkipFormats)
    ensures IsActualMediaUrl(url)
  {
    ContainsAnyAt(Lower(url), VideoPatterns, k);
  }

  // ---------------------------------------------------------------------
  // Registry admission (`addDetectedMedia`'s checks)
  // ---------------------------------------------------------------------

  /** Substrings that mark page chrome, tracking and non-media files. */
  const RegistrySkipPatterns: seq<string> :=
    ["favicon", "icon", "logo", "thumbnail", "avatar", "profile",
     "analytics", "tracking", "beacon", "pixel", "ads", "advertisement",
     ".gif", ".jpg", ".jpeg", ".png", ".webp", ".svg", ".ico",
     ".css", ".js", ".json", ".xml", ".txt", ".html", ".php"]

  /** A URL string passes every check of `addDetectedMedia` before the
      duplicate check. */
  predicate IsAdmissible(url: string) {
    url != "" && !ContainsAny(Lower(url), RegistrySkipPatterns) && IsActualMediaUrl(url)
  }

  /** The skip list works on substrings: `ads` also rejects a URL under an
      `uploads` or `downloads` directory, whatever the file is. */
  lemma UploadsDirectoryRejected(url: string)
    requires Contains(Lower(url), "uploads")
    ensures !IsAdmissible(url)
  {
    assert OccursAt("uploads", "ads", 4);
    ContainsInner(Lower(url), "uploads", "ads", 4);
    ContainsAnyAt(Lower(url), RegistrySkipPatterns, 10);
  }

  // ---------------------------------------------------------------------
  // Type tag (the `if` chain in `addDetectedMedia`)
  // ---------------------------------------------------------------------

  /** The `if` chain of `addDetectedMedia` that names the kind of media:
      the first matching extension wins, then the generic words. */
  function MediaTypeOf(url: string): string {
    TagOf(Lower(url))
  }

  /** The chain on the lower-cased URL. */
  function TagOf(u: string): string {
    if EndsWith(u, ".mp4") then "Video (MP4)"
    else if EndsWith(u, ".webm") then "Video (WebM)"
    else if EndsWith(u, ".avi") then "Video (AVI)"
    else if EndsWith(u, ".mkv") then "Video (MKV)"
    else if EndsWith(u, ".mov") then "Video (MOV)"
    else if EndsWith(u, ".wmv") then "Video (WMV)"
    else if EndsWith(u, ".flv") then "Video (FLV)"
    else if EndsWith(u, ".mp3") then "Audio (MP3)"
    else if EndsWith(u, ".wav") then "Audio (WAV)"
    else if EndsWith(u, ".flac") then "Audio (FLAC)"
    else if EndsWith(u, ".aac") then "Audio (AAC)"
    else if EndsWith(u, ".ogg") then "Audio (OGG)"
    else if EndsWith(u, ".m4a") then "Audio (M4A)"
    else if EndsWith(u, ".m3u8") then "HLS Stream (M3U8)"
    else if EndsWith(u, ".mpd") then "DASH Stream (MPD)"
    else if Contains(u, "video") then "Video"
    else if Contains(u, "audio") then "Audio"
    else "Media File"
  }

  /** An HLS playlist URL is tagged HLS and a DASH manifest URL is tagged
      DASH, whatever else the URL contains. */
  lemma StreamManifestTags(url: string)
    ensures EndsWith(Lower(url), ".m3u8") ==> MediaTypeOf(url) == "HLS Stream (M3U8)"
    ensures EndsWith(Lower(url), ".mpd") ==> MediaTypeOf(url) == "DASH Stream (MPD)"
  {
    var u := Lower(url);
    if EndsWith(u, ".m3u8") {
      HlsTag(u);
    }
    if EndsWith(u, ".mpd") {
      DashTag(u);
    }
  }

  lemma HlsTag(u: string)
    requires EndsWith(u, ".m3u8")
    ensures TagOf(u) == "HLS Stream (M3U8)"
  {
    NotBothSuffixes(u, ".mp4", ".m3u8");
    NotBothSuffixes(u, ".webm", ".m3u8");
    NotBothSuffixes(u, ".avi", ".m3u8");
    NotBothSuffixes(u, ".mkv", ".m3u8");
    NotBothSuffixes(u, ".mov", ".m3u8");
    NotBothSuffixes(u, ".wmv", ".m3u8");
    NotBothSuffixes(u, ".flv", ".m3u8");
    NotBothSuffixes(u, ".mp3", ".m3u8");
    NotBothSuffixes(u, ".wav", ".m3u8");
    NotBothSuffixes(u, ".flac", ".m3u8");
    NotBothSuffixes(u, ".aac", ".m3u8");
    NotBothSuffixes(u, ".ogg", ".m3u8");
    NotBothSuffixes(u, ".m4a", ".m3u8");
  }

  lemma DashTag(u: string)
    requires EndsWith(u, ".mpd")
    ensures TagOf(u) == "DASH Stream (MPD)"
  {
    NotBothSuffixes(u, ".mp4", ".mpd");
    NotBothSuffixes(u, ".webm", ".mpd");
    NotBothSuffixes(u, ".avi", ".mpd");
    NotBothSuffixes(u, ".mkv", ".mpd");
    NotBothSuffixes(u, ".mov", ".mpd");
    NotBothSuffixes(u, ".wmv", ".mpd");
    NotBothSuffixes(u, ".flv", ".mpd");
    NotBothSuffixes(u, ".mp3", ".mpd");
    NotBothSuffixes(u, ".wav", ".mpd");
    NotBothSuffixes(u, ".flac", ".mpd");
    NotBothSuffixes(u, ".aac", ".mpd");
    NotBothSuffixes(u, ".ogg", ".mpd");
    NotBothSuffixes(u, ".m4a", ".mpd");
    NotBothSuffixes(u, ".m3u8", ".mpd");
  }

  /** `.m4v` and `.wma` are accepted as media but have no row in the chain,
      so they only ever get one of the generic tags. */
  lemma M4vAndWmaGetGenericTag(url: string)
    requires EndsWith(Lower(url), ".m4v") || EndsWith(Lower(url), ".wma")
    ensures MediaTypeOf(url) in {"Video", "Audio", "Media File"}
  {
    var u := Lower(url);
    if EndsWith(u, ".m4v") {
      UntaggedSuffix(u, ".m4v");
    } else {
      UntaggedSuffix(u, ".wma");
    }
  }

  lemma UntaggedSuffix(u: string, f: string)
    requires f == ".m4v" || f == ".wma"
    requires EndsWith(u, f)
    ensures TagOf(u) in {"Video", "Audio", "Media File"}
  {
    NotBothSuffixes(u, ".mp4", f);
    NotBothSuffixes(u, ".webm", f);
    NotBothSuffixes(u, ".avi", f);
    NotBothSuffixes(u, ".mkv", f);
    NotBothSuffixes(u, ".mov", f);
    NotBothSuffixes(u, ".wmv", f);
    NotBothSuffixes(u, ".flv", f);
    NotBothSuffixes(u, ".mp3", f);
    NotBothSuffixes(u, ".wav", f);
    NotBothSuffixes(u, ".flac", f);
    NotBothSuffixes(u, ".aac", f);
    NotBothSuffixes(u, ".ogg", f);
    NotBothSuffixes(u, ".m4a", f);
    NotBothSuffixes(u, ".m3u8", f);
    NotBothSuffixes(u, ".mpd", f);
  }

  // ---------------------------------------------------------------------
  // Registry entries
  // ---------------------------------------------------------------------

  datatype Status = Detected | Downloading | Completed | Failed

  /** `size`: `null` until probed, a byte count, the `NaN` that `parseInt`
      gives for a non-numeric `content-length`, or the `'stream'` marker. */
  datatype Size = Unknown | Bytes(n: int) | NotANumber | Streaming

  datatype Media = Media(
    id: string,
    url: string,
    mediaType: string,
    source: string,
    tabId: Option<int>,
    detectedAt: int,
    status: Status,
    size: Size,
    error: Option<string>)

  /** Adaptive manifests, which the size probe marks as streaming. */
  predicate IsStreamUrl(url: string) {
    EndsWith(Lower(url), ".m3u8") || EndsWith(Lower(url), ".mpd")
  }

  /** The entry `addDetectedMedia` stores. `fetchFileSize` is started
      without `await`; for a manifest it reaches its `'stream'` assignment
      before its first `await`, so that write happens before
      `addDetectedMedia` returns. */
  function NewMedia(id: string, url: string, source: string, tabId: Option<int>, now: int): Media {
    Media(id, url, MediaTypeOf(url), source, tabId, now, Detected,
          if IsStreamUrl(url) then Streaming else Unknown, None)
  }

  predicate HasId(es: seq<Media>, id: string) {
    exists i | 0 <= i < |es| :: es[i].id == id
  }

  predicate HasUrl(es: seq<Media>, url: string) {
    exists i | 0 <= i < |es| :: es[i].url == url
  }

  predicate IdsDistinct(es: seq<Media>) {
    forall i, j | 0 <= i < j < |es| :: es[i].id != es[j].id
  }

  predicate UrlsDistinct(es: seq<Media>) {
    forall i, j | 0 <= i < j < |es| :: es[i].url != es[j].url
  }

  predicate AllAdmissible(es: seq<Media>) {
    forall m | m in es :: IsAdmissible(m.url)
  }

  /** `detectedMedia.get(id)` as a position: the entry's index, or -1. */
  function PositionOf(es: seq<Media>, id: string): (k: int)
    ensures -1 <= k < |es|
    ensures k >= 0 ==> es[k].id == id
    ensures k == -1 <==> !HasId(es, id)
  {
    if es == [] then -1
    else if es[|es| - 1].id == id then |es| - 1
    else
      var k := PositionOf(es[..|es| - 1], id);
      assert forall i | 0 <= i < |es| - 1 :: es[i] == es[..|es| - 1][i];
      k
  }

  /** The entries other than those of tab `tabId`, in their original order. */
  function OtherTabs(es: seq<Media>, tabId: Option<int>): (r: seq<Media>)
    ensures |r| <= |es|
    ensures forall m | m in r :: m in es && m.tabId != tabId
  {
    if es == [] then []
    else
      var rest := OtherTabs(es[..|es| - 1], tabId);
      if es[|es| - 1].tabId != tabId then rest + [es[|es| - 1]] else rest
  }

  /** How many entries belong to tab `tabId`. */
  function CountTab(es: seq<Media>, tabId: Option<int>): nat {
    if es == [] then 0
    else CountTab(es[..|es| - 1], tabId) + (if es[|es| - 1].tabId == tabId then 1 else 0)
  }

  /** `clearTabStreams` keeps exactly the entries of other tabs, in order, and
      the number it removes is the number of entries of that tab. */
  lemma {:induction false} OtherTabsExact(es: seq<Media>, tabId: Option<int>)
    ensures forall m | m in es && m.tabId != tabId :: m in OtherTabs(es, tabId)
    ensures |es| - |OtherTabs(es, tabId)| == CountTab(es, tabId)
  {
    if es != [] {
      var init := es[..|es| - 1];
      OtherTabsExact(init, tabId);
      assert es == init + [es[|es| - 1]];
    }
  }

  lemma {:induction false} OtherTabsDistinct(es: seq<Media>, tabId: Option<int>)
    requires IdsDistinct(es) && UrlsDistinct(es)
    ensures IdsDistinct(OtherTabs(es, tabId)) && UrlsDistinct(OtherTabs(es, tabId))
  {
    if es != [] {
      var init := es[..|es| - 1];
      var x := es[|es| - 1];
      OtherTabsDistinct(init, tabId);
      var rest := OtherTabs(init, tabId);
      if x.tabId != tabId {
        forall m | m in rest ensures m.id != x.id && m.url != x.url {
          var i :| 0 <= i < |init| && init[i] == m;
          assert es[i] == m;
        }
        AppendDistinct(rest, x);
      }
    }
  }

  lemma AppendDistinct(rest: seq<Media>, x: Media)
    requires IdsDistinct(rest) && UrlsDistinct(rest)
    requires forall m | m in rest :: m.id != x.id && m.url != x.url
    ensures IdsDistinct(rest + [x]) && UrlsDistinct(rest + [x])
  {
    var r := rest + [x];
    forall i, j | 0 <= i < j < |r| ensures r[i].id != r[j].id && r[i].url != r[j].url {
      if j < |rest| {
        assert r[i] == rest[i] && r[j] == rest[j];
      } else {
        assert r[i] in rest;
      }
    }
  }

  /** The registry's invariant: ids and URLs are unique keys and every
      stored URL passed the admission filter. */
  predicate Invariant(es: seq<Media>) {
    IdsDistinct(es) && UrlsDistinct(es) && AllAdmissible(es)
  }

  /** Appending an admissible entry with a new id and a new URL keeps the
      invariant. */
  lemma AppendKeepsInvariant(es: seq<Media>, x: Media)
    requires Invariant(es) && IsAdmissible(x.url)
    requires !HasId(es, x.id) && !HasUrl(es, x.url)
    ensures Invariant(es + [x])
  {
    forall m | m in es ensures m.id != x.id && m.url != x.url {
      var i :| 0 <= i < |es| && es[i] == m;
    }
    AppendDistinct(es, x);
  }

  /** Every entry kept by `OtherTabs` was stored before, so it is still
      admissible. */
  lemma OtherTabsAdmissible(es: seq<Media>, tabId: Option<int>)
    requires AllAdmissible(es)
    ensures AllAdmissible(OtherTabs(es, tabId))
  {
    var r := OtherTabs(es, tabId);
    forall m | m in r ensures IsAdmissible(m.url) {
      assert m in es;
    }
  }

  /** The deletion loop of `clearTabStreams`, run over the entries in
      insertion order: what survives and how many were deleted. */
  method PartitionByTab(es: seq<Media>, tabId: Option<int>) returns (kept: seq<Media>, removed: nat)
    ensures kept == OtherTabs(es, tabId)
    ensures removed == CountTab(es, tabId)
    ensures |kept| + removed == |es|
  {
    kept := [];
    removed := 0;
    var i := 0;
    while i < |es|
      invariant 0 <= i <= |es|
      invariant kept == OtherTabs(es[..i], tabId)
      invariant removed == CountTab(es[..i], tabId)
    {
      PartitionStep(es, i, tabId);
      if es[i].tabId == tabId {
        removed := removed + 1;
      } else {
        kept := kept + [es[i]];
      }
      i := i + 1;
    }
    assert es[..i] == es;
    OtherTabsExact(es, tabId);
  }

  /** One entry more: it is kept when it belongs to another tab, counted
      otherwise. */
  lemma PartitionStep(es: seq<Media>, i: int, tabId: Option<int>)
    requires 0 <= i < |es|
    ensures OtherTabs(es[..i + 1], tabId) == OtherTabs(es[..i], tabId) + (if es[i].tabId != tabId then [es[i]] else [])
    ensures CountTab(es[..i + 1], tabId) == CountTab(es[..i], tabId) + (if es[i].tabId == tabId then 1 else 0)
  {
    assert es[..i + 1][..i] == es[..i];
  }

  lemma OtherTabsKeepsInvariant(es: seq<Media>, tabId: Option<int>)
    requires Invariant(es)
    ensures Invariant(OtherTabs(es, tabId))
  {
    OtherTabsDistinct(es, tabId);
    OtherTabsAdmissible(es, tabId);
  }

  /** Replacing one entry by one with the same id and url keeps the
      registry's invariants. */
  lemma ReplaceKeepsInvariants(es: seq<Media>, k: int, m: Media)
    requires 0 <= k < |es| && m.id == es[k].id && m.url == es[k].url
    requires Invariant(es)
    ensures Invariant(es[k := m])
  {
  }

  // ---------------------------------------------------------------------
  // Size probe (`fetchFileSize`) and `formatFileSize`
  // ---------------------------------------------------------------------

  /** The `content-length` header of a response: absent or empty (both
      falsy), or present, with what `parseInt(…, 10)` reads from it (`None`
      for `NaN`). */
  datatype LengthHeader = NoLength | LengthText(parsed: Option<int>)

  /** Outcome of one probing request: it threw, or it answered. */
  datatype Probe = ProbeThrew | ProbeAnswered(contentLength: LengthHeader)

  /** The size written for a present header: the number, or `NaN`. */
  function ParsedSize(parsed: Option<int>): Size {
    if parsed.Some? then Bytes(parsed.value) else NotANumber
  }

  /** The size `fetchFileSize` writes when the entry still exists: the
      streaming marker for a manifest, else whatever the HEAD header holds
      (even `NaN`, after which GET is not tried), else the GET header;
      `None` when neither request produced a header. */
  function ProbedSize(url: string, head: Probe, get: Probe): (s: Option<Size>)
    ensures s == Some(Streaming) <==> IsStreamUrl(url)
    ensures s.None? <==> !IsStreamUrl(url)
                         && !(head.ProbeAnswered? && head.contentLength.LengthText?)
                         && !(get.ProbeAnswered? && get.contentLength.LengthText?)
    ensures !IsStreamUrl(url) && head.ProbeAnswered? && head.contentLength.LengthText? ==>
              s == Some(ParsedSize(head.contentLength.parsed))
    ensures !IsStreamUrl(url) && !(head.ProbeAnswered? && head.contentLength.LengthText?)
            && get.ProbeAnswered? && get.contentLength.LengthText? ==>
              s == Some(ParsedSize(get.contentLength.parsed))
  {
    if IsStreamUrl(url) then Some(Streaming)
    else if head.ProbeAnswered? && head.contentLength.LengthText? then Some(ParsedSize(head.contentLength.parsed))
    else if get.ProbeAnswered? && get.contentLength.LengthText? then Some(ParsedSize(get.contentLength.parsed))
    else None
  }

  const Units: seq<string> := ["B", "KB", "MB", "GB", "TB"]

  function Pow1024(k: nat): (p: nat)
    ensures p >= 1
  {
    if k == 0 then 1 else 1024 * Pow1024(k - 1)
  }

  /** One pass of the loop: dividing by 1024 while moving to the next unit
      keeps `size * unit == bytes`, and a size of at least 1024 means the
      byte count reaches the next unit. */
  lemma ScaleStep(size: real, unit: nat, next: real, nextUnit: nat, bytes: int)
    requires unit >= 1 && size * (unit as real) == bytes as real && size >= 1024.0
    requires next == size / 1024.0 && nextUnit == 1024 * unit
    ensures next * (nextUnit as real) == bytes as real
    ensures bytes >= nextUnit
  {
    assert (1024 * unit) as real == 1024.0 * (unit as real);
    assert size * (unit as real) >= 1024.0 * (unit as real);
  }

  /** Leaving the loop early: a size below 1024 means the byte count is
      below the next unit. */
  lemma ScaleStop(size: real, unit: nat, bytes: int)
    requires unit >= 1 && size * (unit as real) == bytes as real && size < 1024.0
    ensures bytes < 1024 * unit
  {
    assert (1024 * unit) as real == 1024.0 * (unit as real);
    PositiveProduct(1024.0 - size, unit as real);
    assert (1024.0 - size) * (unit as real) == 1024.0 * (unit as real) - size * (unit as real);
  }

  lemma PositiveProduct(a: real, b: real)
    requires a > 0.0 && b > 0.0
    ensures a * b > 0.0
  {
  }

  /** `amount` of unit `k` is `bytes`, and `k` is the largest unit up to
      `TB` that `bytes` reaches. */
  predicate ScaledTo(bytes: int, k: nat, amount: real) {
    && k < |Units|
    && amount * (Pow1024(k) as real) == bytes as real
    && (k > 0 ==> bytes >= Pow1024(k))
    && (k < |Units| - 1 ==> bytes < Pow1024(k + 1))
  }

  /** The loop of `formatFileSize`: the unit is the largest one not past
      `TB` whose size is at most the byte count, and the scaled amount times
      that unit is the byte count. */
  method UnitIndex(bytes: int) returns (unitIndex: nat, scaled: real)
    ensures ScaledTo(bytes, unitIndex, scaled)
  {
    var size: real := bytes as real;
    unitIndex := 0;
    ghost var unit: nat := 1;
    while size >= 1024.0 && unitIndex < |Units| - 1
      invariant unitIndex < |Units| && unit == Pow1024(unitIndex)
      invariant size * (unit as real) == bytes as real
      invariant unitIndex > 0 ==> bytes >= unit
    {
      ghost var before, beforeUnit := size, unit;
      size := size / 1024.0;
      unitIndex := unitIndex + 1;
      unit := 1024 * unit;
      ScaleStep(before, beforeUnit, size, unit, bytes);
    }
    if unitIndex < |Units| - 1 {
      ScaleStop(size, unit, bytes);
    }
    scaled := size;
  }

  /** What `formatFileSize` shows; the decimal text of `toFixed(1)` is not
      modelled. */
  datatype SizeText = UnknownSize | StreamingSize | Scaled(amount: real, unit: string)

  /** `formatFileSize`: `!bytes` holds for `null`, `0` and `NaN`; any other
      count is shown in the largest unit (up to `TB`) it reaches, scaled to
      that unit. */
  method FormatFileSize(size: Size) returns (t: SizeText)
    ensures (size.Unknown? || size.NotANumber? || size == Bytes(0)) <==> t == UnknownSize
    ensures size.Streaming? <==> t == StreamingSize
    ensures t.Scaled? ==> size.Bytes? && exists k | 0 <= k < |Units| ::
              t.unit == Units[k] && ScaledTo(size.n, k, t.amount)
    ensures t.Scaled? && t.unit != "B" ==> size.n >= 1024
    ensures t.Scaled? && t.unit != "TB" ==> size.n < Pow1024(4)
  {
    match size {
      case Unknown => t := UnknownSize;
      case NotANumber => t := UnknownSize;
      case Streaming => t := StreamingSize;
      case Bytes(n) =>
        if n == 0 {
          t := UnknownSize;
        } else {
          var k, amount := UnitIndex(n);
          if k > 0 {
            assert Pow1024(k) >= Pow1024(1);
          }
          if k < 4 {
            assert Pow1024(k + 1) <= Pow1024(4) by { PowMonotone(k + 1, 4); }
          }
          t := Scaled(amount, Units[k]);
          assert t.unit == Units[k] && ScaledTo(n, k, t.amount);
        }
    }
  }

  lemma {:induction false} PowMonotone(i: nat, j: nat)
    requires i <= j
    ensures Pow1024(i) <= Pow1024(j)
  {
    if i < j {
      PowMonotone(i, j - 1);
    }
  }

  // ---------------------------------------------------------------------
  // Download (`downloadMedia`) and its completion listener
  // ---------------------------------------------------------------------

  /** The content-type relabelling: video beats audio beats DASH beats HLS;
      the matches are case-sensitive substring tests. */
  function RelabelType(contentType: Option<string>, current: string): (t: string)
    ensures t in {current, "Video", "Audio", "DASH Stream (MPD)", "HLS Stream (M3U8)"}
    ensures contentType.None? || contentType.value == "" ==> t == current
    ensures contentType.Some? && Contains(contentType.value, "video") ==> t == "Video"
    ensures contentType.Some? && (Contains(contentType.value, "audio")
                                  || Contains(contentType.value, "application/dash+xml")
                                  || Contains(contentType.value, "application/vnd.apple.mpegurl")) ==>
              t in {"Video", "Audio", "DASH Stream (MPD)", "HLS Stream (M3U8)"}
    ensures t != current ==> contentType.Some?
    ensures contentType.Some? && !Contains(contentType.value, "video") && Contains(contentType.value, "audio") ==>
              t == "Audio"
    ensures contentType.Some? && !Contains(contentType.value, "video") && !Contains(contentType.value, "audio")
            && Contains(contentType.value, "application/dash+xml") ==>
              t == "DASH Stream (MPD)"
    ensures contentType.Some? && !Contains(contentType.value, "video") && !Contains(contentType.value, "audio")
            && !Contains(contentType.value, "application/dash+xml")
            && Contains(contentType.value, "application/vnd.apple.mpegurl") ==>
              t == "HLS Stream (M3U8)"
    ensures contentType.Some? && !Contains(contentType.value, "video") && !Contains(contentType.value, "audio")
            && !Contains(contentType.value, "application/dash+xml")
            && !Contains(contentType.value, "application/vnd.apple.mpegurl") ==>
              t == current
  {
    match contentType
    case None => current
    case Some(ct) =>
      if ct == "" then current
      else if Contains(ct, "video") then "Video"
      else if Contains(ct, "audio") then "Audio"
      else if Contains(ct, "application/dash+xml") then "DASH Stream (MPD)"
      else if Contains(ct, "application/vnd.apple.mpegurl") then "HLS Stream (M3U8)"
      else current
  }

  /** The only `v` of `application/vnd.apple.mpegURL` is followed by `n`. */
  lemma VideoNotInVndType()
    ensures !Contains("application/vnd.apple.mpegURL", "video")
  {
    var head := "application/";
    var tail := "nd.apple.mpegURL";
    var a := head + "v" + tail;
    assert a == "application/vnd.apple.mpegURL";
    forall k | 0 <= k <= |a| - 5 ensures !OccursAt(a, "video", k) {
      assert a[k..k + 5][0] == a[k] && a[k..k + 5][1] == a[k + 1];
      if k < 12 {
        assert a[k] == head[k];
        assert 'v' !in head;
      } else if k > 12 {
        assert a[k] == tail[k - 13];
        assert 'v' !in tail;
      } else {
        assert a[k + 1] == 'n';
      }
    }
  }

  /** The two usual spellings of the HLS content type with capitals are not
      recognised, so such responses keep their URL-derived tag. */
  lemma MixedCaseHlsTypeKeepsTag(current: string)
    ensures RelabelType(Some("application/vnd.apple.mpegURL"), current) == current
    ensures RelabelType(Some("application/x-mpegURL"), current) == current
  {
    VndTypeNotRelabelled();
    XTypeNotRelabelled();
  }

  lemma VndTypeNotRelabelled()
    ensures var a := "application/vnd.apple.mpegURL";
      !Contains(a, "video") && !Contains(a, "audio") && !Contains(a, "application/dash+xml")
      && !Contains(a, "application/vnd.apple.mpegurl")
  {
    VideoNotInVndType();
    VndTypeNotAudioOrHls();
    var a := "application/vnd.apple.mpegURL";
    assert !Contains(a, "application/dash+xml") by { MissingCharNotContains(a, "application/dash+xml", 16); }
  }

  lemma VndTypeNotAudioOrHls()
    ensures var a := "application/vnd.apple.mpegURL";
      !Contains(a, "audio") && !Contains(a, "application/vnd.apple.mpegurl")
  {
    var a := "application/vnd.apple.mpegURL";
    assert !Contains(a, "audio") by { MissingCharNotContains(a, "audio", 1); }
    assert !Contains(a, "application/vnd.apple.mpegurl") by { MissingCharNotContains(a, "application/vnd.apple.mpegurl", 26); }
  }

  lemma XTypeNotRelabelled()
    ensures var b := "application/x-mpegURL";
      !Contains(b, "video") && !Contains(b, "audio") && !Contains(b, "application/dash+xml")
      && !Contains(b, "application/vnd.apple.mpegurl")
  {
    XTypeNotVideoOrAudio();
    var b := "application/x-mpegURL";
    assert !Contains(b, "application/dash+xml") by { MissingCharNotContains(b, "application/dash+xml", 16); }
    assert !Contains(b, "application/vnd.apple.mpegurl") by { MissingCharNotContains(b, "application/vnd.apple.mpegurl", 12); }
  }

  lemma XTypeNotVideoOrAudio()
    ensures var b := "application/x-mpegURL";
      !Contains(b, "video") && !Contains(b, "audio")
  {
    var b := "application/x-mpegURL";
    assert !Contains(b, "video") by { MissingCharNotContains(b, "video", 0); }
    assert !Contains(b, "audio") by { MissingCharNotContains(b, "audio", 2); }
  }

  /** `HEAD` validation result. */
  datatype HeadOutcome =
    | HeadThrew(message: string)
    | HeadAnswered(ok: bool, status: nat, contentType: Option<string>)

  /** The `GET` + `blob()` + `downloads.download` block: something threw, the
      response was not OK, or the download sink accepted with an id. */
  datatype Transfer =
    | TransferThrew(message: string)
    | TransferNotOk(status: nat)
    | TransferStarted(downloadId: int)

  datatype DownloadStarted = DownloadStarted(downloadId: int, filename: string)

  function HttpErrorMessage(status: nat): string {
    "HTTP error! status: " + NatToString(status)
  }

  /** The entry after `downloadMedia` has run to its end. */
  function AfterDownload(m: Media, head: HeadOutcome, transfer: Transfer): Media {
    var started := m.(status := Downloading);
    match head
    case HeadThrew(msg) => started.(status := Failed, error := Some(msg))
    case HeadAnswered(ok, code, ct) =>
      if !ok then started.(status := Failed, error := Some(HttpErrorMessage(code)))
      else
        var relabelled := started.(mediaType := RelabelType(ct, m.mediaType));
        match transfer
        case TransferThrew(msg) => relabelled.(status := Failed, error := Some(msg))
        case TransferNotOk(code2) => relabelled.(status := Failed, error := Some(HttpErrorMessage(code2)))
        case TransferStarted(_) => relabelled
  }

  /** What the promise of `downloadMedia` settles to. */
  function DownloadReply(head: HeadOutcome, transfer: Transfer, filename: string): Result<DownloadStarted> {
    match head
    case HeadThrew(msg) => Err(msg)
    case HeadAnswered(ok, code, _) =>
      if !ok then Err(HttpErrorMessage(code))
      else
        match transfer
        case TransferThrew(msg) => Err(msg)
        case TransferNotOk(code2) => Err(HttpErrorMessage(code2))
        case TransferStarted(id) => Ok(DownloadStarted(id, filename))
  }

  /** After a download attempt the entry is either still downloading (the
      sink accepted it and the promise resolved) or failed with exactly the
      message the promise rejected with; the `'URL validation failed: '`
      prefix written on the way never survives. Only id, url, source, tab,
      time and size are untouched, and the type changes only after a
      successful validation request. */
  lemma DownloadOutcome(m: Media, head: HeadOutcome, transfer: Transfer, filename: string)
    ensures var a := AfterDownload(m, head, transfer);
      var reply := DownloadReply(head, transfer, filename);
      && (a.status == Downloading <==> reply.Ok?)
      && (a.status == Failed <==> reply.Err?)
      && (reply.Err? ==> a.error == Some(reply.message))
      && (reply.Ok? ==> a.error == m.error && reply.value.filename == filename)
      && a.id == m.id && a.url == m.url && a.size == m.size && a.tabId == m.tabId
      && (a.mediaType != m.mediaType ==> head.HeadAnswered? && head.ok)
  {
  }

  /** The body of `downloadMedia` after the entry is marked downloading:
      the validation request, then the download itself, each failure
      recorded on the entry and then overwritten by the outer handler with
      the raw message it rethrows. */
  method SettleDownload(entry: Media, head: HeadOutcome, transfer: Transfer, filename: string)
    returns (m: Media, reply: Result<DownloadStarted>)
    ensures m == AfterDownload(entry, head, transfer)
    ensures m.id == entry.id && m.url == entry.url
    ensures reply == DownloadReply(head, transfer, filename)
  {
    m := entry.(status := Downloading);
    var failure: Option<string> := None;
    match head {
      case HeadThrew(msg) =>
        m := m.(status := Failed, error := Some("URL validation failed: " + msg));
        failure := Some(msg);
      case HeadAnswered(ok, code, ct) =>
        if !ok {
          m := m.(status := Failed, error := Some("URL validation failed: " + HttpErrorMessage(code)));
          failure := Some(HttpErrorMessage(code));
        } else {
          m := m.(mediaType := RelabelType(ct, m.mediaType));
        }
    }
    if failure.None? {
      match transfer {
        case TransferThrew(msg) =>
          m := m.(status := Failed, error := Some(msg));
          failure := Some(msg);
        case TransferNotOk(code) =>
          m := m.(status := Failed, error := Some(HttpErrorMessage(code)));
          failure := Some(HttpErrorMessage(code));
        case TransferStarted(id) =>
      }
    }
    if failure.Some? {
      // the outer handler overwrites the error with the raw message
      m := m.(status := Failed, error := failure);
      reply := Err(failure.value);
    } else {
      reply := Ok(DownloadStarted(transfer.downloadId, filename));
    }
  }

  /** The listener's view of a `downloads.onChanged` event. */
  datatype DownloadDelta = DownloadDelta(id: int, state: Option<string>, error: Option<string>)

  // ---------------------------------------------------------------------
  // Filename deriver (`generateFilename`)
  // ---------------------------------------------------------------------

  /** The character class `[<>:"/\\|?*]` of the sanitising replacement. */
  predicate IllegalChar(c: char) {
    c == '<' || c == '>' || c == ':' || c == '"' || c == '/' || c == '\\' || c == '|' || c == '?' || c == '*'
  }

  predicate SafeName(name: string) {
    forall i | 0 <= i < |name| :: !IllegalChar(name[i])
  }

  /** The characters of the extensions the deriver appends. */
  predicate ExtensionChar(c: char) {
    c == '.' || 'a' <= c <= 'z' || '0' <= c <= '9'
  }

  /** The extensions the deriver tries, in the order of its `if` chain. */
  const InferOrder: seq<string> :=
    [".mp4", ".webm", ".avi", ".mkv", ".mov", ".flv", ".mp3", ".wav",
     ".flac", ".aac", ".ogg", ".m4a", ".m3u8", ".mpd", ".ts"]

  /** Every extension of the chain is a dot and at least two safe letters
      or digits. */
  lemma InferOrderShape(k: int)
    requires 0 <= k < |InferOrder|
    ensures |InferOrder[k]| >= 3 && InferOrder[k][0] == '.'
    ensures forall i | 0 <= i < |InferOrder[k]| :: ExtensionChar(InferOrder[k][i])
  {
  }

  /** The position of the first of `exts` that `u` contains, `|exts|` when
      it contains none. */
  function FirstContained(u: string, exts: seq<string>): (k: nat)
    ensures k <= |exts|
    ensures k < |exts| ==> Contains(u, exts[k])
    ensures forall j | 0 <= j < k :: !Contains(u, exts[j])
  {
    if exts == [] || Contains(u, exts[0]) then 0
    else 1 + FirstContained(u, exts[1..])
  }

  /** `ext` is the first extension of the chain that `u` contains, or
      `.mp4` when `u` contains none of them. */
  predicate FirstInOrder(u: string, ext: string) {
    || (exists k | 0 <= k < |InferOrder| ::
          && ext == InferOrder[k]
          && Contains(u, ext)
          && forall j | 0 <= j < k :: !Contains(u, InferOrder[j]))
    || (ext == ".mp4" && forall j | 0 <= j < |InferOrder| :: !Contains(u, InferOrder[j]))
  }

  /** The extension appended to a dotless name: the first extension of the
      chain that the lower-cased URL contains anywhere, else `.mp4`. */
  function InferExtension(url: string): (ext: string)
    ensures |ext| >= 3 && ext[0] == '.'
    ensures forall i | 0 <= i < |ext| :: ExtensionChar(ext[i])
    ensures FirstInOrder(Lower(url), ext)
  {
    var k := FirstContained(Lower(url), InferOrder);
    if k < |InferOrder| then
      InferOrderShape(k);
      InferOrder[k]
    else ".mp4"
  }

  /** The sanitised last path segment, cut at the first `?`. */
  function PathFilename(pathname: string): (name: string)
    ensures SafeName(name)
  {
    ReplaceChars(Split(Last(Split(pathname, '/')), '?')[0], IllegalChar, '_')
  }

  /** The last segment of a path is kept verbatim when it is free of the
      characters that are illegal in file names. */
  lemma PathFilenameOfSegment(dir: string, name: string)
    requires SafeName(name)
    ensures PathFilename(dir + "/" + name) == name
  {
    var path := dir + "/" + name;
    assert '/' !in name by {
      assert forall i | 0 <= i < |name| :: name[i] != '/';
    }
    assert '?' !in name by {
      assert forall i | 0 <= i < |name| :: name[i] != '?';
    }
    var k := LastIndexOf(path, '/');
    assert path[|dir|] == '/';
    assert k == |dir| by {
      assert forall j | |dir| < j < |path| :: path[j] == name[j - |dir| - 1];
    }
    LastSplit(path, '/');
    assert path[k + 1..] == name;
    SplitNoSeparator(name, '?');
    assert ReplaceChars(name, IllegalChar, '_') == name;
  }

  /** `'media_'` followed by the decimal timestamp. */
  function TimestampName(now: nat): (name: string)
    ensures '.' !in name && SafeName(name) && |name| >= 7
  {
    var digits := NatToString(now);
    assert forall i | 0 <= i < |digits| :: IsDigit(digits[i]);
    "media_" + digits
  }

  /** `generateFilename`. `parsed` is the parse of `url` (`None` when `new
      URL` throws) and `now` stands for `Date.now()`. The name never holds a
      character that is illegal in file names, always holds a dot and is at
      least three characters long. */
  function GenerateFilename(url: string, parsed: Option<UrlParts>, now: nat): (name: string)
    ensures SafeName(name) && '.' in name && |name| >= 3
  {
    match parsed
    case None => TimestampName(now) + ".mp4"
    case Some(p) =>
      var base := PathFilename(p.pathname);
      var named := if |base| < 3 then TimestampName(now) else base;
      if '.' in named then named
      else
        var ext := InferExtension(url);
        assert (named + ext)[|named|] == '.';
        assert forall i | 0 <= i < |ext| :: !IllegalChar(ext[i]);
        named + ext
  }

  /** The three ways the deriver can end: a parse failure, a too-short name
      (replaced by a timestamp and completed with the inferred extension)
      and a long enough name (kept, completed when it has no dot). */
  lemma GenerateFilenameCases(url: string, parsed: Option<UrlParts>, now: nat)
    ensures parsed.None? ==> GenerateFilename(url, parsed, now) == "media_" + NatToString(now) + ".mp4"
    ensures parsed.Some? && |PathFilename(parsed.value.pathname)| < 3 ==>
      GenerateFilename(url, parsed, now) == "media_" + NatToString(now) + InferExtension(url)
    ensures parsed.Some? && |PathFilename(parsed.value.pathname)| >= 3 ==>
      var base := PathFilename(parsed.value.pathname);
      GenerateFilename(url, parsed, now) == if '.' in base then base else base + InferExtension(url)
  {
  }

  // ---------------------------------------------------------------------
  // The registry
  // ---------------------------------------------------------------------

  /** The background script's `detectedMedia` map (entries in insertion
      order) together with the `downloads.onChanged` listeners that
      `downloadMedia` registers, keyed by download id. */
  class MediaRegistry {
    var entries: seq<Media>
    var listeners: map<int, string>

    ghost predicate Valid()
      reads this
    {
      Invariant(entries)
    }

    constructor ()
      ensures Valid() && entries == [] && listeners == map[]
    {
      entries := [];
      listeners := map[];
    }

    /** `addDetectedMedia(url, source, tabId)`. `url` is `None` for a value
        that is not a string; `freshId` and `now` stand for the generated id
        and `new Date()`. */
    method AddDetectedMedia(url: Option<string>, source: string, tabId: Option<int>, freshId: string, now: int)
      returns (added: bool)
      requires Valid()
      requires !HasId(entries, freshId)
      modifies this
      ensures Valid()
      ensures added <==> url.Some? && IsAdmissible(url.value) && !HasUrl(old(entries), url.value)
      ensures added ==> entries == old(entries) + [NewMedia(freshId, url.value, source, tabId, now)]
      ensures !added ==> entries == old(entries)
      ensures listeners == old(listeners)
    {
      if url.None? || url.value == "" {
        return false;
      }
      var u := url.value;
      var lower := Lower(u);
      if ContainsAny(lower, RegistrySkipPatterns) {
        return false;
      }
      if !IsActualMediaUrl(u) {
        return false;
      }
      var es := entries;
      var i := 0;
      while i < |es|
        invariant 0 <= i <= |es|
        invariant forall j | 0 <= j < i :: es[j].url != u
      {
        if es[i].url == u {
          return false;
        }
        i := i + 1;
      }
      var media := Media(freshId, u, MediaTypeOf(u), source, tabId, now, Detected, Unknown, None);
      AppendKeepsInvariant(es, media);
      entries := es + [media];
      FetchFileSizeStart(u, freshId);
      added := true;
    }

    /** The part of `fetchFileSize` that runs before its first `await`: a
        manifest entry that still exists gets the streaming marker. */
    method FetchFileSizeStart(url: string, mediaId: string)
      requires Valid()
      modifies this
      ensures Valid()
      ensures var k := PositionOf(old(entries), mediaId);
        entries == if k >= 0 && IsStreamUrl(url) then old(entries)[k := old(entries)[k].(size := Streaming)]
                   else old(entries)
      ensures listeners == old(listeners)
    {
      if IsStreamUrl(url) {
        var k := PositionOf(entries, mediaId);
        if k >= 0 {
          ReplaceKeepsInvariants(entries, k, entries[k].(size := Streaming));
          entries := entries[k := entries[k].(size := Streaming)];
        }
      }
    }

    /** `fetchFileSize(url, mediaId)` run to its end with the outcomes of its
        HEAD and GET requests. A size is written only to an entry that still
        exists, and a failed probe leaves the size as it was. */
    method FetchFileSize(url: string, mediaId: string, head: Probe, get: Probe)
      requires Valid()
      modifies this
      ensures Valid()
      ensures var k := PositionOf(old(entries), mediaId);
        var s := ProbedSize(url, head, get);
        entries == if k >= 0 && s.Some? then old(entries)[k := old(entries)[k].(size := s.value)]
                   else old(entries)
      ensures listeners == old(listeners)
    {
      if IsStreamUrl(url) {
        FetchFileSizeStart(url, mediaId);
        return;
      }
      if head.ProbeAnswered? && head.contentLength.LengthText? {
        var k := PositionOf(entries, mediaId);
        if k >= 0 {
          ReplaceKeepsInvariants(entries, k, entries[k].(size := ParsedSize(head.contentLength.parsed)));
          entries := entries[k := entries[k].(size := ParsedSize(head.contentLength.parsed))];
          return;
        }
      }
      if get.ProbeAnswered? && get.contentLength.LengthText? {
        var k := PositionOf(entries, mediaId);
        if k >= 0 {
          ReplaceKeepsInvariants(entries, k, entries[k].(size := ParsedSize(get.contentLength.parsed)));
          entries := entries[k := entries[k].(size := ParsedSize(get.contentLength.parsed))];
        }
      }
    }

    /** `clearTabStreams(tabId)`: removes exactly the entries of that tab and
        returns how many there were. */
    method ClearTabStreams(tabId: Option<int>) returns (removed: nat)
      requires Valid()
      modifies this
      ensures Valid()
      ensures entries == OtherTabs(old(entries), tabId)
      ensures removed == CountTab(old(entries), tabId)
      ensures listeners == old(listeners)
    {
      var es := entries;
      var kept;
      kept, removed := PartitionByTab(es, tabId);
      OtherTabsKeepsInvariant(es, tabId);
      entries := kept;
    }

    /** The `CLEAR_STREAMS` message: empties the map and reports its former
        size. */
    method ClearStreams() returns (cleared: nat)
      requires Valid()
      modifies this
      ensures Valid()
      ensures entries == [] && cleared == |old(entries)|
      ensures listeners == old(listeners)
    {
      cleared := |entries|;
      entries := [];
    }

    /** `downloadMedia(streamId, options)`. `filenameOption` is
        `options.filename`; `parsed` is the parse of the entry's URL; `now`
        stands for `Date.now()`; `head` and `transfer` are the outcomes of the
        validation request and of the transfer block. */
    method DownloadMedia(mediaId: string, filenameOption: Option<string>, parsed: Option<UrlParts>,
                         now: nat, head: HeadOutcome, transfer: Transfer)
      returns (reply: Result<DownloadStarted>)
      requires Valid()
      modifies this
      ensures Valid()
      ensures !HasId(old(entries), mediaId) ==>
        reply == Err("Media not found") && entries == old(entries) && listeners == old(listeners)
      ensures HasId(old(entries), mediaId) ==>
        var k := PositionOf(old(entries), mediaId);
        var m := old(entries)[k];
        var filename := if filenameOption.Some? && filenameOption.value != "" then filenameOption.value
                        else GenerateFilename(m.url, parsed, now);
        && entries == old(entries)[k := AfterDownload(m, head, transfer)]
        && reply == DownloadReply(head, transfer, filename)
        && listeners == if reply.Ok? then old(listeners)[reply.value.downloadId := mediaId] else old(listeners)
    {
      var k := PositionOf(entries, mediaId);
      if k < 0 {
        return Err("Media not found");
      }
      var entry := entries[k];
      Replace(k, entry.(status := Downloading));
      var filename := if filenameOption.Some? && filenameOption.value != "" then filenameOption.value
                      else GenerateFilename(entry.url, parsed, now);
      var m;
      m, reply := SettleDownload(entry, head, transfer, filename);
      if reply.Ok? {
        listeners := listeners[reply.value.downloadId := mediaId];
      }
      Replace(k, m);
      assert entries == old(entries)[k := m];
    }

    /** Writes the entry at position `k` back, keeping its id and URL. */
    method Replace(k: int, m: Media)
      requires Valid()
      requires 0 <= k < |entries| && m.id == entries[k].id && m.url == entries[k].url
      modifies this
      ensures Valid()
      ensures entries == old(entries)[k := m] && listeners == old(listeners)
    {
      ReplaceKeepsInvariants(entries, k, m);
      entries := entries[k := m];
    }

    /** The `downloads.onChanged` listener registered by `downloadMedia`: a
        `complete` state marks the entry completed, an error marks it failed
        with the reported error, and either removes the listener. Events for
        other downloads, and other changes, leave everything as it was. */
    method OnDownloadChanged(delta: DownloadDelta)
      requires Valid()
      modifies this
      ensures Valid()
      ensures delta.id !in old(listeners) ==> entries == old(entries) && listeners == old(listeners)
      ensures delta.id in old(listeners) ==>
        var k := PositionOf(old(entries), old(listeners)[delta.id]);
        if delta.state == Some("complete") then
          && listeners == old(listeners) - {delta.id}
          && entries == (if k >= 0 then old(entries)[k := old(entries)[k].(status := Completed)] else old(entries))
        else if delta.error.Some? then
          && listeners == old(listeners) - {delta.id}
          && entries == (if k >= 0 then old(entries)[k := old(entries)[k].(status := Failed, error := delta.error)]
                         else old(entries))
        else entries == old(entries) && listeners == old(listeners)
    {
      if delta.id !in listeners {
        return;
      }
      var k := PositionOf(entries, listeners[delta.id]);
      if delta.state == Some("complete") {
        if k >= 0 {
          ReplaceKeepsInvariants(entries, k, entries[k].(status := Completed));
          entries := entries[k := entries[k].(status := Completed)];
        }
        listeners := listeners - {delta.id};
      } else if delta.error.Some? {
        if k >= 0 {
          ReplaceKeepsInvariants(entries, k, entries[k].(status := Failed, error := delta.error));
          entries := entries[k := entries[k].(status := Failed, error := delta.error)];
        }
        listeners := listeners - {delta.id};
      }
    }
  }

  /** Two `addDetectedMedia` calls with the same URL, from any sources and
      tabs: the first adds it exactly when it is admissible and new, and the
      second is refused and changes nothing, so the URL is stored once. */
  method SecondInsertRefused(r: MediaRegistry, url: string,
                             source1: string, tabId1: Option<int>, id1: string, now1: int,
                             source2: string, tabId2: Option<int>, id2: string, now2: int)
    returns (first: bool, second: bool)
    requires r.Valid() && !HasId(r.entries, id1) && !HasId(r.entries, id2) && id1 != id2
    modifies r
    ensures r.Valid()
    ensures first <==> IsAdmissible(url) && !HasUrl(old(r.entries), url)
    ensures !second
    ensures r.entries == if first then old(r.entries) + [NewMedia(id1, url, source1, tabId1, now1)]
                         else old(r.entries)
  {
    ghost var before := r.entries;
    first := r.AddDetectedMedia(Some(url), source1, tabId1, id1, now1);
    if first {
      assert r.entries[|before|] == NewMedia(id1, url, source1, tabId1, now1);
      assert HasUrl(r.entries, url);
      forall i | 0 <= i < |r.entries|
        ensures r.entries[i].id != id2
      {
        if i < |before| {
          assert r.entries[i] == before[i];
        }
      }
    }
    second := r.AddDetectedMedia(Some(url), source2, tabId2, id2, now2);
  }
}
