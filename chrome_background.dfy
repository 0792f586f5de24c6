/** The Chrome background script (`M3U8Downloader`): request listeners that
    spot HLS playlists, the registry of detected streams, the playlist
    parser, the batched segment downloader and the segment saver. */
module ChromeBackground {
  import opened Wrappers
  import opened Strings
  import opened Decimal
  import opened Url

  // ---------------------------------------------------------------------
  // Header lookup (`getHeader`)
  // ---------------------------------------------------------------------

  datatype Header = Header(name: string, value: string)

  predicate NameMatches(h: Header, name: string) {
    Lower(h.name) == Lower(name)
  }

  /** `k` is the position of the first header whose name matches. */
  predicate FirstMatch(headers: seq<Header>, name: string, k: int) {
    0 <= k < |headers| && NameMatches(headers[k], name)
    && forall j | 0 <= j < k :: !NameMatches(headers[j], name)
  }

  /** `headers.find(h => h.name.toLowerCase() === name.toLowerCase())`,
      then its value or `null`. */
  function GetHeader(headers: seq<Header>, name: string): (r: Option<string>)
    ensures r.None? <==> forall i | 0 <= i < |headers| :: !NameMatches(headers[i], name)
    ensures r.Some? ==> exists k | 0 <= k < |headers| :: FirstMatch(headers, name, k) && headers[k].value == r.value
  {
    if headers == [] then None
    else if NameMatches(headers[0], name) then
      assert FirstMatch(headers, name, 0);
      Some(headers[0].value)
    else
      var r := GetHeader(headers[1..], name);
      if r.Some? then
        var k :| 0 <= k < |headers| - 1 && FirstMatch(headers[1..], name, k) && headers[1..][k].value == r.value;
        assert FirstMatch(headers, name, k + 1);
        r
      else
        r
  }

  /** The lookup ignores the case of the name asked for. */
  lemma GetHeaderIgnoresCase(headers: seq<Header>, name: string)
    ensures GetHeader(headers, name) == GetHeader(headers, Lower(name))
  {
    LowerIdempotent(name);
    if headers != [] {
      GetHeaderIgnoresCase(headers[1..], name);
    }
  }

  // ---------------------------------------------------------------------
  // Request listeners
  // ---------------------------------------------------------------------

  /** The test in `onBeforeRequest`. */
  predicate BeforeRequestMatches(url: string) {
    Contains(url, ".m3u8") || Contains(url, "m3u8")
  }

  /** The first alternative is subsumed: the listener fires exactly for URLs
      containing `m3u8`. */
  lemma BeforeRequestIsM3u8Substring(url: string)
    ensures BeforeRequestMatches(url) <==> Contains(url, "m3u8")
  {
    if Contains(url, ".m3u8") {
      ContainsInner(url, ".m3u8", "m3u8", 1);
    }
  }

  /** The test in `onResponseStarted`: a non-empty `content-type` header is
      required, and then either a (case-sensitive) HLS type or a `.m3u8` in
      the URL. */
  predicate ResponseMatches(url: string, headers: seq<Header>) {
    var ct := GetHeader(headers, "content-type");
    ct.Some? && ct.value != ""
    && (Contains(ct.value, "application/x-mpegURL") || Contains(ct.value, "application/vnd.apple.mpegurl")
        || Contains(url, ".m3u8"))
  }

  /** Without a `content-type` header a response is never reported, even
      for a `.m3u8` URL. */
  lemma ResponseNeedsContentType(url: string, headers: seq<Header>)
    requires forall i | 0 <= i < |headers| :: Lower(headers[i].name) != "content-type"
    ensures !ResponseMatches(url, headers)
  {
    LowerOfLowerCase("content-type");
    assert forall i | 0 <= i < |headers| :: !NameMatches(headers[i], "content-type");
  }

  /** When the first `content-type` header is non-empty, a `.m3u8` URL is
      reported, whatever the later headers hold. */
  lemma ResponseM3u8UrlWithType(url: string, headers: seq<Header>, k: int)
    requires Contains(url, ".m3u8")
    requires FirstMatch(headers, "content-type", k) && headers[k].value != ""
    ensures ResponseMatches(url, headers)
  {
    var r := GetHeader(headers, "content-type");
    var j :| 0 <= j < |headers| && FirstMatch(headers, "content-type", j) && headers[j].value == r.value;
    assert j == k;
  }

  /** When the first `content-type` header carries an HLS type, the
      response is reported whatever its URL. */
  lemma ResponseHlsTypeAnyUrl(url: string, headers: seq<Header>, k: int)
    requires FirstMatch(headers, "content-type", k)
    requires Contains(headers[k].value, "application/x-mpegURL")
             || Contains(headers[k].value, "application/vnd.apple.mpegurl")
    ensures ResponseMatches(url, headers)
  {
    var r := GetHeader(headers, "content-type");
    var j :| 0 <= j < |headers| && FirstMatch(headers, "content-type", j) && headers[j].value == r.value;
    assert j == k;
  }

  /** The type tests are case-sensitive: the capitalised spelling
      `application/vnd.apple.mpegURL` matches neither, so such a response
      is reported only for a `.m3u8` URL. */
  lemma MixedCaseHlsTypeNeedsM3u8Url(url: string, headers: seq<Header>, k: int)
    requires FirstMatch(headers, "content-type", k)
    requires headers[k].value == "application/vnd.apple.mpegURL"
    requires !Contains(url, ".m3u8")
    ensures !ResponseMatches(url, headers)
  {
    var r := GetHeader(headers, "content-type");
    var j :| 0 <= j < |headers| && FirstMatch(headers, "content-type", j) && headers[j].value == r.value;
    assert j == k;
    CapitalisedHlsTypeUnmatched();
  }

  lemma CapitalisedHlsTypeUnmatched()
    ensures !Contains("application/vnd.apple.mpegURL", "application/x-mpegURL")
    ensures !Contains("application/vnd.apple.mpegURL", "application/vnd.apple.mpegurl")
  {
    MissingCharNotContains("application/vnd.apple.mpegURL", "application/x-mpegURL", 12);
    MissingCharNotContains("application/vnd.apple.mpegURL", "application/vnd.apple.mpegurl", 26);
  }

  // ---------------------------------------------------------------------
  // Playlist parser (`parseM3U8`)
  // ---------------------------------------------------------------------

  /** One entry of the playlist: its absolute URL and its position among the
      URI lines. */
  datatype Segment = Segment(url: string, index: nat)

  /** A trimmed line that names a media segment: neither blank nor a tag or
      comment (RFC 8216, section 4.1). */
  predicate IsUriLine(line: string) {
    line != "" && !StartsWith(line, "#")
  }

  /** `content.split('\n').map(line => line.trim())` */
  function Lines(content: string): seq<string> {
    var raw := Split(content, '\n');
    seq(|raw|, i requires 0 <= i < |raw| => Trim(raw[i]))
  }

  /** What `Lines` means for the playlist text: the text is a sequence of
      pieces without line feeds joined by line feeds, and each line is its
      piece with the white space at both ends removed. */
  lemma LinesOfContent(content: string) returns (raw: seq<string>)
    ensures Join(raw, '\n') == content
    ensures |Lines(content)| == |raw| >= 1
    ensures forall i | 0 <= i < |raw| :: '\n' !in raw[i] && Lines(content)[i] == Trim(raw[i])
  {
    raw := Split(content, '\n');
    JoinSplit(content, '\n');
  }

  /** One trimmed line per piece of the split. */
  lemma LinesTrimmed(content: string)
    ensures |Lines(content)| == |Split(content, '\n')|
    ensures forall i | 0 <= i < |Lines(content)| :: Lines(content)[i] == Trim(Split(content, '\n')[i])
  {
  }

  /** The URI lines of a playlist, in order. */
  function UriLines(lines: seq<string>): (r: seq<string>)
    ensures |r| <= |lines|
    ensures forall i | 0 <= i < |r| :: IsUriLine(r[i])
  {
    if lines == [] then []
    else
      var t := lines[|lines| - 1];
      UriLines(lines[..|lines| - 1]) + (if IsUriLine(t) then [t] else [])
  }

  /** Lines that are not URI lines contribute nothing, wherever they are. */
  lemma {:induction false} UriLinesAppend(xs: seq<string>, ys: seq<string>)
    ensures UriLines(xs + ys) == UriLines(xs) + UriLines(ys)
  {
    if ys != [] {
      var init := ys[..|ys| - 1];
      assert (xs + ys)[..|xs + ys| - 1] == xs + init;
      UriLinesAppend(xs, init);
    } else {
      assert xs + ys == xs;
    }
  }

  /** A playlist that is a list of clean URI lines joined by line feeds
      parses back to exactly those lines. */
  lemma UriLinesOfJoin(uris: seq<string>)
    requires uris != []
    requires forall i | 0 <= i < |uris| ::
      IsUriLine(uris[i]) && '\n' !in uris[i] && !IsSpace(uris[i][0]) && !IsSpace(uris[i][|uris[i]| - 1])
    ensures UriLines(Lines(Join(uris, '\n'))) == uris
  {
    var content := Join(uris, '\n');
    SplitJoin(uris, '\n');
    LinesTrimmed(content);
    var lines := Lines(content);
    forall i | 0 <= i < |uris| ensures lines[i] == uris[i] {
      TrimClean(uris[i]);
    }
    assert lines == uris;
    AllUriLines(uris);
  }

  lemma {:induction false} AllUriLines(lines: seq<string>)
    requires forall i | 0 <= i < |lines| :: IsUriLine(lines[i])
    ensures UriLines(lines) == lines
  {
    if lines != [] {
      var init := lines[..|lines| - 1];
      AllUriLines(init);
      assert lines == init + [lines[|lines| - 1]];
    }
  }

  /** A path that starts at the root of the host: one leading `/`, not the
      `//` of a scheme-relative reference. */
  predicate IsRootRelative(line: string) {
    StartsWith(line, "/") && !StartsWith(line, "//")
  }

  /** `new URL(line, base.origin + directory).href` for a relative line: a
      root-relative path replaces the whole path of the playlist, any other
      line is appended to the playlist's directory. */
  function Resolve(base: UrlParts, line: string): (href: string)
    ensures StartsWith(href, base.origin) && EndsWith(href, line)
    ensures IsRootRelative(line) ==> href == base.origin + line
    ensures !StartsWith(line, "/") ==> href == base.origin + Directory(base.pathname) + line
  {
    var dir := if IsRootRelative(line) then "" else Directory(base.pathname);
    assert (base.origin + dir + line)[..|base.origin|] == base.origin;
    base.origin + dir + line
  }

  /** The message of the `TypeError` thrown by `new URL(baseUrl)` in Chrome
      when the playlist URL does not parse. */
  const InvalidUrl := "Failed to construct 'URL': Invalid URL"

  predicate IsAbsolute(line: string) {
    StartsWith(line, "http")
  }

  /** The URL of the segment named by a URI line: verbatim when it starts
      with `http`, resolved against the playlist's directory otherwise; a
      relative line with an unparsable playlist URL makes `new URL` throw. */
  function SegmentUrl(line: string, base: Option<UrlParts>): (r: Result<string>)
    ensures IsAbsolute(line) ==> r == Ok(line)
    ensures !IsAbsolute(line) && base.None? ==> r == Err(InvalidUrl)
    ensures !IsAbsolute(line) && base.Some? ==> r.Ok? && StartsWith(r.value, base.value.origin) && EndsWith(r.value, line)
  {
    if IsAbsolute(line) then Ok(line)
    else if base.None? then Err(InvalidUrl)
    else Ok(Resolve(base.value, line))
  }

  /** The segments of a list of URI lines, numbered from 0 in order; the
      first line whose URL cannot be formed aborts the whole list. */
  function Segments(uris: seq<string>, base: Option<UrlParts>): Result<seq<Segment>> {
    if uris == [] then Ok([])
    else
      var init := Segments(uris[..|uris| - 1], base);
      if init.Err? then init
      else
        var u := SegmentUrl(uris[|uris| - 1], base);
        if u.Err? then Err(u.message) else Ok(init.value + [Segment(u.value, |init.value|)])
  }

  /** What `Segments` produces: an error exactly when some line has no URL,
      and otherwise one segment per line, in order, whose index is its
      position. */
  lemma SegmentsCharacterised(uris: seq<string>, base: Option<UrlParts>)
    ensures var r := Segments(uris, base);
      && (r.Err? <==> exists i | 0 <= i < |uris| :: SegmentUrl(uris[i], base).Err?)
      && (r.Err? ==> r.message == InvalidUrl)
      && (r.Ok? ==> |r.value| == |uris|
                    && forall i | 0 <= i < |uris| :: r.value[i] == Segment(SegmentUrl(uris[i], base).value, i))
  {
    SegmentsFail(uris, base);
    SegmentsShape(uris, base);
  }

  lemma {:induction false} SegmentsFail(uris: seq<string>, base: Option<UrlParts>)
    ensures var r := Segments(uris, base);
      && (r.Err? <==> exists i | 0 <= i < |uris| :: SegmentUrl(uris[i], base).Err?)
      && (r.Err? ==> r.message == InvalidUrl)
  {
    if uris != [] {
      var init := uris[..|uris| - 1];
      SegmentsFail(init, base);
      assert forall i | 0 <= i < |init| :: uris[i] == init[i];
    }
  }

  lemma {:induction false} SegmentsShape(uris: seq<string>, base: Option<UrlParts>)
    ensures var r := Segments(uris, base);
      r.Ok? ==> |r.value| == |uris|
                && forall i | 0 <= i < |uris| ::
                     SegmentUrl(uris[i], base).Ok? && r.value[i] == Segment(SegmentUrl(uris[i], base).value, i)
  {
    if uris != [] {
      var init := uris[..|uris| - 1];
      var n := |init|;
      SegmentsShape(init, base);
      var u := SegmentUrl(uris[n], base);
      if Segments(init, base).Ok? && u.Ok? {
        var done := Segments(init, base).value;
        var r := done + [Segment(u.value, n)];
        assert Segments(uris, base) == Ok(r);
        assert forall i | 0 <= i < n :: uris[i] == init[i] && r[i] == done[i];
      }
    }
  }

  /** Once a prefix fails, the whole list fails. */
  lemma {:induction false} SegmentsErrPrefix(xs: seq<string>, ys: seq<string>, base: Option<UrlParts>)
    requires Segments(xs, base).Err?
    ensures Segments(xs + ys, base) == Segments(xs, base)
  {
    if ys == [] {
      assert xs + ys == xs;
    } else {
      var init := ys[..|ys| - 1];
      assert (xs + ys)[..|xs + ys| - 1] == xs + init;
      SegmentsErrPrefix(xs, init, base);
    }
  }

  lemma UriLinesStep(lines: seq<string>, i: int)
    requires 0 <= i < |lines|
    ensures IsUriLine(lines[i]) ==> UriLines(lines[..i + 1]) == UriLines(lines[..i]) + [lines[i]]
    ensures !IsUriLine(lines[i]) ==> UriLines(lines[..i + 1]) == UriLines(lines[..i])
  {
    assert lines[..i + 1][..i] == lines[..i];
    assert UriLines(lines[..i]) + [] == UriLines(lines[..i]);
  }

  lemma SegmentsStep(uris: seq<string>, line: string, base: Option<UrlParts>)
    ensures var init := Segments(uris, base);
      var u := SegmentUrl(line, base);
      Segments(uris + [line], base) ==
        if init.Err? then init
        else if u.Err? then Err(u.message)
        else Ok(init.value + [Segment(u.value, |init.value|)])
  {
    assert (uris + [line])[..|uris|] == uris;
  }

  /** A URI line whose URL cannot be formed, after lines that all could,
      makes the whole playlist fail. */
  lemma ParseFailsAt(lines: seq<string>, i: int, base: Option<UrlParts>)
    requires 0 <= i < |lines| && IsUriLine(lines[i]) && SegmentUrl(lines[i], base).Err?
    requires Segments(UriLines(lines[..i]), base).Ok?
    ensures Segments(UriLines(lines), base) == Err(InvalidUrl)
  {
    UriLinesStep(lines, i);
    SegmentsStep(UriLines(lines[..i]), lines[i], base);
    var head := lines[..i + 1];
    var tail := lines[i + 1..];
    UriLinesAppend(head, tail);
    assert head + tail == lines;
    SegmentsErrPrefix(UriLines(head), UriLines(tail), base);
  }

  /** `parseM3U8(content, baseUrl)`: the playlist is split into lines, each
      line trimmed, blank and `#` lines skipped and every other line turned
      into the next segment. */
  method ParseM3U8(content: string, base: Option<UrlParts>) returns (r: Result<seq<Segment>>)
    ensures r == Segments(UriLines(Lines(content)), base)
  {
    var lines := Lines(content);
    r := ParseLines(lines, base);
  }

  /** The loop of `parseM3U8` over the trimmed lines. */
  method ParseLines(lines: seq<string>, base: Option<UrlParts>) returns (r: Result<seq<Segment>>)
    ensures r == Segments(UriLines(lines), base)
  {
    var segments: seq<Segment> := [];
    ghost var uris: seq<string> := [];
    var i := 0;
    while i < |lines|
      invariant 0 <= i <= |lines|
      invariant uris == UriLines(lines[..i])
      invariant Segments(uris, base) == Ok(segments)
    {
      var line := lines[i];
      UriLinesStep(lines, i);
      if line != "" && !StartsWith(line, "#") {
        var url := line;
        SegmentsStep(uris, line, base);
        if !StartsWith(url, "http") {
          if base.None? {
            ParseFailsAt(lines, i, base);
            return Err(InvalidUrl);
          }
          url := Resolve(base.value, line);
        }
        segments := segments + [Segment(url, |segments|)];
        uris := uris + [line];
      }
      i := i + 1;
    }
    assert lines[..i] == lines;
    r := Ok(segments);
  }

  // ---------------------------------------------------------------------
  // Batched segment download (`downloadSegments`)
  // ---------------------------------------------------------------------

  /** `this.maxConcurrentDownloads` */
  const MaxConcurrentDownloads := 6

  /** `Math.min(options.concurrentDownloads || this.maxConcurrentDownloads,
      segments.length)` as written. The option is `None` when absent or
      `NaN`; `0` is falsy too. A negative option is kept. */
  function BatchLimitAsWritten(option: Option<int>, n: nat): (limit: int)
    ensures option.Some? && option.value < 0 ==> limit == option.value
    ensures (option.None? || option.value == 0) ==> limit == if n < MaxConcurrentDownloads then n else MaxConcurrentDownloads
  {
    var c := if option.None? || option.value == 0 then MaxConcurrentDownloads else option.value;
    if c < n then c else n
  }

  /** The loop counter of `for (let i = 0; i < n; i += limit)` after `k`
      rounds. */
  function BatchCursor(limit: int, k: nat): int {
    if k == 0 then 0 else BatchCursor(limit, k - 1) + limit
  }

  /** With a negative `concurrentDownloads` and a non-empty playlist the
      batching loop's condition holds after every round: the loop never
      ends, and each round pushes another slice. */
  lemma {:induction false} NegativeLimitNeverEnds(option: Option<int>, n: nat, k: nat)
    requires option.Some? && option.value < 0 && n > 0
    ensures BatchCursor(BatchLimitAsWritten(option, n), k) < n
    ensures BatchCursor(BatchLimitAsWritten(option, n), k) <= 0
  {
    if k > 0 {
      NegativeLimitNeverEnds(option, n, k - 1);
    }
  }

  /** The batch size the rest of the model uses: the default takes the
      place of any value that is not a positive integer, so the loop
      always advances. */
  function BatchLimit(option: Option<int>, n: nat): (limit: nat)
    ensures n > 0 ==> 1 <= limit <= n
    ensures n == 0 ==> limit == 0
    ensures option.Some? && option.value > 0 ==> limit == if option.value < n then option.value else n
    ensures option.Some? && option.value > 0 ==> limit == BatchLimitAsWritten(option, n)
    ensures option.None? ==> limit == BatchLimitAsWritten(option, n)
  {
    var c := if option.None? || option.value <= 0 then MaxConcurrentDownloads else option.value;
    if c < n then c else n
  }

  /** Consecutive slices of `limit` segments; the last may be shorter. */
  function Batches(s: seq<Segment>, limit: nat): seq<seq<Segment>>
    requires limit > 0 || s == []
    decreases |s|
  {
    if s == [] then []
    else if |s| <= limit then [s]
    else [s[..limit]] + Batches(s[limit..], limit)
  }

  function Flatten(xss: seq<seq<Segment>>): seq<Segment> {
    if xss == [] then [] else Flatten(xss[..|xss| - 1]) + xss[|xss| - 1]
  }

  lemma {:induction false} FlattenAppend(xss: seq<seq<Segment>>, yss: seq<seq<Segment>>)
    ensures Flatten(xss + yss) == Flatten(xss) + Flatten(yss)
  {
    if yss == [] {
      assert xss + yss == xss;
    } else {
      var init := yss[..|yss| - 1];
      assert (xss + yss)[..|xss + yss| - 1] == xss + init;
      FlattenAppend(xss, init);
    }
  }

  /** The batches concatenate back to the segment list. */
  lemma {:induction false} FlattenBatches(s: seq<Segment>, limit: nat)
    requires limit > 0 || s == []
    ensures Flatten(Batches(s, limit)) == s
    decreases |s|
  {
    if s != [] {
      if |s| <= limit {
        assert Flatten([s]) == Flatten([]) + s;
      } else {
        FlattenBatches(s[limit..], limit);
        FlattenAppend([s[..limit]], Batches(s[limit..], limit));
        assert Flatten([s[..limit]]) == Flatten([]) + s[..limit];
        assert s[..limit] + s[limit..] == s;
      }
    }
  }

  /** Every batch is non-empty and at most `limit` long. */
  lemma {:induction false} BatchSizes(s: seq<Segment>, limit: nat)
    requires limit > 0
    ensures forall i | 0 <= i < |Batches(s, limit)| :: 1 <= |Batches(s, limit)[i]| <= limit
    decreases |s|
  {
    if |s| > limit {
      var b := Batches(s, limit);
      var rest := Batches(s[limit..], limit);
      BatchSizes(s[limit..], limit);
      assert b == [s[..limit]] + rest;
      assert forall i | 1 <= i < |b| :: b[i] == rest[i - 1];
    }
  }

  /** Every batch but the last is exactly `limit` long. */
  lemma {:induction false} BatchesFull(s: seq<Segment>, limit: nat)
    requires limit > 0
    ensures forall i | 0 <= i < |Batches(s, limit)| - 1 :: |Batches(s, limit)[i]| == limit
    decreases |s|
  {
    if |s| > limit {
      var b := Batches(s, limit);
      var rest := Batches(s[limit..], limit);
      BatchesFull(s[limit..], limit);
      assert b == [s[..limit]] + rest;
      assert forall i | 1 <= i < |b| :: b[i] == rest[i - 1];
    }
  }

  /** There are ceil(n / limit) batches. */
  lemma {:induction false} BatchCount(s: seq<Segment>, limit: nat)
    requires limit > 0
    ensures |Batches(s, limit)| == (|s| + limit - 1) / limit
    decreases |s|
  {
    if s == [] {
      DivUnique(limit - 1, limit, 0, limit - 1);
    } else if |s| <= limit {
      DivUnique(|s| + limit - 1, limit, 1, |s| - 1);
    } else {
      BatchCount(s[limit..], limit);
      DivShift(|s| - limit, limit);
      assert |s| - limit + limit + limit - 1 == |s| + limit - 1;
    }
  }

  lemma DivShift(m: nat, limit: nat)
    requires limit > 0
    ensures (m + limit + limit - 1) / limit == (m + limit - 1) / limit + 1
  {
    var x := m + limit - 1;
    var q, r := x / limit, x % limit;
    assert x == q * limit + r && 0 <= r < limit;
    assert x + limit == (q + 1) * limit + r;
    DivUnique(x + limit, limit, q + 1, r);
  }

  lemma DivUnique(x: int, d: int, q: int, r: int)
    requires d > 0 && x == q * d + r && 0 <= r < d
    ensures x / d == q
  {
    var q0, r0 := x / d, x % d;
    assert x == q0 * d + r0 && 0 <= r0 < d;
    if q0 < q {
      assert (q - q0) * d == r0 - r;
      assert (q - q0) * d >= d by { MulAtLeast(q - q0, d); }
    } else if q0 > q {
      assert (q0 - q) * d == r - r0;
      assert (q0 - q) * d >= d by { MulAtLeast(q0 - q, d); }
    }
  }

  lemma MulAtLeast(k: int, d: int)
    requires k >= 1 && d > 0
    ensures k * d >= d
  {
  }

  /** Taking the next batch off the front. */
  lemma BatchesStep(s: seq<Segment>, i: int, limit: nat)
    requires 0 <= i < |s| && limit > 0
    ensures Batches(s[i..], limit) == [s[i..Min(i + limit, |s|)]] + Batches(s[Min(i + limit, |s|)..], limit)
  {
    var rest := s[i..];
    if |rest| <= limit {
      assert s[i..Min(i + limit, |s|)] == rest;
      assert s[Min(i + limit, |s|)..] == [];
    } else {
      assert s[i..i + limit] == rest[..limit];
      assert rest[limit..] == s[i + limit..];
    }
  }

  /** One turn of the chunking loop: the batches still to come shrink by
      the batch just taken. */
  lemma BatchesLoopStep(s: seq<Segment>, i: int, limit: nat, chunks: seq<seq<Segment>>)
    requires 0 <= i < |s| && limit > 0
    requires chunks + Batches(s[i..], limit) == Batches(s, limit)
    ensures (chunks + [s[i..Min(i + limit, |s|)]]) + Batches(s[Min(i + limit, |s|)..], limit) == Batches(s, limit)
  {
    var end := Min(i + limit, |s|);
    BatchesStep(s, i, limit);
    assert chunks + Batches(s[i..], limit) == chunks + ([s[i..end]] + Batches(s[end..], limit));
    assert chunks + ([s[i..end]] + Batches(s[end..], limit)) == (chunks + [s[i..end]]) + Batches(s[end..], limit);
  }

  /** The chunking loop of `downloadSegments`. */
  method MakeBatches(segments: seq<Segment>, limit: nat) returns (chunks: seq<seq<Segment>>)
    requires limit > 0 || segments == []
    ensures chunks == Batches(segments, limit)
  {
    chunks := [];
    var i := 0;
    assert segments[0..] == segments;
    while i < |segments|
      invariant 0 <= i
      invariant chunks + Batches(segments[Min(i, |segments|)..], limit) == Batches(segments, limit)
      decreases |segments| - i
    {
      BatchesLoopStep(segments, i, limit, chunks);
      chunks := chunks + [segments[i..Min(i + limit, |segments|)]];
      i := i + limit;
    }
    assert segments[Min(i, |segments|)..] == [];
  }

  function Min(a: int, b: int): int {
    if a < b then a else b
  }

  /** A segment whose body was received: its index and URL (the blob is
      not modelled). */
  datatype Fetched = Fetched(index: nat, url: string)

  /** The segments whose request succeeded, in input order, as the results
      of each batch are appended after `Promise.all`. */
  function Survivors(s: seq<Segment>, ok: Segment -> bool): (r: seq<Fetched>)
    ensures |r| <= |s|
    ensures forall f | f in r :: exists i | 0 <= i < |s| :: ok(s[i]) && f == Fetched(s[i].index, s[i].url)
  {
    if s == [] then []
    else
      var last := s[|s| - 1];
      var init := Survivors(s[..|s| - 1], ok);
      if ok(last) then init + [Fetched(last.index, last.url)] else init
  }

  lemma {:induction false} SurvivorsAppend(s: seq<Segment>, t: seq<Segment>, ok: Segment -> bool)
    ensures Survivors(s + t, ok) == Survivors(s, ok) + Survivors(t, ok)
  {
    if t == [] {
      assert s + t == s;
    } else {
      var init := t[..|t| - 1];
      assert (s + t)[..|s + t| - 1] == s + init;
      SurvivorsAppend(s, init, ok);
    }
  }

  /** A segment survives exactly when its request succeeded. */
  lemma {:induction false} SurvivorsExact(s: seq<Segment>, ok: Segment -> bool, i: int)
    requires 0 <= i < |s| && ok(s[i])
    ensures Fetched(s[i].index, s[i].url) in Survivors(s, ok)
  {
    if i < |s| - 1 {
      SurvivorsExact(s[..|s| - 1], ok, i);
    }
  }

  /** One batch: every request of the chunk, the failures dropped. */
  method FetchBatch(chunk: seq<Segment>, ok: Segment -> bool) returns (results: seq<Fetched>)
    ensures results == Survivors(chunk, ok)
  {
    results := [];
    var k := 0;
    while k < |chunk|
      invariant 0 <= k <= |chunk|
      invariant results == Survivors(chunk[..k], ok)
    {
      assert chunk[..k + 1][..k] == chunk[..k];
      if ok(chunk[k]) {
        results := results + [Fetched(chunk[k].index, chunk[k].url)];
      }
      k := k + 1;
    }
    assert chunk[..k] == chunk;
  }

  predicate SortedByIndex(s: seq<Fetched>) {
    forall p, q | 0 <= p < q < |s| :: s[p].index <= s[q].index
  }

  predicate StrictlyIncreasing(s: seq<Segment>) {
    forall p, q | 0 <= p < q < |s| :: s[p].index < s[q].index
  }

  /** `array.sort((a, b) => a.index - b.index)`, in place and stable
      (insertion sort). */
  method SortByIndex(a: array<Fetched>)
    modifies a
    ensures SortedByIndex(a[..])
    ensures multiset(a[..]) == multiset(old(a[..]))
  {
    var i := 0;
    while i < a.Length
      invariant 0 <= i <= a.Length
      invariant SortedPrefix(a[..], i)
      invariant multiset(a[..]) == multiset(old(a[..]))
    {
      InsertAt(a, i);
      i := i + 1;
    }
  }

  /** The first `n` elements are in index order. */
  predicate SortedPrefix(s: seq<Fetched>, n: int)
    requires n <= |s|
  {
    forall p, q | 0 <= p < q < n :: s[p].index <= s[q].index
  }

  /** Moves `a[i]` down past every larger index before it, so that
      `a[..i + 1]` is sorted. */
  method InsertAt(a: array<Fetched>, i: int)
    requires 0 <= i < a.Length
    requires SortedPrefix(a[..], i)
    modifies a
    ensures SortedPrefix(a[..], i + 1)
    ensures multiset(a[..]) == multiset(old(a[..]))
  {
    var j := i;
    while j > 0 && a[j - 1].index > a[j].index
      invariant 0 <= j <= i
      invariant SortedAround(a[..], i, j) && BelowRest(a[..], i, j)
      invariant multiset(a[..]) == multiset(old(a[..]))
    {
      ghost var s := a[..];
      a[j - 1], a[j] := a[j], a[j - 1];
      assert a[..] == Swapped(s, j);
      SwapKeeps(s, i, j);
      j := j - 1;
    }
    InsertDone(a[..], i, j);
  }

  /** `s[..i + 1]` is sorted once the element at `j` is set aside. */
  predicate SortedAround(s: seq<Fetched>, i: int, j: int)
    requires 0 <= j <= i < |s|
  {
    forall p, q | 0 <= p < q <= i && p != j && q != j :: s[p].index <= s[q].index
  }

  /** The element at `j` is not above anything after it up to `i`. */
  predicate BelowRest(s: seq<Fetched>, i: int, j: int)
    requires 0 <= j <= i < |s|
  {
    forall q | j < q <= i :: s[j].index <= s[q].index
  }

  /** `s` with its elements at `j - 1` and `j` exchanged. */
  function Swapped(s: seq<Fetched>, j: int): (t: seq<Fetched>)
    requires 0 < j < |s|
    ensures |t| == |s| && multiset(t) == multiset(s)
  {
    s[j - 1 := s[j]][j := s[j - 1]]
  }

  /** One step of the insertion keeps both loop facts. */
  lemma SwapKeeps(s: seq<Fetched>, i: int, j: int)
    requires 0 < j <= i < |s|
    requires SortedAround(s, i, j) && BelowRest(s, i, j)
    requires s[j - 1].index > s[j].index
    ensures SortedAround(Swapped(s, j), i, j - 1) && BelowRest(Swapped(s, j), i, j - 1)
  {
    var t := Swapped(s, j);
    forall p, q | 0 <= p < q <= i && p != j - 1 && q != j - 1 ensures t[p].index <= t[q].index {
      if p == j {
        assert t[p] == s[j - 1] && t[q] == s[q];
      } else if q == j {
        assert t[q] == s[j - 1] && t[p] == s[p];
      }
    }
  }

  /** When the loop stops, `s[..i + 1]` is sorted. */
  lemma InsertDone(s: seq<Fetched>, i: int, j: int)
    requires 0 <= j <= i < |s|
    requires SortedAround(s, i, j) && BelowRest(s, i, j)
    requires j > 0 ==> s[j - 1].index <= s[j].index
    ensures SortedPrefix(s, i + 1)
  {
    forall p, q | 0 <= p < q <= i ensures s[p].index <= s[q].index {
      if q == j && p < j - 1 {
        assert s[p].index <= s[j - 1].index;
      }
    }
  }

  /** Indices strictly increase along the list. */
  predicate IndicesIncrease(s: seq<Fetched>) {
    forall p, q | 0 <= p < q < |s| :: s[p].index < s[q].index
  }

  /** Dropping failed requests keeps the order of the indices. */
  lemma {:induction false} SurvivorsIncrease(s: seq<Segment>, ok: Segment -> bool)
    requires StrictlyIncreasing(s)
    ensures IndicesIncrease(Survivors(s, ok))
  {
    if s != [] {
      var init := s[..|s| - 1];
      var last := s[|s| - 1];
      SurvivorsIncrease(init, ok);
      var r := Survivors(init, ok);
      if ok(last) {
        forall f | f in r ensures f.index < last.index {
          var i :| 0 <= i < |init| && ok(init[i]) && f == Fetched(init[i].index, init[i].url);
          assert init[i] == s[i];
        }
        var r2 := r + [Fetched(last.index, last.url)];
        forall p, q | 0 <= p < q < |r2| ensures r2[p].index < r2[q].index {
          if q == |r2| - 1 {
            assert r2[p] in r;
          }
        }
      }
    }
  }

  /** A sorted rearrangement of a list whose indices already increase is
      that list itself: the final sort never reorders a parsed playlist. */
  lemma {:induction false} SortedRearrangementUnique(s: seq<Fetched>, t: seq<Fetched>)
    requires IndicesIncrease(s) && SortedByIndex(t)
    requires multiset(s) == multiset(t)
    ensures s == t
  {
    if s == [] {
      assert |multiset(t)| == 0;
    } else {
      SameFirst(s, t);
      TailsStayOrdered(s, t);
      assert s == [s[0]] + s[1..];
      assert t == [t[0]] + t[1..];
      assert multiset(s) == multiset{s[0]} + multiset(s[1..]);
      assert multiset(t) == multiset{t[0]} + multiset(t[1..]);
      assert multiset(s[1..]) == multiset(s) - multiset{s[0]};
      assert multiset(t[1..]) == multiset(t) - multiset{t[0]};
      SortedRearrangementUnique(s[1..], t[1..]);
    }
  }

  lemma TailsStayOrdered(s: seq<Fetched>, t: seq<Fetched>)
    requires s != [] && t != []
    requires IndicesIncrease(s) && SortedByIndex(t)
    ensures IndicesIncrease(s[1..]) && SortedByIndex(t[1..])
  {
    forall p, q | 0 <= p < q < |s| - 1 ensures s[1..][p].index < s[1..][q].index {
      assert s[1..][p] == s[p + 1] && s[1..][q] == s[q + 1];
    }
    forall p, q | 0 <= p < q < |t| - 1 ensures t[1..][p].index <= t[1..][q].index {
      assert t[1..][p] == t[p + 1] && t[1..][q] == t[q + 1];
    }
  }

  /** Both lists start with the element of smallest index. */
  lemma SameFirst(s: seq<Fetched>, t: seq<Fetched>)
    requires s != []
    requires IndicesIncrease(s) && SortedByIndex(t)
    requires multiset(s) == multiset(t)
    ensures t != [] && s[0] == t[0]
  {
    assert s[0] in multiset(t);
    assert t[0] in multiset(s);
    var k :| 0 <= k < |t| && t[k] == s[0];
    var m :| 0 <= m < |s| && s[m] == t[0];
    assert t[0].index <= t[k].index;
  }

  /** `downloadSegments(segments, options)`: batches of `limit` requests,
      failures dropped, the rest sorted by index. Each request's outcome is
      given by `ok`. */
  method DownloadSegments(segments: seq<Segment>, option: Option<int>, ok: Segment -> bool)
    returns (downloaded: seq<Fetched>)
    ensures SortedByIndex(downloaded)
    ensures multiset(downloaded) == multiset(Survivors(segments, ok))
    ensures StrictlyIncreasing(segments) ==> downloaded == Survivors(segments, ok)
  {
    var limit := BatchLimit(option, |segments|);
    var collected := FetchInBatches(segments, limit, ok);
    var a := new Fetched[|collected|](k requires 0 <= k < |collected| => collected[k]);
    assert a[..] == collected;
    SortByIndex(a);
    downloaded := a[..];
    if StrictlyIncreasing(segments) {
      SurvivorsIncrease(segments, ok);
      SortedRearrangementUnique(collected, downloaded);
    }
  }

  /** The batch loop of `downloadSegments`: one `Promise.all` per batch,
      the results of each appended in order. */
  method FetchInBatches(segments: seq<Segment>, limit: nat, ok: Segment -> bool)
    returns (collected: seq<Fetched>)
    requires limit > 0 || segments == []
    ensures collected == Survivors(segments, ok)
  {
    var chunks := MakeBatches(segments, limit);
    collected := [];
    ghost var done: seq<seq<Segment>> := [];
    var c := 0;
    while c < |chunks|
      invariant 0 <= c <= |chunks|
      invariant done == chunks[..c]
      invariant collected == Survivors(Flatten(done), ok)
    {
      var results := FetchBatch(chunks[c], ok);
      assert Flatten(done + [chunks[c]]) == Flatten(done) + chunks[c];
      SurvivorsAppend(Flatten(done), chunks[c], ok);
      collected := collected + results;
      done := done + [chunks[c]];
      c := c + 1;
    }
    assert done == chunks;
    FlattenBatches(segments, limit);
  }

  // ---------------------------------------------------------------------
  // Saving (`saveSegments`)
  // ---------------------------------------------------------------------

  /** `${filename}_segment_${String(i).padStart(4, '0')}.ts` */
  function SegmentFileName(filename: string, i: nat): (name: string)
    ensures StartsWith(name, filename + "_segment_") && EndsWith(name, ".ts")
    ensures i < 10000 ==> |name| == |filename| + 16
  {
    var name := filename + "_segment_" + PadStart(NatToString(i), 4, '0') + ".ts";
    assert name[..|filename| + 9] == filename + "_segment_";
    assert name[|name| - 3..] == ".ts";
    DigitsBelow(i);
    name
  }

  /** Between the prefix and `.ts`, a segment's file name holds only decimal
      digits, and they read back as the segment's position: four digits,
      zero-padded, below 10000. */
  lemma SegmentFileNameIndex(filename: string, i: nat)
    ensures var name := SegmentFileName(filename, i);
            && |filename| + 9 <= |name| - 3
            && AllDigits(name[|filename| + 9..|name| - 3])
            && DigitsValue(name[|filename| + 9..|name| - 3]) == i
  {
    var padded := PadStart(NatToString(i), 4, '0');
    var name := SegmentFileName(filename, i);
    assert name == filename + "_segment_" + padded + ".ts";
    assert name[|filename| + 9..|name| - 3] == padded;
    PaddedValue(i, 4);
  }

  lemma {:induction false} DigitsBelow(i: nat)
    ensures i < 10 ==> |NatToString(i)| == 1
    ensures i < 100 ==> |NatToString(i)| <= 2
    ensures i < 1000 ==> |NatToString(i)| <= 3
    ensures i < 10000 ==> |NatToString(i)| <= 4
  {
    if 10 <= i {
      DigitsBelow(i / 10);
    }
  }

  /** Two different positions never get the same file name. */
  lemma SegmentNamesDistinct(filename: string, i: nat, j: nat)
    requires i != j
    ensures SegmentFileName(filename, i) != SegmentFileName(filename, j)
  {
    var pre := filename + "_segment_";
    var a := PadStart(NatToString(i), 4, '0');
    var b := PadStart(NatToString(j), 4, '0');
    var x := pre + a + ".ts";
    var y := pre + b + ".ts";
    if x == y {
      assert |a| == |b|;
      assert x[|pre|..|pre| + |a|] == a;
      assert y[|pre|..|pre| + |b|] == b;
      PaddedDecimalInjective(i, j, 4);
    }
  }

  /** The names `saveSegments` uses for `n` segments. */
  function SegmentNames(filename: string, n: nat): (names: seq<string>)
    ensures |names| == n
    ensures forall i | 0 <= i < n :: names[i] == SegmentFileName(filename, i)
  {
    seq(n, i requires 0 <= i < n => SegmentFileName(filename, i))
  }

  /** One attempted save: the file name and the fetched segment whose body
      is written under it. */
  datatype SavedFile = SavedFile(name: string, segment: Fetched)

  /** The saves `saveSegments` attempts: the i-th item of the list under
      the i-th name. */
  function SaveList(filename: string, segments: seq<Fetched>): seq<SavedFile> {
    seq(|segments|, i requires 0 <= i < |segments| => SavedFile(SegmentFileName(filename, i), segments[i]))
  }

  lemma SaveListStep(filename: string, segments: seq<Fetched>, i: int)
    requires 0 <= i < |segments|
    ensures SaveList(filename, segments[..i + 1])
            == SaveList(filename, segments[..i]) + [SavedFile(SegmentFileName(filename, i), segments[i])]
  {
    var a := SaveList(filename, segments[..i + 1]);
    var b := SaveList(filename, segments[..i]) + [SavedFile(SegmentFileName(filename, i), segments[i])];
    assert |a| == |b|;
    forall k | 0 <= k < |a| ensures a[k] == b[k] {
      assert segments[..i + 1][k] == segments[k];
      if k < i {
        assert segments[..i][k] == segments[k];
      }
    }
  }

  /** `saveSegments(segments, filename)`: one download per segment, named
      by its position in the list; `saved(i)` says whether the i-th save
      succeeded. A failed save is logged and the loop goes on, so every
      position is attempted; the positions that failed are returned. */
  method SaveSegments(segments: seq<Fetched>, filename: string, saved: nat -> bool)
    returns (saves: seq<SavedFile>, failed: seq<nat>)
    ensures saves == SaveList(filename, segments)
    ensures forall k | k in failed :: k < |segments| && !saved(k)
    ensures forall k: nat | k < |segments| && !saved(k) :: k in failed
  {
    saves := [];
    failed := [];
    var i := 0;
    while i < |segments|
      invariant 0 <= i <= |segments|
      invariant saves == SaveList(filename, segments[..i])
      invariant forall k | k in failed :: k < i && !saved(k)
      invariant forall k: nat | k < i && !saved(k) :: k in failed
    {
      var name := SegmentFileName(filename, i);
      SaveListStep(filename, segments, i);
      if !saved(i) {
        failed := failed + [i];
      }
      saves := saves + [SavedFile(name, segments[i])];
      i := i + 1;
    }
    assert segments[..i] == segments;
  }

  /** `f` is the body of a playlist segment whose request succeeded. */
  predicate FetchedFrom(f: Fetched, plan: seq<Segment>, ok: Segment -> bool) {
    f.index < |plan| && ok(plan[f.index]) && f.url == plan[f.index].url
  }

  /** The files of a download follow the playlist. The i-th file holds a
      segment whose request succeeded, and it is saved under the i-th
      name. Files hold segments in playlist order. Every segment whose
      request succeeded is saved. */
  predicate FollowsPlaylist(saves: seq<SavedFile>, plan: seq<Segment>, ok: Segment -> bool, name: string) {
    && (forall i | 0 <= i < |saves| :: saves[i].name == SegmentFileName(name, i) && FetchedFrom(saves[i].segment, plan, ok))
    && (forall p, q | 0 <= p < q < |saves| :: saves[p].segment.index < saves[q].segment.index)
    && (forall k | 0 <= k < |plan| && ok(plan[k]) :: exists i | 0 <= i < |saves| :: saves[i].segment.index == k)
  }

  /** Saving the survivors of a list of segments numbered by position
      follows that list. */
  lemma SavedFilesFollowSegments(plan: seq<Segment>, ok: Segment -> bool, name: string)
    requires forall j | 0 <= j < |plan| :: plan[j].index == j
    ensures FollowsPlaylist(SaveList(name, Survivors(plan, ok)), plan, ok, name)
  {
    var r := Survivors(plan, ok);
    var saves := SaveList(name, r);
    SurvivorsIncrease(plan, ok);
    forall i | 0 <= i < |saves|
      ensures FetchedFrom(saves[i].segment, plan, ok)
    {
      SavedIsSurvivor(plan, ok, name, i);
    }
    forall k | 0 <= k < |plan| && ok(plan[k])
      ensures exists i | 0 <= i < |saves| :: saves[i].segment.index == k
    {
      SurvivorSaved(plan, ok, name, k);
    }
  }

  lemma SavedIsSurvivor(plan: seq<Segment>, ok: Segment -> bool, name: string, i: int)
    requires forall j | 0 <= j < |plan| :: plan[j].index == j
    requires 0 <= i < |Survivors(plan, ok)|
    ensures FetchedFrom(SaveList(name, Survivors(plan, ok))[i].segment, plan, ok)
  {
    var r := Survivors(plan, ok);
    assert SaveList(name, r)[i].segment == r[i];
    assert r[i] in r;
  }

  lemma SurvivorSaved(plan: seq<Segment>, ok: Segment -> bool, name: string, k: int)
    requires 0 <= k < |plan| && ok(plan[k]) && plan[k].index == k
    ensures var saves := SaveList(name, Survivors(plan, ok));
            exists i | 0 <= i < |saves| :: saves[i].segment.index == k
  {
    var r := Survivors(plan, ok);
    SurvivorsExact(plan, ok, k);
    var i :| 0 <= i < |r| && r[i] == Fetched(plan[k].index, plan[k].url);
    assert SaveList(name, r)[i].segment == r[i];
  }

  /** Saving the survivors of a plan that goes ahead follows the playlist. */
  lemma SavedFilesFollowPlaylist(playlist: PlaylistFetch, base: Option<UrlParts>, ok: Segment -> bool, name: string)
    requires StreamPlan(playlist, base).Ok?
    ensures var plan := StreamPlan(playlist, base).value;
            FollowsPlaylist(SaveList(name, Survivors(plan, ok)), plan, ok, name)
  {
    StreamPlanOk(playlist, base);
    SavedFilesFollowSegments(StreamPlan(playlist, base).value, ok, name);
  }

  // ---------------------------------------------------------------------
  // Stream registry (`detectedStreams`) and `downloadStream`
  // ---------------------------------------------------------------------

  datatype Status = Detected | Downloading | Completed | Failed

  /** An entry of `detectedStreams`; its id is the key it is stored under,
      and `detected` stands for the `new Date()` of its detection. */
  datatype Stream = Stream(url: string, tabId: int, detected: int, status: Status, error: Option<string>)

  /** Every entry marked failed carries the message of the error that
      failed it. */
  predicate FailuresExplained(streams: map<string, Stream>) {
    forall id | id in streams :: streams[id].status == Failed ==> streams[id].error.Some?
  }

  /** How `fetchM3U8(stream.url)` ends: `fetch` throws (with the engine's
      message), the response is not OK, or its text is read. */
  datatype PlaylistFetch = FetchThrew(message: string) | FetchNotOk(status: nat) | FetchText(text: string)

  const NoSegments := "No segments found in M3U8 playlist"

  /** The segments `downloadStream` goes on to download, or the message of
      the error that ends its `try` block. `base` is the parse of the
      stream's URL. */
  function StreamPlan(playlist: PlaylistFetch, base: Option<UrlParts>): Result<seq<Segment>> {
    match playlist
    case FetchThrew(message) => Err(message)
    case FetchNotOk(status) => Err("Failed to fetch M3U8: " + NatToString(status))
    case FetchText(text) => TextPlan(text, base)
  }

  /** The plan for a playlist whose text was read: its segments, unless
      there are none. */
  function TextPlan(text: string, base: Option<UrlParts>): Result<seq<Segment>> {
    var parsed := Segments(UriLines(Lines(text)), base);
    if parsed.Ok? && parsed.value == [] then Err(NoSegments) else parsed
  }

  /** A plan that goes ahead holds one segment per URI line of the
      playlist, numbered from 0, so at least one. */
  lemma StreamPlanOk(playlist: PlaylistFetch, base: Option<UrlParts>)
    requires StreamPlan(playlist, base).Ok?
    ensures playlist.FetchText?
    ensures var uris := UriLines(Lines(playlist.text));
      var segments := StreamPlan(playlist, base).value;
      && uris != [] && |segments| == |uris|
      && forall i | 0 <= i < |uris| :: SegmentUrl(uris[i], base).Ok? && segments[i] == Segment(SegmentUrl(uris[i], base).value, i)
    ensures StrictlyIncreasing(StreamPlan(playlist, base).value)
  {
    var uris := UriLines(Lines(playlist.text));
    assert StreamPlan(playlist, base) == Segments(uris, base);
    SegmentsOk(uris, base);
  }

  /** Segments that could all be formed are one per line, in order. */
  lemma SegmentsOk(uris: seq<string>, base: Option<UrlParts>)
    requires Segments(uris, base).Ok?
    ensures var segments := Segments(uris, base).value;
      && |segments| == |uris|
      && (forall i | 0 <= i < |uris| :: SegmentUrl(uris[i], base).Ok? && segments[i] == Segment(SegmentUrl(uris[i], base).value, i))
      && StrictlyIncreasing(segments)
  {
    SegmentsCharacterised(uris, base);
  }

  /** A playlist made only of tags, comments and blank lines ends the
      download with the "no segments" error. */
  lemma EmptyPlaylistFails(text: string, base: Option<UrlParts>)
    requires forall i | 0 <= i < |Lines(text)| :: !IsUriLine(Lines(text)[i])
    ensures StreamPlan(FetchText(text), base) == Err(NoSegments)
  {
    var lines := Lines(text);
    NoUriLines(lines);
    assert Segments(UriLines(lines), base) == Ok([]);
  }

  lemma {:induction false} NoUriLines(lines: seq<string>)
    requires forall i | 0 <= i < |lines| :: !IsUriLine(lines[i])
    ensures UriLines(lines) == []
  {
    if lines != [] {
      NoUriLines(lines[..|lines| - 1]);
    }
  }

  /** A relative URI line in a playlist whose own URL does not parse ends
      the download with the URL constructor's error. */
  lemma RelativeLineWithoutBaseFails(text: string, i: int)
    requires 0 <= i < |UriLines(Lines(text))| && !IsAbsolute(UriLines(Lines(text))[i])
    ensures StreamPlan(FetchText(text), None) == Err(InvalidUrl)
  {
    SegmentsCharacterised(UriLines(Lines(text)), None);
  }

  /** The URLs numbered from 0 in order. */
  function Numbered(urls: seq<string>): (segments: seq<Segment>)
    ensures |segments| == |urls|
    ensures forall i | 0 <= i < |urls| :: segments[i] == Segment(urls[i], i)
  {
    seq(|urls|, i requires 0 <= i < |urls| => Segment(urls[i], i))
  }

  /** A playlist written as absolute URLs, one per line, is planned as
      exactly those URLs in order. */
  lemma PlanOfAbsoluteUrls(uris: seq<string>, base: Option<UrlParts>)
    requires uris != []
    requires forall i | 0 <= i < |uris| ::
      IsUriLine(uris[i]) && '\n' !in uris[i] && !IsSpace(uris[i][0]) && !IsSpace(uris[i][|uris[i]| - 1])
    requires forall i | 0 <= i < |uris| :: IsAbsolute(uris[i])
    ensures StreamPlan(FetchText(Join(uris, '\n')), base) == Ok(Numbered(uris))
  {
    var text := Join(uris, '\n');
    UriLinesOfJoin(uris);
    SegmentsOfAbsolute(uris, base);
    PlanGoesAhead(text, base);
  }

  lemma PlanGoesAhead(text: string, base: Option<UrlParts>)
    requires Segments(UriLines(Lines(text)), base).Ok?
    requires Segments(UriLines(Lines(text)), base).value != []
    ensures TextPlan(text, base) == Segments(UriLines(Lines(text)), base)
  {
  }

  lemma SegmentsOfAbsolute(uris: seq<string>, base: Option<UrlParts>)
    requires forall i | 0 <= i < |uris| :: IsAbsolute(uris[i])
    ensures Segments(uris, base) == Ok(Numbered(uris))
  {
    SegmentsCharacterised(uris, base);
    forall i | 0 <= i < |uris| ensures SegmentUrl(uris[i], base) == Ok(uris[i]) {
    }
    var r := Segments(uris, base);
    assert r.Ok?;
    assert r.value == Numbered(uris);
  }

  /** `options.filename || 'stream'` */
  function OutputName(filename: Option<string>): (name: string)
    ensures name != []
    ensures filename.Some? && filename.value != [] ==> name == filename.value
  {
    if filename.Some? && filename.value != "" then filename.value else "stream"
  }

  /** The entry once `downloadStream` has finished: completed whenever the
      plan went ahead, failed with the error's message otherwise. A
      completed entry keeps any error from an earlier attempt. */
  function Settled(s: Stream, plan: Result<seq<Segment>>): (r: Stream)
    ensures r.url == s.url && r.tabId == s.tabId && r.detected == s.detected
    ensures r.status == Completed || r.status == Failed
    ensures r.status == Completed <==> plan.Ok?
    ensures plan.Err? ==> r.error == Some(plan.message)
    ensures plan.Ok? ==> r.error == s.error
  {
    if plan.Ok? then s.(status := Completed) else s.(status := Failed, error := Some(plan.message))
  }

  /** Proof step: the failure `RunDownload` reports settles the entry the
      way the plan does. */
  lemma SettledBy(s: Stream, failure: Option<string>, plan: Result<seq<Segment>>)
    requires failure.None? <==> plan.Ok?
    requires failure.Some? ==> failure.value == plan.message
    ensures Settled(s, plan) == if failure.None? then s.(status := Completed) else s.(status := Failed, error := failure)
  {
  }

  /** No request of any segment succeeding still completes the download. */
  lemma {:induction false} NothingSurvives(s: seq<Segment>, ok: Segment -> bool)
    requires forall i | 0 <= i < |s| :: !ok(s[i])
    ensures Survivors(s, ok) == []
  {
    if s != [] {
      NothingSurvives(s[..|s| - 1], ok);
    }
  }

  /** The body of the `try` block of `downloadStream` after the entry is
      marked downloading: fetch, parse, the empty-playlist check, the
      download and the saving. `failure` is the message of the error that
      ends it, if any; `saves` are the files whose saving was attempted and
      `failedSaves` the positions whose saving failed. */
  method RunDownload(playlist: PlaylistFetch, base: Option<UrlParts>, option: Option<int>,
                     ok: Segment -> bool, saved: nat -> bool, name: string)
    returns (failure: Option<string>, saves: seq<SavedFile>, failedSaves: seq<nat>)
    ensures failure.None? <==> StreamPlan(playlist, base).Ok?
    ensures failure.Some? ==> failure.value == StreamPlan(playlist, base).message && saves == [] && failedSaves == []
    ensures StreamPlan(playlist, base).Ok? ==> saves == SaveList(name, Survivors(StreamPlan(playlist, base).value, ok))
    ensures StreamPlan(playlist, base).Ok? ==> FollowsPlaylist(saves, StreamPlan(playlist, base).value, ok, name)
    ensures forall k | k in failedSaves :: k < |saves| && !saved(k)
    ensures forall k: nat | k < |saves| && !saved(k) :: k in failedSaves
  {
    saves, failedSaves := [], [];
    match playlist
    case FetchThrew(message) =>
      failure := Some(message);
    case FetchNotOk(status) =>
      failure := Some("Failed to fetch M3U8: " + NatToString(status));
    case FetchText(text) =>
      failure, saves, failedSaves := RunText(text, base, option, ok, saved, name);
      if TextPlan(text, base).Ok? {
        SavedFilesFollowPlaylist(playlist, base, ok, name);
      }
  }

  /** The part of the `try` block after the playlist text is read. */
  method RunText(text: string, base: Option<UrlParts>, option: Option<int>,
                 ok: Segment -> bool, saved: nat -> bool, name: string)
    returns (failure: Option<string>, saves: seq<SavedFile>, failedSaves: seq<nat>)
    ensures failure.None? <==> TextPlan(text, base).Ok?
    ensures failure.Some? ==> failure.value == TextPlan(text, base).message && saves == [] && failedSaves == []
    ensures TextPlan(text, base).Ok? ==> saves == SaveList(name, Survivors(TextPlan(text, base).value, ok))
    ensures forall k | k in failedSaves :: k < |saves| && !saved(k)
    ensures forall k: nat | k < |saves| && !saved(k) :: k in failedSaves
  {
    saves, failedSaves := [], [];
    var segments := ParseM3U8(text, base);
    if segments.Err? {
      failure := Some(segments.message);
    } else if |segments.value| == 0 {
      failure := Some(NoSegments);
    } else {
      SegmentsOk(UriLines(Lines(text)), base);
      var downloaded := DownloadSegments(segments.value, option, ok);
      saves, failedSaves := SaveSegments(downloaded, name, saved);
      failure := None;
    }
  }

  class M3U8Downloader {
    var streams: map<string, Stream>

    ghost predicate Valid()
      reads this
    {
      FailuresExplained(streams)
    }

    constructor ()
      ensures Valid() && streams == map[]
    {
      streams := map[];
    }

    /** `addDetectedStream(url, tabId)`: `id` stands for the generated
        `${tabId}_${Date.now()}_${Math.random()}` and `now` for
        `new Date()`. `Map.set` replaces an entry stored under the same id,
        and nothing checks whether the URL is already known. */
    method AddDetectedStream(url: string, tabId: int, id: string, now: int)
      requires Valid()
      modifies this
      ensures Valid()
      ensures streams == old(streams)[id := Stream(url, tabId, now, Detected, None)]
      ensures forall other | other in old(streams) && other != id :: other in streams && streams[other] == old(streams)[other]
    {
      streams := streams[id := Stream(url, tabId, now, Detected, None)];
    }

    /** `onBeforeRequest(details)`: a request is recorded exactly when its
        URL contains `m3u8`. */
    method OnBeforeRequest(url: string, tabId: int, id: string, now: int) returns (added: bool)
      requires Valid()
      modifies this
      ensures Valid()
      ensures added <==> Contains(url, "m3u8")
      ensures streams == if added then old(streams)[id := Stream(url, tabId, now, Detected, None)] else old(streams)
    {
      BeforeRequestIsM3u8Substring(url);
      added := Contains(url, ".m3u8") || Contains(url, "m3u8");
      if added {
        AddDetectedStream(url, tabId, id, now);
      }
    }

    /** `onResponseStarted(details)` */
    method OnResponseStarted(url: string, tabId: int, headers: seq<Header>, id: string, now: int)
      returns (added: bool)
      requires Valid()
      modifies this
      ensures Valid()
      ensures added == ResponseMatches(url, headers)
      ensures streams == if added then old(streams)[id := Stream(url, tabId, now, Detected, None)] else old(streams)
    {
      var contentType := GetHeader(headers, "content-type");
      added := contentType.Some? && contentType.value != ""
               && (Contains(contentType.value, "application/x-mpegURL")
                   || Contains(contentType.value, "application/vnd.apple.mpegurl")
                   || Contains(url, ".m3u8"));
      if added {
        AddDetectedStream(url, tabId, id, now);
      }
    }

    /** The `M3U8_FOUND` message: recorded when it carries a non-empty URL
        and comes from a tab. */
    method OnM3u8Found(url: Option<string>, senderTab: Option<int>, id: string, now: int)
      returns (added: bool)
      requires Valid()
      modifies this
      ensures Valid()
      ensures added <==> url.Some? && url.value != "" && senderTab.Some?
      ensures streams == if added then old(streams)[id := Stream(url.value, senderTab.value, now, Detected, None)]
                         else old(streams)
    {
      added := url.Some? && url.value != "" && senderTab.Some?;
      if added {
        AddDetectedStream(url.value, senderTab.value, id, now);
      }
    }

    /** The `CLEAR_STREAMS` message. */
    method ClearStreams()
      requires Valid()
      modifies this
      ensures Valid() && streams == map[]
    {
      streams := map[];
    }

    /** `downloadStream(streamId, options)`: `filename` and `option` are
        `options.filename` and `options.concurrentDownloads`; `playlist`,
        `ok` and `saved` are the outcomes of the playlist request, of each
        segment request and of each save; `base` is the parse of the
        stream's URL. An unknown id changes nothing. */
    method DownloadStream(id: string, filename: Option<string>, option: Option<int>, playlist: PlaylistFetch,
                          base: Option<UrlParts>, ok: Segment -> bool, saved: nat -> bool)
      returns (saves: seq<SavedFile>, failedSaves: seq<nat>)
      requires Valid()
      modifies this
      ensures Valid()
      ensures id !in old(streams) ==> streams == old(streams) && saves == [] && failedSaves == []
      ensures id in old(streams) ==>
        var plan := StreamPlan(playlist, base);
        && streams == old(streams)[id := Settled(old(streams)[id], plan)]
        && saves == (if plan.Ok? then SaveList(OutputName(filename), Survivors(plan.value, ok)) else [])
        && (plan.Ok? ==> FollowsPlaylist(saves, plan.value, ok, OutputName(filename)))
      ensures forall k | k in failedSaves :: k < |saves| && !saved(k)
      ensures forall k: nat | k < |saves| && !saved(k) :: k in failedSaves
    {
      if id !in streams {
        return [], [];
      }
      var stream := streams[id];
      MarkDownloading(id);
      var failure;
      failure, saves, failedSaves := RunDownload(playlist, base, option, ok, saved, OutputName(filename));
      SettledBy(stream, failure, StreamPlan(playlist, base));
      Settle(id, stream, failure);
    }

    /** The write at the start of `downloadStream`. */
    method MarkDownloading(id: string)
      requires Valid() && id in streams
      modifies this
      ensures Valid()
      ensures streams == old(streams)[id := old(streams)[id].(status := Downloading)]
    {
      streams := streams[id := streams[id].(status := Downloading)];
    }

    /** The write at the end of `downloadStream`: completed, or failed
        with the message of the error. */
    method Settle(id: string, stream: Stream, failure: Option<string>)
      requires Valid()
      modifies this
      ensures Valid()
      ensures streams == old(streams)[id := if failure.None? then stream.(status := Completed)
                                            else stream.(status := Failed, error := failure)]
    {
      var settled := stream;
      if failure.None? {
        settled := stream.(status := Completed);
      } else {
        settled := stream.(status := Failed, error := failure);
      }
      streams := streams[id := settled];
    }
  }

  /** A download whose every segment request fails still marks the entry
      completed, and saves nothing. */
  lemma CompletesWhenEverySegmentFails(s: Stream, playlist: PlaylistFetch, base: Option<UrlParts>, ok: Segment -> bool)
    requires StreamPlan(playlist, base).Ok?
    requires forall seg :: !ok(seg)
    ensures Settled(s, StreamPlan(playlist, base)).status == Completed
    ensures Survivors(StreamPlan(playlist, base).value, ok) == []
  {
    NothingSurvives(StreamPlan(playlist, base).value, ok);
  }
}
