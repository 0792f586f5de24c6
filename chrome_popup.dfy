/** The Chrome popup: its URL shortener and the file name proposed in the
    input field of each stream. */
module ChromePopup {
  import opened Wrappers
  import opened Strings
  import opened Url

  /** `truncateUrl(url)`: URLs over 50 characters keep their first and last
      25 characters around `...`, so a shortened URL is 53 characters long,
      longer than the threshold itself. */
  function TruncateUrl(url: string): (r: string)
    ensures |url| <= 50 ==> r == url
    ensures |url| > 50 ==>
      |r| == 53 && StartsWith(r, url[..25]) && EndsWith(r, url[|url| - 25..]) && r[25..28] == "..."
  {
    if |url| <= 50 then url
    else
      var r := url[..25] + "..." + url[|url| - 25..];
      assert r[..25] == url[..25] && r[28..] == url[|url| - 25..];
      r
  }

  /** Although a shortened URL exceeds 50 characters and is shortened
      again, the second pass gives back the same text. */
  lemma TruncateUrlIdempotent(url: string)
    ensures TruncateUrl(TruncateUrl(url)) == TruncateUrl(url)
  {
    if |url| > 50 {
      var r := TruncateUrl(url);
      assert r[..25] + r[25..28] + r[28..] == r;
    }
  }

  /** `generateFilename(url)`: `parsed` is `new URL(url)`, `None` when the
      constructor throws. The first `.m3u8` of the last path segment is
      removed, and an empty name becomes `stream`. */
  function GenerateFilename(parsed: Option<UrlParts>): (name: string)
    ensures name != []
    ensures parsed.None? ==> name == "stream"
    ensures '/' !in name
  {
    if parsed.None? then "stream"
    else
      var name := RemoveFirst(Last(Split(parsed.value.pathname, '/')), ".m3u8");
      if name == "" then "stream" else name
  }

  /** A playlist `name.m3u8` at the end of the path is proposed as `name`;
      a file called just `.m3u8` is proposed as `stream`. */
  lemma GenerateFilenameOfPlaylist(parts: UrlParts, dir: string, base: string)
    requires parts.pathname == dir + "/" + base + ".m3u8"
    requires '/' !in base && '.' !in base
    ensures GenerateFilename(Some(parts)) == if base == "" then "stream" else base
  {
    var segment := base + ".m3u8";
    assert dir + "/" + base + ".m3u8" == dir + ['/'] + segment;
    SegmentWithoutSlash(base, ".m3u8");
    LastPiece(dir, segment, '/');
    RemoveFirstM3u8(base, "");
    assert base + ".m3u8" + "" == segment;
  }

  /** Only the first `.m3u8` goes: `a.m3u8.m3u8` is proposed as `a.m3u8`. */
  lemma OnlyFirstM3u8Removed(parts: UrlParts, dir: string, base: string)
    requires parts.pathname == dir + "/" + base + ".m3u8" + ".m3u8"
    requires '/' !in base && '.' !in base
    ensures GenerateFilename(Some(parts)) == base + ".m3u8"
  {
    var segment := base + ".m3u8" + ".m3u8";
    assert dir + "/" + base + ".m3u8" + ".m3u8" == dir + ['/'] + segment;
    SegmentWithoutSlash(base, ".m3u8" + ".m3u8");
    assert base + ".m3u8" + ".m3u8" == base + ".m3u8" + ".m3u8";
    LastPiece(dir, segment, '/');
    RemoveFirstM3u8(base, ".m3u8");
  }

  lemma SegmentWithoutSlash(base: string, tail: string)
    requires '/' !in base && '/' !in tail
    ensures '/' !in base + tail
  {
    forall j | 0 <= j < |base + tail| ensures (base + tail)[j] != '/' {
      if j < |base| {
        assert (base + tail)[j] == base[j];
      } else {
        assert (base + tail)[j] == tail[j - |base|];
      }
    }
  }

  /** In `base.m3u8rest` with no dot in `base`, the first `.m3u8` starts
      right after `base`. */
  lemma RemoveFirstM3u8(base: string, rest: string)
    requires '.' !in base
    ensures RemoveFirst(base + ".m3u8" + rest, ".m3u8") == base + rest
  {
    var s := base + ".m3u8" + rest;
    var k := |base|;
    assert s[k..k + 5] == ".m3u8";
    forall j | 0 <= j < k ensures !OccursAt(s, ".m3u8", j) {
      assert s[j] == base[j];
    }
    FirstOccurrence(s, ".m3u8", k);
    assert s[..k] == base && s[k + 5..] == rest;
  }
}
