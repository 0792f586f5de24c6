/** The Firefox popup: the URL shortener, the file name proposed in the
    input field, and the test that decides whether the list of streams is
    rebuilt. */
module FirefoxPopup {
  import opened Wrappers
  import opened Strings
  import opened Url

  // ---------------------------------------------------------------------
  // `truncateUrl`
  // ---------------------------------------------------------------------

  /** `truncateUrl(url)`: `url` is `None` for `null` or `undefined`. Long
      URLs keep their first 20 and last 15 characters around `...`, so the
      result never exceeds 40 characters. */
  function TruncateUrl(url: Option<string>): (r: string)
    ensures |r| <= 40
    ensures url.None? || url.value == "" ==> r == "Unknown URL"
    ensures url.Some? && 0 < |url.value| <= 40 ==> r == url.value
    ensures url.Some? && |url.value| > 40 ==>
      |r| == 38 && StartsWith(r, url.value[..20]) && EndsWith(r, url.value[|url.value| - 15..])
      && r[20..23] == "..."
  {
    if url.None? || url.value == "" then "Unknown URL"
    else if |url.value| <= 40 then url.value
    else
      var u := url.value;
      var r := u[..20] + "..." + u[|u| - 15..];
      assert r[..20] == u[..20] && r[23..] == u[|u| - 15..];
      r
  }

  /** A shortened URL is short enough to be shown as it is. */
  lemma TruncateUrlIdempotent(url: Option<string>)
    ensures TruncateUrl(Some(TruncateUrl(url))) == TruncateUrl(url)
  {
  }

  // ---------------------------------------------------------------------
  // `generateFilename`
  // ---------------------------------------------------------------------

  /** `name.replace(/\.[^/.]+$/, '')`: the last dot goes, with what follows
      it, when that is non-empty and holds no `/` (nor, being after the last
      dot, any dot). */
  function StripExtension(name: string): (r: string)
    ensures |r| <= |name| && r == name[..|r|]
    ensures r != name ==>
      |r| + 1 < |name| && name[|r|] == '.' && '.' !in name[|r| + 1..] && '/' !in name[|r| + 1..]
  {
    var d := LastIndexOf(name, '.');
    if d >= 0 && d + 1 < |name| && '/' !in name[d + 1..] then
      assert forall j | d + 1 <= j < |name| :: name[j] == name[d + 1..][j - d - 1];
      name[..d]
    else name
  }

  /** Only the final extension is removed: earlier dots stay. */
  lemma StripFinalExtension(base: string, ext: string)
    requires ext != [] && '.' !in ext && '/' !in ext
    ensures StripExtension(base + "." + ext) == base
  {
    var name := base + "." + ext;
    assert name[|base|] == '.';
    assert forall j | |base| < j < |name| :: name[j] == ext[j - |base| - 1];
    assert LastIndexOf(name, '.') == |base|;
    assert name[|base| + 1..] == ext;
  }

  /** A name without a dot keeps its full text. */
  lemma StripWithoutDot(name: string)
    requires '.' !in name
    ensures StripExtension(name) == name
  {
  }

  /** `generateFilename(url)`: `url` is `None` for a falsy value and
      `parsed` is `new URL(url)`, `None` when the constructor throws. The
      result is never empty and never longer than 20 characters. */
  function GenerateFilename(url: Option<string>, parsed: Option<UrlParts>): (name: string)
    ensures 1 <= |name| <= 20
    ensures '/' !in name
  {
    if url.None? || url.value == "" then "media"
    else if parsed.None? then "media"
    else
      var segment := Last(Split(parsed.value.pathname, '/'));
      var named := if |segment| < 2 then "media" else segment;
      var stripped := StripExtension(named);
      var cut := if |stripped| > 20 then stripped[..20] else stripped;
      if cut == "" then "media" else cut
  }

  /** The fall-backs: a falsy URL, a parse failure and a last path segment
      shorter than two characters all give `media`. */
  lemma GenerateFilenameFallbacks(url: Option<string>, parsed: Option<UrlParts>)
    requires url.None? || url.value == "" || parsed.None? || |Last(Split(parsed.value.pathname, '/'))| < 2
    ensures GenerateFilename(url, parsed) == "media"
  {
    if url.Some? && url.value != "" && parsed.Some? {
      StripWithoutDot("media");
    }
  }

  /** A file `base.ext` at the end of the path is proposed as `base`, cut to
      20 characters; a name that is nothing but an extension, such as
      `.mp4`, falls back to `media`. */
  lemma GenerateFilenameOfFile(url: string, parts: UrlParts, dir: string, base: string, ext: string)
    requires url != ""
    requires parts.pathname == dir + "/" + base + "." + ext
    requires '/' !in base && ext != [] && '.' !in ext && '/' !in ext
    ensures GenerateFilename(Some(url), Some(parts)) ==
      if base == "" then "media" else if |base| > 20 then base[..20] else base
  {
    var segment := base + "." + ext;
    assert dir + "/" + base + "." + ext == dir + ['/'] + segment;
    assert '/' !in segment by {
      assert forall j | 0 <= j < |segment| :: segment[j] != '/' by {
        forall j | 0 <= j < |segment| ensures segment[j] != '/' {
          if j < |base| {
            assert segment[j] == base[j];
          } else if j > |base| {
            assert segment[j] == ext[j - |base| - 1];
          }
        }
      }
    }
    LastPiece(dir, segment, '/');
    StripFinalExtension(base, ext);
  }

  // ---------------------------------------------------------------------
  // The rebuild test of `displayStreams`
  // ---------------------------------------------------------------------

  /** The order `Array.prototype.sort()` gives strings: character by
      character, a proper prefix first. */
  predicate Below(a: string, b: string)
    decreases |a|
  {
    a == [] || (b != [] && (a[0] < b[0] || (a[0] == b[0] && Below(a[1..], b[1..]))))
  }

  lemma {:induction false} BelowReflexive(a: string)
    ensures Below(a, a)
    decreases |a|
  {
    if a != [] {
      BelowReflexive(a[1..]);
    }
  }

  lemma {:induction false} BelowTotal(a: string, b: string)
    ensures Below(a, b) || Below(b, a)
    decreases |a|
  {
    if a != [] && b != [] && a[0] == b[0] {
      BelowTotal(a[1..], b[1..]);
    }
  }

  lemma {:induction false} BelowAntisymmetric(a: string, b: string)
    requires Below(a, b) && Below(b, a)
    ensures a == b
    decreases |a|
  {
    if a != [] {
      BelowAntisymmetric(a[1..], b[1..]);
      assert a == [a[0]] + a[1..] && b == [b[0]] + b[1..];
    }
  }

  lemma {:induction false} BelowTransitive(a: string, b: string, c: string)
    requires Below(a, b) && Below(b, c)
    ensures Below(a, c)
    decreases |a|
  {
    if a != [] && a[0] == b[0] && b[0] == c[0] {
      BelowTransitive(a[1..], b[1..], c[1..]);
    }
  }

  predicate SortedStrings(s: seq<string>) {
    forall i, j | 0 <= i < j < |s| :: Below(s[i], s[j])
  }

  /** `x` put into the sorted `s` before the first element it is below. */
  function Insert(x: string, s: seq<string>): (r: seq<string>)
    requires SortedStrings(s)
    ensures SortedStrings(r)
    ensures multiset(r) == multiset(s) + multiset{x}
  {
    if s == [] then [x]
    else if Below(x, s[0]) then
      InsertFront(x, s);
      [x] + s
    else
      var rest := Insert(x, s[1..]);
      InsertLater(x, s, rest);
      [s[0]] + rest
  }

  lemma InsertFront(x: string, s: seq<string>)
    requires SortedStrings(s) && s != [] && Below(x, s[0])
    ensures SortedStrings([x] + s)
  {
    forall p, q | 0 <= p < q < |[x] + s| ensures Below(([x] + s)[p], ([x] + s)[q]) {
      if p == 0 && q > 1 {
        BelowTransitive(x, s[0], s[q - 1]);
      }
    }
  }

  lemma InsertLater(x: string, s: seq<string>, rest: seq<string>)
    requires SortedStrings(s) && s != [] && !Below(x, s[0])
    requires SortedStrings(rest) && multiset(rest) == multiset(s[1..]) + multiset{x}
    ensures SortedStrings([s[0]] + rest)
    ensures multiset([s[0]] + rest) == multiset(s) + multiset{x}
  {
    BelowTotal(x, s[0]);
    assert s == [s[0]] + s[1..];
    forall y | y in multiset(rest) ensures Below(s[0], y) {
      if y != x {
        assert y in multiset(s[1..]);
        var j :| 0 <= j < |s[1..]| && s[1..][j] == y;
        assert s[j + 1] == y;
      }
    }
    forall p, q | 0 <= p < q < |[s[0]] + rest| ensures Below(([s[0]] + rest)[p], ([s[0]] + rest)[q]) {
      if p == 0 {
        assert rest[q - 1] in multiset(rest);
      }
    }
  }

  /** The ids sorted. */
  function Sort(s: seq<string>): (r: seq<string>)
    ensures SortedStrings(r)
    ensures multiset(r) == multiset(s)
  {
    if s == [] then []
    else
      assert s == s[..|s| - 1] + [s[|s| - 1]];
      Insert(s[|s| - 1], Sort(s[..|s| - 1]))
  }

  /** Two sorted lists with the same elements are equal. */
  lemma {:induction false} SortedUnique(a: seq<string>, b: seq<string>)
    requires SortedStrings(a) && SortedStrings(b)
    requires multiset(a) == multiset(b)
    ensures a == b
  {
    if a == [] {
      assert |multiset(b)| == 0;
    } else {
      SameHead(a, b);
      assert a == [a[0]] + a[1..];
      assert b == [b[0]] + b[1..];
      assert multiset(a[1..]) == multiset(a) - multiset{a[0]};
      assert multiset(b[1..]) == multiset(b) - multiset{b[0]};
      SortedUnique(a[1..], b[1..]);
    }
  }

  lemma SameHead(a: seq<string>, b: seq<string>)
    requires a != []
    requires SortedStrings(a) && SortedStrings(b)
    requires multiset(a) == multiset(b)
    ensures b != [] && a[0] == b[0]
  {
    assert a[0] in multiset(b);
    assert b != [];
    assert b[0] in multiset(a);
    var k :| 0 <= k < |b| && b[k] == a[0];
    var m :| 0 <= m < |a| && a[m] == b[0];
    BelowReflexive(a[0]);
    assert Below(b[0], a[0]) by {
      if k > 0 {
        assert Below(b[0], b[k]);
      }
    }
    assert Below(a[0], b[0]) by {
      if m > 0 {
        assert Below(a[0], a[m]);
      }
    }
    BelowAntisymmetric(a[0], b[0]);
  }

  /** `displayStreams` rebuilds the list when streams arrive and either the
      sorted ids it knows differ from the sorted incoming ids or the list
      is empty. An empty answer shows the "no streams" panel instead. */
  predicate RebuildsList(known: seq<string>, incoming: seq<string>, children: nat) {
    incoming != [] && (Sort(known) != Sort(incoming) || children == 0)
  }

  /** Sorting makes the test blind to order: the list is rebuilt exactly
      when the incoming ids are not the known ones, counted with
      repetition, or nothing is shown yet. */
  lemma RebuildsListExactly(known: seq<string>, incoming: seq<string>, children: nat)
    ensures RebuildsList(known, incoming, children) <==>
      incoming != [] && (multiset(known) != multiset(incoming) || children == 0)
  {
    if multiset(known) == multiset(incoming) {
      SortedUnique(Sort(known), Sort(incoming));
    }
  }
}
