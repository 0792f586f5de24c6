/** The JavaScript string operations the extension relies on
    (`toLowerCase`, `includes`, `startsWith`, `endsWith`, `indexOf`,
    `lastIndexOf`, `split`, `trim`, `replace`), written over `seq<char>`. */
module Strings {

  /** `toLowerCase` on one character; only the ASCII letters are mapped. */
  function LowerChar(c: char): char {
    if 'A' <= c <= 'Z' then (c as int + 32) as char else c
  }

  function Lower(s: string): (r: string)
    ensures |r| == |s|
    ensures forall i | 0 <= i < |s| :: r[i] == LowerChar(s[i])
  {
    if s == [] then [] else [LowerChar(s[0])] + Lower(s[1..])
  }

  lemma LowerIdempotent(s: string)
    ensures Lower(Lower(s)) == Lower(s)
  {
    forall i | 0 <= i < |s|
      ensures Lower(Lower(s))[i] == Lower(s)[i]
    {
      var c := s[i];
      assert LowerChar(LowerChar(c)) == LowerChar(c);
    }
  }

  /** A string with no upper-case ASCII letter is its own lower-case form. */
  lemma LowerOfLowerCase(s: string)
    requires forall i | 0 <= i < |s| :: !('A' <= s[i] <= 'Z')
    ensures Lower(s) == s
  {
  }

  predicate StartsWith(s: string, p: string) {
    |p| <= |s| && s[..|p|] == p
  }

  predicate EndsWith(s: string, p: string) {
    |p| <= |s| && s[|s| - |p|..] == p
  }

  /** `p` occurs in `s` starting at position `k`. */
  predicate OccursAt(s: string, p: string, k: int) {
    0 <= k && k + |p| <= |s| && s[k..k + |p|] == p
  }

  /** `s.includes(p)` */
  predicate Contains(s: string, p: string) {
    exists k | 0 <= k <= |s| - |p| :: OccursAt(s, p, k)
  }

  /** `pats.some(p => s.includes(p))` */
  predicate ContainsAny(s: string, pats: seq<string>) {
    pats != [] && (Contains(s, pats[0]) || ContainsAny(s, pats[1..]))
  }

  /** `sufs.some(e => s.endsWith(e))` */
  predicate EndsWithAny(s: string, sufs: seq<string>) {
    sufs != [] && (EndsWith(s, sufs[0]) || EndsWithAny(s, sufs[1..]))
  }

  lemma OccursAtContains(s: string, p: string, k: int)
    requires OccursAt(s, p, k)
    ensures Contains(s, p)
  {
  }

  lemma EndsWithContains(s: string, p: string)
    requires EndsWith(s, p)
    ensures Contains(s, p)
  {
    assert OccursAt(s, p, |s| - |p|);
  }

  lemma StartsWithContains(s: string, p: string)
    requires StartsWith(s, p)
    ensures Contains(s, p)
  {
    assert OccursAt(s, p, 0);
  }

  /** `some` holds as soon as one pattern is contained. */
  lemma {:induction false} ContainsAnyAt(s: string, pats: seq<string>, i: int)
    requires 0 <= i < |pats| && Contains(s, pats[i])
    ensures ContainsAny(s, pats)
  {
    if i > 0 {
      ContainsAnyAt(s, pats[1..], i - 1);
    }
  }

  /** `some` holds only when one pattern is contained. */
  lemma {:induction false} ContainsAnyWitness(s: string, pats: seq<string>) returns (i: int)
    requires ContainsAny(s, pats)
    ensures 0 <= i < |pats| && Contains(s, pats[i])
  {
    if Contains(s, pats[0]) {
      i := 0;
    } else {
      var j := ContainsAnyWitness(s, pats[1..]);
      i := j + 1;
    }
  }

  /** `some` over suffixes holds as soon as one suffix ends the string. */
  lemma {:induction false} EndsWithAnyAt(s: string, sufs: seq<string>, i: int)
    requires 0 <= i < |sufs| && EndsWith(s, sufs[i])
    ensures EndsWithAny(s, sufs)
  {
    if i > 0 {
      EndsWithAnyAt(s, sufs[1..], i - 1);
    }
  }

  /** `some` over suffixes holds only when one suffix ends the string. */
  lemma {:induction false} EndsWithAnyWitness(s: string, sufs: seq<string>) returns (i: int)
    requires EndsWithAny(s, sufs)
    ensures 0 <= i < |sufs| && EndsWith(s, sufs[i])
  {
    if EndsWith(s, sufs[0]) {
      i := 0;
    } else {
      var j := EndsWithAnyWitness(s, sufs[1..]);
      i := j + 1;
    }
  }

  /** If `q` sits inside `p` at offset `j`, every string containing `p`
      contains `q`. */
  lemma ContainsInner(s: string, p: string, q: string, j: int)
    requires Contains(s, p) && OccursAt(p, q, j)
    ensures Contains(s, q)
  {
    var k :| 0 <= k <= |s| - |p| && OccursAt(s, p, k);
    forall i | 0 <= i < |q|
      ensures s[k + j + i] == q[i]
    {
      assert q[i] == p[j..j + |q|][i] == p[j + i];
      assert p[j + i] == s[k..k + |p|][j + i];
    }
    assert s[k + j..k + j + |q|] == q;
    assert OccursAt(s, q, k + j);
  }

  /** A string cannot contain `p` when the character at position `j` of `p`
      is missing from it. */
  lemma MissingCharNotContains(s: string, p: string, j: int)
    requires 0 <= j < |p| && p[j] !in s
    ensures !Contains(s, p)
  {
    forall k | 0 <= k <= |s| - |p|
      ensures !OccursAt(s, p, k)
    {
      assert s[k..k + |p|][j] == s[k + j];
    }
  }

  /** Two suffixes of the same string: the shorter is a suffix of the longer. */
  lemma EndsWithBoth(s: string, a: string, b: string)
    requires EndsWith(s, a) && EndsWith(s, b) && |a| <= |b|
    ensures EndsWith(b, a)
  {
    assert b[|b| - |a|..] == s[|s| - |a|..];
  }

  /** Two strings neither of which ends the other cannot both end `s`. */
  lemma NotBothSuffixes(s: string, a: string, b: string)
    requires EndsWith(s, b) && !EndsWith(b, a) && !EndsWith(a, b)
    ensures !EndsWith(s, a)
  {
    if |a| <= |b| && |a| <= |s| {
      assert s[|s| - |a|..] == b[|b| - |a|..];
    }
    if |b| < |a| <= |s| {
      assert s[|s| - |a|..][|a| - |b|..] == b;
    }
  }

  lemma ContainsOfLonger(s: string, t: string, p: string)
    requires Contains(s, p)
    ensures Contains(s + t, p) && Contains(t + s, p)
  {
    var k :| 0 <= k <= |s| - |p| && OccursAt(s, p, k);
    assert (s + t)[k..k + |p|] == s[k..k + |p|];
    assert OccursAt(s + t, p, k);
    assert (t + s)[|t| + k..|t| + k + |p|] == s[k..k + |p|];
    assert OccursAt(t + s, p, |t| + k);
  }

  /** `s.indexOf(p)`: the first position at which `p` occurs, or -1. */
  function IndexOf(s: string, p: string): (k: int)
    ensures k == -1 || OccursAt(s, p, k)
    ensures k == -1 <==> !Contains(s, p)
    ensures k >= 0 ==> forall j | 0 <= j < k :: !OccursAt(s, p, j)
  {
    IndexFrom(s, p, 0)
  }

  /** An occurrence with none before it is the one `indexOf` finds. */
  lemma FirstOccurrence(s: string, p: string, k: int)
    requires OccursAt(s, p, k)
    requires forall j | 0 <= j < k :: !OccursAt(s, p, j)
    ensures IndexOf(s, p) == k
  {
  }

  function IndexFrom(s: string, p: string, from: nat): (k: int)
    ensures k == -1 || (from <= k && OccursAt(s, p, k))
    ensures k == -1 ==> forall j | from <= j :: !OccursAt(s, p, j)
    ensures k >= 0 ==> forall j | from <= j < k :: !OccursAt(s, p, j)
    decreases |s| - from
  {
    if from + |p| > |s| then -1
    else if OccursAt(s, p, from) then from
    else IndexFrom(s, p, from + 1)
  }

  /** `s.lastIndexOf(c)` for a one-character pattern. */
  function LastIndexOf(s: string, c: char): (k: int)
    ensures -1 <= k < |s|
    ensures k >= 0 ==> s[k] == c
    ensures forall j | k < j < |s| :: s[j] != c
  {
    if s == [] then -1
    else if s[|s| - 1] == c then |s| - 1
    else LastIndexOf(s[..|s| - 1], c)
  }

  /** `parts.join(c)` */
  function Join(parts: seq<string>, c: char): string {
    if parts == [] then ""
    else if |parts| == 1 then parts[0]
    else parts[0] + [c] + Join(parts[1..], c)
  }

  /** `s.split(c)` for a one-character separator. */
  function Split(s: string, c: char): (parts: seq<string>)
    ensures |parts| >= 1
    ensures forall i | 0 <= i < |parts| :: c !in parts[i]
  {
    if s == [] then [""]
    else
      var rest := Split(s[1..], c);
      if s[0] == c then [""] + rest else [[s[0]] + rest[0]] + rest[1..]
  }

  /** Joining the pieces of a split gives back the original string. */
  lemma {:induction false} JoinSplit(s: string, c: char)
    ensures Join(Split(s, c), c) == s
  {
    if s != [] {
      var rest := Split(s[1..], c);
      JoinSplit(s[1..], c);
      if s[0] == c {
        assert Split(s, c) == [""] + rest;
        assert ([""] + rest)[1..] == rest;
      } else {
        var parts := [[s[0]] + rest[0]] + rest[1..];
        assert Split(s, c) == parts;
        if |rest| == 1 {
          assert Join(parts, c) == [s[0]] + rest[0];
        } else {
          assert parts[1..] == rest[1..];
          assert Join(rest, c) == rest[0] + [c] + Join(rest[1..], c);
        }
        assert Join(parts, c) == [s[0]] + Join(rest, c);
      }
    }
  }

  lemma {:induction false} SplitNoSeparator(s: string, c: char)
    requires c !in s
    ensures Split(s, c) == [s]
  {
    if s != [] {
      assert c !in s[1..];
      SplitNoSeparator(s[1..], c);
      assert [s[0]] + s[1..] == s;
    }
  }

  lemma {:induction false} SplitAfterPiece(x: string, y: string, c: char)
    requires c !in x
    ensures Split(x + [c] + y, c) == [x] + Split(y, c)
  {
    if x == [] {
      assert x + [c] + y == [c] + y;
      assert ([c] + y)[1..] == y;
    } else {
      assert (x + [c] + y)[1..] == x[1..] + [c] + y;
      SplitAfterPiece(x[1..], y, c);
      assert [x[0]] + x[1..] == x;
    }
  }

  /** Splitting a join of separator-free pieces gives back the pieces. */
  lemma {:induction false} SplitJoin(parts: seq<string>, c: char)
    requires parts != []
    requires forall i | 0 <= i < |parts| :: c !in parts[i]
    ensures Split(Join(parts, c), c) == parts
  {
    if |parts| == 1 {
      SplitNoSeparator(parts[0], c);
    } else {
      SplitJoin(parts[1..], c);
      SplitAfterPiece(parts[0], Join(parts[1..], c), c);
      assert [parts[0]] + parts[1..] == parts;
    }
  }

  function Last<T>(s: seq<T>): T
    requires s != []
  {
    s[|s| - 1]
  }

  /** A split has a single piece exactly when the separator does not occur. */
  lemma {:induction false} SplitSingle(s: string, c: char)
    ensures |Split(s, c)| == 1 <==> c !in s
  {
    if s != [] {
      SplitSingle(s[1..], c);
      assert s == [s[0]] + s[1..];
    }
  }

  /** `s.split(c).pop()` is the text after the last separator. */
  lemma {:induction false} LastSplit(s: string, c: char)
    ensures Last(Split(s, c)) == s[LastIndexOf(s, c) + 1..]
  {
    if s != [] {
      LastSplit(s[1..], c);
      LastIndexOfTail(s, c);
      if s[0] == c {
        LastSplitAtSeparator(s, c);
      } else if c in s[1..] {
        LastSplitLaterSeparator(s, c);
      } else {
        LastSplitNoSeparator(s, c);
      }
    }
  }

  /** The last piece of `dir` + separator + `seg` is `seg` when `seg` holds
      no separator. */
  lemma LastPiece(dir: string, seg: string, c: char)
    requires c !in seg
    ensures Last(Split(dir + [c] + seg, c)) == seg
  {
    var s := dir + [c] + seg;
    assert s[|dir|] == c;
    assert LastIndexOf(s, c) == |dir| by {
      assert forall j | |dir| < j < |s| :: s[j] == seg[j - |dir| - 1];
    }
    LastSplit(s, c);
    assert s[|dir| + 1..] == seg;
  }

  lemma LastSplitAtSeparator(s: string, c: char)
    requires s != [] && s[0] == c
    requires Last(Split(s[1..], c)) == s[1..][LastIndexOf(s[1..], c) + 1..]
    requires LastIndexOf(s, c) == LastIndexOf(s[1..], c) + 1
    ensures Last(Split(s, c)) == s[LastIndexOf(s, c) + 1..]
  {
    var rest := Split(s[1..], c);
    assert Split(s, c) == [""] + rest;
  }

  lemma LastSplitLaterSeparator(s: string, c: char)
    requires s != [] && s[0] != c && c in s[1..]
    requires Last(Split(s[1..], c)) == s[1..][LastIndexOf(s[1..], c) + 1..]
    requires LastIndexOf(s, c) == LastIndexOf(s[1..], c) + 1
    ensures Last(Split(s, c)) == s[LastIndexOf(s, c) + 1..]
  {
    var rest := Split(s[1..], c);
    SplitSingle(s[1..], c);
    assert |rest| >= 2;
    var parts := [[s[0]] + rest[0]] + rest[1..];
    assert Split(s, c) == parts;
    assert Last(parts) == Last(rest);
    var k := LastIndexOf(s[1..], c);
    assert s[k + 2..] == s[1..][k + 1..];
  }

  lemma LastSplitNoSeparator(s: string, c: char)
    requires s != [] && s[0] != c && c !in s[1..]
    requires LastIndexOf(s, c) == -1
    ensures Last(Split(s, c)) == s[LastIndexOf(s, c) + 1..]
  {
    SplitNoSeparator(s[1..], c);
    assert Split(s, c) == [[s[0]] + s[1..]];
    assert s == [s[0]] + s[1..];
  }

  /** How the last separator of `s` relates to the last separator of its
      tail. */
  lemma LastIndexOfTail(s: string, c: char)
    requires s != []
    ensures c in s[1..] ==> LastIndexOf(s, c) == LastIndexOf(s[1..], c) + 1
    ensures c !in s[1..] ==> LastIndexOf(s[1..], c) == -1
    ensures c !in s[1..] ==> LastIndexOf(s, c) == (if s[0] == c then 0 else -1)
    ensures s[0] == c ==> LastIndexOf(s, c) == LastIndexOf(s[1..], c) + 1
  {
    var t := s[1..];
    var k := LastIndexOf(s, c);
    var k1 := LastIndexOf(t, c);
    if c in t {
      var j :| 0 <= j < |t| && t[j] == c;
      assert s[j + 1] == c;
      assert k1 >= 0 by {
        assert forall i | k1 < i < |t| :: t[i] != c;
      }
      assert s[k1 + 1] == c;
    } else {
      assert forall i | 0 <= i < |t| :: t[i] != c;
      assert forall i | 1 <= i < |s| :: s[i] == t[i - 1];
    }
  }

  /** The characters that `String.prototype.trim` and the regular-expression
      class `\s` treat as white space: ECMAScript's WhiteSpace (TAB, VT, FF,
      ZWNBSP and the Unicode space separators) and LineTerminator (LF, CR,
      LS, PS). */
  predicate IsSpace(c: char) {
    c == ' ' || c == '\t' || c == '\n' || c == '\r' || c == '\U{B}' || c == '\U{C}'
    || c == '\U{A0}' || c == '\U{1680}' || ('\U{2000}' <= c <= '\U{200A}')
    || c == '\U{2028}' || c == '\U{2029}' || c == '\U{202F}' || c == '\U{205F}'
    || c == '\U{3000}' || c == '\U{FEFF}'
  }

  function TrimStart(s: string): (r: string)
    ensures |r| <= |s| && r == s[|s| - |r|..]
    ensures forall i | 0 <= i < |s| - |r| :: IsSpace(s[i])
    ensures r != [] ==> !IsSpace(r[0])
  {
    if s != [] && IsSpace(s[0]) then TrimStart(s[1..]) else s
  }

  function TrimEnd(s: string): (r: string)
    ensures |r| <= |s| && r == s[..|r|]
    ensures forall i | |r| <= i < |s| :: IsSpace(s[i])
    ensures r != [] ==> !IsSpace(r[|r| - 1])
  {
    if s != [] && IsSpace(s[|s| - 1]) then TrimEnd(s[..|s| - 1]) else s
  }

  /** `s.trim()`: the longest infix that neither starts nor ends with white
      space; empty exactly when `s` is all white space. */
  function Trim(s: string): (r: string)
    ensures r == [] <==> forall i | 0 <= i < |s| :: IsSpace(s[i])
    ensures r != [] ==> !IsSpace(r[0]) && !IsSpace(r[|r| - 1])
  {
    TrimEmpty(s);
    TrimEnd(TrimStart(s))
  }

  lemma TrimEmpty(s: string)
    ensures TrimEnd(TrimStart(s)) == [] <==> forall i | 0 <= i < |s| :: IsSpace(s[i])
    ensures TrimEnd(TrimStart(s)) != [] ==> !IsSpace(TrimEnd(TrimStart(s))[0])
  {
    var t := TrimStart(s);
    var r := TrimEnd(t);
    if r == [] {
      assert |t| == 0;
    } else {
      assert r[0] == t[0];
      assert t[0] == s[|s| - |t|];
    }
  }

  /** A string that neither starts nor ends with white space is unchanged
      by `trim`. */
  lemma TrimClean(s: string)
    requires s != [] ==> !IsSpace(s[0]) && !IsSpace(s[|s| - 1])
    ensures Trim(s) == s
  {
    assert TrimStart(s) == s;
  }

  /** The trimmed text is an infix of the original. */
  lemma TrimInfix(s: string)
    ensures Contains(s, Trim(s))
  {
    var t := TrimStart(s);
    var r := TrimEnd(t);
    assert Trim(s) == r;
    var k := |s| - |t|;
    assert s[k..k + |r|] == t[..|r|];
    assert OccursAt(s, r, k);
  }

  /** `s.replace(/[...]/g, fill)` for a character class: every character of
      `bad` becomes `fill`, every other character is kept. */
  function ReplaceChars(s: string, bad: char -> bool, fill: char): (r: string)
    ensures |r| == |s|
    ensures forall i | 0 <= i < |s| :: r[i] == (if bad(s[i]) then fill else s[i])
  {
    if s == [] then [] else [if bad(s[0]) then fill else s[0]] + ReplaceChars(s[1..], bad, fill)
  }

  /** `s.replace(p, "")` with a string pattern: only the first occurrence
      of `p` is removed. */
  function RemoveFirst(s: string, p: string): string {
    var k := IndexOf(s, p);
    if k < 0 then s else s[..k] + s[k + |p|..]
  }

  /** `s.substring(from, to)` with indices already in range. */
  function Substring(s: string, from: int, to: int): string
    requires 0 <= from <= to <= |s|
  {
    s[from..to]
  }
}
