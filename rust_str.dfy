/** The pieces of Rust's `str` API that the browser uses on URLs and HTTP
    responses: `find`, `split`, `splitn`, `rsplitn`, `trim` and
    `to_lowercase`, written over `seq<char>`. */
module RustStr {
  import opened Wrappers

  /** `sep` occurs in `s` at index `i`. */
  predicate OccursAt(s: string, sep: string, i: int) {
    0 <= i && i + |sep| <= |s| && s[i..i + |sep|] == sep
  }

  /** No occurrence of `sep` in `s` starts at an index in `[lo, hi)`. */
  predicate NoneBetween(s: string, sep: string, lo: int, hi: int) {
    forall j :: lo <= j < hi ==> !OccursAt(s, sep, j)
  }

  /** `p` is the text of `s` before the leftmost occurrence of `sep`, or all
      of `s` when `sep` does not occur: the first piece `split` yields. */
  predicate FirstPiece(s: string, sep: string, p: string) {
    && p <= s
    && NoneBetween(s, sep, 0, |p|)
    && (p == s || OccursAt(s, sep, |p|))
  }

  /** Leftmost occurrence of `sep` at or after index `k`; what makes it the
      leftmost is `FindFromSpec`. */
  function FindFrom(s: string, sep: string, k: nat): (r: Option<nat>)
    ensures r.Some? ==> k <= r.value && r.value + |sep| <= |s|
    decreases |s| - k
  {
    if k + |sep| > |s| then None
    else if s[k..k + |sep|] == sep then Some(k)
    else FindFrom(s, sep, k + 1)
  }

  lemma {:induction false} FindFromSpec(s: string, sep: string, k: nat)
    ensures var r := FindFrom(s, sep, k);
      && (r.Some? ==> OccursAt(s, sep, r.value) && NoneBetween(s, sep, k, r.value))
      && (r.None? ==> NoneBetween(s, sep, k, |s| + 1))
    decreases |s| - k
  {
    if k + |sep| <= |s| && s[k..k + |sep|] != sep {
      FindFromSpec(s, sep, k + 1);
    }
  }

  /** `str::find`: the index of the leftmost occurrence of `sep`. */
  function Find(s: string, sep: string): (r: Option<nat>)
    ensures r.Some? ==> r.value + |sep| <= |s|
  {
    FindFrom(s, sep, 0)
  }

  /** The index `Find` returns is the leftmost occurrence, and `None` means
      there is none. */
  lemma FindSpec(s: string, sep: string)
    ensures var r := Find(s, sep);
      && (r.Some? ==> OccursAt(s, sep, r.value) && FirstPiece(s, sep, s[..r.value]))
      && (r.None? ==> NoneBetween(s, sep, 0, |s| + 1))
  {
    FindFromSpec(s, sep, 0);
  }

  /** The first piece is determined by `s` and `sep`, and `Find` locates it. */
  lemma FindFirstPiece(s: string, sep: string, p: string)
    requires |sep| > 0 && FirstPiece(s, sep, p)
    ensures Find(s, sep) == if p == s then None else Some(|p|)
  {
    FindSpec(s, sep);
  }

  /** `str::split(sep)`: the pieces between the non-overlapping occurrences of
      `sep`, found from the left. */
  function Split(s: string, sep: string): (r: seq<string>)
    requires |sep| > 0
    ensures |r| >= 1
    decreases |s|
  {
    match Find(s, sep)
    case None => [s]
    case Some(i) => [s[..i]] + Split(s[i + |sep|..], sep)
  }

  /** `str::splitn(n, sep)`: as `split`, but at most `n` pieces; the last one
      holds the rest of the text. */
  function SplitN(s: string, n: nat, sep: string): (r: seq<string>)
    requires |sep| > 0
    ensures |r| <= n
    ensures n > 0 ==> |r| >= 1
    decreases n
  {
    if n == 0 then []
    else if n == 1 then [s]
    else match Find(s, sep)
      case None => [s]
      case Some(i) => [s[..i]] + SplitN(s[i + |sep|..], n - 1, sep)
  }

  /** Joins pieces with `sep` between each pair: the inverse of splitting. */
  function Join(parts: seq<string>, sep: string): (s: string)
    decreases |parts|
  {
    if |parts| == 0 then []
    else if |parts| == 1 then parts[0]
    else parts[0] + sep + Join(parts[1..], sep)
  }

  /** Splitting at a first piece `p` that is not the whole text. */
  lemma SplitAt(s: string, sep: string, p: string)
    requires |sep| > 0 && FirstPiece(s, sep, p) && p != s
    ensures Split(s, sep) == [p] + Split(s[|p| + |sep|..], sep)
  {
    FindFirstPiece(s, sep, p);
    assert s[..|p|] == p;
  }

  /** Splitting a text in which `sep` does not occur. */
  lemma SplitWhole(s: string, sep: string)
    requires |sep| > 0 && FirstPiece(s, sep, s)
    ensures Split(s, sep) == [s]
  {
    FindFirstPiece(s, sep, s);
  }

  /** The first piece of `split` is the text before the leftmost separator. */
  lemma SplitHead(s: string, sep: string)
    requires |sep| > 0
    ensures FirstPiece(s, sep, Split(s, sep)[0])
  {
    FindSpec(s, sep);
  }

  /** `splitn` at a first piece `p` that is not the whole text. */
  lemma SplitNAt(s: string, n: nat, sep: string, p: string)
    requires |sep| > 0 && n >= 2 && FirstPiece(s, sep, p) && p != s
    ensures SplitN(s, n, sep) == [p] + SplitN(s[|p| + |sep|..], n - 1, sep)
  {
    FindFirstPiece(s, sep, p);
    assert s[..|p|] == p;
  }

  /** `splitn` of a text in which `sep` does not occur. */
  lemma SplitNWhole(s: string, n: nat, sep: string)
    requires |sep| > 0 && n >= 1 && FirstPiece(s, sep, s)
    ensures SplitN(s, n, sep) == [s]
  {
    FindFirstPiece(s, sep, s);
  }

  /** Round trip: joining the pieces of `split` gives back the text. */
  lemma {:induction false} JoinSplit(s: string, sep: string)
    requires |sep| > 0
    ensures Join(Split(s, sep), sep) == s
    decreases |s|
  {
    if Find(s, sep).Some? {
      var i := Find(s, sep).value;
      var tail := s[i + |sep|..];
      var rest := Split(tail, sep);
      assert Split(s, sep) == [s[..i]] + rest;
      JoinSplit(tail, sep);
      JoinCons(s[..i], rest, sep);
      FindSpec(s, sep);
      CutAt(s, sep, i);
    }
  }

  /** No piece of `split` contains the separator. */
  lemma {:induction false} SplitPiecesFree(s: string, sep: string)
    requires |sep| > 0
    ensures forall k :: 0 <= k < |Split(s, sep)| ==>
      NoneBetween(Split(s, sep)[k], sep, 0, |Split(s, sep)[k]| + 1)
    decreases |s|
  {
    var parts := Split(s, sep);
    FindSpec(s, sep);
    match Find(s, sep)
    case None =>
    case Some(i) =>
      var tail := s[i + |sep|..];
      SplitPiecesFree(tail, sep);
      assert parts == [s[..i]] + Split(tail, sep);
      forall j | 0 <= j < |s[..i]| + 1
        ensures !OccursAt(s[..i], sep, j)
      {
        if j + |sep| <= i {
          assert !OccursAt(s, sep, j);
          assert s[..i][j..j + |sep|] == s[j..j + |sep|];
        }
      }
      forall k | 0 <= k < |parts|
        ensures NoneBetween(parts[k], sep, 0, |parts[k]| + 1)
      {
        if k > 0 {
          assert parts[k] == Split(tail, sep)[k - 1];
        }
      }
  }

  /** Round trip for `splitn`, whatever the limit. */
  lemma {:induction false} JoinSplitN(s: string, n: nat, sep: string)
    requires |sep| > 0 && n >= 1
    ensures Join(SplitN(s, n, sep), sep) == s
    decreases n
  {
    if n >= 2 && Find(s, sep).Some? {
      var i := Find(s, sep).value;
      var tail := s[i + |sep|..];
      var rest := SplitN(tail, n - 1, sep);
      assert SplitN(s, n, sep) == [s[..i]] + rest;
      JoinSplitN(tail, n - 1, sep);
      JoinCons(s[..i], rest, sep);
      FindSpec(s, sep);
      CutAt(s, sep, i);
    }
  }

  /** Joining a piece in front of at least one other. */
  lemma JoinCons(p: string, rest: seq<string>, sep: string)
    requires |rest| >= 1
    ensures Join([p] + rest, sep) == p + sep + Join(rest, sep)
  {
    assert ([p] + rest)[1..] == rest;
  }

  /** A text is the part before an occurrence of `sep`, `sep`, and the part
      after it. */
  lemma CutAt(s: string, sep: string, i: int)
    requires OccursAt(s, sep, i)
    ensures s == s[..i] + sep + s[i + |sep|..]
  {
    assert s[..i] + sep + s[i + |sep|..] == s[..i] + s[i..i + |sep|] + s[i + |sep|..];
  }

  /** For a one-character separator, the first piece is the text before the
      first occurrence of that character. */
  lemma FirstPieceChar(s: string, c: char, p: string)
    requires p <= s && c !in p && (p == s || s[|p|] == c)
    ensures FirstPiece(s, [c], p)
  {
    forall j | 0 <= j < |p|
      ensures !OccursAt(s, [c], j)
    {
      assert s[j] == p[j];
    }
    if p != s {
      assert s[|p|..|p| + 1] == [c];
    }
  }

  /** The index of the first `c` in `s`, if any. */
  function FirstIndex(s: string, c: char): (r: Option<nat>)
    ensures r.Some? ==> r.value < |s| && s[r.value] == c && c !in s[..r.value]
    ensures r.None? <==> c !in s
    decreases |s|
  {
    if s == [] then None
    else if s[0] == c then Some(0)
    else
      var r := FirstIndex(s[1..], c);
      assert s == [s[0]] + s[1..];
      if r.None? then None
      else
        assert s[..r.value + 1] == [s[0]] + s[1..][..r.value];
        Some(r.value + 1)
  }

  /** `splitn` with a one-character separator on a text whose first `c`
      follows `p`. */
  lemma SplitNAtChar(p: string, c: char, rest: string, n: nat)
    requires c !in p && n >= 2
    ensures SplitN(p + [c] + rest, n, [c]) == [p] + SplitN(rest, n - 1, [c])
  {
    var s := p + [c] + rest;
    FirstPieceChar(s, c, p);
    SplitNAt(s, n, [c], p);
    assert s[|p| + 1..] == rest;
  }

  /** `splitn(2, c)` on a text holding `c` cuts it at the first `c`. */
  lemma SplitNTwoChar(s: string, c: char)
    requires c in s
    ensures var parts := SplitN(s, 2, [c]);
      |parts| == 2 && s == parts[0] + [c] + parts[1] && c !in parts[0]
  {
    var i := FirstIndex(s, c).value;
    assert s == s[..i] + [c] + s[i + 1..];
    SplitNAtChar(s[..i], c, s[i + 1..], 2);
  }

  /** `splitn(2, c)` yields two pieces exactly when `c` occurs. */
  lemma SplitNTwoCharCount(s: string, c: char)
    ensures |SplitN(s, 2, [c])| == if c in s then 2 else 1
  {
    if c in s {
      SplitNTwoChar(s, c);
    } else {
      FirstPieceChar(s, c, s);
      SplitNWhole(s, 2, [c]);
    }
  }

  /** There is only one first piece. */
  lemma FirstPieceUnique(s: string, sep: string, p: string, q: string)
    requires |sep| > 0 && FirstPiece(s, sep, p) && FirstPiece(s, sep, q)
    ensures p == q
  {
    FindFirstPiece(s, sep, p);
    FindFirstPiece(s, sep, q);
  }

  /** Index of the last occurrence of `c`. */
  function LastIndex(s: string, c: char): (r: Option<nat>)
    ensures r.Some? ==> r.value < |s| && s[r.value] == c && c !in s[r.value + 1..]
    ensures r.None? <==> c !in s
    decreases |s|
  {
    if s == [] then None
    else if s[|s| - 1] == c then Some(|s| - 1)
    else
      var r := LastIndex(s[..|s| - 1], c);
      assert s == s[..|s| - 1] + [s[|s| - 1]];
      r
  }

  /** `str::rsplitn(n, c)`: pieces cut at the last occurrences of `c`, the
      rightmost piece first; the last piece holds the rest of the text. */
  function RSplitN(s: string, n: nat, c: char): (r: seq<string>)
    ensures |r| <= n
    ensures n > 0 ==> |r| >= 1
    decreases n
  {
    if n == 0 then []
    else if n == 1 then [s]
    else match LastIndex(s, c)
      case None => [s]
      case Some(i) => [s[i + 1..]] + RSplitN(s[..i], n - 1, c)
  }

  /** `rsplitn(2, c)` on a text holding `c` cuts it at the last `c`. */
  lemma RSplitNTwoChar(s: string, c: char)
    requires c in s
    ensures var parts := RSplitN(s, 2, c);
      |parts| == 2 && s == parts[1] + [c] + parts[0] && c !in parts[0]
  {
    var i := LastIndex(s, c).value;
    assert s == s[..i] + [c] + s[i + 1..];
  }

  /** `char::is_whitespace`: the Unicode White_Space property. */
  predicate IsWhitespace(c: char) {
    var n := c as int;
    || 0x09 <= n <= 0x0D || n == 0x20 || n == 0x85 || n == 0xA0 || n == 0x1680
    || 0x2000 <= n <= 0x200A || n == 0x2028 || n == 0x2029 || n == 0x202F
    || n == 0x205F || n == 0x3000
  }

  /** Neither end of `s` is whitespace. */
  predicate Trimmed(s: string) {
    s == [] || (!IsWhitespace(s[0]) && !IsWhitespace(s[|s| - 1]))
  }

  /** The index of the first character at or after `i` that is not
      whitespace, or `|s|` when there is none. */
  function SkipWhitespace(s: string, i: nat): (n: nat)
    requires i <= |s|
    ensures i <= n <= |s| && (n == |s| || !IsWhitespace(s[n]))
    ensures forall k :: i <= k < n ==> IsWhitespace(s[k])
    decreases |s| - i
  {
    if i < |s| && IsWhitespace(s[i]) then SkipWhitespace(s, i + 1) else i
  }

  /** Going back from `j` to no further than `lo`: the index just past the
      last character that is not whitespace, or `lo` when there is none. */
  function SkipWhitespaceBack(s: string, lo: nat, j: nat): (n: nat)
    requires lo <= j <= |s|
    ensures lo <= n <= j && (n == lo || !IsWhitespace(s[n - 1]))
    ensures forall k :: n <= k < j ==> IsWhitespace(s[k])
    decreases j
  {
    if lo < j && IsWhitespace(s[j - 1]) then SkipWhitespaceBack(s, lo, j - 1) else j
  }

  /** Number of whitespace characters `trim` drops from the front of `s`. */
  function TrimOffset(s: string): (n: nat)
    ensures n <= |s|
  {
    SkipWhitespace(s, 0)
  }

  /** `str::trim`: the slice of `s` left after dropping whitespace from both
      ends (`trim_start`, then `trim_end`). */
  function Trim(s: string): (r: string)
    ensures Trimmed(r)
    ensures TrimOffset(s) + |r| <= |s| && r == s[TrimOffset(s)..TrimOffset(s) + |r|]
    ensures forall k :: 0 <= k < TrimOffset(s) ==> IsWhitespace(s[k])
    ensures forall k :: TrimOffset(s) + |r| <= k < |s| ==> IsWhitespace(s[k])
  {
    var start := TrimOffset(s);
    s[start..SkipWhitespaceBack(s, start, |s|)]
  }

  /** An ASCII upper-case letter. */
  predicate IsAsciiUpper(c: char) {
    'A' <= c <= 'Z'
  }

  /** No ASCII upper-case letter in `s`. */
  predicate NoAsciiUpper(s: string) {
    forall k :: 0 <= k < |s| ==> !IsAsciiUpper(s[k])
  }

  function LowerChar(c: char): (d: char) {
    if IsAsciiUpper(c) then (c as int + 32) as char else c
  }

  /** `str::to_lowercase`, for the ASCII letters: every upper-case letter
      becomes its lower-case letter and every other character is kept. */
  function Lower(s: string): (r: string)
    ensures |r| == |s|
    decreases |s|
  {
    if s == [] then [] else [LowerChar(s[0])] + Lower(s[1..])
  }

  /** What `Lower` does, character by character: each upper-case letter
      `A`-`Z` becomes its lower-case letter (32 code points on), so none is
      left; every other character is kept, and whitespace stays whitespace. */
  lemma {:induction false} LowerSpec(s: string)
    ensures NoAsciiUpper(Lower(s))
    ensures forall k :: 0 <= k < |s| && !IsAsciiUpper(s[k]) ==> Lower(s)[k] == s[k]
    ensures forall k :: 0 <= k < |s| && IsAsciiUpper(s[k]) ==> Lower(s)[k] as int == s[k] as int + 32
    ensures forall k :: 0 <= k < |s| ==> (IsWhitespace(Lower(s)[k]) <==> IsWhitespace(s[k]))
    decreases |s|
  {
    if s != [] {
      LowerSpec(s[1..]);
      assert Lower(s) == [LowerChar(s[0])] + Lower(s[1..]);
      forall k | 0 < k < |s|
        ensures Lower(s)[k] == Lower(s[1..])[k - 1] && s[k] == s[1..][k - 1]
      {
      }
    }
  }
}
