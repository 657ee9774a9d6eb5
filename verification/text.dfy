/** The JavaScript string operations the application relies on: `trim`,
    `indexOf` / `includes`, `split` and `join`. */
module Text {
  import opened Common

  /** The characters `trim` removes: ECMAScript white space (tab, vertical
      tab, form feed, space, no-break space, the byte order mark and the
      Unicode space separators) and line terminators. */
  predicate IsSpace(c: char)
  {
    var n := c as int;
    (0x09 <= n <= 0x0D) || n == 0x20 || n == 0xA0 || n == 0x1680 || (0x2000 <= n <= 0x200A)
    || n == 0x2028 || n == 0x2029 || n == 0x202F || n == 0x205F || n == 0x3000 || n == 0xFEFF
  }

  /** Every character of `s` from index `lo` up to (not including) `hi` is
      white space. */
  predicate SpaceBetween(s: string, lo: nat, hi: nat)
  {
    forall k :: lo <= k < hi && k < |s| ==> IsSpace(s[k])
  }

  /** Every character of `s` is white space. */
  predicate AllSpace(s: string)
  {
    SpaceBetween(s, 0, |s|)
  }

  /** The first index at or after `i` that is not white space (`|s|` when
      there is none). */
  function SkipLeading(s: string, i: nat): (k: nat)
    requires i <= |s|
    ensures i <= k <= |s| && SpaceBetween(s, i, k)
    ensures k < |s| ==> !IsSpace(s[k])
    decreases |s| - i
  {
    if i < |s| && IsSpace(s[i]) then SkipLeading(s, i + 1) else i
  }

  /** The end of `s[lo..j]` once its trailing white space is dropped. */
  function SkipTrailing(s: string, lo: nat, j: nat): (k: nat)
    requires lo <= j <= |s|
    ensures lo <= k <= j && SpaceBetween(s, k, j)
    ensures k > lo ==> !IsSpace(s[k - 1])
    decreases j - lo
  {
    if j > lo && IsSpace(s[j - 1]) then SkipTrailing(s, lo, j - 1) else j
  }

  /** `s.trim()`: the middle of `s` between a white-space prefix and a
      white-space suffix, neither starting nor ending with white space. */
  function Trim(s: string): (r: string)
    ensures exists i, j :: 0 <= i <= j <= |s| && r == s[i..j] && SpaceBetween(s, 0, i) && SpaceBetween(s, j, |s|)
    ensures r != [] ==> !IsSpace(r[0]) && !IsSpace(r[|r| - 1])
  {
    var i := SkipLeading(s, 0);
    var j := SkipTrailing(s, i, |s|);
    s[i..j]
  }

  /** A string trims to nothing exactly when it is all white space. */
  lemma TrimEmpty(s: string)
    ensures Trim(s) == "" <==> AllSpace(s)
  {
    var i := SkipLeading(s, 0);
    var j := SkipTrailing(s, i, |s|);
    if AllSpace(s) {
      assert i == |s|;
    }
  }

  /** Trimming twice is trimming once. */
  lemma TrimIdempotent(s: string)
    ensures Trim(Trim(s)) == Trim(s)
  {
    var r := Trim(s);
    if r != [] {
      assert SkipLeading(r, 0) == 0;
      assert SkipTrailing(r, 0, |r|) == |r|;
      assert r[0..|r|] == r;
    }
  }

  // ---------------------------------------------------------------------
  // Searching
  // ---------------------------------------------------------------------

  /** `sub` occurs in `s` starting at index `k`. */
  predicate OccursAt(s: string, sub: string, k: nat)
  {
    k + |sub| <= |s| && s[k..k + |sub|] == sub
  }

  /** Occurrences in the tail are the occurrences one position further on. */
  lemma OccursInTail(s: string, sub: string, k: nat)
    requires s != []
    ensures OccursAt(s, sub, k + 1) <==> OccursAt(s[1..], sub, k)
  {
    if k + 1 + |sub| <= |s| {
      assert s[k + 1..k + 1 + |sub|] == s[1..][k..k + |sub|];
    }
  }

  /** `s.indexOf(sub)`: the first position where `sub` occurs, if any. */
  function IndexOf(s: string, sub: string): (r: Option<nat>)
    ensures r.Some? ==> OccursAt(s, sub, r.value)
    ensures r.Some? ==> forall k: nat :: k < r.value ==> !OccursAt(s, sub, k)
    ensures r.None? ==> forall k: nat :: !OccursAt(s, sub, k)
    decreases |s|
  {
    if |sub| > |s| then
      None
    else if s[..|sub|] == sub then
      Some(0)
    else
      var r := IndexOf(s[1..], sub);
      forall k: nat ensures OccursAt(s, sub, k + 1) <==> OccursAt(s[1..], sub, k) {
        OccursInTail(s, sub, k);
      }
      if r.Some? then
        forall k: nat | 0 < k < r.value + 1 ensures !OccursAt(s, sub, k) {
          assert !OccursAt(s[1..], sub, k - 1);
        }
        Some(r.value + 1)
      else
        forall k: nat | k > 0 ensures !OccursAt(s, sub, k) {
          assert !OccursAt(s[1..], sub, k - 1);
        }
        None
  }

  /** `s.includes(sub)`. */
  function Includes(s: string, sub: string): (r: bool)
    ensures r <==> exists k: nat :: OccursAt(s, sub, k)
  {
    IndexOf(s, sub).Some?
  }

  // ---------------------------------------------------------------------
  // Joining and splitting
  // ---------------------------------------------------------------------

  /** `parts.join(sep)`. */
  function Join(parts: seq<string>, sep: char): (s: string)
    ensures parts == [] ==> s == ""
    ensures |parts| == 1 ==> s == parts[0]
    decreases |parts|
  {
    if parts == [] then ""
    else if |parts| == 1 then parts[0]
    else parts[0] + [sep] + Join(parts[1..], sep)
  }

  /** The position of the first `sep` in `s`. */
  function SepIndex(s: string, sep: char): (i: nat)
    requires sep in s
    ensures i < |s| && s[i] == sep && sep !in s[..i]
    decreases |s|
  {
    if s[0] == sep then 0
    else
      assert s == [s[0]] + s[1..];
      var j := SepIndex(s[1..], sep);
      assert s[..j + 1] == [s[0]] + s[1..][..j];
      j + 1
  }

  /** `s.split(sep)`: the text before the first separator, then the split
      of the rest; a string without the separator (the empty string
      included) is its own only piece. */
  function Split(s: string, sep: char): (parts: seq<string>)
    ensures |parts| >= 1
    ensures |parts| == 1 <==> sep !in s
    ensures |parts| == 1 ==> parts[0] == s
    decreases |s|
  {
    if sep !in s then [s]
    else
      var i := SepIndex(s, sep);
      [s[..i]] + Split(s[i + 1..], sep)
  }

  /** A piece without the separator, the separator, then the rest: the
      piece comes first and the rest splits on its own. */
  lemma SplitAt(piece: string, rest: string, sep: char)
    requires sep !in piece
    ensures Split(piece + [sep] + rest, sep) == [piece] + Split(rest, sep)
  {
    var s := piece + [sep] + rest;
    assert s[|piece|] == sep;
    var i := SepIndex(s, sep);
    assert forall k :: 0 <= k < |piece| ==> s[k] == piece[k];
    assert forall k :: 0 <= k < i ==> s[..i][k] == s[k];
    assert i == |piece|;
    assert s[..i] == piece;
    assert s[i + 1..] == rest;
  }

  /** `s.split(sep).pop()`. */
  function LastPiece(s: string, sep: char): string
  {
    var parts := Split(s, sep);
    parts[|parts| - 1]
  }

  /** The last piece of a split is the text after the last separator, or
      the whole string when there is none. */
  lemma {:induction false} SplitLast(s: string, sep: char)
    ensures |LastPiece(s, sep)| <= |s|
    ensures LastPiece(s, sep) == s[|s| - |LastPiece(s, sep)|..]
    ensures sep !in LastPiece(s, sep)
    ensures |LastPiece(s, sep)| < |s| ==> s[|s| - |LastPiece(s, sep)| - 1] == sep
    decreases |s|
  {
    if sep in s {
      var i := SepIndex(s, sep);
      var rest := s[i + 1..];
      SplitLast(rest, sep);
      var last := LastPiece(rest, sep);
      assert LastPiece(s, sep) == last;
      assert rest[|rest| - |last|..] == s[|s| - |last|..];
      if |last| < |rest| {
        assert rest[|rest| - |last| - 1] == s[|s| - |last| - 1];
      } else {
        assert s[|s| - |last| - 1] == s[i];
      }
    }
  }

  /** Splitting undoes joining when no piece contains the separator. */
  lemma {:induction false} SplitJoin(parts: seq<string>, sep: char)
    requires parts != []
    requires forall p :: p in parts ==> sep !in p
    ensures Split(Join(parts, sep), sep) == parts
    decreases |parts|
  {
    assert parts[0] in parts;
    if |parts| > 1 {
      SplitJoin(parts[1..], sep);
      SplitAt(parts[0], Join(parts[1..], sep), sep);
      assert [parts[0]] + parts[1..] == parts;
    }
  }
}
