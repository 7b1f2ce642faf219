/** The JavaScript string and number primitives the image-upload and
    form-validation utilities are built from: `indexOf`, `includes`,
    `split`, `join`, `toLowerCase`, `trim`, `padStart`, `length` and
    `Number.prototype.toString`, each stated on Dafny strings (sequences of
    Unicode scalar values). */
module Text {

  // ----- Occurrences of a separator -----

  /** `m` occurs in `s` starting at index `i`. */
  predicate IsAt(s: string, i: int, m: string) {
    0 <= i && i + |m| <= |s| && s[i..i + |m|] == m
  }

  /** `s.startsWith(p)`. */
  predicate StartsWith(s: string, p: string) {
    |p| <= |s| && s[..|p|] == p
  }

  /** `s.includes(m)`. */
  predicate Contains(s: string, m: string) {
    exists i | 0 <= i <= |s| :: IsAt(s, i, m)
  }

  /** `startsWith` compares the first `|p|` characters one by one. */
  lemma StartsWithPointwise(s: string, p: string)
    ensures StartsWith(s, p) <==> |p| <= |s| && forall i :: 0 <= i < |p| ==> s[i] == p[i]
  {
    if |p| <= |s| && forall i :: 0 <= i < |p| ==> s[i] == p[i] {
      assert s[..|p|] == p;
    }
  }

  lemma IsAtShift(s: string, j: int, m: string)
    requires |s| > 0 && 0 <= j
    ensures IsAt(s[1..], j, m) <==> IsAt(s, j + 1, m)
  {
    if j + |m| <= |s| - 1 {
      assert s[1..][j..j + |m|] == s[j + 1..j + 1 + |m|];
    }
  }

  /** `s.indexOf(m)` for a non-empty `m`: the first index at which `m`
      occurs, or -1 when it occurs nowhere. */
  function IndexOf(s: string, m: string): (r: int)
    requires |m| > 0
    ensures -1 <= r <= |s|
    ensures r >= 0 ==> IsAt(s, r, m)
    ensures forall j :: 0 <= j && (r < 0 || j < r) ==> !IsAt(s, j, m)
    decreases |s|
  {
    if |s| < |m| then -1
    else if s[..|m|] == m then 0
    else
      var k := IndexOf(s[1..], m);
      assert forall j :: 1 <= j ==> (IsAt(s, j, m) <==> IsAt(s[1..], j - 1, m)) by {
        forall j | 1 <= j ensures IsAt(s, j, m) <==> IsAt(s[1..], j - 1, m) {
          IsAtShift(s, j - 1, m);
        }
      }
      assert !IsAt(s, 0, m);
      if k < 0 then -1 else k + 1
  }

  lemma IndexOfAbsent(s: string, m: string)
    requires |m| > 0
    ensures IndexOf(s, m) < 0 <==> !Contains(s, m)
  {
  }

  /** A prefix of `s` holds no occurrence that `s` does not. */
  lemma IsAtPrefix(s: string, n: int, j: int, m: string)
    requires 0 <= n <= |s|
    requires IsAt(s[..n], j, m)
    ensures IsAt(s, j, m)
  {
    assert s[..n][j..j + |m|] == s[j..j + |m|];
  }

  /** An occurrence in a suffix of `s` is an occurrence in `s`. */
  lemma IsAtSuffix(s: string, n: int, j: int, m: string)
    requires 0 <= n <= |s|
    requires IsAt(s[n..], j, m)
    ensures IsAt(s, n + j, m)
  {
    assert s[n..][j..j + |m|] == s[n + j..n + j + |m|];
  }

  /** An occurrence that ends within the first `n` characters is an
      occurrence in `s[..n]`. */
  lemma IsAtInPrefix(s: string, n: int, j: int, m: string)
    requires IsAt(s, j, m) && j + |m| <= n <= |s|
    ensures IsAt(s[..n], j, m)
  {
    assert s[..n][j..j + |m|] == s[j..j + |m|];
  }

  lemma PrefixWithout(s: string, n: int, m: string)
    requires !Contains(s, m) && 0 <= n <= |s|
    ensures !Contains(s[..n], m)
  {
    forall j | 0 <= j <= n && IsAt(s[..n], j, m) ensures false {
      IsAtPrefix(s, n, j, m);
    }
  }

  lemma SuffixWithout(s: string, n: int, m: string)
    requires !Contains(s, m) && 0 <= n <= |s|
    ensures !Contains(s[n..], m)
  {
    forall j | 0 <= j <= |s| - n && IsAt(s[n..], j, m) ensures false {
      IsAtSuffix(s, n, j, m);
    }
  }

  /** Appending text that lacks the last character of `m` creates no new
      occurrence of `m`. */
  lemma AppendWithoutLast(a: string, b: string, m: string)
    requires |m| > 0 && m[|m| - 1] !in b
    ensures Contains(a + b, m) ==> Contains(a, m)
  {
    var s := a + b;
    forall j | IsAt(s, j, m) ensures IsAt(a, j, m) {
      assert forall i :: |a| <= i < |s| ==> s[i] == b[i - |a|] != m[|m| - 1];
      assert s[j + |m| - 1] == m[|m| - 1];
      assert s[j..j + |m|] == a[j..j + |m|];
    }
  }

  /** Joining two texts with a character that `m` does not hold creates no
      new occurrence of `m`. */
  lemma JoinWithout(a: string, c: char, b: string, m: string)
    requires c !in m
    ensures Contains(a + [c] + b, m) ==> Contains(a, m) || Contains(b, m)
  {
    var s := a + [c] + b;
    forall j | IsAt(s, j, m) ensures IsAt(a, j, m) || IsAt(b, j - |a| - 1, m) {
      assert forall i :: j <= i < j + |m| ==> s[i] == m[i - j] != c;
      assert s[|a|] == c;
      if j + |m| <= |a| {
        assert s[j..j + |m|] == a[j..j + |m|];
      } else {
        assert j > |a|;
        var k := j - |a| - 1;
        assert forall i :: j <= i < j + |m| ==> s[i] == b[i - |a| - 1];
        assert s[j..j + |m|] == b[k..k + |m|];
      }
    }
  }

  /** The text before the first `c` is the same whichever way `s` is cut
      there. */
  lemma SameTextBeforeFirst(c: char, a: string, b: string, a': string, b': string)
    requires a + [c] + b == a' + [c] + b' && c !in a && c !in a'
    ensures a == a' && b == b'
  {
    var s := a + [c] + b;
    assert s[|a|] == c && s[|a'|] == c;
    assert forall i :: 0 <= i < |a| ==> s[i] == a[i] != c;
    assert forall i :: 0 <= i < |a'| ==> s[i] == a'[i] != c;
    assert a == s[..|a|] && a' == s[..|a'|];
    assert b == s[|a| + 1..] && b' == s[|a'| + 1..];
  }

  // ----- split and join -----

  /** `parts.join(sep)`. */
  function Join(parts: seq<string>, sep: string): string
    decreases |parts|
  {
    if |parts| == 0 then ""
    else if |parts| == 1 then parts[0]
    else parts[0] + sep + Join(parts[1..], sep)
  }

  /** `s.split(sep)` for a non-empty `sep`: the text between consecutive
      occurrences, found left to right without overlap. Joining the parts
      again gives back `s`, and no part holds the separator. */
  function Split(s: string, sep: string): (parts: seq<string>)
    requires |sep| > 0
    ensures |parts| >= 1
    ensures Join(parts, sep) == s
    ensures forall k :: 0 <= k < |parts| ==> !Contains(parts[k], sep)
    decreases |s|
  {
    var i := IndexOf(s, sep);
    if i < 0 then [s]
    else
      var rest := Split(s[i + |sep|..], sep);
      assert s == s[..i] + sep + s[i + |sep|..] by {
        assert s[i..i + |sep|] == sep;
        assert s == s[..i] + s[i..i + |sep|] + s[i + |sep|..];
      }
      assert !Contains(s[..i], sep) by {
        forall j | 0 <= j <= i && IsAt(s[..i], j, sep) ensures false {
          IsAtPrefix(s, i, j, sep);
        }
      }
      assert ([s[..i]] + rest)[1..] == rest;
      [s[..i]] + rest
  }

  /** `s.split(sep)` cuts `s` at the first occurrence of `sep`: the head is
      the text before it, and joining the other parts gives the text after
      it (the empty string when `sep` does not occur). */
  lemma SplitAtFirst(s: string, sep: string)
    requires |sep| > 0
    ensures var i := IndexOf(s, sep);
      && (i < 0 ==> Split(s, sep) == [s])
      && (i >= 0 ==> |Split(s, sep)| >= 2
                     && Split(s, sep)[0] == s[..i]
                     && Split(s, sep)[1..] == Split(s[i + |sep|..], sep)
                     && Join(Split(s, sep)[1..], sep) == s[i + |sep|..])
  {
    var i := IndexOf(s, sep);
    if i >= 0 {
      var rest := Split(s[i + |sep|..], sep);
      assert Split(s, sep) == [s[..i]] + rest;
      assert Split(s, sep)[1..] == rest;
    }
  }

  /** Joining at least two parts puts `sep` right before the last. */
  lemma {:induction false} JoinLast(parts: seq<string>, sep: string)
    requires |parts| >= 2
    ensures Join(parts, sep) == Join(parts[..|parts| - 1], sep) + sep + parts[|parts| - 1]
    decreases |parts|
  {
    if |parts| > 2 {
      JoinLast(parts[1..], sep);
      assert parts[1..][..|parts[1..]| - 1] == parts[..|parts| - 1][1..];
    }
  }

  lemma ContainsSingle(s: string, c: char)
    ensures Contains(s, [c]) <==> c in s
  {
    if c in s {
      var i :| 0 <= i < |s| && s[i] == c;
      assert IsAt(s, i, [c]);
    }
    if Contains(s, [c]) {
      var i :| 0 <= i <= |s| && IsAt(s, i, [c]);
      assert s[i] == c;
    }
  }

  /** What `s.split(c).pop()` returns: the text after the last `c`, or the
      whole of `s` when `c` does not occur in it. */
  lemma {:induction false} LastPartAfterLastSeparator(s: string, c: char, a: string, b: string)
    requires s == a + [c] + b && c !in b
    ensures Split(s, [c])[|Split(s, [c])| - 1] == b
  {
    var parts := Split(s, [c]);
    var last := parts[|parts| - 1];
    ContainsSingle(last, c);
    assert s[|a|] == c;
    assert last != s;
    JoinLast(parts, [c]);
    SameTextAfterLast(s, c, a, b, Join(parts[..|parts| - 1], [c]), last);
  }

  /** The text after the last `c` of `s` is the same whichever way `s` is
      cut there. */
  lemma SameTextAfterLast(s: string, c: char, a: string, b: string, a': string, b': string)
    requires s == a + [c] + b && c !in b
    requires s == a' + [c] + b' && c !in b'
    ensures b == b'
  {
    var n := |s|;
    assert s[n - |b| - 1] == c;
    assert s[n - |b'| - 1] == c;
    assert b == s[n - |b|..] && b' == s[n - |b'|..];
    assert forall i :: n - |b| <= i < n ==> s[i] == b[i - (n - |b|)] != c;
    assert forall i :: n - |b'| <= i < n ==> s[i] == b'[i - (n - |b'|)] != c;
  }

  /** What `s.split(c).pop()` returns is a suffix of `s`. */
  lemma LastPartIsSuffix(s: string, c: char)
    ensures var parts := Split(s, [c]);
      |parts[|parts| - 1]| <= |s| && parts[|parts| - 1] == s[|s| - |parts[|parts| - 1]|..]
  {
    var parts := Split(s, [c]);
    if |parts| >= 2 {
      JoinLast(parts, [c]);
    }
  }

  lemma LastPartWithoutSeparator(s: string, c: char)
    requires c !in s
    ensures Split(s, [c]) == [s]
  {
    ContainsSingle(s, c);
    IndexOfAbsent(s, [c]);
  }

  /** The first `c` in `a + [c] + b` is the one after `a` when `a` has
      none. */
  lemma IndexOfFirstChar(a: string, c: char, b: string)
    requires c !in a
    ensures IndexOf(a + [c] + b, [c]) == |a|
  {
    var x := a + [c] + b;
    assert IsAt(x, |a|, [c]) by {
      assert x[|a|..|a| + 1] == [c];
    }
    forall j | 0 <= j < |a| ensures !IsAt(x, j, [c]) {
      assert x[j] == a[j] != c;
      assert x[j..j + 1] == [x[j]];
    }
  }

  /** `parts.join(c)` split at `c` gives the parts back when none of them
      holds `c`: for a one-character separator `split` inverts `join`. */
  lemma {:induction false} SplitOfJoin(parts: seq<string>, c: char)
    requires |parts| >= 1
    requires forall k :: 0 <= k < |parts| ==> c !in parts[k]
    ensures Split(Join(parts, [c]), [c]) == parts
    decreases |parts|
  {
    if |parts| == 1 {
      LastPartWithoutSeparator(parts[0], c);
    } else {
      var a, tail := parts[0], Join(parts[1..], [c]);
      var x := Join(parts, [c]);
      assert x == a + [c] + tail;
      IndexOfFirstChar(a, c, tail);
      SplitAtFirst(x, [c]);
      assert x[..|a|] == a && x[|a| + 1..] == tail;
      SplitOfJoin(parts[1..], c);
      var split := Split(x, [c]);
      assert split == [split[0]] + split[1..];
    }
  }

  // ----- toLowerCase -----

  /** The lower-case form of an ASCII letter; every other character is
      returned unchanged. */
  function LowerChar(c: char): char {
    if 'A' <= c <= 'Z' then (c as int + 32) as char else c
  }

  /** `s.toLowerCase()`, for the ASCII letters. */
  function Lower(s: string): (r: string)
    ensures |r| == |s|
    ensures forall i :: 0 <= i < |s| ==> r[i] == LowerChar(s[i])
  {
    seq(|s|, i requires 0 <= i < |s| => LowerChar(s[i]))
  }

  lemma LowerHasNoCapitals(s: string)
    ensures forall i :: 0 <= i < |s| ==> !('A' <= Lower(s)[i] <= 'Z')
  {
  }

  lemma LowerSuffix(s: string, n: nat)
    requires n <= |s|
    ensures Lower(s[n..]) == Lower(s)[n..]
  {
  }

  // ----- trim -----

  /** The characters `String.prototype.trim` and `parseFloat` skip: the
      white-space characters (tab, vertical tab, form feed, the space
      separators of Unicode category Zs, the byte-order mark) and the line
      terminators (line feed, carriage return, U+2028, U+2029). */
  predicate IsJsWhitespace(c: char) {
    var n := c as int;
    n == 0x09 || n == 0x0A || n == 0x0B || n == 0x0C || n == 0x0D || n == 0x20
    || n == 0xA0 || n == 0x1680 || (0x2000 <= n <= 0x200A)
    || n == 0x2028 || n == 0x2029 || n == 0x202F || n == 0x205F
    || n == 0x3000 || n == 0xFEFF
  }

  /** Among the ASCII characters the white space is the space and the
      five control characters tab to carriage return; no letter, digit or
      sign is white space. */
  lemma AsciiWhitespace(c: char)
    requires c as int < 128
    ensures IsJsWhitespace(c) <==> c == ' ' || '\t' <= c <= '\r'
  {
  }

  /** The index of the first character at or after `i` that is not white
      space, or `|s|` when there is none. */
  function SkipWhitespace(s: string, i: nat): (j: nat)
    requires i <= |s|
    ensures i <= j <= |s|
    ensures forall k :: i <= k < j ==> IsJsWhitespace(s[k])
    ensures j == |s| || !IsJsWhitespace(s[j])
    decreases |s| - i
  {
    if i < |s| && IsJsWhitespace(s[i]) then SkipWhitespace(s, i + 1) else i
  }

  /** The index just after the last character before `j` that is not white
      space, or 0 when there is none. */
  function SkipWhitespaceBack(s: string, j: nat): (i: nat)
    requires j <= |s|
    ensures i <= j
    ensures forall k :: i <= k < j ==> IsJsWhitespace(s[k])
    ensures i == 0 || !IsJsWhitespace(s[i - 1])
    decreases j
  {
    if j > 0 && IsJsWhitespace(s[j - 1]) then SkipWhitespaceBack(s, j - 1) else j
  }

  /** `s.trimStart()`: the longest suffix of `s` that does not start with
      white space; everything dropped before it is white space. */
  function TrimStart(s: string): (r: string)
    ensures |r| <= |s| && r == s[|s| - |r|..]
    ensures forall k :: 0 <= k < |s| - |r| ==> IsJsWhitespace(s[k])
    ensures r == "" || !IsJsWhitespace(r[0])
  {
    s[SkipWhitespace(s, 0)..]
  }

  /** `s.trim()`: `s` with the white space at both ends removed. The result
      neither starts nor ends with white space; `TrimBounds` says which
      slice of `s` it is. */
  function Trim(s: string): (r: string)
    ensures |r| <= |s|
    ensures r == "" || (!IsJsWhitespace(r[0]) && !IsJsWhitespace(r[|r| - 1]))
  {
    var lo := SkipWhitespace(s, 0);
    if lo == |s| then ""
    else
      var hi := SkipWhitespaceBack(s, |s|);
      assert lo < hi;
      s[lo..hi]
  }

  /** The scan stops at the first character that is not white space. */
  lemma SkipWhitespaceAt(s: string, lo: nat)
    requires lo <= |s| && (lo == |s| || !IsJsWhitespace(s[lo]))
    requires forall k :: 0 <= k < lo ==> IsJsWhitespace(s[k])
    ensures SkipWhitespace(s, 0) == lo
  {
    var j := SkipWhitespace(s, 0);
    assert j <= lo;
    assert lo <= j;
  }

  /** The backward scan stops after the last character that is not white
      space. */
  lemma SkipWhitespaceBackAt(s: string, hi: nat)
    requires hi <= |s| && (hi == 0 || !IsJsWhitespace(s[hi - 1]))
    requires forall k :: hi <= k < |s| ==> IsJsWhitespace(s[k])
    ensures SkipWhitespaceBack(s, |s|) == hi
  {
    var i := SkipWhitespaceBack(s, |s|);
    assert i <= hi;
    assert hi <= i;
  }

  /** `trimStart` drops exactly the white space before the first other
      character. */
  lemma TrimStartAt(s: string, lo: nat)
    requires lo <= |s| && (lo == |s| || !IsJsWhitespace(s[lo]))
    requires forall k :: 0 <= k < lo ==> IsJsWhitespace(s[k])
    ensures TrimStart(s) == s[lo..]
  {
    SkipWhitespaceAt(s, lo);
  }

  /** Trimming twice is trimming once. */
  lemma TrimIdempotent(s: string)
    ensures Trim(Trim(s)) == Trim(s)
  {
    var r := Trim(s);
    if r != "" {
      SkipWhitespaceAt(r, 0);
      SkipWhitespaceBackAt(r, |r|);
      assert r[0..|r|] == r;
    }
  }

  /** Trimming leaves nothing but white space behind it: the trimmed text
      is empty exactly when every character of `s` is white space. */
  lemma TrimEmptyIffBlank(s: string)
    ensures Trim(s) == "" <==> forall k :: 0 <= k < |s| ==> IsJsWhitespace(s[k])
  {
    var lo := SkipWhitespace(s, 0);
    if lo < |s| {
      assert Trim(s) != "" && !IsJsWhitespace(s[lo]);
    }
  }

  /** White space put before a text is all that `trimStart` drops of it
      beyond what it drops of the text. */
  lemma TrimStartPadded(before: string, s: string)
    requires forall k :: 0 <= k < |before| ==> IsJsWhitespace(before[k])
    ensures TrimStart(before + s) == TrimStart(s)
  {
    var x, n := before + s, |before|;
    var j := SkipWhitespace(s, 0);
    assert forall k :: 0 <= k < n ==> x[k] == before[k];
    assert forall k :: n <= k < |x| ==> x[k] == s[k - n];
    TrimStartAt(x, n + j);
    assert x[n + j..] == s[j..];
  }

  /** `trim` returns a slice `s[lo..hi]` with only white space outside
      it. */
  lemma TrimBounds(s: string) returns (lo: nat, hi: nat)
    ensures lo <= hi <= |s| && Trim(s) == s[lo..hi]
    ensures forall k :: 0 <= k < lo ==> IsJsWhitespace(s[k])
    ensures forall k :: hi <= k < |s| ==> IsJsWhitespace(s[k])
    ensures lo < hi ==> !IsJsWhitespace(s[lo]) && !IsJsWhitespace(s[hi - 1])
  {
    lo := SkipWhitespace(s, 0);
    hi := if lo == |s| then lo else SkipWhitespaceBack(s, |s|);
  }

  /** A slice with only white space outside it, and none at its own ends,
      is what `trim` returns. */
  lemma TrimIsSlice(s: string, lo: nat, hi: nat)
    requires lo <= hi <= |s|
    requires forall k :: 0 <= k < lo ==> IsJsWhitespace(s[k])
    requires forall k :: hi <= k < |s| ==> IsJsWhitespace(s[k])
    requires lo == hi || (!IsJsWhitespace(s[lo]) && !IsJsWhitespace(s[hi - 1]))
    ensures Trim(s) == s[lo..hi]
  {
    if lo == hi {
      SkipWhitespaceAt(s, |s|);
    } else {
      SkipWhitespaceAt(s, lo);
      SkipWhitespaceBackAt(s, hi);
    }
  }

  /** Padding a text with white space keeps a slice of it, and the white
      space outside that slice. */
  lemma PaddedSlice(before: string, s: string, after: string, lo: nat, hi: nat)
    requires lo <= hi <= |s|
    requires forall k :: 0 <= k < |before| ==> IsJsWhitespace(before[k])
    requires forall k :: 0 <= k < |after| ==> IsJsWhitespace(after[k])
    requires forall k :: 0 <= k < lo ==> IsJsWhitespace(s[k])
    requires forall k :: hi <= k < |s| ==> IsJsWhitespace(s[k])
    ensures var x, n := before + s + after, |before|;
      && x[n + lo..n + hi] == s[lo..hi]
      && (lo < hi ==> x[n + lo] == s[lo] && x[n + hi - 1] == s[hi - 1])
      && (forall k :: 0 <= k < n + lo ==> IsJsWhitespace(x[k]))
      && (forall k :: n + hi <= k < |x| ==> IsJsWhitespace(x[k]))
  {
    var x, n := before + s + after, |before|;
    assert forall k :: 0 <= k < n ==> x[k] == before[k];
    assert forall k :: n <= k < n + |s| ==> x[k] == s[k - n];
    assert forall k :: n + |s| <= k < |x| ==> x[k] == after[k - n - |s|];
  }

  /** White space added around a text does not change what `trim` makes
      of it. */
  lemma TrimPadded(before: string, s: string, after: string)
    requires forall k :: 0 <= k < |before| ==> IsJsWhitespace(before[k])
    requires forall k :: 0 <= k < |after| ==> IsJsWhitespace(after[k])
    ensures Trim(before + s + after) == Trim(s)
  {
    var lo, hi := TrimBounds(s);
    PaddedSlice(before, s, after, lo, hi);
    TrimIsSlice(before + s + after, |before| + lo, |before| + hi);
  }

  // ----- length -----

  /** `s.length`: the number of UTF-16 code units, two for every character
      outside the Basic Multilingual Plane. */
  function Utf16Length(s: string): (n: nat)
    ensures |s| <= n <= 2 * |s|
    ensures (forall i :: 0 <= i < |s| ==> s[i] as int < 0x10000) ==> n == |s|
    decreases |s|
  {
    if s == "" then 0
    else (if s[0] as int < 0x10000 then 1 else 2) + Utf16Length(s[1..])
  }

  // ----- Number.prototype.toString and padStart -----

  /** The digit `d` in base 16 or lower, as `toString` writes it. */
  function Digit(d: nat): (c: char)
    requires d < 16
  {
    "0123456789abcdef"[d]
  }

  /** The value of a digit character; the inverse of `Digit`. */
  function DigitValue(c: char): (d: nat)
    ensures d <= 16
  {
    if '0' <= c <= '9' then c as int - '0' as int
    else if 'a' <= c <= 'f' then c as int - 'a' as int + 10
    else 16
  }

  /** `c` is one of the sixteen digits `0`-`9`, `a`-`f` that `toString(16)`
      writes. */
  predicate IsLowerHexDigit(c: char) {
    DigitValue(c) < 16
  }

  lemma DigitValueOfDigit(d: nat)
    requires d < 16
    ensures DigitValue(Digit(d)) == d
  {
  }

  /** `n.toString(radix)` for a non-negative integer `n`: its digits, most
      significant first, with no leading zeros. */
  function ToRadix(n: nat, radix: nat): (s: string)
    requires 2 <= radix <= 16
    ensures |s| >= 1
    ensures forall i :: 0 <= i < |s| ==> DigitValue(s[i]) < radix
    ensures |s| > 1 ==> s[0] != '0'
    decreases n
  {
    if n < radix then
      DigitValueOfDigit(n);
      [Digit(n)]
    else
      DivMod(n, radix);
      DigitValueOfDigit(n % radix);
      var front := ToRadix(n / radix, radix);
      var s := front + [Digit(n % radix)];
      assert s[0] == front[0] && s[|s| - 1] == Digit(n % radix);
      assert forall i :: 0 <= i < |front| ==> s[i] == front[i];
      assert |front| == 1 ==> front[0] == Digit(n / radix) && DigitValue(front[0]) == n / radix by {
        if |front| == 1 {
          DigitValueOfDigit(n / radix);
        }
      }
      s
  }

  /** Division by the radix, kept apart so that the digit proofs do not
      carry the non-linear arithmetic. */
  lemma DivMod(n: nat, radix: nat)
    requires 2 <= radix <= n
    ensures 1 <= n / radix < n && n % radix < radix
    ensures n == (n / radix) * radix + n % radix
  {
  }

  /** The number written by the digits of `s`, most significant first. */
  function DigitsValue(s: string, radix: nat): nat
    decreases |s|
  {
    if s == "" then 0
    else DigitsValue(s[..|s| - 1], radix) * radix + DigitValue(s[|s| - 1])
  }

  /** Reading back what `toString` writes gives the number again. */
  lemma {:induction false} ToRadixRoundTrip(n: nat, radix: nat)
    requires 2 <= radix <= 16
    ensures DigitsValue(ToRadix(n, radix), radix) == n
    decreases n
  {
    if n < radix {
      DigitValueOfDigit(n);
    } else {
      DivMod(n, radix);
      var front := ToRadix(n / radix, radix);
      var s := front + [Digit(n % radix)];
      assert s == ToRadix(n, radix);
      ToRadixRoundTrip(n / radix, radix);
      DigitValueOfDigit(n % radix);
      assert s[..|s| - 1] == front;
      assert DigitsValue(s, radix) == DigitsValue(front, radix) * radix + n % radix;
    }
  }

  /** `s.padStart(width, fill)` for a one-character `fill`. */
  function PadStart(s: string, width: nat, fill: char): (r: string)
    ensures |r| == if |s| < width then width else |s|
    ensures r[|r| - |s|..] == s
    ensures forall i :: 0 <= i < |r| - |s| ==> r[i] == fill
  {
    if |s| >= width then s else seq(width - |s|, _ => fill) + s
  }
}
