/**
 * The handful of Python `str` operations the chat pipeline relies on:
 * `isspace`, `strip`, `find`/`split(sep, 1)`, `join` and `int()` of a digit string.
 */
module Text {
  import opened Wrappers

  /** Python's `str.isspace()` (the Unicode White_Space characters CPython recognises). */
  predicate IsSpace(c: char) {
    var n := c as int;
    (9 <= n <= 13) || (28 <= n <= 32) || n == 0x85 || n == 0xA0 || n == 0x1680
    || (0x2000 <= n <= 0x200A) || n == 0x2028 || n == 0x2029 || n == 0x202F
    || n == 0x205F || n == 0x3000
  }

  predicate IsDigit(c: char) {
    '0' <= c <= '9'
  }

  predicate AllSpace(s: string) {
    forall i :: 0 <= i < |s| ==> IsSpace(s[i])
  }

  predicate AllDigits(s: string) {
    forall i :: 0 <= i < |s| ==> IsDigit(s[i])
  }

  /** Neither end of `s` is whitespace (vacuously true of the empty string). */
  predicate Trimmed(s: string) {
    s == [] || (!IsSpace(s[0]) && !IsSpace(s[|s| - 1]))
  }

  /** `s.lstrip()`: `s` without its leading whitespace. */
  function LStrip(s: string): (r: string)
    ensures |r| <= |s|
    ensures r == [] || !IsSpace(r[0])
    decreases |s|
  {
    if s != [] && IsSpace(s[0]) then LStrip(s[1..]) else s
  }

  /** `s.rstrip()`: `s` without its trailing whitespace. */
  function RStrip(s: string): (r: string)
    ensures |r| <= |s|
    ensures r != [] ==> r[0] == s[0]
    ensures r == [] || !IsSpace(r[|r| - 1])
    decreases |s|
  {
    if s != [] && IsSpace(s[|s| - 1]) then RStrip(s[..|s| - 1]) else s
  }

  /** `s.strip()`: `s` with its leading and trailing whitespace removed. */
  function Strip(s: string): (r: string)
    ensures Trimmed(r)
    ensures |r| <= |s|
  {
    RStrip(LStrip(s))
  }

  /** The leading whitespace `lstrip` drops. */
  function Leading(s: string): string
    decreases |s|
  {
    if s != [] && IsSpace(s[0]) then [s[0]] + Leading(s[1..]) else []
  }

  /** The trailing whitespace `rstrip` drops. */
  function Trailing(s: string): string
    decreases |s|
  {
    if s != [] && IsSpace(s[|s| - 1]) then Trailing(s[..|s| - 1]) + [s[|s| - 1]] else []
  }

  /** `lstrip` drops exactly a run of whitespace from the front. */
  lemma {:induction false} LStripSplit(s: string)
    ensures s == Leading(s) + LStrip(s) && AllSpace(Leading(s))
    decreases |s|
  {
    if s != [] && IsSpace(s[0]) {
      LStripSplit(s[1..]);
      assert s == [s[0]] + s[1..];
    }
  }

  /** `rstrip` drops exactly a run of whitespace from the back. */
  lemma {:induction false} RStripSplit(s: string)
    ensures s == RStrip(s) + Trailing(s) && AllSpace(Trailing(s))
    decreases |s|
  {
    if s != [] && IsSpace(s[|s| - 1]) {
      RStripSplit(s[..|s| - 1]);
      assert s == s[..|s| - 1] + [s[|s| - 1]];
    }
  }

  lemma {:induction false} LStripPrefix(p: string, r: string)
    requires AllSpace(p)
    requires r == [] || !IsSpace(r[0])
    ensures LStrip(p + r) == r
    decreases |p|
  {
    if p != [] {
      assert (p + r)[1..] == p[1..] + r;
      LStripPrefix(p[1..], r);
    } else {
      assert p + r == r;
    }
  }

  lemma {:induction false} RStripSuffix(r: string, q: string)
    requires AllSpace(q)
    requires r == [] || !IsSpace(r[|r| - 1])
    ensures RStrip(r + q) == r
    decreases |q|
  {
    if q != [] {
      assert (r + q)[..|r + q| - 1] == r + q[..|q| - 1];
      RStripSuffix(r, q[..|q| - 1]);
    } else {
      assert r + q == r;
    }
  }

  /**
   * `strip` is determined by its characterisation: whatever lies between two
   * all-whitespace ends and has no whitespace at either end is the stripped string.
   */
  lemma StripUnique(p: string, r: string, q: string)
    requires AllSpace(p) && AllSpace(q) && Trimmed(r)
    ensures Strip(p + r + q) == r
  {
    if r == [] {
      assert p + r + q == (p + q) + [];
      AllSpaceConcat(p, q);
      LStripPrefix(p + q, []);
    } else {
      assert p + r + q == p + (r + q);
      LStripPrefix(p, r + q);
      RStripSuffix(r, q);
    }
  }

  /** `s` is the stripped string between two runs of whitespace. */
  lemma StripShape(s: string)
    ensures s == Leading(s) + Strip(s) + Trailing(LStrip(s))
    ensures AllSpace(Leading(s)) && AllSpace(Trailing(LStrip(s)))
  {
    LStripSplit(s);
    RStripSplit(LStrip(s));
  }

  /** Surrounding whitespace never changes what `strip` returns. */
  lemma StripAround(a: string, s: string, b: string)
    requires AllSpace(a) && AllSpace(b)
    ensures Strip(a + s + b) == Strip(s)
  {
    var r := Strip(s);
    StripShape(s);
    var p, q := Leading(s), Trailing(LStrip(s));
    Regroup(a, p, r, q, b);
    AllSpaceConcat(a, p);
    AllSpaceConcat(q, b);
    StripUnique(a + p, r, q + b);
  }

  lemma Regroup(a: string, p: string, r: string, q: string, b: string)
    ensures a + (p + r + q) + b == (a + p) + r + (q + b)
  {
  }

  lemma AllSpaceConcat(x: string, y: string)
    requires AllSpace(x) && AllSpace(y)
    ensures AllSpace(x + y)
  {
  }

  lemma StripIdempotent(s: string)
    ensures Strip(Strip(s)) == Strip(s)
  {
    var r := Strip(s);
    assert [] + r + [] == r;
    StripUnique([], r, []);
  }

  /** The stripped string is the slice of `s` just after its leading whitespace. */
  lemma StripSlice(s: string)
    ensures |Leading(s)| + |Strip(s)| <= |s|
    ensures Strip(s) == s[|Leading(s)|..|Leading(s)| + |Strip(s)|]
  {
    StripShape(s);
    var p, r, q := Leading(s), Strip(s), Trailing(LStrip(s));
    assert s == p + r + q;
    assert s[|p|..|p| + |r|] == r;
  }

  /** `strip` only removes characters. */
  lemma NotInStrip(c: char, s: string)
    requires c !in s
    ensures c !in Strip(s)
  {
    StripSlice(s);
    var a := |Leading(s)|;
    forall k | 0 <= k < |Strip(s)| ensures Strip(s)[k] != c {
      assert Strip(s)[k] == s[a + k];
    }
  }

  /** `strip` leaves a trimmed string alone. */
  lemma StripTrimmed(s: string)
    requires Trimmed(s)
    ensures Strip(s) == s
  {
    assert [] + s + [] == s;
    StripUnique([], s, []);
  }

  /** A slice that lies inside the left operand of a concatenation. */
  lemma SliceBefore(a: string, b: string, i: nat, j: nat)
    requires i <= j <= |a|
    ensures (a + b)[i..j] == a[i..j]
  {
  }

  /** A slice that lies inside the right operand of a concatenation. */
  lemma SliceAfter(a: string, b: string, i: nat, j: nat)
    requires |a| <= i <= j <= |a| + |b|
    ensures (a + b)[i..j] == b[i - |a|..j - |a|]
  {
  }

  /** Reading `x + rest` from `pos`: `x` stands at `pos` and `rest` follows it. */
  lemma SuffixSplit(s: string, pos: nat, x: string, rest: string)
    requires pos <= |s| && s[pos..] == x + rest
    ensures pos + |x| <= |s| && s[pos..pos + |x|] == x && s[pos + |x|..] == rest
  {
    assert s[pos..pos + |x|] == s[pos..][..|x|];
    assert s[pos + |x|..] == s[pos..][|x|..];
  }

  /** `sep` occurs in `s` starting at index `i`. */
  predicate IsAt(s: string, sep: string, i: int) {
    0 <= i && i + |sep| <= |s| && s[i..i + |sep|] == sep
  }

  /** `i` is the first occurrence of `sep` in `s`. */
  predicate FirstAt(s: string, sep: string, i: int) {
    IsAt(s, sep, i) && forall k :: 0 <= k < i ==> !IsAt(s, sep, k)
  }

  /** `sep` occurs nowhere in `s`. */
  ghost predicate Absent(s: string, sep: string) {
    forall k :: 0 <= k ==> !IsAt(s, sep, k)
  }

  /** The first occurrence of `sep` at or after `from`, as `str.find` searches. */
  function FindFrom(s: string, sep: string, from: nat): (r: Option<nat>)
    ensures r.Some? ==> from <= r.value && IsAt(s, sep, r.value)
                        && forall k :: from <= k < r.value ==> !IsAt(s, sep, k)
    ensures r.None? ==> forall k :: from <= k ==> !IsAt(s, sep, k)
    decreases |s| - from
  {
    if from + |sep| > |s| then None
    else if s[from..from + |sep|] == sep then Some(from)
    else FindFrom(s, sep, from + 1)
  }

  /**
   * `s.split(sep, 1)` unpacked into two names: the text before the first `sep` and the
   * text after it, or `None` where Python's unpacking raises `ValueError` because `sep`
   * does not occur.
   */
  function SplitOnce(s: string, sep: string): (r: Option<(string, string)>)
    requires sep != []
    ensures r.None? <==> forall k :: 0 <= k ==> !IsAt(s, sep, k)
    ensures r.Some? ==> var i := |r.value.0|;
                        FirstAt(s, sep, i) && r.value == (s[..i], s[i + |sep|..])
  {
    match FindFrom(s, sep, 0)
    case None => None
    case Some(i) =>
      assert FirstAt(s, sep, i);
      Some((s[..i], s[i + |sep|..]))
  }

  /** `split(sep, 1)` cuts at the first occurrence of `sep`, whatever finds it. */
  lemma SplitAtFirst(s: string, sep: string, i: nat)
    requires sep != [] && FirstAt(s, sep, i)
    ensures SplitOnce(s, sep) == Some((s[..i], s[i + |sep|..]))
  {
    var r := FindFrom(s, sep, 0);
    assert r.Some? && r.value == i;
  }

  /** A one-character separator stands at `k` exactly when that character does. */
  lemma IsAtChar(s: string, c: char, k: int)
    ensures IsAt(s, [c], k) <==> 0 <= k < |s| && s[k] == c
  {
    if 0 <= k < |s| {
      assert s[k..k + 1] == [s[k]];
    }
  }

  /** The first occurrence of a one-character separator is found where it first stands. */
  lemma FindChar(a: string, c: char, b: string)
    requires c !in a
    ensures FindFrom(a + [c] + b, [c], 0) == Some(|a|)
  {
    var s := a + [c] + b;
    IsAtChar(s, c, |a|);
    forall k | 0 <= k < |a| ensures !IsAt(s, [c], k) {
      IsAtChar(s, c, k);
      assert s[k] == a[k];
    }
  }

  /** For a one-character separator the split happens at its first occurrence. */
  lemma SplitOnceChar(a: string, c: char, b: string)
    requires c !in a
    ensures SplitOnce(a + [c] + b, [c]) == Some((a, b))
  {
    var s := a + [c] + b;
    FindChar(a, c, b);
    assert s[..|a|] == a && s[|a| + 1..] == b;
  }

  /** `sep.join(parts)`. */
  function Join(parts: seq<string>, sep: string): string
  {
    if parts == [] then ""
    else if |parts| == 1 then parts[0]
    else parts[0] + sep + Join(parts[1..], sep)
  }

  /** `s.split(c)` for a one-character separator (always at least one piece). */
  function SplitOn(s: string, c: char): (r: seq<string>)
    ensures |r| >= 1
    decreases |s|
  {
    match FindFrom(s, [c], 0)
    case None => [s]
    case Some(i) => [s[..i]] + SplitOn(s[i + 1..], c)
  }

  lemma NotFound(s: string, c: char)
    requires c !in s
    ensures FindFrom(s, [c], 0) == None
  {
    forall k | 0 <= k ensures !IsAt(s, [c], k) {
      IsAtChar(s, c, k);
    }
  }

  /**
   * Joining with a one-character separator that no piece contains can be undone by
   * splitting on it: the pieces come back exactly.
   */
  lemma {:induction false} SplitJoin(parts: seq<string>, c: char)
    requires parts != []
    requires forall i :: 0 <= i < |parts| ==> c !in parts[i]
    ensures SplitOn(Join(parts, [c]), c) == parts
    decreases |parts|
  {
    if |parts| == 1 {
      NotFound(parts[0], c);
    } else {
      var rest := Join(parts[1..], [c]);
      var s := parts[0] + [c] + rest;
      assert Join(parts, [c]) == s;
      FindChar(parts[0], c, rest);
      assert s[..|parts[0]|] == parts[0];
      assert s[|parts[0]| + 1..] == rest;
      SplitJoin(parts[1..], c);
      assert parts == [parts[0]] + parts[1..];
    }
  }

  /** Value of a digit character. */
  function DigitValue(c: char): (v: nat)
    requires IsDigit(c)
    ensures v <= 9
  {
    c as int - '0' as int
  }

  /** The digit character for `v`. */
  function DigitChar(v: nat): (c: char)
    requires v <= 9
    ensures IsDigit(c) && DigitValue(c) == v
  {
    ('0' as int + v) as char
  }

  /** Python's `int(s)` for a string of decimal digits (`int("")` raises; it is never asked). */
  function DecimalValue(s: string): nat
    requires AllDigits(s)
    decreases |s|
  {
    if s == [] then 0 else DecimalValue(s[..|s| - 1]) * 10 + DigitValue(s[|s| - 1])
  }

  function Pow10(w: nat): (p: nat)
    ensures p >= 1
  {
    if w == 0 then 1 else 10 * Pow10(w - 1)
  }

  /** `v` written in exactly `w` decimal digits, zero padded (`%0*d`). */
  function Pad(v: nat, w: nat): (r: string)
    ensures |r| == w
    decreases w
  {
    if w == 0 then [] else Pad(v / 10, w - 1) + [DigitChar(v % 10)]
  }

  /** Padding writes digits only, whatever the value. */
  lemma {:induction false} PadDigits(v: nat, w: nat)
    ensures AllDigits(Pad(v, w))
    decreases w
  {
    if w > 0 {
      PadDigits(v / 10, w - 1);
    }
  }

  /** The padded rendering is all digits and reads back as `v`. */
  lemma {:induction false} PadValue(v: nat, w: nat)
    requires v < Pow10(w)
    ensures AllDigits(Pad(v, w)) && DecimalValue(Pad(v, w)) == v
    decreases w
  {
    if w > 0 {
      var p := Pad(v / 10, w - 1);
      PadValue(v / 10, w - 1);
      assert Pad(v, w)[..w - 1] == p;
    }
  }
}
