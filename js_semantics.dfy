/**
 * The parts of ECMAScript (ECMA-262) semantics that the modelled helpers
 * rely on: 32-bit integer conversion and the bitwise operators built on it,
 * Array.prototype.slice / splice, and the String methods indexOf, replace,
 * split, join and trim.  Each is stated for the argument shapes that occur
 * in the modelled code (integral numbers, string patterns, literal
 * replacement strings without `$` substitutions).
 */
module JsSemantics {

  datatype Option<T> = None | Some(value: T)

  const TWO_31: int := 0x8000_0000
  const TWO_32: int := 0x1_0000_0000

  // ---------------------------------------------------------------------
  // Numbers: ToInt32, ToUint32, `<<` and `&` (sections 7.1.6, 7.1.7, 13.9.1, 13.12)
  // ---------------------------------------------------------------------

  /** True of the values a signed 32-bit integer can hold. */
  predicate IsInt32(x: int) {
    -TWO_31 <= x < TWO_31
  }

  /** ToInt32 on an integral number: the unique signed 32-bit value congruent to `x` modulo 2^32. */
  function ToInt32(x: int): (r: int)
    ensures IsInt32(r)
    ensures (x - r) % TWO_32 == 0
  {
    (x + TWO_31) % TWO_32 - TWO_31
  }

  /** ToUint32 on an integral number: the unique value in [0, 2^32) congruent to `x`. */
  function ToUint32(x: int): (r: int)
    ensures 0 <= r < TWO_32
    ensures (x - r) % TWO_32 == 0
  {
    x % TWO_32
  }

  /** ToInt32 only depends on its argument modulo 2^32. */
  lemma ToInt32Periodic(x: int, k: int)
    ensures ToInt32(x + k * TWO_32) == ToInt32(x)
  {
    assert (x + k * TWO_32) % TWO_32 == x % TWO_32;
  }

  /** A signed 32-bit value is its own ToInt32. */
  lemma ToInt32OfInt32(x: int)
    requires IsInt32(x)
    ensures ToInt32(x) == x
  {
    if x < 0 {
      assert x % TWO_32 == x + TWO_32;
    }
  }

  /** Two integers congruent modulo 2^32 have the same ToInt32. */
  lemma ToInt32Congruent(x: int, y: int)
    requires (x - y) % TWO_32 == 0
    ensures ToInt32(x) == ToInt32(y)
  {
    var k := (x - y) / TWO_32;
    assert x == y + k * TWO_32;
    ToInt32Periodic(y, k);
  }

  function Pow2(n: nat): (r: nat)
    ensures r >= 1
  {
    if n == 0 then 1 else 2 * Pow2(n - 1)
  }

  /** `x << n`: the left operand goes through ToInt32, the count is masked to
      five bits, and the product is wrapped back into a signed 32-bit value. */
  function ShiftLeft(x: int, n: int): int
  {
    ToInt32(Doubled(ToInt32(x), ToUint32(n) % 32))
  }

  /** `v` doubled `k` times, that is v * 2^k. */
  function Doubled(v: int, k: nat): int
    decreases k
  {
    if k == 0 then v else Doubled(2 * v, k - 1)
  }

  /** The low `n` bits of `a & b`, for non-negative `a` and `b`, computed bit by bit. */
  function AndBits(a: nat, b: nat, n: nat): nat
  {
    if n == 0 then 0
    else (if a % 2 == 1 && b % 2 == 1 then 1 else 0) + 2 * AndBits(a / 2, b / 2, n - 1)
  }

  /** `a & b`: both operands go through ToUint32 (equivalently ToInt32) and
      are combined bit by bit on their 32-bit patterns; the result is read
      back as a signed 32-bit value. */
  function BitAnd(a: int, b: int): int
  {
    ToInt32(AndBits(ToUint32(a), ToUint32(b), 32))
  }

  /** Division and remainder are determined by any decomposition `a == q * m + s` with `0 <= s < m`. */
  lemma DivModUnique(a: int, m: int, q: int, s: int)
    requires m > 0 && a == q * m + s && 0 <= s < m
    ensures a / m == q && a % m == s
  {
    var q', s' := a / m, a % m;
    var d := q - q';
    assert q * m - q' * m == d * m;
    assert d * m == s' - s;
  }

  /** Taking the low `n` bits peels off the lowest bit and the low `n - 1` bits of the rest. */
  lemma ModPow2Step(a: nat, n: nat)
    requires n > 0
    ensures a % Pow2(n) == a % 2 + 2 * ((a / 2) % Pow2(n - 1))
  {
    var p := Pow2(n - 1);
    var q, r := a / 2, a % 2;
    var hi, lo := q / p, q % p;
    assert a == hi * (2 * p) + (2 * lo + r);
    DivModUnique(a, 2 * p, hi, 2 * lo + r);
  }

  /** `a & a` keeps every bit of `a`. */
  lemma {:induction false} AndBitsSelf(a: nat, n: nat)
    ensures AndBits(a, a, n) == a % Pow2(n)
  {
    if n > 0 {
      AndBitsSelf(a / 2, n - 1);
      ModPow2Step(a, n);
    }
  }

  /** `x & x` is ToInt32(x): the idiom the hash code uses to truncate to 32 bits. */
  lemma BitAndSelf(x: int)
    ensures BitAnd(x, x) == ToInt32(x)
  {
    var u := ToUint32(x);
    AndBitsSelf(u, 32);
    assert Pow2(32) == TWO_32 by { Pow2Value32(); }
    assert u % TWO_32 == u;
    ToInt32Congruent(u, x);
  }

  lemma Pow2Value32()
    ensures Pow2(32) == TWO_32
  {
    assert Pow2(8) == 256;
    assert Pow2(16) == 65536;
    assert Pow2(24) == 16777216;
  }

  /** `x << 5` on a signed 32-bit value is ToInt32(32 * x). */
  lemma ShiftLeftFive(x: int)
    requires IsInt32(x)
    ensures ShiftLeft(x, 5) == ToInt32(32 * x)
  {
    ToInt32OfInt32(x);
    assert ToUint32(5) % 32 == 5;
    assert Doubled(x, 5) == Doubled(2 * x, 4) == Doubled(4 * x, 3) == Doubled(8 * x, 2) == Doubled(16 * x, 1) == 32 * x;
  }

  // ---------------------------------------------------------------------
  // Arrays: slice and splice (sections 23.1.3.28 and 23.1.3.31)
  // ---------------------------------------------------------------------

  /** The clamping slice and splice apply to a relative index: a negative
      index counts from the end, and the result is kept within [0, len]. */
  function ClampIndex(relative: int, len: nat): (k: nat)
    ensures k <= len
    ensures 0 <= relative <= len ==> k == relative
    ensures relative < 0 && len + relative >= 0 ==> k == len + relative
  {
    if relative < 0 then
      (if len + relative < 0 then 0 else len + relative)
    else
      (if relative < len then relative else len)
  }

  /** `s.slice(start, end)` with integral arguments. */
  function Slice<T>(s: seq<T>, start: int, end: int): seq<T>
  {
    var k := ClampIndex(start, |s|);
    var f := ClampIndex(end, |s|);
    if k <= f then s[k..f] else []
  }

  /** `s.slice(start)`: the end defaults to the length. */
  function SliceFrom<T>(s: seq<T>, start: int): seq<T>
  {
    Slice(s, start, |s|)
  }

  /** The array `s.splice(start, 1)` leaves behind: the delete count is
      clamped to `len - start`, so a start at or past the end removes nothing. */
  function SpliceOne<T>(s: seq<T>, start: int): seq<T>
  {
    var k := ClampIndex(start, |s|);
    if k < |s| then s[..k] + s[k + 1..] else s
  }

  // ---------------------------------------------------------------------
  // Strings: occurrence, indexOf, replace, split, join, trim
  // ---------------------------------------------------------------------

  /** `p` occurs in `s` starting at index `i`. */
  predicate OccursAt(s: string, p: string, i: nat) {
    i + |p| <= |s| && s[i..i + |p|] == p
  }

  /** `s.includes(p)`. */
  predicate Contains(s: string, p: string) {
    exists i: nat | i <= |s| :: OccursAt(s, p, i)
  }

  /** The search of `s.indexOf(p, from)`: the least index at or after `from`
      where `p` occurs, or None (JavaScript's -1). */
  function IndexOfFrom(s: string, p: string, from: nat): (r: Option<nat>)
    requires from <= |s|
    ensures r.Some? ==> from <= r.value && OccursAt(s, p, r.value)
    ensures r.Some? ==> forall j: nat :: from <= j < r.value ==> !OccursAt(s, p, j)
    ensures r.None? ==> forall j: nat :: from <= j ==> !OccursAt(s, p, j)
    decreases |s| - from
  {
    if OccursAt(s, p, from) then Some(from)
    else if from == |s| then None
    else IndexOfFrom(s, p, from + 1)
  }

  /** `s.indexOf(p)`. */
  function IndexOf(s: string, p: string): Option<nat>
  {
    IndexOfFrom(s, p, 0)
  }

  /** `s.replace(p, rep)` with a string pattern: only the first occurrence is
      replaced.  `rep` is taken literally (the modelled replacements hold no `$`). */
  function ReplaceFirst(s: string, p: string, rep: string): string
  {
    match IndexOf(s, p)
    case None => s
    case Some(i) => s[..i] + rep + s[i + |p|..]
  }

  /** `s.replace(/p/g, rep)` for a regular expression that matches the
      non-empty literal `p`: matches are found left to right and do not
      overlap; `rep` is taken literally. */
  function ReplaceAll(s: string, p: string, rep: string): string
    requires |p| > 0
    decreases |s|
  {
    if s == [] then []
    else if OccursAt(s, p, 0) then rep + ReplaceAll(s[|p|..], p, rep)
    else [s[0]] + ReplaceAll(s[1..], p, rep)
  }

  /** `s.split(sep)` for a one-character separator and no limit. */
  function Split(s: string, sep: char): (parts: seq<string>)
    ensures |parts| >= 1
    ensures forall i :: 0 <= i < |parts| ==> sep !in parts[i]
    decreases |s|
  {
    if s == [] then [""]
    else
      var rest := Split(s[1..], sep);
      if s[0] == sep then [""] + rest
      else [[s[0]] + rest[0]] + rest[1..]
  }

  /** A string without the separator splits into itself alone. */
  lemma {:induction false} SplitWithoutSeparator(s: string, sep: char)
    requires sep !in s
    ensures Split(s, sep) == [s]
    decreases |s|
  {
    if s != [] {
      SplitWithoutSeparator(s[1..], sep);
      assert [s[0]] + s[1..] == s;
    }
  }

  /** Splitting at the first separator peels off the part before it. */
  lemma {:induction false} SplitAtFirstSeparator(a: string, sep: char, b: string)
    requires sep !in a
    ensures Split(a + [sep] + b, sep) == [a] + Split(b, sep)
    decreases |a|
  {
    if a == [] {
      assert a + [sep] + b == [sep] + b;
    } else {
      SplitAtFirstSeparator(a[1..], sep, b);
      assert (a + [sep] + b)[1..] == a[1..] + [sep] + b;
      assert [a[0]] + a[1..] == a;
    }
  }

  /** `xs.join(sep)` on an array of strings; the empty array joins to "". */
  function Join(xs: seq<string>, sep: string): string
  {
    if xs == [] then ""
    else if |xs| == 1 then xs[0]
    else xs[0] + sep + Join(xs[1..], sep)
  }

  /** WhiteSpace and LineTerminator code points (sections 12.2 and 12.3):
      TAB, VT, FF, SP, NBSP, ZWNBSP, the Unicode space separators, LF, CR,
      LINE SEPARATOR and PARAGRAPH SEPARATOR. */
  predicate IsTrimmable(c: char) {
    var n := c as int;
    n == 0x09 || n == 0x0B || n == 0x0C || n == 0x20 || n == 0xA0 || n == 0xFEFF
    || n == 0x1680 || (0x2000 <= n <= 0x200A) || n == 0x202F || n == 0x205F || n == 0x3000
    || n == 0x0A || n == 0x0D || n == 0x2028 || n == 0x2029
  }

  /** The leading-side half of `s.trim()`: drops every trimmable character
      before the first one that is not. */
  function TrimStart(s: string): (r: string)
    ensures |r| <= |s| && r == s[|s| - |r|..]
    ensures forall i :: 0 <= i < |s| - |r| ==> IsTrimmable(s[i])
    ensures r == [] || !IsTrimmable(r[0])
    decreases |s|
  {
    if s != [] && IsTrimmable(s[0]) then TrimStart(s[1..]) else s
  }

  /** The trailing-side half of `s.trim()`. */
  function TrimEnd(s: string): (r: string)
    ensures |r| <= |s| && r == s[..|r|]
    ensures forall i :: |r| <= i < |s| ==> IsTrimmable(s[i])
    ensures r == [] || !IsTrimmable(r[|r| - 1])
    decreases |s|
  {
    if s != [] && IsTrimmable(s[|s| - 1]) then TrimEnd(s[..|s| - 1]) else s
  }

  /** `s.trim()`. */
  function Trim(s: string): string
  {
    TrimEnd(TrimStart(s))
  }
}
