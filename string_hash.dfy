/**
 * `stringToHash` (query-insights-extension/src/utils.js and its copy in
 * src/utils.js, which differs only in comparing the length with `==`
 * instead of `===`, the same test on numbers).
 *
 * A JavaScript string is read through `charCodeAt`, so the hash is a
 * function of the string's UTF-16 code units.
 */
module StringHash {
  import opened JsSemantics

  /** A UTF-16 code unit, the value `charCodeAt` returns. */
  type CodeUnit = c: int | 0 <= c < 0x1_0000

  /** The hash of `s`: starting from 0, each code unit `c` updates the hash
      to ToInt32(31 * hash + c). */
  function Hash(s: seq<CodeUnit>): (h: int)
    ensures IsInt32(h)
  {
    if s == [] then 0 else ToInt32(31 * Hash(s[..|s| - 1]) + s[|s| - 1])
  }

  /** `(hash << 5) - hash + code` differs from 31 * hash + code by a multiple of 2^32. */
  lemma ShiftStepCongruent(hash: int, code: int)
    requires IsInt32(hash)
    ensures ((31 * hash + code) - (ShiftLeft(hash, 5) - hash + code)) % TWO_32 == 0
  {
    ShiftLeftFive(hash);
    assert (31 * hash + code) - (ShiftLeft(hash, 5) - hash + code) == 32 * hash - ToInt32(32 * hash);
  }

  /** One loop iteration, `hash = ((hash << 5) - hash) + char; hash = hash & hash`,
      is hash := ToInt32(31 * hash + code): `<<` wraps 32 * hash into 32 bits,
      the subtraction and addition are exact on these magnitudes, and
      `x & x` is ToInt32(x). */
  lemma IterationIsPolynomialStep(hash: int, code: CodeUnit)
    requires IsInt32(hash)
    ensures var t := ShiftLeft(hash, 5) - hash + code;
            BitAnd(t, t) == ToInt32(31 * hash + code)
  {
    var t := ShiftLeft(hash, 5) - hash + code;
    ShiftStepCongruent(hash, code);
    BitAndSelf(t);
    ToInt32Congruent(31 * hash + code, t);
  }

  /** The loop's step on the hash of the first `i` code units gives the hash
      of the first `i + 1`. */
  lemma LoopStep(s: seq<CodeUnit>, i: nat, hash: int)
    requires i < |s| && hash == Hash(s[..i])
    ensures var t := ShiftLeft(hash, 5) - hash + s[i];
            BitAnd(t, t) == Hash(s[..i + 1])
  {
    IterationIsPolynomialStep(hash, s[i]);
    HashOfLongerPrefix(s, i);
  }

  /** The hash of the first `i + 1` code units takes one step from the hash of the first `i`. */
  lemma HashOfLongerPrefix(s: seq<CodeUnit>, i: nat)
    requires i < |s|
    ensures Hash(s[..i + 1]) == ToInt32(31 * Hash(s[..i]) + s[i])
  {
    assert s[..i + 1][..i] == s[..i];
  }

  /** `stringToHash(string)`: the early return for the empty string, then the
      accumulator loop over the code units. */
  method StringToHash(s: seq<CodeUnit>) returns (hash: int)
    ensures hash == Hash(s)
    ensures IsInt32(hash)
  {
    hash := 0;
    if |s| == 0 {
      return hash;
    }
    for i := 0 to |s|
      invariant hash == Hash(s[..i])
    {
      var code := s[i];
      LoopStep(s, i, hash);
      hash := ShiftLeft(hash, 5) - hash + code;
      hash := BitAnd(hash, hash);
    }
    assert s[..|s|] == s;
  }

  /** Appending a code unit takes one more step from the hash of the prefix. */
  lemma HashAppend(s: seq<CodeUnit>, c: CodeUnit)
    ensures Hash(s + [c]) == ToInt32(31 * Hash(s) + c)
  {
    assert (s + [c])[..|s|] == s;
  }

  // ---------------------------------------------------------------------
  // The same value as java.lang.String.hashCode
  // ---------------------------------------------------------------------

  function Pow31(n: nat): nat
  {
    if n == 0 then 1 else 31 * Pow31(n - 1)
  }

  /** s[0]*31^(n-1) + s[1]*31^(n-2) + ... + s[n-1], computed without wrap-around. */
  function PolynomialSum(s: seq<CodeUnit>): int
  {
    if s == [] then 0 else s[0] * Pow31(|s| - 1) + PolynomialSum(s[1..])
  }

  lemma {:induction false} PolynomialSumAppend(s: seq<CodeUnit>, c: CodeUnit)
    ensures PolynomialSum(s + [c]) == 31 * PolynomialSum(s) + c
    decreases |s|
  {
    if s == [] {
      assert PolynomialSum([c]) == c * Pow31(0) + PolynomialSum([]);
    } else {
      assert (s + [c])[1..] == s[1..] + [c];
      PolynomialSumAppend(s[1..], c);
      assert s[0] * Pow31(|s|) == 31 * (s[0] * Pow31(|s| - 1));
    }
  }

  /** The hash is the polynomial sum taken modulo 2^32 as a signed value,
      the formula of java.lang.String.hashCode: the loop's wrap-around at
      every step loses nothing compared with wrapping once at the end. */
  lemma {:induction false} HashIsWrappedPolynomial(s: seq<CodeUnit>)
    ensures Hash(s) == ToInt32(PolynomialSum(s))
    decreases |s|
  {
    if s != [] {
      var front, c := s[..|s| - 1], s[|s| - 1];
      assert s == front + [c];
      HashIsWrappedPolynomial(front);
      PolynomialSumAppend(front, c);
      var p := PolynomialSum(front);
      var k := (p - ToInt32(p)) / TWO_32;
      assert p - ToInt32(p) == k * TWO_32;
      assert 31 * ToInt32(p) + c == 31 * p + c + (-31 * k) * TWO_32;
      ToInt32Periodic(31 * p + c, -31 * k);
    }
  }
}
