/**
 * `truncateDataForLLM` and its cost function `estimateTokens`
 * (query-insights-extension/src/composables/useLookerVertexMessage.js).
 *
 * The rows are a sequence of any type; `len(item)` stands for
 * `JSON.stringify(item).length`.  The loop keeps the first and last
 * `halfMax` rows and then drops rows until the summed cost fits the token
 * limit or two rows are left.  Because the removal index is `halfMax` once
 * only `halfMax` rows remain, and `splice` at the end of an array removes
 * nothing, the loop can spin forever; `Shrink` returns None exactly then.
 */
module Sampler {
  import opened JsSemantics

  // ---------------------------------------------------------------------
  // estimateTokens
  // ---------------------------------------------------------------------

  /** `arr.reduce((sum, item) => sum + len(item), 0)`: a left fold. */
  function EstimateTokens<T>(arr: seq<T>, len: T -> nat): nat
  {
    if arr == [] then 0 else EstimateTokens(arr[..|arr| - 1], len) + len(arr[|arr| - 1])
  }

  /** The cost of a concatenation is the sum of the costs. */
  lemma {:induction false} EstimateTokensConcat<T>(a: seq<T>, b: seq<T>, len: T -> nat)
    ensures EstimateTokens(a + b, len) == EstimateTokens(a, len) + EstimateTokens(b, len)
    decreases |b|
  {
    if b != [] {
      assert (a + b)[..|a + b| - 1] == a + b[..|b| - 1];
      assert (a + b)[|a + b| - 1] == b[|b| - 1];
      EstimateTokensConcat(a, b[..|b| - 1], len);
    } else {
      assert a + b == a;
    }
  }

  /** Dropping rows from the end never raises the cost. */
  lemma EstimateTokensPrefix<T>(s: seq<T>, k: nat, len: T -> nat)
    requires k <= |s|
    ensures EstimateTokens(s[..k], len) <= EstimateTokens(s, len)
  {
    assert s == s[..k] + s[k..];
    EstimateTokensConcat(s[..k], s[k..], len);
  }

  /** Removing one row with `splice`, wherever it is, never raises the cost. */
  lemma EstimateTokensSplice<T>(s: seq<T>, start: int, len: T -> nat)
    ensures EstimateTokens(SpliceOne(s, start), len) <= EstimateTokens(s, len)
  {
    var k := ClampIndex(start, |s|);
    if k < |s| {
      assert s == s[..k] + ([s[k]] + s[k + 1..]);
      EstimateTokensConcat(s[..k], [s[k]] + s[k + 1..], len);
      EstimateTokensConcat([s[k]], s[k + 1..], len);
      EstimateTokensConcat(s[..k], s[k + 1..], len);
    }
  }

  // ---------------------------------------------------------------------
  // The pieces of truncateDataForLLM
  // ---------------------------------------------------------------------

  /** `[...data.slice(0, halfMax), ...data.slice(-halfMax)]` with `halfMax = Math.floor(maxRows / 2)`. */
  function InitialSample<T>(data: seq<T>, maxRows: int): seq<T>
  {
    var halfMax := maxRows / 2;
    Slice(data, 0, halfMax) + SliceFrom(data, -halfMax)
  }

  /** `result.length > halfMax ? result.length - 1 : halfMax`. */
  function RemoveIndex(length: nat, halfMax: int): int
  {
    if length > halfMax then length - 1 else halfMax
  }

  /** The loop condition: `estimateTokens(result) > tokenLimit && result.length > 2`. */
  predicate OverBudget<T>(r: seq<T>, tokenLimit: int, len: T -> nat)
  {
    EstimateTokens(r, len) > tokenLimit && |r| > 2
  }

  /** What the loop returns when started on `r`, or None when it never
      exits: that happens when an iteration's splice removes nothing, since
      the state, and so the loop condition, then stays the same for ever. */
  function Shrink<T>(r: seq<T>, halfMax: int, tokenLimit: int, len: T -> nat): Option<seq<T>>
    decreases |r|
  {
    if !OverBudget(r, tokenLimit, len) then Some(r)
    else
      var next := SpliceOne(r, RemoveIndex(|r|, halfMax));
      if |next| < |r| then Shrink(next, halfMax, tokenLimit, len) else None
  }

  /** The value `truncateDataForLLM` returns, or None when it does not return. */
  function Truncate<T>(data: seq<T>, maxRows: int, tokenLimit: int, len: T -> nat): Option<seq<T>>
  {
    if |data| <= maxRows then Some(data)
    else Shrink(InitialSample(data, maxRows), maxRows / 2, tokenLimit, len)
  }

  /** The inputs on which `truncateDataForLLM` returns (see TruncateReturnsIff). */
  predicate Returns<T>(data: seq<T>, maxRows: int, tokenLimit: int, len: T -> nat)
  {
    |data| <= maxRows
    || !(maxRows / 2 > 2 && EstimateTokens(data[..maxRows / 2], len) > tokenLimit)
  }

  // ---------------------------------------------------------------------
  // truncateDataForLLM
  // ---------------------------------------------------------------------

  /** `truncateDataForLLM(data, maxRows, tokenLimit, estimateTokens)`, with
      `estimateTokens` the summed per-row length.  `result` is the local
      array the loop shrinks with `splice`.  It is only called on inputs on
      which the source's loop ends. */
  method TruncateDataForLLM<T>(data: seq<T>, maxRows: int, tokenLimit: int, len: T -> nat)
    returns (result: seq<T>)
    requires Returns(data, maxRows, tokenLimit, len)
    ensures Truncate(data, maxRows, tokenLimit, len) == Some(result)
    ensures |data| <= maxRows ==> result == data
    ensures |data| > maxRows ==>
              |result| <= |InitialSample(data, maxRows)| && result == InitialSample(data, maxRows)[..|result|]
    ensures |data| > maxRows ==> !OverBudget(result, tokenLimit, len)
  {
    if |data| <= maxRows {
      return data;
    }
    var halfMax := maxRows / 2;
    result := Slice(data, 0, halfMax) + SliceFrom(data, -halfMax);
    ghost var initial := result;
    assert initial == InitialSample(data, maxRows);
    TruncateReturnsIff(data, maxRows, tokenLimit, len);
    assert initial[..|initial|] == initial;
    while EstimateTokens(result, len) > tokenLimit && |result| > 2
      invariant Shrink(result, halfMax, tokenLimit, len) == Shrink(initial, halfMax, tokenLimit, len)
      invariant |result| <= |initial| && result == initial[..|result|]
      decreases |result|
    {
      var removeIndex := if |result| > halfMax then |result| - 1 else halfMax;
      IterationKeepsInvariant(initial, result, halfMax, tokenLimit, len);
      result := SpliceOne(result, removeIndex);
    }
  }

  /** One iteration of a loop that returns removes the last row and does not change what the loop returns. */
  lemma ShrinkStep<T>(r: seq<T>, halfMax: int, tokenLimit: int, len: T -> nat)
    requires OverBudget(r, tokenLimit, len) && Shrink(r, halfMax, tokenLimit, len).Some?
    ensures |r| > halfMax
    ensures SpliceOne(r, |r| - 1) == r[..|r| - 1]
    ensures Shrink(r[..|r| - 1], halfMax, tokenLimit, len) == Shrink(r, halfMax, tokenLimit, len)
  {
  }

  /** An iteration of the loop, on a prefix of the initial sample from
      which the loop returns, removes the prefix's last row and keeps what
      the loop returns. */
  lemma IterationKeepsInvariant<T>(initial: seq<T>, r: seq<T>, halfMax: int, tokenLimit: int, len: T -> nat)
    requires OverBudget(r, tokenLimit, len)
    requires Shrink(r, halfMax, tokenLimit, len) == Shrink(initial, halfMax, tokenLimit, len)
    requires Shrink(initial, halfMax, tokenLimit, len).Some?
    requires |r| <= |initial| && r == initial[..|r|]
    ensures |r| > halfMax
    ensures var next := SpliceOne(r, |r| - 1);
            && Shrink(next, halfMax, tokenLimit, len) == Shrink(initial, halfMax, tokenLimit, len)
            && |next| == |r| - 1 && next == initial[..|next|]
  {
    ShrinkStep(r, halfMax, tokenLimit, len);
    assert initial[..|r|][..|r| - 1] == initial[..|r| - 1];
  }

  // ---------------------------------------------------------------------
  // What the loop computes
  // ---------------------------------------------------------------------

  /** A shorter prefix never costs more than a longer one. */
  lemma PrefixCostMonotone<T>(initial: seq<T>, j: nat, k: nat, len: T -> nat)
    requires j <= k <= |initial|
    ensures EstimateTokens(initial[..j], len) <= EstimateTokens(initial[..k], len)
  {
    EstimateTokensPrefix(initial[..k], j, len);
    assert initial[..k][..j] == initial[..j];
  }

  /** Past `halfMax` rows, an iteration removes the last row of the prefix. */
  lemma SpliceDropsLast<T>(initial: seq<T>, k: nat, halfMax: int)
    requires 0 < k <= |initial| && halfMax < k
    ensures SpliceOne(initial[..k], RemoveIndex(k, halfMax)) == initial[..k - 1]
  {
    assert initial[..k][..k - 1] == initial[..k - 1];
  }

  /** Started on a prefix of `initial` at least `halfMax` long, the loop
      either returns the longest prefix that is not over budget, with every
      longer prefix over budget, or never returns; it never returns exactly
      when the prefix of length `halfMax` is still over budget. */
  lemma {:induction false} ShrinkPrefixes<T>(initial: seq<T>, k: nat, halfMax: int, tokenLimit: int, len: T -> nat)
    requires halfMax <= k <= |initial|
    ensures Shrink(initial[..k], halfMax, tokenLimit, len).None? <==>
              (halfMax > 2 && EstimateTokens(initial[..halfMax], len) > tokenLimit)
    ensures Shrink(initial[..k], halfMax, tokenLimit, len).Some? ==>
              var r := Shrink(initial[..k], halfMax, tokenLimit, len).value;
              |r| <= k && r == initial[..|r|] && !OverBudget(r, tokenLimit, len)
              && forall j :: |r| < j <= k ==> OverBudget(initial[..j], tokenLimit, len)
    decreases k
  {
    var r := initial[..k];
    if halfMax >= 0 {
      PrefixCostMonotone(initial, halfMax, k, len);
    }
    if OverBudget(r, tokenLimit, len) {
      if k > halfMax {
        SpliceDropsLast(initial, k, halfMax);
        ShrinkPrefixes(initial, k - 1, halfMax, tokenLimit, len);
      } else {
        StuckIterationIsNoOp(r, halfMax, tokenLimit, len);
      }
    }
  }

  /** The splice an iteration performs once only `halfMax` rows are left
      removes nothing, so while those rows are over budget the loop body
      leaves its state, and the loop condition, unchanged. */
  lemma StuckIterationIsNoOp<T>(r: seq<T>, halfMax: int, tokenLimit: int, len: T -> nat)
    requires |r| <= halfMax
    ensures SpliceOne(r, RemoveIndex(|r|, halfMax)) == r
    ensures Shrink(r, halfMax, tokenLimit, len).None? == OverBudget(r, tokenLimit, len)
  {
  }

  /** The sample the loop starts from: the first and last `halfMax` rows,
      which cannot overlap since `2 * halfMax <= maxRows < |data|`; for
      `maxRows` 0 or 1, `slice(-0)` makes it the whole input. */
  lemma InitialSampleShape<T>(data: seq<T>, maxRows: int)
    requires 0 <= maxRows < |data|
    ensures maxRows / 2 == 0 ==> InitialSample(data, maxRows) == data
    ensures maxRows / 2 >= 1 ==>
              InitialSample(data, maxRows) == data[..maxRows / 2] + data[|data| - maxRows / 2..]
              && |InitialSample(data, maxRows)| == 2 * (maxRows / 2) <= maxRows < |data|
  {
  }

  /** With a negative `maxRows` the two slices overlap: five rows and
      `maxRows == -4` give a six-row sample that repeats the third row. */
  lemma NegativeMaxRowsOverlaps()
    ensures InitialSample([1, 2, 3, 4, 5], -4) == [1, 2, 3, 3, 4, 5]
  {
    assert Slice([1, 2, 3, 4, 5], 0, -2) == [1, 2, 3];
    assert SliceFrom([1, 2, 3, 4, 5], 2) == [3, 4, 5];
  }

  /** `truncateDataForLLM` fails to return exactly when more rows than
      `maxRows` come in, `halfMax` exceeds 2, and the first `halfMax` rows
      alone are over the token limit. */
  lemma TruncateReturnsIff<T>(data: seq<T>, maxRows: int, tokenLimit: int, len: T -> nat)
    ensures Truncate(data, maxRows, tokenLimit, len).Some? <==> Returns(data, maxRows, tokenLimit, len)
  {
    if |data| > maxRows {
      var initial := InitialSample(data, maxRows);
      var h := maxRows / 2;
      if h >= 0 {
        InitialSampleShape(data, maxRows);
        assert h <= |initial|;
        if h >= 1 {
          assert initial[..h] == data[..h];
        }
      } else {
        assert h <= |initial|;
      }
      assert initial[..|initial|] == initial;
      ShrinkPrefixes(initial, |initial|, h, tokenLimit, len);
    }
  }

  /** When more rows than `maxRows` come in, the result is the longest prefix
      of the initial sample that is not over budget: it is not, and every
      longer prefix is. */
  lemma TruncateLongestWithinBudget<T>(data: seq<T>, maxRows: int, tokenLimit: int, len: T -> nat)
    requires |data| > maxRows
    requires Truncate(data, maxRows, tokenLimit, len).Some?
    ensures var r := Truncate(data, maxRows, tokenLimit, len).value;
            var initial := InitialSample(data, maxRows);
            && |r| <= |initial| && r == initial[..|r|]
            && !OverBudget(r, tokenLimit, len)
            && forall k :: |r| < k <= |initial| ==> OverBudget(initial[..k], tokenLimit, len)
  {
    var initial := InitialSample(data, maxRows);
    if maxRows >= 0 {
      InitialSampleShape(data, maxRows);
    }
    assert initial[..|initial|] == initial;
    ShrinkPrefixes(initial, |initial|, maxRows / 2, tokenLimit, len);
  }

  /** The number of rows returned: never more than `2 * halfMax <= maxRows`
      (nor than the input), at least two when the input has two, and at least
      `halfMax` when `halfMax > 2`. */
  lemma TruncateLength<T>(data: seq<T>, maxRows: int, tokenLimit: int, len: T -> nat)
    requires 0 <= maxRows < |data|
    requires Truncate(data, maxRows, tokenLimit, len).Some?
    ensures var r := Truncate(data, maxRows, tokenLimit, len).value;
            var h := maxRows / 2;
            && |r| <= |data| && (|data| >= 2 ==> |r| >= 2)
            && (h >= 1 ==> |r| <= 2 * h <= maxRows)
            && (h > 2 ==> |r| >= h)
  {
    var initial := InitialSample(data, maxRows);
    var h := maxRows / 2;
    InitialSampleShape(data, maxRows);
    TruncateLongestWithinBudget(data, maxRows, tokenLimit, len);
    TruncateReturnsIff(data, maxRows, tokenLimit, len);
    assert |data| >= 2 ==> !OverBudget(initial[..2], tokenLimit, len);
    assert h > 2 ==> initial[..h] == data[..h];
  }

  /** The rows returned are the first rows of the head block followed by the
      first rows of the tail block, in input order. */
  lemma TruncateShape<T>(data: seq<T>, maxRows: int, tokenLimit: int, len: T -> nat)
    requires 0 <= maxRows < |data|
    requires Truncate(data, maxRows, tokenLimit, len).Some?
    ensures var r := Truncate(data, maxRows, tokenLimit, len).value;
            var h := maxRows / 2;
            && |r| <= |data|
            && (|r| <= h || h == 0 ==> r == data[..|r|])
            && (h < |r| && h >= 1 ==> |r| <= 2 * h && r == data[..h] + data[|data| - h..|data| - 2 * h + |r|])
  {
    var initial := InitialSample(data, maxRows);
    var h := maxRows / 2;
    InitialSampleShape(data, maxRows);
    TruncateLongestWithinBudget(data, maxRows, tokenLimit, len);
    var r := Truncate(data, maxRows, tokenLimit, len).value;
    if h >= 1 && |r| > h {
      var head, tail := data[..h], data[|data| - h..];
      assert initial == head + tail;
      assert r == (head + tail)[..|r|];
      assert (head + tail)[..|r|] == head + tail[..|r| - h];
      assert tail[..|r| - h] == data[|data| - h..|data| - 2 * h + |r|];
    }
  }

  /** The returned rows appear in the input, in the same order: there is an
      increasing map from result positions to input positions. */
  ghost predicate Embeds<T>(r: seq<T>, data: seq<T>, idx: seq<nat>)
  {
    && |idx| == |r|
    && (forall i :: 0 <= i < |idx| ==> idx[i] < |data| && data[idx[i]] == r[i])
    && (forall i, j :: 0 <= i < j < |idx| ==> idx[i] < idx[j])
  }

  /** A prefix of the input embeds in it position by position. */
  lemma PrefixEmbeds<T>(r: seq<T>, data: seq<T>)
    requires |r| <= |data| && r == data[..|r|]
    ensures Embeds(r, data, seq(|r|, i => i))
  {
  }

  /** The first `h` rows followed by rows from the last `h` embed in the input. */
  lemma HeadAndTailEmbed<T>(r: seq<T>, data: seq<T>, h: nat)
    requires h < |r| <= 2 * h <= |data|
    requires r == data[..h] + data[|data| - h..|data| - 2 * h + |r|]
    ensures Embeds(r, data, seq(|r|, i => if i < h then i else |data| - 2 * h + i))
  {
  }

  /** For `maxRows >= 0` the result is an order-preserving subsequence of the input. */
  lemma TruncateIsSubsequence<T>(data: seq<T>, maxRows: int, tokenLimit: int, len: T -> nat)
    requires 0 <= maxRows
    requires Truncate(data, maxRows, tokenLimit, len).Some?
    ensures exists idx :: Embeds(Truncate(data, maxRows, tokenLimit, len).value, data, idx)
  {
    var r := Truncate(data, maxRows, tokenLimit, len).value;
    if |data| <= maxRows {
      assert data[..|r|] == data;
      PrefixEmbeds(r, data);
    } else {
      TruncateShape(data, maxRows, tokenLimit, len);
      var h := maxRows / 2;
      if |r| <= h || h == 0 {
        PrefixEmbeds(r, data);
      } else {
        HeadAndTailEmbed(r, data, h);
      }
    }
  }

  /** The row and token budgets `useLookerVertexMessage` passes in. */
  const MAX_ROWS: int := 500
  const TOKEN_LIMIT: int := 1000000

  /** With those budgets, truncation returns exactly when the input has at
      most 500 rows or its first 250 rows fit in 1,000,000 tokens. */
  lemma SendMessageTruncationReturnsIff<T>(data: seq<T>, len: T -> nat)
    ensures Truncate(data, MAX_ROWS, TOKEN_LIMIT, len).Some? <==>
              (|data| <= 500 || EstimateTokens(data[..250], len) <= 1000000)
  {
    TruncateReturnsIff(data, MAX_ROWS, TOKEN_LIMIT, len);
  }

  /** Raising the token limit never makes the result shorter. */
  lemma TruncateMonotoneInLimit<T>(data: seq<T>, maxRows: int, limit1: int, limit2: int, len: T -> nat)
    requires limit1 <= limit2
    requires Truncate(data, maxRows, limit1, len).Some? && Truncate(data, maxRows, limit2, len).Some?
    ensures |Truncate(data, maxRows, limit1, len).value| <= |Truncate(data, maxRows, limit2, len).value|
  {
    if |data| > maxRows {
      var initial := InitialSample(data, maxRows);
      var h := maxRows / 2;
      assert initial[..|initial|] == initial;
      if h > |initial| {
        // Only a negative `maxRows` could make the sample shorter than `halfMax`; it never is.
        InitialSampleShape(data, maxRows);
      }
      ShrinkPrefixes(initial, |initial|, h, limit1, len);
      ShrinkPrefixes(initial, |initial|, h, limit2, len);
    }
  }

  /** When the first and last `halfMax` rows already fit the limit, they are
      returned as they are. */
  lemma HeadAndTailWhenWithinLimit<T>(data: seq<T>, maxRows: int, tokenLimit: int, len: T -> nat)
    requires 2 <= maxRows < |data|
    requires EstimateTokens(InitialSample(data, maxRows), len) <= tokenLimit
    ensures Truncate(data, maxRows, tokenLimit, len)
            == Some(data[..maxRows / 2] + data[|data| - maxRows / 2..])
  {
    InitialSampleShape(data, maxRows);
  }
}
