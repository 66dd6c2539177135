/**
 * The text-handling part of `useLookerVertexMessage.js` (both copies:
 * query-insights-extension/src/composables/ and src/composables/): the
 * rows-to-prompt formatter, the BigQuery ML.GENERATE_TEXT statement built
 * around the escaped prompt, the cleaning of the model's response, and the
 * remaining UtilsHelper members of the src copy.
 */
module VertexMessage {
  import opened JsSemantics
  import opened Escaping

  // ---------------------------------------------------------------------
  // formatValuesToString
  // ---------------------------------------------------------------------

  /** `formatValuesToString(data)`: the rows joined with line breaks. */
  function FormatValuesToString(rows: seq<string>): string
  {
    Join(rows, "\n")
  }

  /** Rows without line breaks of their own can be recovered by splitting the
      formatted text at its line breaks. */
  lemma {:induction false} FormatValuesRoundTrip(rows: seq<string>)
    requires |rows| > 0
    requires forall i :: 0 <= i < |rows| ==> '\n' !in rows[i]
    ensures Split(FormatValuesToString(rows), '\n') == rows
    decreases |rows|
  {
    if |rows| == 1 {
      SplitWithoutSeparator(rows[0], '\n');
    } else {
      FormatValuesRoundTrip(rows[1..]);
      SplitAtFirstSeparator(rows[0], '\n', Join(rows[1..], "\n"));
      assert rows[0] + "\n" + Join(rows[1..], "\n") == rows[0] + ['\n'] + Join(rows[1..], "\n");
      assert [rows[0]] + rows[1..] == rows;
    }
  }

  // ---------------------------------------------------------------------
  // generateSQL
  // ---------------------------------------------------------------------

  /** The text of a generateSQL template around its three placeholders:
      the model id, the prompt subselect and the temperature. */
  datatype Template = Template(head: string, beforeSubselect: string, beforeTemperature: string, tail: string)

  /** The template of the query-insights-extension copy. */
  const QI_TEMPLATE: Template := Template(
    "\n      SELECT ml_generate_text_llm_result AS generated_content\n      FROM ML.GENERATE_TEXT(\n        MODEL `",
    "`,\n        (",
    "),\n        STRUCT(\n          ",
    " AS temperature,\n          1024 AS max_output_tokens,\n          0.98 AS top_p,\n          TRUE AS flatten_json_output,\n          1 AS top_k\n        )\n      )\n    ")

  /** The template of the src copy. */
  const SRC_TEMPLATE: Template := Template(
    "\n        \n          SELECT ml_generate_text_llm_result AS generated_content\n          FROM\n          ML.GENERATE_TEXT(\n              MODEL `",
    "`,\n              (\n                ",
    "\n              ),\n              STRUCT(\n              ",
    " AS temperature,\n              1024 AS max_output_tokens,\n              0.98 AS top_p,\n              TRUE AS flatten_json_output,\n              1 AS top_k)\n            )\n        \n            ")

  /** The text in front of the prompt literal's body in a subselect. */
  const SUBSELECT_OPEN: string := "SELECT '"
  /** The text behind the prompt literal's closing quote in a subselect. */
  const SUBSELECT_CLOSE: string := " AS prompt"

  /** `generateSQL(model_id, prompt, temperature)`: the template filled with
      the model id, the subselect of the escaped prompt and the temperature,
      which is the text the template conversion produces. The
      query-insights-extension copy is `GenerateSql(QI_TEMPLATE, ...)`, the
      src copy (whose extra `parameters` argument is not used) is
      `GenerateSql(SRC_TEMPLATE, ...)`. */
  function GenerateSql(t: Template, modelId: string, prompt: string, temperature: string): string
  {
    t.head + modelId + t.beforeSubselect + (SUBSELECT_OPEN + EscapeQueryAll(prompt) + "'" + SUBSELECT_CLOSE)
    + t.beforeTemperature + temperature + t.tail
  }

  /** Where the prompt literal's body starts in the statement. */
  function PromptStart(t: Template, modelId: string): nat
  {
    |t.head| + |modelId| + |t.beforeSubselect| + |SUBSELECT_OPEN|
  }

  /** What follows the literal's closing quote. */
  function AfterLiteral(t: Template, temperature: string): string
  {
    SUBSELECT_CLOSE + (t.beforeTemperature + temperature + t.tail)
  }

  /** Cut at the literal's body, a statement is the escaped prompt, the closing quote and the rest. */
  lemma GenerateSqlSplitsAtLiteral(t: Template, modelId: string, prompt: string, temperature: string)
    ensures var sql := GenerateSql(t, modelId, prompt, temperature);
            PromptStart(t, modelId) <= |sql|
            && sql[..PromptStart(t, modelId)] == t.head + modelId + t.beforeSubselect + SUBSELECT_OPEN
            && sql[PromptStart(t, modelId)..] == EscapeQueryAll(prompt) + "'" + AfterLiteral(t, temperature)
  {
    var before := t.head + modelId + t.beforeSubselect + SUBSELECT_OPEN;
    var rest := EscapeQueryAll(prompt) + "'" + AfterLiteral(t, temperature);
    assert GenerateSql(t, modelId, prompt, temperature) == before + rest;
  }

  /** In `sql`, the string literal whose body starts at `k` decodes to
      `prompt` exactly, closes right after the escaped prompt, and is
      followed by " AS prompt". */
  ghost predicate PromptReadsBackAt(sql: string, k: nat, prompt: string)
  {
    var close := k + |EscapeQueryAll(prompt)|;
    && close + 1 + |SUBSELECT_CLOSE| <= |sql|
    && ReadLiteral(sql[k..]) == Some(Literal(prompt, |EscapeQueryAll(prompt)|))
    && sql[close + 1..close + 1 + |SUBSELECT_CLOSE|] == SUBSELECT_CLOSE
  }

  /** If the text from `k` on is `e`, a quote, `w` and more, then `w` sits right after the quote. */
  lemma TextAfterQuote(sql: string, k: nat, e: string, w: string, rest: string)
    requires k <= |sql| && sql[k..] == e + "'" + (w + rest)
    ensures k + |e| + 1 + |w| <= |sql| && sql[k + |e| + 1..k + |e| + 1 + |w|] == w
  {
    assert sql[k + |e| + 1..k + |e| + 1 + |w|] == sql[k..][|e| + 1..|e| + 1 + |w|];
  }

  /** A prompt without backslashes or carriage returns reads back from the
      subselect's literal: it can neither end the literal early nor break it
      over lines. */
  lemma GenerateSqlPromptReadsBack(t: Template, modelId: string, prompt: string, temperature: string)
    requires '\\' !in prompt && '\r' !in prompt
    ensures PromptReadsBackAt(GenerateSql(t, modelId, prompt, temperature), PromptStart(t, modelId), prompt)
  {
    var sql := GenerateSql(t, modelId, prompt, temperature);
    var k := PromptStart(t, modelId);
    var e := EscapeQueryAll(prompt);
    var rest := t.beforeTemperature + temperature + t.tail;
    GenerateSqlSplitsAtLiteral(t, modelId, prompt, temperature);
    assert sql[k..] == e + "'" + AfterLiteral(t, temperature);
    EscapedPromptReadsBack(prompt, AfterLiteral(t, temperature));
    assert ReadLiteral(sql[k..]) == Some(Literal(prompt, |e|));
    TextAfterQuote(sql, k, e, SUBSELECT_CLOSE, rest);
  }

  /** If the text from `k` on is `e`, a quote and `after`, the text past `e` is the quote and `after`. */
  lemma SuffixPastBody(sql: string, k: nat, e: string, after: string)
    requires k <= |sql| && sql[k..] == e + "'" + after
    ensures k + |e| <= |sql| && sql[k + |e|..] == "'" + after
  {
    assert sql[k + |e|..] == sql[k..][|e|..];
  }

  /** Two prompts give statements that agree everywhere outside the literal's body. */
  lemma GenerateSqlPromptOnlyInLiteral(t: Template, modelId: string, p1: string, p2: string, temperature: string)
    ensures var k := PromptStart(t, modelId);
            var s1, s2 := GenerateSql(t, modelId, p1, temperature), GenerateSql(t, modelId, p2, temperature);
            var e1, e2 := EscapeQueryAll(p1), EscapeQueryAll(p2);
            k + |e1| <= |s1| && k + |e2| <= |s2|
            && s1[..k] == s2[..k] && s1[k + |e1|..] == s2[k + |e2|..]
  {
    var k := PromptStart(t, modelId);
    GenerateSqlSplitsAtLiteral(t, modelId, p1, temperature);
    GenerateSqlSplitsAtLiteral(t, modelId, p2, temperature);
    SuffixPastBody(GenerateSql(t, modelId, p1, temperature), k, EscapeQueryAll(p1), AfterLiteral(t, temperature));
    SuffixPastBody(GenerateSql(t, modelId, p2, temperature), k, EscapeQueryAll(p2), AfterLiteral(t, temperature));
  }

  /** The prompt "\'x" (a backslash, a quote, an x) is read back as a lone
      backslash: the literal ends at the quote that escaping meant to
      protect, and the rest of the prompt lands in the statement itself. */
  lemma GenerateSqlBackslashEndsLiteral(t: Template, modelId: string, temperature: string)
    ensures var sql := GenerateSql(t, modelId, "\\'x", temperature);
            var k := PromptStart(t, modelId);
            k <= |sql| && ReadLiteral(sql[k..]) == Some(Literal("\\", 2))
  {
    GenerateSqlSplitsAtLiteral(t, modelId, "\\'x", temperature);
    BackslashClosesLiteralEarly(AfterLiteral(t, temperature));
  }

  /** Escaping leaves a carriage return raw, so a backslash-free prompt that
      holds one yields a statement whose prompt literal is not valid
      GoogleSQL. */
  lemma GenerateSqlCarriageReturnBreaksLiteral(t: Template, modelId: string, prompt: string, temperature: string)
    requires '\\' !in prompt && '\r' in prompt
    ensures var sql := GenerateSql(t, modelId, prompt, temperature);
            var k := PromptStart(t, modelId);
            k <= |sql| && ReadLiteral(sql[k..]).None?
  {
    GenerateSqlSplitsAtLiteral(t, modelId, prompt, temperature);
    CarriageReturnBreaksLiteral(prompt, AfterLiteral(t, temperature));
  }

  /** sendMessage escapes the user's context once while building the
      prompt, and generateSQL escapes the whole prompt again.  A context
      that starts with a quote then reaches BigQuery as backslash,
      backslash, quote: the literal ends right there, holding only the
      prompt text before the context and a backslash. */
  lemma ContextQuoteEndsPromptLiteral(t: Template, modelId: string, before: string, c: string, after: string, temperature: string)
    requires '\\' !in before && '\r' !in before
    ensures var prompt := before + EscapeQueryAll("'" + c) + after;
            var sql := GenerateSql(t, modelId, prompt, temperature);
            var k := PromptStart(t, modelId);
            k <= |sql| && ReadLiteral(sql[k..]) == Some(Literal(before + "\\", |EscapeQueryAll(before)| + 2))
  {
    var prompt := before + EscapeQueryAll("'" + c) + after;
    GenerateSqlSplitsAtLiteral(t, modelId, prompt, temperature);
    ContextQuoteClosesLiteral(before, c, after, AfterLiteral(t, temperature));
  }

  // ---------------------------------------------------------------------
  // getQueryFromPrompt (src copy)
  // ---------------------------------------------------------------------

  const NATIVE_OPEN: string := "SELECT llm.bq_vertex_remote('"
  const NATIVE_CLOSE: string := "') AS r, '' AS status "

  /** `UtilsHelper.getQueryFromPrompt(singleLineString, useNativeBQ)`: the
      remote-function call when `useNativeBQ == false`, the plain subselect
      otherwise. */
  function GetQueryFromPrompt(singleLineString: string, useNativeBQ: bool): string
  {
    if useNativeBQ == false then NATIVE_OPEN + singleLineString + NATIVE_CLOSE
    else SUBSELECT_OPEN + singleLineString + "'" + SUBSELECT_CLOSE
  }

  /** An escaped prompt placed between `before` and a text opening with the
      closing quote reads back as the prompt. */
  lemma LiteralReadsBackAt(before: string, prompt: string, closing: string)
    requires '\\' !in prompt && '\r' !in prompt
    requires closing != [] && closing[0] == '\''
    ensures ReadLiteral((before + EscapeQueryAll(prompt) + closing)[|before|..])
            == Some(Literal(prompt, |EscapeQueryAll(prompt)|))
  {
    assert (before + EscapeQueryAll(prompt) + closing)[|before|..] == EscapeQueryAll(prompt) + "'" + closing[1..];
    EscapedPromptReadsBack(prompt, closing[1..]);
  }

  /** An escaped prompt handed to getQueryFromPrompt reads back from the
      literal in either form. */
  lemma GetQueryFromPromptReadsBack(prompt: string, useNativeBQ: bool)
    requires '\\' !in prompt && '\r' !in prompt
    ensures var q := GetQueryFromPrompt(EscapeQueryAll(prompt), useNativeBQ);
            var k := if useNativeBQ then |SUBSELECT_OPEN| else |NATIVE_OPEN|;
            k <= |q| && ReadLiteral(q[k..]) == Some(Literal(prompt, |EscapeQueryAll(prompt)|))
  {
    var e := EscapeQueryAll(prompt);
    if useNativeBQ {
      LiteralReadsBackAt(SUBSELECT_OPEN, prompt, "'" + SUBSELECT_CLOSE);
      assert GetQueryFromPrompt(e, true) == SUBSELECT_OPEN + e + ("'" + SUBSELECT_CLOSE);
    } else {
      LiteralReadsBackAt(NATIVE_OPEN, prompt, NATIVE_CLOSE);
    }
  }

  /** The subselect generateSQL embeds is getQueryFromPrompt's plain
      `SELECT '…' AS prompt` form (useNativeBQ true) of the escaped prompt. */
  lemma GenerateSqlUsesPromptSubselect(t: Template, modelId: string, prompt: string, temperature: string)
    ensures GenerateSql(t, modelId, prompt, temperature)
            == t.head + modelId + t.beforeSubselect + GetQueryFromPrompt(EscapeQueryAll(prompt), true)
               + t.beforeTemperature + temperature + t.tail
  {
  }

  // ---------------------------------------------------------------------
  // Cleaning the generated content
  // ---------------------------------------------------------------------

  const FENCE: string := "```"
  const JSON_FENCE: string := "```json"

  /** `exploreData.replace(/```json/g, '').replace(/```/g, '').trim()`, the
      same in both copies. */
  function CleanGeneratedContent(exploreData: string): string
  {
    Trim(ReplaceAll(ReplaceAll(exploreData, JSON_FENCE, ""), FENCE, ""))
  }

  /** No three backticks in a row. */
  predicate NoFence(s: string)
  {
    forall i :: 0 <= i && i + 2 < |s| ==> !(s[i] == '`' && s[i + 1] == '`' && s[i + 2] == '`')
  }

  lemma NoFenceHasNoOccurrence(s: string)
    requires NoFence(s)
    ensures forall i: nat :: !OccursAt(s, FENCE, i)
    ensures !Contains(s, FENCE)
  {
    forall i: nat
      ensures !OccursAt(s, FENCE, i)
    {
      if i + 3 <= |s| {
        assert s[i..i + 3][0] == s[i] && s[i..i + 3][1] == s[i + 1] && s[i..i + 3][2] == s[i + 2];
      }
    }
  }

  /** Removing fences from a string that does not start with a backtick keeps its first character. */
  lemma RemoveFencesKeepsHead(t: string)
    requires t != [] && t[0] != '`'
    ensures ReplaceAll(t, FENCE, "") != [] && ReplaceAll(t, FENCE, "")[0] == t[0]
  {
    assert !OccursAt(t, FENCE, 0) by {
      if |t| >= 3 {
        assert t[0..3][0] == t[0];
      }
    }
  }

  /** After `.replace(/```/g, '')` no three backticks in a row remain: a run
      of backticks loses three at a time from its left end and keeps fewer
      than three, and a run removed entirely leaves two non-backticks side
      by side. */
  lemma {:induction false} RemoveFencesLeavesNone(s: string)
    ensures NoFence(ReplaceAll(s, FENCE, ""))
    decreases |s|
  {
    if s != [] {
      if OccursAt(s, FENCE, 0) {
        RemoveFencesLeavesNone(s[3..]);
        assert ReplaceAll(s, FENCE, "") == "" + ReplaceAll(s[3..], FENCE, "");
      } else {
        var t := s[1..];
        var rt := ReplaceAll(t, FENCE, "");
        RemoveFencesLeavesNone(t);
        var r := [s[0]] + rt;
        assert ReplaceAll(s, FENCE, "") == r;
        if s[0] == '`' && |t| > 0 {
          if t[0] != '`' {
            RemoveFencesKeepsHead(t);
          } else {
            assert !(|t| >= 2 && t[1] == '`') by {
              if |t| >= 2 {
                assert s[0..3][2] == t[1];
              }
            }
            assert !OccursAt(t, FENCE, 0) by {
              if |t| >= 3 {
                assert t[0..3][1] == t[1];
              }
            }
            var u := t[1..];
            assert rt == [t[0]] + ReplaceAll(u, FENCE, "");
            if u != [] {
              RemoveFencesKeepsHead(u);
            }
          }
        }
        assert forall i :: 1 <= i < |r| ==> r[i] == rt[i - 1];
      }
    }
  }

  /** A substring of a string without fences has none either. */
  lemma NoFenceInfix(s: string, a: nat, b: nat)
    requires a <= b <= |s| && NoFence(s)
    ensures NoFence(s[a..b])
  {
    assert forall i :: 0 <= i < b - a ==> s[a..b][i] == s[a + i];
  }

  /** `trim` leaves no trimmable character at either end. */
  lemma TrimEnds(s: string)
    ensures var r := Trim(s);
            r == [] || (!IsTrimmable(r[0]) && !IsTrimmable(r[|r| - 1]))
  {
    var ts := TrimStart(s);
    var r := TrimEnd(ts);
    if r != [] {
      assert r[0] == ts[0];
    }
  }

  /** No three backticks in a row survive the cleaning. */
  lemma CleanedHasNoFence(exploreData: string)
    ensures NoFence(CleanGeneratedContent(exploreData))
  {
    var unfenced := ReplaceAll(ReplaceAll(exploreData, JSON_FENCE, ""), FENCE, "");
    RemoveFencesLeavesNone(ReplaceAll(exploreData, JSON_FENCE, ""));
    var ts := TrimStart(unfenced);
    NoFenceInfix(unfenced, |unfenced| - |ts|, |unfenced|);
    NoFenceInfix(ts, 0, |TrimEnd(ts)|);
  }

  /** The cleaned content holds no code fence and starts and ends with a
      character that is not whitespace, whatever the model returned. */
  lemma CleanGeneratedContentFacts(exploreData: string)
    ensures var r := CleanGeneratedContent(exploreData);
            !Contains(r, FENCE)
            && (r == [] || (!IsTrimmable(r[0]) && !IsTrimmable(r[|r| - 1])))
  {
    CleanedHasNoFence(exploreData);
    NoFenceHasNoOccurrence(CleanGeneratedContent(exploreData));
    TrimEnds(ReplaceAll(ReplaceAll(exploreData, JSON_FENCE, ""), FENCE, ""));
  }

  /** A global replacement of a pattern that occurs nowhere changes nothing. */
  lemma {:induction false} ReplaceAllAbsent(s: string, p: string, rep: string)
    requires |p| > 0
    requires forall i: nat :: !OccursAt(s, p, i)
    ensures ReplaceAll(s, p, rep) == s
    decreases |s|
  {
    if s != [] {
      forall i: nat
        ensures !OccursAt(s[1..], p, i)
      {
        if i + |p| <= |s| - 1 {
          assert !OccursAt(s, p, i + 1);
          assert s[1..][i..i + |p|] == s[i + 1..i + 1 + |p|];
        }
      }
      ReplaceAllAbsent(s[1..], p, rep);
      assert [s[0]] + s[1..] == s;
    }
  }

  lemma TrimFixed(s: string)
    requires s == [] || (!IsTrimmable(s[0]) && !IsTrimmable(s[|s| - 1]))
    ensures Trim(s) == s
  {
  }

  /** Both global replacements leave a string without fences unchanged. */
  lemma RemovalsKeepUnfenced(r: string)
    requires NoFence(r)
    ensures ReplaceAll(ReplaceAll(r, JSON_FENCE, ""), FENCE, "") == r
  {
    NoFenceHasNoOccurrence(r);
    forall i: nat
      ensures !OccursAt(r, JSON_FENCE, i)
    {
      if i + 7 <= |r| {
        assert !OccursAt(r, FENCE, i);
        assert r[i..i + 3] == r[i..i + 7][..3];
        assert JSON_FENCE[..3] == FENCE;
      }
    }
    ReplaceAllAbsent(r, JSON_FENCE, "");
    ReplaceAllAbsent(r, FENCE, "");
  }

  /** Cleaning is idempotent: cleaned content passes through unchanged. */
  lemma CleanGeneratedContentIdempotent(exploreData: string)
    ensures CleanGeneratedContent(CleanGeneratedContent(exploreData)) == CleanGeneratedContent(exploreData)
  {
    var r := CleanGeneratedContent(exploreData);
    CleanedHasNoFence(exploreData);
    RemovalsKeepUnfenced(r);
    TrimEnds(ReplaceAll(ReplaceAll(exploreData, JSON_FENCE, ""), FENCE, ""));
    TrimFixed(r);
  }

  /** Text without backticks passes through a fence removal untouched. */
  lemma {:induction false} ReplaceAllSkipsPlain(b: string, tail: string, p: string, rep: string)
    requires '`' !in b && |p| > 0 && p[0] == '`'
    ensures ReplaceAll(b + tail, p, rep) == b + ReplaceAll(tail, p, rep)
    decreases |b|
  {
    if b == [] {
      assert b + tail == tail;
    } else {
      assert !OccursAt(b + tail, p, 0) by {
        if |p| <= |b + tail| {
          assert (b + tail)[0..|p|][0] == b[0];
        }
      }
      assert (b + tail)[1..] == b[1..] + tail;
      ReplaceAllSkipsPlain(b[1..], tail, p, rep);
      assert [b[0]] + b[1..] == b;
    }
  }

  /** The usual response, a body fenced as "```json … ```", is cleaned down to the trimmed body. */
  lemma CleanGeneratedContentFencedJson(body: string)
    requires '`' !in body
    ensures CleanGeneratedContent(JSON_FENCE + body + FENCE) == Trim(body)
  {
    var s := JSON_FENCE + body + FENCE;
    assert OccursAt(s, JSON_FENCE, 0) by {
      assert s[0..7] == JSON_FENCE;
    }
    assert s[7..] == body + FENCE;
    assert ReplaceAll(s, JSON_FENCE, "") == "" + ReplaceAll(body + FENCE, JSON_FENCE, "");
    ReplaceAllSkipsPlain(body, FENCE, JSON_FENCE, "");
    assert ReplaceAll(FENCE, JSON_FENCE, "") == FENCE by {
      ReplaceAllAbsent(FENCE, JSON_FENCE, "");
    }
    assert ReplaceAll(s, JSON_FENCE, "") == body + FENCE;
    ReplaceAllSkipsPlain(body, FENCE, FENCE, "");
    assert ReplaceAll(FENCE, FENCE, "") == "" by {
      assert OccursAt(FENCE, FENCE, 0);
      assert FENCE[3..] == "";
    }
    assert ReplaceAll(body + FENCE, FENCE, "") == body;
  }

  // ---------------------------------------------------------------------
  // cleanResult, firstElement, removeDuplicates (src copy)
  // ---------------------------------------------------------------------

  /** `UtilsHelper.cleanResult(originalString)`: removes the first "```json",
      then the first "```JSON", then the first "```". */
  function CleanResult(originalString: string): string
  {
    var fixedString := ReplaceFirst(originalString, JSON_FENCE, "");
    var fixedString' := ReplaceFirst(fixedString, "```JSON", "");
    ReplaceFirst(fixedString', FENCE, "")
  }

  /** No occurrence of a pattern that starts with a backtick begins inside backtick-free text. */
  lemma NoOccurrenceInPlain(body: string, tail: string, p: string, j: nat)
    requires '`' !in body && |p| > 0 && p[0] == '`' && j < |body|
    ensures !OccursAt(body + tail, p, j)
  {
    if j + |p| <= |body + tail| {
      assert (body + tail)[j..j + |p|][0] == body[j];
    }
  }

  /** A fenced JSON response loses both fences and keeps its body exactly. */
  lemma CleanResultFencedJson(body: string)
    requires '`' !in body
    ensures CleanResult(JSON_FENCE + body + FENCE) == body
  {
    var s := JSON_FENCE + body + FENCE;
    assert OccursAt(s, JSON_FENCE, 0) by {
      assert s[0..7] == JSON_FENCE;
    }
    assert IndexOf(s, JSON_FENCE) == Some(0);
    var t := body + FENCE;
    assert ReplaceFirst(s, JSON_FENCE, "") == t by {
      assert s[7..] == t;
    }
    forall j: nat
      ensures !OccursAt(t, "```JSON", j)
    {
      if j < |body| {
        NoOccurrenceInPlain(body, FENCE, "```JSON", j);
      }
    }
    assert ReplaceFirst(t, "```JSON", "") == t;
    assert OccursAt(t, FENCE, |body|) by {
      assert t[|body|..|body| + 3] == FENCE;
    }
    forall j: nat | j < |body|
      ensures !OccursAt(t, FENCE, j)
    {
      NoOccurrenceInPlain(body, FENCE, FENCE, j);
    }
    assert IndexOf(t, FENCE) == Some(|body|);
    assert t[..|body|] == body;
  }

  /** A backtick pattern is not found in backtick-free text, so replacing it changes nothing. */
  lemma ReplaceFirstAbsentFence(s: string, p: string)
    requires '`' !in s && |p| > 0 && p[0] == '`'
    ensures ReplaceFirst(s, p, "") == s
  {
    forall j: nat
      ensures !OccursAt(s, p, j)
    {
      if j < |s| {
        NoOccurrenceInPlain(s, "", p, j);
        assert s + "" == s;
      }
    }
    assert IndexOf(s, p) == None;
  }

  /** A response with no backtick at all passes through cleanResult unchanged. */
  lemma CleanResultWithoutBacktick(s: string)
    requires '`' !in s
    ensures CleanResult(s) == s
  {
    ReplaceFirstAbsentFence(s, JSON_FENCE);
    ReplaceFirstAbsentFence(s, "```JSON");
    ReplaceFirstAbsentFence(s, FENCE);
  }

  /** cleanResult removes one fence of each kind only, where the cleaner of the
      generated content removes them all. */
  lemma CleanersDifferOnRepeatedFences()
    ensures CleanResult("``````") == FENCE
    ensures CleanGeneratedContent("``````") == ""
  {
    var s := "``````";
    assert IndexOf(s, JSON_FENCE) == None;
    assert IndexOf(s, "```JSON") == None;
    assert OccursAt(s, FENCE, 0) by {
      assert s[0..3] == FENCE;
    }
    assert IndexOf(s, FENCE) == Some(0);
    assert s[3..] == FENCE;
    ReplaceAllAbsent(s, JSON_FENCE, "");
    assert ReplaceAll(s, FENCE, "") == "" + ReplaceAll(s[3..], FENCE, "");
    assert ReplaceAll(FENCE, FENCE, "") == "" by {
      assert OccursAt(FENCE, FENCE, 0);
    }
  }

  /** `UtilsHelper.firstElement(array)`: the first element, or `undefined` (None). */
  function FirstElement<T>(xs: seq<T>): (r: Option<T>)
    ensures r.None? <==> xs == []
    ensures r.Some? ==> r.value == xs[0]
  {
    if xs == [] then None else Some(xs[0])
  }

  /** `UtilsHelper.removeDuplicates(array)`, `Array.from(new Set(array))`:
      each element is added to the set in array order, and a set keeps the
      order in which its members were first added. */
  function RemoveDuplicates<T(==, !new)>(xs: seq<T>): (r: seq<T>)
    ensures forall x :: x in r <==> x in xs
    ensures forall i, j :: 0 <= i < j < |r| ==> r[i] != r[j]
    ensures |r| <= |xs|
  {
    if xs == [] then []
    else
      var seen := RemoveDuplicates(xs[..|xs| - 1]);
      var x := xs[|xs| - 1];
      if x in seen then seen else seen + [x]
  }

  /** The index of the first occurrence of `x`. */
  function FirstIndex<T(==)>(xs: seq<T>, x: T): (k: nat)
    requires x in xs
    ensures k < |xs| && xs[k] == x && x !in xs[..k]
  {
    if xs[0] == x then 0 else 1 + FirstIndex(xs[1..], x)
  }

  lemma FirstIndexUnique<T>(xs: seq<T>, x: T, k: nat)
    requires k < |xs| && xs[k] == x && x !in xs[..k]
    ensures FirstIndex(xs, x) == k
  {
  }

  /** Appending elements does not move the first occurrence of an element
      already present. */
  lemma FirstIndexPrefix<T>(xs: seq<T>, ys: seq<T>, y: T)
    requires y in xs
    ensures y in xs + ys && FirstIndex(xs + ys, y) == FirstIndex(xs, y)
  {
    var f := FirstIndex(xs, y);
    assert (xs + ys)[f] == y;
    assert (xs + ys)[..f] == xs[..f];
    FirstIndexUnique(xs + ys, y, f);
  }

  /** The result lists the distinct elements in the order of their first
      appearance: of two entries, the earlier one first occurs earlier. */
  lemma {:induction false} RemoveDuplicatesKeepsFirstAppearanceOrder<T(!new)>(xs: seq<T>, i: nat, j: nat)
    requires i < j < |RemoveDuplicates(xs)|
    ensures FirstIndex(xs, RemoveDuplicates(xs)[i]) < FirstIndex(xs, RemoveDuplicates(xs)[j])
    decreases |xs|
  {
    var n := |xs|;
    var front, x := xs[..n - 1], xs[n - 1];
    assert xs == front + [x];
    var seen := RemoveDuplicates(front);
    var r := RemoveDuplicates(xs);
    if j < |seen| {
      assert r[i] == seen[i] && r[j] == seen[j];
      RemoveDuplicatesKeepsFirstAppearanceOrder(front, i, j);
      assert seen[i] in seen && seen[j] in seen;
      FirstIndexPrefix(front, [x], seen[i]);
      FirstIndexPrefix(front, [x], seen[j]);
    } else {
      assert r == seen + [x] && r[j] == x && r[i] == seen[i];
      assert seen[i] in seen;
      FirstIndexPrefix(front, [x], seen[i]);
      FirstIndexUnique(xs, x, n - 1);
    }
  }

  /** An array without duplicates is its own result. */
  lemma {:induction false} RemoveDuplicatesOfDistinct<T(!new)>(xs: seq<T>)
    requires forall i, j :: 0 <= i < j < |xs| ==> xs[i] != xs[j]
    ensures RemoveDuplicates(xs) == xs
    decreases |xs|
  {
    if xs != [] {
      var n := |xs|;
      RemoveDuplicatesOfDistinct(xs[..n - 1]);
      assert xs[n - 1] !in xs[..n - 1];
      assert xs[..n - 1] + [xs[n - 1]] == xs;
    }
  }

  /** removeDuplicates is idempotent. */
  lemma RemoveDuplicatesIdempotent<T(!new)>(xs: seq<T>)
    ensures RemoveDuplicates(RemoveDuplicates(xs)) == RemoveDuplicates(xs)
  {
    RemoveDuplicatesOfDistinct(RemoveDuplicates(xs));
  }

  /** Removing duplicates keeps the first element first. */
  lemma FirstElementOfRemoveDuplicates<T(!new)>(xs: seq<T>)
    ensures FirstElement(RemoveDuplicates(xs)) == FirstElement(xs)
  {
    var r := RemoveDuplicates(xs);
    if xs != [] {
      assert xs[0] in xs;
      assert xs[0] in r;
      var j :| 0 <= j < |r| && r[j] == xs[0];
      FirstIndexUnique(xs, xs[0], 0);
      if 0 < j {
        RemoveDuplicatesKeepsFirstAppearanceOrder(xs, 0, j);
      }
    }
  }
}
