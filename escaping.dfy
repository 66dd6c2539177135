/**
 * The string escaping of `UtilsHelper` (escapeBreakLine,
 * escapeSpecialCharacter, escapeQueryAll), which both copies of
 * useLookerVertexMessage.js define with the same expressions, and a reader
 * for the single-quoted GoogleSQL string literal the escaped prompt is
 * embedded in.
 */
module Escaping {
  import opened JsSemantics

  /** The number of occurrences of `c` in `s`. */
  function Count(s: string, c: char): nat
  {
    if s == [] then 0 else (if s[0] == c then 1 else 0) + Count(s[1..], c)
  }

  /** `UtilsHelper.escapeBreakLine`: `replace(/\n/g, '\\n')`. */
  function EscapeBreakLine(s: string): string
  {
    ReplaceAll(s, "\n", "\\n")
  }

  /** `UtilsHelper.escapeSpecialCharacter`: `replace(/'/g, "\\'")`. */
  function EscapeSpecialCharacter(s: string): string
  {
    ReplaceAll(s, "'", "\\'")
  }

  /** `UtilsHelper.escapeQueryAll`: line breaks first, then quotes. */
  function EscapeQueryAll(s: string): string
  {
    EscapeSpecialCharacter(EscapeBreakLine(s))
  }

  // ---------------------------------------------------------------------
  // A global replace of one character is a per-character substitution
  // ---------------------------------------------------------------------

  /** What a global replace of the one-character pattern `c` by `rep` makes of `x`. */
  function Substitute(x: char, c: char, rep: string): string
  {
    if x == c then rep else [x]
  }

  lemma ReplaceAllCons(x: char, t: string, c: char, rep: string)
    ensures ReplaceAll([x] + t, [c], rep) == Substitute(x, c, rep) + ReplaceAll(t, [c], rep)
  {
    assert ([x] + t)[1..] == t;
  }

  /** A global replace of a one-character pattern distributes over concatenation. */
  lemma {:induction false} ReplaceAllConcat(a: string, b: string, c: char, rep: string)
    ensures ReplaceAll(a + b, [c], rep) == ReplaceAll(a, [c], rep) + ReplaceAll(b, [c], rep)
    decreases |a|
  {
    if a != [] {
      assert a + b == [a[0]] + (a[1..] + b);
      assert a == [a[0]] + a[1..];
      ReplaceAllCons(a[0], a[1..] + b, c, rep);
      ReplaceAllCons(a[0], a[1..], c, rep);
      ReplaceAllConcat(a[1..], b, c, rep);
    } else {
      assert a + b == b;
    }
  }

  /** escapeBreakLine leaves no line feed behind and adds one character per line feed. */
  lemma {:induction false} EscapeBreakLineFacts(s: string)
    ensures '\n' !in EscapeBreakLine(s)
    ensures |EscapeBreakLine(s)| == |s| + Count(s, '\n')
    ensures Count(EscapeBreakLine(s), '\'') == Count(s, '\'')
    decreases |s|
  {
    if s != [] {
      assert s == [s[0]] + s[1..];
      ReplaceAllCons(s[0], s[1..], '\n', "\\n");
      EscapeBreakLineFacts(s[1..]);
      CountConcat(Substitute(s[0], '\n', "\\n"), EscapeBreakLine(s[1..]), '\'');
    }
  }

  lemma {:induction false} CountConcat(a: string, b: string, c: char)
    ensures Count(a + b, c) == Count(a, c) + Count(b, c)
    decreases |a|
  {
    if a != [] {
      assert (a + b)[1..] == a[1..] + b;
      CountConcat(a[1..], b, c);
    } else {
      assert a + b == b;
    }
  }

  /** Every quote in `s` is the second character of a backslash-quote pair. */
  predicate QuotesEscaped(s: string)
  {
    forall i :: 0 <= i < |s| && s[i] == '\'' ==> 0 < i && s[i - 1] == '\\'
  }

  /** escapeSpecialCharacter precedes every quote with a backslash, adds one
      character per quote and neither adds nor removes line feeds. */
  lemma {:induction false} EscapeSpecialCharacterFacts(s: string)
    ensures QuotesEscaped(EscapeSpecialCharacter(s))
    ensures |EscapeSpecialCharacter(s)| == |s| + Count(s, '\'')
    ensures Count(EscapeSpecialCharacter(s), '\n') == Count(s, '\n')
    ensures ('\n' in EscapeSpecialCharacter(s)) == ('\n' in s)
    decreases |s|
  {
    if s != [] {
      assert s == [s[0]] + s[1..];
      ReplaceAllCons(s[0], s[1..], '\'', "\\'");
      EscapeSpecialCharacterFacts(s[1..]);
      var head := Substitute(s[0], '\'', "\\'");
      var tail := EscapeSpecialCharacter(s[1..]);
      assert EscapeSpecialCharacter(s) == head + tail;
      forall i | 0 <= i < |head + tail| && (head + tail)[i] == '\''
        ensures 0 < i && (head + tail)[i - 1] == '\\'
      {
        if i >= |head| {
          assert tail[i - |head|] == '\'';
        }
      }
      assert '\n' in s <==> s[0] == '\n' || '\n' in s[1..];
      assert '\n' in head + tail <==> '\n' in head || '\n' in tail;
    }
  }

  // ---------------------------------------------------------------------
  // escapeQueryAll as one per-character substitution
  // ---------------------------------------------------------------------

  /** How escapeQueryAll rewrites a single character. */
  function EscapedChar(x: char): string
  {
    if x == '\n' then "\\n" else if x == '\'' then "\\'" else [x]
  }

  /** escapeQueryAll, one character at a time: the reference the two chained replaces are compared with. */
  function EscapedString(s: string): string
  {
    if s == [] then "" else EscapedChar(s[0]) + EscapedString(s[1..])
  }

  /** The two chained global replaces of escapeQueryAll act character by
      character: a line feed becomes `\n`, a quote becomes `\'`, and every
      other character is copied, in order. */
  lemma {:induction false} EscapeQueryAllPerCharacter(s: string)
    ensures EscapeQueryAll(s) == EscapedString(s)
    decreases |s|
  {
    if s != [] {
      var x, t := s[0], s[1..];
      assert s == [x] + t;
      ReplaceAllCons(x, t, '\n', "\\n");
      var mid := Substitute(x, '\n', "\\n");
      ReplaceAllConcat(mid, EscapeBreakLine(t), '\'', "\\'");
      EscapeQueryAllPerCharacter(t);
      if x == '\n' {
        assert mid == ['\\'] + "n";
        ReplaceAllCons('\\', "n", '\'', "\\'");
        ReplaceAllCons('n', "", '\'', "\\'");
      } else if x == '\'' {
        ReplaceAllCons('\'', "", '\'', "\\'");
      } else {
        ReplaceAllCons(x, "", '\'', "\\'");
      }
    }
  }

  /** escapeQueryAll leaves no line feed, escapes every quote, and grows by
      one character per line feed and per quote. */
  lemma EscapeQueryAllFacts(s: string)
    ensures '\n' !in EscapeQueryAll(s)
    ensures QuotesEscaped(EscapeQueryAll(s))
    ensures |EscapeQueryAll(s)| == |s| + Count(s, '\n') + Count(s, '\'')
  {
    EscapeBreakLineFacts(s);
    EscapeSpecialCharacterFacts(EscapeBreakLine(s));
  }

  /** Backslashes are not escaped, so a real line feed and the two
      characters backslash, `n` escape to the same text. */
  lemma EscapeQueryAllNotInjective()
    ensures "\n" != "\\n" && EscapeQueryAll("\n") == EscapeQueryAll("\\n")
  {
    EscapeQueryAllPerCharacter("\n");
    EscapeQueryAllPerCharacter("\\n");
    assert "\\n"[1..] == "n";
    assert "n"[1..] == "";
  }

  // ---------------------------------------------------------------------
  // Reading the escaped text back as a single-quoted GoogleSQL literal
  // ---------------------------------------------------------------------

  /** The decoded text of a quoted literal and the index of its closing quote. */
  datatype Literal = Literal(content: string, close: nat)

  /** The simple escape sequences of GoogleSQL quoted literals. */
  function SimpleEscape(c: char): Option<char>
  {
    match c
    case 'n' => Some('\n')
    case 'r' => Some('\r')
    case 't' => Some('\t')
    case 'a' => Some(7 as char)
    case 'b' => Some(8 as char)
    case 'f' => Some(12 as char)
    case 'v' => Some(11 as char)
    case '\\' => Some('\\')
    case '?' => Some('?')
    case '\'' => Some('\'')
    case '"' => Some('"')
    case '`' => Some('`')
    case _ => None
  }

  /** Reads the body of a single-quoted GoogleSQL string literal whose opening
      quote has already been consumed: `\` starts an escape, an unescaped
      quote closes the literal, a raw line feed, a raw carriage return or the
      end of the text is an error (None). */
  function ReadLiteral(t: string): (r: Option<Literal>)
    ensures r.Some? ==> r.value.close < |t| && t[r.value.close] == '\''
    decreases |t|
  {
    if t == [] || t[0] == '\n' || t[0] == '\r' then None
    else if t[0] == '\'' then Some(Literal("", 0))
    else if t[0] == '\\' then
      if |t| < 2 || SimpleEscape(t[1]).None? then None
      else
        match ReadLiteral(t[2..])
        case None => None
        case Some(l) => Some(Literal([SimpleEscape(t[1]).value] + l.content, l.close + 2))
    else
      match ReadLiteral(t[1..])
      case None => None
      case Some(l) => Some(Literal([t[0]] + l.content, l.close + 1))
  }

  /** Prefixing one character that is not a quote keeps every quote escaped. */
  lemma QuotesEscapedCons(x: char, s: string)
    requires x != '\'' && QuotesEscaped(s)
    ensures QuotesEscaped([x] + s)
  {
    forall i | 0 <= i < |[x] + s| && ([x] + s)[i] == '\''
      ensures 0 < i && ([x] + s)[i - 1] == '\\'
    {
      assert i > 0 && s[i - 1] == '\'';
    }
  }

  /** Prefixing a backslash pair keeps every quote escaped. */
  lemma QuotesEscapedAfterEscape(e: char, s: string)
    requires QuotesEscaped(s)
    ensures QuotesEscaped(['\\', e] + s)
  {
    forall i | 0 <= i < |['\\', e] + s| && (['\\', e] + s)[i] == '\''
      ensures 0 < i && (['\\', e] + s)[i - 1] == '\\'
    {
      if i >= 2 {
        assert s[i - 2] == '\'';
      }
    }
  }

  /** A successful read that starts with an escape reads the rest after it. */
  lemma ReadLiteralEscapeStep(t: string)
    requires ReadLiteral(t).Some? && t[0] == '\\'
    ensures |t| >= 2 && ReadLiteral(t[2..]).Some?
    ensures ReadLiteral(t).value.close == ReadLiteral(t[2..]).value.close + 2
  {
  }

  /** A successful read that starts with an ordinary character reads the rest after it. */
  lemma ReadLiteralPlainStep(t: string)
    requires ReadLiteral(t).Some? && t[0] != '\\' && t[0] != '\''
    ensures t[0] != '\n' && t[0] != '\r' && ReadLiteral(t[1..]).Some?
    ensures ReadLiteral(t).value.close == ReadLiteral(t[1..]).value.close + 1
  {
  }

  /** A prefix of `t` longer than `n` is `t[..n]` followed by a prefix of `t[n..]`. */
  lemma PrefixAfter(t: string, n: nat, c: nat)
    requires n + c <= |t|
    ensures t[..n + c] == t[..n] + t[n..][..c]
  {
  }

  /** A successful read ends at a quote that no escape consumed: every quote
      before it is the second half of a backslash pair, and no raw line feed
      or carriage return lies before it. */
  lemma {:induction false} ReadLiteralStopsAtUnescapedQuote(t: string)
    requires ReadLiteral(t).Some?
    ensures var c := ReadLiteral(t).value.close;
            QuotesEscaped(t[..c]) && '\n' !in t[..c] && '\r' !in t[..c]
    decreases |t|
  {
    if t[0] == '\'' {
      assert t[..ReadLiteral(t).value.close] == [];
    } else if t[0] == '\\' {
      ReadLiteralEscapeStep(t);
      ReadLiteralStopsAtUnescapedQuote(t[2..]);
      var body := t[2..][..ReadLiteral(t[2..]).value.close];
      PrefixAfter(t, 2, ReadLiteral(t[2..]).value.close);
      assert t[..2] == ['\\', t[1]];
      QuotesEscapedAfterEscape(t[1], body);
    } else {
      ReadLiteralPlainStep(t);
      ReadLiteralStopsAtUnescapedQuote(t[1..]);
      var body := t[1..][..ReadLiteral(t[1..]).value.close];
      PrefixAfter(t, 1, ReadLiteral(t[1..]).value.close);
      assert t[..1] == [t[0]];
      QuotesEscapedCons(t[0], body);
    }
  }

  /** For a prompt without backslashes, the escaped prompt followed by a quote
      reads back as exactly the prompt, and the literal closes at that quote. */
  lemma {:induction false} EscapedPromptReadsBack(p: string, rest: string)
    requires '\\' !in p && '\r' !in p
    ensures ReadLiteral(EscapeQueryAll(p) + "'" + rest) == Some(Literal(p, |EscapeQueryAll(p)|))
  {
    EscapeQueryAllPerCharacter(p);
    EscapedStringReadsBack(p, rest);
  }

  lemma ReadLiteralPlain(x: char, tail: string)
    requires x != '\n' && x != '\r' && x != '\'' && x != '\\'
    ensures ReadLiteral([x] + tail) ==
      match ReadLiteral(tail)
      case None => None
      case Some(l) => Some(Literal([x] + l.content, l.close + 1))
  {
    assert ([x] + tail)[1..] == tail;
  }

  lemma ReadLiteralEscape(e: char, tail: string)
    requires SimpleEscape(e).Some?
    ensures ReadLiteral(['\\', e] + tail) ==
      match ReadLiteral(tail)
      case None => None
      case Some(l) => Some(Literal([SimpleEscape(e).value] + l.content, l.close + 2))
  {
    assert (['\\', e] + tail)[2..] == tail;
  }

  /** Reading one escaped character decodes it back and moves past it. */
  lemma EscapedCharReadsBack(x: char, tail: string, l: Literal)
    requires x != '\\' && x != '\r'
    requires ReadLiteral(tail) == Some(l)
    ensures ReadLiteral(EscapedChar(x) + tail) == Some(Literal([x] + l.content, l.close + |EscapedChar(x)|))
  {
    if x == '\n' {
      ReadLiteralEscape('n', tail);
    } else if x == '\'' {
      ReadLiteralEscape('\'', tail);
    } else {
      ReadLiteralPlain(x, tail);
    }
  }

  /** Regrouping a four-part concatenation. */
  lemma ConcatRegroup(a: string, b: string, c: string, d: string)
    ensures a + b + c + d == a + (b + c + d)
  {
  }

  /** Regrouping three concatenated strings. */
  lemma ConcatAssoc(a: string, b: string, c: string)
    ensures a + b + c == a + (b + c)
  {
  }

  /** Escaping a non-empty string escapes its first character and then the rest. */
  lemma EscapedStringUnfold(p: string, rest: string)
    requires p != []
    ensures EscapedString(p) + "'" + rest == EscapedChar(p[0]) + (EscapedString(p[1..]) + "'" + rest)
    ensures |EscapedString(p)| == |EscapedChar(p[0])| + |EscapedString(p[1..])|
  {
    ConcatRegroup(EscapedChar(p[0]), EscapedString(p[1..]), "'", rest);
  }

  /** One step of the read-back: if the escaped tail reads back, so does the
      whole escaped string. */
  lemma EscapedStringReadsBackStep(p: string, rest: string)
    requires p != [] && p[0] != '\\' && p[0] != '\r'
    requires ReadLiteral(EscapedString(p[1..]) + "'" + rest) == Some(Literal(p[1..], |EscapedString(p[1..])|))
    ensures ReadLiteral(EscapedString(p) + "'" + rest) == Some(Literal(p, |EscapedString(p)|))
  {
    EscapedStringUnfold(p, rest);
    EscapedCharReadsBack(p[0], EscapedString(p[1..]) + "'" + rest, Literal(p[1..], |EscapedString(p[1..])|));
    assert [p[0]] + p[1..] == p;
  }

  lemma {:induction false} EscapedStringReadsBack(p: string, rest: string)
    requires '\\' !in p && '\r' !in p
    ensures ReadLiteral(EscapedString(p) + "'" + rest) == Some(Literal(p, |EscapedString(p)|))
    decreases |p|
  {
    if p == [] {
      assert (EscapedString(p) + "'" + rest)[0] == '\'';
    } else {
      assert p == [p[0]] + p[1..];
      EscapedStringReadsBack(p[1..], rest);
      EscapedStringReadsBackStep(p, rest);
    }
  }

  /** Reading one escaped character in front of text that does not read as
      a literal does not read either. */
  lemma EscapedCharKeepsFailure(x: char, tail: string)
    requires x != '\\'
    requires ReadLiteral(tail).None?
    ensures ReadLiteral(EscapedChar(x) + tail).None?
  {
    if x == '\n' {
      ReadLiteralEscape('n', tail);
    } else if x == '\'' {
      ReadLiteralEscape('\'', tail);
    } else if x == '\r' {
      assert (EscapedChar(x) + tail)[0] == '\r';
    } else {
      ReadLiteralPlain(x, tail);
    }
  }

  /** escapeBreakLine leaves carriage returns as they are, and GoogleSQL does
      not allow them raw in a quoted literal: a backslash-free prompt holding
      one does not read as a literal at all. */
  lemma {:induction false} EscapedStringRejectsCarriageReturn(p: string, rest: string)
    requires '\\' !in p && '\r' in p
    ensures ReadLiteral(EscapedString(p) + "'" + rest).None?
    decreases |p|
  {
    if p[0] == '\r' {
      assert (EscapedString(p) + "'" + rest)[0] == '\r' by { EscapedStringUnfold(p, rest); }
    } else {
      assert '\\' !in p[1..] && '\r' in p[1..] by { assert p == [p[0]] + p[1..]; }
      EscapedStringRejectsCarriageReturn(p[1..], rest);
      EscapedStringUnfold(p, rest);
      EscapedCharKeepsFailure(p[0], EscapedString(p[1..]) + "'" + rest);
    }
  }

  /** The escaped form of a backslash-free prompt with a raw carriage return,
      closed by a quote, is not a valid GoogleSQL literal. */
  lemma CarriageReturnBreaksLiteral(p: string, rest: string)
    requires '\\' !in p && '\r' in p
    ensures ReadLiteral(EscapeQueryAll(p) + "'" + rest).None?
  {
    EscapeQueryAllPerCharacter(p);
    EscapedStringRejectsCarriageReturn(p, rest);
  }

  /** The per-character escape distributes over concatenation. */
  lemma {:induction false} EscapedStringConcat(a: string, b: string)
    ensures EscapedString(a + b) == EscapedString(a) + EscapedString(b)
    decreases |a|
  {
    if a != [] {
      assert (a + b)[0] == a[0] && (a + b)[1..] == a[1..] + b;
      EscapedStringConcat(a[1..], b);
    } else {
      assert a + b == b;
    }
  }

  /** Escaping a non-empty string in front of `tail` escapes its first character, then the rest. */
  lemma EscapedStringUnfoldBefore(p: string, tail: string)
    requires p != []
    ensures EscapedString(p) + tail == EscapedChar(p[0]) + (EscapedString(p[1..]) + tail)
    ensures |EscapedString(p)| == |EscapedChar(p[0])| + |EscapedString(p[1..])|
  {
    assert EscapedString(p) == EscapedChar(p[0]) + EscapedString(p[1..]);
    ConcatAssoc(EscapedChar(p[0]), EscapedString(p[1..]), tail);
  }

  /** Reading one escaped character in front of text `r` that reads as a
      literal, where `whole` is that text with the escaped character first. */
  lemma EscapedCharThen(x: char, r: string, whole: string, c: string, k: nat)
    requires x != '\\' && x != '\r'
    requires whole == EscapedChar(x) + r
    requires ReadLiteral(r) == Some(Literal(c, k))
    ensures ReadLiteral(whole) == Some(Literal([x] + c, k + |EscapedChar(x)|))
  {
    EscapedCharReadsBack(x, r, Literal(c, k));
  }

  /** Putting the first character back in front of the rest of `p`, followed by `c`. */
  lemma HeadThenRest(p: string, c: string)
    requires p != []
    ensures [p[0]] + (p[1..] + c) == p + c
  {
    assert [p[0]] + p[1..] == p;
    assert [p[0]] + (p[1..] + c) == ([p[0]] + p[1..]) + c;
  }

  /** One step of EscapedStringThen: the first character of `p`, escaped,
      in front of text `r` that reads as the rest of `p` followed by `c`. */
  lemma EscapedStringThenStep(p: string, r: string, w: string, c: string, k: nat, n: nat)
    requires p != [] && p[0] != '\\' && p[0] != '\r'
    requires w == EscapedChar(p[0]) + r && n == k + |EscapedChar(p[0])|
    requires ReadLiteral(r) == Some(Literal(p[1..] + c, k))
    ensures ReadLiteral(w) == Some(Literal(p + c, n))
  {
    EscapedCharThen(p[0], r, w, p[1..] + c, k);
    HeadThenRest(p, c);
  }

  /** The inductive step of EscapedStringThen, stated for the whole of `p`. */
  lemma EscapedStringThenCons(p: string, tail: string, l: Literal)
    requires p != [] && p[0] != '\\' && p[0] != '\r'
    requires ReadLiteral(EscapedString(p[1..]) + tail)
             == Some(Literal(p[1..] + l.content, l.close + |EscapedString(p[1..])|))
    ensures ReadLiteral(EscapedString(p) + tail) == Some(Literal(p + l.content, l.close + |EscapedString(p)|))
  {
    var r := EscapedString(p[1..]) + tail;
    var w := EscapedString(p) + tail;
    assert w == EscapedChar(p[0]) + r && |EscapedString(p)| == |EscapedChar(p[0])| + |EscapedString(p[1..])|
      by { EscapedStringUnfoldBefore(p, tail); }
    EscapedStringThenStep(p, r, w, l.content, l.close + |EscapedString(p[1..])|, l.close + |EscapedString(p)|);
  }

  /** A backslash-free, carriage-return-free text, escaped, is read through
      and prepended to whatever literal the text after it reads as. */
  lemma {:induction false} EscapedStringThen(p: string, tail: string, l: Literal)
    requires '\\' !in p && '\r' !in p
    requires ReadLiteral(tail) == Some(l)
    ensures ReadLiteral(EscapedString(p) + tail) == Some(Literal(p + l.content, l.close + |EscapedString(p)|))
    decreases |p|
  {
    if p == [] {
      assert EscapedString(p) + tail == tail;
      assert p + l.content == l.content;
    } else {
      EscapedStringThen(p[1..], tail, l);
      EscapedStringThenCons(p, tail, l);
    }
  }

  /** Backslash, backslash, quote: a literal holding one backslash, closed. */
  lemma EscapedBackslashThenQuote(y: string)
    ensures ReadLiteral(['\\', '\\', '\''] + y) == Some(Literal("\\", 2))
  {
    var x := ['\''] + y;
    assert ['\\', '\\', '\''] + y == ['\\', '\\'] + x;
    assert x[0] == '\'';
    assert ReadLiteral(x) == Some(Literal("", 0));
    ReadLiteralEscape('\\', x);
    assert ['\\'] + "" == "\\";
  }

  /** Escaping a text that starts with a quote gives backslash, quote, then
      the escaped rest. */
  lemma QuoteLedEscape(c: string)
    ensures EscapeQueryAll("'" + c) == "\\'" + EscapeQueryAll(c)
  {
    EscapeQueryAllPerCharacter("'" + c);
    EscapeQueryAllPerCharacter(c);
    assert ("'" + c)[0] == '\'' && ("'" + c)[1..] == c;
  }

  /** A prompt in which the context escaped once follows a plain `before`:
      when the context starts with a quote, the second escape turns it into
      backslash, backslash, quote, and the literal closes there holding
      `before` and a backslash. */
  lemma ContextQuoteClosesLiteral(before: string, c: string, after: string, rest: string)
    requires '\\' !in before && '\r' !in before
    ensures ReadLiteral(EscapeQueryAll(before + EscapeQueryAll("'" + c) + after) + "'" + rest)
            == Some(Literal(before + "\\", |EscapeQueryAll(before)| + 2))
  {
    QuoteLedEscape(c);
    assert before + EscapeQueryAll("'" + c) + after == before + "\\'" + (EscapeQueryAll(c) + after);
    BackslashQuoteClosesLiteral(before, EscapeQueryAll(c) + after, rest);
  }

  /** Escaping a backslash-quote character by character: the backslash
      stays single and the quote gains one. */
  lemma EscapedBackslashQuote(after: string)
    ensures EscapedString("\\'" + after) == ['\\', '\\', '\''] + EscapedString(after)
  {
    assert "\\'" + after == ['\\'] + (['\''] + after);
    assert (['\\'] + (['\''] + after))[1..] == ['\''] + after;
    assert (['\''] + after)[1..] == after;
  }

  /** Escaping a prompt with a backslash-quote in it gives backslash,
      backslash, quote at that point. */
  lemma EscapedBackslashQuotePrompt(before: string, after: string)
    ensures EscapeQueryAll(before + "\\'" + after)
            == EscapedString(before) + (['\\', '\\', '\''] + EscapedString(after))
  {
    var mid := "\\'" + after;
    assert before + "\\'" + after == before + mid;
    EscapeQueryAllPerCharacter(before + mid);
    EscapedStringConcat(before, mid);
    EscapedBackslashQuote(after);
  }

  /** A backslash-quote that follows text with no backslash or carriage
      return ends the literal there: it holds that text and a backslash, and
      the rest of the prompt lies outside the string. */
  lemma BackslashQuoteClosesLiteral(before: string, after: string, rest: string)
    requires '\\' !in before && '\r' !in before
    ensures ReadLiteral(EscapeQueryAll(before + "\\'" + after) + "'" + rest)
            == Some(Literal(before + "\\", |EscapeQueryAll(before)| + 2))
  {
    var y := EscapedString(after) + "'" + rest;
    var tail := ['\\', '\\', '\''] + y;
    assert EscapeQueryAll(before + "\\'" + after) + "'" + rest == EscapedString(before) + tail by {
      EscapedBackslashQuotePrompt(before, after);
      ConcatRegroup(EscapedString(before), ['\\', '\\', '\''] + EscapedString(after), "'", rest);
      assert (['\\', '\\', '\''] + EscapedString(after)) + "'" + rest == tail;
    }
    EscapedBackslashThenQuote(y);
    EscapedStringThen(before, tail, Literal("\\", 2));
    EscapeQueryAllPerCharacter(before);
  }

  /** A backslash in the prompt escapes the quote that escaping added, so the
      prompt's own quote closes the literal early: the prompt `\'x` reads
      back as just `\`, and `x` lands outside the string. */
  lemma BackslashClosesLiteralEarly(rest: string)
    ensures EscapeQueryAll("\\'x") == "\\\\'x"
    ensures ReadLiteral(EscapeQueryAll("\\'x") + "'" + rest) == Some(Literal("\\", 2))
  {
    EscapeQueryAllPerCharacter("\\'x");
    assert "\\'x"[1..] == "'x";
    assert "'x"[1..] == "x";
    assert "x"[1..] == "";
    var tail := "'x'" + rest;
    assert EscapeQueryAll("\\'x") + "'" + rest == ['\\', '\\'] + tail;
    ReadLiteralEscape('\\', tail);
    assert tail[0] == '\'';
    assert ReadLiteral(tail) == Some(Literal("", 0));
    assert ['\\'] + "" == "\\";
  }

  /** A backslash pair in front of the quote keeps the literal open: the
      prompt `\\'` escapes to three backslashes and a quote, which BigQuery
      reads as backslash, quote, closing at the quote that generateSQL adds.
      The prompt's text is still altered: one backslash is lost. */
  lemma BackslashPairKeepsLiteralOpen(rest: string)
    ensures EscapeQueryAll("\\\\'") == "\\\\\\'"
    ensures ReadLiteral(EscapeQueryAll("\\\\'") + "'" + rest) == Some(Literal("\\'", 4))
  {
    EscapeQueryAllPerCharacter("\\\\'");
    assert "\\\\'"[1..] == "\\'";
    assert "\\'"[1..] == "'";
    assert "'"[1..] == "";
    assert EscapedString("'") == "\\'";
    assert EscapedString("\\'") == "\\\\'";
    assert EscapedString("\\\\'") == "\\\\\\'";
    var tail := "'" + rest;
    assert EscapeQueryAll("\\\\'") + "'" + rest == ['\\', '\\'] + (['\\', '\''] + tail);
    assert tail[0] == '\'';
    assert ReadLiteral(tail) == Some(Literal("", 0));
    ReadLiteralEscape('\'', tail);
    ReadLiteralEscape('\\', ['\\', '\''] + tail);
    assert ['\\'] + (['\''] + "") == "\\'";
  }
}
