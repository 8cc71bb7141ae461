/**
 * The attribute lexer (compiler/attribute.ts).
 *
 * `attributeToTemplateLiteral` reads an htmlx attribute value from the start of a chunk of
 * markup and rewrites it as a JavaScript template literal. It is a character-level state
 * machine: a stack of nested contexts (expressions and the three kinds of JS strings), two
 * function-wide flags, and three ways to start (a quoted value, a `{...}` expression, or a
 * bare identifier).
 *
 * `Step` is one turn of the source's loop, `Scan` runs it over the rest of the input, and
 * `Lex` is the whole function; `AttributeToTemplateLiteral` is the loop itself, proved equal
 * to `Lex`.
 */
module Attribute {
  import Text

  datatype Level = Expression | SingleQuoteString | DoubleQuoteString | BacktickString

  /** How the attribute starts: `"..."`, `{...}`, or a bare identifier. */
  datatype Strategy = Quoted | NoTopLevel | Identifier

  /** The variables the source's loop updates. */
  datatype LexState = LexState(levels: seq<Level>, jsString: string, consumed: nat, escaped: bool, ready: bool)

  /** The source's `AttributeToTemplateLiteralResult`. */
  datatype Lexed = Lexed(originalAttributeLength: nat, jsString: string)

  /** A turn of the loop either continues with the next character or leaves the loop. */
  datatype Outcome = Next(state: LexState) | Done(state: LexState)

  /** `/[a-z0-9_$]/i` on one character (ASCII case folding). */
  predicate IsIdChar(c: char)
  {
    ('a' <= c <= 'z') || ('A' <= c <= 'Z') || ('0' <= c <= '9') || c == '_' || c == '$'
  }

  function StartStrategy(input: string): Strategy
  {
    if |input| > 0 && input[0] == '"' then Quoted
    else if |input| > 0 && input[0] == '{' then NoTopLevel
    else Identifier
  }

  /** The state before the loop: what each start mode consumes, pushes and emits. */
  function Start(input: string): LexState
  {
    match StartStrategy(input)
    case Quoted => LexState([], "`", 1, false, false)
    case NoTopLevel => LexState([Expression], "`${", 1, false, false)
    case Identifier => LexState([Expression], "`${", 0, false, false)
  }

  function Push(st: LexState, l: Level): LexState
  {
    st.(levels := st.levels + [l])
  }

  function Pop(st: LexState): LexState
    requires st.levels != []
  {
    st.(levels := st.levels[..|st.levels| - 1])
  }

  /** At the top level: a `"` ends the attribute, a backtick is escaped, a `{` opens an expression. */
  function TopLevelStep(st: LexState, c: char): Outcome
  {
    if c == '"' then Done(st)
    else if c == '`' then Next(st.(jsString := st.jsString + "\\`"))
    else if c == '{' then Next(Push(st, Expression).(jsString := st.jsString + "${"))
    else Next(st.(jsString := st.jsString + [c]))
  }

  /**
   * Inside an expression: in identifier mode a non-identifier character ends the attribute
   * and is given back; otherwise braces and string openers move the stack.
   */
  function ExpressionStep(strategy: Strategy, st: LexState, c: char): Outcome
    requires st.levels != [] && st.consumed > 0
  {
    if strategy == Identifier && !IsIdChar(c) then
      Done(Pop(st.(consumed := st.consumed - 1)))
    else if c == '{' then Next(Push(st, Expression))
    else if c == '}' then
      var st' := Pop(st);
      if st'.levels == [] && strategy == NoTopLevel then Done(st') else Next(st')
    else if c == '\'' then Next(Push(st, SingleQuoteString))
    else if c == '"' then Next(Push(st, DoubleQuoteString))
    else if c == '`' then Next(Push(st, BacktickString))
    else Next(st)
  }

  /** Inside a backtick string: `$` followed by `{` opens an expression, a backtick closes it. */
  function BacktickStep(st: LexState, c: char): LexState
    requires st.levels != []
  {
    if st.ready && c == '{' then Push(st.(ready := false), Expression)
    else
      var st' := st.(ready := if c == '$' then true else false);
      if c == '`' then Pop(st') else st'
  }

  /**
   * Inside a string: an escaped character is skipped, a backslash escapes the next one, and
   * the matching quote closes the string.
   */
  function StringStep(st: LexState, c: char): LexState
    requires st.levels != [] && st.levels[|st.levels| - 1] != Expression
  {
    var current := st.levels[|st.levels| - 1];
    if st.escaped then st.(escaped := false)
    else if c == '\\' then st.(escaped := !st.escaped)
    else if current == DoubleQuoteString then (if c == '"' then Pop(st) else st)
    else if current == SingleQuoteString then (if c == '\'' then Pop(st) else st)
    else BacktickStep(st, c)
  }

  /** One turn of the loop over the character `c`; every nested character is copied. */
  function Step(strategy: Strategy, st: LexState, c: char): Outcome
  {
    var st := st.(consumed := st.consumed + 1);
    if st.levels == [] then TopLevelStep(st, c)
    else
      var st := st.(jsString := st.jsString + [c]);
      if st.levels[|st.levels| - 1] == Expression then ExpressionStep(strategy, st, c)
      else Next(StringStep(st, c))
  }

  /**
   * Every turn counts its character, and only the identifier-mode exit gives it back; the
   * output only grows.
   */
  lemma StepCounts(strategy: Strategy, st: LexState, c: char)
    ensures var o := Step(strategy, st, c);
            && (o.Next? ==> o.state.consumed == st.consumed + 1)
            && (o.Done? ==> st.consumed <= o.state.consumed <= st.consumed + 1)
            && (o.Done? && o.state.consumed == st.consumed ==> strategy == Identifier && !IsIdChar(c))
            && st.jsString <= o.state.jsString
  {
  }
  /** Inside any expression or string, the turn copies its character to the output. */
  lemma NestedCopied(strategy: Strategy, st: LexState, c: char)
    requires st.levels != []
    ensures Step(strategy, st, c).state.jsString == st.jsString + [c]
  {
  }

  /** Every turn over `seg` continues and starts with a context open. */
  predicate StaysNested(strategy: Strategy, st: LexState, seg: string)
    decreases |seg|
  {
    seg == []
    || (st.levels != [] && Step(strategy, st, seg[0]).Next?
        && StaysNested(strategy, Step(strategy, st, seg[0]).state, seg[1..]))
  }

  /**
   * Over a segment during which a context stays open, the output grows by exactly that
   * segment, every character is counted, and the scan goes on after it.
   */
  lemma {:induction false} ScanNested(strategy: Strategy, st: LexState, seg: string, rest: string)
    requires StaysNested(strategy, st, seg)
    ensures var mid := Scan(strategy, st, seg);
            && mid.jsString == st.jsString + seg
            && mid.consumed == st.consumed + |seg|
            && Scan(strategy, st, seg + rest) == Scan(strategy, mid, rest)
    decreases |seg|
  {
    if seg == [] {
      assert seg + rest == rest;
    } else {
      var st' := Step(strategy, st, seg[0]).state;
      NestedCopied(strategy, st, seg[0]);
      StepCounts(strategy, st, seg[0]);
      ScanNested(strategy, st', seg[1..], rest);
      HeadTail(seg, rest);
      ScanNext(strategy, st, seg + rest, st');
      ScanNext(strategy, st, seg, st');
      Text.AppendAssoc(st.jsString, [seg[0]], seg[1..]);
      assert [seg[0]] + seg[1..] == seg;
    }
  }

  /** Every turn over `seg` continues, copying and counting its character and nothing more. */
  predicate CopiesEach(strategy: Strategy, st: LexState, seg: string)
    decreases |seg|
  {
    seg == []
    || (var st' := st.(jsString := st.jsString + [seg[0]], consumed := st.consumed + 1);
        Step(strategy, st, seg[0]) == Next(st') && CopiesEach(strategy, st', seg[1..]))
  }

  /** A segment copied turn by turn is copied whole, and the scan goes on after it. */
  lemma {:induction false} ScanCopies(strategy: Strategy, st: LexState, seg: string, rest: string)
    requires CopiesEach(strategy, st, seg)
    ensures var mid := Scan(strategy, st, seg);
            && mid.jsString == st.jsString + seg
            && mid.consumed == st.consumed + |seg|
            && mid.levels == st.levels && mid.escaped == st.escaped && mid.ready == st.ready
            && Scan(strategy, st, seg + rest) == Scan(strategy, mid, rest)
    decreases |seg|
  {
    if seg == [] {
      assert seg + rest == rest;
    } else {
      var st' := Step(strategy, st, seg[0]).state;
      ScanCopies(strategy, st', seg[1..], rest);
      HeadTail(seg, rest);
      ScanNext(strategy, st, seg + rest, st');
      ScanNext(strategy, st, seg, st');
      Text.AppendAssoc(st.jsString, [seg[0]], seg[1..]);
      assert [seg[0]] + seg[1..] == seg;
    }
  }

  /** The loop run over `rest` until it leaves or the input runs out. */
  function Scan(strategy: Strategy, st: LexState, rest: string): LexState
    decreases |rest|
  {
    if rest == [] then st
    else
      match Step(strategy, st, rest[0])
      case Done(st') => st'
      case Next(st') => Scan(strategy, st', rest[1..])
  }

  lemma ScanNext(strategy: Strategy, st: LexState, rest: string, st': LexState)
    requires rest != [] && Step(strategy, st, rest[0]) == Next(st')
    ensures Scan(strategy, st, rest) == Scan(strategy, st', rest[1..])
  {
  }

  /** What closes the template literal: a backtick, after `}` in identifier mode. */
  function Closing(strategy: Strategy): string
  {
    if strategy == Quoted || strategy == NoTopLevel then "`" else "}`"
  }

  /** `attributeToTemplateLiteral(input)`. */
  function Lex(input: string): Lexed
  {
    var st0 := Start(input);
    var st := Scan(StartStrategy(input), st0, input[st0.consumed..]);
    Lexed(st.consumed, st.jsString + Closing(StartStrategy(input)))
  }

  lemma DropFirst(c: char, s: string)
    ensures ([c] + s)[0] == c && ([c] + s)[1..] == s
  {
  }

  lemma LexQuoted(input: string)
    requires |input| > 0 && input[0] == '"'
    ensures var st := Scan(Quoted, LexState([], "`", 1, false, false), input[1..]);
            Lex(input) == Lexed(st.consumed, st.jsString + "`")
  {
  }

  lemma LexBrace(input: string)
    requires |input| > 0 && input[0] == '{'
    ensures var st := Scan(NoTopLevel, LexState([Expression], "`${", 1, false, false), input[1..]);
            Lex(input) == Lexed(st.consumed, st.jsString + "`")
  {
  }

  lemma LexIdentifier(input: string)
    requires StartStrategy(input) == Identifier
    ensures var st := Scan(Identifier, LexState([Expression], "`${", 0, false, false), input);
            Lex(input) == Lexed(st.consumed, st.jsString + "}`")
  {
    assert input[0..] == input;
  }

  /* ---------------------------------------------------------------------------------
   * Bounds and delimiters
   * --------------------------------------------------------------------------------- */

  lemma {:induction false} ScanBounds(strategy: Strategy, st: LexState, rest: string)
    ensures var r := Scan(strategy, st, rest);
            st.consumed <= r.consumed <= st.consumed + |rest| && st.jsString <= r.jsString
    decreases |rest|
  {
    if rest != [] {
      StepCounts(strategy, st, rest[0]);
      match Step(strategy, st, rest[0])
      case Done(_) =>
      case Next(st') => ScanBounds(strategy, st', rest[1..]);
    }
  }

  /**
   * The lexer never fails: it consumes at most the whole input, and its output is a
   * template literal, opened and closed by a backtick.
   */
  lemma LexBounds(input: string)
    ensures Lex(input).originalAttributeLength <= |input|
    ensures |Lex(input).jsString| >= 2
    ensures Lex(input).jsString[0] == '`' && Lex(input).jsString[|Lex(input).jsString| - 1] == '`'
    ensures StartStrategy(input) != Identifier ==> Lex(input).originalAttributeLength >= 1
  {
    var st0 := Start(input);
    ScanBounds(StartStrategy(input), st0, input[st0.consumed..]);
  }

  /* ---------------------------------------------------------------------------------
   * The top level of a quoted attribute
   * --------------------------------------------------------------------------------- */

  /** Top-level text as it is copied: every backtick escaped, everything else as it is. */
  function EscapeBackticks(t: string): string
  {
    if t == [] then []
    else (if t[0] == '`' then "\\`" else [t[0]]) + EscapeBackticks(t[1..])
  }

  /** The escaped text holds no bare backtick, so it cannot end the template literal. */
  lemma {:induction false} EscapedBackticksAreEscaped(t: string)
    ensures var r := EscapeBackticks(t);
            forall k :: 0 <= k < |r| && r[k] == '`' ==> k > 0 && r[k - 1] == '\\'
    ensures '`' !in t ==> EscapeBackticks(t) == t
    decreases |t|
  {
    if t != [] {
      EscapedBackticksAreEscaped(t[1..]);
      var head := if t[0] == '`' then "\\`" else [t[0]];
      var r := head + EscapeBackticks(t[1..]);
      forall k | 0 <= k < |r| && r[k] == '`'
        ensures k > 0 && r[k - 1] == '\\'
      {
        if k >= |head| {
          assert r[k] == EscapeBackticks(t[1..])[k - |head|];
          assert r[k - 1] == EscapeBackticks(t[1..])[k - |head| - 1];
        }
      }
    }
  }

  lemma {:induction false} EscapeBackticksAppend(a: string, b: string)
    ensures EscapeBackticks(a + b) == EscapeBackticks(a) + EscapeBackticks(b)
    decreases |a|
  {
    if a == [] {
      assert a + b == b;
    } else {
      assert (a + b)[1..] == a[1..] + b;
      EscapeBackticksAppend(a[1..], b);
    }
  }

  lemma TopLevelTextStep(strategy: Strategy, st: LexState, c: char)
    requires st.levels == [] && c != '"' && c != '{'
    ensures Step(strategy, st, c)
            == Next(st.(jsString := st.jsString + EscapeBackticks([c]), consumed := st.consumed + 1))
  {
    assert [c][1..] == [];
  }

  /** The first character of top-level text, as one scan step. */
  lemma ScanTopLevelHead(strategy: Strategy, st: LexState, t: string, rest: string)
    requires st.levels == [] && t != [] && t[0] != '"' && t[0] != '{'
    ensures Scan(strategy, st, t + rest)
            == Scan(strategy, st.(jsString := st.jsString + EscapeBackticks([t[0]]), consumed := st.consumed + 1),
                    t[1..] + rest)
  {
    TopLevelTextStep(strategy, st, t[0]);
    HeadTail(t, rest);
    ScanNext(strategy, st, t + rest,
             st.(jsString := st.jsString + EscapeBackticks([t[0]]), consumed := st.consumed + 1));
  }

  /** Escaping the head and then the tail of a text escapes the whole text. */
  lemma EscapeHead(js: string, t: string)
    requires t != []
    ensures js + EscapeBackticks([t[0]]) + EscapeBackticks(t[1..]) == js + EscapeBackticks(t)
  {
    SplitHead(t);
    EscapeBackticksAppend([t[0]], t[1..]);
    Text.AppendAssoc(js, EscapeBackticks([t[0]]), EscapeBackticks(t[1..]));
  }

  /** Top-level text without `"` or `{` is copied, its backticks escaped. */
  lemma {:induction false} ScanTopLevelText(strategy: Strategy, st: LexState, t: string, rest: string)
    requires st.levels == []
    requires forall k :: 0 <= k < |t| ==> t[k] != '"' && t[k] != '{'
    ensures Scan(strategy, st, t + rest)
            == Scan(strategy, st.(jsString := st.jsString + EscapeBackticks(t), consumed := st.consumed + |t|), rest)
    decreases |t|
  {
    if t == [] {
      ScanTopLevelEmpty(strategy, st, t, rest);
    } else {
      var st' := st.(jsString := st.jsString + EscapeBackticks([t[0]]), consumed := st.consumed + 1);
      ScanTopLevelText(strategy, st', t[1..], rest);
      ScanTopLevelCons(strategy, st, t, rest);
    }
  }

  lemma ScanTopLevelEmpty(strategy: Strategy, st: LexState, t: string, rest: string)
    requires t == []
    ensures Scan(strategy, st, t + rest)
            == Scan(strategy, st.(jsString := st.jsString + EscapeBackticks(t), consumed := st.consumed + |t|), rest)
  {
    assert t + rest == rest;
    assert st.(jsString := st.jsString + EscapeBackticks(t), consumed := st.consumed + |t|) == st;
  }

  /** The inductive step of `ScanTopLevelText`: the head, then the rest of the text. */
  lemma ScanTopLevelCons(strategy: Strategy, st: LexState, t: string, rest: string)
    requires st.levels == [] && t != [] && t[0] != '"' && t[0] != '{'
    requires var st' := st.(jsString := st.jsString + EscapeBackticks([t[0]]), consumed := st.consumed + 1);
             Scan(strategy, st', t[1..] + rest)
             == Scan(strategy, st'.(jsString := st'.jsString + EscapeBackticks(t[1..]), consumed := st'.consumed + |t[1..]|), rest)
    ensures Scan(strategy, st, t + rest)
            == Scan(strategy, st.(jsString := st.jsString + EscapeBackticks(t), consumed := st.consumed + |t|), rest)
  {
    ScanTopLevelHead(strategy, st, t, rest);
    TopLevelStateStep(st, t);
  }

  lemma TopLevelStateStep(st: LexState, t: string)
    requires t != []
    ensures var st' := st.(jsString := st.jsString + EscapeBackticks([t[0]]), consumed := st.consumed + 1);
            st'.(jsString := st'.jsString + EscapeBackticks(t[1..]), consumed := st'.consumed + |t[1..]|)
            == st.(jsString := st.jsString + EscapeBackticks(t), consumed := st.consumed + |t|)
  {
    EscapeHead(st.jsString, t);
  }

  /**
   * A quoted attribute whose top level holds no `{`: the scan ends at the closing quote,
   * which is counted but not copied.
   */
  lemma QuotedAttribute(t: string, rest: string)
    requires forall k :: 0 <= k < |t| ==> t[k] != '"' && t[k] != '{'
    ensures Lex("\"" + t + "\"" + rest) == Lexed(|t| + 2, "`" + EscapeBackticks(t) + "`")
  {
    var tail := t + ("\"" + rest);
    var input := "\"" + tail;
    Text.AppendAssoc("\"" + t, "\"", rest);
    Text.AppendAssoc("\"", t, "\"" + rest);
    assert input == "\"" + t + "\"" + rest;
    DropFirst('"', tail);
    var st := LexState([], "`", 1, false, false);
    LexQuoted(input);
    ScanTopLevelText(Quoted, st, t, "\"" + rest);
    var st' := st.(jsString := st.jsString + EscapeBackticks(t), consumed := st.consumed + |t|);
    assert Scan(Quoted, st, input[1..]) == Scan(Quoted, st', "\"" + rest);
    CloseAtTopLevel(Quoted, st', rest);
    var r := st'.(consumed := |t| + 2);
    assert Scan(Quoted, st, input[1..]) == r;
    assert Lex(input) == Lexed(r.consumed, r.jsString + "`");
  }

  /**
   * One turn of a quoted value ends the scan exactly on a `"` at the top level, and that
   * quote is counted but not copied; a `"` inside an expression or a string goes on.
   */
  lemma QuotedStepExit(st: LexState, c: char)
    ensures var o := Step(Quoted, st, c);
            && o.state.consumed == st.consumed + 1
            && (o.Done? <==> (st.levels == [] && c == '"'))
            && (o.Done? ==> o.state == st.(consumed := st.consumed + 1))
  {
  }

  /**
   * The scan of a quoted value stops only after a `"` read at the top level, or at the end
   * of the input.
   */
  lemma {:induction false} ScanQuotedEnd(input: string, st: LexState)
    requires st.consumed <= |input|
    ensures var r := Scan(Quoted, st, input[st.consumed..]);
            && st.consumed <= r.consumed <= |input|
            && (r.consumed == |input|
                || (st.consumed < r.consumed && r.levels == [] && input[r.consumed - 1] == '"'))
    decreases |input| - st.consumed
  {
    var rest := input[st.consumed..];
    if rest != [] {
      var c := input[st.consumed];
      assert rest[0] == c;
      QuotedStepExit(st, c);
      match Step(Quoted, st, c)
      case Done(st') =>
      case Next(st') =>
        assert rest[1..] == input[st'.consumed..];
        ScanQuotedEnd(input, st');
    }
  }

  /**
   * Any `"..."` value, whatever it nests: the count covers the opening quote and ends at the
   * first `"` read at the top level, which is counted, or at the end of the input.
   */
  lemma QuotedValue(input: string)
    requires |input| > 0 && input[0] == '"'
    ensures var n := Lex(input).originalAttributeLength;
            && 1 <= n <= |input|
            && (n == |input| || (2 <= n && input[n - 1] == '"'))
  {
    LexQuoted(input);
    ScanQuotedEnd(input, LexState([], "`", 1, false, false));
  }

  /* ---------------------------------------------------------------------------------
   * Expressions
   * --------------------------------------------------------------------------------- */

  /** A character that moves no context inside an expression. */
  predicate IsPlainExpressionChar(c: char)
  {
    c != '{' && c != '}' && c != '\'' && c != '"' && c != '`'
  }

  function InnermostLevel(st: LexState): Level
    requires st.levels != []
  {
    st.levels[|st.levels| - 1]
  }

  lemma PlainExpressionStep(strategy: Strategy, st: LexState, c: char)
    requires st.levels != [] && InnermostLevel(st) == Expression && IsPlainExpressionChar(c)
    requires strategy == Identifier ==> IsIdChar(c)
    ensures Step(strategy, st, c) == Next(st.(jsString := st.jsString + [c], consumed := st.consumed + 1))
  {
  }

  /** Plain expression text is copied character for character and moves no context. */
  lemma ScanPlainExpression(strategy: Strategy, st: LexState, e: string, rest: string)
    requires st.levels != [] && InnermostLevel(st) == Expression
    requires forall k :: 0 <= k < |e| ==> IsPlainExpressionChar(e[k])
    requires strategy == Identifier ==> forall k :: 0 <= k < |e| ==> IsIdChar(e[k])
    ensures Scan(strategy, st, e + rest)
            == Scan(strategy, st.(jsString := st.jsString + e, consumed := st.consumed + |e|), rest)
  {
    PlainExpressionCopies(strategy, st, e);
    ScanCopies(strategy, st, e, rest);
    assert Scan(strategy, st, e) == st.(jsString := st.jsString + e, consumed := st.consumed + |e|);
  }

  /** Every turn over plain expression text copies its character and changes nothing else. */
  lemma {:induction false} PlainExpressionCopies(strategy: Strategy, st: LexState, e: string)
    requires st.levels != [] && InnermostLevel(st) == Expression
    requires forall k :: 0 <= k < |e| ==> IsPlainExpressionChar(e[k])
    requires strategy == Identifier ==> forall k :: 0 <= k < |e| ==> IsIdChar(e[k])
    ensures CopiesEach(strategy, st, e)
    decreases |e|
  {
    if e != [] {
      PlainExpressionStep(strategy, st, e[0]);
      PlainExpressionTail(strategy, e);
      PlainExpressionCopies(strategy, st.(jsString := st.jsString + [e[0]], consumed := st.consumed + 1), e[1..]);
    }
  }

  lemma PlainExpressionTail(strategy: Strategy, e: string)
    requires e != []
    requires forall k :: 0 <= k < |e| ==> IsPlainExpressionChar(e[k])
    requires strategy == Identifier ==> forall k :: 0 <= k < |e| ==> IsIdChar(e[k])
    ensures forall k :: 0 <= k < |e[1..]| ==> IsPlainExpressionChar(e[1..][k])
    ensures strategy == Identifier ==> forall k :: 0 <= k < |e[1..]| ==> IsIdChar(e[1..][k])
  {
    assert forall k :: 0 <= k < |e[1..]| ==> e[1..][k] == e[k + 1];
  }

  /**
   * A `{...}` attribute: the scan stops at the `}` that empties the stack, which is counted
   * and copied, and only a backtick follows it.
   */
  lemma BraceAttribute(e: string, rest: string)
    requires forall k :: 0 <= k < |e| ==> IsPlainExpressionChar(e[k])
    ensures Lex("{" + e + "}" + rest) == Lexed(|e| + 2, "`${" + e + "}`")
  {
    var input := "{" + e + "}" + rest;
    assert input[0] == '{';
    assert input[1..] == e + ("}" + rest);
    var st := LexState([Expression], "`${", 1, false, false);
    ScanPlainExpression(NoTopLevel, st, e, "}" + rest);
    var st' := st.(jsString := st.jsString + e, consumed := st.consumed + |e|);
    assert ("}" + rest)[0] == '}';
    assert Scan(NoTopLevel, st', "}" + rest)
           == LexState([], st'.jsString + "}", st'.consumed + 1, false, false);
  }
  /**
   * One turn of a `{...}` value: the character is counted and copied, the outermost context
   * stays the expression the value opened, and the turn ends the scan only on the `}` that
   * empties the stack.
   */
  lemma BraceStep(st: LexState, c: char)
    requires st.levels != [] && st.levels[0] == Expression
    ensures var o := Step(NoTopLevel, st, c);
            && o.state.jsString == st.jsString + [c]
            && o.state.consumed == st.consumed + 1
            && (o.Next? ==> o.state.levels != [] && o.state.levels[0] == Expression)
            && (o.Done? ==> c == '}' && o.state.levels == [])
  {
  }

  /** The scan of a `{...}` value copies exactly the characters it counts, behind `` `$ ``. */
  lemma {:induction false} ScanBrace(input: string, st: LexState)
    requires 1 <= st.consumed <= |input|
    requires st.levels != [] && st.levels[0] == Expression
    requires st.jsString == "`$" + input[..st.consumed]
    ensures var r := Scan(NoTopLevel, st, input[st.consumed..]);
            && st.consumed <= r.consumed <= |input|
            && r.jsString == "`$" + input[..r.consumed]
            && (r.consumed == |input| || (r.levels == [] && input[r.consumed - 1] == '}'))
    decreases |input| - st.consumed
  {
    var rest := input[st.consumed..];
    if rest != [] {
      var c := input[st.consumed];
      assert rest[0] == c;
      BraceStep(st, c);
      assert input[..st.consumed + 1] == input[..st.consumed] + [c];
      Text.AppendAssoc("`$", input[..st.consumed], [c]);
      match Step(NoTopLevel, st, c)
      case Done(st') =>
      case Next(st') =>
        assert rest[1..] == input[st'.consumed..];
        ScanBrace(input, st');
    }
  }

  /**
   * Any `{...}` value, whatever braces, strings and templates it nests: the output is `` `$ ``,
   * the characters counted, and a backtick. The count ends at the `}` that empties the stack,
   * or at the end of the input when no `}` does.
   */
  lemma BraceValue(input: string)
    requires |input| > 0 && input[0] == '{'
    ensures var r := Lex(input);
            && 1 <= r.originalAttributeLength <= |input|
            && r.jsString == "`$" + input[..r.originalAttributeLength] + "`"
            && (r.originalAttributeLength == |input| || input[r.originalAttributeLength - 1] == '}')
  {
    LexBrace(input);
    assert input[..1] == "{";
    ScanBrace(input, LexState([Expression], "`${", 1, false, false));
  }

  /** Length of the longest prefix of `s` made of `[A-Za-z0-9_$]`. */
  function IdentifierPrefixLength(s: string): (n: nat)
    ensures n <= |s|
  {
    if s == [] || !IsIdChar(s[0]) then 0 else 1 + IdentifierPrefixLength(s[1..])
  }

  /** The prefix is made of identifier characters... */
  lemma {:induction false} IdentifierPrefix(s: string)
    ensures forall k :: 0 <= k < IdentifierPrefixLength(s) ==> IsIdChar(s[k])
    decreases |s|
  {
    if s != [] && IsIdChar(s[0]) {
      IdentifierPrefix(s[1..]);
    }
  }

  /** ...and it is the longest such prefix. */
  lemma {:induction false} IdentifierPrefixEnd(s: string)
    ensures IdentifierPrefixLength(s) < |s| ==> !IsIdChar(s[IdentifierPrefixLength(s)])
    decreases |s|
  {
    if s != [] && IsIdChar(s[0]) {
      IdentifierPrefixEnd(s[1..]);
    }
  }

  lemma TakeOneMore(s: string, n: nat)
    requires n < |s|
    ensures s[..n] + [s[n]] == s[..n + 1]
  {
  }

  /** Scanning a bare identifier copies and counts its identifier characters. */
  lemma IdentifierScan(input: string)
    ensures var n := IdentifierPrefixLength(input);
            var st := LexState([Expression], "`${", 0, false, false);
            Scan(Identifier, st, input) == Scan(Identifier, st.(jsString := st.jsString + input[..n], consumed := n), input[n..])
  {
    var n := IdentifierPrefixLength(input);
    var id, tail := input[..n], input[n..];
    SplitAt(input, n);
    IdentifierPrefix(input);
    forall k | 0 <= k < |id|
      ensures IsIdChar(id[k]) && IsPlainExpressionChar(id[k])
    {
      assert id[k] == input[k];
    }
    ScanPlainExpression(Identifier, LexState([Expression], "`${", 0, false, false), id, tail);
  }

  /**
   * A bare identifier followed by another character: the count is the identifier's length,
   * but the output holds the character that ended it too, then `}` and a backtick.
   */
  lemma IdentifierAttribute(input: string, n: nat)
    requires StartStrategy(input) == Identifier
    requires n == IdentifierPrefixLength(input) < |input|
    ensures Lex(input) == Lexed(n, "`${" + input[..n + 1] + "}`")
  {
    LexIdentifier(input);
    IdentifierScanWhole(input, n);
    TakeOneMore(input, n);
    Text.AppendAssoc("`${", input[..n], [input[n]]);
  }

  /** The whole scan of a bare identifier followed by another character. */
  lemma IdentifierScanWhole(input: string, n: nat)
    requires n == IdentifierPrefixLength(input) < |input|
    ensures Scan(Identifier, LexState([Expression], "`${", 0, false, false), input)
            == LexState([], "`${" + input[..n] + [input[n]], n, false, false)
  {
    IdentifierScan(input);
    IdentifierStop(input, n);
  }

  /** After the identifier, the character that ends it is copied and the scan stops. */
  lemma IdentifierStop(input: string, n: nat)
    requires n == IdentifierPrefixLength(input) < |input|
    ensures var st := LexState([Expression], "`${", 0, false, false);
            var st' := st.(jsString := st.jsString + input[..n], consumed := n);
            Scan(Identifier, st', input[n..]) == st'.(levels := [], jsString := st'.jsString + [input[n]])
  {
    var st := LexState([Expression], "`${", 0, false, false);
    var st' := st.(jsString := st.jsString + input[..n], consumed := n);
    IdentifierPrefixEnd(input);
    var tail := input[n..];
    SplitHead(tail);
    IdentifierEnd(st', tail[0], tail[1..]);
  }

  /** A bare identifier that runs to the end of the input is counted and copied whole. */
  lemma IdentifierToEnd(input: string)
    requires StartStrategy(input) == Identifier
    requires IdentifierPrefixLength(input) == |input|
    ensures Lex(input) == Lexed(|input|, "`${" + input + "}`")
  {
    LexIdentifier(input);
    IdentifierScan(input);
    assert input[..|input|] == input && input[|input|..] == [];
  }

  lemma HeadTail(s: string, rest: string)
    requires s != []
    ensures (s + rest)[0] == s[0] && (s + rest)[1..] == s[1..] + rest
  {
  }

  lemma SplitHead(s: string)
    requires s != []
    ensures s == [s[0]] + s[1..]
  {
  }

  lemma SplitAt(s: string, n: nat)
    requires n <= |s|
    ensures s[..n] + s[n..] == s
  {
  }

  /** In identifier mode the first non-identifier character is copied, not counted, and ends the scan. */
  lemma IdentifierEnd(st: LexState, c: char, rest: string)
    requires st.levels == [Expression] && !IsIdChar(c)
    ensures Scan(Identifier, st, [c] + rest) == st.(levels := [], jsString := st.jsString + [c])
  {
    DropFirst(c, rest);
    IdentifierEndStep(st, c);
  }

  lemma IdentifierEndStep(st: LexState, c: char)
    requires st.levels == [Expression] && !IsIdChar(c)
    ensures Step(Identifier, st, c) == Done(st.(levels := [], jsString := st.jsString + [c]))
  {
  }

  /* ---------------------------------------------------------------------------------
   * Strings inside expressions
   * --------------------------------------------------------------------------------- */

  predicate InString(st: LexState)
  {
    st.levels != [] && InnermostLevel(st) != Expression
  }

  /** A backslash in a string is copied with the character after it, which closes nothing. */
  lemma EscapeInString(strategy: Strategy, st: LexState, c: char, rest: string)
    requires InString(st) && !st.escaped
    ensures Scan(strategy, st, ['\\', c] + rest)
            == Scan(strategy, st.(jsString := st.jsString + ['\\', c], consumed := st.consumed + 2), rest)
  {
    var st1 := st.(jsString := st.jsString + ['\\'], consumed := st.consumed + 1, escaped := true);
    assert (['\\', c] + rest)[0] == '\\' && (['\\', c] + rest)[1..] == [c] + rest;
    assert Step(strategy, st, '\\') == Next(st1);
    assert ([c] + rest)[0] == c && ([c] + rest)[1..] == rest;
    assert Step(strategy, st1, c) == Next(st1.(jsString := st1.jsString + [c], consumed := st1.consumed + 1, escaped := false));
    assert st1.jsString + [c] == st.jsString + ['\\', c];
  }

  /** In a backtick string, `${` opens a nested expression. */
  lemma ExpressionInBacktickString(strategy: Strategy, st: LexState, rest: string)
    requires st.levels != [] && InnermostLevel(st) == BacktickString && !st.escaped
    ensures Scan(strategy, st, "${" + rest)
            == Scan(strategy, Push(st, Expression).(jsString := st.jsString + "${", consumed := st.consumed + 2, ready := false), rest)
  {
    var st1 := st.(jsString := st.jsString + "$", consumed := st.consumed + 1, ready := true);
    var st2 := Push(st, Expression).(jsString := st.jsString + "${", consumed := st.consumed + 2, ready := false);
    assert ("${" + rest)[0] == '$' && ("${" + rest)[1..] == "{" + rest;
    DollarInBacktickString(strategy, st);
    ScanNext(strategy, st, "${" + rest, st1);
    assert ("{" + rest)[0] == '{' && ("{" + rest)[1..] == rest;
    BraceAfterDollar(strategy, st1, st.jsString);
    assert st1.(ready := false).(jsString := st1.jsString + "{", consumed := st1.consumed + 1).levels == st.levels;
    assert Push(st1.(ready := false).(jsString := st1.jsString + "{", consumed := st1.consumed + 1), Expression) == st2;
    ScanNext(strategy, st1, "{" + rest, st2);
  }

  /** In a backtick string, `$` is copied and makes the next `{` open an expression. */
  lemma DollarInBacktickString(strategy: Strategy, st: LexState)
    requires st.levels != [] && InnermostLevel(st) == BacktickString && !st.escaped
    ensures Step(strategy, st, '$') == Next(st.(jsString := st.jsString + "$", consumed := st.consumed + 1, ready := true))
  {
  }

  /** A `{` right after a `$` in a backtick string pushes an expression. */
  lemma BraceAfterDollar(strategy: Strategy, st: LexState, js: string)
    requires st.levels != [] && InnermostLevel(st) == BacktickString && !st.escaped && st.ready
    requires st.jsString == js + "$"
    ensures Step(strategy, st, '{')
            == Next(Push(st.(ready := false).(jsString := st.jsString + "{", consumed := st.consumed + 1), Expression))
    ensures st.jsString + "{" == js + "${"
  {
  }

  /** Text of a quoted string inside an expression: copied, and no quote in it ends the scan. */
  lemma StringTextStep(strategy: Strategy, st: LexState, c: char)
    requires InString(st) && !st.escaped && !st.ready
    requires c != '\\' && c != '"' && c != '\'' && c != '`' && c != '$'
    ensures Step(strategy, st, c) == Next(st.(jsString := st.jsString + [c], consumed := st.consumed + 1))
  {
  }

  /** String text is copied character for character, and the scan goes on after it. */
  lemma ScanStringText(strategy: Strategy, st: LexState, t: string, rest: string)
    requires InString(st) && !st.escaped && !st.ready && IsStringText(t)
    ensures Scan(strategy, st, t + rest)
            == Scan(strategy, st.(jsString := st.jsString + t, consumed := st.consumed + |t|), rest)
  {
    StringTextCopies(strategy, st, t);
    ScanCopies(strategy, st, t, rest);
    assert Scan(strategy, st, t) == st.(jsString := st.jsString + t, consumed := st.consumed + |t|);
  }

  /** Every turn over string text copies its character and changes nothing else. */
  lemma {:induction false} StringTextCopies(strategy: Strategy, st: LexState, t: string)
    requires InString(st) && !st.escaped && !st.ready && IsStringText(t)
    ensures CopiesEach(strategy, st, t)
    decreases |t|
  {
    if t != [] {
      StringTextStep(strategy, st, t[0]);
      assert IsStringText(t[1..]);
      StringTextCopies(strategy, st.(jsString := st.jsString + [t[0]], consumed := st.consumed + 1), t[1..]);
    }
  }

  /** At the top level, `{` opens an expression and is copied as `${`. */
  lemma OpenAtTopLevel(strategy: Strategy, st: LexState, rest: string)
    requires st.levels == []
    ensures Scan(strategy, st, "{" + rest)
            == Scan(strategy, Push(st, Expression).(jsString := st.jsString + "${", consumed := st.consumed + 1), rest)
  {
    assert ("{" + rest)[0] == '{' && ("{" + rest)[1..] == rest;
    ScanNext(strategy, st, "{" + rest, Push(st, Expression).(jsString := st.jsString + "${", consumed := st.consumed + 1));
  }

  /** At the top level, `"` ends the attribute; it is counted, not copied. */
  lemma CloseAtTopLevel(strategy: Strategy, st: LexState, rest: string)
    requires st.levels == []
    ensures Scan(strategy, st, "\"" + rest) == st.(consumed := st.consumed + 1)
  {
    assert ("\"" + rest)[0] == '"';
  }

  /** In an expression, a quote or backtick opens a string and is copied. */
  lemma OpenString(strategy: Strategy, st: LexState, c: char, rest: string)
    requires st.levels != [] && InnermostLevel(st) == Expression && strategy != Identifier
    requires c == '\'' || c == '"' || c == '`'
    ensures Scan(strategy, st, [c] + rest)
            == Scan(strategy, Push(st.(jsString := st.jsString + [c], consumed := st.consumed + 1),
                                   if c == '\'' then SingleQuoteString else if c == '"' then DoubleQuoteString else BacktickString),
                    rest)
  {
    assert ([c] + rest)[0] == c && ([c] + rest)[1..] == rest;
    ScanNext(strategy, st, [c] + rest, Push(st.(jsString := st.jsString + [c], consumed := st.consumed + 1),
                                            if c == '\'' then SingleQuoteString else if c == '"' then DoubleQuoteString else BacktickString));
  }

  /** The matching quote closes a string; it is copied. */
  lemma CloseString(strategy: Strategy, st: LexState, c: char, rest: string)
    requires InString(st) && !st.escaped
    requires c == (match InnermostLevel(st) case DoubleQuoteString => '"' case SingleQuoteString => '\'' case _ => '`')
    ensures Scan(strategy, st, [c] + rest)
            == Scan(strategy, Pop(st.(jsString := st.jsString + [c], consumed := st.consumed + 1,
                                      ready := if InnermostLevel(st) == BacktickString then false else st.ready)),
                    rest)
  {
    assert ([c] + rest)[0] == c && ([c] + rest)[1..] == rest;
    ScanNext(strategy, st, [c] + rest, Pop(st.(jsString := st.jsString + [c], consumed := st.consumed + 1,
                                               ready := if InnermostLevel(st) == BacktickString then false else st.ready)));
  }

  /** A `}` closes the innermost expression and is copied; in a quoted attribute the scan goes on. */
  lemma CloseExpression(strategy: Strategy, st: LexState, rest: string)
    requires st.levels != [] && InnermostLevel(st) == Expression && strategy != Identifier
    requires |st.levels| > 1 || strategy == Quoted
    ensures Scan(strategy, st, "}" + rest)
            == Scan(strategy, Pop(st.(jsString := st.jsString + "}", consumed := st.consumed + 1)), rest)
  {
    assert ("}" + rest)[0] == '}' && ("}" + rest)[1..] == rest;
    ScanNext(strategy, st, "}" + rest, Pop(st.(jsString := st.jsString + "}", consumed := st.consumed + 1)));
  }
  /** In a `{...}` value, the `}` that empties the stack is counted and copied and ends the turn. */
  lemma CloseBraceStep(st: LexState)
    requires |st.levels| == 1 && InnermostLevel(st) == Expression
    ensures Step(NoTopLevel, st, '}')
            == Done(st.(levels := [], jsString := st.jsString + "}", consumed := st.consumed + 1))
  {
    var st1 := st.(jsString := st.jsString + "}", consumed := st.consumed + 1);
    assert st.(consumed := st.consumed + 1).(jsString := st.jsString + ['}']) == st1;
    assert Pop(st1) == st.(levels := [], jsString := st.jsString + "}", consumed := st.consumed + 1);
  }

  /** In a `{...}` value, the scan stops at the `}` that empties the stack and reads nothing after it. */
  lemma CloseBraceValue(st: LexState, rest: string)
    requires |st.levels| == 1 && InnermostLevel(st) == Expression
    ensures Scan(NoTopLevel, st, "}" + rest)
            == st.(levels := [], jsString := st.jsString + "}", consumed := st.consumed + 1)
  {
    CloseBraceStep(st);
    assert ("}" + rest)[0] == '}';
  }

  /** compiler/attribute.ts:79-114: a character at the top level. */
  method TopLevelTurn(st: LexState, ch: char) returns (stop: bool, st': LexState)
    ensures (if stop then Done(st') else Next(st')) == TopLevelStep(st, ch)
  {
    st' := st;
    if ch == '"' {
      return true, st';
    }
    if ch == '`' {
      st' := st'.(jsString := st'.jsString + "\\`");
      return false, st';
    }
    if ch == '{' {
      st' := st'.(levels := st'.levels + [Expression], jsString := st'.jsString + "${");
      return false, st';
    }
    st' := st'.(jsString := st'.jsString + [ch]);
    return false, st';
  }

  /** compiler/attribute.ts:122-152: a character inside an expression (already copied to `jsString`). */
  method ExpressionTurn(topLevelStrategy: Strategy, st: LexState, ch: char) returns (stop: bool, st': LexState)
    requires st.levels != [] && st.consumed > 0
    ensures (if stop then Done(st') else Next(st')) == ExpressionStep(topLevelStrategy, st, ch)
  {
    var levels := st.levels;
    if topLevelStrategy == Identifier {
      if !IsIdChar(ch) {
        levels := levels[..|levels| - 1];
        return true, st.(consumed := st.consumed - 1, levels := levels);
      }
    }
    if ch == '{' {
      levels := levels + [Expression];
    }
    if ch == '}' {
      levels := levels[..|levels| - 1];
      if levels == [] {
        if topLevelStrategy == NoTopLevel {
          return true, st.(levels := levels);
        }
      }
    }
    if ch == '\'' {
      levels := levels + [SingleQuoteString];
    }
    if ch == '"' {
      levels := levels + [DoubleQuoteString];
    }
    if ch == '`' {
      levels := levels + [BacktickString];
    }
    return false, st.(levels := levels);
  }

  /** compiler/attribute.ts:157-203: a character inside a string (already copied to `jsString`). */
  method StringTurn(st: LexState, ch: char) returns (st': LexState)
    requires st.levels != [] && st.levels[|st.levels| - 1] != Expression
    ensures st' == StringStep(st, ch)
  {
    var levels, escaped, ready := st.levels, st.escaped, st.ready;
    var currentLevel := levels[|levels| - 1];
    if escaped {
      escaped := false;
    } else if ch == '\\' {
      escaped := !escaped;
    } else if currentLevel == DoubleQuoteString {
      if ch == '"' {
        levels := levels[..|levels| - 1];
      }
    } else if currentLevel == SingleQuoteString {
      if ch == '\'' {
        levels := levels[..|levels| - 1];
      }
    } else if currentLevel == BacktickString {
      var startsExpression := false;
      if ready {
        ready := false;
        if ch == '{' {
          levels := levels + [Expression];
          startsExpression := true;
        }
      }
      if !startsExpression {
        if ch == '$' {
          ready := true;
        }
        if ch == '`' {
          levels := levels[..|levels| - 1];
        }
      }
    }
    st' := st.(levels := levels, escaped := escaped, ready := ready);
  }

  /** compiler/attribute.ts:76-203: the body of the loop, dispatching on the innermost context. */
  method Turn(topLevelStrategy: Strategy, st: LexState, ch: char) returns (stop: bool, st': LexState)
    ensures (if stop then Done(st') else Next(st')) == Step(topLevelStrategy, st, ch)
  {
    ghost var outcome := Step(topLevelStrategy, st, ch);
    st' := st.(consumed := st.consumed + 1);
    if st'.levels == [] {
      assert outcome == TopLevelStep(st', ch);
      stop, st' := TopLevelTurn(st', ch);
      return;
    }
    st' := st'.(jsString := st'.jsString + [ch]);
    if st'.levels[|st'.levels| - 1] == Expression {
      assert outcome == ExpressionStep(topLevelStrategy, st', ch);
      stop, st' := ExpressionTurn(topLevelStrategy, st', ch);
      return;
    }
    assert outcome == Next(StringStep(st', ch));
    st' := StringTurn(st', ch);
    stop := false;
  }

  /** `attributeToTemplateLiteral(input)`: the start modes, then the loop over the characters. */
  method AttributeToTemplateLiteral(input: string) returns (result: Lexed)
    ensures result == Lex(input)
  {
    var state := LexState([], "", 0, false, false);
    var topLevelStrategy: Strategy;

    if |input| > 0 && input[0] == '"' {
      state := state.(consumed := state.consumed + 1, jsString := state.jsString + "`");
      topLevelStrategy := Quoted;
    } else if |input| > 0 && input[0] == '{' {
      state := state.(consumed := state.consumed + 1, levels := state.levels + [Expression],
                      jsString := state.jsString + "`${");
      topLevelStrategy := NoTopLevel;
    } else {
      state := state.(levels := state.levels + [Expression], jsString := state.jsString + "`${");
      topLevelStrategy := Identifier;
    }
    assert topLevelStrategy == StartStrategy(input) && state == Start(input);

    ghost var final := Scan(topLevelStrategy, state, input[state.consumed..]);
    var i := state.consumed;
    while i < |input|
      invariant state.consumed == i <= |input|
      invariant Scan(topLevelStrategy, state, input[i..]) == final
    {
      var ch := input[i];
      assert input[i..][0] == ch && input[i..][1..] == input[i + 1..];
      StepCounts(topLevelStrategy, state, ch);
      i := i + 1;
      var stop;
      stop, state := Turn(topLevelStrategy, state, ch);
      if stop {
        break;
      }
    }

    var jsString := state.jsString;
    if topLevelStrategy == Quoted || topLevelStrategy == NoTopLevel {
      jsString := jsString + "`";
    } else {
      jsString := jsString + "}`";
    }
    result := Lexed(state.consumed, jsString);
  }
  /* ---------------------------------------------------------------------------------
   * The cases of compiler/attribute.test.ts
   * --------------------------------------------------------------------------------- */

  /** Top-level text with no quote, brace or backtick: copied as it is. */
  predicate IsPlainText(t: string)
  {
    forall k :: 0 <= k < |t| ==> t[k] != '"' && t[k] != '{' && t[k] != '`'
  }

  lemma ScanPlainText(strategy: Strategy, st: LexState, t: string, rest: string)
    requires st.levels == [] && IsPlainText(t)
    ensures Scan(strategy, st, t + rest)
            == Scan(strategy, st.(jsString := st.jsString + t, consumed := st.consumed + |t|), rest)
  {
    ScanTopLevelText(strategy, st, t, rest);
    EscapedBackticksAreEscaped(t);
  }

  /** A quoted value of plain text is copied between backticks, and its quotes are counted. */
  lemma QuotedPlain(t: string, rest: string)
    requires IsPlainText(t)
    ensures Lex("\"" + t + "\"" + rest) == Lexed(|t| + 2, "`" + t + "`")
  {
    QuotedAttribute(t, rest);
    EscapedBackticksAreEscaped(t);
  }

  /** A quoted value with one backtick between plain texts: the backtick comes out escaped. */
  lemma QuotedWithBacktick(a: string, b: string, rest: string)
    requires IsPlainText(a) && IsPlainText(b)
    ensures Lex("\"" + a + "`" + b + "\"" + rest) == Lexed(|a| + |b| + 3, "`" + a + "\\`" + b + "`")
  {
    var t := a + "`" + b;
    assert "\"" + a + "`" + b + "\"" + rest == "\"" + t + "\"" + rest;
    forall k | 0 <= k < |t| ensures t[k] != '"' && t[k] != '{'
    {
      if k < |a| { assert t[k] == a[k]; } else if k > |a| { assert t[k] == b[k - |a| - 1]; }
    }
    QuotedAttribute(t, rest);
    calc {
      EscapeBackticks(t);
      { EscapeBackticksAppend(a + "`", b); }
      EscapeBackticks(a + "`") + EscapeBackticks(b);
      { EscapeBackticksAppend(a, "`"); }
      EscapeBackticks(a) + EscapeBackticks("`") + EscapeBackticks(b);
      { EscapedBackticksAreEscaped(a); EscapedBackticksAreEscaped(b); }
      a + EscapeBackticks("`") + b;
      { assert EscapeBackticks("`") == "\\`"; }
      a + "\\`" + b;
    }
  }

  /** At the top level, `{"` opens an expression and a JS string in it. */
  lemma OpenExpressionString(st: LexState, rest: string)
    requires st.levels == []
    ensures Scan(Quoted, st, "{\"" + rest)
            == Scan(Quoted, st.(levels := [Expression, DoubleQuoteString], jsString := st.jsString + "${\"", consumed := st.consumed + 2), rest)
  {
    var r1 := "\"" + rest;
    assert "{\"" + rest == "{" + r1;
    var p := st.jsString;
    OpenAtTopLevel(Quoted, st, r1);
    var s2 := st.(levels := [Expression], jsString := p + "${", consumed := st.consumed + 1);
    assert Push(st, Expression) == st.(levels := [Expression]);
    assert Scan(Quoted, st, "{" + r1) == Scan(Quoted, s2, r1);
    OpenString(Quoted, s2, '"', rest);
    var s3 := st.(levels := [Expression, DoubleQuoteString], jsString := p + "${\"", consumed := st.consumed + 2);
    Text.AppendAssoc(p, "${", "\"");
    var s3' := Push(s2.(jsString := s2.jsString + ['"'], consumed := s2.consumed + 1), DoubleQuoteString);
    assert s3'.levels == s3.levels && s3'.jsString == s3.jsString && s3'.consumed == s3.consumed;
    assert s3' == s3;
    assert Scan(Quoted, s2, r1) == Scan(Quoted, s3, rest);
  }

  /** A `"` closes a JS string opened in an expression at the top level. */
  lemma CloseInnerString(st: LexState, rest: string)
    requires st.levels == [Expression, DoubleQuoteString] && !st.escaped
    ensures Scan(Quoted, st, "\"" + rest)
            == Scan(Quoted, st.(levels := [Expression], jsString := st.jsString + "\"", consumed := st.consumed + 1), rest)
  {
    assert InnermostLevel(st) == DoubleQuoteString;
    CloseString(Quoted, st, '"', rest);
    var s' := Pop(st.(jsString := st.jsString + ['"'], consumed := st.consumed + 1, ready := st.ready));
    assert s'.levels == [Expression];
    assert s' == st.(levels := [Expression], jsString := st.jsString + "\"", consumed := st.consumed + 1);
  }

  /** A `}` closes an expression opened at the top level. */
  lemma CloseOuterExpression(st: LexState, rest: string)
    requires st.levels == [Expression]
    ensures Scan(Quoted, st, "}" + rest)
            == Scan(Quoted, st.(levels := [], jsString := st.jsString + "}", consumed := st.consumed + 1), rest)
  {
    CloseExpression(Quoted, st, rest);
  }

  /** `"}` closes that JS string and then the expression, back at the top level. */
  lemma CloseStringExpression(st: LexState, rest: string)
    requires st.levels == [Expression, DoubleQuoteString] && !st.escaped
    ensures Scan(Quoted, st, "\"}" + rest)
            == Scan(Quoted, st.(levels := [], jsString := st.jsString + "\"}", consumed := st.consumed + 2), rest)
  {
    var p := st.jsString;
    assert "\"" + "}" == "\"}";
    Text.AppendAssoc("\"", "}", rest);
    CloseInnerString(st, "}" + rest);
    var s4 := st.(levels := [Expression], jsString := p + "\"", consumed := st.consumed + 1);
    CloseOuterExpression(s4, rest);
    Text.AppendAssoc(p, "\"", "}");
    assert s4.(levels := [], jsString := s4.jsString + "}", consumed := s4.consumed + 1)
           == st.(levels := [], jsString := p + "\"}", consumed := st.consumed + 2);
  }

  /** At the top level, `{""}` is copied as `${""}`: the quotes open and close a JS string. */
  lemma EmptyStringExpression(st: LexState, rest: string)
    requires st.levels == [] && !st.escaped
    ensures Scan(Quoted, st, "{\"\"}" + rest)
            == Scan(Quoted, st.(jsString := st.jsString + "${\"\"}", consumed := st.consumed + 4), rest)
  {
    assert "{\"\"}" + rest == "{\"" + ("\"}" + rest);
    OpenExpressionString(st, "\"}" + rest);
    var s3 := st.(levels := [Expression, DoubleQuoteString], jsString := st.jsString + "${\"", consumed := st.consumed + 2);
    CloseStringExpression(s3, rest);
    var s5 := st.(jsString := st.jsString + "${\"\"}", consumed := st.consumed + 4);
    Text.AppendAssoc(st.jsString, "${\"", "\"}");
    assert "${\"" + "\"}" == "${\"\"}";
    assert s3.(levels := [], jsString := s3.jsString + "\"}", consumed := s3.consumed + 2) == s5;
  }

  /**
   * Plain text, then an expression holding an empty JS string: the string's quotes are
   * copied inside `${...}` and only the last quote ends the value.
   */
  lemma QuotedWithEmptyString(text: string, rest: string)
    requires IsPlainText(text)
    ensures Lex("\"" + text + "{\"\"}\"" + rest) == Lexed(|text| + 6, "`" + text + "${\"\"}`")
  {
    var r0 := "{\"\"}" + ("\"" + rest);
    var input := "\"" + (text + r0);
    assert input == "\"" + text + "{\"\"}\"" + rest;
    DropFirst('"', text + r0);
    LexQuoted(input);
    var s0 := LexState([], "`", 1, false, false);
    ScanPlainText(Quoted, s0, text, r0);
    var p := "`" + text;
    var s1 := s0.(jsString := p, consumed := |text| + 1);
    EmptyStringExpression(s1, "\"" + rest);
    var s5 := s1.(jsString := p + "${\"\"}", consumed := |text| + 5);
    CloseAtTopLevel(Quoted, s5, rest);
    var r := Scan(Quoted, s0, input[1..]);
    assert r == s5.(consumed := |text| + 6);
    assert Lex(input) == Lexed(r.consumed, r.jsString + "`");
    Text.AppendAssoc(p, "${\"\"}", "`");
    assert "${\"\"}" + "`" == "${\"\"}`";
  }

  /** Expression text that moves no context. */
  predicate IsPlainExpression(e: string)
  {
    forall k :: 0 <= k < |e| ==> IsPlainExpressionChar(e[k])
  }

  /** String text with no escape, quote, backtick or `$`. */
  predicate IsStringText(t: string)
  {
    forall k :: 0 <= k < |t| ==> t[k] != '\\' && t[k] != '"' && t[k] != '\'' && t[k] != '`' && t[k] != '$'
  }

  /** At the top level, `{`, plain expression text and a backtick open an expression and a template string in it. */
  lemma OpenTemplateInExpression(st: LexState, e: string, rest: string)
    requires st.levels == [] && IsPlainExpression(e)
    ensures Scan(Quoted, st, "{" + e + "`" + rest)
            == Scan(Quoted, st.(levels := [Expression, BacktickString], jsString := st.jsString + "${" + e + "`",
                                consumed := st.consumed + |e| + 2), rest)
  {
    var p := st.jsString;
    Text.AppendAssoc("{" + e, "`", rest);
    Text.AppendAssoc("{", e, "`" + rest);
    OpenAtTopLevel(Quoted, st, e + ("`" + rest));
    assert [] + [Expression] == [Expression];
    assert [Expression] + [BacktickString] == [Expression, BacktickString];
    var s1 := st.(levels := [Expression], jsString := p + "${", consumed := st.consumed + 1);
    assert Push(st, Expression).(jsString := p + "${", consumed := st.consumed + 1) == s1;
    ScanPlainExpression(Quoted, s1, e, "`" + rest);
    var s2 := s1.(jsString := p + "${" + e, consumed := st.consumed + |e| + 1);
    assert s1.(jsString := s1.jsString + e, consumed := s1.consumed + |e|) == s2;
    OpenString(Quoted, s2, '`', rest);
    assert Push(s2.(jsString := s2.jsString + ['`'], consumed := s2.consumed + 1), BacktickString)
           == st.(levels := [Expression, BacktickString], jsString := p + "${" + e + "`", consumed := st.consumed + |e| + 2);
  }

  /** In a template string, text and then `${` are copied, and `${` opens a substitution. */
  lemma TemplateOpenSubstitution(st: LexState, t: string, rest: string)
    requires st.levels == [Expression, BacktickString] && !st.escaped && !st.ready && IsStringText(t)
    ensures Scan(Quoted, st, t + ("${" + rest))
            == Scan(Quoted, st.(levels := [Expression, BacktickString, Expression], jsString := st.jsString + t + "${",
                                consumed := st.consumed + |t| + 2), rest)
  {
    assert st.levels + [Expression] == [Expression, BacktickString, Expression];
    var t1 := st.(jsString := st.jsString + t, consumed := st.consumed + |t|);
    ScanStringText(Quoted, st, t, "${" + rest);
    assert st.(jsString := st.jsString + t, consumed := st.consumed + |t|) == t1;
    ExpressionInBacktickString(Quoted, t1, rest);
    var t2 := Push(t1, Expression).(jsString := t1.jsString + "${", consumed := t1.consumed + 2, ready := false);
    assert t2 == st.(levels := [Expression, BacktickString, Expression], jsString := st.jsString + t + "${", consumed := st.consumed + |t| + 2);
  }

  /** Plain expression text in a substitution and the `}` that closes it are copied. */
  lemma TemplateCloseSubstitution(st: LexState, x: string, rest: string)
    requires st.levels == [Expression, BacktickString, Expression] && IsPlainExpression(x)
    ensures Scan(Quoted, st, x + ("}" + rest))
            == Scan(Quoted, st.(levels := [Expression, BacktickString], jsString := st.jsString + x + "}",
                                consumed := st.consumed + |x| + 1), rest)
  {
    assert st.levels[..2] == [Expression, BacktickString];
    var t3 := st.(jsString := st.jsString + x, consumed := st.consumed + |x|);
    ScanPlainExpression(Quoted, st, x, "}" + rest);
    assert st.(jsString := st.jsString + x, consumed := st.consumed + |x|) == t3;
    CloseExpression(Quoted, t3, rest);
    assert Pop(t3.(jsString := t3.jsString + "}", consumed := t3.consumed + 1))
           == st.(levels := [Expression, BacktickString], jsString := st.jsString + x + "}", consumed := st.consumed + |x| + 1);
  }

  /** In a template string, text and a `${...}` substitution of plain expression text are copied. */
  lemma TemplateSubstitution(st: LexState, t: string, x: string, rest: string)
    requires st.levels == [Expression, BacktickString] && !st.escaped && !st.ready
    requires IsStringText(t) && IsPlainExpression(x)
    ensures Scan(Quoted, st, t + "${" + x + "}" + rest)
            == Scan(Quoted, st.(jsString := st.jsString + t + "${" + x + "}", consumed := st.consumed + |t| + |x| + 3), rest)
  {
    Text.AppendAssoc(t + "${" + x, "}", rest);
    Text.AppendAssoc(t + "${", x, "}" + rest);
    Text.AppendAssoc(t, "${", x + ("}" + rest));
    TemplateOpenSubstitution(st, t, x + ("}" + rest));
    var t2 := st.(levels := [Expression, BacktickString, Expression], jsString := st.jsString + t + "${",
                  consumed := st.consumed + |t| + 2);
    TemplateCloseSubstitution(t2, x, rest);
    assert t2.(levels := [Expression, BacktickString], jsString := t2.jsString + x + "}", consumed := t2.consumed + |x| + 1)
           == st.(jsString := st.jsString + t + "${" + x + "}", consumed := st.consumed + |t| + |x| + 3);
  }

  /** A backtick closes a template string opened in an expression at the top level. */
  lemma CloseTemplateString(st: LexState, rest: string)
    requires st.levels == [Expression, BacktickString] && !st.escaped
    ensures Scan(Quoted, st, "`" + rest)
            == Scan(Quoted, st.(levels := [Expression], jsString := st.jsString + "`", consumed := st.consumed + 1, ready := false), rest)
  {
    assert InnermostLevel(st) == BacktickString;
    CloseString(Quoted, st, '`', rest);
    assert [Expression, BacktickString][..1] == [Expression];
  }

  /** A backtick closes the template string and `}` the expression around it, back at the top level. */
  lemma CloseTemplateAndExpression(st: LexState, rest: string)
    requires st.levels == [Expression, BacktickString] && !st.escaped
    ensures Scan(Quoted, st, "`}" + rest)
            == Scan(Quoted, st.(levels := [], jsString := st.jsString + "`}", consumed := st.consumed + 2, ready := false), rest)
  {
    assert "`" + "}" == "`}";
    Text.AppendAssoc("`", "}", rest);
    CloseTemplateString(st, "}" + rest);
    var s1 := st.(levels := [Expression], jsString := st.jsString + "`", consumed := st.consumed + 1, ready := false);
    assert Scan(Quoted, st, "`}" + rest) == Scan(Quoted, s1, "}" + rest);
    CloseOuterExpression(s1, rest);
    Text.AppendAssoc(st.jsString, "`", "}");
    var s2 := st.(levels := [], jsString := st.jsString + "`}", consumed := st.consumed + 2, ready := false);
    assert s1.(levels := [], jsString := s1.jsString + "}", consumed := s1.consumed + 1) == s2;
    assert Scan(Quoted, s1, "}" + rest) == Scan(Quoted, s2, rest);
  }

  /**
   * At the top level, an expression holding a template string with one substitution,
   * `{e`t${x}`}`, is copied as `${e`t${x}`}`: none of its braces or backticks ends the value.
   */
  lemma NestedTemplateExpression(st: LexState, e: string, t: string, x: string, rest: string)
    requires st.levels == [] && !st.escaped && !st.ready
    requires IsPlainExpression(e) && IsStringText(t) && IsPlainExpression(x)
    ensures Scan(Quoted, st, "{" + e + "`" + t + "${" + x + "}`}" + rest)
            == Scan(Quoted, st.(jsString := st.jsString + ("${" + e + "`" + t + "${" + x + "}`}"),
                                consumed := st.consumed + |e| + |t| + |x| + 7), rest)
  {
    var p := st.jsString;
    var r2 := "`}" + rest;
    var r1 := t + "${" + x + "}" + r2;
    // the input, regrouped around the three stages
    Text.AppendAssoc("}", "`}", rest);
    assert "}" + "`}" == "}`}";
    Text.AppendAssoc("{" + e + "`" + t + "${" + x, "}", r2);
    Text.AppendAssoc("{" + e + "`" + t + "${", x, "}" + r2);
    Text.AppendAssoc("{" + e + "`" + t, "${", x + ("}" + r2));
    Text.AppendAssoc("{" + e + "`", t, "${" + (x + ("}" + r2)));
    Text.AppendAssoc(t + "${" + x, "}", r2);
    Text.AppendAssoc(t + "${", x, "}" + r2);
    Text.AppendAssoc(t, "${", x + ("}" + r2));
    assert "{" + e + "`" + t + "${" + x + "}`}" + rest == "{" + e + "`" + r1;
    OpenTemplateInExpression(st, e, r1);
    var s1 := st.(levels := [Expression, BacktickString], jsString := p + "${" + e + "`", consumed := st.consumed + |e| + 2);
    TemplateSubstitution(s1, t, x, r2);
    var s2 := s1.(jsString := s1.jsString + t + "${" + x + "}", consumed := s1.consumed + |t| + |x| + 3);
    CloseTemplateAndExpression(s2, rest);
    var s3 := s2.(levels := [], jsString := s2.jsString + "`}", consumed := s2.consumed + 2, ready := false);
    Text.AppendAssoc(p + "${" + e + "`" + t + "${" + x, "}", "`}");
    Text.AppendAssoc(p, "${" + e + "`" + t + "${" + x, "}`}");
    Text.AppendAssoc(p, "${" + e + "`" + t + "${", x);
    Text.AppendAssoc(p, "${" + e + "`" + t, "${");
    Text.AppendAssoc(p, "${" + e + "`", t);
    Text.AppendAssoc(p, "${" + e, "`");
    Text.AppendAssoc(p, "${", e);
    assert s3 == st.(jsString := p + ("${" + e + "`" + t + "${" + x + "}`}"), consumed := st.consumed + |e| + |t| + |x| + 7);
  }

  /**
   * Braces and backticks inside a nested template do not end the value: `"a{e`t${x}`}b"`
   * is copied as `` `a${e`t${x}`}b` ``.
   */
  lemma QuotedWithNestedTemplate(a: string, e: string, t: string, x: string, b: string, rest: string)
    requires IsPlainText(a) && IsPlainExpression(e) && IsStringText(t) && IsPlainExpression(x) && IsPlainText(b)
    ensures Lex("\"" + a + ("{" + e + "`" + t + "${" + x + "}`}") + b + "\"" + rest)
            == Lexed(|a| + |e| + |t| + |x| + |b| + 9, "`" + a + ("${" + e + "`" + t + "${" + x + "}`}") + b + "`")
  {
    var m := "{" + e + "`" + t + "${" + x + "}`}";
    var o := "${" + e + "`" + t + "${" + x + "}`}";
    var r1 := b + ("\"" + rest);
    var r0 := m + r1;
    var input := "\"" + (a + r0);
    Text.AppendAssoc(m, b, "\"" + rest);
    Text.AppendAssoc("\"" + a + m, b, "\"" + rest);
    Text.AppendAssoc("\"" + a + m + b, "\"", rest);
    Text.AppendAssoc("\"" + a, m, r1);
    Text.AppendAssoc("\"", a, m + r1);
    Text.AppendAssoc(a, m, r1);
    assert input == "\"" + a + m + b + "\"" + rest;
    DropFirst('"', a + r0);
    LexQuoted(input);
    var s0 := LexState([], "`", 1, false, false);
    ScanPlainText(Quoted, s0, a, r0);
    var s1 := s0.(jsString := "`" + a, consumed := |a| + 1);
    NestedTemplateExpression(s1, e, t, x, r1);
    var s2 := s1.(jsString := "`" + a + o, consumed := |a| + |e| + |t| + |x| + 8);
    ScanPlainText(Quoted, s2, b, "\"" + rest);
    var s3 := s2.(jsString := "`" + a + o + b, consumed := |a| + |e| + |t| + |x| + |b| + 8);
    CloseAtTopLevel(Quoted, s3, rest);
    var r := s3.(consumed := s3.consumed + 1);
    assert Scan(Quoted, s0, input[1..]) == r;
    assert Lex(input) == Lexed(r.consumed, r.jsString + "`");
  }

  /** A quoted value ends at its closing quote; what follows is not read. */
  lemma HelloWorld(text: string, rest: string)
    requires text == "Hello, World!" && rest == " then there>"
    ensures Lex("\"" + text + "\"" + rest) == Lexed(15, "`" + text + "`")
  {
    QuotedPlain(text, rest);
  }

  /** A `{...}` value: the closing brace is counted and copied. */
  lemma BraceHello(name: string, rest: string)
    requires name == "hello" && rest == " man that />"
    ensures Lex("{" + name + "}" + rest) == Lexed(7, "`${" + name + "}`")
  {
    BraceAttribute(name, rest);
  }

  /** Newlines and tabs in a quoted value are copied as they are. */
  lemma Newlines(text: string, rest: string)
    requires text == "\n\t\t\t\tHi there!\n\t\t\t" && rest == "/> this and that"
    ensures Lex("\"" + text + "\"" + rest) == Lexed(20, "`" + text + "`")
  {
    QuotedPlain(text, rest);
  }

  /** A backtick at the top level of a quoted value is escaped, so it cannot end the literal. */
  lemma BacktickAtTopLevel(before: string, after: string)
    requires before == "Hello!  How about a backtick " && after == " ehh?"
    ensures Lex("\"" + before + "`" + after + "\"") == Lexed(37, "`" + before + "\\`" + after + "`")
  {
    QuotedWithBacktick(before, after, []);
    assert "\"" + before + "`" + after + "\"" + [] == "\"" + before + "`" + after + "\"";
  }

  /** Quotes inside an embedded expression open and close a JS string; they do not end the value. */
  lemma EmptyStringInExpression(text: string, rest: string)
    requires text == "Hello there!" && rest == ">"
    ensures Lex("\"" + text + "{\"\"}\"" + rest) == Lexed(18, "`" + text + "${\"\"}`")
  {
    QuotedWithEmptyString(text, rest);
  }

  /** Braces and a nested template inside the embedded expression of a quoted value are copied. */
  lemma NestedTemplate(a: string, e: string, t: string, x: string, b: string, rest: string)
    requires a == "Hello, " && e == "name + " && t == " " && x == "lastName" && b == "!" && rest == " then there>"
    ensures Lex("\"" + a + ("{" + e + "`" + t + "${" + x + "}`}") + b + "\"" + rest)
            == Lexed(33, "`" + a + ("${" + e + "`" + t + "${" + x + "}`}") + b + "`")
  {
    QuotedWithNestedTemplate(a, e, t, x, b, rest);
  }
}
