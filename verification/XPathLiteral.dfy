/** XPath 1.0 string literals (section 3.7): the printer
    (agent/executor/appium_driver.py) and the reader (agent/executor/driver.py). */
module XPathLiteral {
  import opened Text
  import opened Scanner

  const CONCAT: string := "concat("

  /** `_xpath_literal`: double quotes if possible, else single quotes, else concat. */
  function Literal(value: string): string {
    if '"' !in value then "\"" + value + "\""
    else if '\'' !in value then "'" + value + "'"
    else CONCAT + Join(DoubleQuoteAll(SplitOn(value, '"')), ", '\"', ") + ")"
  }

  function DoubleQuoteAll(parts: seq<string>): (r: seq<string>)
    ensures |r| == |parts|
  {
    if parts == [] then [] else ["\"" + parts[0] + "\""] + DoubleQuoteAll(parts[1..])
  }

  /** `_eval_xpath_literal`; `None` stands for the ValueError. */
  function EvalLiteral(text: string): Option<string>
    decreases |text|, 1, 0
  {
    var t := Strip(text);
    if IsConcat(t) then
      var inner := t[|CONCAT|..|t| - 1];
      StripShortens(text);
      SplitShorter(inner, ",", |text|);
      EvalAll(SplitTopLevel(inner, ","), |text|)
    else EvalSimple(t)
  }

  predicate IsConcat(t: string) {
    CONCAT <= t && t[|t| - 1] == ')'
  }

  function EvalSimple(t: string): Option<string> {
    if |t| >= 2 && t[0] == '"' && t[|t| - 1] == '"' then Some(t[1..|t| - 1])
    else if |t| >= 2 && t[0] == '\'' && t[|t| - 1] == '\'' then Some(t[1..|t| - 1])
    else None
  }

  function EvalAll(parts: seq<string>, bound: nat): Option<string>
    requires Shorter(parts, bound)
    decreases bound, 0, |parts|
  {
    if parts == [] then Some("")
    else
      var head :- EvalLiteral(parts[0]);
      var tail :- EvalAll(parts[1..], bound);
      Some(head + tail)
  }

  lemma SplitShorter(s: string, sep: string, bound: nat)
    requires sep != "" && |s| < bound
    ensures Shorter(SplitTopLevel(s, sep), bound)
  {
    PiecesBounded(s, sep, 0, None, "", bound);
    NonEmptyShorter(Pieces(s, sep, 0, None, ""), bound);
  }

  lemma {:induction false} PiecesBounded(s: string, sep: string, depth: int, inStr: Option<char>, buf: string, bound: nat)
    requires sep != "" && |buf| + |s| < bound
    ensures Shorter(Pieces(s, sep, depth, inStr, buf), bound)
    decreases |s|
  {
    StripShortens(buf);
    if s != "" {
      var c := buf + [s[0]];
      if inStr.Some? {
        PiecesBounded(s[1..], sep, depth, if s[0] == inStr.value then None else inStr, c, bound);
      } else if IsQuote(s[0]) {
        PiecesBounded(s[1..], sep, depth, Some(s[0]), c, bound);
      } else if s[0] == '(' {
        PiecesBounded(s[1..], sep, depth + 1, None, c, bound);
      } else if s[0] == ')' {
        PiecesBounded(s[1..], sep, depth - 1, None, c, bound);
      } else if depth == 0 && sep <= s {
        PiecesBounded(s[|sep|..], sep, 0, None, "", bound);
      } else {
        PiecesBounded(s[1..], sep, depth, None, c, bound);
      }
    }
  }

  // ---------- the literal as tokens ----------

  predicate AllQuoted(ts: seq<Token>) {
    forall i :: 0 <= i < |ts| ==> ts[i].Quoted?
  }

  /** The arguments of a printed `concat`: the quoted parts, with a quoted double
      quote between each two. */
  function ArgTokens(parts: seq<string>): (ts: seq<Token>)
    requires parts != []
    ensures AllQuoted(ts)
    ensures ts != [] && ts[0] == Quoted('"', parts[0])
    ensures |parts| > 1 ==> ts[1..] == [Quoted('\'', ['"'])] + ArgTokens(parts[1..])
    ensures |parts| == 1 ==> ts[1..] == []
  {
    [Quoted('"', parts[0])] + (if |parts| == 1 then [] else [Quoted('\'', ['"'])] + ArgTokens(parts[1..]))
  }

  predicate Strings(ts: seq<Token>) {
    forall i :: 0 <= i < |ts| ==> WellQuoted(ts[i]) && ts[i].Quoted?
  }

  lemma {:induction false} ArgTokensQuoted(parts: seq<string>)
    requires parts != [] && Without(parts, '"')
    ensures Strings(ArgTokens(parts))
  {
    if |parts| > 1 {
      ArgTokensQuoted(parts[1..]);
    }
    assert '"' !in parts[0];
  }

  /** `t0, t1, ...`. */
  function CommaTokens(ts: seq<Token>): seq<Token> {
    if |ts| <= 1 then ts else [ts[0]] + ([Plain(',')] + ([Plain(' ')] + CommaTokens(ts[1..])))
  }

  function LiteralTokens(value: string): seq<Token> {
    if '"' !in value then [Quoted('"', value)]
    else if '\'' !in value then [Quoted('\'', value)]
    else Call("concat", CommaTokens(ArgTokens(SplitOn(value, '"'))))
  }

  lemma RenderCommaStep(ts: seq<Token>)
    requires |ts| > 1
    ensures Render(CommaTokens(ts)) == Spell(ts[0]) + ([','] + ([' '] + Render(CommaTokens(ts[1..]))))
  {
    var later := CommaTokens(ts[1..]);
    RenderCons(Plain(' '), later);
    RenderCons(Plain(','), [Plain(' ')] + later);
    RenderCons(ts[0], [Plain(',')] + ([Plain(' ')] + later));
  }

  lemma {:induction false} RenderArgs(parts: seq<string>)
    requires parts != []
    ensures Render(CommaTokens(ArgTokens(parts))) == Join(DoubleQuoteAll(parts), ", '\"', ")
  {
    var ts := ArgTokens(parts);
    if |parts| == 1 {
      RenderOne(ts[0]);
    } else {
      RenderArgs(parts[1..]);
      RenderCommaStep(ts);
      RenderCommaStep(ts[1..]);
      assert ts[1..][1..] == ArgTokens(parts[1..]);
      var later := Render(CommaTokens(ArgTokens(parts[1..])));
      assert DoubleQuoteAll(parts)[1..] == DoubleQuoteAll(parts[1..]);
      SeparatorSpelled(Spell(ts[0]), later);
    }
  }

  lemma SeparatorSpelled(head: string, later: string)
    ensures head + ([','] + ([' '] + (Spell(Quoted('\'', ['"'])) + ([','] + ([' '] + later)))))
         == head + ", '\"', " + later
  {
  }

  lemma RenderLiteral(value: string)
    ensures Render(LiteralTokens(value)) == Literal(value)
  {
    if '"' !in value || '\'' !in value {
      RenderOne(LiteralTokens(value)[0]);
    } else {
      RenderArgs(SplitOn(value, '"'));
      RenderCall("concat", CommaTokens(ArgTokens(SplitOn(value, '"'))));
      assert CONCAT == "concat" + "(";
    }
  }

  // ---------- reading a literal back ----------

  lemma EvalQuoted(t: Token)
    requires t.Quoted? && IsQuote(t.quote)
    ensures EvalLiteral(Spell(t)) == Some(t.body) && Strip(Spell(t)) == Spell(t) && Strip(" " + Spell(t)) == Spell(t)
  {
    var s := Spell(t);
    StripTrimmed(s);
    assert s[1..|s| - 1] == t.body;
  }

  function SpellAll(ts: seq<Token>): (r: seq<string>)
    ensures |r| == |ts| && forall i :: 0 <= i < |ts| ==> r[i] == Spell(ts[i])
  {
    if ts == [] then [] else [Spell(ts[0])] + SpellAll(ts[1..])
  }

  function Bodies(ts: seq<Token>): string
    requires AllQuoted(ts)
  {
    if ts == [] then "" else ts[0].body + Bodies(ts[1..])
  }

  lemma SplitArgument(t: Token, later: string, buf: string)
    requires t.Quoted? && WellQuoted(t)
    ensures Pieces(Spell(t) + ([','] + ([' '] + later)), ",", 0, None, buf)
         == [Strip(buf + Spell(t))] + Pieces(later, ",", 0, None, " ")
  {
    RenderOne(t);
    LevelCalm([t], 0, ',');
    SplitPiece([t], [' '] + later, ",", buf);
    assert ([' '] + later)[1..] == later && "" + [' '] == " ";
  }

  lemma SplitLastArgument(t: Token, buf: string)
    requires t.Quoted? && WellQuoted(t)
    ensures Pieces(Spell(t), ",", 0, None, buf) == [Strip(buf + Spell(t))]
  {
    RenderOne(t);
    LevelCalm([t], 0, ',');
    SplitLast([t], ",", buf);
  }

  lemma StripArgument(t: Token, buf: string)
    requires t.Quoted? && WellQuoted(t) && (buf == "" || buf == " ")
    ensures Strip(buf + Spell(t)) == Spell(t)
  {
    EvalQuoted(t);
    if buf == "" {
      assert buf + Spell(t) == Spell(t);
    }
  }

  /** Splitting printed arguments at the commas gives the argument texts. */
  lemma {:induction false} SplitArguments(ts: seq<Token>, buf: string)
    requires ts != [] && Strings(ts) && (buf == "" || buf == " ")
    ensures Pieces(Render(CommaTokens(ts)), ",", 0, None, buf) == SpellAll(ts)
  {
    StripArgument(ts[0], buf);
    if |ts| == 1 {
      RenderOne(ts[0]);
      SplitLastArgument(ts[0], buf);
    } else {
      RenderCommaStep(ts);
      SplitArgument(ts[0], Render(CommaTokens(ts[1..])), buf);
      SplitArguments(ts[1..], " ");
    }
  }

  lemma {:induction false} NonEmptySpelled(ts: seq<Token>)
    requires Strings(ts)
    ensures NonEmpty(SpellAll(ts)) == SpellAll(ts)
  {
    if ts != [] {
      assert SpellAll(ts)[1..] == SpellAll(ts[1..]);
      NonEmptySpelled(ts[1..]);
    }
  }

  lemma {:induction false} EvalStrings(ts: seq<Token>, bound: nat)
    requires Strings(ts) && Shorter(SpellAll(ts), bound)
    ensures EvalAll(SpellAll(ts), bound) == Some(Bodies(ts))
  {
    if ts != [] {
      EvalQuoted(ts[0]);
      assert SpellAll(ts)[1..] == SpellAll(ts[1..]);
      EvalStrings(ts[1..], bound);
    }
  }

  lemma {:induction false} BodiesOfArgs(parts: seq<string>)
    requires parts != []
    ensures Bodies(ArgTokens(parts)) == Join(parts, ['"'])
  {
    if |parts| > 1 {
      var ts, later := ArgTokens(parts), ArgTokens(parts[1..]);
      BodiesOfArgs(parts[1..]);
      BodiesCons(Quoted('\'', ['"']), later);
      BodiesCons(ts[0], ts[1..]);
      assert ts == [ts[0]] + ts[1..];
      assert Join(parts, ['"']) == parts[0] + (['"'] + Join(parts[1..], ['"']));
    }
  }

  lemma BodiesCons(t: Token, ts: seq<Token>)
    requires t.Quoted? && AllQuoted(ts)
    ensures Bodies([t] + ts) == t.body + Bodies(ts)
  {
  }

  lemma NotConcat(p: string)
    requires p != "" && p[0] != 'c'
    ensures !IsConcat(p)
  {
  }

  /** How a text starting with a quote is read. */
  lemma EvalFromQuote(p: string)
    requires Trimmed(p) && IsQuote(p[0])
    ensures EvalLiteral(p) == if |p| >= 2 && p[|p| - 1] == p[0] then Some(p[1..|p| - 1]) else None
  {
    StripTrimmed(p);
    NotConcat(p);
  }

  /** How a text that strips to `concat(...)` is read. */
  lemma EvalConcat(text: string, inner: string)
    requires Strip(text) == CONCAT + inner + ")"
    ensures Shorter(SplitTopLevel(inner, ","), |text|)
    ensures EvalLiteral(text) == EvalAll(SplitTopLevel(inner, ","), |text|)
  {
    UnwrapConcat(CONCAT, Strip(text), inner);
    StripShortens(text);
    SplitShorter(inner, ",", |text|);
  }

  lemma UnwrapConcat(open: string, t: string, inner: string)
    requires t == open + inner + ")"
    ensures open <= t && t[|t| - 1] == ')' && t[|open|..|t| - 1] == inner
  {
  }

  lemma ConcatRoundTrip(parts: seq<string>)
    requires parts != [] && Without(parts, '"')
    ensures EvalLiteral(CONCAT + Render(CommaTokens(ArgTokens(parts))) + ")") == Some(Join(parts, ['"']))
  {
    var ts := ArgTokens(parts);
    var inner := Render(CommaTokens(ts));
    ArgTokensQuoted(parts);
    SplitArguments(ts, "");
    NonEmptySpelled(ts);
    StripTrimmed(CONCAT + inner + ")");
    EvalConcat(CONCAT + inner + ")", inner);
    EvalStrings(ts, |CONCAT + inner + ")"|);
    BodiesOfArgs(parts);
  }

  /** Printing a string as an XPath literal and reading it back is the identity,
      whatever quotes, commas or parentheses it holds. */
  lemma LiteralRoundTrip(value: string)
    ensures EvalLiteral(Literal(value)) == Some(value)
  {
    if '"' !in value {
      EvalQuoted(Quoted('"', value));
    } else if '\'' !in value {
      EvalQuoted(Quoted('\'', value));
    } else {
      RenderArgs(SplitOn(value, '"'));
      ConcatRoundTrip(SplitOn(value, '"'));
      JoinSplitOn(value, '"');
    }
  }

  // ---------- what the surrounding scanners see of a literal ----------

  lemma {:induction false} CommaTokensLevel(ts: seq<Token>)
    requires Strings(ts)
    ensures Level(CommaTokens(ts)) && Bare(CommaTokens(ts), SQUARE)
  {
    if |ts| > 1 {
      CommaTokensLevel(ts[1..]);
    }
  }

  lemma ConcatIsWord()
    ensures Word("concat")
  {
  }

  lemma CallOfStringsCalm(name: string, ts: seq<Token>, d: nat)
    requires Word(name) && Strings(ts)
    ensures var call := Call(name, CommaTokens(ts));
            Calm(call, d, ' ') && DepthAfter(call, d) == d && Bare(call, SQUARE)
  {
    CommaTokensLevel(ts);
    LevelCalm(CommaTokens(ts), d + 1, ' ');
    CallCalm(name, CommaTokens(ts), d, ' ');
    CallBare(name, CommaTokens(ts));
  }

  /** A literal keeps the depth, hides the spaces it holds, and shows no bracket. */
  lemma LiteralCalm(value: string, d: nat)
    ensures Calm(LiteralTokens(value), d, ' ') && DepthAfter(LiteralTokens(value), d) == d
    ensures Bare(LiteralTokens(value), SQUARE)
  {
    if '"' !in value || '\'' !in value {
      LevelCalm(LiteralTokens(value), d, ' ');
    } else {
      ArgTokensQuoted(SplitOn(value, '"'));
      ConcatIsWord();
      CallOfStringsCalm("concat", ArgTokens(SplitOn(value, '"')), d);
    }
  }
}
