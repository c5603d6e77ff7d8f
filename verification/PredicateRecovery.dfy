/** Exactly when a printed XPath predicate is read back as the condition it came from. */
module PredicateRecovery {
  import opened Text
  import opened Scanner
  import opened Locator
  import opened XPathLiteral
  import opened XPathPredicate
  import opened PredicateRoundTrip
  import opened DelimiterSearch
  import opened ConcatTail

  /** The value does not hold the delimiter its pattern searches for. */
  ghost predicate Recoverable(c: Condition)
    requires Typed(c)
  {
    && (c.attribute.ClassName? && c.operator.Equals? ==> !Occurs(c.value.text, CLASS_SEP))
    && (c.operator.EndsWith? ==> !Occurs(c.value.text, ENDS_SEP))
  }

  // ---------- which pattern takes a printed predicate ----------

  lemma ExpectDiffers(s: string, prefix: string, i: nat)
    requires i < |s| && i < |prefix| && s[i] != prefix[i]
    ensures Expect(s, prefix).None?
  {
  }

  lemma OnlyCallMatches(p: string, fn: string)
    requires fn == "contains" || fn == "starts-with"
    requires |p| > 1 && p[0] == fn[0] && p[1] == fn[1]
    ensures MatchClass(p).None? && MatchEnds(p).None?
    ensures fn == "starts-with" ==> MatchCall(p, "contains").None?
  {
    ExpectDiffers(p, "(", 0);
    ExpectDiffers(p, "substring", 1);
    if fn == "starts-with" {
      ExpectDiffers(p, "contains", 0);
    }
  }

  lemma OnlyEqualsMatches(p: string)
    requires p != "" && p[0] == '@'
    ensures MatchClass(p).None? && MatchEnds(p).None?
    ensures MatchCall(p, "contains").None? && MatchCall(p, "starts-with").None?
  {
    ExpectDiffers(p, "(", 0);
    ExpectDiffers(p, "substring", 0);
    ExpectDiffers(p, "contains", 0);
    ExpectDiffers(p, "starts-with", 0);
  }

  lemma DecodeEquals(name: string, lit: string)
    requires Word(name) && name != "" && Trimmed(lit)
    ensures Decode(EqualsText(name, lit))
         == if IsBoolKey(KeyOfName(name)) then
              (match EvalLiteral(lit)
               case None => None
               case Some(v) => Some(Query(KeyOfName(name), Equals, Flag(v == "true"))))
            else Decoded(name, Equals, lit)
  {
    var p := EqualsText(name, lit);
    StripTrimmed(p);
    OnlyEqualsMatches(p);
    MatchEqualsPrinted(name, lit);
  }

  lemma DecodeContains(name: string, lit: string)
    requires Word(name) && name != "" && Trimmed(lit)
    ensures Decode(CallText("contains", name, lit)) == Decoded(name, Contains, lit)
  {
    var p := CallText("contains", name, lit);
    StripTrimmed(p);
    OnlyCallMatches(p, "contains");
    MatchCallPrinted("contains", name, lit);
  }

  lemma DecodeStartsWith(name: string, lit: string)
    requires Word(name) && name != "" && Trimmed(lit)
    ensures Decode(CallText("starts-with", name, lit)) == Decoded(name, StartsWith, lit)
  {
    var p := CallText("starts-with", name, lit);
    StripTrimmed(p);
    OnlyCallMatches(p, "starts-with");
    MatchCallPrinted("starts-with", name, lit);
  }

  lemma DecodeClass(lit: string)
    requires Trimmed(lit)
    ensures Around(lit + (CLASS_SEP + lit), CLASS_SEP).Some?
    ensures Decode(ClassText(lit))
         == var (left, right) := Around(lit + (CLASS_SEP + lit), CLASS_SEP).value;
            match (EvalLiteral(left), EvalLiteral(right))
            case (Some(a), Some(b)) => if a == b then Some(Query(CLASS_OR_NODE, Equals, Str(a))) else None
            case _ => None
  {
    var p := ClassText(lit);
    StripTrimmed(p);
    MatchClassPrinted(lit);
    BothDelimiters();
    AroundTwice(lit, CLASS_SEP);
  }

  lemma DecodeEnds(name: string, lit: string)
    requires Word(name) && name != "" && Trimmed(lit)
    ensures Around(lit + (ENDS_SEP + lit), ENDS_SEP).Some?
    ensures Decode(EndsText(name, lit)) == Decoded(name, EndsWith, Around(lit + (ENDS_SEP + lit), ENDS_SEP).value.1)
  {
    var p := EndsText(name, lit);
    EndsTextTrimmed(name, lit);
    StripTrimmed(p);
    ExpectDiffers(p, "(", 0);
    MatchEndsPrinted(name, lit);
    BothDelimiters();
    AroundTwice(lit, ENDS_SEP);
  }

  lemma EndsTextTrimmed(name: string, lit: string)
    requires Trimmed(lit)
    ensures var p := EndsText(name, lit); Trimmed(p) && p[0] == 's'
  {
  }

  // ---------- when the delimiter occurs in the value ----------

  predicate OnlyAtEnd(s: string, q: char) {
    s != "" && s[|s| - 1] == q && forall i :: 0 <= i < |s| - 1 ==> s[i] != q
  }

  lemma StripOnlyAtEnd(s: string, q: char)
    requires OnlyAtEnd(s, q) && !IsSpace(q)
    ensures OnlyAtEnd(Strip(s), q)
  {
    StripToEnd(s);
    var l := Strip(s);
    assert forall i :: 0 <= i < |l| ==> l[i] == s[i + |s| - |l|];
  }

  lemma EvalOnlyAtEnd(s: string, q: char)
    requires OnlyAtEnd(s, q) && IsQuote(q)
    ensures EvalLiteral(s).None?
  {
    StripOnlyAtEnd(s, q);
  }

  /** A proper tail of a quoted string has a closing quote but no opening one. */
  lemma TailFails(v: string, q: char, k: nat)
    requires IsQuote(q) && q !in v && 0 < k <= |v| + 1
    ensures EvalLiteral(([q] + v + [q])[k..]).None?
  {
    var lit := [q] + v + [q];
    var s := lit[k..];
    assert forall i :: 0 <= i < |v| ==> lit[i + 1] == v[i];
    assert forall i :: 0 <= i < |s| - 1 ==> s[i] == v[i + k - 1];
    EvalOnlyAtEnd(s, q);
  }

  // ---------- a concat literal read too far ----------

  /** Some text is in the buffer: it begins the first piece. */
  lemma {:induction false} FirstPiece(s: string, sep: string, depth: int, inStr: Option<char>, buf: string)
    returns (w: string)
    requires sep != "" && buf != ""
    ensures Pieces(s, sep, depth, inStr, buf) != []
    ensures Pieces(s, sep, depth, inStr, buf)[0] == Strip(buf + w)
    decreases |s|
  {
    assert buf + "" == buf;
    var c := buf + [if s == "" then ' ' else s[0]];
    if s == "" {
      w := "";
    } else if inStr.Some? {
      w := FirstPiece(s[1..], sep, depth, if s[0] == inStr.value then None else inStr, c);
      w := Regroup(buf, s[0], w);
    } else if IsQuote(s[0]) {
      w := FirstPiece(s[1..], sep, depth, Some(s[0]), c);
      w := Regroup(buf, s[0], w);
    } else if s[0] == '(' || s[0] == ')' {
      w := FirstPiece(s[1..], sep, DepthStep(Plain(s[0]), depth), None, c);
      w := Regroup(buf, s[0], w);
    } else if depth == 0 && sep <= s {
      w := "";
    } else {
      w := FirstPiece(s[1..], sep, depth, None, c);
      w := Regroup(buf, s[0], w);
    }
  }

  lemma Regroup(buf: string, c: char, w: string) returns (r: string)
    ensures buf + [c] + w == buf + r
  {
    r := [c] + w;
  }

  /** A text that reads as a string longer than `n`, if it reads at all. */
  predicate ReadsLonger(text: string, n: nat) {
    var r := EvalLiteral(text);
    r.Some? ==> |r.value| > n
  }

  lemma PaddedReadsLonger(t: Token, mid: string, w: string, buf: string)
    requires t.Quoted? && WellQuoted(t) && mid != "" && !IsSpace(mid[|mid| - 1]) && (buf == "" || buf == " ")
    ensures var p := Strip(buf + (Spell(t) + mid + w)); p != "" && ReadsLonger(p, |t.body|)
  {
    var s := Spell(t) + mid + w;
    var p := StripRight(s);
    StripBuffered(buf, s);
    StripRightCuts(s);
    assert s[|Spell(t)| + |mid| - 1] == mid[|mid| - 1];
    LongQuoted(p, t);
  }

  lemma StripBuffered(buf: string, s: string)
    requires s != "" && !IsSpace(s[0]) && (buf == "" || buf == " ")
    ensures Strip(buf + s) == StripRight(s)
  {
    assert StripLeft(s) == s;
    assert buf + s == if buf == "" then s else " " + s;
    assert (" " + s)[1..] == s;
  }

  lemma LongQuoted(p: string, t: Token)
    requires t.Quoted? && WellQuoted(t) && |p| > |Spell(t)| && p[0] == t.quote && !IsSpace(p[|p| - 1])
    ensures ReadsLonger(p, |t.body|)
  {
    EvalFromQuote(p);
  }

  /** What follows the last argument when a pattern has taken in a second
      literal: the parenthesis closing the first one, then `between` with no
      quote or parenthesis, and the opening of another call with a quoted argument. */
  function Beyond(between: string, z: string): string {
    ")" + between + "(" + ("\"" + z)
  }

  lemma BeyondKeepsPiece(between: string, z: string, buf: string)
    requires Simple(between)
    ensures Pieces(Beyond(between, z), ",", 0, None, buf)
         == Pieces(z, ",", 0, Some('"'), buf + (")" + between + "(") + "\"")
  {
    var close, open := [Plain(')')], [Plain('(')];
    var ts := close + (Plains(between) + open);
    CalmOne(Plain(')'), 0, ',');
    PlainsLevel(between);
    LevelCalm(Plains(between), -1, ',');
    CalmOne(Plain('('), -1, ',');
    CalmConcat(Plains(between), open, -1, ',');
    CalmConcat(close, Plains(between) + open, 0, ',');
    RenderOne(Plain(')'));
    RenderOne(Plain('('));
    RenderPlains(between);
    RenderConcat(Plains(between), open);
    RenderConcat(close, Plains(between) + open);
    assert Render(ts) == ")" + between + "(";
    SplitSkips(ts, "\"" + z, ",", 0, buf);
    assert ("\"" + z)[1..] == z;
  }

  lemma {:induction false} NonEmptyCons(p: string, rest: seq<string>)
    requires p != ""
    ensures NonEmpty([p] + rest) == [p] + NonEmpty(rest)
  {
  }

  /** Pieces that read as a string longer than `n`, if they read at all. */
  predicate ListReadsLonger(ps: seq<string>, n: nat, bound: nat)
    requires Shorter(ps, bound)
  {
    var r := EvalAll(ps, bound);
    r.Some? ==> |r.value| > n
  }

  lemma FirstReadsLonger(p: string, rest: seq<string>, n: nat, bound: nat)
    requires p != "" && ReadsLonger(p, n) && Shorter(NonEmpty([p] + rest), bound)
    ensures ListReadsLonger(NonEmpty([p] + rest), n, bound)
  {
    NonEmptyCons(p, rest);
    var ps := NonEmpty([p] + rest);
    assert ps[0] == p;
  }

  lemma RestReadsLonger(t: Token, rest: seq<string>, n: nat, bound: nat)
    requires t.Quoted? && WellQuoted(t) && Shorter(NonEmpty([Spell(t)] + rest), bound)
    requires Shorter(NonEmpty(rest), bound)
    requires ListReadsLonger(NonEmpty(rest), n, bound)
    ensures ListReadsLonger(NonEmpty([Spell(t)] + rest), |t.body| + n, bound)
  {
    NonEmptyCons(Spell(t), rest);
    EvalQuoted(t);
    assert ([Spell(t)] + NonEmpty(rest))[1..] == NonEmpty(rest);
  }

  lemma LastArgumentRunsOn(t: Token, between: string, z: string, buf: string) returns (w: string)
    requires t.Quoted? && WellQuoted(t) && Simple(between)
    ensures var ps := Pieces(Spell(t) + Beyond(between, z), ",", 0, None, buf);
            ps != [] && ps[0] == Strip(buf + Spell(t) + (")" + between + "(") + "\"" + w)
  {
    var b := buf + Spell(t);
    RenderOne(t);
    LevelCalm([t], 0, ',');
    SplitSkips([t], Beyond(between, z), ",", 0, buf);
    BeyondKeepsPiece(between, z, b);
    w := FirstPiece(z, ",", 0, Some('"'), b + (")" + between + "(") + "\"");
  }

  lemma OverrunLast(t: Token, between: string, z: string, buf: string, bound: nat)
    requires t.Quoted? && WellQuoted(t) && Simple(between) && (buf == "" || buf == " ")
    requires Shorter(NonEmpty(Pieces(Spell(t) + Beyond(between, z), ",", 0, None, buf)), bound)
    ensures ListReadsLonger(NonEmpty(Pieces(Spell(t) + Beyond(between, z), ",", 0, None, buf)), |t.body|, bound)
  {
    var mid := (")" + between + "(") + "\"";
    var ps := Pieces(Spell(t) + Beyond(between, z), ",", 0, None, buf);
    var w := LastArgumentRunsOn(t, between, z, buf);
    RegroupFive(buf, Spell(t), ")" + between + "(", "\"", w);
    PaddedReadsLonger(t, mid, w, buf);
    HeadReadsLonger(ps, |t.body|, bound);
  }

  lemma RegroupFive(a: string, b: string, c: string, d: string, e: string)
    ensures a + b + c + d + e == a + (b + (c + d) + e)
  {
  }

  lemma HeadReadsLonger(ps: seq<string>, n: nat, bound: nat)
    requires ps != [] && ps[0] != "" && ReadsLonger(ps[0], n) && Shorter(NonEmpty(ps), bound)
    ensures ListReadsLonger(NonEmpty(ps), n, bound)
  {
    assert ps == [ps[0]] + ps[1..];
    FirstReadsLonger(ps[0], ps[1..], n, bound);
  }

  lemma RegroupComma(head: string, more: string, rest: string)
    ensures (head + ([','] + ([' '] + more))) + rest == head + ([','] + ([' '] + (more + rest)))
  {
  }

  lemma OverrunStep(ts: seq<Token>, rest: string, buf: string)
    requires |ts| > 1 && Strings(ts) && (buf == "" || buf == " ")
    ensures Pieces(Render(CommaTokens(ts)) + rest, ",", 0, None, buf)
         == [Spell(ts[0])] + Pieces(Render(CommaTokens(ts[1..])) + rest, ",", 0, None, " ")
  {
    var more := Render(CommaTokens(ts[1..])) + rest;
    RenderCommaStep(ts);
    RegroupComma(Spell(ts[0]), Render(CommaTokens(ts[1..])), rest);
    SplitArgument(ts[0], more, buf);
    StripArgument(ts[0], buf);
  }

  /** Arguments followed by more than they should be read as a longer string, or not at all. */
  lemma {:induction false} Overrun(ts: seq<Token>, between: string, z: string, buf: string, bound: nat)
    requires ts != [] && Strings(ts) && Simple(between) && (buf == "" || buf == " ")
    requires Shorter(NonEmpty(Pieces(Render(CommaTokens(ts)) + Beyond(between, z), ",", 0, None, buf)), bound)
    ensures ListReadsLonger(NonEmpty(Pieces(Render(CommaTokens(ts)) + Beyond(between, z), ",", 0, None, buf)), |Bodies(ts)|, bound)
  {
    if |ts| == 1 {
      RenderOne(ts[0]);
      OverrunLast(ts[0], between, z, buf, bound);
      assert Bodies(ts) == ts[0].body;
    } else {
      var later := Pieces(Render(CommaTokens(ts[1..])) + Beyond(between, z), ",", 0, None, " ");
      OverrunStep(ts, Beyond(between, z), buf);
      NonEmptyCons(Spell(ts[0]), later);
      ShorterConcat([Spell(ts[0])], NonEmpty(later), bound);
      Overrun(ts[1..], between, z, " ", bound);
      RestReadsLonger(ts[0], later, |Bodies(ts[1..])|, bound);
    }
  }

  // ---------- the exact conditions ----------

  /** The delimiter stands behind the opening of the first argument. */
  lemma DelimiterBehindOpening(open: string, parts: seq<string>, sep: string, k: nat)
    requires parts != [] && Delimiter(sep) && sep[0] !in open && At(open + ArgumentsText(parts), sep, k)
    ensures k > |open| && (open + ArgumentsText(parts))[|open|] == '"'
  {
  }

  lemma StripKeeps(g: string, i: nat)
    requires i < |g| && g != "" && !IsSpace(g[0]) && !IsSpace(g[i])
    ensures i < |Strip(g)| <= |g| && Strip(g) == g[..|Strip(g)|] && !IsSpace(Strip(g)[|Strip(g)| - 1])
  {
    assert StripLeft(g) == g;
    StripRightCuts(g);
  }

  lemma GroupText(word: string, inner: string, sep: string, k: nat, m: nat)
    requires var open := word + "("; var lit := open + inner + ")";
             && |open| < k <= |lit| && lit[|open|] == '"'
             && |lit| + |sep| + |open| + 1 < m <= |lit| + |sep| + k && (lit + sep + lit[..k])[m - 1] == ')'
    ensures var open := word + "("; var lit := open + inner + ")";
            var t := (lit + sep + lit[..k])[..m];
            t == open + (inner + Beyond(sep + word, t[|lit| + |sep| + |open| + 1..m - 1])) + ")"
  {
    var open := word + "(";
    var lit := open + inner + ")";
    var head, mid := lit + sep + (open + ['"']), lit[|open| + 1..k];
    assert lit[..k] == open + ['"'] + mid;
    assert lit + sep + lit[..k] == head + mid;
    TakeBehind(head, mid, m);
    GroupRegroup(open, inner, sep, word, mid[..m - 1 - |head|]);
  }

  lemma TakeBehind(head: string, mid: string, m: nat)
    requires |head| < m <= |head + mid|
    ensures (head + mid)[..m] == head + mid[..m - 1 - |head|] + [(head + mid)[m - 1]]
    ensures (head + mid)[..m][|head|..m - 1] == mid[..m - 1 - |head|]
  {
  }

  lemma GroupRegroup(open: string, inner: string, sep: string, word: string, z: string)
    requires open == word + "("
    ensures (open + inner + ")") + sep + (open + ['"']) + z + [')'] == open + (inner + Beyond(sep + word, z)) + ")"
  {
  }

  lemma GroupStarts(open: string, inner: string, sep: string, k: nat)
    requires var lit := open + inner + ")"; open != "" && |open| < k <= |lit|
    ensures var lit := open + inner + ")"; var g := lit + sep + lit[..k];
            g[0] == open[0] && g[|lit| + |sep| + |open|] == lit[|open|]
  {
  }

  lemma ReadsOnlyAsConcat(g: string, n: nat)
    requires Strip(g) != "" && Strip(g)[0] == 'c' && !IsConcat(Strip(g))
    ensures ReadsLonger(g, n)
  {
  }

  /** If the group is read as a `concat`, what its arguments look like. */
  lemma GroupAsConcat(word: string, inner: string, sep: string, k: nat) returns (z: string)
    requires word + "(" == CONCAT
    requires var lit := CONCAT + inner + ")"; |CONCAT| < k <= |lit| && lit[|CONCAT|] == '"'
    ensures var lit := CONCAT + inner + ")"; var t := Strip(lit + sep + lit[..k]);
            t != "" && t[0] == 'c' && (IsConcat(t) ==> t == CONCAT + (inner + Beyond(sep + word, z)) + ")")
  {
    var lit := CONCAT + inner + ")";
    var g := lit + sep + lit[..k];
    var i := |lit| + |sep| + |CONCAT|;
    GroupStarts(CONCAT, inner, sep, k);
    StripKeeps(g, i);
    z := "";
    var t := Strip(g);
    if IsConcat(t) {
      assert t[i] == '"' && t[|t| - 1] == ')';
      GroupText(word, inner, sep, k, |t|);
      z := t[i + 1..|t| - 1];
    }
  }

  /** `concat(` args `)` sep `concat(` and some of the args again. */
  lemma GroupReadsLonger(word: string, ts: seq<Token>, sep: string, k: nat)
    requires word + "(" == CONCAT && Simple(word + sep) && ts != [] && Strings(ts)
    requires var lit := CONCAT + Render(CommaTokens(ts)) + ")"; |CONCAT| < k <= |lit| && lit[|CONCAT|] == '"'
    ensures var lit := CONCAT + Render(CommaTokens(ts)) + ")"; ReadsLonger(lit + sep + lit[..k], |Bodies(ts)|)
  {
    var lit := CONCAT + Render(CommaTokens(ts)) + ")";
    var g := lit + sep + lit[..k];
    var z := GroupAsConcat(word, Render(CommaTokens(ts)), sep, k);
    if IsConcat(Strip(g)) {
      GroupBodyReadsLonger(g, Strip(g), word, ts, sep, z);
    } else {
      ReadsOnlyAsConcat(g, |Bodies(ts)|);
    }
  }

  lemma GroupBodyReadsLonger(g: string, t: string, word: string, ts: seq<Token>, sep: string, z: string)
    requires Simple(word + sep) && ts != [] && Strings(ts) && t == Strip(g)
    requires t == CONCAT + (Render(CommaTokens(ts)) + Beyond(sep + word, z)) + ")"
    ensures ReadsLonger(g, |Bodies(ts)|)
  {
    assert forall i :: 0 <= i < |sep + word| ==> (sep + word)[i] in word + sep;
    EvalConcat(g, Render(CommaTokens(ts)) + Beyond(sep + word, z));
    Overrun(ts, sep + word, z, "", |g|);
  }

  lemma SeparatorsSimple()
    ensures Simple("concat" + CLASS_SEP) && "concat" + "(" == CONCAT
  {
  }

  lemma ConcatGroupLost(value: string, sep: string, k: nat)
    requires '"' in value && '\'' in value && Delimiter(sep) && Simple("concat" + sep) && At(Literal(value), sep, k)
    ensures ReadsLonger(Literal(value) + sep + Literal(value)[..k], |value|)
  {
    var parts := SplitOn(value, '"');
    ConcatText(value);
    DelimiterBehindOpening(CONCAT, parts, sep, k);
    ArgTokensQuoted(parts);
    SeparatorsSimple();
    GroupReadsLonger("concat", ArgTokens(parts), sep, k);
    BodiesOfArgs(parts);
    JoinSplitOn(value, '"');
  }

  lemma ConcatShape(value: string)
    requires '"' in value && '\'' in value
    ensures Literal(value) == CONCAT + Render(CommaTokens(ArgTokens(SplitOn(value, '"')))) + ")"
  {
    RenderArgs(SplitOn(value, '"'));
  }

  lemma ConcatText(value: string)
    requires '"' in value && '\'' in value
    ensures Literal(value) == CONCAT + ArgumentsText(SplitOn(value, '"'))
    ensures Literal(value) == CONCAT + Render(CommaTokens(ArgTokens(SplitOn(value, '"')))) + ")"
  {
    var inner := Render(CommaTokens(ArgTokens(SplitOn(value, '"'))));
    ConcatShape(value);
    ArgumentsTextRendered(SplitOn(value, '"'));
    assert (CONCAT + inner) + ")" == CONCAT + (inner + [')']);
  }

  /** A delimiter does not reach the end of a literal. */
  lemma DelimiterInside(value: string, sep: string, k: nat)
    requires Delimiter(sep) && At(Literal(value), sep, k)
    ensures k + |sep| < |Literal(value)|
  {
    LiteralShape(value);
    var lit, m := Literal(value), |sep|;
    assert lit[k..k + m][m - 1] == lit[k + m - 1];
  }

  lemma QuotedTailFails(value: string, sep: string, k: nat)
    requires Delimiter(sep) && At(Literal(value), sep, k) && ('"' !in value || '\'' !in value)
    ensures EvalLiteral(Literal(value)[k + |sep|..]).None?
  {
    DelimiterInside(value, sep, k);
    TailFails(value, if '"' !in value then '"' else '\'', k + |sep|);
  }

  /** With a delimiter in the value, the class pattern cannot read both literals as the value. */
  lemma ClassEqualsLost(value: string, k: nat)
    requires At(Literal(value), CLASS_SEP, k)
    ensures EvalLiteral(Literal(value)[k + |CLASS_SEP|..]).None?
         || EvalLiteral(Literal(value) + CLASS_SEP + Literal(value)[..k]) != Some(value)
  {
    BothDelimiters();
    if '"' !in value || '\'' !in value {
      QuotedTailFails(value, CLASS_SEP, k);
    } else {
      SeparatorsSimple();
      ConcatGroupLost(value, CLASS_SEP, k);
    }
  }

  lemma DecodeClassSafe(lit: string, value: string)
    requires Trimmed(lit) && !Occurs(lit, CLASS_SEP) && EvalLiteral(lit) == Some(value)
    ensures Decode(ClassText(lit)) == Some(Query(CLASS_OR_NODE, Equals, Str(value)))
  {
    DecodeClass(lit);
    BothDelimiters();
    AroundTwice(lit, CLASS_SEP);
  }

  lemma DecodeClassUnsafe(lit: string)
    requires Trimmed(lit) && Occurs(lit, CLASS_SEP)
    ensures LastIndexOf(lit, CLASS_SEP).Some?
    ensures var k := LastIndexOf(lit, CLASS_SEP).value;
            forall v :: Decode(ClassText(lit)) == Some(Query(CLASS_OR_NODE, Equals, Str(v))) ==>
              EvalLiteral(lit + CLASS_SEP + lit[..k]) == Some(v) && EvalLiteral(lit[k + |CLASS_SEP|..]) == Some(v)
  {
    DecodeClass(lit);
    BothDelimiters();
    AroundTwice(lit, CLASS_SEP);
  }

  /** Class equality is read back exactly when the value does not hold the
      delimiter " or @class=". */
  lemma ClassEqualsRoundTrip(value: string)
    ensures Decode(ClassText(Literal(value))) == Some(Query(CLASS_OR_NODE, Equals, Str(value)))
       <==> !Occurs(value, CLASS_SEP)
  {
    LiteralShape(value);
    BothDelimiters();
    OccursInLiteral(value, CLASS_SEP);
    if Occurs(value, CLASS_SEP) {
      DecodeClassUnsafe(Literal(value));
      ClassEqualsLost(value, LastIndexOf(Literal(value), CLASS_SEP).value);
    } else {
      LiteralRoundTrip(value);
      DecodeClassSafe(Literal(value), value);
    }
  }

  // ---------- ends-with: only what follows the last delimiter is read ----------

  lemma NotAcrossQuote(s: string, sep: string, k: nat, i: nat)
    requires Delimiter(sep) && At(s, sep, k) && i < |s| && IsQuote(s[i])
    ensures i < k || k + |sep| <= i
  {
    forall j | 0 <= j < |sep|
      ensures sep[j] == s[k + j]
    {
      assert s[k..k + |sep|][j] == s[k + j];
    }
  }

  /** The text between an argument and the next one. */
  function Gap(): string {
    [','] + ([' '] + (['\''] + ['"'] + ['\''] + ([','] + [' '])))
  }

  lemma ArgumentsTextGap(parts: seq<string>)
    requires |parts| > 1
    ensures ArgumentsText(parts) == (['"'] + parts[0] + ['"'] + Gap()) + ArgumentsText(parts[1..])
    ensures AfterFirst(parts) == Gap() + ArgumentsText(parts[1..])
  {
    RegroupGap(ArgumentsText(parts[1..]));
    RegroupFront(parts[0], Gap(), ArgumentsText(parts[1..]));
  }

  lemma RegroupGap(rest: string)
    ensures [','] + ([' '] + ((['\''] + ['"'] + ['\'']) + ([','] + ([' '] + rest)))) == Gap() + rest
  {
  }

  lemma RegroupFront(p: string, gap: string, rest: string)
    ensures ['"'] + (p + (['"'] + (gap + rest))) == (['"'] + p + ['"'] + gap) + rest
  {
  }

  lemma NotInFront(p: string, rest: string, sep: string, k: nat)
    requires Delimiter(sep) && '"' !in p && rest != "" && rest[0] == '"'
    requires At((['"'] + p + ['"'] + Gap()) + rest, sep, k)
    ensures (0 < k && k + |sep| <= |p| + 1) || k >= |p| + 9
  {
    var s := (['"'] + p + ['"'] + Gap()) + rest;
    assert s[0] == '"' && s[|p| + 1] == '"' && s[|p| + 4] == '\'' && s[|p| + 6] == '\'' && s[|p| + 9] == '"';
    NotAcrossQuote(s, sep, k, 0);
    NotAcrossQuote(s, sep, k, |p| + 1);
    NotAcrossQuote(s, sep, k, |p| + 4);
    NotAcrossQuote(s, sep, k, |p| + 6);
    NotAcrossQuote(s, sep, k, |p| + 9);
  }

  /** A delimiter stands inside the first part or behind it. */
  lemma FirstOrLater(parts: seq<string>, sep: string, k: nat)
    requires Segments(parts) && Delimiter(sep) && At(ArgumentsText(parts), sep, k)
    ensures (0 < k && k + |sep| <= |parts[0]| + 1) || (|parts| > 1 && k >= |parts[0]| + 9)
  {
    if |parts| > 1 {
      ArgumentsTextGap(parts);
      NotInFront(parts[0], ArgumentsText(parts[1..]), sep, k);
    } else {
      assert AfterFirst(parts) == [')'] && '"' !in parts[0];
      InOnlyArgument(parts[0], sep, k);
    }
  }

  lemma LocateFirst(parts: seq<string>, sep: string, k: nat) returns (x: string, y: string)
    requires parts != [] && At(ArgumentsText(parts), sep, k) && 0 < k && k + |sep| <= |parts[0]| + 1
    ensures parts[0] == x + sep + y
    ensures ArgumentsText(parts)[k + |sep|..] == y + (['"'] + AfterFirst(parts))
  {
    var p := parts[0];
    InFirstArgument(p, AfterFirst(parts), sep, k);
    x, y := p[..k - 1], p[k - 1 + |sep|..];
  }

  lemma LocateLater(parts: seq<string>, text: string, rest: string, sep: string, k: nat)
    requires |parts| > 1 && text == ArgumentsText(parts) && rest == ArgumentsText(parts[1..])
    requires At(text, sep, k) && k >= |parts[0]| + 9
    ensures var i := k - (|parts[0]| + 9);
            i + |sep| <= |rest| && At(rest, sep, i) && text[k + |sep|..] == rest[i + |sep|..]
  {
    var front := ['"'] + parts[0] + ['"'] + Gap();
    assert text == front + rest by {
      ArgumentsTextGap(parts);
    }
    FrontLength(parts[0]);
    DropFrontOf(text, front, rest, |parts[0]| + 9, sep, k);
  }

  lemma FrontLength(p: string)
    ensures |['"'] + p + ['"'] + Gap()| == |p| + 9
  {
  }

  lemma DropFrontOf(text: string, front: string, rest: string, n: nat, sep: string, k: nat)
    requires text == front + rest && n == |front| && k >= n && At(text, sep, k)
    ensures k - n + |sep| <= |rest| && At(rest, sep, k - n) && text[k + |sep|..] == rest[k - n + |sep|..]
  {
    DropFront(front, rest, sep, k);
  }

  /** In which part a delimiter stands, and what follows it in the printed text. */
  lemma {:induction false} LocateDelimiter(parts: seq<string>, sep: string, k: nat) returns (i: nat, x: string, y: string)
    requires Segments(parts) && Delimiter(sep) && At(ArgumentsText(parts), sep, k)
    ensures i < |parts| && parts[i] == x + sep + y
    ensures ArgumentsText(parts)[k + |sep|..] == y + (['"'] + AfterFirst(parts[i..]))
  {
    FirstOrLater(parts, sep, k);
    if 0 < k && k + |sep| <= |parts[0]| + 1 {
      i := 0;
      x, y := LocateFirst(parts, sep, k);
      assert parts[0..] == parts;
    } else {
      LocateLater(parts, ArgumentsText(parts), ArgumentsText(parts[1..]), sep, k);
      i, x, y := LocateDelimiter(parts[1..], sep, k - (|parts[0]| + 9));
      assert parts[1..][i..] == parts[i + 1..];
      i := i + 1;
    }
  }

  lemma InOnlyArgument(p: string, sep: string, k: nat)
    requires Delimiter(sep) && '"' !in p && At(['"'] + (p + (['"'] + [')'])), sep, k)
    ensures 0 < k && k + |sep| <= |p| + 1
  {
    var s := ['"'] + (p + (['"'] + [')']));
    assert s[0] == '"' && s[|p| + 1] == '"';
    NotAcrossQuote(s, sep, k, 0);
    NotAcrossQuote(s, sep, k, |p| + 1);
  }

  lemma InFirstArgument(p: string, after: string, sep: string, k: nat)
    requires 0 < k && k + |sep| <= |p| + 1 && At(['"'] + (p + (['"'] + after)), sep, k)
    ensures p == p[..k - 1] + sep + p[k - 1 + |sep|..]
    ensures (['"'] + (p + (['"'] + after)))[k + |sep|..] == p[k - 1 + |sep|..] + (['"'] + after)
  {
  }

  lemma DropFront(front: string, rest: string, sep: string, k: nat)
    requires k >= |front| && At(front + rest, sep, k)
    ensures At(rest, sep, k - |front|)
    ensures (front + rest)[k + |sep|..] == rest[k - |front| + |sep|..]
  {
  }

  /** The printed text after part `y` is the text the tail reader was studied on. */
  lemma {:induction false} TailIsCore(y: string, parts: seq<string>)
    requires parts != []
    ensures y + (['"'] + AfterFirst(parts)) == Core([y] + parts[1..]) + ['"'] + [')']
    decreases |parts|
  {
    var ss := [y] + parts[1..];
    if |parts| == 1 {
      assert ss == [y];
      assert y + (['"'] + [')']) == y + ['"'] + [')'];
    } else {
      ArgumentsTextGap(parts);
      TailIsCore(parts[1..][0], parts[1..]);
      assert ss[1..] == parts[1..] && [parts[1..][0]] + parts[1..][1..] == parts[1..];
      JointIsGap();
      RegroupTailCore(y, Gap(), JOINT, Core(parts[1..]), parts[1..][0] + (['"'] + AfterFirst(parts[1..])));
    }
  }

  lemma JointIsGap()
    ensures JOINT == ['"'] + (Gap() + ['"'])
  {
  }

  lemma RegroupTailCore(y: string, gap: string, joint: string, core: string, rest: string)
    requires joint == ['"'] + (gap + ['"']) && rest == core + ['"'] + [')']
    ensures y + (['"'] + (gap + (['"'] + rest))) == (y + (joint + core)) + ['"'] + [')']
  {
  }

  lemma StripToParen(s: string)
    requires s != "" && s[|s| - 1] == ')'
    ensures Strip(s) == StripLeft(s) && Strip(s) != "" && Strip(s)[|Strip(s)| - 1] == ')'
  {
    StripToEnd(s);
  }

  /** A tail that reads at all begins with another call of concat. */
  lemma TailOpensConcat(y: string, rest: string, open: string) returns (w: string)
    requires '"' !in y && open != "" && '"' !in open && open <= StripLeft(y + (['"'] + rest))
    ensures StripLeft(y + (['"'] + rest)) == open + (w + (['"'] + rest)) && '"' !in w
  {
    var l, tail := StripLeft(y), ['"'] + rest;
    StripLeftConcat(y, tail);
    StripLeftCuts(y);
    StripLeftQuote(tail);
    assert l == y[|y| - |l|..];
    assert forall c :: c in l ==> c in y;
    assert "" + tail == tail;
    w := PrefixWithin(l, tail, open);
  }

  lemma PrefixWithin(l: string, tail: string, open: string) returns (w: string)
    requires tail != "" && tail[0] == '"' && '"' !in open && open <= l + tail
    ensures l == open + w && l + tail == open + (w + tail)
  {
    assert (l + tail)[|l|] == '"';
    forall j | 0 <= j < |open|
      ensures open[j] == (l + tail)[j]
    {
    }
    w := l[|open|..];
    assert l[..|open|] == (l + tail)[..|open|] == open;
  }

  /** After its first segment a tail goes on with a double quote. */
  lemma TailGoesOn(y: string, more: seq<string>) returns (rest: string)
    ensures Core([y] + more) + ['"'] + [')'] == y + (['"'] + rest)
    ensures forall w: string :: Core([w] + more) + ['"'] + [')'] == w + (['"'] + rest)
  {
    if more == [] {
      rest := [')'];
    } else {
      JointOpens();
      rest := JOINT[1..] + (Core(more) + ['"'] + [')']);
    }
    CoreGoesOn(y, more, rest);
    forall w: string
      ensures Core([w] + more) + ['"'] + [')'] == w + (['"'] + rest)
    {
      CoreGoesOn(w, more, rest);
    }
  }

  lemma CoreGoesOn(w: string, more: seq<string>, rest: string)
    requires rest == if more == [] then [')'] else JOINT[1..] + (Core(more) + ['"'] + [')'])
    ensures Core([w] + more) + ['"'] + [')'] == w + (['"'] + rest)
  {
    if more == [] {
      assert [w] + more == [w];
    } else {
      assert ([w] + more)[1..] == more;
      JointOpens();
      RegroupGoesOn(w, JOINT, Core(more));
    }
  }

  lemma RegroupGoesOn(w: string, joint: string, core: string)
    requires joint != "" && joint[0] == '"'
    ensures (w + (joint + core)) + ['"'] + [')'] == w + (['"'] + (joint[1..] + (core + ['"'] + [')'])))
  {
  }

  lemma ConcatHasNoQuote()
    ensures '"' !in CONCAT && CONCAT != ""
  {
  }

  /** A tail is read only if it opens another call of concat. */
  lemma TailReopened(y: string, more: seq<string>) returns (w: string)
    requires '"' !in y && IsConcat(StripLeft(Core([y] + more) + ['"'] + [')']))
    ensures '"' !in w
    ensures StripLeft(Core([y] + more) + ['"'] + [')']) == CONCAT + (Core([w] + more) + ['"']) + ")"
  {
    var rest := TailGoesOn(y, more);
    ConcatHasNoQuote();
    w := TailOpensConcat(y, rest, CONCAT);
    RegroupReopened(CONCAT, Core([w] + more), w + (['"'] + rest));
  }

  lemma RegroupReopened(open: string, core: string, all: string)
    requires core + ['"'] + [')'] == all
    ensures open + all == open + (core + ['"']) + ")"
  {
  }

  lemma ConcatTailLost(value: string, sep: string, k: nat)
    requires '"' in value && '\'' in value && Delimiter(sep) && At(Literal(value), sep, k)
    ensures EvalLiteral(Literal(value)[k + |sep|..]) != Some(value)
  {
    ConcatText(value);
    FrontTailLost(CONCAT, value, SplitOn(value, '"'), sep, k);
  }

  lemma FrontTailLost(open: string, value: string, parts: seq<string>, sep: string, k: nat)
    requires parts == SplitOn(value, '"') && Delimiter(sep) && sep[0] !in open && At(open + ArgumentsText(parts), sep, k)
    ensures EvalLiteral((open + ArgumentsText(parts))[k + |sep|..]) != Some(value)
  {
    DelimiterBehindOpening(open, parts, sep, k);
    var i := k - |open|;
    DropFront(open, ArgumentsText(parts), sep, k);
    ArgumentsTailLost(value, parts, sep, i);
    var tail := (open + ArgumentsText(parts))[k + |sep|..];
    assert tail == ArgumentsText(parts)[i + |sep|..];
  }

  lemma ArgumentsTailLost(value: string, parts: seq<string>, sep: string, k: nat)
    requires parts == SplitOn(value, '"') && Delimiter(sep) && At(ArgumentsText(parts), sep, k)
    ensures EvalLiteral(ArgumentsText(parts)[k + |sep|..]) != Some(value)
  {
    var i, x, y := LocateDelimiter(parts, sep, k);
    assert '"' !in parts[i] && forall c :: c in y ==> c in parts[i];
    TailIsCore(y, parts[i..]);
    TailLost(value, parts, i, y);
  }

  lemma TailLost(value: string, parts: seq<string>, i: nat, y: string)
    requires parts == SplitOn(value, '"') && i < |parts| && |parts[i]| > 3 && '"' !in y
    ensures EvalLiteral(Core([y] + parts[i..][1..]) + ['"'] + [')']) != Some(value)
  {
    var more := parts[i..][1..];
    var text := Core([y] + more) + ['"'] + [')'];
    StripToParen(text);
    if IsConcat(Strip(text)) {
      var w := TailReopened(y, more);
      var inner := Core([w] + more) + ['"'];
      EvalConcat(text, inner);
      assert EndsWithSegments(value, [w] + more) by {
        TailSegments(value, parts, i, w);
      }
      TailNeverReadsAsValue(value, [w] + more, |text|);
    }
  }

  lemma TailSegments(value: string, parts: seq<string>, i: nat, w: string)
    requires parts == SplitOn(value, '"') && i < |parts| && |parts[i]| > 3
    ensures EndsWithSegments(value, [w] + parts[i..][1..])
  {
  }

  lemma EndsWithLost(value: string, k: nat)
    requires At(Literal(value), ENDS_SEP, k)
    ensures EvalLiteral(Literal(value)[k + |ENDS_SEP|..]) != Some(value)
  {
    BothDelimiters();
    if '"' !in value || '\'' !in value {
      QuotedTailFails(value, ENDS_SEP, k);
    } else {
      ConcatTailLost(value, ENDS_SEP, k);
    }
  }

  /** Ends-with is read back exactly when the value does not hold the delimiter ")+1)=". */
  lemma EndsWithRoundTrip(name: string, value: string)
    requires Word(name) && name != ""
    ensures Decode(EndsText(name, Literal(value))) == Some(Query(KeyOfName(name), EndsWith, Str(value)))
       <==> !Occurs(value, ENDS_SEP)
  {
    var lit := Literal(value);
    LiteralShape(value);
    BothDelimiters();
    OccursInLiteral(value, ENDS_SEP);
    DecodeEnds(name, lit);
    AroundTwice(lit, ENDS_SEP);
    if Occurs(value, ENDS_SEP) {
      EndsWithLost(value, LastIndexOf(lit, ENDS_SEP).value);
    } else {
      LiteralRoundTrip(value);
    }
  }

  lemma FlagRoundTrip(name: string, on: bool)
    requires Word(name) && name != "" && IsBoolKey(KeyOfName(name))
    ensures Decode(EqualsText(name, "'" + (if on then "true" else "false") + "'")) == Some(Query(KeyOfName(name), Equals, Flag(on)))
  {
    var t := Quoted('\'', if on then "true" else "false");
    EvalQuoted(t);
    assert Spell(t) == "'" + (if on then "true" else "false") + "'";
    DecodeEquals(name, Spell(t));
  }

  lemma PlainRoundTrip(name: string, value: string)
    requires Word(name) && name != ""
    ensures Decode(CallText("contains", name, Literal(value))) == Some(Query(KeyOfName(name), Contains, Str(value)))
    ensures Decode(CallText("starts-with", name, Literal(value))) == Some(Query(KeyOfName(name), StartsWith, Str(value)))
    ensures !IsBoolKey(KeyOfName(name)) ==>
              Decode(EqualsText(name, Literal(value))) == Some(Query(KeyOfName(name), Equals, Str(value)))
  {
    LiteralShape(value);
    LiteralRoundTrip(value);
    DecodeContains(name, Literal(value));
    DecodeStartsWith(name, Literal(value));
    DecodeEquals(name, Literal(value));
  }

  lemma NameFacts(a: Attribute)
    ensures Word(XPathName(a)) && XPathName(a) != ""
    ensures KeyOfName(XPathName(a)) == NodeKey(a) && (IsBoolKey(NodeKey(a)) <==> IsBool(a))
  {
    NamesAgree(a);
  }

  lemma ClassRoundTrips(c: Condition)
    requires Typed(c) && c.attribute.ClassName? && c.operator.Equals?
    ensures Predicate(c).Some?
    ensures Decode(Predicate(c).value) == Some(Query(CLASS_OR_NODE, Equals, c.value)) <==> Recoverable(c)
  {
    ClassEqualsRoundTrip(c.value.text);
  }

  lemma EndsPrinted(c: Condition)
    requires Typed(c) && !IsBool(c.attribute) && c.operator.EndsWith?
    ensures Predicate(c) == Some(EndsText(XPathName(c.attribute), Literal(c.value.text)))
  {
  }

  lemma EndsRoundTrips(c: Condition)
    requires Typed(c) && !IsBool(c.attribute) && c.operator.EndsWith?
    requires Word(XPathName(c.attribute)) && XPathName(c.attribute) != ""
    ensures Predicate(c).Some?
    ensures Decode(Predicate(c).value) == Some(Query(KeyOfName(XPathName(c.attribute)), EndsWith, c.value)) <==> Recoverable(c)
  {
    EndsPrinted(c);
    EndsWithRoundTrip(XPathName(c.attribute), c.value.text);
  }

  lemma OtherRoundTrips(c: Condition, name: string)
    requires Typed(c) && !IsBool(c.attribute) && name == XPathName(c.attribute) && Word(name) && name != ""
    requires c.operator.Contains? || c.operator.StartsWith? || (c.operator.Equals? && !c.attribute.ClassName?)
    requires !IsBoolKey(KeyOfName(name))
    ensures Recoverable(c) && Predicate(c).Some?
    ensures Decode(Predicate(c).value) == Some(Query(KeyOfName(name), c.operator, c.value))
  {
    PlainRoundTrip(name, c.value.text);
  }

  /** A printed condition is read back as itself (class equality as class-or-node-name)
      exactly when its value does not hold the delimiter its pattern searches for. */
  lemma PredicateRoundTrips(c: Condition)
    requires Typed(c) && !c.operator.Regex?
    ensures Predicate(c).Some?
    ensures Decode(Predicate(c).value) == Some(Meant(c)) <==> Recoverable(c)
  {
    NameFacts(c.attribute);
    if IsBool(c.attribute) {
      FlagRoundTrip(XPathName(c.attribute), c.value.on);
    } else if c.operator.EndsWith? {
      EndsRoundTrips(c);
    } else if c.attribute.ClassName? && c.operator.Equals? {
      ClassRoundTrips(c);
    } else {
      OtherRoundTrips(c, XPathName(c.attribute));
    }
  }
}
