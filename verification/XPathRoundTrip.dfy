/** Parsing a printed XPath selector gives back the structured locator, exactly
    when every condition in it is recoverable. */
module XPathRoundTrip {
  import opened Text
  import opened Scanner
  import opened Locator
  import opened XPathLiteral
  import opened XPathPredicate
  import opened PredicateRoundTrip
  import opened PredicateRecovery
  import opened XPathQuery

  ghost predicate AllRecoverable(cs: seq<Condition>)
    requires AllTyped(cs)
  {
    forall i :: 0 <= i < |cs| ==> Recoverable(cs[i])
  }

  function MeantAll(cs: seq<Condition>): (qs: seq<Query>)
    ensures |qs| == |cs|
  {
    if cs == [] then [] else [Meant(cs[0])] + MeantAll(cs[1..])
  }

  function TokensOf(cs: seq<Condition>): (ts: seq<seq<Token>>)
    requires AllPrintable(cs)
    ensures |ts| == |cs| && forall i :: 0 <= i < |cs| ==> ts[i] == PredicateTokens(cs[i])
  {
    seq(|cs|, i requires 0 <= i < |cs| => PredicateTokens(cs[i]))
  }

  /** A printed predicate is not empty, has no spaces around it, and does not start with a digit. */
  lemma PredicateTrimmed(c: Condition)
    requires Typed(c) && !c.operator.Regex?
    ensures var p := Render(PredicateTokens(c)); Trimmed(p) && !IsDigit(p[0])
  {
    var name := XPathName(c.attribute);
    RenderPredicate(c);
    if IsBool(c.attribute) {
      EqualsTrimmed(name, "'" + (if c.value.on then "true" else "false") + "'");
    } else {
      DelimiterSearch.LiteralShape(c.value.text);
      var lit := Literal(c.value.text);
      EqualsTrimmed(name, lit);
      CallTrimmed("contains", name, lit);
      CallTrimmed("starts-with", name, lit);
      ClassTrimmed(lit);
      EndsTextTrimmed(name, lit);
    }
  }

  lemma EqualsTrimmed(name: string, lit: string)
    requires Trimmed(lit)
    ensures Trimmed(EqualsText(name, lit)) && EqualsText(name, lit)[0] == '@'
  {
  }

  lemma CallTrimmed(fn: string, name: string, lit: string)
    requires fn != "" && IsWordChar(fn[0]) && !IsDigit(fn[0])
    ensures Trimmed(CallText(fn, name, lit)) && CallText(fn, name, lit)[0] == fn[0]
  {
  }

  lemma ClassTrimmed(lit: string)
    ensures Trimmed(ClassText(lit)) && ClassText(lit)[0] == '('
  {
  }

  // ---------- a bracketed list of predicates ----------

  lemma {:induction false} PredicatesRendered(cs: seq<Condition>)
    requires AllPrintable(cs)
    ensures Predicates(cs) == Some(RenderAll(TokensOf(cs)))
  {
    if cs != [] {
      RenderPredicate(cs[0]);
      PredicatesRendered(cs[1..]);
      assert TokensOf(cs)[1..] == TokensOf(cs[1..]);
    }
  }

  lemma TokensTidy(cs: seq<Condition>)
    requires AllPrintable(cs)
    ensures AllUnsplit(TokensOf(cs), ' ') && AllBare(TokensOf(cs))
  {
    forall i | 0 <= i < |cs|
      ensures Unsplit(TokensOf(cs)[i], ' ') && Bare(TokensOf(cs)[i], SQUARE)
    {
      PredicateTidy(cs[i]);
      PredicateTrimmed(cs[i]);
    }
  }

  predicate AllBare(pieces: seq<seq<Token>>) {
    forall i :: 0 <= i < |pieces| ==> Bare(pieces[i], SQUARE)
  }

  lemma {:induction false} JoinTokensBare(pieces: seq<seq<Token>>, sep: string)
    requires Bare(Plains(sep), SQUARE) && AllBare(pieces)
    ensures Bare(JoinTokens(pieces, sep), SQUARE)
  {
    if |pieces| > 1 {
      JoinTokensBare(pieces[1..], sep);
      BareConcat(pieces[0], Plains(sep), SQUARE);
      BareConcat(pieces[0] + Plains(sep), JoinTokens(pieces[1..], sep), SQUARE);
    }
  }

  lemma {:induction false} AllTrimmed(texts: seq<string>)
    requires forall i :: 0 <= i < |texts| ==> Trimmed(texts[i])
    ensures NonEmpty(StripAll(texts)) == texts
  {
    if texts != [] {
      StripTrimmed(texts[0]);
      AllTrimmed(texts[1..]);
      assert StripAll(texts)[1..] == StripAll(texts[1..]);
    }
  }

  lemma SplitPredicates(cs: seq<Condition>)
    requires AllPrintable(cs)
    ensures SplitTopLevel(Join(RenderAll(TokensOf(cs)), AND), AND) == RenderAll(TokensOf(cs))
  {
    TokensTidy(cs);
    SplitJoined(TokensOf(cs), AND);
    var texts := RenderAll(TokensOf(cs));
    forall i | 0 <= i < |texts|
      ensures Trimmed(texts[i])
    {
      PredicateTrimmed(cs[i]);
    }
    AllTrimmed(texts);
  }

  lemma AndIsBare()
    ensures Bare(Plains(AND), SQUARE)
  {
    assert Simple(AND);
    TidyPlains(AND, 1);
  }

  /** The bracket scanner and the splitter recover the printed predicates, whatever they hold. */
  lemma BracketRoundTrip(cs: seq<Condition>, rest: string)
    requires AllPrintable(cs)
    ensures Predicates(cs).Some?
    ensures ParseBracket(Bracketed(Predicates(cs).value) + rest)
         == match DecodeAll(Predicates(cs).value) case None => None case Some(qs) => Some((qs, rest))
  {
    var ts := JoinTokens(TokensOf(cs), AND);
    PredicatesRendered(cs);
    TokensTidy(cs);
    AndIsBare();
    JoinTokensBare(TokensOf(cs), AND);
    RenderJoin(TokensOf(cs), AND);
    SquareRoundTrip(ts, rest);
    SplitPredicates(cs);
    var text := Bracketed(Predicates(cs).value) + rest;
    assert text[|Render(ts)| + 2..] == rest;
  }

  lemma {:induction false} DecodePredicates(cs: seq<Condition>)
    requires AllPrintable(cs)
    ensures Predicates(cs).Some?
    ensures DecodeAll(Predicates(cs).value) == Some(MeantAll(cs)) <==> AllRecoverable(cs)
  {
    if cs != [] {
      PredicateRoundTrips(cs[0]);
      DecodePredicates(cs[1..]);
      DecodeAllCons(Predicate(cs[0]).value, Predicates(cs[1..]).value);
      if DecodeAll(Predicates(cs).value).Some? {
        assert MeantAll(cs)[0] == Meant(cs[0]) && MeantAll(cs)[1..] == MeantAll(cs[1..]);
      }
      assert AllRecoverable(cs) <==> Recoverable(cs[0]) && AllRecoverable(cs[1..]) by {
        assert forall i :: 0 < i < |cs| ==> cs[i] == cs[1..][i - 1];
      }
    }
  }

  lemma DecodeAllCons(p: string, ps: seq<string>)
    ensures DecodeAll([p] + ps)
         == match (Decode(p), DecodeAll(ps)) case (Some(q), Some(qs)) => Some([q] + qs) case _ => None
  {
  }

  // ---------- the steps of a path ----------

  predicate ValidSegment(seg: Segment) {
    if seg.axis.Ancestor? || seg.axis.Parent? then seg.depth.Some? && 1 <= seg.depth.value <= MAX_DEPTH
    else seg.depth.None?
  }

  /** The step a segment is parsed back as. */
  function StepOf(seg: Segment): (string, Option<nat>) {
    if seg.axis.Parent? && seg.depth.Some? && seg.depth.value >= 2 then ("ancestor", seg.depth)
    else (AxisName(seg.axis), seg.depth)
  }

  function StepsOf(path: seq<Segment>): seq<(string, Option<nat>)> {
    if path == [] then [] else [StepOf(path[0])] + StepsOf(path[1..])
  }

  lemma SegmentIsStep(seg: Segment)
    requires ValidSegment(seg)
    ensures SegmentText(seg) == Step(StepOf(seg).0, StepOf(seg).1)
  {
  }

  lemma {:induction false} DigitsBack(n: nat)
    ensures Digits(n) != "" && (forall i :: 0 <= i < |Digits(n)| ==> IsDigit(Digits(n)[i])) && Number(Digits(n)) == n
  {
    if n < 10 {
      assert [DigitChar(n)][..0] == "";
    } else {
      DigitsBack(n / 10);
      var front := Digits(n / 10);
      assert (front + [DigitChar(n % 10)])[..|front|] == front;
    }
  }

  /** What may follow a step: nothing, another step, or a bracket that holds no digits. */
  predicate AfterStep(rest: string) {
    rest == "" || rest[0] == '/' || (rest[0] == '[' && |rest| > 1 && !IsDigit(rest[1]))
  }

  lemma CutBrackets(open: char, d: string, close: char, rest: string)
    ensures var s := [open] + d + [close] + rest;
            s[0] == open && s[1..] == d + ([close] + rest) && s[1..|d| + 1] == d
            && s[|d| + 1] == close && s[|d| + 2..] == rest
  {
  }

  lemma BracketedDigits(d: string, rest: string)
    requires d != "" && forall i :: 0 <= i < |d| ==> IsDigit(d[i])
    ensures ParseDepth("[" + d + "]" + rest) == (Some(Number(d)), rest)
  {
    CutBrackets('[', d, ']', rest);
    TakeWhileExact(d, [']'] + rest, IsDigit);
    DepthIs("[" + d + "]" + rest, d, rest);
  }

  lemma DepthIs(s: string, d: string, rest: string)
    requires d != "" && |d| + 1 < |s| && s[0] == '[' && s[|d| + 1] == ']'
    requires TakeWhile(s[1..], IsDigit) == |d| && s[1..|d| + 1] == d && s[|d| + 2..] == rest
    requires forall i :: 0 <= i < |d| ==> IsDigit(d[i])
    ensures ParseDepth(s) == (Some(Number(d)), rest)
  {
  }

  lemma DepthRoundTrip(depth: Option<nat>, rest: string)
    requires AfterStep(rest)
    ensures ParseDepth((if depth.Some? then "[" + Digits(depth.value) + "]" else "") + rest) == (depth, rest)
  {
    if depth.Some? {
      DigitsBack(depth.value);
      BracketedDigits(Digits(depth.value), rest);
    } else {
      assert "" + rest == rest;
      if rest != "" && rest[0] == '[' {
        assert TakeWhile(rest[1..], IsDigit) == 0;
      }
    }
  }

  predicate AxisText(axis: string) {
    axis != "" && forall i :: 0 <= i < |axis| ==> IsAxisChar(axis[i])
  }

  lemma AxisNames(a: Axis)
    ensures AxisText(AxisName(a))
  {
  }

  lemma StepRoundTrip(axis: string, depth: Option<nat>, rest: string)
    requires AxisText(axis) && AfterStep(rest)
    ensures ParseStep(Step(axis, depth) + rest) == Some((axis, depth, rest))
  {
    var d := if depth.Some? then "[" + Digits(depth.value) + "]" else "";
    RegroupStep("/", axis, "::*", d, rest);
    var r2 := "::*" + (d + rest);
    ExpectPrefix("/", axis + r2);
    TakeWhileExact(axis, r2, IsAxisChar);
    CutAt(axis, r2);
    ExpectPrefix("::*", d + rest);
    DepthRoundTrip(depth, rest);
  }

  lemma RegroupStep(slash: string, axis: string, colons: string, d: string, rest: string)
    ensures slash + axis + colons + d + rest == slash + (axis + (colons + (d + rest)))
  {
  }

  lemma CutAt(a: string, b: string)
    ensures (a + b)[..|a|] == a && (a + b)[|a|..] == b
  {
  }

  lemma AncestorText()
    ensures AxisText("ancestor")
  {
  }

  lemma Regroup(a: string, b: string, c: string)
    ensures (a + b) + c == a + (b + c)
  {
  }

  lemma FirstStepRoundTrip(axis: string, depth: Option<nat>, later: string, tail: string, steps: seq<(string, Option<nat>)>)
    requires AxisText(axis) && AfterStep(later + tail) && ParseSteps(later + tail) == Some((steps, tail))
    ensures var text := (Step(axis, depth) + later) + tail;
            AfterStep(text) && ParseSteps(text) == Some(([(axis, depth)] + steps, tail))
  {
    var step := Step(axis, depth);
    StepRoundTrip(axis, depth, later + tail);
    StepStarts(axis, depth);
    Regroup(step, later, tail);
    StepsCons((step + later) + tail, axis, depth, later + tail, steps, tail);
  }

  lemma StepStarts(axis: string, depth: Option<nat>)
    ensures Step(axis, depth) != "" && Step(axis, depth)[0] == '/'
  {
  }

  lemma StepsCons(s: string, axis: string, depth: Option<nat>, rest: string, steps: seq<(string, Option<nat>)>, tail: string)
    requires s != "" && s[0] == '/' && ParseStep(s) == Some((axis, depth, rest)) && ParseSteps(rest) == Some((steps, tail))
    ensures ParseSteps(s) == Some(([(axis, depth)] + steps, tail))
  {
  }

  /** The printed steps are parsed back, and what follows them is left alone. */
  lemma {:induction false} PathRoundTrip(path: seq<Segment>, tail: string)
    requires (forall i :: 0 <= i < |path| ==> ValidSegment(path[i])) && AfterStep(tail) && (tail == "" || tail[0] != '/')
    ensures ParseSteps(PathText(path) + tail) == Some((StepsOf(path), tail))
    ensures AfterStep(PathText(path) + tail)
  {
    if path == [] {
      assert PathText(path) + tail == tail;
    } else {
      var (axis, depth) := StepOf(path[0]);
      PathRoundTrip(path[1..], tail);
      SegmentIsStep(path[0]);
      AxisNames(path[0].axis);
      AncestorText();
      FirstStepRoundTrip(axis, depth, PathText(path[1..]), tail, StepsOf(path[1..]));
    }
  }

  // ---------- whole selectors ----------

  /** The query a printed alternative is meant to be parsed back as. */
  function MeantXPath(alt: Alternative): XPath {
    XPath(MeantAll(alt.anchor), StepsOf(alt.path), MeantAll(alt.target))
  }

  lemma BracketNotDigit(cs: seq<Condition>)
    requires AllPrintable(cs) && cs != []
    ensures Predicates(cs).Some?
    ensures var t := Bracketed(Predicates(cs).value); |t| > 1 && t[0] == '[' && !IsDigit(t[1])
  {
    PredicatesRendered(cs);
    PredicateTrimmed(cs[0]);
    var ps := Predicates(cs).value;
    assert ps[0] == Render(PredicateTokens(cs[0]));
    JoinStarts(ps, AND);
  }

  lemma JoinStarts(ps: seq<string>, sep: string)
    requires ps != [] && ps[0] != ""
    ensures Join(ps, sep) != "" && Join(ps, sep)[0] == ps[0][0]
  {
  }

  lemma TargetRoundTrip(cs: seq<Condition>)
    requires AllPrintable(cs)
    ensures Predicates(cs).Some?
    ensures var t := if cs == [] then "" else Bracketed(Predicates(cs).value);
            AfterStep(t) && (t == "" || t[0] != '/') && ParseTarget(t) == DecodeAll(Predicates(cs).value)
  {
    PredicatesRendered(cs);
    if cs != [] {
      var t := Bracketed(Predicates(cs).value);
      BracketNotDigit(cs);
      BracketRoundTrip(cs, "");
      assert t + "" == t;
    }
  }

  lemma ParseFromRoot(rest: string)
    ensures ParseXPath("//*" + rest)
         == match ParseBracket(rest)
            case None => None
            case Some((root, afterRoot)) =>
              match ParseSteps(afterRoot)
              case None => None
              case Some((steps, afterSteps)) =>
                match ParseTarget(afterSteps) case None => None case Some(target) => Some(XPath(root, steps, target))
  {
    ExpectPrefix("//*", rest);
    assert ("//*" + rest)[0] != "./*"[0];
  }

  /** A relative selector is parsed back as the alternative it was printed from,
      exactly when all its conditions are recoverable. */
  lemma RelativeRoundTrip(alt: Alternative)
    requires AllPrintable(alt.anchor) && AllPrintable(alt.target)
    requires forall i :: 0 <= i < |alt.path| ==> ValidSegment(alt.path[i])
    ensures BuildRelativeXPath(alt).Some?
    ensures ParseXPath(BuildRelativeXPath(alt).value) == Some(MeantXPath(alt))
       <==> AllRecoverable(alt.anchor) && AllRecoverable(alt.target)
  {
    DecodePredicates(alt.anchor);
    DecodePredicates(alt.target);
    TargetRoundTrip(alt.target);
    var t := if alt.target == [] then "" else Bracketed(Predicates(alt.target).value);
    PathRoundTrip(alt.path, t);
    BracketRoundTrip(alt.anchor, PathText(alt.path) + t);
    ParseFromRoot(Bracketed(Predicates(alt.anchor).value) + (PathText(alt.path) + t));
  }

  /** The same for a selector without anchor and path. */
  lemma XPathRoundTrip(cs: seq<Condition>)
    requires AllPrintable(cs)
    ensures BuildXPath(cs).Some?
    ensures ParseXPath(BuildXPath(cs).value) == Some(XPath(MeantAll(cs), [], [])) <==> AllRecoverable(cs)
  {
    DecodePredicates(cs);
    BracketRoundTrip(cs, "");
    var t := Bracketed(Predicates(cs).value);
    assert t + "" == t;
    ParseFromRoot(t);
  }
}
