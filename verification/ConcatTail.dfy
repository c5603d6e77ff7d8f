/** What the literal reader makes of the tail of a printed `concat`.

    The ends-with pattern reads only what follows the last delimiter. When the
    value holds the delimiter, that is a tail of the printed literal, in which
    every quote has lost its partner. This module shows that such a tail never
    reads as the whole value again, by following the splitter over it. */
module ConcatTail {
  import opened Text
  import opened Scanner
  import opened XPathLiteral

  /** The splitter's state on `,`: finished pieces, depth, open quote, buffer. */
  datatype State = State(out: seq<string>, depth: int, inStr: Option<char>, buf: string)

  function Step(c: char, st: State): State {
    var more := st.buf + [c];
    if st.inStr.Some? then st.(inStr := if c == st.inStr.value then None else st.inStr, buf := more)
    else if IsQuote(c) then st.(inStr := Some(c), buf := more)
    else if c == '(' then st.(depth := st.depth + 1, buf := more)
    else if c == ')' then st.(depth := st.depth - 1, buf := more)
    else if st.depth == 0 && c == ',' then State(st.out + [Strip(st.buf)], 0, None, "")
    else st.(buf := more)
  }

  function Run(s: string, st: State): State {
    if s == "" then st else Run(s[1..], Step(s[0], st))
  }

  lemma {:induction false} RunConcat(a: string, b: string, st: State)
    ensures Run(a + b, st) == Run(b, Run(a, st))
  {
    if a == "" {
      assert a + b == b;
    } else {
      assert (a + b)[1..] == a[1..] + b;
      RunConcat(a[1..], b, Step(a[0], st));
    }
  }

  lemma RunOne(c: char, st: State)
    ensures Run([c], st) == Step(c, st)
  {
  }

  function Finish(st: State): seq<string> {
    st.out + (if st.buf == "" then [] else [Strip(st.buf)])
  }

  predicate AtSplit(s: string, st: State) {
    s != "" && s[0] == ',' && st.inStr.None? && st.depth == 0
  }

  lemma SplitIsPieces(s: string, st: State)
    requires AtSplit(s, st)
    ensures var n := Step(s[0], st);
            st.out + Pieces(s, ",", st.depth, st.inStr, st.buf) == n.out + Pieces(s[1..], ",", n.depth, n.inStr, n.buf)
  {
  }

  function DepthIn(c: char, inStr: Option<char>, depth: int): int {
    if inStr.Some? then depth else DepthStep(Plain(c), depth)
  }

  lemma ReadPieces(s: string, sep: string, depth: int, inStr: Option<char>, buf: string)
    requires s != "" && sep != "" && !(inStr.None? && depth == 0 && sep <= s && !IsQuote(s[0]) && s[0] != '(' && s[0] != ')')
    ensures Pieces(s, sep, depth, inStr, buf)
         == Pieces(s[1..], sep, DepthIn(s[0], inStr, depth), QuoteAfter(s[0], inStr), buf + [s[0]])
  {
  }

  lemma ReadStep(c: char, st: State)
    requires !(c == ',' && st.inStr.None? && st.depth == 0)
    ensures Step(c, st) == State(st.out, DepthIn(c, st.inStr, st.depth), QuoteAfter(c, st.inStr), st.buf + [c])
  {
  }

  lemma CommaPrefix(s: string)
    requires s != ""
    ensures "," <= s <==> s[0] == ','
  {
  }

  lemma ReadIsPieces(s: string, st: State)
    requires s != "" && !AtSplit(s, st)
    ensures var n := Step(s[0], st);
            st.out + Pieces(s, ",", st.depth, st.inStr, st.buf) == n.out + Pieces(s[1..], ",", n.depth, n.inStr, n.buf)
  {
    CommaPrefix(s);
    ReadStep(s[0], st);
    ReadPieces(s, ",", st.depth, st.inStr, st.buf);
  }

  lemma StepIsPieces(s: string, st: State)
    requires s != ""
    ensures var n := Step(s[0], st);
            st.out + Pieces(s, ",", st.depth, st.inStr, st.buf) == n.out + Pieces(s[1..], ",", n.depth, n.inStr, n.buf)
  {
    if AtSplit(s, st) {
      SplitIsPieces(s, st);
    } else {
      ReadIsPieces(s, st);
    }
  }

  /** The state machine is the splitter. */
  lemma {:induction false} RunIsPieces(s: string, st: State)
    ensures st.out + Pieces(s, ",", st.depth, st.inStr, st.buf) == Finish(Run(s, st))
    decreases |s|
  {
    if s != "" {
      StepIsPieces(s, st);
      RunIsPieces(s[1..], Step(s[0], st));
    }
  }

  /** Pieces are only added, and while none is, the buffer grows by what is read. */
  lemma {:induction false} RunGrows(s: string, st: State)
    ensures st.out <= Run(s, st).out
    ensures Run(s, st).out == st.out ==> Run(s, st).buf == st.buf + s
  {
    if s == "" {
      assert st.buf + s == st.buf;
    } else {
      RunGrows(s[1..], Step(s[0], st));
      assert st.buf + [s[0]] + s[1..] == st.buf + s;
    }
  }

  /** The state just after a piece was finished. */
  function Fresh(st: State): State {
    State(st.out + [Strip(st.buf)], 0, None, "")
  }

  /** The last comma at which the text was split. */
  lemma {:induction false} LastSplit(s: string, st: State) returns (x: string, y: string)
    requires Run(s, st).out != st.out
    ensures s == x + [','] + y
    ensures Run(x, st).inStr.None? && Run(x, st).depth == 0
    ensures Run(s, st) == Run(y, Fresh(Run(x, st))) && Run(s, st).out == Fresh(Run(x, st)).out && Run(s, st).buf == y
  {
    var next := Step(s[0], st);
    if Run(s[1..], next).out != next.out {
      x, y := LastSplit(s[1..], next);
      RunCons(s[0], x, st);
      RegroupSplit(s, x, y);
      x := [s[0]] + x;
    } else {
      RunGrows(s[1..], next);
      x, y := "", s[1..];
      StepSplits(s[0], st);
      assert "" + [','] + s[1..] == s && next.buf + s[1..] == s[1..];
    }
  }

  lemma StepSplits(c: char, st: State)
    requires Step(c, st).out != st.out
    ensures c == ',' && st.inStr.None? && st.depth == 0 && Step(c, st) == Fresh(st)
  {
  }

  lemma RunCons(c: char, s: string, st: State)
    ensures Run([c] + s, st) == Run(s, Step(c, st))
  {
  }

  lemma RegroupSplit(s: string, x: string, y: string)
    requires s != "" && s[1..] == x + [','] + y
    ensures s == [s[0]] + x + [','] + y
  {
  }

  /** Outside double quotes: the only quote that can be open is a single one. */
  predicate Single(st: State) {
    st.inStr == None || st.inStr == Some('\'')
  }

  lemma {:induction false} RunSingle(s: string, st: State)
    requires '"' !in s && Single(st)
    ensures Single(Run(s, st))
  {
    if s != "" {
      RunSingle(s[1..], Step(s[0], st));
    }
  }

  // ---------- the text between two parts of a concat ----------

  const COMMA_QUOTE: string := [',', ' ', '\'']
  const QUOTE_COMMA: string := ['\'', ',', ' ']

  /** Closing quote, quoted quote, opening quote. */
  const JOINT: string := ['"'] + (COMMA_QUOTE + (['"'] + (QUOTE_COMMA + ['"'])))

  function Flip(st: State): State
    requires Single(st)
  {
    st.(inStr := if st.inStr.None? then Some('\'') else None)
  }

  lemma RunCommaQuoteIn(q: char, st: State)
    requires st.inStr == Some(q) && IsQuote(q)
    ensures Run(COMMA_QUOTE, st) == st.(inStr := if q == '\'' then None else Some(q), buf := st.buf + COMMA_QUOTE)
  {
    RunThree(',', ' ', '\'', st);
  }

  lemma RunQuoteCommaIn(st: State)
    requires st.inStr == Some('"')
    ensures Run(QUOTE_COMMA, st) == st.(buf := st.buf + QUOTE_COMMA)
  {
    RunThree('\'', ',', ' ', st);
  }

  lemma RunThree(a: char, b: char, c: char, st: State)
    ensures Run([a, b, c], st) == Step(c, Step(b, Step(a, st)))
  {
    assert [a, b, c][1..] == [b, c] && [b, c][1..] == [c];
    RunOne(c, Step(b, Step(a, st)));
  }

  lemma RunQuoteCommaBare(st: State)
    requires st.inStr == None
    ensures Run(QUOTE_COMMA, st) == st.(inStr := Some('\''), buf := st.buf + QUOTE_COMMA)
  {
    RunThree('\'', ',', ' ', st);
  }

  lemma JointSteps(st: State)
    ensures Run(JOINT, st)
         == Step('"', Run(QUOTE_COMMA, Step('"', Run(COMMA_QUOTE, Step('"', st)))))
  {
    var d := ['"'];
    RunConcat(d, COMMA_QUOTE + (d + (QUOTE_COMMA + d)), st);
    RunOne('"', st);
    var s1 := Step('"', st);
    RunConcat(COMMA_QUOTE, d + (QUOTE_COMMA + d), s1);
    var s2 := Run(COMMA_QUOTE, s1);
    RunConcat(d, QUOTE_COMMA + d, s2);
    RunOne('"', s2);
    var s3 := Step('"', s2);
    RunConcat(QUOTE_COMMA, d, s3);
    RunOne('"', Run(QUOTE_COMMA, s3));
  }

  lemma RegroupJoint(buf: string)
    ensures buf + ['"'] + COMMA_QUOTE + ['"'] + QUOTE_COMMA + ['"'] == buf + JOINT
  {
  }

  /** A joint finishes no piece and swaps "inside single quotes" and "outside quotes". */
  lemma RunJoint(st: State)
    requires Single(st)
    ensures Run(JOINT, st) == Flip(st).(buf := st.buf + JOINT)
  {
    JointSteps(st);
    RegroupJoint(st.buf);
    if st.inStr.None? {
      var s1 := Step('"', st);
      RunCommaQuoteIn('"', s1);
      var s3 := Step('"', Run(COMMA_QUOTE, s1));
      RunQuoteCommaBare(s3);
    } else {
      var s1 := Step('"', st);
      RunCommaQuoteIn('\'', s1);
      var s3 := Step('"', Run(COMMA_QUOTE, s1));
      RunQuoteCommaIn(s3);
    }
  }

  /** What one small segment does from inside single quotes at depth 0. */
  lemma RunSmall(st: State)
    requires st.inStr == Some('\'')
    ensures Run(COMMA_QUOTE, st) == st.(inStr := None, buf := st.buf + COMMA_QUOTE)
    ensures st.depth == 0 ==> Run(QUOTE_COMMA, st) == State(st.out + [Strip(st.buf + ['\''])], 0, None, [' '])
    ensures Run(QUOTE_COMMA, st).depth == st.depth && Run(QUOTE_COMMA, st).inStr == None
  {
    RunCommaQuoteIn('\'', st);
    RunThree('\'', ',', ' ', st);
    assert "" + [' '] == [' '];
  }

  /** From outside quotes a small segment ends inside single quotes. */
  lemma RunSmallBare(st: State)
    requires st.inStr == None
    ensures Run(COMMA_QUOTE, st).inStr == Some('\'') && Run(QUOTE_COMMA, st).inStr == Some('\'')
    ensures Run(QUOTE_COMMA, st).buf == st.buf + QUOTE_COMMA
  {
    RunQuoteCommaBare(st);
    RunThree(',', ' ', '\'', st);
  }

  // ---------- a tail of a printed concat ----------

  predicate Segments(ss: seq<string>) {
    ss != [] && Without(ss, '"')
  }

  /** The segments with joints between them. */
  function Core(ss: seq<string>): string
    requires ss != []
  {
    if |ss| == 1 then ss[0] else ss[0] + (JOINT + Core(ss[1..]))
  }

  /** The state in which segment `r` is reached. */
  function StateAt(ss: seq<string>, st: State, r: nat): State
    requires r < |ss|
  {
    if r == 0 then st else StateAt(ss[1..], Run(JOINT, Run(ss[0], st)), r - 1)
  }

  lemma {:induction false} StateAtNext(ss: seq<string>, st: State, r: nat)
    requires r + 1 < |ss|
    ensures StateAt(ss, st, r + 1) == Run(JOINT, Run(ss[r], StateAt(ss, st, r)))
  {
    if r > 0 {
      StateAtNext(ss[1..], Run(JOINT, Run(ss[0], st)), r - 1);
    }
  }

  lemma {:induction false} StateAtSingle(ss: seq<string>, st: State, r: nat)
    requires Segments(ss) && Single(st) && r < |ss|
    ensures Single(StateAt(ss, st, r))
  {
    if r > 0 {
      RunSingle(ss[0], st);
      RunJoint(Run(ss[0], st));
      StateAtSingle(ss[1..], Run(JOINT, Run(ss[0], st)), r - 1);
    }
  }

  lemma RunCoreStep(ss: seq<string>, st: State)
    requires |ss| > 1
    ensures Run(Core(ss) + ['"'], st) == Run(Core(ss[1..]) + ['"'], Run(JOINT, Run(ss[0], st)))
  {
    var rest := Core(ss[1..]) + ['"'];
    assert Core(ss) + ['"'] == ss[0] + (JOINT + rest);
    RunConcat(ss[0], JOINT + rest, st);
    RunConcat(JOINT, rest, Run(ss[0], st));
  }

  // ---------- where the last piece begins ----------

  lemma {:induction false} StripLeftConcat(a: string, b: string)
    ensures StripLeft(a + b) == if StripLeft(a) == "" then StripLeft(b) else StripLeft(a) + b
  {
    if a == "" {
      assert a + b == b;
    } else if IsSpace(a[0]) {
      assert (a + b)[1..] == a[1..] + b;
      StripLeftConcat(a[1..], b);
    } else {
      assert StripLeft(a) == a && StripLeft(a + b) == a + b;
    }
  }

  predicate OpensDouble(b: string) {
    StripLeft(b) != "" && StripLeft(b)[0] == '"'
  }

  lemma StripLeftQuote(s: string)
    requires s != "" && s[0] == '"'
    ensures StripLeft(s) == s
  {
  }

  lemma OpensDoubleBlank(y: string, z: string)
    requires '"' !in y && OpensDouble(y + (['"'] + z))
    ensures StripLeft(y) == "" && StripLeft(y + (['"'] + z)) == ['"'] + z
  {
    var l := StripLeft(y);
    StripLeftConcat(y, ['"'] + z);
    assert forall c :: c in l ==> c in y by {
      StripLeftCuts(y);
    }
    StripLeftQuote(['"'] + z);
  }

  lemma SpaceStep(c: char, st: State)
    requires IsSpace(c) && st.inStr == None
    ensures Step(c, st) == st.(buf := st.buf + [c])
  {
  }

  lemma {:induction false} RunSpaces(y: string, st: State)
    requires StripLeft(y) == "" && st.inStr == None
    ensures Run(y, st) == st.(buf := st.buf + y)
  {
    if y == "" {
      assert st.buf + y == st.buf;
    } else {
      var next := Step(y[0], st);
      SpaceStep(y[0], st);
      RunSpaces(y[1..], next);
      AppendRest(st.buf, y);
    }
  }

  lemma AppendRest(buf: string, y: string)
    requires y != ""
    ensures buf + [y[0]] + y[1..] == buf + y
  {
  }

  /** A piece has just begun with the quote that closes a segment. */
  predicate Restarted(g: State) {
    g.inStr == Some('\'') && g.depth == 0 && StripLeft(g.buf) == JOINT
  }

  lemma JointOpens()
    ensures JOINT != "" && JOINT[0] == '"'
  {
  }

  lemma RestartAfterSpaces(y: string, st: State)
    requires StripLeft(y) == "" && st.inStr == None && st.depth == 0 && st.buf == y
    ensures Restarted(Run(JOINT, st)) && Run(JOINT, st).out == st.out && Run(JOINT, st).buf == y + JOINT
  {
    RunJoint(st);
    StripLeftConcat(y, JOINT);
    JointOpens();
    StripLeftQuote(JOINT);
  }

  lemma SplitTail(s: string, st: State) returns (y: string)
    requires '"' !in s && Run(s, st).out != st.out
    ensures '"' !in y && Run(s, st).buf == y
    ensures StripLeft(y) == "" ==> Run(s, st) == State(Run(s, st).out, 0, None, y)
  {
    var x;
    x, y := LastSplit(s, st);
    if StripLeft(y) == "" {
      RunSpaces(y, Fresh(Run(x, st)));
      assert "" + y == y;
    }
  }

  lemma RestartHere(s: string, rest: string, st: State)
    requires '"' !in s && Single(st) && Run(s, st).out != st.out
    requires var g := Run(JOINT, Run(s, st)); Run(rest, g).out == g.out && OpensDouble(Run(rest, g).buf)
    ensures var g := Run(JOINT, Run(s, st)); Restarted(g)
  {
    var y := SplitTail(s, st);
    RunSingle(s, st);
    RunJoint(Run(s, st));
    var g := Run(JOINT, Run(s, st));
    RunGrows(rest, g);
    JointAfter(y, rest);
    OpensDoubleBlank(y, JOINT[1..] + rest);
    RestartAfterSpaces(y, Run(s, st));
  }

  lemma JointAfter(y: string, rest: string)
    ensures y + JOINT + rest == y + (['"'] + (JOINT[1..] + rest))
  {
  }

  lemma LastSegmentTooShort(s: string, st: State)
    requires '"' !in s && Single(st) && Run(s, st).out != st.out && OpensDouble(Run(s + ['"'], st).buf)
    ensures |StripLeft(Run(s + ['"'], st).buf)| == 1
  {
    var y := SplitTail(s, st);
    RunConcat(s, ['"'], st);
    RunOne('"', Run(s, st));
    assert Run(s + ['"'], st).buf == y + (['"'] + "");
    OpensDoubleBlank(y, "");
  }

  /** If the last piece opens with a double quote, it began right at a joint. */
  lemma {:induction false} FindRestart(ss: seq<string>, st: State) returns (j: nat)
    requires Segments(ss) && Single(st)
    requires var f := Run(Core(ss) + ['"'], st); f.out != st.out && OpensDouble(f.buf) && |StripLeft(f.buf)| > 1
    ensures 0 < j < |ss| && Restarted(StateAt(ss, st, j)) && StateAt(ss, st, j).out == Run(Core(ss) + ['"'], st).out
    decreases |ss|
  {
    var f, s := Run(Core(ss) + ['"'], st), ss[0];
    if |ss| == 1 {
      RunConcat(s, ['"'], st);
      RunOne('"', Run(s, st));
      LastSegmentTooShort(s, st);
      assert false;
    } else {
      RunSingle(s, st);
      RunJoint(Run(s, st));
      RunCoreStep(ss, st);
      var next := Run(JOINT, Run(s, st));
      if f.out != next.out {
        j := FindRestart(ss[1..], next);
        j := j + 1;
      } else {
        RestartHere(s, Core(ss[1..]) + ['"'], st);
        j := 1;
      }
    }
  }

  const START: State := State([], 0, None, "")

  lemma ShortStart(s: string)
    requires '"' !in s
    ensures OpensDouble(s + ['"']) ==> |StripLeft(s + ['"'])| == 1
  {
    assert s + ['"'] == s + (['"'] + "");
    if OpensDouble(s + (['"'] + "")) {
      OpensDoubleBlank(s, "");
    }
  }

  lemma FirstRestart(ss: seq<string>)
    requires Segments(ss)
    requires var f := Run(Core(ss) + ['"'], START); f.out == [] && OpensDouble(f.buf) && |StripLeft(f.buf)| > 1
    ensures |ss| > 1 && Restarted(StateAt(ss, START, 1)) && StateAt(ss, START, 1).out == []
  {
    var text := Core(ss) + ['"'];
    RunGrows(text, START);
    assert "" + text == text;
    ShortStart(ss[0]);
    if |ss| > 1 {
      RegroupCore(ss[0], JOINT, Core(ss[1..]), ['"']);
      RestartFromStart(ss[0], Core(ss[1..]) + ['"']);
    }
  }

  lemma RegroupCore(a: string, b: string, c: string, d: string)
    ensures a + (b + c) + d == a + b + (c + d)
  {
  }

  lemma RestartFromStart(s: string, rest: string)
    requires '"' !in s && OpensDouble(s + JOINT + rest)
    ensures var g := Run(JOINT, Run(s, START)); Restarted(g) && g.out == []
  {
    JointAfter(s, rest);
    OpensDoubleBlank(s, JOINT[1..] + rest);
    RunSpaces(s, START);
    assert "" + s == s;
    RestartAfterSpaces(s, Run(s, START));
  }

  lemma RestartOfTail(ss: seq<string>) returns (j: nat)
    requires Segments(ss)
    requires var f := Run(Core(ss) + ['"'], START); OpensDouble(f.buf) && |StripLeft(f.buf)| > 1
    ensures 0 < j < |ss| && Restarted(StateAt(ss, START, j)) && StateAt(ss, START, j).out == Run(Core(ss) + ['"'], START).out
  {
    if Run(Core(ss) + ['"'], START).out == [] {
      FirstRestart(ss);
      j := 1;
    } else {
      j := FindRestart(ss, START);
    }
  }

  lemma {:induction false} RunFrom(ss: seq<string>, st: State, r: nat)
    requires r < |ss|
    ensures Run(Core(ss) + ['"'], st) == Run(Core(ss[r..]) + ['"'], StateAt(ss, st, r))
  {
    if r > 0 {
      RunCoreStep(ss, st);
      RunFrom(ss[1..], Run(JOINT, Run(ss[0], st)), r - 1);
      assert ss[1..][r - 1..] == ss[r..];
    } else {
      assert ss[0..] == ss;
    }
  }

  // ---------- small segments cannot follow a restart ----------

  predicate Small(s: string) {
    s == COMMA_QUOTE || s == QUOTE_COMMA
  }

  lemma {:induction false} SmallSplits(xs: seq<string>, g: State)
    requires |xs| > 1 && (forall i :: 0 <= i < |xs| - 1 ==> Small(xs[i])) && xs[|xs| - 2] == QUOTE_COMMA
    requires g.inStr == Some('\'') && g.depth == 0
    ensures Run(Core(xs) + ['"'], g).out != g.out
  {
    var m := Run(xs[0], g);
    RunCoreStep(xs, g);
    RunSmall(g);
    RunJoint(m);
    var n := Run(JOINT, m);
    RunGrows(Core(xs[1..]) + ['"'], n);
    if xs[0] == COMMA_QUOTE {
      assert COMMA_QUOTE[0] != QUOTE_COMMA[0];
      SmallSplits(xs[1..], n);
    }
  }

  // ---------- comparing the value with what was read ----------

  lemma {:induction false} SplitJoin(parts: seq<string>)
    requires Segments(parts)
    ensures SplitOn(Join(parts, ['"']), '"') == parts
    decreases |parts|, |Join(parts, ['"'])|
  {
    var s := Join(parts, ['"']);
    if parts[0] == "" {
      if |parts| > 1 {
        assert s[1..] == Join(parts[1..], ['"']);
        SplitJoin(parts[1..]);
      }
    } else {
      var shorter := [parts[0][1..]] + parts[1..];
      assert s[1..] == Join(shorter, ['"']) by {
        assert shorter[1..] == parts[1..];
      }
      assert '"' !in parts[0] && parts[0][0] in parts[0];
      assert forall i :: 0 <= i < |shorter| ==> '"' !in shorter[i] by {
        assert forall i :: 0 < i < |shorter| ==> shorter[i] == parts[i];
      }
      SplitJoin(shorter);
      assert [parts[0][0]] + parts[0][1..] == parts[0];
    }
  }

  /** The parts of `a + Join(b)`: those of `a`, with the first of `b` added to the last. */
  function Glue(a: seq<string>, b: seq<string>): seq<string>
    requires a != [] && b != []
  {
    a[..|a| - 1] + [a[|a| - 1] + b[0]] + b[1..]
  }

  lemma {:induction false} JoinGlue(a: seq<string>, b: seq<string>)
    requires a != [] && b != []
    ensures Join(a, ['"']) + Join(b, ['"']) == Join(Glue(a, b), ['"'])
  {
    if |a| == 1 {
      assert Glue(a, b) == [a[0] + b[0]] + b[1..];
      assert Glue(a, b)[1..] == b[1..];
    } else {
      JoinGlue(a[1..], b);
      assert Glue(a, b)[1..] == Glue(a[1..], b);
    }
  }

  lemma GlueSegments(a: seq<string>, b: seq<string>)
    requires Segments(a) && Segments(b)
    ensures Segments(Glue(a, b))
  {
    assert '"' !in a[|a| - 1] + b[0];
  }

  lemma SplitGlued(p: string, b: seq<string>)
    requires Segments(b)
    ensures SplitOn(p + Join(b, ['"']), '"') == Glue(SplitOn(p, '"'), b)
  {
    var a := SplitOn(p, '"');
    JoinSplitOn(p, '"');
    JoinGlue(a, b);
    GlueSegments(a, b);
    SplitJoin(Glue(a, b));
  }

  /** `r` parts before the last one. */
  function FromEnd(parts: seq<string>, r: nat): string
    requires r < |parts|
  {
    parts[|parts| - 1 - r]
  }

  /** Two ways to end the same text agree on the parts at the end. */
  lemma SameEnd(text: string, p: string, b: seq<string>)
    requires Segments(b) && text == p + Join(b, ['"'])
    ensures |SplitOn(text, '"')| >= |b|
    ensures forall r: nat :: r < |b| - 1 ==> FromEnd(SplitOn(text, '"'), r) == FromEnd(b, r)
    ensures FromEnd(SplitOn(text, '"'), |b| - 1) == SplitOn(p, '"')[|SplitOn(p, '"')| - 1] + b[0]
  {
    SplitGlued(p, b);
    GlueEnd(SplitOn(p, '"'), b);
  }

  lemma GlueEnd(a: seq<string>, b: seq<string>)
    requires a != [] && b != []
    ensures var g := Glue(a, b);
            && |g| >= |b| && FromEnd(g, |b| - 1) == a[|a| - 1] + b[0]
            && forall r: nat :: r < |b| - 1 ==> FromEnd(g, r) == FromEnd(b, r)
  {
  }

  /** The parts of a joint (without its first quote) and the segments that follow. */
  function Spread(xs: seq<string>): (r: seq<string>)
    requires xs != []
    ensures |r| == 3 * |xs|
  {
    [COMMA_QUOTE, QUOTE_COMMA, xs[0]] + (if |xs| == 1 then [] else Spread(xs[1..]))
  }

  lemma {:induction false} JoinSpread(xs: seq<string>)
    requires xs != []
    ensures JOINT + Core(xs) == ['"'] + Join(Spread(xs), ['"'])
  {
    var r := Spread(xs);
    if |xs| == 1 {
      assert r == [COMMA_QUOTE, QUOTE_COMMA, xs[0]];
      JoinThree(COMMA_QUOTE, QUOTE_COMMA, xs[0]);
    } else {
      JoinSpread(xs[1..]);
      JoinThreeMore(COMMA_QUOTE, QUOTE_COMMA, xs[0], Spread(xs[1..]));
      assert r == [COMMA_QUOTE, QUOTE_COMMA, xs[0]] + Spread(xs[1..]);
      RegroupSpread(COMMA_QUOTE, QUOTE_COMMA, xs[0], JOINT + Core(xs[1..]), Join(Spread(xs[1..]), ['"']));
    }
  }

  lemma JoinThree(a: string, b: string, c: string)
    ensures ['"'] + (a + (['"'] + (b + ['"']))) + c == ['"'] + Join([a, b, c], ['"'])
  {
    JoinTwo(b, c);
    assert [a, b, c][1..] == [b, c];
    assert Join([a, b, c], ['"']) == a + ['"'] + (b + ['"'] + c);
  }

  lemma JoinTwo(b: string, c: string)
    ensures Join([b, c], ['"']) == b + ['"'] + c
  {
    assert [b, c][1..] == [c];
  }

  lemma JoinCons(a: string, more: seq<string>)
    requires more != []
    ensures Join([a] + more, ['"']) == a + ['"'] + Join(more, ['"'])
  {
    assert ([a] + more)[1..] == more;
  }

  lemma JoinThreeMore(a: string, b: string, c: string, more: seq<string>)
    requires more != []
    ensures Join([a, b, c] + more, ['"']) == a + ['"'] + (b + ['"'] + (c + ['"'] + Join(more, ['"'])))
  {
    JoinCons(c, more);
    JoinCons(b, [c] + more);
    JoinCons(a, [b] + ([c] + more));
    assert [a, b, c] + more == [a] + ([b] + ([c] + more));
  }

  lemma RegroupSpread(a: string, b: string, c: string, next: string, rest: string)
    requires next == ['"'] + rest
    ensures ['"'] + (a + (['"'] + (b + ['"']))) + (c + next) == ['"'] + (a + ['"'] + (b + ['"'] + (c + ['"'] + rest)))
  {
  }

  lemma ThirdsStep(i: nat)
    requires i >= 3
    ensures (i - 3) % 3 == i % 3 && (i - 3) / 3 == i / 3 - 1
  {
  }

  function Part(xs: seq<string>, i: nat): (p: string)
    requires i < 3 * |xs|
    ensures if i % 3 == 2 then p == xs[i / 3] else Small(p)
  {
    if i % 3 == 0 then COMMA_QUOTE else if i % 3 == 1 then QUOTE_COMMA else xs[i / 3]
  }

  lemma {:induction false} SpreadAt(xs: seq<string>, i: nat)
    requires xs != [] && i < 3 * |xs|
    ensures Spread(xs)[i] == Part(xs, i)
  {
    if i >= 3 {
      SpreadAt(xs[1..], i - 3);
      ThirdsStep(i);
      SpreadLater(xs, i);
    }
  }

  lemma SpreadLater(xs: seq<string>, i: nat)
    requires |xs| > 1 && 3 <= i < 3 * |xs|
    ensures Spread(xs)[i] == Spread(xs[1..])[i - 3]
  {
    BehindThree(COMMA_QUOTE, QUOTE_COMMA, xs[0], Spread(xs[1..]), i);
  }

  lemma BehindThree(a: string, b: string, c: string, rest: seq<string>, i: nat)
    requires 3 <= i < 3 + |rest|
    ensures ([a, b, c] + rest)[i] == rest[i - 3]
  {
  }

  lemma SpreadSegments(xs: seq<string>)
    requires Segments(xs)
    ensures Segments(Spread(xs))
  {
    var r := Spread(xs);
    forall i | 0 <= i < |r|
      ensures '"' !in r[i]
    {
      SpreadAt(xs, i);
    }
  }

  predicate AlikeAt(xs: seq<string>, k: nat)
    requires k < |xs|
  {
    FromEnd(xs, k) == FromEnd(Spread(xs), k)
  }

  predicate SelfSpread(xs: seq<string>)
    requires xs != []
  {
    forall k: nat :: k < |xs| ==> AlikeAt(xs, k)
  }

  lemma ThirdFromEnd(n: nat, r: nat)
    requires 1 <= r < n
    ensures var i := 3 * n - 1 - r; i % 3 == 2 ==> 1 <= n - 1 - i / 3 < r
  {
  }

  lemma SpreadFromEnd(xs: seq<string>, r: nat)
    requires r < |xs|
    ensures FromEnd(Spread(xs), r) == Part(xs, 3 * |xs| - 1 - r)
  {
    var i := 3 * |xs| - 1 - r;
    SpreadAt(xs, i);
    CountFromEnd(Spread(xs), r, i, Part(xs, i));
  }

  lemma CountFromEnd(parts: seq<string>, r: nat, i: nat, part: string)
    requires i + 1 + r == |parts| && parts[i] == part
    ensures FromEnd(parts, r) == part
  {
  }

  /** Such a part is small, or equal to one nearer to the end. */
  lemma SmallOrLater(xs: seq<string>, r: nat, part: string) returns (k: nat)
    requires 1 <= r < |xs|
    requires var i := 3 * |xs| - 1 - r; if i % 3 == 2 then part == xs[i / 3] else Small(part)
    ensures if k == 0 then Small(part) else k < r && part == FromEnd(xs, k)
  {
    var i := 3 * |xs| - 1 - r;
    ThirdFromEnd(|xs|, r);
    k := if i % 3 == 2 then |xs| - 1 - i / 3 else 0;
  }

  /** If a list agrees, part by part from the end, with its own spread, then all
      but its last part are small. */
  lemma {:induction false} SelfSpreadSmall(xs: seq<string>, r: nat)
    requires |xs| > 1 && 1 <= r < |xs| && SelfSpread(xs)
    ensures Small(FromEnd(xs, r))
    decreases r
  {
    assert AlikeAt(xs, r);
    SpreadFromEnd(xs, r);
    var k := SmallOrLater(xs, r, Part(xs, 3 * |xs| - 1 - r));
    if k > 0 {
      SelfSpreadSmall(xs, k);
    }
  }

  // ---------- the last two pieces ----------

  lemma {:induction false} NonEmptyConcat(a: seq<string>, b: seq<string>)
    ensures NonEmpty(a + b) == NonEmpty(a) + NonEmpty(b)
  {
    if a == [] {
      assert a + b == b;
    } else {
      assert (a + b)[1..] == a[1..] + b;
      NonEmptyConcat(a[1..], b);
    }
  }

  /** If a list of pieces reads, each does, and the last one's text ends the whole. */
  lemma {:induction false} EvalEnd(ps: seq<string>, u: string, bound: nat) returns (v: string)
    requires Shorter(ps, bound) && Shorter(ps + [u], bound) && EvalAll(ps + [u], bound).Some?
    ensures EvalLiteral(u).Some? && EvalAll(ps, bound) == Some(v)
    ensures EvalAll(ps + [u], bound).value == v + EvalLiteral(u).value
  {
    if ps == [] {
      assert ps + [u] == [u] && [u][1..] == [];
      v := "";
      assert EvalLiteral(u).value + "" == "" + EvalLiteral(u).value;
    } else {
      assert (ps + [u])[1..] == ps[1..] + [u];
      v := EvalEnd(ps[1..], u, bound);
      assert EvalLiteral(ps[0]).value + (v + EvalLiteral(u).value) == EvalLiteral(ps[0]).value + v + EvalLiteral(u).value;
      v := EvalLiteral(ps[0]).value + v;
    }
  }

  /** A piece ending in a quote reads only if it starts with the same quote. */
  lemma EvalToQuote(b: string, q: char)
    requires b != "" && IsQuote(q) && b[|b| - 1] == q
    ensures Strip(b) == StripLeft(b) && Strip(b) != ""
    ensures EvalLiteral(Strip(b)).Some? ==>
              |Strip(b)| > 1 && Strip(b)[0] == q && EvalLiteral(Strip(b)).value == Strip(b)[1..|Strip(b)| - 1]
  {
    StripToQuote(b, q);
    EvalAtQuote(Strip(b), q);
  }

  lemma StripToQuote(b: string, q: char)
    requires b != "" && IsQuote(q) && b[|b| - 1] == q
    ensures Strip(b) == StripLeft(b) && Trimmed(Strip(b)) && Strip(b)[|Strip(b)| - 1] == q
  {
    StripToEnd(b);
  }

  lemma EvalAtQuote(l: string, q: char)
    requires Trimmed(l) && IsQuote(q) && l[|l| - 1] == q
    ensures EvalLiteral(l) == EvalSimple(l)
  {
    StripTrimmed(l);
  }

  /** The last piece of a tail, and what is known when it reads. */
  lemma LastPiece(ss: seq<string>) returns (j: nat)
    requires Segments(ss)
    requires EvalLiteral(Strip(Run(Core(ss) + ['"'], START).buf)).Some?
    ensures 0 < j < |ss| && Restarted(StateAt(ss, START, j)) && StateAt(ss, START, j).out == Run(Core(ss) + ['"'], START).out
    ensures EvalLiteral(Strip(Run(Core(ss) + ['"'], START).buf)).value == Join(Spread(ss[j..]), ['"'])
  {
    var text := Core(ss) + ['"'];
    var f := Run(text, START);
    RunConcat(Core(ss), ['"'], START);
    RunOne('"', Run(Core(ss), START));
    EvalToQuote(f.buf, '"');
    j := RestartOfTail(ss);
    var g, xs := StateAt(ss, START, j), ss[j..];
    RunFrom(ss, START, j);
    RunGrows(Core(xs) + ['"'], g);
    StripLeftConcat(g.buf, Core(xs) + ['"']);
    JointOpens();
    JoinSpread(xs);
    CutQuotes(JOINT, Core(xs), Join(Spread(xs), ['"']));
  }

  lemma CutQuotes(joint: string, core: string, inner: string)
    requires joint + core == ['"'] + inner
    ensures var u := joint + (core + ['"']); u[1..|u| - 1] == inner
  {
    var u := joint + (core + ['"']);
    assert u == ['"'] + inner + ['"'];
  }

  // ---------- the tail never reads as the value ----------

  /** What `SameEnd` gives for the last piece. */
  lemma EndsWithSpread(value: string, v: string, ss: seq<string>, j: nat)
    requires Segments(ss) && 0 < j < |ss| && value == v + Join(Spread(ss[j..]), ['"'])
    ensures |SplitOn(value, '"')| >= 3 * |ss[j..]|
    ensures forall k: nat :: k < 3 * |ss[j..]| - 1 ==> FromEnd(SplitOn(value, '"'), k) == FromEnd(Spread(ss[j..]), k)
  {
    assert Segments(ss[j..]);
    SpreadSegments(ss[j..]);
    SameEnd(value, v, Spread(ss[j..]));
  }

  /** The value ends with the segments, and the part that holds the first of
      them is too long to be small. */
  predicate EndsWithSegments(value: string, ss: seq<string>)
    requires ss != []
  {
    var vs := SplitOn(value, '"');
    && |vs| >= |ss|
    && (forall k: nat :: k < |ss| - 1 ==> FromEnd(vs, k) == FromEnd(ss, k))
    && |FromEnd(vs, |ss| - 1)| > 3
  }

  lemma AllSmall(xs: seq<string>)
    requires |xs| > 1 && SelfSpread(xs)
    ensures forall i :: 0 <= i < |xs| - 1 ==> Small(xs[i])
    ensures xs[|xs| - 2] == QUOTE_COMMA
  {
    forall i | 0 <= i < |xs| - 1
      ensures Small(xs[i])
    {
      SmallAt(xs, i);
    }
    SpreadSecondLast(xs);
    assert AlikeAt(xs, 1);
  }

  lemma {:induction false} SpreadSecondLast(xs: seq<string>)
    requires xs != []
    ensures FromEnd(Spread(xs), 1) == QUOTE_COMMA
  {
    if |xs| > 1 {
      SpreadSecondLast(xs[1..]);
    }
  }

  lemma SmallAt(xs: seq<string>, i: nat)
    requires i + 1 < |xs| && SelfSpread(xs)
    ensures Small(xs[i])
  {
    SelfSpreadSmall(xs, |xs| - 1 - i);
    assert xs[i] == FromEnd(xs, |xs| - 1 - i);
  }

  lemma LongRestart(value: string, v: string, ss: seq<string>, j: nat)
    requires Segments(ss) && 0 < j < |ss| - 1 && EndsWithSegments(value, ss)
    requires Restarted(StateAt(ss, START, j)) && StateAt(ss, START, j).out == Run(Core(ss) + ['"'], START).out
    ensures value != v + Join(Spread(ss[j..]), ['"'])
  {
    if value == v + Join(Spread(ss[j..]), ['"']) {
      var xs := ss[j..];
      EndsWithSpread(value, v, ss, j);
      assert forall k: nat :: k < |xs| ==> FromEnd(xs, k) == FromEnd(ss, k);
      AllSmall(xs);
      RunFrom(ss, START, j);
      SmallSplits(xs, StateAt(ss, START, j));
    }
  }

  /** A restart at the last segment: the piece before it ended inside the segment before. */
  lemma ShortRestart(ss: seq<string>, n: nat)
    requires Segments(ss) && n + 2 == |ss| && ss[n] == QUOTE_COMMA && Restarted(StateAt(ss, START, n + 1))
    ensures var h := StateAt(ss, START, n);
            h.inStr == Some('\'') && h.depth == 0 && StateAt(ss, START, n + 1).out == h.out + [Strip(h.buf + ['\''])]
  {
    var h := StateAt(ss, START, n);
    StateAtSingle(ss, START, n);
    StateAtNext(ss, START, n);
    RunSingle(QUOTE_COMMA, h);
    RunJoint(Run(QUOTE_COMMA, h));
    if h.inStr.None? {
      RunSmallBare(h);
    } else {
      RunSmall(h);
    }
  }

  /** The state at a joint entered from a segment that ended outside quotes. */
  lemma BeforeJoint(ss: seq<string>, n: nat)
    requires Segments(ss) && n + 1 < |ss| && StateAt(ss, START, n + 1).inStr == Some('\'')
    ensures var e := Run(ss[n], StateAt(ss, START, n));
            e.inStr == None && e.depth == StateAt(ss, START, n + 1).depth && StateAt(ss, START, n + 1).buf == e.buf + JOINT
  {
    StateAtSingle(ss, START, n);
    StateAtNext(ss, START, n);
    RunSingle(ss[n], StateAt(ss, START, n));
    RunJoint(Run(ss[n], StateAt(ss, START, n)));
  }

  lemma BeforeComma(ss: seq<string>, n: nat)
    requires Segments(ss) && n + 1 < |ss| && ss[n] == COMMA_QUOTE && StateAt(ss, START, n + 1).inStr == Some('\'')
    ensures var h := StateAt(ss, START, n);
            h.inStr == Some('\'') && h.depth == StateAt(ss, START, n + 1).depth
            && StateAt(ss, START, n + 1).buf == h.buf + COMMA_QUOTE + JOINT
  {
    BeforeJoint(ss, n);
    StateAtSingle(ss, START, n);
    var h := StateAt(ss, START, n);
    if h.inStr.None? {
      RunSmallBare(h);
    } else {
      RunSmall(h);
    }
  }

  lemma BeforeQuote(ss: seq<string>, n: nat)
    requires Segments(ss) && n + 1 < |ss| && ss[n] == QUOTE_COMMA
    requires StateAt(ss, START, n + 1).inStr == Some('\'') && StateAt(ss, START, n + 1).depth == 0
    ensures StateAt(ss, START, n + 1).buf == [' '] + JOINT
  {
    BeforeJoint(ss, n);
    StateAtSingle(ss, START, n);
    var h := StateAt(ss, START, n);
    if h.inStr.None? {
      RunSmallBare(h);
    } else {
      RunSmall(h);
    }
  }

  /** The last five parts of a value that ends with a joint and a spread segment. */
  lemma JointThenSpread(value: string, v: string, x: string)
    requires '"' !in x && value == v + (JOINT + Join(Spread([x]), ['"']))
    ensures var vs := SplitOn(value, '"');
            |vs| >= 6 && FromEnd(vs, 2) == COMMA_QUOTE && FromEnd(vs, 3) == QUOTE_COMMA
  {
    var tail := Spread([x]);
    var b := [""] + ([COMMA_QUOTE] + ([QUOTE_COMMA] + tail));
    assert tail == [COMMA_QUOTE, QUOTE_COMMA, x];
    JoinCons(QUOTE_COMMA, tail);
    JoinCons(COMMA_QUOTE, [QUOTE_COMMA] + tail);
    JoinCons("", [COMMA_QUOTE] + ([QUOTE_COMMA] + tail));
    RegroupTail(COMMA_QUOTE, QUOTE_COMMA, Join(tail, ['"']));
    assert Segments(b);
    SameEnd(value, v, b);
    assert FromEnd(b, 2) == COMMA_QUOTE && FromEnd(b, 3) == QUOTE_COMMA;
  }

  lemma RegroupTail(a: string, b: string, rest: string)
    ensures ['"'] + (a + (['"'] + (b + ['"']))) + rest == "" + ['"'] + (a + ['"'] + (b + ['"'] + rest))
  {
  }

  /** The piece before the last: what it reads as when it reads. */
  lemma PieceBefore(e: string) returns (w: string)
    requires EvalLiteral(Strip(e + JOINT + ['\''])).Some?
    ensures StripLeft(e) != "" && StripLeft(e)[0] == '\''
    ensures EvalLiteral(Strip(e + JOINT + ['\''])).value == w + JOINT
  {
    w := StripLeft(e)[if StripLeft(e) == "" then 0 else 1..];
    QuoteAfterText(e, JOINT);
    EvalToQuote(e + JOINT + ['\''], '\'');
    JointOpens();
    if StripLeft(e) != "" {
      CutSingle(StripLeft(e), JOINT);
    }
  }

  lemma QuoteAfterText(e: string, joint: string)
    requires joint != "" && joint[0] == '"'
    ensures StripLeft(e + joint + ['\'']) == StripLeft(e) + (joint + ['\''])
  {
    assert e + joint + ['\''] == e + (joint + ['\'']);
    StripLeftConcat(e, joint + ['\'']);
    StripLeftQuote(joint + ['\'']);
    assert "" + (joint + ['\'']) == joint + ['\''];
  }

  lemma CutSingle(l: string, joint: string)
    requires l != ""
    ensures var u := l + (joint + ['\'']); u[0] == l[0] && u[1..|u| - 1] == l[1..] + joint
  {
  }

  /** Three small segments before the last one contradict what the piece before must be. */
  lemma ThreeSmall(ss: seq<string>, n: nat)
    requires Segments(ss) && n >= 2 && n + 2 == |ss| && ss[n - 1] == COMMA_QUOTE && ss[n - 2] == QUOTE_COMMA
    requires StateAt(ss, START, n).inStr == Some('\'') && StateAt(ss, START, n).depth == 0
    ensures OpensDouble(Run(ss[n - 1], StateAt(ss, START, n - 1)).buf)
  {
    BeforeJoint(ss, n - 1);
    BeforeComma(ss, n - 1);
    BeforeQuote(ss, n - 2);
    var e := Run(ss[n - 1], StateAt(ss, START, n - 1)).buf;
    SameBeforeJoint(e, [' '] + JOINT + COMMA_QUOTE, JOINT);
    OpensAfterSpace(JOINT, COMMA_QUOTE);
  }

  lemma SameBeforeJoint(a: string, b: string, joint: string)
    requires a + joint == b + joint
    ensures a == b
  {
    assert |a| == |b|;
    assert (a + joint)[..|a|] == a && (b + joint)[..|b|] == b;
  }

  lemma OpensAfterSpace(joint: string, more: string)
    requires joint != "" && joint[0] == '"'
    ensures OpensDouble([' '] + joint + more)
  {
    assert ([' '] + joint + more)[1..] == joint + more;
    StripLeftQuote(joint + more);
  }

  lemma NotAtLongPart(value: string, ss: seq<string>, k: nat)
    requires |ss| > 1 && EndsWithSegments(value, ss) && k < |ss| && |FromEnd(SplitOn(value, '"'), k)| <= 3
    ensures k < |ss| - 1 && FromEnd(ss, k) == FromEnd(SplitOn(value, '"'), k)
  {
  }

  lemma ShortRestartFails(value: string, ss: seq<string>, n: nat, v: string)
    requires Segments(ss) && n + 2 == |ss| && n > 0 && EndsWithSegments(value, ss)
    requires ss[n] == QUOTE_COMMA && Restarted(StateAt(ss, START, n + 1))
    requires EvalLiteral(Strip(StateAt(ss, START, n).buf + ['\''])).Some?
    ensures value != v + EvalLiteral(Strip(StateAt(ss, START, n).buf + ['\''])).value + Join(Spread([ss[n + 1]]), ['"'])
  {
    var x, e := ss[n + 1], Run(ss[n - 1], StateAt(ss, START, n - 1)).buf;
    ShortRestart(ss, n);
    BeforeJoint(ss, n - 1);
    var w := PieceBefore(e);
    var tail := Join(Spread([x]), ['"']);
    if value == v + (w + JOINT) + tail {
      RegroupCore(v, w, JOINT, tail);
      JointThenSpread(value, v + w, x);
      NotAtLongPart(value, ss, 2);
      NotAtLongPart(value, ss, 3);
      ThreeSmall(ss, n);
    }
  }

  lemma TailPieces(ss: seq<string>)
    requires ss != []
    ensures var f := Run(Core(ss) + ['"'], START);
            NonEmpty(Pieces(Core(ss) + ['"'], ",", 0, None, "")) == NonEmpty(f.out) + [Strip(f.buf)]
  {
    var text := Core(ss) + ['"'];
    var f := Run(text, START);
    PiecesFromStart(text);
    RunConcat(Core(ss), ['"'], START);
    RunOne('"', Run(Core(ss), START));
    StripToQuote(f.buf, '"');
    NonEmptyConcat(f.out, [Strip(f.buf)]);
    NonEmptyOne(Strip(f.buf));
  }

  lemma PiecesFromStart(text: string)
    ensures Pieces(text, ",", 0, None, "") == Finish(Run(text, START))
  {
    RunIsPieces(text, START);
    assert [] + Pieces(text, ",", 0, None, "") == Pieces(text, ",", 0, None, "");
  }

  lemma NonEmptyOne(p: string)
    requires p != ""
    ensures NonEmpty([p]) == [p]
  {
    assert [p][1..] == [];
  }

  lemma PieceNonEmpty(b: string)
    ensures NonEmpty([Strip(b + ['\''])]) == [Strip(b + ['\''])]
  {
    StripToQuote(b + ['\''], '\'');
    NonEmptyOne(Strip(b + ['\'']));
  }

  /** The last two pieces, when the last one is a restart at the last segment. */
  lemma ReadsAtLastSegment(value: string, ss: seq<string>, n: nat, v: string, bound: nat)
    requires Segments(ss) && n + 2 == |ss| && n > 0 && EndsWithSegments(value, ss)
    requires ss[n] == QUOTE_COMMA && Restarted(StateAt(ss, START, n + 1))
    requires Shorter(NonEmpty(StateAt(ss, START, n + 1).out), bound)
    requires EvalAll(NonEmpty(StateAt(ss, START, n + 1).out), bound) == Some(v)
    ensures value != v + Join(Spread([ss[n + 1]]), ['"'])
  {
    var h := StateAt(ss, START, n);
    var r := Strip(h.buf + ['\'']);
    ShortRestart(ss, n);
    NonEmptyConcat(h.out, [r]);
    PieceNonEmpty(h.buf);
    ShorterConcat(NonEmpty(h.out), [r], bound);
    var before := EvalEnd(NonEmpty(h.out), r, bound);
    ShortRestartFails(value, ss, n, before);
  }

  /** Read as the arguments of a `concat`, the tail of one never gives the value
      back, as long as the part the tail begins in is longer than a small one. */
  lemma TailNeverReadsAsValue(value: string, ss: seq<string>, bound: nat)
    requires Segments(ss) && EndsWithSegments(value, ss)
    requires Shorter(NonEmpty(Pieces(Core(ss) + ['"'], ",", 0, None, "")), bound)
    ensures EvalAll(NonEmpty(Pieces(Core(ss) + ['"'], ",", 0, None, "")), bound) != Some(value)
  {
    var f := Run(Core(ss) + ['"'], START);
    TailPieces(ss);
    ShorterConcat(NonEmpty(f.out), [Strip(f.buf)], bound);
    if EvalAll(NonEmpty(f.out) + [Strip(f.buf)], bound) == Some(value) {
      var v := EvalEnd(NonEmpty(f.out), Strip(f.buf), bound);
      var j := LastPiece(ss);
      if j < |ss| - 1 {
        LongRestart(value, v, ss, j);
      } else {
        LastSegmentReads(value, ss, v, bound);
      }
    }
  }

  lemma LastSegmentReads(value: string, ss: seq<string>, v: string, bound: nat)
    requires Segments(ss) && |ss| > 1 && EndsWithSegments(value, ss) && Restarted(StateAt(ss, START, |ss| - 1))
    requires Shorter(NonEmpty(StateAt(ss, START, |ss| - 1).out), bound)
    requires EvalAll(NonEmpty(StateAt(ss, START, |ss| - 1).out), bound) == Some(v)
    ensures value != v + Join(Spread(ss[|ss| - 1..]), ['"'])
  {
    var j := |ss| - 1;
    assert ss[j..] == [ss[j]];
    if value == v + Join(Spread(ss[j..]), ['"']) {
      EndsWithSpread(value, v, ss, j);
      SpreadAt([ss[j]], 1);
      assert FromEnd(SplitOn(value, '"'), 1) == FromEnd(Spread([ss[j]]), 1) == QUOTE_COMMA;
      NotAtLongPart(value, ss, 1);
      ReadsAtLastSegment(value, ss, j - 1, v, bound);
    }
  }
}
