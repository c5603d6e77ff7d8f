/** One XPath predicate: `_xpath_predicate` (agent/executor/smart_locator.py) and
    `_decode_xpath_predicate` (agent/executor/driver.py). */
module XPathPredicate {
  import opened Text
  import opened Scanner
  import opened Locator
  import opened XPathLiteral

  const CLASS_SEP: string := " or @class="
  const ENDS_SEP: string := ")+1)="

  // ---------- printing ----------

  function EqualsText(name: string, lit: string): string {
    "@" + name + "=" + lit
  }

  function ClassText(lit: string): string {
    "" + "(" + ("name" + "(" + "" + ")" + ("=" + (lit + (CLASS_SEP + lit)))) + ")"
  }

  function CallText(fn: string, name: string, lit: string): string {
    fn + "(" + ("@" + name + ", " + lit) + ")"
  }

  function EndsText(name: string, lit: string): string {
    "substring" + "(" + ("@" + name + ", " + ("string-length" + "(" + ("@" + name) + ")"
      + ("-" + ("string-length" + "(" + lit + ")" + "+1")))) + ")" + ("=" + lit)
  }

  /** `_xpath_predicate`; `None` is the InvalidSmartLocator raised for a regex. */
  function Predicate(c: Condition): Option<string>
    requires Typed(c)
  {
    var name := XPathName(c.attribute);
    if IsBool(c.attribute) then Some("@" + name + "=" + ("'" + (if c.value.on then "true" else "false") + "'"))
    else
      var lit := Literal(c.value.text);
      match c.operator
      case Equals => Some(if c.attribute.ClassName? then ClassText(lit) else EqualsText(name, lit))
      case Contains => Some(CallText("contains", name, lit))
      case StartsWith => Some(CallText("starts-with", name, lit))
      case EndsWith => Some(EndsText(name, lit))
      case Regex => None
  }

  // ---------- reading: one function per regular expression ----------

  /** `@([\w-]+)` and what follows it. */
  function AttributeRef(s: string): Option<(string, string)> {
    var r :- Expect(s, "@");
    var n := TakeWhile(r, IsWordChar);
    if n == 0 then None else Some((r[..n], r[n..]))
  }

  /** `(.*)sep(.*)`, greedily: split at the last occurrence of `sep`. */
  function Around(s: string, sep: string): Option<(string, string)> {
    var k :- LastIndexOf(s, sep);
    Some((s[..k], s[k + |sep|..]))
  }

  /** `(.*)\)$`. */
  function BeforeLastParen(s: string): Option<string> {
    if s != "" && s[|s| - 1] == ')' then Some(s[..|s| - 1]) else None
  }

  /** `^\(name\(\)=(.*) or @class=(.*)\)$`. */
  function MatchClass(s: string): Option<(string, string)> {
    var r1 :- Expect(s, "(");
    var r2 :- Expect(r1, "name");
    var r3 :- Expect(r2, "()=");
    var r4 :- BeforeLastParen(r3);
    Around(r4, CLASS_SEP)
  }

  /** `^fn\(@([\w-]+),\s*(.*)\)$`. */
  function MatchCall(s: string, fn: string): Option<(string, string)> {
    var r1 :- Expect(s, fn);
    var r2 :- Expect(r1, "(");
    var (name, r3) :- AttributeRef(r2);
    var r4 :- Expect(r3, ",");
    var arg :- BeforeLastParen(StripLeft(r4));
    Some((name, arg))
  }

  /** `\s*string-length\(@[\w-]+\)-string-length\((.*)\)\+1\)=(.*)$`; only the last
      group is used by the caller. */
  function MatchLengthTest(s: string): Option<string> {
    var r1 :- Expect(StripLeft(s), "string-length");
    var r2 :- Expect(r1, "(");
    var (_, r3) :- AttributeRef(r2);
    var r4 :- Expect(r3, ")-");
    var r5 :- Expect(r4, "string-length");
    var r6 :- Expect(r5, "(");
    var (_, lit) :- Around(r6, ENDS_SEP);
    Some(lit)
  }

  /** `^substring\(@([\w-]+),` followed by the length test. */
  function MatchEnds(s: string): Option<(string, string)> {
    var r1 :- Expect(s, "substring");
    var r2 :- Expect(r1, "(");
    var (name, r3) :- AttributeRef(r2);
    var r4 :- Expect(r3, ",");
    var lit :- MatchLengthTest(r4);
    Some((name, lit))
  }

  /** `^@([\w-]+)=(.*)$`. */
  function MatchEquals(s: string): Option<(string, string)> {
    var (name, r) :- AttributeRef(s);
    var lit :- Expect(r, "=");
    Some((name, lit))
  }

  /** `_decode_xpath_predicate`; `None` stands for the ValueError. */
  function Decode(pred: string): Option<Query> {
    var p := Strip(pred);
    match MatchClass(p)
    case Some((left, right)) =>
      var nameValue :- EvalLiteral(left);
      var classValue :- EvalLiteral(right);
      if nameValue == classValue then Some(Query(CLASS_OR_NODE, Equals, Str(nameValue))) else None
    case None =>
      match MatchEnds(p)
      case Some((name, lit)) => Decoded(name, EndsWith, lit)
      case None =>
        match MatchCall(p, "contains")
        case Some((name, lit)) => Decoded(name, Contains, lit)
        case None =>
          match MatchCall(p, "starts-with")
          case Some((name, lit)) => Decoded(name, StartsWith, lit)
          case None =>
            var (name, lit) :- MatchEquals(p);
            if IsBoolKey(KeyOfName(name)) then
              var v :- EvalLiteral(lit);
              Some(Query(KeyOfName(name), Equals, Flag(v == "true")))
            else Decoded(name, Equals, lit)
  }

  function Decoded(name: string, op: Operator, lit: string): Option<Query> {
    var v :- EvalLiteral(lit);
    Some(Query(KeyOfName(name), op, Str(v)))
  }

  // ---------- printed predicates as tokens ----------

  function PredicateTokens(c: Condition): seq<Token>
    requires Typed(c) && !c.operator.Regex?
  {
    var name := XPathName(c.attribute);
    if IsBool(c.attribute) then
      Plains("@" + name + "=") + [Quoted('\'', if c.value.on then "true" else "false")]
    else
      var lit := LiteralTokens(c.value.text);
      match c.operator
      case Equals => if c.attribute.ClassName? then ClassTokens(lit) else Plains("@" + name + "=") + lit
      case Contains => Call("contains", Plains("@" + name + ", ") + lit)
      case StartsWith => Call("starts-with", Plains("@" + name + ", ") + lit)
      case EndsWith => EndsTokens(name, lit)
  }

  function ClassTokens(lit: seq<Token>): seq<Token> {
    Call("", Call("name", []) + (Plains("=") + (lit + (Plains(CLASS_SEP) + lit))))
  }

  function EndsTokens(name: string, lit: seq<Token>): seq<Token> {
    Call("substring", Plains("@" + name + ", ") + (Call("string-length", Plains("@" + name))
      + (Plains("-") + (Call("string-length", lit) + Plains("+1"))))) + (Plains("=") + lit)
  }

  lemma RenderPair(s: string, ts: seq<Token>)
    ensures Render(Plains(s) + ts) == s + Render(ts)
  {
    RenderPlains(s);
    RenderConcat(Plains(s), ts);
  }

  lemma RenderClass(lit: seq<Token>)
    ensures Render(ClassTokens(lit)) == ClassText(Render(lit))
  {
    var inner := Plains("=") + (lit + (Plains(CLASS_SEP) + lit));
    RenderPair(CLASS_SEP, lit);
    RenderConcat(lit, Plains(CLASS_SEP) + lit);
    RenderPair("=", lit + (Plains(CLASS_SEP) + lit));
    RenderCall("name", []);
    RenderConcat(Call("name", []), inner);
    RenderCall("", Call("name", []) + inner);
  }

  lemma RenderEnds(name: string, lit: seq<Token>)
    ensures Render(EndsTokens(name, lit)) == EndsText(name, Render(lit))
  {
    var a := Call("string-length", lit);
    var b := Plains("-") + (a + Plains("+1"));
    var c := Call("string-length", Plains("@" + name)) + b;
    RenderCall("string-length", lit);
    RenderPlains("+1");
    RenderConcat(a, Plains("+1"));
    RenderPair("-", a + Plains("+1"));
    RenderPlains("@" + name);
    RenderCall("string-length", Plains("@" + name));
    RenderConcat(Call("string-length", Plains("@" + name)), b);
    RenderPair("@" + name + ", ", c);
    RenderCall("substring", Plains("@" + name + ", ") + c);
    RenderPair("=", lit);
    RenderConcat(Call("substring", Plains("@" + name + ", ") + c), Plains("=") + lit);
  }

  lemma RenderPredicate(c: Condition)
    requires Typed(c) && !c.operator.Regex?
    ensures Predicate(c) == Some(Render(PredicateTokens(c)))
  {
    var name := XPathName(c.attribute);
    if IsBool(c.attribute) {
      var t := Quoted('\'', if c.value.on then "true" else "false");
      RenderOne(t);
      RenderPair("@" + name + "=", [t]);
    } else {
      var lit := LiteralTokens(c.value.text);
      RenderLiteral(c.value.text);
      match c.operator
      case Equals =>
        RenderClass(lit);
        RenderPair("@" + name + "=", lit);
      case Contains =>
        RenderPair("@" + name + ", ", lit);
        RenderCall("contains", Plains("@" + name + ", ") + lit);
      case StartsWith =>
        RenderPair("@" + name + ", ", lit);
        RenderCall("starts-with", Plains("@" + name + ", ") + lit);
      case EndsWith => RenderEnds(name, lit);
    }
  }
}
