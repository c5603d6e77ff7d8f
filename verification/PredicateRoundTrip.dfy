/** Reading a printed XPath predicate back: what the surrounding scanners see of
    it, and exactly when the condition is recovered. */
module PredicateRoundTrip {
  import opened Text
  import opened Scanner
  import opened Locator
  import opened XPathLiteral
  import opened XPathPredicate

  // ---------- a predicate is one piece and shows no bracket ----------

  /** Keeps depth `d` and hides its spaces; shows no square bracket. */
  predicate Tidy(ts: seq<Token>, d: int) {
    Calm(ts, d, ' ') && DepthAfter(ts, d) == d && Bare(ts, SQUARE)
  }

  lemma TidyConcat(a: seq<Token>, b: seq<Token>, d: int)
    requires Tidy(a, d) && Tidy(b, d)
    ensures Tidy(a + b, d)
  {
    CalmConcat(a, b, d, ' ');
  }

  /** Text without quotes or brackets; spaces only below depth 0. */
  predicate Simple(s: string) {
    forall i :: 0 <= i < |s| ==> !IsQuote(s[i]) && s[i] !in "()[]"
  }

  lemma TidyPlains(s: string, d: int)
    requires Simple(s) && (d == 0 ==> ' ' !in s)
    ensures Tidy(Plains(s), d)
  {
    PlainsLevel(s);
    LevelCalm(Plains(s), d, ' ');
  }

  lemma TidyCall(name: string, args: seq<Token>, d: int)
    requires Word(name) && Tidy(args, d + 1)
    ensures Tidy(Call(name, args), d)
  {
    CallCalm(name, args, d, ' ');
    CallBare(name, args);
  }

  lemma SimplePieces(name: string)
    requires Word(name)
    ensures Simple("@" + name) && Simple("@" + name + ", ")
    ensures Simple("@" + name + "=") && ' ' !in "@" + name + "="
  {
  }

  lemma TidyPair(s: string, ts: seq<Token>, d: int)
    requires Simple(s) && (d == 0 ==> ' ' !in s) && Tidy(ts, d)
    ensures Tidy(Plains(s) + ts, d)
  {
    TidyPlains(s, d);
    TidyConcat(Plains(s), ts, d);
  }

  lemma TidyNested(name: string, a: seq<Token>, b: seq<Token>, d: int)
    requires Word(name) && Tidy(a, d + 1) && Tidy(b, d + 1)
    ensures Tidy(Call(name, a + b), d)
  {
    TidyConcat(a, b, d + 1);
    TidyCall(name, a + b, d);
  }

  lemma TidyClassShape(fn: string, eq: string, sep: string, lit: seq<Token>)
    requires Word(fn) && Simple(eq) && Simple(sep) && Tidy(lit, 1)
    ensures Tidy(Call("", Call(fn, []) + (Plains(eq) + (lit + (Plains(sep) + lit)))), 0)
  {
    TidyPair(sep, lit, 1);
    TidyConcat(lit, Plains(sep) + lit, 1);
    TidyPair(eq, lit + (Plains(sep) + lit), 1);
    TidyCall(fn, [], 1);
    TidyNested("", Call(fn, []), Plains(eq) + (lit + (Plains(sep) + lit)), 0);
  }

  lemma TidyClass(lit: seq<Token>)
    requires Tidy(lit, 1)
    ensures Tidy(ClassTokens(lit), 0)
  {
    assert Word("name");
    assert Simple(CLASS_SEP);
    TidyClassShape("name", "=", CLASS_SEP, lit);
  }

  lemma TidyLengths(length: string, name: string, minus: string, one: string, lit: seq<Token>)
    requires Word(length) && Word(name) && Simple(minus) && Simple(one) && Tidy(lit, 2)
    ensures Tidy(Call(length, Plains("@" + name)) + (Plains(minus) + (Call(length, lit) + Plains(one))), 1)
  {
    TidyCall(length, lit, 1);
    TidyPlains(one, 1);
    TidyConcat(Call(length, lit), Plains(one), 1);
    TidyPair(minus, Call(length, lit) + Plains(one), 1);
    SimplePieces(name);
    TidyPlains("@" + name, 2);
    TidyCall(length, Plains("@" + name), 1);
    TidyConcat(Call(length, Plains("@" + name)), Plains(minus) + (Call(length, lit) + Plains(one)), 1);
  }

  lemma TidyEndsShape(substring: string, name: string, args: seq<Token>, eq: string, lit: seq<Token>)
    requires Word(substring) && Word(name) && Tidy(args, 1)
    requires Simple(eq) && ' ' !in eq && Tidy(lit, 0)
    ensures Tidy(Call(substring, Plains("@" + name + ", ") + args) + (Plains(eq) + lit), 0)
  {
    SimplePieces(name);
    TidyPlains("@" + name + ", ", 1);
    TidyNested(substring, Plains("@" + name + ", "), args, 0);
    TidyPair(eq, lit, 0);
    TidyConcat(Call(substring, Plains("@" + name + ", ") + args), Plains(eq) + lit, 0);
  }

  lemma StringLength()
    ensures Word("string-length")
  {
  }

  lemma Substring()
    ensures Word("substring")
  {
  }

  lemma TidyEnds(name: string, lit: seq<Token>)
    requires Word(name) && Tidy(lit, 2) && Tidy(lit, 0)
    ensures Tidy(EndsTokens(name, lit), 0)
  {
    StringLength();
    TidyLengths("string-length", name, "-", "+1", lit);
    Substring();
    TidyEndsShape("substring", name,
                  Call("string-length", Plains("@" + name)) + (Plains("-") + (Call("string-length", lit) + Plains("+1"))),
                  "=", lit);
  }

  lemma TidyAttributeCall(fn: string, name: string, lit: seq<Token>)
    requires Word(fn) && Word(name) && Tidy(lit, 1)
    ensures Tidy(Call(fn, Plains("@" + name + ", ") + lit), 0)
  {
    SimplePieces(name);
    TidyPlains("@" + name + ", ", 1);
    TidyNested(fn, Plains("@" + name + ", "), lit, 0);
  }

  lemma TidyContains(name: string, lit: seq<Token>)
    requires Word(name) && Tidy(lit, 1)
    ensures Tidy(Call("contains", Plains("@" + name + ", ") + lit), 0)
    ensures Tidy(Call("starts-with", Plains("@" + name + ", ") + lit), 0)
  {
    assert Word("contains");
    TidyAttributeCall("contains", name, lit);
    assert Word("starts-with");
    TidyAttributeCall("starts-with", name, lit);
  }

  lemma TidyEquals(name: string, lit: seq<Token>)
    requires Word(name) && Tidy(lit, 0)
    ensures Tidy(Plains("@" + name + "=") + lit, 0)
  {
    SimplePieces(name);
    TidyPair("@" + name + "=", lit, 0);
  }

  lemma TidyFlag(name: string, on: bool)
    requires Word(name)
    ensures Tidy(Plains("@" + name + "=") + [Quoted('\'', if on then "true" else "false")], 0)
  {
    var word := [Quoted('\'', if on then "true" else "false")];
    LevelCalm(word, 0, ' ');
    TidyEquals(name, word);
  }

  lemma TidyShapes(name: string, value: string)
    requires Word(name)
    ensures Tidy(Plains("@" + name + "=") + LiteralTokens(value), 0)
    ensures Tidy(ClassTokens(LiteralTokens(value)), 0)
    ensures Tidy(EndsTokens(name, LiteralTokens(value)), 0)
  {
    LiteralCalm(value, 0);
    LiteralCalm(value, 1);
    LiteralCalm(value, 2);
    TidyEquals(name, LiteralTokens(value));
    TidyClass(LiteralTokens(value));
    TidyEnds(name, LiteralTokens(value));
  }

  lemma NameIsWord(a: Attribute)
    ensures Word(XPathName(a))
  {
    NamesAgree(a);
  }

  /** A printed predicate never exposes " and " or a bracket to the scanners. */
  lemma PredicateTidy(c: Condition)
    requires Typed(c) && !c.operator.Regex?
    ensures Tidy(PredicateTokens(c), 0)
  {
    var name := XPathName(c.attribute);
    NameIsWord(c.attribute);
    if IsBool(c.attribute) {
      TidyFlag(name, c.value.on);
    } else {
      LiteralCalm(c.value.text, 1);
      TidyShapes(name, c.value.text);
      TidyContains(name, LiteralTokens(c.value.text));
    }
  }

  // ---------- the regular expressions on printed text ----------

  lemma AttributeRefPrinted(name: string, rest: string)
    requires Word(name) && name != "" && rest != "" && !IsWordChar(rest[0])
    ensures AttributeRef("@" + name + rest) == Some((name, rest))
  {
    var s := "@" + name + rest;
    assert s == "@" + (name + rest);
    ExpectPrefix("@", name + rest);
    TakeWhileExact(name, rest, IsWordChar);
    assert (name + rest)[..|name|] == name && (name + rest)[|name|..] == rest;
  }

  lemma BeforeLastParenPrinted(s: string)
    ensures BeforeLastParen(s + ")") == Some(s)
  {
  }

  lemma StripLeftLead(s: string)
    requires s != "" && !IsSpace(s[0])
    ensures StripLeft(" " + s) == s
  {
  }

  lemma MatchCallPrinted(fn: string, name: string, lit: string)
    requires Word(name) && name != "" && lit != "" && !IsSpace(lit[0])
    ensures MatchCall(CallText(fn, name, lit), fn) == Some((name, lit))
  {
    var rest := "," + (" " + (lit + ")"));
    var s := CallText(fn, name, lit);
    assert s == fn + ("(" + ("@" + name + rest));
    ExpectPrefix(fn, "(" + ("@" + name + rest));
    ExpectPrefix("(", "@" + name + rest);
    AttributeRefPrinted(name, rest);
    ExpectPrefix(",", " " + (lit + ")"));
    StripLeftLead(lit + ")");
    BeforeLastParenPrinted(lit);
  }

  lemma MatchEqualsPrinted(name: string, lit: string)
    requires Word(name) && name != ""
    ensures MatchEquals(EqualsText(name, lit)) == Some((name, lit))
  {
    assert EqualsText(name, lit) == "@" + name + ("=" + lit);
    AttributeRefPrinted(name, "=" + lit);
    ExpectPrefix("=", lit);
  }

  lemma MatchClassPrinted(lit: string)
    ensures MatchClass(ClassText(lit)) == Around(lit + (CLASS_SEP + lit), CLASS_SEP)
  {
    var mid := lit + (CLASS_SEP + lit);
    assert ClassText(lit) == "(" + ("name" + ("()=" + (mid + ")")));
    ExpectPrefix("(", "name" + ("()=" + (mid + ")")));
    ExpectPrefix("name", "()=" + (mid + ")"));
    ExpectPrefix("()=", mid + ")");
    BeforeLastParenPrinted(mid);
  }

  function LengthTest(length: string, name: string, lit: string): string {
    " " + (length + ("(" + ("@" + name + (")-" + (length + ("(" + (lit + (ENDS_SEP + lit))))))))
  }

  lemma MatchLengthTestPrinted(name: string, lit: string)
    requires Word(name) && name != ""
    ensures MatchLengthTest(LengthTest("string-length", name, lit))
         == match Around(lit + (ENDS_SEP + lit), ENDS_SEP) case None => None case Some((_, r)) => Some(r)
  {
    var mid := lit + (ENDS_SEP + lit);
    var t4 := "string-length" + ("(" + mid);
    var t2 := "@" + name + (")-" + t4);
    var t0 := "string-length" + ("(" + t2);
    StripLeftLead(t0);
    ExpectPrefix("string-length", "(" + t2);
    ExpectPrefix("(", t2);
    AttributeRefPrinted(name, ")-" + t4);
    ExpectPrefix(")-", t4);
    ExpectPrefix("string-length", "(" + mid);
    ExpectPrefix("(", mid);
  }

  lemma EndsTextFlat(substring: string, length: string, name: string, lit: string, sep: string)
    requires sep == ")" + "+1" + ")" + "="
    ensures substring + "(" + ("@" + name + ", " + (length + "(" + ("@" + name) + ")"
              + ("-" + (length + "(" + lit + ")" + "+1")))) + ")" + ("=" + lit)
         == substring + ("(" + ("@" + name + ("," +
              (" " + (length + ("(" + ("@" + name + (")-" + (length + ("(" + (lit + (sep + lit))))))))))))
  {
  }

  lemma MatchEndsPrinted(name: string, lit: string)
    requires Word(name) && name != ""
    ensures MatchEnds(EndsText(name, lit))
         == match Around(lit + (ENDS_SEP + lit), ENDS_SEP) case None => None case Some((_, r)) => Some((name, r))
  {
    var t := LengthTest("string-length", name, lit);
    EndsTextFlat("substring", "string-length", name, lit, ENDS_SEP);
    assert EndsText(name, lit) == "substring" + ("(" + ("@" + name + ("," + t)));
    ExpectPrefix("substring", "(" + ("@" + name + ("," + t)));
    ExpectPrefix("(", "@" + name + ("," + t));
    AttributeRefPrinted(name, "," + t);
    ExpectPrefix(",", t);
    MatchLengthTestPrinted(name, lit);
  }
}
