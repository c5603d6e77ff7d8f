/** UiAutomator selector chains: `_java_string_escape` and `_build_uiautomator`
    (agent/executor/smart_locator.py), `_java_unescape` and
    `_parse_uiautomator_query` (agent/executor/driver.py). */
module UiSelector {
  import opened Text
  import opened Scanner
  import opened Locator

  const PREFIX: string := "new UiSelector()"

  /** `_UIAUTOMATOR_METHODS`. */
  function Method(a: Attribute, op: Operator): Option<string> {
    match (a, op)
    case (TextAttr, Equals) => Some("text")
    case (TextAttr, Contains) => Some("textContains")
    case (TextAttr, StartsWith) => Some("textStartsWith")
    case (TextAttr, Regex) => Some("textMatches")
    case (ContentDesc, Equals) => Some("description")
    case (ContentDesc, Contains) => Some("descriptionContains")
    case (ContentDesc, StartsWith) => Some("descriptionStartsWith")
    case (ContentDesc, Regex) => Some("descriptionMatches")
    case (ResourceId, Equals) => Some("resourceId")
    case (ResourceId, Regex) => Some("resourceIdMatches")
    case (ClassName, Equals) => Some("className")
    case (ClassName, Regex) => Some("classNameMatches")
    case (Package, Equals) => Some("packageName")
    case (Package, Regex) => Some("packageNameMatches")
    case (Clickable, Equals) => Some("clickable")
    case (Enabled, Equals) => Some("enabled")
    case (Selected, Equals) => Some("selected")
    case _ => None
  }

  /** `_UIS_METHOD_MAP`. */
  function MethodMeaning(name: string): Option<(string, Operator)> {
    match name
    case "text" => Some(("text", Equals))
    case "textContains" => Some(("text", Contains))
    case "textStartsWith" => Some(("text", StartsWith))
    case "textMatches" => Some(("text", Regex))
    case "description" => Some(("content_desc", Equals))
    case "descriptionContains" => Some(("content_desc", Contains))
    case "descriptionStartsWith" => Some(("content_desc", StartsWith))
    case "descriptionMatches" => Some(("content_desc", Regex))
    case "resourceId" => Some(("resource_id", Equals))
    case "resourceIdMatches" => Some(("resource_id", Regex))
    case "className" => Some(("class_name", Equals))
    case "classNameMatches" => Some(("class_name", Regex))
    case "packageName" => Some(("package", Equals))
    case "packageNameMatches" => Some(("package", Regex))
    case "clickable" => Some(("clickable", Equals))
    case "enabled" => Some(("enabled", Equals))
    case "selected" => Some(("selected", Equals))
    case _ => None
  }

  lemma MethodBack(a: Attribute, op: Operator)
    requires Method(a, op).Some?
    ensures MethodMeaning(Method(a, op).value) == Some((NodeKey(a), op))
  {
  }

  lemma TextMethodIsWord(op: Operator)
    requires !op.EndsWith?
    ensures Word(Method(TextAttr, op).value)
  {
  }

  lemma DescriptionMethodIsWord(op: Operator)
    requires !op.EndsWith?
    ensures Word(Method(ContentDesc, op).value)
  {
  }

  lemma EqualsMethodIsWord(a: Attribute)
    requires Method(a, Equals).Some?
    ensures Word(Method(a, Equals).value)
  {
  }

  lemma RegexMethodIsWord(a: Attribute)
    requires Method(a, Regex).Some? && !a.TextAttr? && !a.ContentDesc?
    ensures Word(Method(a, Regex).value)
  {
  }

  lemma MethodIsWord(a: Attribute, op: Operator)
    requires Method(a, op).Some?
    ensures Word(Method(a, op).value)
  {
    if a.TextAttr? {
      TextMethodIsWord(op);
    } else if a.ContentDesc? {
      DescriptionMethodIsWord(op);
    } else if op.Equals? {
      EqualsMethodIsWord(a);
    } else {
      RegexMethodIsWord(a);
    }
  }

  // ---------- escaping ----------

  /** `_java_string_escape`: backslash first, then both quotes. */
  function JavaEscape(value: string): string {
    Replace(Replace(Replace(value, '\\', ['\\', '\\']), '\'', ['\\', '\'']), '"', ['\\', '"'])
  }

  predicate Special(c: char) {
    c == '\\' || c == '\'' || c == '"'
  }

  /** Escaping one character at a time. */
  function Escaped(value: string): string {
    if value == "" then "" else (if Special(value[0]) then ['\\', value[0]] else [value[0]]) + Escaped(value[1..])
  }

  lemma ReplaceOne(c: char, rest: string, ch: char, image: string)
    ensures Replace([c] + rest, ch, image) == (if c == ch then image else [c]) + Replace(rest, ch, image)
  {
  }

  lemma ReplaceTwo(c: char, d: char, rest: string, ch: char, image: string)
    ensures Replace([c, d] + rest, ch, image)
         == (if c == ch then image else [c]) + ((if d == ch then image else [d]) + Replace(rest, ch, image))
  {
    assert [c, d] + rest == [c] + ([d] + rest);
    ReplaceOne(c, [d] + rest, ch, image);
    ReplaceOne(d, rest, ch, image);
  }

  lemma EscapeBackslash(rest: string)
    ensures JavaEscape(['\\'] + rest) == ['\\', '\\'] + JavaEscape(rest)
  {
    var r1 := Replace(rest, '\\', ['\\', '\\']);
    var r2 := Replace(r1, '\'', ['\\', '\'']);
    ReplaceOne('\\', rest, '\\', ['\\', '\\']);
    ReplaceTwo('\\', '\\', r1, '\'', ['\\', '\'']);
    assert ['\\'] + (['\\'] + r2) == ['\\', '\\'] + r2;
    ReplaceTwo('\\', '\\', r2, '"', ['\\', '"']);
    assert ['\\'] + (['\\'] + JavaEscape(rest)) == ['\\', '\\'] + JavaEscape(rest);
  }

  lemma EscapeApostrophe(rest: string)
    ensures JavaEscape(['\''] + rest) == ['\\', '\''] + JavaEscape(rest)
  {
    var r1 := Replace(rest, '\\', ['\\', '\\']);
    var r2 := Replace(r1, '\'', ['\\', '\'']);
    ReplaceOne('\'', rest, '\\', ['\\', '\\']);
    ReplaceOne('\'', r1, '\'', ['\\', '\'']);
    ReplaceTwo('\\', '\'', r2, '"', ['\\', '"']);
    assert ['\\'] + (['\''] + JavaEscape(rest)) == ['\\', '\''] + JavaEscape(rest);
  }

  lemma EscapeOther(c: char, rest: string)
    requires c != '\\' && c != '\''
    ensures JavaEscape([c] + rest) == (if c == '"' then ['\\', '"'] else [c]) + JavaEscape(rest)
  {
    var r1 := Replace(rest, '\\', ['\\', '\\']);
    ReplaceOne(c, rest, '\\', ['\\', '\\']);
    ReplaceOne(c, r1, '\'', ['\\', '\'']);
    ReplaceOne(c, Replace(r1, '\'', ['\\', '\'']), '"', ['\\', '"']);
  }

  /** The three replacements escape each character once: no inserted backslash is escaped again. */
  lemma {:induction false} EscapeIsCharwise(value: string)
    ensures JavaEscape(value) == Escaped(value)
  {
    if value != "" {
      var c, rest := value[0], value[1..];
      assert value == [c] + rest;
      EscapeIsCharwise(rest);
      if c == '\\' {
        EscapeBackslash(rest);
      } else if c == '\'' {
        EscapeApostrophe(rest);
      } else {
        EscapeOther(c, rest);
      }
    }
  }

  /** The loop of `_java_unescape`. */
  function Unescaped(text: string): string {
    if text == "" then ""
    else if text[0] == '\\' && |text| > 1 then [text[1]] + Unescaped(text[2..])
    else [text[0]] + Unescaped(text[1..])
  }

  function Unquoted(text: string): string {
    if |text| >= 2 && text[0] == '"' && text[|text| - 1] == '"' then text[1..|text| - 1] else text
  }

  /** `_java_unescape`. */
  function JavaUnescape(text: string): string {
    Unescaped(Unquoted(text))
  }

  lemma UnescapedStep(t: string, i: nat)
    requires i < |t|
    ensures Unescaped(t[i..]) == if t[i] == '\\' && i + 1 < |t| then [t[i + 1]] + Unescaped(t[i + 2..])
                                 else [t[i]] + Unescaped(t[i + 1..])
  {
  }

  lemma UnescapedMore(t: string, i: nat, r: string)
    requires i < |t|
    ensures r + Unescaped(t[i..]) == if t[i] == '\\' && i + 1 < |t| then (r + [t[i + 1]]) + Unescaped(t[i + 2..])
                                     else (r + [t[i]]) + Unescaped(t[i + 1..])
  {
    UnescapedStep(t, i);
    if t[i] == '\\' && i + 1 < |t| {
      Associate(r, [t[i + 1]], Unescaped(t[i + 2..]));
    } else {
      Associate(r, [t[i]], Unescaped(t[i + 1..]));
    }
  }

  lemma Associate(a: string, b: string, c: string)
    ensures a + (b + c) == (a + b) + c
  {
  }

  method JavaUnescapeLoop(text: string) returns (r: string)
    ensures r == JavaUnescape(text)
  {
    var t := Unquoted(text);
    var i := 0;
    r := "";
    assert t[0..] == t && r + Unescaped(t) == Unescaped(t);
    while i < |t|
      invariant 0 <= i <= |t|
      invariant r + Unescaped(t[i..]) == Unescaped(t)
    {
      var c := if t[i] == '\\' && i + 1 < |t| then t[i + 1] else t[i];
      var next := if t[i] == '\\' && i + 1 < |t| then i + 2 else i + 1;
      UnescapedMore(t, i, r);
      r, i := r + [c], next;
    }
    assert t[i..] == "" && r + "" == r;
  }

  lemma {:induction false} UnescapeEscaped(value: string)
    ensures Unescaped(Escaped(value)) == value
  {
    if value != "" {
      UnescapeEscaped(value[1..]);
      var rest := Escaped(value[1..]);
      assert ([value[0]] + rest)[1..] == rest && (['\\', value[0]] + rest)[2..] == rest;
      assert [value[0]] + value[1..] == value;
    }
  }

  // ---------- printing a chain ----------

  /** `str(value).lower()` for a boolean, a quoted Java string otherwise. */
  function Argument(c: Condition): string
    requires Typed(c)
  {
    if IsBool(c.attribute) then (if c.value.on then "true" else "false")
    else ['"'] + JavaEscape(c.value.text) + ['"']
  }

  /** The calls of the chain; `None` is the InvalidSmartLocator for a condition
      that UiAutomator has no method for. */
  function Calls(cs: seq<Condition>): Option<string>
    requires AllTyped(cs)
  {
    if cs == [] then Some("")
    else
      var m :- Method(cs[0].attribute, cs[0].operator);
      var rest :- Calls(cs[1..]);
      Some(("." + m) + (("(" + Argument(cs[0]) + ")") + rest))
  }

  /** `_build_uiautomator`. */
  function BuildUi(cs: seq<Condition>): Option<string>
    requires AllTyped(cs)
  {
    var calls :- Calls(cs);
    Some(PREFIX + calls)
  }

  // ---------- parsing a chain ----------

  function Lower(s: string): (r: string)
    ensures |r| == |s|
  {
    if s == "" then "" else [if 'A' <= s[0] <= 'Z' then s[0] - 'A' + 'a' else s[0]] + Lower(s[1..])
  }

  /** What a call of method `name` with the text `argText` in its brackets stands for. */
  function CallQuery(name: string, argText: string): Option<Query> {
    var (key, op) :- MethodMeaning(name);
    var arg := Strip(argText);
    Some(Query(key, op, if IsBoolKey(key) then Flag(Lower(arg) == "true") else Str(JavaUnescape(arg))))
  }

  /** How one call is read: `CallQuery`, kept abstract while the chain is scanned. */
  type Reader = (string, string) -> Option<Query>

  predicate NotOpen(c: char) {
    c != '('
  }

  /** One call `.method(arg)` at index `i` of the chain, and the index after it. */
  function ParseCall(read: Reader, rest: string, i: nat): (r: Option<(Query, nat)>)
    requires i < |rest|
    ensures r.Some? ==> i < r.value.1 <= |rest|
  {
    var open := i + TakeWhile(rest[i..], NotOpen);
    if rest[i] != '.' || open == |rest| then None
    else FinishCall(read, rest[i + 1..open], MatchBracketed(rest, open, JAVA_CALL))
  }

  /** The call of method `name` with the bracketed argument that was found. */
  function FinishCall(read: Reader, name: string, arg: Option<(string, nat)>): (r: Option<(Query, nat)>)
    ensures r.Some? ==> arg.Some? && r.value.1 == arg.value.1
  {
    var (text, end) :- arg;
    var q :- read(name, text);
    Some((q, end))
  }

  function ParseCalls(read: Reader, rest: string, i: nat): Option<seq<Query>>
    requires i <= |rest|
    decreases |rest| - i
  {
    if i == |rest| then Some([])
    else
      var (q, end) :- ParseCall(read, rest, i);
      var more :- ParseCalls(read, rest, end);
      Some([q] + more)
  }

  /** `_parse_uiautomator_query`; `None` stands for the ValueError. */
  function ParseUi(value: string): Option<seq<Query>> {
    var rest :- Expect(value, PREFIX);
    ParseCalls(CallQuery, rest, 0)
  }

  method ParseCallLoop(read: Reader, rest: string, i: nat) returns (r: Option<(Query, nat)>)
    requires i < |rest|
    ensures r == ParseCall(read, rest, i)
  {
    if rest[i] != '.' {
      return None;
    }
    var open := i + TakeWhile(rest[i..], NotOpen);
    if open == |rest| {
      return None;
    }
    var arg := MatchBracketedLoop(rest, open, JAVA_CALL);
    r := FinishCall(read, rest[i + 1..open], arg);
  }

  method ParseUiLoop(value: string) returns (r: Option<seq<Query>>)
    ensures r == ParseUi(value)
  {
    if !(PREFIX <= value) {
      return None;
    }
    r := ParseCallsLoop(CallQuery, value[|PREFIX|..]);
  }

  method ParseCallsLoop(read: Reader, rest: string) returns (r: Option<seq<Query>>)
    ensures r == ParseCalls(read, rest, 0)
  {
    var qs: seq<Query> := [];
    var i := 0;
    ghost var all := ParseCalls(read, rest, 0);
    PrependStart(all);
    while i < |rest|
      invariant 0 <= i <= |rest|
      invariant all == Prepend(qs, ParseCalls(read, rest, i))
    {
      var call := ParseCallLoop(read, rest, i);
      if call.None? {
        return None;
      }
      PrependNext(qs, call.value.0, ParseCalls(read, rest, call.value.1));
      qs, i := qs + [call.value.0], call.value.1;
    }
    assert qs + [] == qs;
    r := Some(qs);
  }

  lemma PrependStart(all: Option<seq<Query>>)
    ensures Prepend([], all) == all
  {
    if all.Some? {
      assert [] + all.value == all.value;
    }
  }

  ghost function Prepend(done: seq<Query>, more: Option<seq<Query>>): Option<seq<Query>> {
    if more.None? then None else Some(done + more.value)
  }

  lemma PrependNext(done: seq<Query>, q: Query, more: Option<seq<Query>>)
    ensures Prepend(done, if more.None? then None else Some([q] + more.value)) == Prepend(done + [q], more)
  {
    if more.Some? {
      assert done + ([q] + more.value) == done + [q] + more.value;
    }
  }

  // ---------- the round trip ----------

  lemma {:induction false} ScanEscaped(value: string, rest: string, pos: nat, depth: int, start: nat)
    requires start <= pos
    ensures Scan(Escaped(value) + ['"'] + rest, pos, depth, Some('"'), start, JAVA_CALL)
         == Scan(rest, pos + |Escaped(value)| + 1, depth, None, start, JAVA_CALL)
  {
    var s := Escaped(value) + ['"'] + rest;
    if value == "" {
      assert s[1..] == rest;
    } else {
      var more := Escaped(value[1..]) + ['"'] + rest;
      if Special(value[0]) {
        assert s[2..] == more;
        ScanEscaped(value[1..], rest, pos + 2, depth, start);
      } else {
        assert s[1..] == more;
        ScanEscaped(value[1..], rest, pos + 1, depth, start);
      }
    }
  }

  lemma ScanString(value: string, rest: string, pos: nat, depth: int, start: nat)
    requires start <= pos
    ensures var arg := ['"'] + Escaped(value) + ['"'];
            Scan(arg + rest, pos, depth, None, start, JAVA_CALL) == Scan(rest, pos + |arg|, depth, None, start, JAVA_CALL)
  {
    var s := ['"'] + Escaped(value) + ['"'] + rest;
    assert s[0] == '"' && s[1..] == Escaped(value) + ['"'] + rest;
    ScanEscaped(value, rest, pos + 1, depth, start);
  }

  lemma StringArgument(pre: string, value: string, post: string)
    ensures var arg := ['"'] + Escaped(value) + ['"'];
            MatchBracketed(pre + ("(" + arg + ")" + post), |pre|, JAVA_CALL) == Some((arg, |pre| + |arg| + 2))
  {
    var arg := ['"'] + Escaped(value) + ['"'];
    ScanString(value, ")" + post, |pre| + 1, 1, |pre| + 1);
    ScanInside("(", arg, ")", post, |pre|, JAVA_CALL);
    MatchInside(pre, "(", arg, ")", post, JAVA_CALL);
  }

  lemma {:induction false} ScanWord(word: string, rest: string, pos: nat, depth: int, start: nat)
    requires start <= pos && Word(word)
    ensures Scan(word + rest, pos, depth, None, start, JAVA_CALL) == Scan(rest, pos + |word|, depth, None, start, JAVA_CALL)
  {
    if word == "" {
      assert word + rest == rest;
    } else {
      assert (word + rest)[1..] == word[1..] + rest;
      ScanWord(word[1..], rest, pos + 1, depth, start);
    }
  }

  lemma WordArgument(pre: string, arg: string, post: string)
    requires Word(arg)
    ensures MatchBracketed(pre + ("(" + arg + ")" + post), |pre|, JAVA_CALL) == Some((arg, |pre| + |arg| + 2))
  {
    ScanWord(arg, ")" + post, |pre| + 1, 1, |pre| + 1);
    ScanInside("(", arg, ")", post, |pre|, JAVA_CALL);
    MatchInside(pre, "(", arg, ")", post, JAVA_CALL);
  }

  /** A condition UiAutomator can express, as it is meant to come back. */
  function MeantUi(c: Condition): Query {
    Query(NodeKey(c.attribute), c.operator, c.value)
  }

  lemma MethodSpan(pre: string, m: string, tail: string)
    requires Word(m)
    ensures var rest := pre + (("." + m) + (("(" + tail)));
            |pre| < |rest| && rest[|pre|] == '.' && |pre| + TakeWhile(rest[|pre|..], NotOpen) == |pre| + 1 + |m|
            && rest[|pre| + 1..|pre| + 1 + |m|] == m
  {
    var rest := pre + (("." + m) + ("(" + tail));
    assert rest[|pre|..] == ("." + m) + ("(" + tail);
    TakeWhileExact("." + m, "(" + tail, NotOpen);
    assert rest[|pre| + 1..|pre| + 1 + |m|] == m;
  }

  lemma FlagText(on: bool)
    ensures var t := if on then "true" else "false";
            Word(t) && Strip(t) == t && (Lower(t) == "true" <==> on)
  {
    var t := if on then "true" else "false";
    StripTrimmed(t);
    LowerFixed(t);
  }

  lemma {:induction false} LowerFixed(s: string)
    requires forall i :: 0 <= i < |s| ==> !('A' <= s[i] <= 'Z')
    ensures Lower(s) == s
  {
    if s != "" {
      LowerFixed(s[1..]);
    }
  }

  lemma QuotedArgument(value: string)
    ensures var t := ['"'] + Escaped(value) + ['"']; Strip(t) == t && JavaUnescape(t) == value
  {
    var t := ['"'] + Escaped(value) + ['"'];
    StripTrimmed(t);
    assert t[1..|t| - 1] == Escaped(value);
    UnescapeEscaped(value);
  }

  lemma ArgumentMeant(c: Condition)
    requires Typed(c) && Method(c.attribute, c.operator).Some?
    ensures CallQuery(Method(c.attribute, c.operator).value, Argument(c)) == Some(MeantUi(c))
  {
    KeyKind(c.attribute);
    MethodBack(c.attribute, c.operator);
    var name := Method(c.attribute, c.operator).value;
    if IsBool(c.attribute) {
      FlagText(c.value.on);
      ReadsAs(name, NodeKey(c.attribute), c.operator, Argument(c));
    } else {
      EscapeIsCharwise(c.value.text);
      QuotedArgument(c.value.text);
      ReadsAs(name, NodeKey(c.attribute), c.operator, Argument(c));
    }
  }

  lemma ReadsAs(name: string, key: string, op: Operator, arg: string)
    requires MethodMeaning(name) == Some((key, op)) && Strip(arg) == arg
    ensures CallQuery(name, arg)
         == Some(Query(key, op, if IsBoolKey(key) then Flag(Lower(arg) == "true") else Str(JavaUnescape(arg))))
  {
  }

  lemma KeyKind(a: Attribute)
    ensures IsBoolKey(NodeKey(a)) <==> IsBool(a)
  {
    NamesAgree(a);
  }

  lemma ArgumentBracketed(c: Condition, pre: string, post: string)
    requires Typed(c)
    ensures MatchBracketed(pre + ("(" + Argument(c) + ")" + post), |pre|, JAVA_CALL)
         == Some((Argument(c), |pre| + |Argument(c)| + 2))
  {
    if IsBool(c.attribute) {
      FlagText(c.value.on);
      WordArgument(pre, Argument(c), post);
    } else {
      EscapeIsCharwise(c.value.text);
      StringArgument(pre, c.value.text, post);
    }
  }

  /** One printed call, anywhere in a chain. */
  lemma CallRoundTrip(read: Reader, c: Condition, pre: string, post: string)
    requires Typed(c) && Method(c.attribute, c.operator).Some?
    requires read(Method(c.attribute, c.operator).value, Argument(c)) == Some(MeantUi(c))
    ensures var call := ("." + Method(c.attribute, c.operator).value) + ("(" + Argument(c) + ")");
            ParseCall(read, pre + (call + post), |pre|) == Some((MeantUi(c), |pre| + |call|))
  {
    var m := Method(c.attribute, c.operator).value;
    MethodIsWord(c.attribute, c.operator);
    ArgumentBracketed(c, pre + ("." + m), post);
    CallAt(read, m, Argument(c), MeantUi(c), pre, post);
  }

  lemma CallAt(read: Reader, m: string, arg: string, q: Query, pre: string, post: string)
    requires Word(m) && read(m, arg) == Some(q)
    requires var at := pre + ("." + m);
             MatchBracketed(at + ("(" + arg + ")" + post), |at|, JAVA_CALL) == Some((arg, |at| + |arg| + 2))
    ensures var call := ("." + m) + ("(" + arg + ")");
            ParseCall(read, pre + (call + post), |pre|) == Some((q, |pre| + |call|))
  {
    CallShape(pre, m, arg, post);
    ParseCallIs(read, pre + ((("." + m) + ("(" + arg + ")")) + post), |pre|, m, arg, |pre| + |m| + |arg| + 3, q);
  }

  lemma CallShape(pre: string, m: string, arg: string, post: string)
    requires Word(m)
    ensures var rest, n := pre + ((("." + m) + ("(" + arg + ")")) + post), |pre|;
            && n + |m| + 1 < |rest| && rest[n] == '.' && rest[n + 1..n + 1 + |m|] == m
            && n + TakeWhile(rest[n..], NotOpen) == n + 1 + |m|
            && rest == (pre + ("." + m)) + ("(" + arg + ")" + post)
  {
    MethodSpan(pre, m, arg + ")" + post);
    RegroupCall(pre, "." + m, "(", arg, ")", post);
  }

  lemma ParseCallIs(read: Reader, rest: string, i: nat, name: string, arg: string, end: nat, q: Query)
    requires i + |name| + 1 < |rest| && rest[i] == '.' && rest[i + 1..i + 1 + |name|] == name
    requires i + TakeWhile(rest[i..], NotOpen) == i + 1 + |name|
    requires MatchBracketed(rest, i + 1 + |name|, JAVA_CALL) == Some((arg, end))
    requires read(name, arg) == Some(q)
    ensures ParseCall(read, rest, i) == Some((q, end))
  {
  }

  lemma RegroupCall(pre: string, m: string, open: string, arg: string, close: string, post: string)
    ensures pre + ((m + (open + arg + close)) + post) == pre + (m + (open + (arg + close + post)))
    ensures pre + ((m + (open + arg + close)) + post) == (pre + m) + (open + arg + close + post)
  {
  }

  function MeantUiAll(cs: seq<Condition>): seq<Query> {
    if cs == [] then [] else [MeantUi(cs[0])] + MeantUiAll(cs[1..])
  }

  lemma {:induction false} CallsRoundTrip(read: Reader, cs: seq<Condition>, pre: string)
    requires AllTyped(cs) && Calls(cs).Some?
    requires forall i :: 0 <= i < |cs| && Method(cs[i].attribute, cs[i].operator).Some? ==>
               read(Method(cs[i].attribute, cs[i].operator).value, Argument(cs[i])) == Some(MeantUi(cs[i]))
    ensures ParseCalls(read, pre + Calls(cs).value, |pre|) == Some(MeantUiAll(cs))
    decreases |cs|
  {
    if cs != [] {
      var m, arg := "." + Method(cs[0].attribute, cs[0].operator).value, "(" + Argument(cs[0]) + ")";
      var post := Calls(cs[1..]).value;
      CallRoundTrip(read, cs[0], pre, post);
      CallsRoundTrip(read, cs[1..], pre + (m + arg));
      RegroupCalls(pre, m, arg, post);
    }
  }

  lemma RegroupCalls(pre: string, m: string, arg: string, post: string)
    ensures pre + (m + (arg + post)) == pre + ((m + arg) + post) == (pre + (m + arg)) + post
  {
  }

  /** A printed chain is parsed back as the conditions it was printed from,
      whatever quotes, backslashes or parentheses their values hold. */
  lemma UiRoundTrip(cs: seq<Condition>)
    requires AllTyped(cs) && BuildUi(cs).Some?
    ensures ParseUi(BuildUi(cs).value) == Some(MeantUiAll(cs))
  {
    var calls := Calls(cs).value;
    ExpectPrefix(PREFIX, calls);
    forall i | 0 <= i < |cs| && Method(cs[i].attribute, cs[i].operator).Some?
      ensures CallQuery(Method(cs[i].attribute, cs[i].operator).value, Argument(cs[i])) == Some(MeantUi(cs[i]))
    {
      ArgumentMeant(cs[i]);
    }
    CallsRoundTrip(CallQuery, cs, "");
    assert "" + calls == calls;
  }
}
