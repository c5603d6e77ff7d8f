/** Whole XPath selectors: the printers `_build_xpath`, `_xpath_axis_segment` and
    `_build_relative_xpath` (agent/executor/smart_locator.py) and the parser
    `_parse_xpath_query` (agent/executor/driver.py). */
module XPathQuery {
  import opened Text
  import opened Scanner
  import opened Locator
  import opened XPathPredicate

  const AND: string := " and "

  // ---------- printing ----------

  /** The printed predicates; `None` when one of them is a regex. */
  function Predicates(cs: seq<Condition>): Option<seq<string>>
    requires AllTyped(cs)
  {
    if cs == [] then Some([])
    else
      var p :- Predicate(cs[0]);
      var ps :- Predicates(cs[1..]);
      Some([p] + ps)
  }

  function AxisName(a: Axis): string {
    match a
    case Ancestor => "ancestor"
    case Parent => "parent"
    case Child => "child"
    case Descendant => "descendant"
    case FollowingSibling => "following-sibling"
    case PrecedingSibling => "preceding-sibling"
  }

  function Digits(n: nat): string {
    if n < 10 then [DigitChar(n)] else Digits(n / 10) + [DigitChar(n % 10)]
  }

  function DigitChar(d: nat): char
    requires d < 10
  {
    ['0', '1', '2', '3', '4', '5', '6', '7', '8', '9'][d]
  }

  function Step(axis: string, depth: Option<nat>): string {
    "/" + axis + "::*" + (if depth.Some? then "[" + Digits(depth.value) + "]" else "")
  }

  /** `_xpath_axis_segment`: a parent `n >= 2` levels up is printed as the n-th ancestor. */
  function SegmentText(seg: Segment): string {
    match seg.axis
    case Ancestor => if seg.depth.Some? then Step("ancestor", seg.depth) else "/ancestor::*[None]"
    case Parent =>
      if seg.depth.Some? && seg.depth.value >= 2 then Step("ancestor", seg.depth)
      else Step("parent", if seg.depth == Some(0) then None else seg.depth)
    case _ => Step(AxisName(seg.axis), None)
  }

  function PathText(path: seq<Segment>): string {
    if path == [] then "" else SegmentText(path[0]) + PathText(path[1..])
  }

  function Bracketed(preds: seq<string>): string {
    "[" + Join(preds, AND) + "]"
  }

  /** `_build_xpath`. */
  function BuildXPath(cs: seq<Condition>): Option<string>
    requires AllTyped(cs)
  {
    var ps :- Predicates(cs);
    Some("//*" + Bracketed(ps))
  }

  /** `_build_relative_xpath`. */
  function BuildRelativeXPath(alt: Alternative): Option<string>
    requires AllTyped(alt.anchor) && AllTyped(alt.target)
  {
    var anchor :- Predicates(alt.anchor);
    var target :- Predicates(alt.target);
    Some("//*" + (Bracketed(anchor) + (PathText(alt.path) + (if alt.target == [] then "" else Bracketed(target)))))
  }

  // ---------- parsing ----------

  datatype XPath = XPath(root: seq<Query>, steps: seq<(string, Option<nat>)>, target: seq<Query>)

  function DecodeAll(preds: seq<string>): Option<seq<Query>> {
    if preds == [] then Some([])
    else
      var q :- Decode(preds[0]);
      var qs :- DecodeAll(preds[1..]);
      Some([q] + qs)
  }

  /** A bracketed list of predicates and the text after it. */
  function ParseBracket(s: string): Option<(seq<Query>, string)> {
    var (inner, end) :- MatchBracketed(s, 0, SQUARE);
    var qs :- DecodeAll(SplitTopLevel(inner, AND));
    Some((qs, s[end..]))
  }

  predicate IsAxisChar(c: char) {
    'a' <= c <= 'z' || c == '-'
  }

  predicate IsDigit(c: char) {
    '0' <= c <= '9'
  }

  /** `int(...)` of a digit string. */
  function Number(s: string): nat
    requires forall c <- s :: IsDigit(c)
  {
    if s == "" then 0
    else
      assert IsDigit(s[|s| - 1]);
      Number(s[..|s| - 1]) * 10 + (s[|s| - 1] as int - '0' as int)
  }

  /** One match of `/([a-z-]+)::\*(\[\d+\])?` and the text after it. */
  function ParseStep(s: string): (r: Option<(string, Option<nat>, string)>)
    ensures r.Some? ==> |r.value.2| < |s|
  {
    var r1 :- Expect(s, "/");
    var n := TakeWhile(r1, IsAxisChar);
    if n == 0 then None
    else
      var r2 :- Expect(r1[n..], "::*");
      Some((r1[..n], ParseDepth(r2).0, ParseDepth(r2).1))
  }

  function ParseDepth(s: string): (r: (Option<nat>, string))
    ensures |r.1| <= |s|
  {
    if s != "" && s[0] == '[' then
      var m := TakeWhile(s[1..], IsDigit);
      if m > 0 && m + 1 < |s| && s[m + 1] == ']' then (Some(Number(s[1..m + 1])), s[m + 2..]) else (None, s)
    else (None, s)
  }

  /** The steps at the front of `s`, and what follows them. */
  function ParseSteps(s: string): Option<(seq<(string, Option<nat>)>, string)>
    decreases |s|
  {
    if s != "" && s[0] == '/' then
      var (axis, depth, rest) :- ParseStep(s);
      var (steps, end) :- ParseSteps(rest);
      Some(([(axis, depth)] + steps, end))
    else Some(([], s))
  }

  function ParseTarget(s: string): Option<seq<Query>> {
    if s == "" then Some([])
    else if s[0] == '[' then
      var (qs, rest) :- ParseBracket(s);
      if rest == "" then Some(qs) else None
    else None
  }

  /** `_parse_xpath_query`; `None` stands for the ValueError. */
  function ParseXPath(value: string): Option<XPath> {
    if "./*" <= value then
      var (qs, rest) :- ParseBracket(value[3..]);
      if rest == "" then Some(XPath([], [], qs)) else None
    else
      var rest :- Expect(value, "//*");
      var (root, afterRoot) :- ParseBracket(rest);
      var (steps, afterSteps) :- ParseSteps(afterRoot);
      var target :- ParseTarget(afterSteps);
      Some(XPath(root, steps, target))
  }

  /** `all` is `done` followed by what is still to come, or fails with it. */
  predicate Follows<T(==)>(all: Option<seq<T>>, done: seq<T>, more: Option<seq<T>>) {
    if more.None? then all.None? else all == Some(done + more.value)
  }

  lemma FollowsNext<T>(all: Option<seq<T>>, done: seq<T>, next: T, more: Option<seq<T>>)
    requires Follows(all, done, if more.None? then None else Some([next] + more.value))
    ensures Follows(all, done + [next], more)
  {
    if more.Some? {
      assert done + ([next] + more.value) == done + [next] + more.value;
    }
  }

  method DecodeEach(preds: seq<string>) returns (r: Option<seq<Query>>)
    ensures r == DecodeAll(preds)
  {
    var qs: seq<Query> := [];
    assert preds[0..] == preds;
    FollowsStart(DecodeAll(preds));
    for i := 0 to |preds|
      invariant Follows(DecodeAll(preds), qs, DecodeAll(preds[i..]))
    {
      assert preds[i..][1..] == preds[i + 1..];
      var q := Decode(preds[i]);
      if q.None? {
        return None;
      }
      FollowsNext(DecodeAll(preds), qs, q.value, DecodeAll(preds[i + 1..]));
      qs := qs + [q.value];
    }
    FollowsEnd(qs);
    r := Some(qs);
  }

  lemma FollowsStart<T>(all: Option<seq<T>>)
    ensures Follows(all, [], all)
  {
    if all.Some? {
      assert [] + all.value == all.value;
    }
  }

  lemma FollowsEnd<T>(done: seq<T>)
    ensures done + [] == done
  {
  }

  method ParseBracketLoop(s: string) returns (r: Option<(seq<Query>, string)>)
    ensures r == ParseBracket(s)
  {
    var m := MatchBracketedLoop(s, 0, SQUARE);
    if m.None? {
      return None;
    }
    var preds := SplitTopLevelLoop(m.value.0, AND);
    var qs := DecodeEach(preds);
    if qs.None? {
      return None;
    }
    r := Some((qs.value, s[m.value.1..]));
  }

  ghost function Steps(r: Option<(seq<(string, Option<nat>)>, string)>): Option<seq<(string, Option<nat>)>> {
    if r.None? then None else Some(r.value.0)
  }

  ghost function Rest(r: Option<(seq<(string, Option<nat>)>, string)>): Option<string> {
    if r.None? then None else Some(r.value.1)
  }

  method ParseXPathLoop(value: string) returns (r: Option<XPath>)
    ensures r == ParseXPath(value)
  {
    if "./*" <= value {
      var only := ParseBracketLoop(value[3..]);
      if only.None? || only.value.1 != "" {
        return None;
      }
      return Some(XPath([], [], only.value.0));
    }
    if !("//*" <= value) {
      return None;
    }
    var root := ParseBracketLoop(value[3..]);
    if root.None? {
      return None;
    }
    var rest := root.value.1;
    var steps: seq<(string, Option<nat>)> := [];
    ghost var all := ParseSteps(rest);
    FollowsStart(Steps(all));
    while rest != "" && rest[0] == '/'
      invariant Follows(Steps(all), steps, Steps(ParseSteps(rest)))
      invariant Rest(all) == Rest(ParseSteps(rest))
      decreases |rest|
    {
      var step := ParseStep(rest);
      if step.None? {
        return None;
      }
      var (axis, depth, after) := step.value;
      FollowsNext(Steps(all), steps, (axis, depth), Steps(ParseSteps(after)));
      steps, rest := steps + [(axis, depth)], after;
    }
    FollowsEnd(steps);
    assert all == Some((steps, rest));
    if rest == "" {
      return Some(XPath(root.value.0, steps, []));
    }
    if rest[0] != '[' {
      return None;
    }
    var target := ParseBracketLoop(rest);
    if target.None? || target.value.1 != "" {
      return None;
    }
    r := Some(XPath(root.value.0, steps, target.value.0));
  }
}
