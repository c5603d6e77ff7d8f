/** Validating a raw alternative and choosing its selector
    (agent/executor/smart_locator.py). */
module Selector {
  import opened Text
  import opened Locator
  import XPathQuery
  import XPathRoundTrip
  import UiSelector

  /** A decoded JSON value. `JOther` is any value of another type. */
  datatype Json = JNull | JBool(b: bool) | JInt(n: int) | JStr(s: string)
                | JList(items: seq<Json>) | JDict(fields: map<string, Json>) | JOther

  /** `d.get(key)`. */
  function Get(d: map<string, Json>, key: string): Json {
    if key in d then d[key] else JNull
  }

  function AttributeOf(name: string): Option<Attribute> {
    match name
    case "text" => Some(TextAttr)
    case "content_desc" => Some(ContentDesc)
    case "resource_id" => Some(ResourceId)
    case "class_name" => Some(ClassName)
    case "package" => Some(Package)
    case "clickable" => Some(Clickable)
    case "enabled" => Some(Enabled)
    case "selected" => Some(Selected)
    case "displayed" => Some(Displayed)
    case _ => None
  }

  function OperatorOf(name: string): Option<Operator> {
    match name
    case "equals" => Some(Equals)
    case "contains" => Some(Contains)
    case "starts_with" => Some(StartsWith)
    case "ends_with" => Some(EndsWith)
    case "regex" => Some(Regex)
    case _ => None
  }

  function AxisOf(name: string): Option<Axis> {
    match name
    case "ancestor" => Some(Ancestor)
    case "parent" => Some(Parent)
    case "child" => Some(Child)
    case "descendant" => Some(Descendant)
    case "following_sibling" => Some(FollowingSibling)
    case "preceding_sibling" => Some(PrecedingSibling)
    case _ => None
  }

  function Str(j: Json): Option<string> {
    if j.JStr? then Some(j.s) else None
  }

  /** `_validate_condition`; `None` is the InvalidSmartLocator. Whether a regex
      compiles is a parameter. */
  function ValidateCondition(j: Json, compiles: string -> bool): Option<Condition> {
    if !j.JDict? then None
    else
      var name :- Str(Get(j.fields, "attribute"));
      var attribute :- AttributeOf(name);
      var opName :- Str(Get(j.fields, "operator"));
      var op :- OperatorOf(opName);
      var value := Get(j.fields, "value");
      if IsBool(attribute) then
        if op.Equals? && value.JBool? then Some(Condition(attribute, op, Flag(value.b))) else None
      else if !value.JStr? || value.s == "" || |value.s| > MAX_VALUE_LENGTH then None
      else if op.Regex? && !compiles(value.s) then None
      else Some(Condition(attribute, op, Locator.Str(value.s)))
  }

  function ValidateConditions(js: seq<Json>, compiles: string -> bool): (r: Option<seq<Condition>>)
    ensures r.Some? ==> |r.value| == |js|
  {
    if js == [] then Some([])
    else
      var c :- ValidateCondition(js[0], compiles);
      var cs :- ValidateConditions(js[1..], compiles);
      Some([c] + cs)
  }

  /** `_validate_path_segment`. */
  function ValidateSegment(j: Json): Option<Segment> {
    if !j.JDict? then None
    else
      var name :- Str(Get(j.fields, "axis"));
      var axis :- AxisOf(name);
      var depth := Get(j.fields, "depth");
      if axis.Ancestor? || axis.Parent? then
        if depth.JInt? && 1 <= depth.n <= MAX_DEPTH then Some(Segment(axis, Some(depth.n))) else None
      else if depth.JNull? then Some(Segment(axis, None))
      else None
  }

  function ValidateSegments(js: seq<Json>): (r: Option<seq<Segment>>)
    ensures r.Some? ==> |r.value| == |js|
  {
    if js == [] then Some([])
    else
      var s :- ValidateSegment(js[0]);
      var ss :- ValidateSegments(js[1..]);
      Some([s] + ss)
  }

  predicate HasRegex(cs: seq<Condition>) {
    exists c <- cs :: c.operator.Regex?
  }

  /** `_uiautomator_expressible`. */
  predicate Expressible(c: Condition) {
    match c.attribute
    case Displayed => false
    case TextAttr => !c.operator.EndsWith?
    case ContentDesc => !c.operator.EndsWith?
    case ResourceId => c.operator.Equals? || c.operator.Regex?
    case ClassName => c.operator.Equals? || c.operator.Regex?
    case Package => c.operator.Equals? || c.operator.Regex?
    case _ => c.operator.Equals?
  }

  predicate NeedsXPath(cs: seq<Condition>) {
    exists c <- cs :: c.operator.EndsWith? || !Expressible(c)
  }

  /** `_validate_alternative`. */
  function ValidateAlternative(j: Json, compiles: string -> bool): Option<Alternative> {
    if !j.JDict? then None
    else
      var rawTarget, rawAnchor, rawPath := Get(j.fields, "target"), Get(j.fields, "anchor"), Get(j.fields, "path");
      if !rawTarget.JList? || !(1 <= |rawTarget.items| <= MAX_CONDITIONS) then None
      else
        var target :- ValidateConditions(rawTarget.items, compiles);
        var anchor :-
          if rawAnchor.JNull? then Some([])
          else if !rawAnchor.JList? || !(1 <= |rawAnchor.items| <= MAX_CONDITIONS) then None
          else ValidateConditions(rawAnchor.items, compiles);
        var path :-
          if rawPath.JNull? then Some([])
          else if !rawPath.JList? || !(1 <= |rawPath.items| <= MAX_PATH_SEGMENTS) || anchor == [] then None
          else ValidateSegments(rawPath.items);
        if anchor != [] || path != [] then
          if HasRegex(target + anchor) then None else Some(Alternative(anchor, path, target))
        else if HasRegex(target) && NeedsXPath(target) then None
        else Some(Alternative(anchor, path, target))
  }

  // ---------- what validation accepts ----------

  predicate ValidCondition(c: Condition, compiles: string -> bool) {
    && Typed(c)
    && (c.value.Str? ==> 1 <= |c.value.text| <= MAX_VALUE_LENGTH && (c.operator.Regex? ==> compiles(c.value.text)))
  }

  predicate AllValid(cs: seq<Condition>, compiles: string -> bool) {
    forall i :: 0 <= i < |cs| ==> ValidCondition(cs[i], compiles)
  }

  predicate ValidPath(path: seq<Segment>) {
    forall i :: 0 <= i < |path| ==> XPathRoundTrip.ValidSegment(path[i])
  }

  predicate ValidAlternative(alt: Alternative, compiles: string -> bool) {
    && 1 <= |alt.target| <= MAX_CONDITIONS && AllValid(alt.target, compiles)
    && |alt.anchor| <= MAX_CONDITIONS && AllValid(alt.anchor, compiles)
    && |alt.path| <= MAX_PATH_SEGMENTS && ValidPath(alt.path)
    && (alt.path != [] ==> alt.anchor != [])
    && (if alt.anchor != [] then !HasRegex(alt.target + alt.anchor) else !(HasRegex(alt.target) && NeedsXPath(alt.target)))
  }

  lemma {:induction false} ConditionsValid(js: seq<Json>, compiles: string -> bool)
    requires ValidateConditions(js, compiles).Some?
    ensures AllValid(ValidateConditions(js, compiles).value, compiles)
  {
    if js != [] {
      ConditionsValid(js[1..], compiles);
    }
  }

  lemma {:induction false} SegmentsValid(js: seq<Json>)
    requires ValidateSegments(js).Some?
    ensures ValidPath(ValidateSegments(js).value)
  {
    if js != [] {
      SegmentsValid(js[1..]);
    }
  }

  /** Whatever the raw value, an alternative that passes validation is valid. */
  lemma ValidationSound(j: Json, compiles: string -> bool)
    requires ValidateAlternative(j, compiles).Some?
    ensures ValidAlternative(ValidateAlternative(j, compiles).value, compiles)
  {
    var rawAnchor, rawPath := Get(j.fields, "anchor"), Get(j.fields, "path");
    ConditionsValid(Get(j.fields, "target").items, compiles);
    if rawAnchor.JList? {
      ConditionsValid(rawAnchor.items, compiles);
    }
    if rawPath.JList? {
      SegmentsValid(rawPath.items);
    }
  }

  // ---------- every valid alternative can be written down ----------

  function AttributeName(a: Attribute): string {
    NodeKey(a)
  }

  function OperatorName(op: Operator): string {
    match op
    case Equals => "equals"
    case Contains => "contains"
    case StartsWith => "starts_with"
    case EndsWith => "ends_with"
    case Regex => "regex"
  }

  function RawAxisName(a: Axis): string {
    match a
    case Ancestor => "ancestor"
    case Parent => "parent"
    case Child => "child"
    case Descendant => "descendant"
    case FollowingSibling => "following_sibling"
    case PrecedingSibling => "preceding_sibling"
  }

  function RawCondition(c: Condition): Json {
    JDict(map["attribute" := JStr(AttributeName(c.attribute)), "operator" := JStr(OperatorName(c.operator)),
              "value" := if c.value.Flag? then JBool(c.value.on) else JStr(c.value.text)])
  }

  function RawSegment(s: Segment): Json {
    JDict(map["axis" := JStr(RawAxisName(s.axis)), "depth" := if s.depth.Some? then JInt(s.depth.value) else JNull])
  }

  function RawConditions(cs: seq<Condition>): (js: seq<Json>)
    ensures |js| == |cs|
  {
    if cs == [] then [] else [RawCondition(cs[0])] + RawConditions(cs[1..])
  }

  function RawSegments(ss: seq<Segment>): (js: seq<Json>)
    ensures |js| == |ss|
  {
    if ss == [] then [] else [RawSegment(ss[0])] + RawSegments(ss[1..])
  }

  function RawAlternative(alt: Alternative): Json {
    JDict(map["target" := JList(RawConditions(alt.target)),
              "anchor" := if alt.anchor == [] then JNull else JList(RawConditions(alt.anchor)),
              "path" := if alt.path == [] then JNull else JList(RawSegments(alt.path))])
  }

  lemma NamesBack(a: Attribute, op: Operator, axis: Axis)
    ensures AttributeOf(AttributeName(a)) == Some(a) && OperatorOf(OperatorName(op)) == Some(op)
    ensures AxisOf(RawAxisName(axis)) == Some(axis)
  {
  }

  lemma ConditionBack(c: Condition, compiles: string -> bool)
    requires ValidCondition(c, compiles)
    ensures ValidateCondition(RawCondition(c), compiles) == Some(c)
  {
    NamesBack(c.attribute, c.operator, Child);
  }

  lemma SegmentBack(s: Segment)
    requires XPathRoundTrip.ValidSegment(s)
    ensures ValidateSegment(RawSegment(s)) == Some(s)
  {
    NamesBack(TextAttr, Equals, s.axis);
  }

  lemma {:induction false} ConditionsBack(cs: seq<Condition>, compiles: string -> bool)
    requires AllValid(cs, compiles)
    ensures ValidateConditions(RawConditions(cs), compiles) == Some(cs)
  {
    if cs != [] {
      ConditionBack(cs[0], compiles);
      ConditionsBack(cs[1..], compiles);
      assert RawConditions(cs)[1..] == RawConditions(cs[1..]) && [cs[0]] + cs[1..] == cs;
    }
  }

  lemma {:induction false} SegmentsBack(ss: seq<Segment>)
    requires ValidPath(ss)
    ensures ValidateSegments(RawSegments(ss)) == Some(ss)
  {
    if ss != [] {
      SegmentBack(ss[0]);
      SegmentsBack(ss[1..]);
      assert RawSegments(ss)[1..] == RawSegments(ss[1..]) && [ss[0]] + ss[1..] == ss;
    }
  }

  /** Validation returns a valid alternative unchanged: it neither drops nor alters anything. */
  lemma ValidationComplete(alt: Alternative, compiles: string -> bool)
    requires ValidAlternative(alt, compiles)
    ensures ValidateAlternative(RawAlternative(alt), compiles) == Some(alt)
  {
    ConditionsBack(alt.target, compiles);
    ConditionsBack(alt.anchor, compiles);
    SegmentsBack(alt.path);
  }

  // ---------- exactly which raw values stand for an alternative ----------

  predicate Has(d: map<string, Json>, key: string, value: Json) {
    key in d && d[key] == value
  }

  /** An optional entry left out, or written as null. */
  predicate Lacks(d: map<string, Json>, key: string) {
    key in d ==> d[key].JNull?
  }

  predicate WritesCondition(j: Json, c: Condition) {
    && j.JDict? && Has(j.fields, "attribute", JStr(AttributeName(c.attribute)))
    && Has(j.fields, "operator", JStr(OperatorName(c.operator)))
    && Has(j.fields, "value", if c.value.Flag? then JBool(c.value.on) else JStr(c.value.text))
  }

  predicate WritesSegment(j: Json, s: Segment) {
    && j.JDict? && Has(j.fields, "axis", JStr(RawAxisName(s.axis)))
    && if s.depth.Some? then Has(j.fields, "depth", JInt(s.depth.value)) else Lacks(j.fields, "depth")
  }

  predicate WritesConditions(js: seq<Json>, cs: seq<Condition>) {
    |js| == |cs| && forall i :: 0 <= i < |js| ==> WritesCondition(js[i], cs[i])
  }

  predicate WritesSegments(js: seq<Json>, ss: seq<Segment>) {
    |js| == |ss| && forall i :: 0 <= i < |js| ==> WritesSegment(js[i], ss[i])
  }

  predicate WritesList(d: map<string, Json>, key: string, cs: seq<Condition>) {
    key in d && d[key].JList? && WritesConditions(d[key].items, cs)
  }

  /** The raw value spells out the alternative; what the alternative does not have is
      left out or null, and other entries do not matter. */
  predicate Writes(j: Json, alt: Alternative) {
    && j.JDict? && WritesList(j.fields, "target", alt.target)
    && (if alt.anchor == [] then Lacks(j.fields, "anchor") else WritesList(j.fields, "anchor", alt.anchor))
    && if alt.path == [] then Lacks(j.fields, "path")
       else "path" in j.fields && j.fields["path"].JList? && WritesSegments(j.fields["path"].items, alt.path)
  }

  lemma AttributeIff(name: string, a: Attribute)
    ensures AttributeOf(name) == Some(a) <==> name == AttributeName(a)
  {
  }

  lemma OperatorIff(name: string, op: Operator)
    ensures OperatorOf(name) == Some(op) <==> name == OperatorName(op)
  {
  }

  lemma AxisIff(name: string, axis: Axis)
    ensures AxisOf(name) == Some(axis) <==> name == RawAxisName(axis)
  {
  }

  lemma ConditionIff(j: Json, c: Condition, compiles: string -> bool)
    ensures ValidateCondition(j, compiles) == Some(c) <==> ValidCondition(c, compiles) && WritesCondition(j, c)
  {
    if j.JDict? {
      var name, op := Get(j.fields, "attribute"), Get(j.fields, "operator");
      if name.JStr? && op.JStr? {
        AttributeIff(name.s, c.attribute);
        OperatorIff(op.s, c.operator);
      }
    }
  }

  lemma SegmentIff(j: Json, s: Segment)
    ensures ValidateSegment(j) == Some(s) <==> XPathRoundTrip.ValidSegment(s) && WritesSegment(j, s)
  {
    if j.JDict? && Get(j.fields, "axis").JStr? {
      AxisIff(Get(j.fields, "axis").s, s.axis);
    }
  }

  lemma {:induction false} ConditionsIff(js: seq<Json>, cs: seq<Condition>, compiles: string -> bool)
    ensures ValidateConditions(js, compiles) == Some(cs) <==> AllValid(cs, compiles) && WritesConditions(js, cs)
  {
    if js != [] && cs != [] {
      ConditionIff(js[0], cs[0], compiles);
      ConditionsIff(js[1..], cs[1..], compiles);
      assert cs == [cs[0]] + cs[1..];
      AllValidCons(cs, compiles);
      WritesCons(js, cs);
    }
  }

  lemma AllValidCons(cs: seq<Condition>, compiles: string -> bool)
    requires cs != []
    ensures AllValid(cs, compiles) <==> ValidCondition(cs[0], compiles) && AllValid(cs[1..], compiles)
  {
  }

  lemma WritesCons(js: seq<Json>, cs: seq<Condition>)
    requires js != [] && cs != []
    ensures WritesConditions(js, cs) <==> WritesCondition(js[0], cs[0]) && WritesConditions(js[1..], cs[1..])
  {
  }

  lemma {:induction false} SegmentsIff(js: seq<Json>, ss: seq<Segment>)
    ensures ValidateSegments(js) == Some(ss) <==> ValidPath(ss) && WritesSegments(js, ss)
  {
    if js != [] && ss != [] {
      SegmentIff(js[0], ss[0]);
      SegmentsIff(js[1..], ss[1..]);
      assert ss == [ss[0]] + ss[1..];
      SegmentsCons(js, ss);
    }
  }

  lemma SegmentsCons(js: seq<Json>, ss: seq<Segment>)
    requires js != [] && ss != []
    ensures ValidPath(ss) <==> XPathRoundTrip.ValidSegment(ss[0]) && ValidPath(ss[1..])
    ensures WritesSegments(js, ss) <==> WritesSegment(js[0], ss[0]) && WritesSegments(js[1..], ss[1..])
  {
  }

  /** Validation gives an alternative exactly if it is valid and the raw value writes it. */
  lemma ValidationIff(j: Json, alt: Alternative, compiles: string -> bool)
    ensures ValidateAlternative(j, compiles) == Some(alt) <==> ValidAlternative(alt, compiles) && Writes(j, alt)
  {
    if j.JDict? {
      var rawTarget, rawAnchor, rawPath := Get(j.fields, "target"), Get(j.fields, "anchor"), Get(j.fields, "path");
      if rawTarget.JList? {
        ConditionsIff(rawTarget.items, alt.target, compiles);
      }
      if rawAnchor.JList? {
        ConditionsIff(rawAnchor.items, alt.anchor, compiles);
      }
      if rawPath.JList? {
        SegmentsIff(rawPath.items, alt.path);
      }
    }
  }

  // ---------- choosing the selector ----------

  datatype Selector = XPathSelector(text: string) | UiSelectorChain(text: string)

  /** `build_selector`; `None` is an InvalidSmartLocator. */
  function BuildSelector(alt: Alternative): Option<Selector>
    requires AllTyped(alt.anchor) && AllTyped(alt.target)
  {
    if alt.anchor != [] || alt.path != [] then
      var t :- XPathQuery.BuildRelativeXPath(alt);
      Some(XPathSelector(t))
    else if !HasRegex(alt.target) && NeedsXPath(alt.target) then
      var t :- XPathQuery.BuildXPath(alt.target);
      Some(XPathSelector(t))
    else
      var t :- UiSelector.BuildUi(alt.target);
      Some(UiSelectorChain(t))
  }

  lemma ExpressibleHasMethod(c: Condition)
    requires Typed(c)
    ensures Expressible(c) <==> UiSelector.Method(c.attribute, c.operator).Some?
  {
  }

  /** UiSelector has a method for every condition. */
  predicate AllHaveMethods(cs: seq<Condition>) {
    forall i :: 0 <= i < |cs| ==> HasMethod(cs[i])
  }

  predicate HasMethod(c: Condition) {
    UiSelector.Method(c.attribute, c.operator).Some?
  }

  /** A plain alternative becomes a chain exactly if the chain has all the methods:
      a valid regex condition never stands beside one that needs XPath. */
  lemma ChainIffMethods(alt: Alternative, compiles: string -> bool)
    requires ValidAlternative(alt, compiles) && alt.anchor == [] && alt.path == []
    ensures !HasRegex(alt.target) && NeedsXPath(alt.target) <==> !AllHaveMethods(alt.target)
  {
    var cs := alt.target;
    ValidIsTyped(alt, compiles);
    forall i | 0 <= i < |cs|
      ensures HasMethod(cs[i]) <==> Expressible(cs[i])
    {
      ExpressibleHasMethod(cs[i]);
    }
    if NeedsXPath(cs) {
      var c :| c in cs && (c.operator.EndsWith? || !Expressible(c));
      var i :| 0 <= i < |cs| && cs[i] == c;
      assert !HasMethod(cs[i]);
    } else {
      assert forall i :: 0 <= i < |cs| ==> cs[i] in cs;
    }
  }

  lemma {:induction false} CallsExist(cs: seq<Condition>)
    requires AllTyped(cs) && forall i :: 0 <= i < |cs| ==> Expressible(cs[i])
    ensures UiSelector.Calls(cs).Some?
  {
    if cs != [] {
      ExpressibleHasMethod(cs[0]);
      CallsExist(cs[1..]);
    }
  }

  lemma NoRegexPrintable(cs: seq<Condition>)
    requires AllTyped(cs) && !HasRegex(cs)
    ensures AllPrintable(cs)
  {
  }

  lemma ValidIsTyped(alt: Alternative, compiles: string -> bool)
    requires ValidAlternative(alt, compiles)
    ensures AllTyped(alt.anchor) && AllTyped(alt.target)
  {
  }

  lemma RelativeIsPrintable(alt: Alternative, compiles: string -> bool)
    requires ValidAlternative(alt, compiles) && alt.anchor != []
    ensures AllPrintable(alt.anchor) && AllPrintable(alt.target)
  {
    assert forall c :: c in alt.target ==> c in alt.target + alt.anchor;
    assert forall c :: c in alt.anchor ==> c in alt.target + alt.anchor;
    NoRegexPrintable(alt.target);
    NoRegexPrintable(alt.anchor);
  }

  /** Conditions printed as a chain are all expressible. */
  lemma ChainIsExpressible(alt: Alternative, compiles: string -> bool)
    requires ValidAlternative(alt, compiles) && alt.anchor == [] && !(!HasRegex(alt.target) && NeedsXPath(alt.target))
    ensures forall i :: 0 <= i < |alt.target| ==> Expressible(alt.target[i])
  {
  }

  /** `build_selector` never raises on a validated alternative. */
  lemma BuildSelectorTotal(alt: Alternative, compiles: string -> bool)
    requires ValidAlternative(alt, compiles)
    ensures AllTyped(alt.anchor) && AllTyped(alt.target) && BuildSelector(alt).Some?
    ensures BuildSelector(alt).value.UiSelectorChain?
       <==> alt.anchor == [] && alt.path == [] && AllHaveMethods(alt.target)
  {
    ValidIsTyped(alt, compiles);
    if alt.anchor == [] {
      ChainIffMethods(alt, compiles);
    }
    if alt.anchor != [] {
      RelativeIsPrintable(alt, compiles);
      XPathRoundTrip.RelativeRoundTrip(alt);
    } else if !HasRegex(alt.target) && NeedsXPath(alt.target) {
      NoRegexPrintable(alt.target);
      XPathRoundTrip.XPathRoundTrip(alt.target);
    } else {
      ChainIsExpressible(alt, compiles);
      CallsExist(alt.target);
    }
  }
}
