/** The structured locator of agent/executor/smart_locator.py after validation,
    and the names under which its parts are printed. */
module Locator {
  import opened Text

  datatype Attribute =
    TextAttr | ContentDesc | ResourceId | ClassName | Package | Clickable | Enabled | Selected | Displayed

  datatype Operator = Equals | Contains | StartsWith | EndsWith | Regex

  datatype Value = Str(text: string) | Flag(on: bool)

  datatype Condition = Condition(attribute: Attribute, operator: Operator, value: Value)

  datatype Axis = Ancestor | Parent | Child | Descendant | FollowingSibling | PrecedingSibling

  datatype Segment = Segment(axis: Axis, depth: Option<nat>)

  datatype Alternative = Alternative(anchor: seq<Condition>, path: seq<Segment>, target: seq<Condition>)

  /** A condition as the selector parser returns it: the node property is named
      by a string, since the parser does not restrict it. */
  datatype Query = Query(key: string, operator: Operator, value: Value)

  const MAX_CONDITIONS := 20
  const MAX_VALUE_LENGTH := 200
  const MAX_PATH_SEGMENTS := 3
  const MAX_DEPTH := 5

  predicate IsBool(a: Attribute) {
    a.Clickable? || a.Enabled? || a.Selected? || a.Displayed?
  }

  /** The value has the type its attribute calls for. */
  predicate Typed(c: Condition) {
    if IsBool(c.attribute) then c.operator.Equals? && c.value.Flag? else c.value.Str?
  }

  predicate AllTyped(cs: seq<Condition>) {
    forall i :: 0 <= i < |cs| ==> Typed(cs[i])
  }

  /** Conditions XPath can express. */
  predicate AllPrintable(cs: seq<Condition>) {
    forall i :: 0 <= i < |cs| ==> Typed(cs[i]) && !cs[i].operator.Regex?
  }

  /** `_XPATH_ATTRIBUTE_MAP`. */
  function XPathName(a: Attribute): string {
    match a
    case TextAttr => "text"
    case ContentDesc => "content-desc"
    case ResourceId => "resource-id"
    case ClassName => "class"
    case Package => "package"
    case Clickable => "clickable"
    case Enabled => "enabled"
    case Selected => "selected"
    case Displayed => "displayed"
  }

  /** The node property an attribute names. */
  function NodeKey(a: Attribute): string {
    match a
    case TextAttr => "text"
    case ContentDesc => "content_desc"
    case ResourceId => "resource_id"
    case ClassName => "class_name"
    case Package => "package"
    case Clickable => "clickable"
    case Enabled => "enabled"
    case Selected => "selected"
    case Displayed => "displayed"
  }

  const CLASS_OR_NODE := "class_name_or_node_name"

  /** `_XPATH_ATTR_TO_NODE.get(name, name)`. */
  function KeyOfName(name: string): string {
    if name == "content-desc" then "content_desc"
    else if name == "resource-id" then "resource_id"
    else if name == "class" then "class_name"
    else name
  }

  /** `_MOCK_BOOL_ATTRIBUTES`. */
  predicate IsBoolKey(key: string) {
    key == "clickable" || key == "enabled" || key == "selected" || key == "checked" || key == "displayed"
  }

  lemma NamesAgree(a: Attribute)
    ensures Word(XPathName(a)) && XPathName(a) != ""
    ensures KeyOfName(XPathName(a)) == NodeKey(a)
    ensures IsBoolKey(NodeKey(a)) <==> IsBool(a)
  {
  }

  /** What a printed condition is meant to come back as: class equality may be
      met by the class attribute or by the node name. */
  function Meant(c: Condition): Query {
    if c.attribute.ClassName? && c.operator.Equals? then Query(CLASS_OR_NODE, Equals, c.value)
    else Query(NodeKey(c.attribute), c.operator, c.value)
  }
}
