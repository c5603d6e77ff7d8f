/** The simulated screen and the evaluation of parsed selectors over it
    (agent/executor/driver.py). A node is identified by its place: the path of
    child positions from the roots, so that parents, siblings and document order
    are those of the tree. */
module Screen {
  import opened Text
  import opened Locator
  import opened XPathQuery
  import UiSelector
  import opened Selector

  /** A property of a node: text, a boolean, or any other value with the text
      and the truth value Python gives it. */
  datatype Property = PText(s: string) | PFlag(b: bool) | POther(shown: string, truthy: bool)

  datatype Node = Node(id: string, properties: map<string, Property>, nodeName: string, children: seq<Node>)

  /** The place of a node: indices into the roots, then into children. */
  type Place = seq<nat>

  predicate Valid(roots: seq<Node>, p: Place) {
    p != [] && p[0] < |roots| && (|p| > 1 ==> Valid(roots[p[0]].children, p[1..]))
  }

  function NodeAt(roots: seq<Node>, p: Place): Node
    requires Valid(roots, p)
  {
    if |p| == 1 then roots[p[0]] else NodeAt(roots[p[0]].children, p[1..])
  }

  /** The children of the node at `p`; of the screen itself for the empty place. */
  function Below(roots: seq<Node>, p: Place): seq<Node>
    requires p == [] || Valid(roots, p)
  {
    if p == [] then roots else NodeAt(roots, p).children
  }

  // ---------- matching one condition ----------

  /** `_mock_node_value`: a missing property counts as False. */
  function NodeValue(n: Node, key: string): string {
    var raw := if key in n.properties then n.properties[key] else PFlag(false);
    if IsBoolKey(key) then
      match raw
      case PText(s) => s
      case PFlag(b) => if b then "true" else "false"
      case POther(_, t) => if t then "true" else "false"
    else
      match raw
      case PText(s) => s
      case PFlag(b) => if b then "True" else "False"
      case POther(shown, _) => shown
  }

  predicate IsText(n: Node, key: string, value: string) {
    key in n.properties && n.properties[key] == PText(value)
  }

  predicate ClassOrName(n: Node, value: string) {
    IsText(n, "class_name", value) || ("class_name" !in n.properties && value == "") || n.nodeName == value
  }

  predicate HasInfix(s: string, sub: string) {
    exists i :: 0 <= i <= |s| - |sub| && At(s, sub, i)
  }

  predicate HasSuffix(s: string, sub: string) {
    |sub| <= |s| && s[|s| - |sub|..] == sub
  }

  /** Whether a regular expression matches somewhere in a text. */
  type Search = (string, string) -> bool

  /** `_mock_condition_matches`. */
  predicate Matches(n: Node, q: Query, search: Search) {
    if q.key == CLASS_OR_NODE then q.value.Str? && ClassOrName(n, q.value.text)
    else
      var v := NodeValue(n, q.key);
      if IsBoolKey(q.key) then
        (UiSelector.Lower(v) == "true") == (match q.value case Flag(on) => on case Str(t) => t != "")
      else if q.value.Flag? then false
      else
        match q.operator
        case Equals => v == q.value.text
        case Contains => HasInfix(v, q.value.text)
        case StartsWith => q.value.text <= v
        case EndsWith => HasSuffix(v, q.value.text)
        case Regex => search(q.value.text, v)
  }

  predicate MatchesAll(n: Node, qs: seq<Query>, search: Search) {
    forall q <- qs :: Matches(n, q, search)
  }

  // ---------- walking the tree ----------

  /** Everything below position `p` from child `i` on, in document order. */
  function Walk(kids: seq<Node>, p: Place, i: nat): seq<Place>
    requires i <= |kids|
    decreases kids, |kids| - i
  {
    if i == |kids| then []
    else [p + [i]] + Walk(kids[i].children, p + [i], 0) + Walk(kids, p, i + 1)
  }

  /** `_flatten_mock_nodes`. */
  function Flatten(roots: seq<Node>): seq<Place> {
    Walk(roots, [], 0)
  }

  /** `_all_descendants`. */
  function Descendants(roots: seq<Node>, p: Place): seq<Place>
    requires Valid(roots, p)
  {
    Walk(NodeAt(roots, p).children, p, 0)
  }

  /** `count` positions from `first` on, below `p`. */
  function Range(p: Place, first: nat, count: nat): seq<Place> {
    seq(count, i requires 0 <= i < count => p + [first + i])
  }

  /** `_axis_nodes`. The sibling branches test names with an underscore. */
  function AxisNodes(roots: seq<Node>, p: Place, axis: string, depth: Option<nat>): seq<Place>
    requires Valid(roots, p)
  {
    if axis == "parent" || axis == "ancestor" then
      var d := if depth.None? || depth.value == 0 then 1 else depth.value;
      if d < |p| then [p[..|p| - d]] else []
    else if axis == "child" then Range(p, 0, |NodeAt(roots, p).children|)
    else if axis == "descendant" then Descendants(roots, p)
    else if axis == "following_sibling" then
      if |p| == 1 then []
      else
        ParentValid(roots, p);
        Range(p[..|p| - 1], p[|p| - 1] + 1, |NodeAt(roots, p[..|p| - 1]).children| - p[|p| - 1] - 1)
    else if axis == "preceding_sibling" then
      if |p| == 1 then [] else Range(p[..|p| - 1], 0, p[|p| - 1])
    else []
  }

  lemma {:induction false} ParentValid(roots: seq<Node>, p: Place)
    requires Valid(roots, p) && |p| > 1
    ensures Valid(roots, p[..|p| - 1]) && p[|p| - 1] < |NodeAt(roots, p[..|p| - 1]).children|
  {
    if |p| == 2 {
      assert p[..1] == [p[0]];
    } else {
      ParentValid(roots[p[0]].children, p[1..]);
      assert p[..|p| - 1][1..] == p[1..][..|p[1..]| - 1];
    }
  }

  lemma {:induction false} PrefixValid(roots: seq<Node>, p: Place, n: nat)
    requires Valid(roots, p) && 0 < n <= |p|
    ensures Valid(roots, p[..n])
    decreases |p| - n
  {
    if n < |p| {
      PrefixValid(roots, p, n + 1);
      ParentValid(roots, p[..n + 1]);
      assert p[..n + 1][..n] == p[..n];
    } else {
      assert p[..n] == p;
    }
  }

  /** One step down. */
  lemma {:induction false} ChildValid(roots: seq<Node>, p: Place, i: nat)
    requires p == [] || Valid(roots, p)
    ensures Valid(roots, p + [i]) <==> i < |Below(roots, p)|
    ensures i < |Below(roots, p)| ==> NodeAt(roots, p + [i]) == Below(roots, p)[i]
  {
    if p == [] {
      assert p + [i] == [i];
    } else {
      assert (p + [i])[1..] == p[1..] + [i];
      if |p| == 1 {
        assert p[1..] + [i] == [i];
      } else {
        ChildValid(roots[p[0]].children, p[1..], i);
      }
    }
  }

  // ---------- evaluating a parsed selector ----------

  predicate AllPlaces(roots: seq<Node>, ps: seq<Place>) {
    forall i :: 0 <= i < |ps| ==> Valid(roots, ps[i])
  }

  /** The walk visits exactly the places below `p`. */
  lemma {:induction false} WalkValid(roots: seq<Node>, p: Place, i: nat)
    requires p == [] || Valid(roots, p)
    requires i <= |Below(roots, p)|
    ensures AllPlaces(roots, Walk(Below(roots, p), p, i))
    decreases Below(roots, p), |Below(roots, p)| - i
  {
    var kids := Below(roots, p);
    if i < |kids| {
      ChildValid(roots, p, i);
      assert Below(roots, p + [i]) == kids[i].children;
      WalkValid(roots, p + [i], 0);
      WalkValid(roots, p, i + 1);
    }
  }

  function Keep(roots: seq<Node>, ps: seq<Place>, qs: seq<Query>, search: Search): (r: seq<Place>)
    requires AllPlaces(roots, ps)
    ensures AllPlaces(roots, r)
  {
    if ps == [] then []
    else (if MatchesAll(NodeAt(roots, ps[0]), qs, search) then [ps[0]] else []) + Keep(roots, ps[1..], qs, search)
  }

  lemma AxisNodesValid(roots: seq<Node>, p: Place, axis: string, depth: Option<nat>)
    requires Valid(roots, p)
    ensures AllPlaces(roots, AxisNodes(roots, p, axis, depth))
  {
    var r := AxisNodes(roots, p, axis, depth);
    if axis == "descendant" {
      WalkValid(roots, p, 0);
    }
    forall i | 0 <= i < |r| && axis != "descendant"
      ensures Valid(roots, r[i])
    {
      if axis == "parent" || axis == "ancestor" {
        PrefixValid(roots, p, |r[i]|);
      } else if axis == "child" {
        ChildValid(roots, p, i);
      } else {
        ParentValid(roots, p);
        ChildValid(roots, p[..|p| - 1], r[i][|p| - 1]);
        assert r[i] == p[..|p| - 1] + [r[i][|p| - 1]];
      }
    }
  }

  function Expand(roots: seq<Node>, ps: seq<Place>, axis: string, depth: Option<nat>): (r: seq<Place>)
    requires AllPlaces(roots, ps)
    ensures AllPlaces(roots, r)
  {
    if ps == [] then []
    else
      AxisNodesValid(roots, ps[0], axis, depth);
      AxisNodes(roots, ps[0], axis, depth) + Expand(roots, ps[1..], axis, depth)
  }

  function Follow(roots: seq<Node>, ps: seq<Place>, steps: seq<(string, Option<nat>)>): (r: seq<Place>)
    requires AllPlaces(roots, ps)
    ensures AllPlaces(roots, r)
    decreases |steps|
  {
    if steps == [] then ps else Follow(roots, Expand(roots, ps, steps[0].0, steps[0].1), steps[1..])
  }

  /** `_dedupe_nodes`: the first occurrence of each node stays. */
  function Dedupe<T(==)>(ps: seq<T>, seen: set<T>): (r: seq<T>)
    ensures forall p <- r :: p in ps && p !in seen
  {
    if ps == [] then []
    else if ps[0] in seen then Dedupe(ps[1..], seen)
    else [ps[0]] + Dedupe(ps[1..], seen + {ps[0]})
  }

  method DedupeLoop<T(==)>(ps: seq<T>) returns (r: seq<T>)
    ensures r == Dedupe(ps, {})
  {
    var seen := {};
    r := [];
    assert ps[0..] == ps;
    for i := 0 to |ps|
      invariant r + Dedupe(ps[i..], seen) == Dedupe(ps, {})
    {
      assert ps[i..][1..] == ps[i + 1..];
      if ps[i] !in seen {
        assert r + ([ps[i]] + Dedupe(ps[i + 1..], seen + {ps[i]})) == (r + [ps[i]]) + Dedupe(ps[i + 1..], seen + {ps[i]});
        seen := seen + {ps[i]};
        r := r + [ps[i]];
      }
    }
  }

  function EvalXPath(roots: seq<Node>, x: XPath, search: Search): seq<Place> {
    WalkValid(roots, [], 0);
    var start := Keep(roots, Flatten(roots), x.root, search);
    var reached := Follow(roots, start, x.steps);
    Dedupe(if x.target == [] then reached else Keep(roots, reached, x.target, search), {})
  }

  /** `_mock_find_elements` on the whole screen; `None` is a ValueError of the parsers. */
  function FindElements(roots: seq<Node>, s: Selector, search: Search): Option<seq<Place>> {
    if roots == [] then Some([])
    else
      match s
      case XPathSelector(text) =>
        var x :- ParseXPath(text);
        Some(EvalXPath(roots, x, search))
      case UiSelectorChain(text) =>
        var qs :- UiSelector.ParseUi(text);
        WalkValid(roots, [], 0);
        Some(Keep(roots, Flatten(roots), qs, search))
  }
}
