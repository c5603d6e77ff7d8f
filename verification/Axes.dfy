/** The walk over the tree and the steps along the axes: which places they visit, and
    in which order. */
module Axes {
  import opened Common
  import opened Text
  import opened Locator
  import opened XPathRoundTrip
  import opened Screen
  import opened Denotation

  // ---------- which places ----------

  lemma ExtendsByOne(p: Place, i: nat, q: Place)
    ensures Extends(p, q) && q[|p|] == i <==> q == p + [i] || Extends(p + [i], q)
  {
  }

  /** The walk visits exactly the places below `p` from child `i` on. */
  lemma {:induction false} WalkExact(roots: seq<Node>, p: Place, i: nat, q: Place)
    requires (p == [] || Valid(roots, p)) && i <= |Below(roots, p)|
    ensures q in Walk(Below(roots, p), p, i) <==> Valid(roots, q) && Extends(p, q) && q[|p|] >= i
    decreases Below(roots, p), |Below(roots, p)| - i
  {
    var kids := Below(roots, p);
    if i == |kids| {
      if Valid(roots, q) && Extends(p, q) {
        PrefixValid(roots, q, |p| + 1);
        assert q[..|p| + 1] == p + [q[|p|]];
        ChildValid(roots, p, q[|p|]);
      }
    } else {
      ChildValid(roots, p, i);
      WalkExact(roots, p + [i], 0, q);
      WalkExact(roots, p, i + 1, q);
      ExtendsByOne(p, i, q);
    }
  }

  lemma PrefixSum(p: Place, i: nat, q: Place)
    ensures q == p + [i] <==> |q| == |p| + 1 && Extends(p, q) && q[|p|] == i
  {
  }

  lemma ChildExact(roots: seq<Node>, a: Place, t: Place)
    requires Valid(roots, a)
    ensures t in Range(a, 0, |NodeAt(roots, a).children|) <==> Valid(roots, t) && Extends(a, t) && |t| == |a| + 1
  {
    var n := |NodeAt(roots, a).children|;
    if t in Range(a, 0, n) {
      var i :| 0 <= i < n && Range(a, 0, n)[i] == t;
      ChildValid(roots, a, i);
      PrefixSum(a, i, t);
    }
    if Valid(roots, t) && Extends(a, t) && |t| == |a| + 1 {
      var i := t[|a|];
      PrefixSum(a, i, t);
      ChildValid(roots, a, i);
      assert Range(a, 0, n)[i] == t;
    }
  }

  /** A step of the evaluator goes exactly to the related places, for every axis
      but the siblings. */
  lemma StepExact(roots: seq<Node>, seg: Segment, a: Place, t: Place)
    requires Valid(roots, a) && ValidSegment(seg) && !seg.axis.FollowingSibling? && !seg.axis.PrecedingSibling?
    ensures t in AxisNodes(roots, a, StepOf(seg).0, StepOf(seg).1) <==> Valid(roots, t) && Related(seg, a, t)
  {
    match seg.axis
    case Ancestor => UpExact(roots, a, seg.depth.value, t);
    case Parent => UpExact(roots, a, seg.depth.value, t);
    case Child => ChildExact(roots, a, t);
    case Descendant => WalkExact(roots, a, 0, t);
  }

  /** A parent `d` levels up, printed as the d-th ancestor, is `d` levels up. */
  lemma UpExact(roots: seq<Node>, a: Place, d: nat, t: Place)
    requires Valid(roots, a) && d >= 1
    ensures t in AxisNodes(roots, a, "ancestor", Some(d)) <==> |a| > d && t == a[..|a| - d]
    ensures t in AxisNodes(roots, a, "parent", Some(d)) <==> |a| > d && t == a[..|a| - d]
    ensures |a| > d && t == a[..|a| - d] ==> Valid(roots, t)
  {
    if |a| > d {
      PrefixValid(roots, a, |a| - d);
    }
  }

  lemma {:induction false} KeepExact(roots: seq<Node>, ps: seq<Place>, qs: seq<Query>, search: Search, t: Place)
    requires AllPlaces(roots, ps)
    ensures t in Keep(roots, ps, qs, search) <==> t in ps && Valid(roots, t) && MatchesAll(NodeAt(roots, t), qs, search)
  {
    if ps != [] {
      KeepExact(roots, ps[1..], qs, search, t);
    }
  }

  // ---------- in which order ----------

  lemma BeforeIrreflexive(p: Place)
    ensures !Before(p, p)
  {
  }

  lemma OrderedConcat(a: seq<Place>, b: seq<Place>)
    requires Ordered(a) && Ordered(b) && forall p, q :: p in a && q in b ==> Before(p, q)
    ensures Ordered(a + b)
  {
  }

  lemma {:induction false} WalkOrdered(roots: seq<Node>, p: Place, i: nat)
    requires (p == [] || Valid(roots, p)) && i <= |Below(roots, p)|
    ensures Ordered(Walk(Below(roots, p), p, i))
    decreases Below(roots, p), |Below(roots, p)| - i
  {
    var kids := Below(roots, p);
    if i < |kids| {
      ChildValid(roots, p, i);
      WalkOrdered(roots, p + [i], 0);
      WalkOrdered(roots, p, i + 1);
      var inner, later := Walk(kids[i].children, p + [i], 0), Walk(kids, p, i + 1);
      forall q | q in inner
        ensures Extends(p + [i], q)
      {
        WalkExact(roots, p + [i], 0, q);
      }
      forall q | q in later
        ensures Extends(p, q) && q[|p|] > i
      {
        WalkExact(roots, p, i + 1, q);
      }
      WalkParts(p, i, inner, later);
    }
  }

  lemma WalkParts(p: Place, i: nat, inner: seq<Place>, later: seq<Place>)
    requires Ordered(inner) && Ordered(later)
    requires forall q :: q in inner ==> Extends(p + [i], q)
    requires forall q :: q in later ==> Extends(p, q) && q[|p|] > i
    ensures Ordered([p + [i]] + inner + later)
  {
    OrderedConcat([p + [i]], inner);
    forall a, b | a in [p + [i]] + inner && b in later
      ensures Before(a, b)
    {
      ParentBefore(p, i, a, b);
    }
    OrderedConcat([p + [i]] + inner, later);
  }

  lemma ParentBefore(p: Place, i: nat, a: Place, b: Place)
    requires (a == p + [i] || Extends(p + [i], a)) && Extends(p, b) && b[|p|] > i
    ensures Before(a, b)
  {
    ExtendsByOne(p, i, a);
    assert a[..|p|] == p == b[..|p|];
  }

  lemma {:induction false} KeepOrdered(roots: seq<Node>, ps: seq<Place>, qs: seq<Query>, search: Search)
    requires AllPlaces(roots, ps) && Ordered(ps)
    ensures Ordered(Keep(roots, ps, qs, search))
  {
    if ps != [] {
      KeepOrdered(roots, ps[1..], qs, search);
      forall t | t in Keep(roots, ps[1..], qs, search)
        ensures Before(ps[0], t)
      {
        KeepExact(roots, ps[1..], qs, search, t);
        var i :| 0 <= i < |ps[1..]| && ps[1..][i] == t;
        assert ps[i + 1] == t;
      }
      OrderedConcat([ps[0]], Keep(roots, ps[1..], qs, search));
    }
  }

  lemma OrderedNoDuplicates(ps: seq<Place>)
    requires Ordered(ps)
    ensures NoDuplicates(ps)
  {
    forall i, j | 0 <= i < j < |ps|
      ensures ps[i] != ps[j]
    {
      BeforeIrreflexive(ps[i]);
    }
  }
}
