/** The two closures over parent tables (backend/app/repositories/elements.py):
    `module_subtree_ids` and the parents added by `list_pages`. The tables may
    contain cycles. */
module Subtree {
  import opened Text

  /** A row: an id and its parent. */
  type Row = (int, Option<int>)

  type Table = seq<Row>

  predicate Edge(rows: Table, parent: int, child: int) {
    (child, Some(parent)) in rows
  }

  /** A walk along child edges. */
  predicate Walk(rows: Table, path: seq<int>) {
    forall i :: 0 <= i < |path| - 1 ==> Edge(rows, path[i], path[i + 1])
  }

  ghost predicate Reaches(rows: Table, a: int, b: int) {
    exists path :: path != [] && path[0] == a && path[|path| - 1] == b && Walk(rows, path)
  }

  lemma ReachesSelf(rows: Table, a: int)
    ensures Reaches(rows, a, a)
  {
    assert Walk(rows, [a]) && [a][0] == a;
  }

  lemma ReachesNext(rows: Table, a: int, b: int, c: int)
    requires Reaches(rows, a, b) && Edge(rows, b, c)
    ensures Reaches(rows, a, c)
  {
    var path :| path != [] && path[0] == a && path[|path| - 1] == b && Walk(rows, path);
    var longer := path + [c];
    assert longer[0] == a && longer[|longer| - 1] == c && Walk(rows, longer);
  }

  /** The children of each parent, as the source groups them. */
  method ChildrenOf(rows: Table) returns (children: map<Option<int>, seq<int>>)
    ensures forall p, c :: (p in children && c in children[p]) <==> (c, p) in rows
  {
    children := map[];
    for i := 0 to |rows|
      invariant forall p, c :: (p in children && c in children[p]) <==> (c, p) in rows[..i]
    {
      var (id, parent) := rows[i];
      var known := if parent in children then children[parent] else [];
      ghost var before := children;
      children := children[parent := known + [id]];
      assert rows[..i + 1] == rows[..i] + [rows[i]];
    }
    assert rows[..|rows|] == rows;
  }

  /** The ids that can still be added. */
  function Ids(rows: Table): set<int> {
    set i | 0 <= i < |rows| :: rows[i].0
  }

  /** `module_subtree_ids`: terminates on every table, and returns exactly the ids
      reachable from the module, itself included. */
  method ModuleSubtreeIds(rows: Table, id: int) returns (result: set<int>)
    ensures forall x :: x in result <==> Reaches(rows, id, x)
  {
    var children := ChildrenOf(rows);
    result := {};
    var pending := [id];
    ReachesSelf(rows, id);
    while pending != []
      invariant id in result || id in pending
      invariant forall x :: x in result || x in pending ==> Reaches(rows, id, x)
      invariant forall p, c :: p in result && Edge(rows, p, c) ==> c in result || c in pending
      invariant forall x :: x in pending ==> x == id || x in Ids(rows)
      decreases Ids(rows) + {id} - result, |pending|
    {
      ghost var before := pending;
      var current := pending[|pending| - 1];
      pending := pending[..|pending| - 1];
      assert forall x :: x in before <==> x == current || x in pending;
      if current in result {
        continue;
      }
      var next := if Some(current) in children then children[Some(current)] else [];
      forall c
        ensures c in next <==> Edge(rows, current, c)
      {
      }
      forall c | c in next
        ensures Reaches(rows, id, c) && c in Ids(rows)
      {
        ReachesNext(rows, id, current, c);
        var i :| 0 <= i < |rows| && rows[i] == (c, Some(current));
      }
      result := result + {current};
      pending := pending + next;
    }
    forall x | Reaches(rows, id, x)
      ensures x in result
    {
      var path :| path != [] && path[0] == id && path[|path| - 1] == x && Walk(rows, path);
      ClosedContains(rows, result, path);
    }
  }

  lemma {:induction false} ClosedContains(rows: Table, s: set<int>, path: seq<int>)
    requires path != [] && path[0] in s && Walk(rows, path)
    requires forall p, c :: p in s && Edge(rows, p, c) ==> c in s
    ensures path[|path| - 1] in s
  {
    if |path| > 1 {
      assert Edge(rows, path[0], path[1]);
      ClosedContains(rows, s, path[1..]);
    }
  }

  // ---------- the page groups that are shown ----------

  datatype Group = Group(id: int, parent: Option<int>, project: Option<int>, name: string)

  function Parents(groups: seq<Group>): map<int, Option<int>> {
    if groups == [] then map[]
    else Parents(groups[..|groups| - 1])[groups[|groups| - 1].id := groups[|groups| - 1].parent]
  }

  predicate Shown(g: Group, project: int, used: set<string>) {
    g.project == Some(project) || (g.project.None? && g.name in used)
  }

  function Initial(groups: seq<Group>, project: int, used: set<string>): set<int> {
    set i | 0 <= i < |groups| && Shown(groups[i], project, used) :: groups[i].id
  }

  /** The parent of every member that exists is a member. */
  predicate Closed(parents: map<int, Option<int>>, s: set<int>) {
    forall id :: id in s && id in parents ==> ParentInside(parents, s, id)
  }

  predicate ParentInside(parents: map<int, Option<int>>, s: set<int>, id: int)
    requires id in parents
  {
    parents[id].Some? && parents[id].value in parents ==> parents[id].value in s
  }

  lemma {:induction false} ParentsOf(groups: seq<Group>, id: int)
    ensures id in Parents(groups) <==> exists i :: 0 <= i < |groups| && groups[i].id == id
  {
    if groups != [] {
      var front := groups[..|groups| - 1];
      ParentsOf(front, id);
      assert forall i :: 0 <= i < |front| ==> front[i] == groups[i];
      if exists i :: 0 <= i < |front| && front[i].id == id {
        var i :| 0 <= i < |front| && front[i].id == id;
        assert groups[i].id == id;
      }
      if exists i :: 0 <= i < |groups| && groups[i].id == id {
        var i :| 0 <= i < |groups| && groups[i].id == id;
        assert i == |front| || front[i].id == id;
      }
    }
  }

  /** The members of a set in some order. */
  method Listing(s: set<int>) returns (q: seq<int>)
    ensures forall x :: x in q <==> x in s
  {
    q := [];
    var rest := s;
    while rest != {}
      invariant forall x :: x in s <==> x in q || x in rest
      decreases |rest|
    {
      assert (forall x :: x !in rest) ==> rest == {};
      var x :| x in rest;
      q := q + [x];
      rest := rest - {x};
    }
  }

  /** The loop of `list_pages`: the least set that contains the groups of the project
      and the existing parent of each of its members. */
  method VisibleIds(groups: seq<Group>, project: int, used: set<string>) returns (visible: set<int>)
    ensures Initial(groups, project, used) <= visible && Closed(Parents(groups), visible)
    ensures forall s :: Initial(groups, project, used) <= s && Closed(Parents(groups), s) ==> visible <= s
  {
    var parents := Parents(groups);
    var start := Initial(groups, project, used);
    forall x | x in start
      ensures x in parents
    {
      ParentsOf(groups, x);
    }
    visible := start;
    var pending := Listing(visible);
    while pending != []
      invariant start <= visible && visible <= parents.Keys
      invariant forall x :: x in pending ==> x in visible
      invariant forall x :: x in visible && x !in pending ==> ParentInside(parents, visible, x)
      invariant forall s :: start <= s && Closed(parents, s) ==> visible <= s
      decreases parents.Keys - visible, |pending|
    {
      ghost var before := pending;
      var current := pending[|pending| - 1];
      pending := pending[..|pending| - 1];
      assert forall x :: x in before <==> x == current || x in pending;
      var parent := parents[current];
      if parent.Some? && parent.value in parents && parent.value !in visible {
        forall s | start <= s && Closed(parents, s)
          ensures visible + {parent.value} <= s
        {
          assert ParentInside(parents, s, current);
        }
        visible := visible + {parent.value};
        pending := pending + [parent.value];
      }
    }
  }
}
