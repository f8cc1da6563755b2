/** When the output of utils/print-introspected-doxygen.cc repeats entries.

    Nothing removes duplicates from it.  With readable names the entries of one gathering are
    different exactly if nowhere on a walk two equal edges leave the same type. */
module RepeatedEntries {
  import opened Common
  import opened TypePaths

  // ---------- Entries and walks ----------

  /** Two walks that leave the same entry. */
  ghost predicate Confusable(g: Graph, root: Tid, v: Walk, w: Walk) {
    v != w && IsSimpleWalk(g, root, v) && IsSimpleWalk(g, root, w)
    && End(g, root, v) == End(g, root, w)
    && PathString(Labels(g, root, v)) == PathString(Labels(g, root, w))
  }

  lemma RepeatedExactlyIfConfusable(g: Graph, root: Tid)
    requires Closed(g) && root in g.reg.registered
    ensures Distinct(Recorded(g, root, [], [])) <==> forall v, w :: !Confusable(g, root, v, w)
  {
    var ws := GatherRecordsEverySimpleWalkOnce(g, root);
    var es := Recorded(g, root, [], []);
    if v, w :| Confusable(g, root, v, w) {
      assert v in ws && w in ws;
      var i :| 0 <= i < |ws| && ws[i] == v;
      var j :| 0 <= j < |ws| && ws[j] == w;
      assert es[i] == es[j] && i != j;
    }
    if i, j :| 0 <= i < j < |es| && es[i] == es[j] {
      assert ws[i] in ws && ws[j] in ws;
      assert Confusable(g, root, ws[i], ws[j]);
    }
  }

  /** A walk that may be continued by either of two equal edges. */
  ghost predicate Fork(g: Graph, root: Tid, u: Walk, k: nat, l: nat) {
    IsSimpleWalk(g, root, u)
    && var es := Edges(g, End(g, root, u));
       k < l < |es| && es[k] == es[l] && es[k].target !in Visited(g, root, u)
  }

  ghost predicate HasFork(g: Graph, root: Tid) {
    exists u, k, l :: Fork(g, root, u, k, l)
  }

  lemma {:induction false} Extended(g: Graph, tid: Tid, u: Walk, k: nat)
    requires IsWalk(g, tid, u)
    ensures IsWalk(g, tid, u + [k]) <==> k < |Edges(g, End(g, tid, u))|
    ensures IsWalk(g, tid, u + [k]) ==>
      var e := Edges(g, End(g, tid, u))[k];
      Visited(g, tid, u + [k]) == Visited(g, tid, u) + [e.target]
      && Labels(g, tid, u + [k]) == Labels(g, tid, u) + [e.step]
    decreases |u|
  {
    if u == [] {
      assert u + [k] == [k] && [k][1..] == [];
    } else {
      assert (u + [k])[0] == u[0] && (u + [k])[1..] == u[1..] + [k];
      TailEnd(g, tid, u);
      Extended(g, Edges(g, tid)[u[0]].target, u[1..], k);
    }
  }

  lemma TailEnd(g: Graph, tid: Tid, u: Walk)
    requires IsWalk(g, tid, u) && u != []
    ensures End(g, tid, u) == End(g, Edges(g, tid)[u[0]].target, u[1..])
  {
  }

  /** A simple walk goes on to a type that it has not visited. */
  lemma ExtendedSimple(g: Graph, root: Tid, u: Walk, k: nat)
    requires IsSimpleWalk(g, root, u) && k < |Edges(g, End(g, root, u))|
    requires Edges(g, End(g, root, u))[k].target !in Visited(g, root, u)
    ensures var e := Edges(g, End(g, root, u))[k];
      IsSimpleWalk(g, root, u + [k])
      && End(g, root, u + [k]) == e.target && Labels(g, root, u + [k]) == Labels(g, root, u) + [e.step]
  {
    Extended(g, root, u, k);
  }

  lemma ForkIsConfusable(g: Graph, root: Tid, u: Walk, k: nat, l: nat)
    requires Fork(g, root, u, k, l)
    ensures Confusable(g, root, u + [k], u + [l])
  {
    ExtendedSimple(g, root, u, k);
    ExtendedSimple(g, root, u, l);
    assert (u + [k])[|u|] != (u + [l])[|u|];
  }

  /** Wherever a walk reaches two equal edges, the entries behind them are repeated. */
  lemma ForkRepeatsEntries(g: Graph, root: Tid, u: Walk, k: nat, l: nat)
    requires Closed(g) && root in g.reg.registered && Fork(g, root, u, k, l)
    ensures !Distinct(Recorded(g, root, [], []))
  {
    ForkIsConfusable(g, root, u, k, l);
    RepeatedExactlyIfConfusable(g, root);
  }

  lemma {:induction false} AggregateEdgeAt(g: Graph, tid: Tid, from: nat, p: nat) returns (k: nat)
    requires from <= p < |g.aggregates| && (g.aggregates[p].0 == tid || g.aggregates[p].1 == tid)
    ensures k < |AggregateEdges(g, tid, from)|
    ensures AggregateEdges(g, tid, from)[k] == NamedEdge(g.reg, Other(g.aggregates[p], tid))
    ensures AggregateEdges(g, tid, from)[k + 1..] == AggregateEdges(g, tid, p + 1)
    decreases p - from
  {
    if from == p {
      k := 0;
    } else {
      k := AggregateEdgeAt(g, tid, from + 1, p);
      if g.aggregates[from].0 == tid || g.aggregates[from].1 == tid { k := k + 1; }
    }
  }

  lemma AggregateEdgesRepeat(g: Graph, t: Tid, p: nat, q: nat) returns (k: nat, l: nat)
    requires p < q < |g.aggregates| && g.aggregates[p] == g.aggregates[q]
    requires g.aggregates[p].0 == t || g.aggregates[p].1 == t
    ensures var es := AggregateEdges(g, t, 0);
      k < l < |es| && es[k] == es[l] == NamedEdge(g.reg, Other(g.aggregates[p], t))
  {
    k := AggregateEdgeAt(g, t, 0, p);
    l := AggregateEdgeAt(g, t, p + 1, q);
    var es := AggregateEdges(g, t, 0);
    assert es[k + 1 + l] == es[k + 1..][l];
    l := k + 1 + l;
  }

  lemma EqualEdgesBehind(before: seq<Edge>, es: seq<Edge>, k: nat, l: nat)
    requires k < l < |es| && es[k] == es[l]
    ensures var all := before + es;
      |before| + k < |before| + l < |all| && all[|before| + k] == all[|before| + l] == es[k]
  {
  }

  lemma AggregatesAreLast(g: Graph, t: Tid) returns (before: seq<Edge>)
    ensures Edges(g, t) == before + AggregateEdges(g, t, 0)
  {
    before := AttributeEdges(g.reg, g.reg.attributesOf(t), 0) + ChildEdges(g.reg, t, 0);
  }

  lemma EdgesRepeat(g: Graph, t: Tid, p: nat, q: nat) returns (k: nat, l: nat)
    requires p < q < |g.aggregates| && g.aggregates[p] == g.aggregates[q]
    requires g.aggregates[p].0 == t || g.aggregates[p].1 == t
    ensures k < l < |Edges(g, t)| && Edges(g, t)[k] == Edges(g, t)[l]
    ensures Edges(g, t)[k].target == Other(g.aggregates[p], t)
  {
    var before := AggregatesAreLast(g, t);
    k, l := AggregateEdgesRepeat(g, t, p, q);
    EqualEdgesBehind(before, AggregateEdges(g, t, 0), k, l);
    k, l := |before| + k, |before| + l;
  }

  lemma RepeatedAtItsEnd(g: Graph, root: Tid, u: Walk, p: nat, q: nat)
    requires Closed(g) && root in g.reg.registered && IsSimpleWalk(g, root, u)
    requires p < q < |g.aggregates| && g.aggregates[p] == g.aggregates[q]
    requires End(g, root, u) == g.aggregates[p].0 || End(g, root, u) == g.aggregates[p].1
    requires Other(g.aggregates[p], End(g, root, u)) !in Visited(g, root, u)
    ensures !Distinct(Recorded(g, root, [], []))
  {
    var k, l := EdgesRepeat(g, End(g, root, u), p, q);
    assert Fork(g, root, u, k, l);
    ForkRepeatsEntries(g, root, u, k, l);
  }

  lemma {:induction false} WalkSizes(g: Graph, tid: Tid, w: Walk)
    requires IsWalk(g, tid, w)
    ensures |Labels(g, tid, w)| == |w| && |Visited(g, tid, w)| == |w| + 1
    decreases |w|
  {
    if w != [] { WalkSizes(g, Edges(g, tid)[w[0]].target, w[1..]); }
  }

  lemma {:induction false} Prefix(g: Graph, tid: Tid, w: Walk, i: nat)
    requires IsWalk(g, tid, w) && i <= |w|
    ensures IsWalk(g, tid, w[..i])
    ensures Visited(g, tid, w[..i]) <= Visited(g, tid, w) && Labels(g, tid, w[..i]) <= Labels(g, tid, w)
    decreases i
  {
    if i == 0 {
      assert w[..0] == [];
    } else {
      Prefix(g, Edges(g, tid)[w[0]].target, w[1..], i - 1);
      assert w[..i][0] == w[0] && w[..i][1..] == w[1..][..i - 1];
    }
  }

  lemma FirstVisit(visited: seq<Tid>, a: Tid, b: Tid) returns (i: nat)
    requires a in visited || b in visited
    ensures i < |visited| && (visited[i] == a || visited[i] == b)
    ensures a !in visited[..i] && b !in visited[..i]
  {
    i := 0;
    while visited[i] != a && visited[i] != b
      invariant i < |visited| && a !in visited[..i] && b !in visited[..i]
      invariant a in visited[i..] || b in visited[i..]
      decreases |visited| - i
    {
      assert visited[i..] == [visited[i]] + visited[i + 1..];
      assert visited[..i + 1] == visited[..i] + [visited[i]];
      i := i + 1;
    }
  }

  /** The part of a walk up to its first visit of one of two types. */
  lemma CutAtFirstVisit(g: Graph, root: Tid, w: Walk, a: Tid, b: Tid) returns (u: Walk)
    requires IsSimpleWalk(g, root, w) && a != b && (a in Visited(g, root, w) || b in Visited(g, root, w))
    ensures IsSimpleWalk(g, root, u) && (End(g, root, u) == a || End(g, root, u) == b)
    ensures !(a in Visited(g, root, u) && b in Visited(g, root, u))
  {
    var visited := Visited(g, root, w);
    WalkSizes(g, root, w);
    var i := FirstVisit(visited, a, b);
    u := w[..i];
    Prefix(g, root, w, i);
    WalkSizes(g, root, u);
    StopsAt(visited, Visited(g, root, u), i, a, b);
  }

  lemma StopsAt(all: seq<Tid>, visited: seq<Tid>, i: nat, a: Tid, b: Tid)
    requires visited <= all && |visited| == i + 1 && Distinct(all) && a != b
    requires a !in all[..i] && b !in all[..i]
    ensures visited[i] == all[i] && Distinct(visited) && !(a in visited && b in visited)
  {
    assert visited == all[..i] + [all[i]];
  }

  /** An aggregation of two types that is recorded twice repeats entries as soon as any walk
      from the root visits either of them. */
  lemma RepeatedAggregationRepeatsEntries(g: Graph, root: Tid, w: Walk, p: nat, q: nat)
    requires Closed(g) && root in g.reg.registered && IsSimpleWalk(g, root, w)
    requires p < q < |g.aggregates| && g.aggregates[p] == g.aggregates[q] && g.aggregates[p].0 != g.aggregates[p].1
    requires g.aggregates[p].0 in Visited(g, root, w) || g.aggregates[p].1 in Visited(g, root, w)
    ensures !Distinct(Recorded(g, root, [], []))
  {
    var a, b := g.aggregates[p].0, g.aggregates[p].1;
    var u := CutAtFirstVisit(g, root, w, a, b);
    assert End(g, root, u) in Visited(g, root, u);
    RepeatedAtItsEnd(g, root, u, p, q);
  }

  /** Two types, aggregated twice. */
  const NODE_AND_PROTOCOL := Graph(
    Registry([0, 1], 2, t => if t == 0 then "Node" else "Protocol", _ => [], (_, _) => false, map[]),
    [(0, 1), (0, 1)])

  /** The smallest case: the aggregated type is recorded twice with one path. */
  lemma NodeAndProtocol()
    ensures Closed(NODE_AND_PROTOCOL) && !Distinct(Recorded(NODE_AND_PROTOCOL, 0, [], []))
  {
    var g := NODE_AND_PROTOCOL;
    forall t: Tid | t in g.reg.registered ensures EdgesRegistered(g, Edges(g, t)) {
      assert ChildEdges(g.reg, t, 2) == [] && ChildEdges(g.reg, t, 1) == [];
      assert AggregateEdges(g, t, 2) == [] && |AggregateEdges(g, t, 1)| == 1;
    }
    assert Visited(g, 0, []) == [0];
    RepeatedAggregationRepeatsEntries(g, 0, [], 0, 1);
  }

  // ---------- Readable names ----------

  /** Attribute names are unique in their type, cannot be mistaken for a type or for the index
      of a vector, and have no slash. */
  ghost predicate ReadableAttributes(attributes: seq<Attribute>) {
    (forall a | a in attributes :: '/' !in a.name && a.name != "[i]" && !("$" <= a.name))
    && forall i, j | 0 <= i < j < |attributes| :: attributes[i].name != attributes[j].name
  }

  /** Registered types have different names, and these have no slash. */
  ghost predicate Readable(r: Registry) {
    (forall t: Tid | t in r.registered :: '/' !in r.nameOf(t) && ReadableAttributes(r.attributesOf(t)))
    && forall t, t' | t in r.registered && t' in r.registered && r.nameOf(t) == r.nameOf(t') :: t == t'
  }

  /** The text before the first slash. */
  ghost function Segment(s: string): string {
    if s == "" || s[0] == '/' then "" else [s[0]] + Segment(s[1..])
  }

  /** A step of a path: a name, or a name with the index of a vector. */
  ghost predicate IsLabel(s: string) {
    Segment(s) != "[i]" && (s == Segment(s) || s == Segment(s) + "/[i]")
  }

  ghost predicate AllLabels(path: seq<string>) {
    forall s | s in path :: IsLabel(s)
  }

  lemma {:induction false} SegmentOf(a: string, x: string)
    requires '/' !in a && (x == "" || x[0] == '/')
    ensures Segment(a + x) == a
  {
    if a == "" {
      assert a + x == x;
    } else {
      assert (a + x)[0] == a[0] && (a + x)[1..] == a[1..] + x;
      SegmentOf(a[1..], x);
    }
  }

  lemma {:induction false} SegmentHasNoSlash(s: string)
    ensures '/' !in Segment(s)
  {
    if s != "" && s[0] != '/' { SegmentHasNoSlash(s[1..]); }
  }

  /** Reading from the front instead of from the back. */
  lemma {:induction false} PathFromFront(x: string, path: seq<string>)
    ensures PathString([x] + path) == "/" + (x + PathString(path))
  {
    var all := [x] + path;
    if path == [] {
      assert all == [x] && [x][..0] == [];
    } else {
      assert all[..|all| - 1] == [x] + path[..|path| - 1];
      PathFromFront(x, path[..|path| - 1]);
    }
  }

  lemma PathStartsWithSlash(path: seq<string>)
    ensures PathString(path) == "" <==> path == []
    ensures path != [] ==> PathString(path) == "/" + (path[0] + PathString(path[1..]))
    ensures path != [] ==> PathString(path)[0] == '/'
  {
    if path != [] {
      assert path == [path[0]] + path[1..];
      PathFromFront(path[0], path[1..]);
    }
  }

  /** What a label is followed by does not change its name. */
  lemma SegmentOfPath(s: string, path: seq<string>)
    requires IsLabel(s)
    ensures Segment(s + PathString(path)) == Segment(s)
  {
    var n := Segment(s);
    SegmentHasNoSlash(s);
    PathStartsWithSlash(path);
    if s == n {
      SegmentOf(n, PathString(path));
    } else {
      assert s + PathString(path) == n + ("/[i]" + PathString(path));
      SegmentOf(n, "/[i]" + PathString(path));
    }
  }

  lemma Cancel(s: string, x: string, y: string)
    requires s + x == s + y
    ensures x == y
  {
    assert (s + x)[|s|..] == x && (s + y)[|s|..] == y;
  }

  /** An index is never the beginning of a path behind a slash. */
  lemma NoIndexFirst(path: seq<string>, rest: seq<string>)
    requires AllLabels(path)
    ensures PathString(path) != "/[i]" + PathString(rest)
  {
    PathStartsWithSlash(path);
    if PathString(path) == "/[i]" + PathString(rest) {
      assert "/[i]" + PathString(rest) == "/" + ("[i]" + PathString(rest));
      Cancel("/", path[0] + PathString(path[1..]), "[i]" + PathString(rest));
      SegmentOfPath(path[0], path[1..]);
      PathStartsWithSlash(rest);
      SegmentOf("[i]", PathString(rest));
    }
  }

  lemma IndexMakesADifference(s: string, path: seq<string>, rest: seq<string>)
    requires AllLabels(path)
    ensures s + PathString(path) != s + "/[i]" + PathString(rest)
  {
    if s + PathString(path) == s + "/[i]" + PathString(rest) {
      assert s + "/[i]" + PathString(rest) == s + ("/[i]" + PathString(rest));
      Cancel(s, PathString(path), "/[i]" + PathString(rest));
      NoIndexFirst(path, rest);
    }
  }

  /** Equal paths have equal first labels. */
  lemma FirstLabel(s: string, path: seq<string>, s': string, path': seq<string>)
    requires IsLabel(s) && IsLabel(s') && AllLabels(path) && AllLabels(path')
    requires s + PathString(path) == s' + PathString(path')
    ensures s == s'
  {
    SegmentOfPath(s, path);
    SegmentOfPath(s', path');
    IndexMakesADifference(Segment(s), path, path');
    IndexMakesADifference(Segment(s), path', path);
  }

  /** A path string of readable labels can be read in one way only. */
  lemma {:induction false} PathStringIsInjective(p: seq<string>, q: seq<string>)
    requires AllLabels(p) && AllLabels(q) && PathString(p) == PathString(q)
    ensures p == q
  {
    PathStartsWithSlash(p);
    PathStartsWithSlash(q);
    if p != [] {
      var x, y := PathString(p[1..]), PathString(q[1..]);
      Cancel("/", p[0] + x, q[0] + y);
      FirstLabel(p[0], p[1..], q[0], q[1..]);
      Cancel(p[0], x, y);
      PathStringIsInjective(p[1..], q[1..]);
      assert p == [p[0]] + p[1..] && q == [q[0]] + q[1..];
    }
  }

  // ---------- Readable edges ----------

  lemma PlainLabel(name: string)
    requires '/' !in name && name != "[i]"
    ensures Segment(name) == Segment(name + "/[i]") == name && IsLabel(name) && IsLabel(name + "/[i]")
  {
    SegmentOf(name, "");
    assert name + "" == name;
    SegmentOf(name, "/[i]");
  }

  ghost predicate HasName(attributes: seq<Attribute>, i: nat, name: string) {
    exists j | i <= j < |attributes| :: attributes[j].name == name
  }

  /** An edge for an attribute carries its name. */
  ghost predicate Carries(attributes: seq<Attribute>, i: nat, e: Edge) {
    IsLabel(e.step) && !("$" <= e.step) && HasName(attributes, i, Segment(e.step))
  }

  lemma AttributeName(r: Registry, attributes: seq<Attribute>, i: nat)
    requires ReadableAttributes(attributes) && i < |attributes|
    ensures |AttributeEdge(r, attributes[i])| <= 1
    ensures forall e | e in AttributeEdge(r, attributes[i]) ::
      Segment(e.step) == attributes[i].name && Carries(attributes, i, e)
    ensures !HasName(attributes, i + 1, attributes[i].name)
  {
    assert attributes[i] in attributes;
    PlainLabel(attributes[i].name);
  }

  ghost predicate AllCarry(attributes: seq<Attribute>, i: nat, es: seq<Edge>) {
    forall e | e in es :: Carries(attributes, i, e)
  }

  ghost predicate DifferentSteps(es: seq<Edge>) {
    forall k, l | 0 <= k < l < |es| :: es[k].step != es[l].step
  }

  lemma {:induction false} AttributeNames(r: Registry, attributes: seq<Attribute>, i: nat)
    requires ReadableAttributes(attributes) && i <= |attributes|
    ensures AllCarry(attributes, i, AttributeEdges(r, attributes, i))
    ensures DifferentSteps(AttributeEdges(r, attributes, i))
    decreases |attributes| - i
  {
    if i < |attributes| {
      AttributeName(r, attributes, i);
      AttributeNames(r, attributes, i + 1);
      var first, rest := AttributeEdge(r, attributes[i]), AttributeEdges(r, attributes, i + 1);
      forall e | e in rest ensures Carries(attributes, i, e) && Segment(e.step) != attributes[i].name {
        assert Carries(attributes, i + 1, e);
      }
      AllDifferent(first, rest);
    }
  }

  lemma AllDifferent(first: seq<Edge>, rest: seq<Edge>)
    requires |first| <= 1 && DifferentSteps(rest)
    requires forall e, e' | e in first && e' in rest :: e.step != e'.step
    ensures DifferentSteps(first + rest)
  {
    var es := first + rest;
    forall k, l | 0 <= k < l < |es| ensures es[k].step != es[l].step {
      assert es[l] == rest[l - |first|];
      if k < |first| { assert first[k] in first && rest[l - |first|] in rest; }
    }
  }

  ghost predicate AllNamed(r: Registry, es: seq<Edge>) {
    forall e | e in es :: e == NamedEdge(r, e.target)
  }

  lemma {:induction false} ChildrenAreNamed(r: Registry, tid: Tid, j: nat)
    requires j <= |r.registered|
    ensures AllNamed(r, ChildEdges(r, tid, j))
    decreases |r.registered| - j
  {
    if j < |r.registered| { ChildrenAreNamed(r, tid, j + 1); }
  }

  lemma {:induction false} AggregatesAreNamed(g: Graph, tid: Tid, k: nat)
    requires k <= |g.aggregates|
    ensures AllNamed(g.reg, AggregateEdges(g, tid, k))
    decreases |g.aggregates| - k
  {
    if k < |g.aggregates| { AggregatesAreNamed(g, tid, k + 1); }
  }

  /** The edges of a type: first those with attribute names, then those with type names. */
  lemma EdgeNames(g: Graph, t: Tid) returns (attributes: seq<Edge>, named: seq<Edge>)
    requires Closed(g) && Readable(g.reg) && t in g.reg.registered
    ensures Edges(g, t) == attributes + named && EdgesRegistered(g, Edges(g, t))
    ensures AllNamed(g.reg, named) && DifferentSteps(attributes)
    ensures forall e | e in attributes :: IsLabel(e.step) && !("$" <= e.step)
  {
    attributes := AttributeEdges(g.reg, g.reg.attributesOf(t), 0);
    named := ChildEdges(g.reg, t, 0) + AggregateEdges(g, t, 0);
    AttributeNames(g.reg, g.reg.attributesOf(t), 0);
    assert forall e | e in attributes :: Carries(g.reg.attributesOf(t), 0, e);
    ChildrenAreNamed(g.reg, t, 0);
    AggregatesAreNamed(g, t, 0);
  }

  lemma NamedLabel(r: Registry, t: Tid)
    requires Readable(r) && t in r.registered
    ensures IsLabel(NamedEdge(r, t).step) && "$" <= NamedEdge(r, t).step
  {
    var name := "$" + r.nameOf(t);
    assert name[0] == '$' != '[';
    PlainLabel(name);
  }

  lemma StepsAreLabels(g: Graph, t: Tid, k: nat)
    requires Closed(g) && Readable(g.reg) && t in g.reg.registered && k < |Edges(g, t)|
    ensures IsLabel(Edges(g, t)[k].step)
  {
    var attributes, named := EdgeNames(g, t);
    var e := Edges(g, t)[k];
    if k < |attributes| {
      assert e in attributes;
    } else {
      assert e in named;
      NamedLabel(g.reg, e.target);
    }
  }

  /** Different edges of a type that have the same label are equal. */
  lemma SameStepSameEdge(g: Graph, t: Tid, k: nat, l: nat)
    requires Closed(g) && Readable(g.reg) && t in g.reg.registered && k < l < |Edges(g, t)|
    requires Edges(g, t)[k].step == Edges(g, t)[l].step
    ensures Edges(g, t)[k] == Edges(g, t)[l]
  {
    var attributes, named := EdgeNames(g, t);
    var e, e' := Edges(g, t)[k], Edges(g, t)[l];
    if l >= |attributes| {
      assert e' in named;
      NamedLabel(g.reg, e'.target);
      if k >= |attributes| {
        assert e in named;
        Cancel("$", g.reg.nameOf(e.target), g.reg.nameOf(e'.target));
      }
    }
  }

  lemma {:induction false} WalkLabels(g: Graph, tid: Tid, w: Walk)
    requires Closed(g) && Readable(g.reg) && tid in g.reg.registered && IsWalk(g, tid, w)
    ensures AllLabels(Labels(g, tid, w))
    decreases |w|
  {
    if w != [] {
      StepsAreLabels(g, tid, w[0]);
      assert EdgesRegistered(g, Edges(g, tid));
      WalkLabels(g, Edges(g, tid)[w[0]].target, w[1..]);
    }
  }

  // ---------- Equal paths ----------

  lemma {:induction false} EndIsRegistered(g: Graph, tid: Tid, w: Walk)
    requires Closed(g) && tid in g.reg.registered && IsWalk(g, tid, w)
    ensures End(g, tid, w) in g.reg.registered
    decreases |w|
  {
    if w != [] {
      assert EdgesRegistered(g, Edges(g, tid));
      TailEnd(g, tid, w);
      EndIsRegistered(g, Edges(g, tid)[w[0]].target, w[1..]);
    }
  }

  /** How a walk goes on after some edges. */
  lemma GoesOn(g: Graph, tid: Tid, w: Walk, i: nat)
    requires IsWalk(g, tid, w) && i < |w|
    ensures IsWalk(g, tid, w[..i]) && w[i] < |Edges(g, End(g, tid, w[..i]))|
    ensures var e := Edges(g, End(g, tid, w[..i]))[w[i]];
      Visited(g, tid, w[..i]) + [e.target] <= Visited(g, tid, w)
      && Labels(g, tid, w[..i]) + [e.step] <= Labels(g, tid, w)
  {
    Prefix(g, tid, w, i);
    Prefix(g, tid, w, i + 1);
    assert w[..i + 1] == w[..i] + [w[i]];
    Extended(g, tid, w[..i], w[i]);
  }

  lemma FirstDifference(v: Walk, w: Walk) returns (i: nat)
    requires |v| == |w| && v != w
    ensures i < |v| && v[..i] == w[..i] && v[i] != w[i]
  {
    i := 0;
    while v[i] == w[i]
      invariant i < |v| && v[..i] == w[..i] && v[i..] != w[i..]
      decreases |v| - i
    {
      assert v[i..] == [v[i]] + v[i + 1..] && w[i..] == [w[i]] + w[i + 1..];
      i := i + 1;
    }
  }

  /** Different walks with the same path string part at a fork. */
  lemma ConfusableWalksFork(g: Graph, root: Tid, v: Walk, w: Walk) returns (u: Walk, k: nat, l: nat)
    requires Closed(g) && Readable(g.reg) && root in g.reg.registered && Confusable(g, root, v, w)
    ensures Fork(g, root, u, k, l)
  {
    WalkLabels(g, root, v);
    WalkLabels(g, root, w);
    PathStringIsInjective(Labels(g, root, v), Labels(g, root, w));
    WalkSizes(g, root, v);
    WalkSizes(g, root, w);
    var i := FirstDifference(v, w);
    GoesOn(g, root, v, i);
    GoesOn(g, root, w, i);
    u, k, l := v[..i], v[i], w[i];
    EndIsRegistered(g, root, u);
    var e, e' := Edges(g, End(g, root, u))[k], Edges(g, End(g, root, u))[l];
    SameNext(Labels(g, root, u), e.step, e'.step, Labels(g, root, v));
    FreshNext(Visited(g, root, u), e.target, Visited(g, root, v));
    if l < k { k, l := l, k; }
    SameStepSameEdge(g, End(g, root, u), k, l);
  }

  lemma SameNext(front: seq<string>, x: string, y: string, all: seq<string>)
    requires front + [x] <= all && front + [y] <= all
    ensures x == y
  {
    assert (front + [x])[|front|] == all[|front|] == (front + [y])[|front|];
  }

  lemma FreshNext(front: seq<Tid>, t: Tid, all: seq<Tid>)
    requires front + [t] <= all && Distinct(all)
    ensures Distinct(front) && t !in front
  {
    assert forall i | 0 <= i < |front| :: all[i] == (front + [t])[i] == front[i];
    assert all[|front|] == (front + [t])[|front|] == t;
  }

  /** With readable names the entries of a gathering repeat exactly if a walk reaches two
      equal edges to a type where it has not been. */
  lemma EntriesRepeatExactlyAtForks(g: Graph, root: Tid)
    requires Closed(g) && Readable(g.reg) && root in g.reg.registered
    ensures !Distinct(Recorded(g, root, [], [])) <==> HasFork(g, root)
  {
    if !Distinct(Recorded(g, root, [], [])) {
      RepeatedExactlyIfConfusable(g, root);
      var v, w :| Confusable(g, root, v, w);
      var u, k, l := ConfusableWalksFork(g, root, v, w);
    }
    if u, k, l :| Fork(g, root, u, k, l) {
      ForkRepeatsEntries(g, root, u, k, l);
    }
  }

  // ---------- Several roots ----------

  ghost predicate Leaves(g: Graph, root: Tid, w: Walk, e: Entry) {
    IsSimpleWalk(g, root, w) && e == Entry(End(g, root, w), PathString(Labels(g, root, w)))
  }

  lemma RecordedMembers(g: Graph, root: Tid, e: Entry)
    requires Closed(g) && root in g.reg.registered
    ensures e in Recorded(g, root, [], []) <==> exists w :: Leaves(g, root, w, e)
  {
    var ws := GatherRecordsEverySimpleWalkOnce(g, root);
    var es := Recorded(g, root, [], []);
    if e in es {
      var i :| 0 <= i < |es| && es[i] == e;
      assert ws[i] in ws && Leaves(g, root, ws[i], e);
    }
    if w :| Leaves(g, root, w, e) {
      assert w in ws;
      var i :| 0 <= i < |ws| && ws[i] == w;
      assert es[i] == e;
    }
  }

  lemma {:induction false} RecordedFromMembers(g: Graph, roots: seq<Tid>, e: Entry)
    requires Closed(g) && forall r | r in roots :: r in g.reg.registered
    ensures e in RecordedFrom(g, roots)
       <==> exists r :: r in roots && e in Recorded(g, r, [], [])
  {
    if roots != [] {
      var front, last := roots[..|roots| - 1], roots[|roots| - 1];
      RecordedFromMembers(g, front, e);
      assert roots == front + [last];
      assert e in RecordedFrom(g, roots) <==> e in RecordedFrom(g, front) || e in Recorded(g, last, [], []);
      if e in RecordedFrom(g, front) {
        var r :| r in front && e in Recorded(g, r, [], []);
        assert r in roots;
      } else if r :| r in roots && e in Recorded(g, r, [], []) {
        assert r in front || r == last;
      }
    }
  }

  /** Walks from two roots that end in the same type and go there by the same labels. */
  ghost predicate Meet(g: Graph, r: Tid, r': Tid, v: Walk, w: Walk) {
    IsSimpleWalk(g, r, v) && IsSimpleWalk(g, r', w)
    && End(g, r, v) == End(g, r', w) && Labels(g, r, v) == Labels(g, r', w)
  }

  ghost predicate RootsMeet(g: Graph, r: Tid, r': Tid) {
    exists v, w :: Meet(g, r, r', v, w)
  }

  /** Two roots record an entry in common exactly if walks from them meet. */
  lemma CommonEntryExactlyIfRootsMeet(g: Graph, r: Tid, r': Tid)
    requires Closed(g) && Readable(g.reg) && r in g.reg.registered && r' in g.reg.registered
    ensures RootsMeet(g, r, r')
       <==> exists e :: e in Recorded(g, r, [], []) && e in Recorded(g, r', [], [])
  {
    if v, w :| Meet(g, r, r', v, w) {
      var e := Entry(End(g, r, v), PathString(Labels(g, r, v)));
      assert Leaves(g, r, v, e) && Leaves(g, r', w, e);
      RecordedMembers(g, r, e);
      RecordedMembers(g, r', e);
    }
    if e :| e in Recorded(g, r, [], []) && e in Recorded(g, r', [], []) {
      RecordedMembers(g, r, e);
      RecordedMembers(g, r', e);
      var v :| Leaves(g, r, v, e);
      var w :| Leaves(g, r', w, e);
      WalkLabels(g, r, v);
      WalkLabels(g, r', w);
      PathStringIsInjective(Labels(g, r, v), Labels(g, r', w));
      assert Meet(g, r, r', v, w);
    }
  }

  lemma DistinctConcat(a: seq<Entry>, b: seq<Entry>)
    ensures Distinct(a + b) <==> Distinct(a) && Distinct(b) && forall e | e in a :: e !in b
  {
    var all := a + b;
    assert forall i | 0 <= i < |a| :: all[i] == a[i];
    assert forall i | 0 <= i < |b| :: all[|a| + i] == b[i];
    if Distinct(a) && Distinct(b) && forall e | e in a :: e !in b {
      forall i, j | 0 <= i < j < |all| ensures all[i] != all[j] {
        if i < |a| <= j { assert a[i] in a && b[j - |a|] in b; }
      }
    }
  }

  /** Where the output may repeat entries: at a fork behind some root, or where two roots meet. */
  ghost predicate Separate(g: Graph, roots: seq<Tid>) {
    (forall r | r in roots :: !HasFork(g, r))
    && forall i, j | 0 <= i < j < |roots| :: !RootsMeet(g, roots[i], roots[j])
  }

  lemma SeparateSnoc(g: Graph, front: seq<Tid>, last: Tid)
    ensures Separate(g, front + [last])
       <==> Separate(g, front) && !HasFork(g, last) && forall r | r in front :: !RootsMeet(g, r, last)
  {
    var all := front + [last];
    assert all[|front|] == last && forall i | 0 <= i < |front| :: all[i] == front[i];
    assert forall r :: r in all <==> r in front || r == last;
  }

  /** With readable names the output of all roots together is free of repetitions exactly if
      there is no fork behind any of them and no two of them meet. */
  lemma {:induction false} OutputIsDistinctExactlyIfSeparate(g: Graph, roots: seq<Tid>)
    requires Closed(g) && Readable(g.reg) && forall r | r in roots :: r in g.reg.registered
    ensures Distinct(RecordedFrom(g, roots)) <==> Separate(g, roots)
  {
    if roots != [] {
      var front, last := roots[..|roots| - 1], roots[|roots| - 1];
      assert roots == front + [last];
      OutputIsDistinctExactlyIfSeparate(g, front);
      EntriesRepeatExactlyAtForks(g, last);
      SeparateSnoc(g, front, last);
      DistinctConcat(RecordedFrom(g, front), Recorded(g, last, [], []));
      NoCommonEntryExactlyIfNoneMeets(g, front, last);
    }
  }

  lemma NoCommonEntryExactlyIfNoneMeets(g: Graph, roots: seq<Tid>, last: Tid)
    requires Closed(g) && Readable(g.reg)
    requires last in g.reg.registered && forall r | r in roots :: r in g.reg.registered
    ensures (forall e | e in RecordedFrom(g, roots) :: e !in Recorded(g, last, [], []))
       <==> forall r | r in roots :: !RootsMeet(g, r, last)
  {
    if r :| r in roots && RootsMeet(g, r, last) {
      var e := MeetingRootsShare(g, roots, r, last);
    }
    if e :| e in RecordedFrom(g, roots) && e in Recorded(g, last, [], []) {
      var r := SharedEntryMeets(g, roots, last, e);
    }
  }

  lemma MeetingRootsShare(g: Graph, roots: seq<Tid>, r: Tid, last: Tid) returns (e: Entry)
    requires Closed(g) && Readable(g.reg) && last in g.reg.registered && forall r | r in roots :: r in g.reg.registered
    requires r in roots && RootsMeet(g, r, last)
    ensures e in RecordedFrom(g, roots) && e in Recorded(g, last, [], [])
  {
    CommonEntryExactlyIfRootsMeet(g, r, last);
    e :| e in Recorded(g, r, [], []) && e in Recorded(g, last, [], []);
    RecordedFromMembers(g, roots, e);
  }

  lemma SharedEntryMeets(g: Graph, roots: seq<Tid>, last: Tid, e: Entry) returns (r: Tid)
    requires Closed(g) && Readable(g.reg) && last in g.reg.registered && forall r | r in roots :: r in g.reg.registered
    requires e in RecordedFrom(g, roots) && e in Recorded(g, last, [], [])
    ensures r in roots && RootsMeet(g, r, last)
  {
    RecordedFromMembers(g, roots, e);
    r :| r in roots && e in Recorded(g, r, [], []);
    CommonEntryExactlyIfRootsMeet(g, r, last);
  }
}
