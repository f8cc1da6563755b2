/** What the edges of the type graph of utils/print-introspected-doxygen.cc are, in terms of the
    registry and the recorded aggregations alone. */
module GraphEdges {
  import opened Common
  import opened TypePaths

  ghost predicate Increasing(s: seq<nat>) {
    forall i, j | 0 <= i < j < |s| :: s[i] < s[j]
  }

  /** The wanted numbers from some number on, in order and each once. */
  ghost predicate Picks(s: seq<nat>, from: nat, wanted: nat -> bool) {
    Increasing(s) && forall i: nat :: i in s <==> from <= i && wanted(i)
  }

  lemma PickNext(s: seq<nat>, from: nat, wanted: nat -> bool) returns (all: seq<nat>)
    requires Picks(s, from + 1, wanted)
    ensures all == (if wanted(from) then [from] + s else s) && Picks(all, from, wanted)
  {
    all := if wanted(from) then [from] + s else s;
    assert forall i | 0 <= i < |s| :: s[i] in s;
    assert forall i: nat :: i in all <==> (wanted(from) && i == from) || i in s;
  }

  // ---------- The three groups ----------

  /** The attribute is a pointer to something else than the root class, or a vector. */
  function IsFollowed(r: Registry, attributes: seq<Attribute>): nat -> bool {
    (i: nat) => i < |attributes| && match attributes[i]
      case PointerAttribute(_, pointee) => pointee != r.objectTid
      case VectorAttribute(_, _) => true
      case PlainAttribute(_) => false
  }

  function IsChild(r: Registry, t: Tid): nat -> bool {
    (i: nat) => i < |r.registered| && r.isChildOf(r.registered[i], t)
  }

  /** The type is at one end of the recorded pair. */
  function IsAggregated(pairs: seq<(Tid, Tid)>, t: Tid): nat -> bool {
    (i: nat) => i < |pairs| && (pairs[i].0 == t || pairs[i].1 == t)
  }

  /** A pointer is labelled with the name of the attribute, a vector also with an index. */
  predicate ForAttribute(e: Edge, a: Attribute) {
    match a
    case PointerAttribute(name, pointee) => e == Edge(name, pointee)
    case VectorAttribute(name, item) => e == Edge(name + "/[i]", item)
    case PlainAttribute(_) => false
  }

  /** A type is labelled with a dollar sign and its name. */
  predicate ForType(r: Registry, e: Edge, t: Tid) {
    e.target == t && e.step == "$" + r.nameOf(t)
  }

  /** It leads from one end of the pair to the other. */
  predicate ForPair(r: Registry, e: Edge, pair: (Tid, Tid), t: Tid) {
    (pair.0 == t && ForType(r, e, pair.1)) || (pair.1 == t && ForType(r, e, pair.0))
  }

  lemma {:induction false} AttributePicks(r: Registry, attributes: seq<Attribute>, from: nat) returns (s: seq<nat>)
    requires from <= |attributes|
    ensures Picks(s, from, IsFollowed(r, attributes))
    ensures var es := AttributeEdges(r, attributes, from);
      |es| == |s| && forall k | 0 <= k < |s| :: s[k] < |attributes| && ForAttribute(es[k], attributes[s[k]])
    decreases |attributes| - from
  {
    if from == |attributes| {
      s := [];
    } else {
      s := AttributePicks(r, attributes, from + 1);
      s := PickNext(s, from, IsFollowed(r, attributes));
    }
  }

  lemma {:induction false} ChildPicks(r: Registry, t: Tid, from: nat) returns (s: seq<nat>)
    requires from <= |r.registered|
    ensures Picks(s, from, IsChild(r, t))
    ensures var es := ChildEdges(r, t, from);
      |es| == |s| && forall k | 0 <= k < |s| :: s[k] < |r.registered| && ForType(r, es[k], r.registered[s[k]])
    decreases |r.registered| - from
  {
    if from == |r.registered| {
      s := [];
    } else {
      s := ChildPicks(r, t, from + 1);
      s := PickNext(s, from, IsChild(r, t));
    }
  }

  /** The edges are for the pairs with these numbers. */
  ghost predicate PairsMatch(g: Graph, t: Tid, es: seq<Edge>, s: seq<nat>) {
    |es| == |s|
    && forall k | 0 <= k < |s| :: s[k] < |g.aggregates| && ForPair(g.reg, es[k], g.aggregates[s[k]], t)
  }

  lemma {:induction false} AggregatePicks(g: Graph, t: Tid, from: nat) returns (s: seq<nat>)
    requires from <= |g.aggregates|
    ensures Picks(s, from, IsAggregated(g.aggregates, t)) && PairsMatch(g, t, AggregateEdges(g, t, from), s)
    decreases |g.aggregates| - from
  {
    if from == |g.aggregates| {
      s := [];
    } else {
      var rest := AggregatePicks(g, t, from + 1);
      PairsMatchNext(g, t, from, AggregateEdges(g, t, from + 1), rest);
      s := PickNext(rest, from, IsAggregated(g.aggregates, t));
    }
  }

  lemma PairsMatchNext(g: Graph, t: Tid, from: nat, es: seq<Edge>, s: seq<nat>)
    requires from < |g.aggregates| && PairsMatch(g, t, es, s)
    ensures PairsMatch(g, t, AggregateEdge(g.reg, g.aggregates[from], t) + es,
                       if IsAggregated(g.aggregates, t)(from) then [from] + s else s)
  {
    PairEdge(g.reg, g.aggregates[from], t);
  }

  lemma PairEdge(r: Registry, pair: (Tid, Tid), t: Tid)
    ensures var es := AggregateEdge(r, pair, t);
      if pair.0 == t || pair.1 == t then |es| == 1 && ForPair(r, es[0], pair, t) else es == []
  {
  }

  // ---------- Main results ----------

  /** The edges of a type, one by one: an edge for each attribute that is followed, then one for
      each registered child, then one for each recorded pair with the type at an end; each group
      in the order of what it comes from. */
  lemma EdgesInOrder(g: Graph, t: Tid) returns (attributes: seq<nat>, children: seq<nat>, pairs: seq<nat>)
    ensures Picks(attributes, 0, IsFollowed(g.reg, g.reg.attributesOf(t)))
    ensures Picks(children, 0, IsChild(g.reg, t))
    ensures Picks(pairs, 0, IsAggregated(g.aggregates, t))
    ensures |Edges(g, t)| == |attributes| + |children| + |pairs|
    ensures forall k | 0 <= k < |attributes| ::
      attributes[k] < |g.reg.attributesOf(t)| && ForAttribute(Edges(g, t)[k], g.reg.attributesOf(t)[attributes[k]])
    ensures forall k | 0 <= k < |children| ::
      children[k] < |g.reg.registered|
      && ForType(g.reg, Edges(g, t)[|attributes| + k], g.reg.registered[children[k]])
    ensures forall k | 0 <= k < |pairs| ::
      pairs[k] < |g.aggregates|
      && ForPair(g.reg, Edges(g, t)[|attributes| + |children| + k], g.aggregates[pairs[k]], t)
  {
    attributes := AttributePicks(g.reg, g.reg.attributesOf(t), 0);
    children := ChildPicks(g.reg, t, 0);
    pairs := AggregatePicks(g, t, 0);
  }

  /** The edge is for a followed attribute. */
  predicate Leads(r: Registry, a: Attribute, e: Edge) {
    ForAttribute(e, a) && (a.PointerAttribute? ==> a.pointee != r.objectTid)
  }

  lemma {:induction false} AttributeMembers(r: Registry, attributes: seq<Attribute>, from: nat, e: Edge)
    requires from <= |attributes|
    ensures e in AttributeEdges(r, attributes, from) <==> exists a :: a in attributes[from..] && Leads(r, a, e)
    decreases |attributes| - from
  {
    if from < |attributes| {
      AttributeMembers(r, attributes, from + 1, e);
      assert attributes[from..] == [attributes[from]] + attributes[from + 1..];
      assert e in AttributeEdge(r, attributes[from]) <==> Leads(r, attributes[from], e);
    }
  }

  lemma {:induction false} ChildMembers(r: Registry, t: Tid, from: nat, e: Edge)
    requires from <= |r.registered|
    ensures e in ChildEdges(r, t, from)
       <==> exists c :: c in r.registered[from..] && r.isChildOf(c, t) && ForType(r, e, c)
    decreases |r.registered| - from
  {
    if from < |r.registered| {
      ChildMembers(r, t, from + 1, e);
      assert r.registered[from..] == [r.registered[from]] + r.registered[from + 1..];
    }
  }

  lemma {:induction false} AggregateMembers(g: Graph, t: Tid, from: nat, e: Edge)
    requires from <= |g.aggregates|
    ensures e in AggregateEdges(g, t, from) <==> exists p :: p in g.aggregates[from..] && ForPair(g.reg, e, p, t)
    decreases |g.aggregates| - from
  {
    if from < |g.aggregates| {
      AggregateMembers(g, t, from + 1, e);
      assert g.aggregates[from..] == [g.aggregates[from]] + g.aggregates[from + 1..];
      assert e in AggregateEdge(g.reg, g.aggregates[from], t) <==> ForPair(g.reg, e, g.aggregates[from], t);
    }
  }

  /** The four kinds of edges, and no others. */
  lemma EdgesExactly(g: Graph, t: Tid, e: Edge)
    ensures e in Edges(g, t) <==>
      || (exists a :: a in g.reg.attributesOf(t) && a.PointerAttribute? && a.pointee != g.reg.objectTid
                      && e == Edge(a.name, a.pointee))
      || (exists a :: a in g.reg.attributesOf(t) && a.VectorAttribute? && e == Edge(a.name + "/[i]", a.item))
      || (exists c :: c in g.reg.registered && g.reg.isChildOf(c, t) && e == Edge("$" + g.reg.nameOf(c), c))
      || (exists p :: p in g.aggregates
                      && ((p.0 == t && e == Edge("$" + g.reg.nameOf(p.1), p.1))
                          || (p.1 == t && e == Edge("$" + g.reg.nameOf(p.0), p.0))))
  {
    AttributeMembers(g.reg, g.reg.attributesOf(t), 0, e);
    ChildMembers(g.reg, t, 0, e);
    AggregateMembers(g, t, 0, e);
    WholeLists(g, t);
    AttributeKinds(g, t, e);
  }

  lemma WholeLists(g: Graph, t: Tid)
    ensures g.reg.attributesOf(t)[0..] == g.reg.attributesOf(t)
    ensures g.reg.registered[0..] == g.reg.registered && g.aggregates[0..] == g.aggregates
  {
  }

  lemma AttributeKinds(g: Graph, t: Tid, e: Edge)
    ensures (exists a :: a in g.reg.attributesOf(t) && Leads(g.reg, a, e)) <==>
      || (exists a :: a in g.reg.attributesOf(t) && a.PointerAttribute? && a.pointee != g.reg.objectTid
                      && e == Edge(a.name, a.pointee))
      || (exists a :: a in g.reg.attributesOf(t) && a.VectorAttribute? && e == Edge(a.name + "/[i]", a.item))
  {
  }
}
