/** The configuration-path enumerator of utils/print-introspected-doxygen.cc.

    `StaticInformation.DoGather` walks a cyclic, labelled multigraph of types with
    two explicit stacks.  It is proved against `Recorded`, and `Recorded` is proved
    to list every simple walk of the graph exactly once, in lexicographic order of
    the edge numbers. */
module TypePaths {
  import opened Common

  type Tid = nat

  /** An attribute, classified by the checker that the type system attaches to it. */
  datatype Attribute =
    | PointerAttribute(name: string, pointee: Tid)
    | VectorAttribute(name: string, item: Tid)
    | PlainAttribute(name: string)

  /** What the type system answers: fixed while paths are gathered. */
  datatype Registry = Registry(
    registered: seq<Tid>,
    objectTid: Tid,
    nameOf: Tid -> string,
    attributesOf: Tid -> seq<Attribute>,
    isChildOf: (Tid, Tid) -> bool,
    lookup: map<string, Tid>)

  datatype Graph = Graph(reg: Registry, aggregates: seq<(Tid, Tid)>)

  datatype Edge = Edge(step: string, target: Tid)

  datatype Entry = Entry(tid: Tid, path: string)

  // ---------- The edges leaving a type, in the order in which they are followed ----------

  /** A pointer to the root class of all objects is not followed. */
  function AttributeEdge(r: Registry, a: Attribute): seq<Edge> {
    match a
    case PointerAttribute(name, pointee) => if pointee == r.objectTid then [] else [Edge(name, pointee)]
    case VectorAttribute(name, item) => [Edge(name + "/[i]", item)]
    case PlainAttribute(_) => []
  }

  function AttributeEdges(r: Registry, attributes: seq<Attribute>, i: nat): seq<Edge>
    requires i <= |attributes|
    decreases |attributes| - i
  {
    if i == |attributes| then []
    else AttributeEdge(r, attributes[i]) + AttributeEdges(r, attributes, i + 1)
  }

  function NamedEdge(r: Registry, t: Tid): Edge {
    Edge("$" + r.nameOf(t), t)
  }

  function ChildEdge(r: Registry, child: Tid, tid: Tid): seq<Edge> {
    if r.isChildOf(child, tid) then [NamedEdge(r, child)] else []
  }

  function ChildEdges(r: Registry, tid: Tid, j: nat): seq<Edge>
    requires j <= |r.registered|
    decreases |r.registered| - j
  {
    if j == |r.registered| then []
    else ChildEdge(r, r.registered[j], tid) + ChildEdges(r, tid, j + 1)
  }

  /** The other end of an aggregation; a type aggregated to itself is its own other end. */
  function Other(item: (Tid, Tid), tid: Tid): Tid {
    if item.1 == tid then item.0 else item.1
  }

  function AggregateEdge(r: Registry, item: (Tid, Tid), tid: Tid): seq<Edge> {
    if item.0 == tid || item.1 == tid then [NamedEdge(r, Other(item, tid))] else []
  }

  function AggregateEdges(g: Graph, tid: Tid, k: nat): seq<Edge>
    requires k <= |g.aggregates|
    decreases |g.aggregates| - k
  {
    if k == |g.aggregates| then []
    else AggregateEdge(g.reg, g.aggregates[k], tid) + AggregateEdges(g, tid, k + 1)
  }

  function Edges(g: Graph, tid: Tid): seq<Edge> {
    AttributeEdges(g.reg, g.reg.attributesOf(tid), 0) + (ChildEdges(g.reg, tid, 0) + AggregateEdges(g, tid, 0))
  }

  /** Every edge leads to a registered type, as it does for the types of the library. */
  ghost predicate Closed(g: Graph) {
    forall t: Tid | t in g.reg.registered :: EdgesRegistered(g, Edges(g, t))
  }

  ghost predicate EdgesRegistered(g: Graph, es: seq<Edge>) {
    forall i | 0 <= i < |es| :: es[i].target in g.reg.registered
  }

  // ---------- What one gathering records ----------

  /** `GetCurrentPath`: every item of the path behind a slash. */
  function PathString(path: seq<string>): string {
    if path == [] then "" else PathString(path[..|path| - 1]) + "/" + path[|path| - 1]
  }

  /** The registered types that are not on the current path: the termination measure. */
  ghost function Unprocessed(g: Graph, processed: seq<Tid>): set<Tid> {
    set t | t in g.reg.registered && t !in processed
  }

  lemma UnprocessedShrinks(g: Graph, processed: seq<Tid>, tid: Tid)
    requires tid in g.reg.registered && tid !in processed
    ensures Unprocessed(g, processed + [tid]) < Unprocessed(g, processed)
  {
    assert tid in Unprocessed(g, processed) && tid !in Unprocessed(g, processed + [tid]);
  }

  ghost function Recorded(g: Graph, tid: Tid, path: seq<string>, processed: seq<Tid>): seq<Entry>
    requires Closed(g) && tid in g.reg.registered
    decreases Unprocessed(g, processed), 0
  {
    if tid in processed then []
    else
      UnprocessedShrinks(g, processed, tid);
      [Entry(tid, PathString(path))] + RecordedAlong(g, Edges(g, tid), path, processed + [tid])
  }

  ghost function RecordedAlong(g: Graph, es: seq<Edge>, path: seq<string>, processed: seq<Tid>): seq<Entry>
    requires Closed(g) && EdgesRegistered(g, es)
    decreases Unprocessed(g, processed), |es| + 1
  {
    if es == [] then []
    else Recorded(g, es[0].target, path + [es[0].step], processed)
         + RecordedAlong(g, es[1..], path, processed)
  }

  // ---------- Simple walks, independently of any traversal ----------

  /** A walk is a sequence of edge numbers, so parallel edges give different walks. */
  type Walk = seq<nat>

  ghost predicate IsWalk(g: Graph, tid: Tid, w: Walk)
    decreases |w|
  {
    w == [] || (w[0] < |Edges(g, tid)| && IsWalk(g, Edges(g, tid)[w[0]].target, w[1..]))
  }

  ghost function Visited(g: Graph, tid: Tid, w: Walk): seq<Tid>
    requires IsWalk(g, tid, w)
    decreases |w|
  {
    [tid] + if w == [] then [] else Visited(g, Edges(g, tid)[w[0]].target, w[1..])
  }

  ghost function Labels(g: Graph, tid: Tid, w: Walk): seq<string>
    requires IsWalk(g, tid, w)
    decreases |w|
  {
    if w == [] then []
    else var e := Edges(g, tid)[w[0]]; [e.step] + Labels(g, e.target, w[1..])
  }

  ghost predicate Avoids(s: seq<Tid>, processed: seq<Tid>) {
    forall t | t in s :: t !in processed
  }

  /** No type occurs twice on the walk, the first one included. */
  ghost predicate IsSimpleWalk(g: Graph, root: Tid, w: Walk) {
    IsWalk(g, root, w) && Distinct(Visited(g, root, w))
  }

  /** The type in which a walk ends. */
  ghost function End(g: Graph, tid: Tid, w: Walk): Tid
    requires IsWalk(g, tid, w)
  {
    Visited(g, tid, w)[|Visited(g, tid, w)| - 1]
  }

  /** Lexicographic order on walks, a prefix before its extensions. */
  ghost predicate Before(v: Walk, w: Walk) {
    w != [] && (v == [] || v[0] < w[0] || (v[0] == w[0] && Before(v[1..], w[1..])))
  }

  ghost predicate Ascending(ws: seq<Walk>) {
    forall i, j | 0 <= i < j < |ws| :: Before(ws[i], ws[j])
  }

  // ---------- The walks behind the recorded entries ----------

  ghost function Prefixed(k: nat, ws: seq<Walk>): seq<Walk> {
    seq(|ws|, i requires 0 <= i < |ws| => [k] + ws[i])
  }

  ghost function Walks(g: Graph, tid: Tid, processed: seq<Tid>): seq<Walk>
    requires Closed(g) && tid in g.reg.registered
    decreases Unprocessed(g, processed), 0
  {
    if tid in processed then []
    else
      UnprocessedShrinks(g, processed, tid);
      [[]] + WalksFrom(g, tid, 0, processed + [tid])
  }

  ghost function WalksFrom(g: Graph, tid: Tid, k: nat, processed: seq<Tid>): seq<Walk>
    requires Closed(g) && tid in g.reg.registered && k <= |Edges(g, tid)|
    decreases Unprocessed(g, processed), |Edges(g, tid)| - k + 1
  {
    if k == |Edges(g, tid)| then []
    else Prefixed(k, Walks(g, Edges(g, tid)[k].target, processed)) + WalksFrom(g, tid, k + 1, processed)
  }

  /** The entry that belongs to a walk. */
  ghost function EntryOf(g: Graph, tid: Tid, path: seq<string>, w: Walk): Entry
    requires IsWalk(g, tid, w)
  {
    Entry(End(g, tid, w), PathString(path + Labels(g, tid, w)))
  }

  ghost predicate AllWalks(g: Graph, tid: Tid, ws: seq<Walk>) {
    forall i | 0 <= i < |ws| :: IsWalk(g, tid, ws[i])
  }

  ghost function EntriesOf(g: Graph, tid: Tid, path: seq<string>, ws: seq<Walk>): seq<Entry>
    requires AllWalks(g, tid, ws)
  {
    seq(|ws|, i requires 0 <= i < |ws| => EntryOf(g, tid, path, ws[i]))
  }

  /** Exactly the walks that repeat no type and avoid the types already on the path. */
  lemma {:induction false} WalksAreTheSimpleWalks(g: Graph, tid: Tid, processed: seq<Tid>, w: Walk)
    requires Closed(g) && tid in g.reg.registered
    ensures w in Walks(g, tid, processed)
       <==> IsSimpleWalk(g, tid, w) && Avoids(Visited(g, tid, w), processed)
    decreases Unprocessed(g, processed), 0
  {
    if tid in processed {
      if IsWalk(g, tid, w) { assert Visited(g, tid, w)[0] == tid; }
    } else {
      UnprocessedShrinks(g, processed, tid);
      var rest := WalksFrom(g, tid, 0, processed + [tid]);
      assert Walks(g, tid, processed) == [[]] + rest;
      WalksFromAreTheSimpleWalks(g, tid, 0, processed + [tid], w);
      if w == [] {
        assert ([[]] + rest)[0] == w;
      } else {
        assert w in Walks(g, tid, processed) <==> w in rest;
        if IsWalk(g, tid, w) {
          StepKeepsSimple(g, tid, processed, w);
        }
      }
    }
  }

  lemma StepKeepsSimple(g: Graph, tid: Tid, processed: seq<Tid>, w: Walk)
    requires IsWalk(g, tid, w) && w != [] && tid !in processed
    ensures var t := Edges(g, tid)[w[0]].target;
      (Distinct(Visited(g, tid, w)) && Avoids(Visited(g, tid, w), processed))
      <==> (Distinct(Visited(g, t, w[1..])) && Avoids(Visited(g, t, w[1..]), processed + [tid]))
  {
    FreshHead(tid, Visited(g, Edges(g, tid)[w[0]].target, w[1..]), processed);
  }

  lemma FreshHead(t: Tid, tail: seq<Tid>, processed: seq<Tid>)
    requires t !in processed
    ensures (Distinct([t] + tail) && Avoids([t] + tail, processed))
       <==> (Distinct(tail) && Avoids(tail, processed + [t]))
  {
    var all := [t] + tail;
    assert all[1..] == tail;
    if Distinct(all) && Avoids(all, processed) {
      forall x | x in tail ensures x !in processed + [t] {
        assert x in all;
        assert all[0] != x;
      }
    }
    if Distinct(tail) && Avoids(tail, processed + [t]) {
      forall i, j | 0 <= i < j < |all| ensures all[i] != all[j] {
        assert tail[j - 1] in tail;
      }
    }
  }

  lemma {:induction false} WalksFromAreTheSimpleWalks(g: Graph, tid: Tid, k: nat, processed: seq<Tid>, w: Walk)
    requires Closed(g) && tid in g.reg.registered && k <= |Edges(g, tid)|
    ensures w in WalksFrom(g, tid, k, processed)
       <==> w != [] && k <= w[0] < |Edges(g, tid)|
            && var t := Edges(g, tid)[w[0]].target;
               IsSimpleWalk(g, t, w[1..]) && Avoids(Visited(g, t, w[1..]), processed)
    decreases Unprocessed(g, processed), |Edges(g, tid)| - k + 1
  {
    if k < |Edges(g, tid)| {
      var t := Edges(g, tid)[k].target;
      var here := Walks(g, t, processed);
      WalksFromAreTheSimpleWalks(g, tid, k + 1, processed, w);
      if w != [] { WalksAreTheSimpleWalks(g, t, processed, w[1..]); }
      PrefixedMembers(k, here, w);
    }
  }

  lemma PrefixedMembers(k: nat, ws: seq<Walk>, w: Walk)
    ensures w in Prefixed(k, ws) <==> w != [] && w[0] == k && w[1..] in ws
  {
    if w in Prefixed(k, ws) {
      var i :| 0 <= i < |ws| && Prefixed(k, ws)[i] == w;
      assert w[1..] == ws[i];
    }
    if w != [] && w[0] == k && w[1..] in ws {
      var i :| 0 <= i < |ws| && ws[i] == w[1..];
      assert w == [k] + w[1..] == Prefixed(k, ws)[i];
    }
  }

  /** The walks come in strictly ascending order, so none comes twice. */
  lemma {:induction false} WalksAscend(g: Graph, tid: Tid, processed: seq<Tid>)
    requires Closed(g) && tid in g.reg.registered
    ensures Ascending(Walks(g, tid, processed))
    decreases Unprocessed(g, processed), 0
  {
    if tid !in processed {
      UnprocessedShrinks(g, processed, tid);
      WalksFromAscend(g, tid, 0, processed + [tid]);
    }
  }

  lemma {:induction false} WalksFromAscend(g: Graph, tid: Tid, k: nat, processed: seq<Tid>)
    requires Closed(g) && tid in g.reg.registered && k <= |Edges(g, tid)|
    ensures Ascending(WalksFrom(g, tid, k, processed))
    ensures forall i | 0 <= i < |WalksFrom(g, tid, k, processed)| ::
      var w := WalksFrom(g, tid, k, processed)[i]; w != [] && k <= w[0]
    decreases Unprocessed(g, processed), |Edges(g, tid)| - k + 1
  {
    if k < |Edges(g, tid)| {
      var here := Walks(g, Edges(g, tid)[k].target, processed);
      WalksAscend(g, Edges(g, tid)[k].target, processed);
      WalksFromAscend(g, tid, k + 1, processed);
      var first, rest := Prefixed(k, here), WalksFrom(g, tid, k + 1, processed);
      forall i, j | 0 <= i < j < |first| ensures Before(first[i], first[j]) {
        assert first[i][1..] == here[i] && first[j][1..] == here[j];
      }
      forall i, j | 0 <= i < j < |first + rest| ensures Before((first + rest)[i], (first + rest)[j]) {
        if i >= |first| { assert Before(rest[i - |first|], rest[j - |first|]); }
      }
    }
  }

  lemma {:induction false} BeforeIsIrreflexive(w: Walk)
    ensures !Before(w, w)
  {
    if w != [] { BeforeIsIrreflexive(w[1..]); }
  }

  lemma AscendingIsDistinct(ws: seq<Walk>)
    requires Ascending(ws)
    ensures Distinct(ws)
  {
    forall i, j | 0 <= i < j < |ws| ensures ws[i] != ws[j] {
      assert Before(ws[i], ws[j]);
      BeforeIsIrreflexive(ws[j]);
    }
  }

  lemma WalksAreWalks(g: Graph, tid: Tid, processed: seq<Tid>)
    requires Closed(g) && tid in g.reg.registered
    ensures AllWalks(g, tid, Walks(g, tid, processed))
  {
    forall i | 0 <= i < |Walks(g, tid, processed)| ensures IsWalk(g, tid, Walks(g, tid, processed)[i]) {
      WalksAreTheSimpleWalks(g, tid, processed, Walks(g, tid, processed)[i]);
    }
  }

  /** One entry per walk, in the same order: its last type and its labels. */
  lemma {:induction false} RecordedAreTheWalks(g: Graph, tid: Tid, path: seq<string>, processed: seq<Tid>)
    requires Closed(g) && tid in g.reg.registered
    ensures AllWalks(g, tid, Walks(g, tid, processed))
    ensures Recorded(g, tid, path, processed) == EntriesOf(g, tid, path, Walks(g, tid, processed))
    decreases Unprocessed(g, processed), 0
  {
    WalksAreWalks(g, tid, processed);
    if tid !in processed {
      UnprocessedShrinks(g, processed, tid);
      assert Edges(g, tid)[0..] == Edges(g, tid);
      RecordedAlongTheWalks(g, tid, 0, path, processed + [tid]);
      EmptyWalkEntry(g, tid, path);
      EntriesOfConcat(g, tid, path, [[]], WalksFrom(g, tid, 0, processed + [tid]));
    }
  }

  lemma EmptyWalkEntry(g: Graph, tid: Tid, path: seq<string>)
    ensures AllWalks(g, tid, [[]]) && EntriesOf(g, tid, path, [[]]) == [Entry(tid, PathString(path))]
  {
    assert path + Labels(g, tid, []) == path;
    assert EntryOf(g, tid, path, []) == Entry(tid, PathString(path));
  }

  lemma AlongStep(g: Graph, tid: Tid, k: nat, path: seq<string>, processed: seq<Tid>)
    requires Closed(g) && tid in g.reg.registered && k < |Edges(g, tid)|
    ensures var e := Edges(g, tid)[k];
      RecordedAlong(g, Edges(g, tid)[k..], path, processed)
      == Recorded(g, e.target, path + [e.step], processed)
         + RecordedAlong(g, Edges(g, tid)[k + 1..], path, processed)
  {
    var es := Edges(g, tid);
    assert es[k..] == [es[k]] + es[k + 1..];
    TakeEdge(g, es[k], es[k + 1..], path, processed);
  }

  lemma EntriesOfConcat(g: Graph, tid: Tid, path: seq<string>, a: seq<Walk>, b: seq<Walk>)
    requires AllWalks(g, tid, a) && AllWalks(g, tid, b)
    ensures AllWalks(g, tid, a + b)
    ensures EntriesOf(g, tid, path, a + b) == EntriesOf(g, tid, path, a) + EntriesOf(g, tid, path, b)
  {
    var all := a + b;
    forall i | 0 <= i < |all| ensures IsWalk(g, tid, all[i]) {
      assert all[i] == if i < |a| then a[i] else b[i - |a|];
    }
    var es := EntriesOf(g, tid, path, a) + EntriesOf(g, tid, path, b);
    forall i | 0 <= i < |all| ensures EntryOf(g, tid, path, all[i]) == es[i] {
      assert all[i] == if i < |a| then a[i] else b[i - |a|];
    }
  }

  lemma {:induction false} RecordedAlongTheWalks(g: Graph, tid: Tid, k: nat, path: seq<string>, processed: seq<Tid>)
    requires Closed(g) && tid in g.reg.registered && k <= |Edges(g, tid)|
    ensures AllWalks(g, tid, WalksFrom(g, tid, k, processed))
    ensures RecordedAlong(g, Edges(g, tid)[k..], path, processed)
         == EntriesOf(g, tid, path, WalksFrom(g, tid, k, processed))
    decreases Unprocessed(g, processed), |Edges(g, tid)| - k + 1
  {
    if k < |Edges(g, tid)| {
      var e := Edges(g, tid)[k];
      RecordedAreTheWalks(g, e.target, path + [e.step], processed);
      RecordedAlongTheWalks(g, tid, k + 1, path, processed);
      AlongOneMore(g, tid, k, path, processed);
    }
  }

  lemma AlongOneMore(g: Graph, tid: Tid, k: nat, path: seq<string>, processed: seq<Tid>)
    requires Closed(g) && tid in g.reg.registered && k < |Edges(g, tid)|
    requires var e := Edges(g, tid)[k];
      e.target in g.reg.registered
      && AllWalks(g, e.target, Walks(g, e.target, processed))
      && Recorded(g, e.target, path + [e.step], processed)
         == EntriesOf(g, e.target, path + [e.step], Walks(g, e.target, processed))
    requires AllWalks(g, tid, WalksFrom(g, tid, k + 1, processed))
    requires RecordedAlong(g, Edges(g, tid)[k + 1..], path, processed)
          == EntriesOf(g, tid, path, WalksFrom(g, tid, k + 1, processed))
    ensures AllWalks(g, tid, WalksFrom(g, tid, k, processed))
    ensures RecordedAlong(g, Edges(g, tid)[k..], path, processed)
         == EntriesOf(g, tid, path, WalksFrom(g, tid, k, processed))
  {
    var here := Walks(g, Edges(g, tid)[k].target, processed);
    AlongStep(g, tid, k, path, processed);
    PrefixedEntries(g, tid, k, path, here);
    EntriesOfConcat(g, tid, path, Prefixed(k, here), WalksFrom(g, tid, k + 1, processed));
  }

  lemma PrefixedEntries(g: Graph, tid: Tid, k: nat, path: seq<string>, ws: seq<Walk>)
    requires k < |Edges(g, tid)| && AllWalks(g, Edges(g, tid)[k].target, ws)
    ensures AllWalks(g, tid, Prefixed(k, ws))
    ensures var e := Edges(g, tid)[k];
      EntriesOf(g, tid, path, Prefixed(k, ws)) == EntriesOf(g, e.target, path + [e.step], ws)
  {
    var e := Edges(g, tid)[k];
    forall i | 0 <= i < |ws|
      ensures IsWalk(g, tid, Prefixed(k, ws)[i])
      ensures EntryOf(g, tid, path, Prefixed(k, ws)[i]) == EntryOf(g, e.target, path + [e.step], ws[i])
    {
      var w := Prefixed(k, ws)[i];
      assert w[0] == k && w[1..] == ws[i];
      assert path + Labels(g, tid, w) == path + [e.step] + Labels(g, e.target, ws[i]);
    }
  }

  // ---------- Main results ----------

  /** From empty stacks: a duplicate-free, ascending list of all simple walks from the
      root, and nothing else, stands behind the entries one by one. */
  lemma GatherRecordsEverySimpleWalkOnce(g: Graph, root: Tid) returns (ws: seq<Walk>)
    requires Closed(g) && root in g.reg.registered
    ensures forall w: Walk :: w in ws <==> IsSimpleWalk(g, root, w)
    ensures Distinct(ws) && Ascending(ws)
    ensures |Recorded(g, root, [], [])| == |ws|
    ensures forall i | 0 <= i < |ws| ::
      IsWalk(g, root, ws[i])
      && Recorded(g, root, [], [])[i] == Entry(End(g, root, ws[i]), PathString(Labels(g, root, ws[i])))
  {
    ws := Walks(g, root, []);
    forall w: Walk ensures w in ws <==> IsSimpleWalk(g, root, w) {
      WalksAreTheSimpleWalks(g, root, [], w);
    }
    WalksAscend(g, root, []);
    AscendingIsDistinct(ws);
    RecordedAreTheWalks(g, root, [], []);
    forall i | 0 <= i < |ws|
      ensures IsWalk(g, root, ws[i])
      ensures Recorded(g, root, [], [])[i] == Entry(End(g, root, ws[i]), PathString(Labels(g, root, ws[i])))
    {
      assert [] + Labels(g, root, ws[i]) == Labels(g, root, ws[i]);
    }
  }

  /** The paths recorded for a type, in recording order. */
  function PathsOf(output: seq<Entry>, tid: Tid): seq<string> {
    if output == [] then []
    else PathsOf(output[..|output| - 1], tid)
         + if output[|output| - 1].tid == tid then [output[|output| - 1].path] else []
  }

  /** What gathering from several roots, one after the other, records. */
  ghost function RecordedFrom(g: Graph, roots: seq<Tid>): seq<Entry>
    requires Closed(g) && forall r | r in roots :: r in g.reg.registered
  {
    if roots == [] then []
    else RecordedFrom(g, roots[..|roots| - 1]) + Recorded(g, roots[|roots| - 1], [], [])
  }

  /** The simple walks that end in a type, in ascending order, of an ascending list. */
  ghost function EndingAt(g: Graph, root: Tid, ws: seq<Walk>, tid: Tid): seq<Walk>
    requires AllWalks(g, root, ws)
  {
    if ws == [] then []
    else EndingAt(g, root, ws[..|ws| - 1], tid)
         + if End(g, root, ws[|ws| - 1]) == tid then [ws[|ws| - 1]] else []
  }

  ghost function PathStrings(g: Graph, root: Tid, ws: seq<Walk>): seq<string>
    requires AllWalks(g, root, ws)
  {
    seq(|ws|, i requires 0 <= i < |ws| => PathString(Labels(g, root, ws[i])))
  }

  lemma {:induction false} EndingAtMembers(g: Graph, root: Tid, ws: seq<Walk>, tid: Tid)
    requires AllWalks(g, root, ws) && Ascending(ws)
    ensures forall w :: w in EndingAt(g, root, ws, tid) <==> w in ws && End(g, root, w) == tid
    ensures Ascending(EndingAt(g, root, ws, tid))
  {
    if ws != [] {
      var front, last := ws[..|ws| - 1], ws[|ws| - 1];
      EndingAtMembers(g, root, front, tid);
      assert ws == front + [last];
      var kept := EndingAt(g, root, front, tid);
      forall i | 0 <= i < |kept| ensures Before(kept[i], last) {
        assert kept[i] in front;
        var j :| 0 <= j < |front| && front[j] == kept[i];
        assert Before(ws[j], ws[|ws| - 1]);
      }
    }
  }

  lemma {:induction false} PathsOfEntries(g: Graph, root: Tid, ws: seq<Walk>, tid: Tid)
    requires AllWalks(g, root, ws)
    ensures AllWalks(g, root, EndingAt(g, root, ws, tid))
    ensures PathsOf(EntriesOf(g, root, [], ws), tid) == PathStrings(g, root, EndingAt(g, root, ws, tid))
  {
    if ws != [] {
      var front, last := ws[..|ws| - 1], ws[|ws| - 1];
      PathsOfEntries(g, root, front, tid);
      assert ws == front + [last];
      OneMorePath(g, root, front, last, tid);
    }
  }

  lemma OneMorePath(g: Graph, root: Tid, front: seq<Walk>, last: Walk, tid: Tid)
    requires AllWalks(g, root, front) && IsWalk(g, root, last) && AllWalks(g, root, EndingAt(g, root, front, tid))
    ensures AllWalks(g, root, front + [last]) && AllWalks(g, root, EndingAt(g, root, front + [last], tid))
    ensures var more := if End(g, root, last) == tid then [PathString(Labels(g, root, last))] else [];
      PathsOf(EntriesOf(g, root, [], front + [last]), tid) == PathsOf(EntriesOf(g, root, [], front), tid) + more
      && PathStrings(g, root, EndingAt(g, root, front + [last], tid))
         == PathStrings(g, root, EndingAt(g, root, front, tid)) + more
  {
    LastEntry(g, root, front, last);
    PathsOfSnoc(EntriesOf(g, root, [], front), EntryOf(g, root, [], last), tid);
    LastPath(g, root, EndingAt(g, root, front, tid), last);
    assert (front + [last])[..|front|] == front;
  }

  lemma PathsOfSnoc(output: seq<Entry>, e: Entry, tid: Tid)
    ensures PathsOf(output + [e], tid) == PathsOf(output, tid) + if e.tid == tid then [e.path] else []
  {
    assert (output + [e])[..|output|] == output;
  }

  lemma LastPath(g: Graph, root: Tid, front: seq<Walk>, last: Walk)
    requires AllWalks(g, root, front) && IsWalk(g, root, last)
    ensures AllWalks(g, root, front + [last])
    ensures PathStrings(g, root, front + [last]) == PathStrings(g, root, front) + [PathString(Labels(g, root, last))]
  {
  }

  lemma LastEntry(g: Graph, root: Tid, front: seq<Walk>, last: Walk)
    requires AllWalks(g, root, front) && IsWalk(g, root, last)
    ensures AllWalks(g, root, front + [last])
    ensures EntriesOf(g, root, [], front + [last]) == EntriesOf(g, root, [], front) + [EntryOf(g, root, [], last)]
    ensures EntryOf(g, root, [], last) == Entry(End(g, root, last), PathString(Labels(g, root, last)))
  {
    OneEntry(g, root, last);
    EntriesOfConcat(g, root, [], front, [last]);
  }

  lemma OneEntry(g: Graph, root: Tid, w: Walk)
    requires IsWalk(g, root, w)
    ensures AllWalks(g, root, [w]) && EntriesOf(g, root, [], [w]) == [EntryOf(g, root, [], w)]
    ensures EntryOf(g, root, [], w) == Entry(End(g, root, w), PathString(Labels(g, root, w)))
  {
    assert [] + Labels(g, root, w) == Labels(g, root, w);
  }

  lemma {:induction false} PathsOfConcat(a: seq<Entry>, b: seq<Entry>, tid: Tid)
    ensures PathsOf(a + b, tid) == PathsOf(a, tid) + PathsOf(b, tid)
  {
    if b == [] {
      assert a + b == a;
    } else {
      assert (a + b)[..|a + b| - 1] == a + b[..|b| - 1];
      PathsOfConcat(a, b[..|b| - 1], tid);
    }
  }

  /** What `Get` answers after one more gathering: the earlier answer, followed by the
      path strings of exactly the simple walks from the new root that end in the type,
      each once and in ascending order. */
  lemma GetReturnsTheWalksEndingThere(g: Graph, roots: seq<Tid>, root: Tid, tid: Tid) returns (ws: seq<Walk>)
    requires Closed(g) && root in g.reg.registered && forall r | r in roots :: r in g.reg.registered
    ensures forall w: Walk :: w in ws <==> IsSimpleWalk(g, root, w) && End(g, root, w) == tid
    ensures Distinct(ws) && Ascending(ws) && AllWalks(g, root, ws)
    ensures PathsOf(RecordedFrom(g, roots + [root]), tid)
         == PathsOf(RecordedFrom(g, roots), tid) + PathStrings(g, root, ws)
  {
    var all := Walks(g, root, []);
    RecordedAreTheWalks(g, root, [], []);
    WalksAscend(g, root, []);
    EndingAtMembers(g, root, all, tid);
    ws := EndingAt(g, root, all, tid);
    AscendingIsDistinct(ws);
    forall w: Walk ensures w in ws <==> IsSimpleWalk(g, root, w) && End(g, root, w) == tid {
      WalksAreTheSimpleWalks(g, root, [], w);
    }
    PathsOfEntries(g, root, all, tid);
    assert (roots + [root])[..|roots|] == roots;
    PathsOfConcat(RecordedFrom(g, roots), Recorded(g, root, [], []), tid);
  }

  // ---------- Names without a type ----------

  /** The first name of a pair that is not found. */
  function FirstMissing(lookup: map<string, Tid>, pair: (string, string)): Option<string> {
    if pair.0 !in lookup then Some(pair.0) else if pair.1 !in lookup then Some(pair.1) else None
  }

  function Missing(lookup: map<string, Tid>, pairs: seq<(string, string)>): seq<string> {
    if pairs == [] then []
    else
      Missing(lookup, pairs[..|pairs| - 1])
      + match FirstMissing(lookup, pairs[|pairs| - 1]) case Some(name) => [name] case None => []
  }

  function Found(lookup: map<string, Tid>, pairs: seq<(string, string)>): seq<(Tid, Tid)> {
    if pairs == [] then []
    else
      var pair := pairs[|pairs| - 1];
      Found(lookup, pairs[..|pairs| - 1])
      + if FirstMissing(lookup, pair).None? then [(lookup[pair.0], lookup[pair.1])] else []
  }

  lemma {:induction false} MissingMembers(lookup: map<string, Tid>, pairs: seq<(string, string)>, name: string)
    ensures name in Missing(lookup, pairs)
       <==> exists i | 0 <= i < |pairs| :: FirstMissing(lookup, pairs[i]) == Some(name)
  {
    if pairs != [] {
      MissingMembers(lookup, pairs[..|pairs| - 1], name);
    }
  }

  /** Two calls miss the same name first. */
  ghost predicate MissedTwice(lookup: map<string, Tid>, pairs: seq<(string, string)>) {
    exists i, j | 0 <= i < j < |pairs| ::
      FirstMissing(lookup, pairs[i]).Some? && FirstMissing(lookup, pairs[i]) == FirstMissing(lookup, pairs[j])
  }

  lemma {:induction false} NamesRepeatExactlyIfMissedTwice(lookup: map<string, Tid>, pairs: seq<(string, string)>)
    ensures Distinct(Missing(lookup, pairs)) <==> !MissedTwice(lookup, pairs)
  {
    if pairs != [] {
      var front, last := pairs[..|pairs| - 1], pairs[|pairs| - 1];
      NamesRepeatExactlyIfMissedTwice(lookup, front);
      MissedTwiceSnoc(lookup, front, last);
      assert pairs == front + [last];
      match FirstMissing(lookup, last) {
        case None => assert Missing(lookup, pairs) == Missing(lookup, front);
        case Some(name) =>
          assert Missing(lookup, pairs) == Missing(lookup, front) + [name];
          MissingMembers(lookup, front, name);
          DistinctSnoc(Missing(lookup, front), name);
      }
    }
  }

  lemma MissedTwiceSnoc(lookup: map<string, Tid>, front: seq<(string, string)>, last: (string, string))
    ensures MissedTwice(lookup, front + [last])
       <==> MissedTwice(lookup, front)
            || (FirstMissing(lookup, last).Some?
                && exists i | 0 <= i < |front| :: FirstMissing(lookup, front[i]) == FirstMissing(lookup, last))
  {
    var all := front + [last];
    assert all[|front|] == last && forall i | 0 <= i < |front| :: all[i] == front[i];
    if MissedTwice(lookup, front) {
      var i, j :| 0 <= i < j < |front| && FirstMissing(lookup, front[i]).Some?
        && FirstMissing(lookup, front[i]) == FirstMissing(lookup, front[j]);
      assert all[i] == front[i] && all[j] == front[j];
    }
    if FirstMissing(lookup, last).Some? {
      if i :| 0 <= i < |front| && FirstMissing(lookup, front[i]) == FirstMissing(lookup, last) {
        assert all[i] == front[i];
      }
    }
  }

  lemma DistinctSnoc(names: seq<string>, name: string)
    ensures Distinct(names + [name]) <==> Distinct(names) && name !in names
  {
    if Distinct(names + [name]) {
      assert forall i | 0 <= i < |names| :: (names + [name])[i] == names[i];
      assert (names + [name])[|names|] == name;
    }
  }

  // ---------- The class ----------

  class StaticInformation {
    const reg: Registry
    var output: seq<Entry>
    var currentPath: seq<string>
    var alreadyProcessed: seq<Tid>
    var aggregates: seq<(Tid, Tid)>
    var noTids: seq<string>

    constructor (reg: Registry)
      ensures this.reg == reg
      ensures output == [] && currentPath == [] && alreadyProcessed == [] && aggregates == [] && noTids == []
    {
      this.reg := reg;
      output, currentPath, alreadyProcessed, aggregates, noTids := [], [], [], [], [];
    }

    ghost function G(): Graph
      reads this
    {
      Graph(reg, aggregates)
    }

    /** Only the first name that is not found is remembered; the pair is kept only when
        both are found, and once per call. */
    method RecordAggregationInfo(a: string, b: string)
      modifies this`aggregates, this`noTids
      ensures a !in reg.lookup ==> noTids == old(noTids) + [a] && aggregates == old(aggregates)
      ensures a in reg.lookup && b !in reg.lookup ==> noTids == old(noTids) + [b] && aggregates == old(aggregates)
      ensures a in reg.lookup && b in reg.lookup ==>
        noTids == old(noTids) && aggregates == old(aggregates) + [(reg.lookup[a], reg.lookup[b])]
    {
      if a !in reg.lookup {
        noTids := noTids + [a];
        return;
      }
      if b !in reg.lookup {
        noTids := noTids + [b];
        return;
      }
      aggregates := aggregates + [(reg.lookup[a], reg.lookup[b])];
    }

    /** The calls that register the typical aggregations, one after the other. */
    method RecordAll(pairs: seq<(string, string)>)
      modifies this`aggregates, this`noTids
      ensures noTids == old(noTids) + Missing(reg.lookup, pairs)
      ensures aggregates == old(aggregates) + Found(reg.lookup, pairs)
    {
      for i := 0 to |pairs|
        invariant noTids == old(noTids) + Missing(reg.lookup, pairs[..i])
        invariant aggregates == old(aggregates) + Found(reg.lookup, pairs[..i])
      {
        assert pairs[..i + 1][..i] == pairs[..i];
        RecordAggregationInfo(pairs[i].0, pairs[i].1);
      }
      assert pairs[..|pairs|] == pairs;
    }

    /** The deduplication works on a copy, so these are all the names that were recorded. */
    method GetNoTypeIds() returns (names: seq<string>)
      ensures names == noTids
    {
      names := noTids;
    }

    method GetCurrentPath() returns (oss: string)
      ensures oss == PathString(currentPath)
    {
      oss := "";
      for i := 0 to |currentPath|
        invariant oss == PathString(currentPath[..i])
      {
        assert currentPath[..i + 1][..i] == currentPath[..i];
        oss := oss + "/" + currentPath[i];
      }
      assert currentPath[..|currentPath|] == currentPath;
    }

    method RecordOutput(tid: Tid)
      modifies this`output
      ensures output == old(output) + [Entry(tid, PathString(currentPath))]
    {
      var path := GetCurrentPath();
      output := output + [Entry(tid, path)];
    }

    method HasAlreadyBeenProcessed(tid: Tid) returns (found: bool)
      ensures found <==> tid in alreadyProcessed
    {
      for i := 0 to |alreadyProcessed|
        invariant tid !in alreadyProcessed[..i]
      {
        if alreadyProcessed[i] == tid {
          return true;
        }
      }
      return false;
    }

    method Get(tid: Tid) returns (paths: seq<string>)
      ensures paths == PathsOf(output, tid)
    {
      paths := [];
      for i := 0 to |output|
        invariant paths == PathsOf(output[..i], tid)
      {
        assert output[..i + 1][..i] == output[..i];
        if output[i].tid == tid {
          paths := paths + [output[i].path];
        }
      }
      assert output[..|output|] == output;
    }

    /** Pushes, recurses and pops. */
    method Descend(tid: Tid, e: Edge)
      requires Closed(G()) && tid in reg.registered && e.target in reg.registered
      requires Distinct(alreadyProcessed) && tid !in alreadyProcessed
      modifies this`output, this`currentPath, this`alreadyProcessed
      ensures currentPath == old(currentPath) && alreadyProcessed == old(alreadyProcessed)
      ensures output == old(output) + Recorded(G(), e.target, currentPath + [e.step], alreadyProcessed + [tid])
      decreases Unprocessed(G(), alreadyProcessed), 0
    {
      UnprocessedShrinks(G(), alreadyProcessed, tid);
      currentPath := currentPath + [e.step];
      alreadyProcessed := alreadyProcessed + [tid];
      DoGather(e.target);
      alreadyProcessed := alreadyProcessed[..|alreadyProcessed| - 1];
      currentPath := currentPath[..|currentPath| - 1];
    }

    /** One edge of the walk.  `all` is what the output will be in the end, `rest` the edges
        still to be followed after `e`. */
    method Follow(tid: Tid, e: Edge, ghost rest: seq<Edge>, ghost all: seq<Entry>)
      requires tid in reg.registered && Distinct(alreadyProcessed) && tid !in alreadyProcessed
      requires Remaining(tid, [e] + rest, all)
      modifies this`output, this`currentPath, this`alreadyProcessed
      ensures currentPath == old(currentPath) && alreadyProcessed == old(alreadyProcessed)
      ensures Remaining(tid, rest, all)
      decreases Unprocessed(G(), alreadyProcessed), 1
    {
      TakeEdge(G(), e, rest, currentPath, alreadyProcessed + [tid]);
      ghost var later := RecordedAlong(G(), rest, currentPath, alreadyProcessed + [tid]);
      assert all == output + Recorded(G(), e.target, currentPath + [e.step], alreadyProcessed + [tid]) + later;
      Descend(tid, e);
    }

    /** Extends the output by exactly what is recorded from `tid`, and leaves both
        stacks as they were.  Its three loops are the three `Gather` methods below. */
    method DoGather(tid: Tid)
      requires Closed(G()) && tid in reg.registered && Distinct(alreadyProcessed)
      modifies this`output, this`currentPath, this`alreadyProcessed
      ensures output == old(output) + Recorded(G(), tid, currentPath, alreadyProcessed)
      ensures currentPath == old(currentPath) && alreadyProcessed == old(alreadyProcessed)
      decreases Unprocessed(G(), alreadyProcessed), 4
    {
      var seen := HasAlreadyBeenProcessed(tid);
      if seen {
        return;
      }
      RecordOutput(tid);
      ghost var aggregations := AggregateEdges(G(), tid, 0);
      ghost var all := output + RecordedAlong(G(), Edges(G(), tid), currentPath, alreadyProcessed + [tid]);
      assert all == old(output) + Recorded(G(), tid, currentPath, alreadyProcessed);
      GatherAttributes(tid, ChildEdges(reg, tid, 0) + aggregations, all);
      GatherChildren(tid, aggregations, all);
      GatherAggregates(tid, all);
    }

    method GatherAttributes(tid: Tid, ghost tail: seq<Edge>, ghost all: seq<Entry>)
      requires tid in reg.registered && Distinct(alreadyProcessed) && tid !in alreadyProcessed
      requires Remaining(tid, AttributeEdges(reg, reg.attributesOf(tid), 0) + tail, all)
      modifies this`output, this`currentPath, this`alreadyProcessed
      ensures currentPath == old(currentPath) && alreadyProcessed == old(alreadyProcessed)
      ensures Remaining(tid, tail, all)
      decreases Unprocessed(G(), alreadyProcessed), 3
    {
      var attributes := reg.attributesOf(tid);
      for i := 0 to |attributes|
        invariant currentPath == old(currentPath) && alreadyProcessed == old(alreadyProcessed)
        invariant Remaining(tid, AttributeEdges(reg, attributes, i) + tail, all)
      {
        AttributeStep(reg, attributes, i, tail);
        FollowAttribute(tid, attributes[i], AttributeEdges(reg, attributes, i + 1) + tail, all);
      }
      assert [] + tail == tail;
    }

    method FollowAttribute(tid: Tid, a: Attribute, ghost rest: seq<Edge>, ghost all: seq<Entry>)
      requires tid in reg.registered && Distinct(alreadyProcessed) && tid !in alreadyProcessed
      requires Remaining(tid, AttributeEdge(reg, a) + rest, all)
      modifies this`output, this`currentPath, this`alreadyProcessed
      ensures currentPath == old(currentPath) && alreadyProcessed == old(alreadyProcessed)
      ensures Remaining(tid, rest, all)
      decreases Unprocessed(G(), alreadyProcessed), 2
    {
      match a {
        case PointerAttribute(name, pointee) =>
          if pointee == reg.objectTid {
            assert [] + rest == rest;
            return;
          }
          Follow(tid, Edge(name, pointee), rest, all);
        case VectorAttribute(name, item) =>
          Follow(tid, Edge(name + "/[i]", item), rest, all);
        case PlainAttribute(_) =>
          assert [] + rest == rest;
      }
    }

    method GatherChildren(tid: Tid, ghost tail: seq<Edge>, ghost all: seq<Entry>)
      requires tid in reg.registered && Distinct(alreadyProcessed) && tid !in alreadyProcessed
      requires Remaining(tid, ChildEdges(reg, tid, 0) + tail, all)
      modifies this`output, this`currentPath, this`alreadyProcessed
      ensures currentPath == old(currentPath) && alreadyProcessed == old(alreadyProcessed)
      ensures Remaining(tid, tail, all)
      decreases Unprocessed(G(), alreadyProcessed), 3
    {
      for j := 0 to |reg.registered|
        invariant currentPath == old(currentPath) && alreadyProcessed == old(alreadyProcessed)
        invariant Remaining(tid, ChildEdges(reg, tid, j) + tail, all)
      {
        ChildStep(reg, tid, j, tail);
        FollowChild(tid, reg.registered[j], ChildEdges(reg, tid, j + 1) + tail, all);
      }
      assert [] + tail == tail;
    }

    method FollowChild(tid: Tid, child: Tid, ghost rest: seq<Edge>, ghost all: seq<Entry>)
      requires tid in reg.registered && Distinct(alreadyProcessed) && tid !in alreadyProcessed
      requires Remaining(tid, ChildEdge(reg, child, tid) + rest, all)
      modifies this`output, this`currentPath, this`alreadyProcessed
      ensures currentPath == old(currentPath) && alreadyProcessed == old(alreadyProcessed)
      ensures Remaining(tid, rest, all)
      decreases Unprocessed(G(), alreadyProcessed), 2
    {
      if reg.isChildOf(child, tid) {
        Follow(tid, NamedEdge(reg, child), rest, all);
      } else {
        assert [] + rest == rest;
      }
    }

    method GatherAggregates(tid: Tid, ghost all: seq<Entry>)
      requires tid in reg.registered && Distinct(alreadyProcessed) && tid !in alreadyProcessed
      requires Remaining(tid, AggregateEdges(G(), tid, 0), all)
      modifies this`output, this`currentPath, this`alreadyProcessed
      ensures currentPath == old(currentPath) && alreadyProcessed == old(alreadyProcessed)
      ensures output == all
      decreases Unprocessed(G(), alreadyProcessed), 3
    {
      for k := 0 to |aggregates|
        invariant currentPath == old(currentPath) && alreadyProcessed == old(alreadyProcessed)
        invariant Remaining(tid, AggregateEdges(G(), tid, k), all)
      {
        AggregateStep(G(), tid, k);
        FollowAggregate(tid, aggregates[k], AggregateEdges(G(), tid, k + 1), all);
      }
      assert RecordedAlong(G(), [], currentPath, alreadyProcessed + [tid]) == [];
    }

    method FollowAggregate(tid: Tid, item: (Tid, Tid), ghost rest: seq<Edge>, ghost all: seq<Entry>)
      requires tid in reg.registered && Distinct(alreadyProcessed) && tid !in alreadyProcessed
      requires Remaining(tid, AggregateEdge(reg, item, tid) + rest, all)
      modifies this`output, this`currentPath, this`alreadyProcessed
      ensures currentPath == old(currentPath) && alreadyProcessed == old(alreadyProcessed)
      ensures Remaining(tid, rest, all)
      decreases Unprocessed(G(), alreadyProcessed), 2
    {
      if item.0 == tid || item.1 == tid {
        var other := tid;
        if item.0 == tid {
          other := item.1;
        }
        if item.1 == tid {
          other := item.0;
        }
        Follow(tid, NamedEdge(reg, other), rest, all);
      } else {
        assert [] + rest == rest;
      }
    }

    /** The edges `es` are all that separates the output from `all`. */
    ghost predicate Remaining(tid: Tid, es: seq<Edge>, all: seq<Entry>)
      reads this
    {
      Closed(G()) && EdgesRegistered(G(), es)
      && all == output + RecordedAlong(G(), es, currentPath, alreadyProcessed + [tid])
    }

    method Gather(tid: Tid)
      requires Closed(G()) && tid in reg.registered && Distinct(alreadyProcessed)
      modifies this`output, this`currentPath, this`alreadyProcessed
      ensures output == old(output) + Recorded(G(), tid, currentPath, alreadyProcessed)
      ensures currentPath == old(currentPath) && alreadyProcessed == old(alreadyProcessed)
    {
      DoGather(tid);
      // The deduplication that follows works on a copy of the output.
    }

    /** The loop over the root namespace objects. */
    method GatherAll(roots: seq<Tid>)
      requires Closed(G()) && forall r | r in roots :: r in reg.registered
      requires output == [] && currentPath == [] && alreadyProcessed == []
      modifies this`output, this`currentPath, this`alreadyProcessed
      ensures output == RecordedFrom(G(), roots)
      ensures currentPath == [] && alreadyProcessed == []
    {
      for i := 0 to |roots|
        invariant currentPath == [] && alreadyProcessed == []
        invariant output == RecordedFrom(G(), roots[..i])
      {
        assert roots[..i + 1][..i] == roots[..i];
        Gather(roots[i]);
      }
      assert roots[..|roots|] == roots;
    }
  }

  /** The first pending edge is recorded first. */
  lemma TakeEdge(g: Graph, e: Edge, rest: seq<Edge>, path: seq<string>, processed: seq<Tid>)
    requires Closed(g) && EdgesRegistered(g, [e] + rest)
    ensures e.target in g.reg.registered && EdgesRegistered(g, rest)
    ensures RecordedAlong(g, [e] + rest, path, processed)
         == Recorded(g, e.target, path + [e.step], processed) + RecordedAlong(g, rest, path, processed)
  {
    var es := [e] + rest;
    assert es[0] == e && es[1..] == rest;
    forall i | 0 <= i < |rest| ensures rest[i].target in g.reg.registered { assert es[i + 1] == rest[i]; }
  }

  lemma AttributeStep(r: Registry, attributes: seq<Attribute>, i: nat, tail: seq<Edge>)
    requires i < |attributes|
    ensures AttributeEdges(r, attributes, i) + tail
         == AttributeEdge(r, attributes[i]) + (AttributeEdges(r, attributes, i + 1) + tail)
  {
  }

  lemma ChildStep(r: Registry, tid: Tid, j: nat, tail: seq<Edge>)
    requires j < |r.registered|
    ensures ChildEdges(r, tid, j) + tail
         == ChildEdge(r, r.registered[j], tid) + (ChildEdges(r, tid, j + 1) + tail)
  {
  }

  lemma AggregateStep(g: Graph, tid: Tid, k: nat)
    requires k < |g.aggregates|
    ensures AggregateEdges(g, tid, k) == AggregateEdge(g.reg, g.aggregates[k], tid) + AggregateEdges(g, tid, k + 1)
  {
  }
}
