/**
 * The second half of the preflight: every edge must resolve, and a three-colour depth-first search
 * rejects cycles of references that are not schema references.
 */
module ReferenceCycles {
  import opened Pointers
  import opened Reachability
  import opened Preflight

  datatype Colour = Active | Finished

  /** Absent means not visited yet. */
  type Colours = map<Location, Colour>

  datatype Verdict = Rejected | Accepted(colours: Colours)

  // ---- the search as a function of the visit order ----

  /** The edges with a given source, in order: one bucket of `bySource`. */
  function OutEdges(edges: seq<ReferenceEdge>, node: Location): (out: seq<ReferenceEdge>)
    ensures forall e :: e in out ==> e in edges && e.from == node
  {
    if edges == [] then []
    else
      var last := edges[|edges| - 1];
      OutEdges(edges[..|edges| - 1], node) + if last.from == node then [last] else []
  }

  lemma OutEdgesAppend(edges: seq<ReferenceEdge>, e: ReferenceEdge, node: Location)
    ensures OutEdges(edges + [e], node) == OutEdges(edges, node) + if e.from == node then [e] else []
  {
    assert (edges + [e])[..|edges|] == edges;
  }

  lemma {:induction false} InOutEdges(edges: seq<ReferenceEdge>, e: ReferenceEdge)
    requires e in edges
    ensures e in OutEdges(edges, e.from)
  {
    var rest, last := edges[..|edges| - 1], edges[|edges| - 1];
    assert edges == rest + [last];
    if e != last {
      InOutEdges(rest, e);
    }
  }

  function Sources(edges: seq<ReferenceEdge>): set<Location> {
    set e | e in edges :: e.from
  }

  predicate AllSchema(path: seq<ReferenceEdge>) {
    forall e :: e in path ==> e.isSchema
  }

  function Visit(edges: seq<ReferenceEdge>, node: Location, path: seq<ReferenceEdge>, colours: Colours)
    : (v: Verdict)
    requires node !in colours
    ensures v.Accepted? ==> colours.Keys + {node} <= v.colours.Keys
    decreases Sources(edges) - colours.Keys, 0, 0
  {
    var out := OutEdges(edges, node);
    if out == [] then Accepted(colours[node := Finished])
    else
      assert out[0] in out && node in Sources(edges) - colours.Keys;
      match VisitEdges(edges, out, path, colours[node := Active])
      case Rejected => Rejected
      case Accepted(after) => Accepted(after[node := Finished])
  }

  function VisitEdges(edges: seq<ReferenceEdge>, out: seq<ReferenceEdge>, path: seq<ReferenceEdge>,
                      colours: Colours): (v: Verdict)
    requires forall e :: e in out ==> e in edges
    ensures v.Accepted? ==> colours.Keys <= v.colours.Keys
    decreases Sources(edges) - colours.Keys, 1, |out|
  {
    if out == [] then Accepted(colours)
    else
      match VisitEdge(edges, out[0], path, colours)
      case Rejected => Rejected
      case Accepted(after) =>
        assert Sources(edges) - after.Keys <= Sources(edges) - colours.Keys;
        VisitEdges(edges, out[1..], path, after)
  }

  function VisitEdge(edges: seq<ReferenceEdge>, e: ReferenceEdge, path: seq<ReferenceEdge>,
                     colours: Colours): (v: Verdict)
    requires e in edges
    ensures v.Accepted? ==> colours.Keys <= v.colours.Keys
    decreases Sources(edges) - colours.Keys, 1, 0
  {
    if e.to in colours then
      if colours[e.to].Active? && !(e.isSchema && AllSchema(path)) then Rejected else Accepted(colours)
    else Visit(edges, e.to, path + [e], colours)
  }

  /** The outer loop, over the sources in a given order. */
  function Run(edges: seq<ReferenceEdge>, order: seq<Location>, colours: Colours): Verdict
    decreases |order|
  {
    if order == [] then Accepted(colours)
    else if order[0] in colours then Run(edges, order[1..], colours)
    else
      match Visit(edges, order[0], [], colours)
      case Rejected => Rejected
      case Accepted(after) => Run(edges, order[1..], after)
  }

  /** A visit order: every source once. Map iteration may produce any of them. */
  ghost predicate IsOrder(edges: seq<ReferenceEdge>, order: seq<Location>) {
    && (forall n :: n in order <==> n in Sources(edges))
    && (forall i, j :: 0 <= i < j < |order| ==> order[i] != order[j])
  }

  // ---- chains, cycles and lassos ----

  /** Edges that follow each other. */
  ghost predicate Chain(edges: seq<ReferenceEdge>, w: seq<ReferenceEdge>) {
    && (forall e :: e in w ==> e in edges)
    && (forall i, j :: 0 <= i && j == i + 1 && j < |w| ==> w[i].to == w[j].from)
  }

  /** A chain that ends where its edge `k` starts: a tail of `k` edges that runs into a cycle. */
  ghost predicate Lasso(edges: seq<ReferenceEdge>, w: seq<ReferenceEdge>, k: nat) {
    Chain(edges, w) && k < |w| && w[|w| - 1].to == w[k].from
  }

  ghost predicate Cycle(edges: seq<ReferenceEdge>, w: seq<ReferenceEdge>) {
    Lasso(edges, w, 0)
  }

  /** A lasso outside `avoid` with an edge that is not a schema reference. */
  ghost predicate BadLasso(edges: seq<ReferenceEdge>, w: seq<ReferenceEdge>, k: nat, avoid: set<Location>) {
    Lasso(edges, w, k) && !AllSchema(w) && forall e :: e in w ==> e.from !in avoid
  }

  function ActiveIn(colours: Colours): set<Location> {
    set n | n in colours && colours[n].Active?
  }

  function FinishedIn(colours: Colours): set<Location> {
    set n | n in colours && colours[n].Finished?
  }

  /** The search path: a chain into `node` whose sources are the active nodes. */
  ghost predicate OnPath(edges: seq<ReferenceEdge>, node: Location, path: seq<ReferenceEdge>, colours: Colours) {
    && Chain(edges, path)
    && (path != [] ==> path[|path| - 1].to == node)
    && ActiveIn(colours) == Sources(path)
  }

  // ---- rejections have a reason ----

  /** `w` begins where the search path begins. */
  ghost predicate StartsLike(w: seq<ReferenceEdge>, node: Location, path: seq<ReferenceEdge>) {
    w != [] && w[0].from == if path == [] then node else path[0].from
  }

  /** What one step of the search keeps, whatever the graph. */
  ghost predicate Explained(edges: seq<ReferenceEdge>, node: Location, path: seq<ReferenceEdge>,
                            colours: Colours, v: Verdict) {
    match v
    case Rejected =>
      exists w: seq<ReferenceEdge>, k: nat ::
        BadLasso(edges, w, k, FinishedIn(colours)) && StartsLike(w, node, path)
    case Accepted(after) =>
      ActiveIn(after) == ActiveIn(colours) && FinishedIn(colours) <= FinishedIn(after)
  }

  lemma {:induction false} VisitExplained(edges: seq<ReferenceEdge>, node: Location,
                                          path: seq<ReferenceEdge>, colours: Colours)
    requires node !in colours && OnPath(edges, node, path, colours)
    ensures Explained(edges, node, path, colours, Visit(edges, node, path, colours))
    decreases Sources(edges) - colours.Keys, 0, 0
  {
    var out, c := OutEdges(edges, node), colours[node := Active];
    assert node !in ActiveIn(colours);
    if out == [] {
      assert ActiveIn(colours[node := Finished]) == ActiveIn(colours);
    } else {
      assert out[0] in out && node in Sources(edges) - colours.Keys;
      assert ActiveIn(c) == Sources(path) + {node} && FinishedIn(c) == FinishedIn(colours);
      VisitEdgesExplained(edges, node, out, path, c);
      var v := VisitEdges(edges, out, path, c);
      if v.Accepted? {
        assert ActiveIn(v.colours[node := Finished]) == ActiveIn(v.colours) - {node};
      }
    }
  }

  lemma {:induction false} VisitEdgesExplained(edges: seq<ReferenceEdge>, node: Location,
                                               out: seq<ReferenceEdge>, path: seq<ReferenceEdge>, c: Colours)
    requires forall e :: e in out ==> e in edges && e.from == node
    requires Chain(edges, path) && (path != [] ==> path[|path| - 1].to == node)
    requires ActiveIn(c) == Sources(path) + {node}
    ensures Explained(edges, node, path, c, VisitEdges(edges, out, path, c))
    decreases Sources(edges) - c.Keys, 1, |out|
  {
    if out != [] {
      VisitEdgeExplained(edges, node, out[0], path, c);
      var v := VisitEdge(edges, out[0], path, c);
      if v.Accepted? {
        assert Sources(edges) - v.colours.Keys <= Sources(edges) - c.Keys;
        VisitEdgesExplained(edges, node, out[1..], path, v.colours);
        var rest := VisitEdges(edges, out[1..], path, v.colours);
        if rest.Rejected? {
          var w: seq<ReferenceEdge>, k: nat :| BadLasso(edges, w, k, FinishedIn(v.colours)) &&
              StartsLike(w, node, path);
          assert BadLasso(edges, w, k, FinishedIn(c));
        }
      }
    }
  }

  lemma {:induction false} VisitEdgeExplained(edges: seq<ReferenceEdge>, node: Location, e: ReferenceEdge,
                                              path: seq<ReferenceEdge>, c: Colours)
    requires e in edges && e.from == node
    requires Chain(edges, path) && (path != [] ==> path[|path| - 1].to == node)
    requires ActiveIn(c) == Sources(path) + {node}
    ensures Explained(edges, node, path, c, VisitEdge(edges, e, path, c))
    decreases Sources(edges) - c.Keys, 1, 0
  {
    var longer := path + [e];
    ChainExtends(edges, path, e);
    SourcesExtend(path, e);
    if e.to in c {
      if c[e.to].Active? && !(e.isSchema && AllSchema(path)) {
        assert e.to in ActiveIn(c);
        var k := SourceIndex(longer, e.to);
        assert !AllSchema(longer) by {
          assert e in longer && forall x :: x in path ==> x in longer;
        }
        assert ActiveIn(c) !! FinishedIn(c) && StartsLike(longer, node, path);
        assert BadLasso(edges, longer, k, FinishedIn(c)) by {
          forall x | x in longer ensures x.from !in FinishedIn(c) {
            assert x.from in Sources(longer);
          }
        }
      }
    } else {
      VisitExplained(edges, e.to, longer, c);
      if Visit(edges, e.to, longer, c).Rejected? {
        var w: seq<ReferenceEdge>, k: nat :| BadLasso(edges, w, k, FinishedIn(c)) && StartsLike(w, e.to, longer);
        assert StartsLike(w, node, path);
      }
    }
  }

  lemma ChainExtends(edges: seq<ReferenceEdge>, path: seq<ReferenceEdge>, e: ReferenceEdge)
    requires Chain(edges, path) && e in edges && (path != [] ==> path[|path| - 1].to == e.from)
    ensures Chain(edges, path + [e])
  {
  }

  lemma SourcesExtend(path: seq<ReferenceEdge>, e: ReferenceEdge)
    ensures Sources(path + [e]) == Sources(path) + {e.from}
  {
    assert forall x :: x in path + [e] <==> x in path || x == e;
    assert e in path + [e];
  }

  lemma SourceIndex(path: seq<ReferenceEdge>, n: Location) returns (k: nat)
    requires n in Sources(path)
    ensures k < |path| && path[k].from == n
  {
    var e :| e in path && e.from == n;
    k :| 0 <= k < |path| && path[k] == e;
  }

  // ---- acceptance is sound when every mapping has one outgoing edge ----

  /** Every cycle that starts at `n` consists of schema references. */
  ghost predicate Fine(edges: seq<ReferenceEdge>, n: Location) {
    forall w: seq<ReferenceEdge> :: Cycle(edges, w) && w[0].from == n ==> AllSchema(w)
  }

  ghost predicate FinishedFine(edges: seq<ReferenceEdge>, colours: Colours) {
    forall n :: n in FinishedIn(colours) ==> Fine(edges, n)
  }

  lemma SameSourceSameEdge(edges: seq<ReferenceEdge>, x: ReferenceEdge, y: ReferenceEdge)
    requires OneEdgePerSource(edges) && x in edges && y in edges && x.from == y.from
    ensures x == y
  {
    var i :| 0 <= i < |edges| && edges[i] == x;
    var j :| 0 <= j < |edges| && edges[j] == y;
  }

  lemma {:induction false} NoneOut(edges: seq<ReferenceEdge>, node: Location)
    requires forall e :: e in edges ==> e.from != node
    ensures OutEdges(edges, node) == []
  {
    if edges != [] {
      NoneOut(edges[..|edges| - 1], node);
    }
  }

  lemma {:induction false} AtMostOneOut(edges: seq<ReferenceEdge>, node: Location)
    requires OneEdgePerSource(edges)
    ensures |OutEdges(edges, node)| <= 1
  {
    if edges != [] {
      var rest, last := edges[..|edges| - 1], edges[|edges| - 1];
      if last.from == node {
        NoneOut(rest, node);
      } else {
        AtMostOneOut(rest, node);
      }
    }
  }

  /** `s` holds the successor edges of its own edges. */
  ghost predicate ClosedEdges(edges: seq<ReferenceEdge>, s: seq<ReferenceEdge>) {
    forall x, y :: x in s && y in edges && x.to == y.from ==> y in s
  }

  lemma {:induction false} ChainStaysIn(edges: seq<ReferenceEdge>, s: seq<ReferenceEdge>, w: seq<ReferenceEdge>, i: nat)
    requires ClosedEdges(edges, s) && Chain(edges, w) && i < |w| && w[0] in s
    ensures w[i] in s
  {
    if i > 0 {
      ChainStaysIn(edges, s, w, i - 1);
    }
  }

  /** With one edge per source, the edges of a lasso are closed. */
  lemma LassoIsClosed(edges: seq<ReferenceEdge>, w: seq<ReferenceEdge>, k: nat)
    requires OneEdgePerSource(edges) && Lasso(edges, w, k)
    ensures ClosedEdges(edges, w)
  {
    forall x, y | x in w && y in edges && x.to == y.from ensures y in w {
      var i :| 0 <= i < |w| && w[i] == x;
      var next := if i + 1 < |w| then w[i + 1] else w[k];
      SameSourceSameEdge(edges, next, y);
    }
  }

  /** With one edge per source, whatever follows a lasso's start uses only the lasso's edges. */
  lemma ChainInLasso(edges: seq<ReferenceEdge>, w: seq<ReferenceEdge>, k: nat, c: seq<ReferenceEdge>)
    requires OneEdgePerSource(edges) && Lasso(edges, w, k)
    requires Chain(edges, c) && c != [] && exists x :: x in w && x.from == c[0].from
    ensures forall e :: e in c ==> e in w
  {
    LassoIsClosed(edges, w, k);
    var x :| x in w && x.from == c[0].from;
    assert c[0] in c;
    SameSourceSameEdge(edges, x, c[0]);
    forall e | e in c ensures e in w {
      var i :| 0 <= i < |c| && c[i] == e;
      ChainStaysIn(edges, w, c, i);
    }
  }

  lemma FineOnSchemaLasso(edges: seq<ReferenceEdge>, w: seq<ReferenceEdge>, k: nat, n: Location)
    requires OneEdgePerSource(edges) && Lasso(edges, w, k) && AllSchema(w)
    requires exists x :: x in w && x.from == n
    ensures Fine(edges, n)
  {
    forall c: seq<ReferenceEdge> | Cycle(edges, c) && c[0].from == n ensures AllSchema(c) {
      ChainInLasso(edges, w, k, c);
    }
  }

  lemma FineWithoutEdges(edges: seq<ReferenceEdge>, n: Location)
    requires OutEdges(edges, n) == []
    ensures Fine(edges, n)
  {
    forall e | e in edges ensures e.from != n {
      InOutEdges(edges, e);
    }
    assert forall w: seq<ReferenceEdge> :: Cycle(edges, w) ==> w[0] in w && w[0] in edges;
  }

  lemma FineBackward(edges: seq<ReferenceEdge>, e: ReferenceEdge)
    requires OneEdgePerSource(edges) && e in edges && Fine(edges, e.to)
    ensures Fine(edges, e.from)
  {
    forall w: seq<ReferenceEdge> | Cycle(edges, w) && w[0].from == e.from ensures AllSchema(w) {
      assert w[0] in w;
      SameSourceSameEdge(edges, e, w[0]);
      if |w| > 1 {
        var turned := w[1..] + [w[0]];
        assert forall x :: x in turned <==> x in w;
        assert Chain(edges, turned);
        assert Cycle(edges, turned) && turned[0].from == e.to;
      }
    }
  }

  lemma {:induction false} VisitSound(edges: seq<ReferenceEdge>, node: Location,
                                      path: seq<ReferenceEdge>, colours: Colours)
    requires OneEdgePerSource(edges)
    requires node !in colours && OnPath(edges, node, path, colours)
    requires FinishedFine(edges, colours)
    ensures var v := Visit(edges, node, path, colours);
            v.Accepted? ==> FinishedFine(edges, v.colours) && node in FinishedIn(v.colours)
    decreases Sources(edges) - colours.Keys, 0
  {
    var out, c := OutEdges(edges, node), colours[node := Active];
    AtMostOneOut(edges, node);
    MarkActive(colours, node);
    if out == [] {
      FineWithoutEdges(edges, node);
      MarkFinished(colours, node);
    } else {
      var e := out[0];
      assert e in out && out == [e] && node in Sources(edges) - colours.Keys;
      VisitByEdge(edges, e, path, colours);
      EdgeSound(edges, e, path, c);
      var v := VisitEdge(edges, e, path, c);
      if v.Accepted? {
        MarkFinished(v.colours, node);
      }
    }
  }

  lemma MarkActive(colours: Colours, node: Location)
    requires node !in colours
    ensures ActiveIn(colours[node := Active]) == ActiveIn(colours) + {node}
    ensures FinishedIn(colours[node := Active]) == FinishedIn(colours)
  {
  }

  lemma MarkFinished(colours: Colours, node: Location)
    ensures FinishedIn(colours[node := Finished]) == FinishedIn(colours) + {node}
  {
  }

  /** Visiting a node with one outgoing edge. */
  lemma VisitByEdge(edges: seq<ReferenceEdge>, e: ReferenceEdge, path: seq<ReferenceEdge>, colours: Colours)
    requires e in edges && OutEdges(edges, e.from) == [e] && e.from !in colours
    ensures Visit(edges, e.from, path, colours) ==
            match VisitEdge(edges, e, path, colours[e.from := Active])
            case Rejected => Rejected
            case Accepted(after) => Accepted(after[e.from := Finished])
  {
    OneOut(edges, e, path, colours[e.from := Active]);
  }

  lemma OneOut(edges: seq<ReferenceEdge>, e: ReferenceEdge, path: seq<ReferenceEdge>, c: Colours)
    requires e in edges
    ensures VisitEdges(edges, [e], path, c) == VisitEdge(edges, e, path, c)
  {
    var v := VisitEdge(edges, e, path, c);
    if v.Accepted? {
      assert [e][1..] == [];
      assert VisitEdges(edges, [], path, v.colours) == v;
    }
  }

  lemma {:induction false} EdgeSound(edges: seq<ReferenceEdge>, e: ReferenceEdge,
                                     path: seq<ReferenceEdge>, c: Colours)
    requires OneEdgePerSource(edges) && e in edges
    requires Chain(edges, path) && (path != [] ==> path[|path| - 1].to == e.from)
    requires ActiveIn(c) == Sources(path) + {e.from} && FinishedFine(edges, c)
    ensures var v := VisitEdge(edges, e, path, c);
            v.Accepted? ==> FinishedFine(edges, v.colours) && Fine(edges, e.from)
    decreases Sources(edges) - c.Keys, 1
  {
    var v := VisitEdge(edges, e, path, c);
    var longer := path + [e];
    ChainExtends(edges, path, e);
    SourcesExtend(path, e);
    if v.Accepted? {
      if e.to !in c {
        VisitSound(edges, e.to, longer, c);
        FineBackward(edges, e);
      } else if c[e.to].Active? {
        assert e.to in ActiveIn(c);
        var k := SourceIndex(longer, e.to);
        assert e in longer;
        FineOnSchemaLasso(edges, longer, k, e.from);
      } else {
        assert e.to in FinishedIn(c);
        FineBackward(edges, e);
      }
    }
  }

  lemma {:induction false} RunSound(edges: seq<ReferenceEdge>, order: seq<Location>, colours: Colours)
    requires OneEdgePerSource(edges)
    requires ActiveIn(colours) == {} && FinishedFine(edges, colours)
    ensures Run(edges, order, colours).Accepted? ==> forall n :: n in order ==> Fine(edges, n)
    decreases |order|
  {
    if order != [] && Run(edges, order, colours).Accepted? {
      var first := order[0];
      var next := colours;
      if first in colours {
        assert first in ActiveIn(colours) || first in FinishedIn(colours);
      } else {
        assert OnPath(edges, first, [], colours);
        VisitSound(edges, first, [], colours);
        VisitExplained(edges, first, [], colours);
        next := Visit(edges, first, [], colours).colours;
      }
      RunSound(edges, order[1..], next);
      assert forall n :: n in order ==> n == first || n in order[1..];
    }
  }

  /** Whatever the visit order, acceptance means that every cycle consists of schema references. */
  lemma AcceptedMeansSchemaCycles(edges: seq<ReferenceEdge>, order: seq<Location>)
    requires OneEdgePerSource(edges) && IsOrder(edges, order)
    requires Run(edges, order, map[]).Accepted?
    ensures forall w: seq<ReferenceEdge> :: Cycle(edges, w) ==> AllSchema(w)
  {
    RunSound(edges, order, map[]);
    forall w: seq<ReferenceEdge> | Cycle(edges, w) ensures AllSchema(w) {
      assert w[0] in w;
      assert w[0].from in order;
    }
  }

  // ---- what decides the verdict ----

  lemma {:induction false} RunExplained(edges: seq<ReferenceEdge>, order: seq<Location>, colours: Colours)
    requires ActiveIn(colours) == {}
    ensures match Run(edges, order, colours)
            case Rejected =>
              exists w: seq<ReferenceEdge>, k: nat :: BadLasso(edges, w, k, FinishedIn(colours)) && w[0].from in order
            case Accepted(after) =>
              ActiveIn(after) == {} && FinishedIn(colours) <= FinishedIn(after) &&
              forall n :: n in order ==> n in FinishedIn(after)
    decreases |order|
  {
    if order != [] {
      var first := order[0];
      if first in colours {
        assert first in ActiveIn(colours) || first in FinishedIn(colours);
        RunExplained(edges, order[1..], colours);
      } else {
        assert OnPath(edges, first, [], colours);
        VisitExplained(edges, first, [], colours);
        var v := Visit(edges, first, [], colours);
        if v.Accepted? {
          assert first in FinishedIn(v.colours);
          RunExplained(edges, order[1..], v.colours);
          if Run(edges, order[1..], v.colours).Rejected? {
            var w: seq<ReferenceEdge>, k: nat :| BadLasso(edges, w, k, FinishedIn(v.colours)) &&
                w[0].from in order[1..];
            assert BadLasso(edges, w, k, FinishedIn(colours)) && w[0].from in order;
          }
        }
      }
      assert forall n :: n in order ==> n == first || n in order[1..];
    }
  }

  lemma OnlyOut(edges: seq<ReferenceEdge>, e: ReferenceEdge)
    requires OneEdgePerSource(edges) && e in edges
    ensures OutEdges(edges, e.from) == [e]
  {
    InOutEdges(edges, e);
    AtMostOneOut(edges, e.from);
  }

  lemma LassoCloses(edges: seq<ReferenceEdge>, w: seq<ReferenceEdge>, k: nat)
    requires Lasso(edges, w, k)
    ensures w[|w| - 1].to in Sources(w)
  {
    assert w[k] in w;
  }

  /** A bad lasso that closes early has its bad edge in the part already walked. */
  lemma ClosesBadly(edges: seq<ReferenceEdge>, w: seq<ReferenceEdge>, k: nat, i: nat)
    requires OneEdgePerSource(edges) && Lasso(edges, w, k) && !AllSchema(w)
    requires i < |w| && w[i].to in Sources(w[..i + 1])
    ensures !AllSchema(w[..i + 1])
  {
    var part := w[..i + 1];
    var j := SourceIndex(part, w[i].to);
    assert forall x :: x in part ==> x in w;
    assert Lasso(edges, part, j);
    assert part[0] in part && part[0].from == w[0].from;
    ChainInLasso(edges, part, j, w);
  }

  /** What the search needs to know about the edge at position `i` of a bad lasso. */
  ghost predicate OnTrack(edges: seq<ReferenceEdge>, w: seq<ReferenceEdge>, i: nat)
    requires i < |w|
  {
    && w[i] in edges && OutEdges(edges, w[i].from) == [w[i]]
    && (if w[i].to in Sources(w[..i + 1]) then !AllSchema(w[..i + 1])
        else i + 1 < |w| && w[i + 1].from == w[i].to)
  }

  lemma LassoIsTrack(edges: seq<ReferenceEdge>, w: seq<ReferenceEdge>, k: nat, i: nat)
    requires OneEdgePerSource(edges) && Lasso(edges, w, k) && !AllSchema(w) && i < |w|
    ensures OnTrack(edges, w, i)
  {
    assert w[i] in w;
    OnlyOut(edges, w[i]);
    LassoCloses(edges, w, k);
    assert w[..|w|] == w;
    if w[i].to in Sources(w[..i + 1]) {
      ClosesBadly(edges, w, k, i);
    }
  }

  /** A search that starts at the head of a bad lasso runs along it and rejects. */
  lemma {:induction false} FollowsTrack(edges: seq<ReferenceEdge>, w: seq<ReferenceEdge>, i: nat, colours: Colours)
    requires forall j {:trigger OnTrack(edges, w, j)} :: 0 <= j < |w| ==> OnTrack(edges, w, j)
    requires i < |w| && colours.Keys == ActiveIn(colours) == Sources(w[..i]) && w[i].from !in colours
    ensures Visit(edges, w[i].from, w[..i], colours).Rejected?
    decreases |w| - i
  {
    var e, path := w[i], w[..i];
    var c := colours[e.from := Active];
    assert OnTrack(edges, w, i);
    PrefixSources(w, i);
    MarkActive(colours, e.from);
    if e.to !in c {
      assert w[..i + 1] == path + [e];
      FollowsTrack(edges, w, i + 1, c);
    }
    OneStepOnTrack(edges, w, i, colours);
  }

  /** Either the next node of the track rejects, or the edge closes the cycle and rejects itself. */
  lemma OneStepOnTrack(edges: seq<ReferenceEdge>, w: seq<ReferenceEdge>, i: nat, colours: Colours)
    requires i < |w| && OnTrack(edges, w, i) && w[i].from !in colours
    requires var c := colours[w[i].from := Active];
             && c.Keys == ActiveIn(c) == Sources(w[..i + 1])
             && (w[i].to !in c ==> Visit(edges, w[i].to, w[..i] + [w[i]], c).Rejected?)
    ensures Visit(edges, w[i].from, w[..i], colours).Rejected?
  {
    VisitByEdge(edges, w[i], w[..i], colours);
    PrefixSources(w, i);
  }

  lemma FollowsLasso(edges: seq<ReferenceEdge>, w: seq<ReferenceEdge>, k: nat)
    requires OneEdgePerSource(edges) && Lasso(edges, w, k) && !AllSchema(w)
    ensures Visit(edges, w[0].from, [], map[]).Rejected?
  {
    forall j | 0 <= j < |w| ensures OnTrack(edges, w, j) {
      LassoIsTrack(edges, w, k, j);
    }
    assert w[..0] == [];
    FollowsTrack(edges, w, 0, map[]);
  }

  lemma PrefixSources(w: seq<ReferenceEdge>, i: nat)
    requires i < |w|
    ensures Sources(w[..i + 1]) == Sources(w[..i]) + {w[i].from}
    ensures AllSchema(w[..i + 1]) <==> w[i].isSchema && AllSchema(w[..i])
  {
    assert w[..i + 1] == w[..i] + [w[i]];
    SourcesExtend(w[..i], w[i]);
    assert forall x :: x in w[..i + 1] <==> x in w[..i] || x == w[i];
  }

  lemma {:induction false} Enumerate(s: set<Location>) returns (q: seq<Location>)
    ensures forall n :: n in q <==> n in s
    ensures forall i, j :: 0 <= i < j < |q| ==> q[i] != q[j]
  {
    if s == {} {
      q := [];
    } else {
      var n :| n in s;
      var rest := Enumerate(s - {n});
      q := [n] + rest;
    }
  }

  /** The verdict for one visit order. */
  ghost predicate Accepts(edges: seq<ReferenceEdge>, order: seq<Location>) {
    Run(edges, order, map[]).Accepted?
  }

  /** Without references other than schema references nothing is ever rejected, whatever their sources. */
  lemma SchemaEdgesAreAccepted(edges: seq<ReferenceEdge>, order: seq<Location>)
    requires AllSchema(edges)
    ensures Accepts(edges, order)
  {
    RunExplained(edges, order, map[]);
  }

  /** Every visit order accepts exactly when no reference that is not a schema reference leads into a cycle. */
  lemma AlwaysAcceptedIff(edges: seq<ReferenceEdge>)
    requires OneEdgePerSource(edges)
    ensures (forall order :: IsOrder(edges, order) ==> Accepts(edges, order)) <==>
            (forall w: seq<ReferenceEdge>, k: nat :: Lasso(edges, w, k) ==> AllSchema(w))
  {
    if forall w: seq<ReferenceEdge>, k: nat :: Lasso(edges, w, k) ==> AllSchema(w) {
      forall order | IsOrder(edges, order) ensures Accepts(edges, order) {
        RunExplained(edges, order, map[]);
      }
    } else {
      var w: seq<ReferenceEdge>, k: nat :| Lasso(edges, w, k) && !AllSchema(w);
      assert w[0] in w;
      var first := w[0].from;
      var rest := Enumerate(Sources(edges) - {first});
      var order := [first] + rest;
      assert IsOrder(edges, order);
      FollowsLasso(edges, w, k);
      assert !Accepts(edges, order);
    }
  }

  ghost predicate OnCycle(edges: seq<ReferenceEdge>, n: Location) {
    exists w: seq<ReferenceEdge> :: Cycle(edges, w) && w[0].from == n
  }

  lemma CycleOfLasso(edges: seq<ReferenceEdge>, w: seq<ReferenceEdge>, k: nat)
    requires Lasso(edges, w, k)
    ensures Cycle(edges, w[k..]) && OnCycle(edges, w[k].from)
  {
    assert forall x :: x in w[k..] ==> x in w;
    assert Chain(edges, w[k..]);
    assert Cycle(edges, w[k..]);
  }

  lemma {:induction false} RunAppend(edges: seq<ReferenceEdge>, a: seq<Location>, b: seq<Location>, colours: Colours)
    ensures Run(edges, a + b, colours) ==
            match Run(edges, a, colours)
            case Rejected => Rejected
            case Accepted(after) => Run(edges, b, after)
    decreases |a|
  {
    if a == [] {
      assert a + b == b;
    } else {
      assert (a + b)[1..] == a[1..] + b;
      if a[0] in colours {
        RunAppend(edges, a[1..], b, colours);
      } else {
        var v := Visit(edges, a[0], [], colours);
        if v.Accepted? {
          RunAppend(edges, a[1..], b, v.colours);
        }
      }
    }
  }

  lemma RunOne(edges: seq<ReferenceEdge>, order: seq<Location>, source: Location, colours: Colours)
    requires Run(edges, order, map[]) == Accepted(colours)
    ensures Run(edges, order + [source], map[]) ==
            if source in colours then Accepted(colours) else Visit(edges, source, [], colours)
  {
    RunAppend(edges, order, [source], map[]);
    assert [source][1..] == [];
    if source !in colours && Visit(edges, source, [], colours).Accepted? {
      assert Run(edges, [], Visit(edges, source, [], colours).colours) == Visit(edges, source, [], colours);
    }
  }

  /** With one edge per source, a lasso that starts on a cycle is part of that cycle. */
  lemma LassoFromCycle(edges: seq<ReferenceEdge>, w: seq<ReferenceEdge>, k: nat)
    requires OneEdgePerSource(edges) && Lasso(edges, w, k) && OnCycle(edges, w[0].from)
    requires forall c: seq<ReferenceEdge> :: Cycle(edges, c) ==> AllSchema(c)
    ensures AllSchema(w)
  {
    var c: seq<ReferenceEdge> :| Cycle(edges, c) && c[0].from == w[0].from;
    assert c[0] in c;
    ChainInLasso(edges, c, 0, w);
  }

  /** Some visit order accepts exactly when every cycle consists of schema references. */
  lemma SometimesAcceptedIff(edges: seq<ReferenceEdge>)
    requires OneEdgePerSource(edges)
    ensures (exists order :: IsOrder(edges, order) && Accepts(edges, order)) <==>
            (forall w: seq<ReferenceEdge> :: Cycle(edges, w) ==> AllSchema(w))
  {
    if order :| IsOrder(edges, order) && Accepts(edges, order) {
      AcceptedMeansSchemaCycles(edges, order);
    }
    if forall w: seq<ReferenceEdge> :: Cycle(edges, w) ==> AllSchema(w) {
      var cyclic := set n | n in Sources(edges) && OnCycle(edges, n);
      var a := Enumerate(cyclic);
      var b := Enumerate(Sources(edges) - cyclic);
      var order := a + b;
      assert forall i, j :: 0 <= i < |a| && 0 <= j < |b| ==> a[i] in cyclic && b[j] !in cyclic;
      assert IsOrder(edges, order);
      CyclesFirst(edges, a, b);
      assert Accepts(edges, order);
    }
  }

  lemma CyclesFirst(edges: seq<ReferenceEdge>, a: seq<Location>, b: seq<Location>)
    requires OneEdgePerSource(edges) && IsOrder(edges, a + b)
    requires forall n :: n in a <==> n in Sources(edges) && OnCycle(edges, n)
    requires forall w: seq<ReferenceEdge> :: Cycle(edges, w) ==> AllSchema(w)
    ensures Run(edges, a + b, map[]).Accepted?
  {
    RunAppend(edges, a, b, map[]);
    RunOnCycles(edges, a);
    RunExplained(edges, a, map[]);
    RunOffCycles(edges, b, Run(edges, a, map[]).colours);
  }

  lemma RunOnCycles(edges: seq<ReferenceEdge>, a: seq<Location>)
    requires OneEdgePerSource(edges) && forall n :: n in a ==> OnCycle(edges, n)
    requires forall w: seq<ReferenceEdge> :: Cycle(edges, w) ==> AllSchema(w)
    ensures Run(edges, a, map[]).Accepted?
  {
    RunExplained(edges, a, map[]);
    if Run(edges, a, map[]).Rejected? {
      var w: seq<ReferenceEdge>, k: nat :| BadLasso(edges, w, k, FinishedIn(map[])) && w[0].from in a;
      LassoFromCycle(edges, w, k);
    }
  }

  lemma RunOffCycles(edges: seq<ReferenceEdge>, b: seq<Location>, colours: Colours)
    requires ActiveIn(colours) == {}
    requires forall n :: n in Sources(edges) && OnCycle(edges, n) ==> n in FinishedIn(colours)
    ensures Run(edges, b, colours).Accepted?
  {
    RunExplained(edges, b, colours);
    if Run(edges, b, colours).Rejected? {
      var w: seq<ReferenceEdge>, k: nat :| BadLasso(edges, w, k, FinishedIn(colours)) && w[0].from in b;
      CycleOfLasso(edges, w, k);
    }
  }

  /** The verdict can depend on the order: a tail that is no schema reference runs into a schema cycle. */
  lemma OrderCanDecide(a: Location, b: Location)
    requires a != b
    ensures var edges := [ReferenceEdge(a, b, false), ReferenceEdge(b, b, true)];
            && OneEdgePerSource(edges) && IsOrder(edges, [a, b]) && IsOrder(edges, [b, a])
            && !Accepts(edges, [a, b]) && Accepts(edges, [b, a])
  {
    var edges := [ReferenceEdge(a, b, false), ReferenceEdge(b, b, true)];
    assert edges[0] in edges && edges[1] in edges;
    assert Sources(edges) == {a, b};
    LoopFirst(edges, edges[0], edges[1]);
    // From a, the tail is still on the path when the loop closes.
    assert Lasso(edges, edges, 1) && !AllSchema(edges);
    FollowsLasso(edges, edges, 1);
  }

  /** From the loop itself, it closes on an empty path and is accepted; the tail then finds it finished. */
  lemma LoopFirst(edges: seq<ReferenceEdge>, tail: ReferenceEdge, loop: ReferenceEdge)
    requires OneEdgePerSource(edges) && tail in edges && loop in edges
    requires tail.from != loop.from && tail.to == loop.from == loop.to && loop.isSchema
    ensures Accepts(edges, [loop.from, tail.from])
  {
    var done := map[loop.from := Finished];
    OnlyOut(edges, loop);
    OnlyOut(edges, tail);
    LoopAlone(edges, loop);
    VisitSingle(edges, tail, [], done);
    RunOne(edges, [], loop.from, map[]);
    assert [] + [loop.from] == [loop.from] && [loop.from] + [tail.from] == [loop.from, tail.from];
    RunOne(edges, [loop.from], tail.from, done);
  }

  lemma LoopAlone(edges: seq<ReferenceEdge>, loop: ReferenceEdge)
    requires loop in edges && loop.to == loop.from && loop.isSchema && OutEdges(edges, loop.from) == [loop]
    ensures Visit(edges, loop.from, [], map[]) == Accepted(map[loop.from := Finished])
  {
    var none: Colours := map[];
    VisitByEdge(edges, loop, [], none);
    assert AllSchema([]);
    assert none[loop.from := Active][loop.from := Finished] == map[loop.from := Finished];
  }

  /**
   * With two edges at one source, a cross edge to a finished node can hide a cycle from the search. The flags
   * are those of `a` and `b` below `/schemas/` and `c` elsewhere.
   */
  lemma TwoEdgesCanHideACycle(a: Location, b: Location, c: Location)
    requires a != b && b != c && a != c
    ensures var edges := HidingEdges(a, b, c);
            && !OneEdgePerSource(edges) && IsOrder(edges, [a, b, c]) && Accepts(edges, [a, b, c])
            && exists w: seq<ReferenceEdge> :: Cycle(edges, w) && !AllSchema(w)
  {
    var edges := HidingEdges(a, b, c);
    assert edges[0].from == edges[1].from;
    ThreeSources(a, b, c, edges);
    HiddenRun(a, b, c, edges);
    var hidden := [edges[1], edges[3], edges[2]];
    assert edges[1] in hidden && Cycle(edges, hidden);
  }

  function HidingEdges(a: Location, b: Location, c: Location): seq<ReferenceEdge> {
    [ReferenceEdge(a, b, true), ReferenceEdge(a, c, false), ReferenceEdge(b, a, true), ReferenceEdge(c, b, false)]
  }

  lemma ThreeSources(a: Location, b: Location, c: Location, edges: seq<ReferenceEdge>)
    requires a != b && b != c && a != c && |edges| == 4
    requires edges[0].from == edges[1].from == a && edges[2].from == b && edges[3].from == c
    ensures IsOrder(edges, [a, b, c])
  {
    assert edges[0] in edges && edges[2] in edges && edges[3] in edges;
  }

  lemma HiddenRun(a: Location, b: Location, c: Location, edges: seq<ReferenceEdge>)
    requires a != b && b != c && a != c && edges == HidingEdges(a, b, c)
    ensures Accepts(edges, [a, b, c])
  {
    var ab, ac, ba, cb := edges[0], edges[1], edges[2], edges[3];
    assert edges == [] + [ab] + [ac] + [ba] + [cb];
    OutOfFour(edges, ab, ac, ba, cb, a);
    OutOfFour(edges, ab, ac, ba, cb, b);
    OutOfFour(edges, ab, ac, ba, cb, c);
    HiddenVisit(edges, ab, ba, ac, cb);
    RunRest(edges, a, b, c);
  }

  lemma RunRest(edges: seq<ReferenceEdge>, a: Location, b: Location, c: Location)
    requires Visit(edges, a, [], map[]).Accepted? && {a, b, c} <= Visit(edges, a, [], map[]).colours.Keys
    ensures Run(edges, [a, b, c], map[]).Accepted?
  {
    var done := Visit(edges, a, [], map[]).colours;
    RunOne(edges, [], a, map[]);
    RunOne(edges, [] + [a], b, done);
    RunOne(edges, [] + [a] + [b], c, done);
    assert [] + [a] + [b] + [c] == [a, b, c];
  }

  /** From `a`, the edge to `b` closes a schema cycle; `b` is finished when `c` reaches it. */
  lemma HiddenVisit(edges: seq<ReferenceEdge>, ab: ReferenceEdge, ba: ReferenceEdge, ac: ReferenceEdge,
                    cb: ReferenceEdge)
    requires ab in edges && ba in edges && ac in edges && cb in edges
    requires ab.from == ac.from == ba.to && ab.to == ba.from == cb.to && ac.to == cb.from
    requires ab.from != ab.to && ab.to != ac.to && ab.from != ac.to && ab.isSchema && ba.isSchema
    requires OutEdges(edges, ab.from) == [ab, ac]
    requires OutEdges(edges, ba.from) == [ba] && OutEdges(edges, cb.from) == [cb]
    ensures var v := Visit(edges, ab.from, [], map[]);
            v.Accepted? && {ab.from, ab.to, ac.to} <= v.colours.Keys
  {
    var none: Colours := map[];
    var c0 := none[ab.from := Active];
    var c1 := c0[ab.to := Finished];
    VisitSingle(edges, ba, [] + [ab], c0);
    VisitSingle(edges, cb, [] + [ac], c1);
    TwoOut(edges, ab, ac, [], c0);
  }

  lemma TwoOut(edges: seq<ReferenceEdge>, e: ReferenceEdge, f: ReferenceEdge, path: seq<ReferenceEdge>, c: Colours)
    requires e in edges && f in edges && VisitEdge(edges, e, path, c).Accepted?
    ensures VisitEdges(edges, [e, f], path, c) == VisitEdge(edges, f, path, VisitEdge(edges, e, path, c).colours)
  {
    assert [e, f][1..] == [f];
    OneOut(edges, f, path, VisitEdge(edges, e, path, c).colours);
  }

  lemma OutOfFour(edges: seq<ReferenceEdge>, e0: ReferenceEdge, e1: ReferenceEdge, e2: ReferenceEdge,
                  e3: ReferenceEdge, n: Location)
    requires edges == [] + [e0] + [e1] + [e2] + [e3]
    ensures OutEdges(edges, n) == (if e0.from == n then [e0] else []) + (if e1.from == n then [e1] else []) +
                                  (if e2.from == n then [e2] else []) + (if e3.from == n then [e3] else [])
  {
    OutEdgesAppend([], e0, n);
    OutEdgesAppend([] + [e0], e1, n);
    OutEdgesAppend([] + [e0] + [e1], e2, n);
    OutEdgesAppend([] + [e0] + [e1] + [e2], e3, n);
  }

  /** Visiting a node whose only edge meets a coloured node. */
  lemma VisitSingle(edges: seq<ReferenceEdge>, e: ReferenceEdge, path: seq<ReferenceEdge>, colours: Colours)
    requires e in edges && OutEdges(edges, e.from) == [e] && e.from !in colours
    requires e.to in colours && (colours[e.to].Finished? || (e.isSchema && AllSchema(path)))
    ensures Visit(edges, e.from, path, colours) == Accepted(colours[e.from := Finished])
  {
    VisitByEdge(edges, e, path, colours);
    assert colours[e.from := Active][e.from := Finished] == colours[e.from := Finished];
  }

  // ---- the code ----

  /** `bySource`: the buckets of edges by source, filled in order. */
  method GroupBySource(edges: seq<ReferenceEdge>) returns (bySource: map<Location, seq<ReferenceEdge>>)
    ensures bySource.Keys == Sources(edges)
    ensures forall n :: n in bySource ==> bySource[n] == OutEdges(edges, n)
  {
    bySource := map[];
    for i := 0 to |edges|
      invariant bySource.Keys == Sources(edges[..i])
      invariant forall n :: n in bySource ==> bySource[n] == OutEdges(edges[..i], n)
    {
      var e := edges[i];
      assert edges[..i + 1] == edges[..i] + [e];
      SourcesExtend(edges[..i], e);
      forall n { OutEdgesAppend(edges[..i], e, n); }
      if e.from !in bySource {
        NoneOut(edges[..i], e.from);
      }
      bySource := bySource[e.from := (if e.from in bySource then bySource[e.from] else []) + [e]];
    }
    assert edges[..|edges|] == edges;
  }

  class Search {
    const edges: seq<ReferenceEdge>
    const bySource: map<Location, seq<ReferenceEdge>>
    var state: Colours

    constructor (edges: seq<ReferenceEdge>, bySource: map<Location, seq<ReferenceEdge>>)
      ensures this.edges == edges && this.bySource == bySource && state == map[]
    {
      this.edges, this.bySource, state := edges, bySource, map[];
    }

    ghost predicate Grouped() {
      bySource.Keys == Sources(edges) && forall n :: n in bySource ==> bySource[n] == OutEdges(edges, n)
    }

    method Explore(node: Location, path: seq<ReferenceEdge>) returns (ok: bool)
      requires Grouped() && node !in state
      modifies this
      ensures var v := Visit(edges, node, path, old(state));
              ok == v.Accepted? && (ok ==> state == v.colours)
      decreases Sources(edges) - state.Keys, 1
    {
      ghost var colours := state;
      state := state[node := Active];
      var out := if node in bySource then bySource[node] else [];
      if node in bySource {
        assert node in Sources(edges) - colours.Keys;
      } else {
        NoneOut(edges, node);
      }
      ok := FollowAll(out, path, Sources(edges) - colours.Keys);
      if ok {
        state := state[node := Finished];
      }
    }

    /** The loop over the outgoing edges. */
    method FollowAll(out: seq<ReferenceEdge>, path: seq<ReferenceEdge>, ghost bound: set<Location>) returns (ok: bool)
      requires Grouped() && (forall e :: e in out ==> e in edges) && (out != [] ==> Sources(edges) - state.Keys < bound)
      modifies this
      ensures var v := VisitEdges(edges, out, path, old(state));
              ok == v.Accepted? && (ok ==> state == v.colours)
      decreases bound, 0
    {
      ghost var start := state;
      for i := 0 to |out|
        invariant start.Keys <= state.Keys
        invariant VisitEdges(edges, out, path, start) == VisitEdges(edges, out[i..], path, state)
      {
        assert out[i..][1..] == out[i + 1..] && out[i..][0] == out[i];
        assert Sources(edges) - state.Keys <= Sources(edges) - start.Keys < bound;
        ok := Follow(out[i], path);
        if !ok {
          return;
        }
      }
      assert out[|out|..] == [];
      ok := true;
    }

    /** The body of the loop over the outgoing edges. */
    method Follow(e: ReferenceEdge, path: seq<ReferenceEdge>) returns (ok: bool)
      requires Grouped() && e in edges
      modifies this
      ensures var v := VisitEdge(edges, e, path, old(state));
              ok == v.Accepted? && (ok ==> state == v.colours)
      decreases Sources(edges) - state.Keys, 2
    {
      if e.to !in state {
        ok := Explore(e.to, path + [e]);
      } else if state[e.to].Active? {
        var allSchema := e.isSchema;
        for j := 0 to |path|
          invariant allSchema == (e.isSchema && AllSchema(path[..j]))
        {
          assert path[..j + 1] == path[..j] + [path[j]];
          allSchema := allSchema && path[j].isSchema;
        }
        assert path[..|path|] == path;
        ok := allSchema;
      } else {
        ok := true;
      }
    }
  }

  /** Every edge leads to a node of a scanned document. */
  ghost predicate Resolved(documents: map<File, Node>, e: ReferenceEdge) {
    e.to.file in documents && Resolve(documents[e.to.file], e.to.pointer).Some?
  }

  method AllResolve(documents: map<File, Node>, edges: seq<ReferenceEdge>) returns (ok: bool)
    ensures ok <==> forall e :: e in edges ==> Resolved(documents, e)
  {
    for i := 0 to |edges|
      invariant forall j :: 0 <= j < i ==> Resolved(documents, edges[j])
    {
      var e := edges[i];
      if e.to.file !in documents {
        assert !Resolved(documents, e);
        return false;
      }
      var found := FindPointer(documents[e.to.file], e.to.pointer);
      if found.None? {
        assert !Resolved(documents, e);
        return false;
      }
    }
    ok := true;
  }

  /** `order` lists, without repetition, the sources that are not in `remaining`. */
  ghost predicate Listed(edges: seq<ReferenceEdge>, order: seq<Location>, remaining: set<Location>) {
    && remaining <= Sources(edges)
    && (forall n :: n in order <==> n in Sources(edges) - remaining)
    && (forall i, j :: 0 <= i < j < |order| ==> order[i] != order[j])
  }

  lemma ListedOne(edges: seq<ReferenceEdge>, order: seq<Location>, remaining: set<Location>, source: Location)
    requires Listed(edges, order, remaining) && source in remaining
    ensures Listed(edges, order + [source], remaining - {source})
  {
    assert source !in order;
  }

  lemma ListedRest(edges: seq<ReferenceEdge>, order: seq<Location>, remaining: set<Location>)
    returns (rest: seq<Location>)
    requires Listed(edges, order, remaining)
    ensures IsOrder(edges, order + rest)
  {
    rest := Enumerate(remaining);
    assert forall i, j :: 0 <= i < |order| && 0 <= j < |rest| ==> order[i] in order && rest[j] in remaining;
  }

  /** The search over all sources; `order` is how the iteration over `bySource` happened to run. */
  method FindBadCycle(edges: seq<ReferenceEdge>) returns (ok: bool, ghost order: seq<Location>)
    ensures IsOrder(edges, order) && ok == Accepts(edges, order)
  {
    var bySource := GroupBySource(edges);
    var search := new Search(edges, bySource);
    var remaining := bySource.Keys;
    order := [];
    while remaining != {}
      invariant search.edges == edges && search.bySource == bySource && search.Grouped()
      invariant Listed(edges, order, remaining)
      invariant Run(edges, order, map[]) == Accepted(search.state)
    {
      var source :| source in remaining;
      RunOne(edges, order, source, search.state);
      ListedOne(edges, order, remaining, source);
      order := order + [source];
      remaining := remaining - {source};
      if source !in search.state {
        ok := search.Explore(source, []);
        if !ok {
          ghost var rest := ListedRest(edges, order, remaining);
          RunAppend(edges, order, rest, map[]);
          order := order + rest;
          return;
        }
      }
    }
    ok := true;
  }

  /** The whole check. */
  method ValidateReferences(documents: map<File, Node>, edges: seq<ReferenceEdge>)
    returns (ok: bool, ghost order: seq<Location>)
    ensures IsOrder(edges, order)
    ensures ok <==> (forall e :: e in edges ==> Resolved(documents, e)) && Accepts(edges, order)
    ensures ok && OneEdgePerSource(edges) ==> forall w: seq<ReferenceEdge> :: Cycle(edges, w) ==> AllSchema(w)
    ensures (forall e :: e in edges ==> Resolved(documents, e)) && AllSchema(edges) ==> ok
  {
    ok := AllResolve(documents, edges);
    if ok {
      ok, order := FindBadCycle(edges);
      if AllSchema(edges) {
        SchemaEdgesAreAccepted(edges, order);
      }
      if ok && OneEdgePerSource(edges) {
        AcceptedMeansSchemaCycles(edges, order);
      }
    } else {
      order := Enumerate(Sources(edges));
    }
  }

  /** Every file that the root leads to is good. */
  ghost predicate AllGood(w: World, root: File) {
    forall f :: Reaches(FileGraph(w), root, f) ==> GoodFile(w, f)
  }

  /**
   * The preflight as a whole: it accepts exactly when every file that the root leads to is good, every reference
   * leads to a node, and the search accepts in the order taken; schema references alone are always accepted. If it
   * accepts documents without repeated keys, every reference cycle is made of schema references.
   */
  method CheckReferences(w: World, root: File) returns (ok: bool, s: State, ghost order: seq<Location>)
    ensures !AllGood(w, root) ==> !ok
    ensures AllGood(w, root) ==>
              && Scanned(w, EMPTY, s, root) && IsOrder(s.edges, order)
              && (ok <==> (forall e :: e in s.edges ==> Resolved(s.documents, e)) && Accepts(s.edges, order))
              && ((forall e :: e in s.edges ==> Resolved(s.documents, e)) && AllSchema(s.edges) ==> ok)
    ensures ok && (forall f :: f in s.documents ==> UniqueKeys(s.documents[f])) ==>
              forall c: seq<ReferenceEdge> :: Cycle(s.edges, c) ==> AllSchema(c)
  {
    ok, s := Scan(w, root);
    order := [];
    if ok {
      ok, order := ValidateReferences(s.documents, s.edges);
      if ok && forall f :: f in s.documents ==> UniqueKeys(s.documents[f]) {
        ScanGivesOneEdgePerSource(w, s, root);
      }
    }
  }
}
