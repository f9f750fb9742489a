/** Reachability in finite directed graphs, also along paths that avoid a set of nodes. */
module Reachability {

  type Graph<!T> = map<T, set<T>>

  predicate Edge<T(==)>(g: Graph<T>, a: T, b: T) {
    a in g && b in g[a]
  }

  /** A nonempty sequence of nodes, each joined to the next. */
  predicate IsPath<T(==)>(g: Graph<T>, p: seq<T>) {
    |p| > 0 && (|p| > 1 ==> Edge(g, p[0], p[1]) && IsPath(g, p[1..]))
  }

  predicate Joins<T(==)>(g: Graph<T>, avoiding: set<T>, a: T, b: T, p: seq<T>) {
    IsPath(g, p) && p[0] == a && p[|p| - 1] == b && forall x :: x in p ==> x !in avoiding
  }

  ghost predicate ReachesAvoiding<T(!new)>(g: Graph<T>, avoiding: set<T>, a: T, b: T) {
    exists p: seq<T> :: Joins(g, avoiding, a, b, p)
  }

  ghost predicate Reaches<T(!new)>(g: Graph<T>, a: T, b: T) {
    ReachesAvoiding(g, {}, a, b)
  }

  lemma ReachesSelf<T(!new)>(g: Graph<T>, avoiding: set<T>, a: T)
    requires a !in avoiding
    ensures ReachesAvoiding(g, avoiding, a, a)
  {
    assert Joins(g, avoiding, a, a, [a]);
  }

  lemma StartIsOutside<T(!new)>(g: Graph<T>, avoiding: set<T>, a: T, b: T)
    requires ReachesAvoiding(g, avoiding, a, b)
    ensures a !in avoiding
  {
    var p :| Joins(g, avoiding, a, b, p);
    assert p[0] in p;
  }

  lemma ReachesStep<T(!new)>(g: Graph<T>, avoiding: set<T>, a: T, c: T, b: T)
    requires a !in avoiding && Edge(g, a, c) && ReachesAvoiding(g, avoiding, c, b)
    ensures ReachesAvoiding(g, avoiding, a, b)
  {
    var p :| Joins(g, avoiding, c, b, p);
    var q := [a] + p;
    assert q[1..] == p;
    assert Joins(g, avoiding, a, b, q);
  }

  lemma ReachesWeaken<T(!new)>(g: Graph<T>, more: set<T>, fewer: set<T>, a: T, b: T)
    requires fewer <= more && ReachesAvoiding(g, more, a, b)
    ensures ReachesAvoiding(g, fewer, a, b)
  {
    var p :| Joins(g, more, a, b, p);
    assert Joins(g, fewer, a, b, p);
  }

  lemma {:induction false} PathThen<T(!new)>(g: Graph<T>, avoiding: set<T>, p: seq<T>, a: T, b: T, c: T)
    requires Joins(g, avoiding, a, b, p) && Edge(g, b, c) && c !in avoiding
    ensures ReachesAvoiding(g, avoiding, a, c)
  {
    assert p[0] in p;
    if |p| == 1 {
      ReachesSelf(g, avoiding, c);
      ReachesStep(g, avoiding, a, c, c);
    } else {
      assert Joins(g, avoiding, p[1], b, p[1..]);
      PathThen(g, avoiding, p[1..], p[1], b, c);
      ReachesStep(g, avoiding, a, p[1], c);
    }
  }

  /** One more step that avoids the set as well. */
  lemma ReachesThen<T(!new)>(g: Graph<T>, avoiding: set<T>, a: T, b: T, c: T)
    requires ReachesAvoiding(g, avoiding, a, b) && Edge(g, b, c) && c !in avoiding
    ensures ReachesAvoiding(g, avoiding, a, c)
  {
    var p :| Joins(g, avoiding, a, b, p);
    PathThen(g, avoiding, p, a, b, c);
  }

  lemma {:induction false} ReachesTrans<T(!new)>(g: Graph<T>, p: seq<T>, a: T, b: T, c: T)
    requires Joins(g, {}, a, b, p) && Reaches(g, b, c)
    ensures Reaches(g, a, c)
  {
    if |p| > 1 {
      ReachesTrans(g, p[1..], p[1], b, c);
      ReachesStep(g, {}, a, p[1], c);
    }
  }

  lemma ReachesCompose<T(!new)>(g: Graph<T>, a: T, b: T, c: T)
    requires Reaches(g, a, b) && Reaches(g, b, c)
    ensures Reaches(g, a, c)
  {
    var p :| Joins(g, {}, a, b, p);
    ReachesTrans(g, p, a, b, c);
  }

  /** Cutting a path at the last visit of `a` leaves a path that avoids `a` as well. */
  lemma {:induction false} CutAtLast<T(!new)>(g: Graph<T>, avoiding: set<T>, a: T, p: seq<T>, b: T)
    requires p != [] && Joins(g, avoiding, p[0], b, p)
    ensures a !in p ==> ReachesAvoiding(g, avoiding + {a}, p[0], b)
    ensures a in p ==>
              a == b || exists c :: Edge(g, a, c) && ReachesAvoiding(g, avoiding + {a}, c, b)
  {
    if a !in p {
      assert Joins(g, avoiding + {a}, p[0], b, p);
    } else if |p| > 1 {
      var q := p[1..];
      assert Joins(g, avoiding, q[0], b, q);
      CutAtLast(g, avoiding, a, q, b);
      if a !in q {
        assert Edge(g, a, q[0]) && ReachesAvoiding(g, avoiding + {a}, q[0], b);
      }
    }
  }

  /**
   * The equation behind every "mark, recurse, unmark" traversal: what `a` reaches outside `avoiding`
   * is `a` itself and what its successors reach outside `avoiding` and `a`, cycles or not.
   */
  lemma Unfold<T(!new)>(g: Graph<T>, avoiding: set<T>, a: T, b: T)
    requires a !in avoiding
    ensures ReachesAvoiding(g, avoiding, a, b) <==>
            a == b || exists c :: Edge(g, a, c) && ReachesAvoiding(g, avoiding + {a}, c, b)
  {
    if ReachesAvoiding(g, avoiding, a, b) {
      var p :| Joins(g, avoiding, a, b, p);
      CutAtLast(g, avoiding, a, p, b);
    }
    if a == b {
      ReachesSelf(g, avoiding, a);
    } else if c :| Edge(g, a, c) && ReachesAvoiding(g, avoiding + {a}, c, b) {
      ReachesWeaken(g, avoiding + {a}, avoiding, c, b);
      ReachesStep(g, avoiding, a, c, b);
    }
  }

  /** One step at a time, without avoiding anything. */
  lemma UnfoldStep<T(!new)>(g: Graph<T>, a: T, b: T)
    ensures Reaches(g, a, b) <==> a == b || exists c :: Edge(g, a, c) && Reaches(g, c, b)
  {
    if Reaches(g, a, b) {
      Unfold(g, {}, a, b);
      if a != b {
        var c :| Edge(g, a, c) && ReachesAvoiding(g, {} + {a}, c, b);
        ReachesWeaken(g, {} + {a}, {}, c, b);
      }
    }
    if a == b {
      ReachesSelf(g, {}, a);
    } else if c :| Edge(g, a, c) && Reaches(g, c, b) {
      ReachesStep(g, {}, a, c, b);
    }
  }

  ghost predicate Acyclic<T(!new)>(g: Graph<T>) {
    forall a, b :: Edge(g, a, b) ==> !Reaches(g, b, a)
  }

  function Ends<T(==)>(g: Graph<T>): set<T> {
    g.Keys + set a, b | a in g && b in g[a] :: b
  }

  /** What `a` reaches, as a set: it shrinks along the edges of an acyclic graph. */
  ghost function ReachSet<T(!new)>(g: Graph<T>, a: T): set<T> {
    set b | b in Ends(g) && Reaches(g, a, b)
  }

  lemma ReachSetShrinks<T(!new)>(g: Graph<T>, a: T, b: T)
    requires Acyclic(g) && Edge(g, a, b)
    ensures ReachSet(g, b) < ReachSet(g, a)
  {
    ReachesSelf(g, {}, a);
    assert a in ReachSet(g, a) && a !in ReachSet(g, b);
    forall c | Reaches(g, b, c) ensures Reaches(g, a, c) {
      ReachesStep(g, {}, a, b, c);
    }
  }

  /** A set closed under edges that holds `a` holds everything `a` reaches. */
  lemma {:induction false} ClosedPath<T(!new)>(g: Graph<T>, s: set<T>, p: seq<T>)
    requires IsPath(g, p) && p[0] in s
    requires forall x, y :: x in s && Edge(g, x, y) ==> y in s
    ensures p[|p| - 1] in s
  {
    if |p| > 1 {
      ClosedPath(g, s, p[1..]);
    }
  }

  lemma ClosedUnderReach<T(!new)>(g: Graph<T>, s: set<T>, a: T, b: T)
    requires a in s && Reaches(g, a, b)
    requires forall x, y :: x in s && Edge(g, x, y) ==> y in s
    ensures b in s
  {
    var p :| Joins(g, {}, a, b, p);
    ClosedPath(g, s, p);
  }
}
