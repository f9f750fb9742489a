/**
 * Which schemas become models: the closure of the root schemas under composed members, effective
 * properties and chains of array items, and the models built from it.
 */
module ModelClosure {
  import opened Pointers
  import opened Reachability
  import opened SchemaNormalizer
  import opened EffectiveProperties
  import SensitiveModels

  type Document = seq<Schema>

  /** `Document.Schema`: the first schema with that reference or that name. */
  function FindSchema(doc: Document, x: string): (r: Option<Schema>)
    ensures r.Some? ==> r.value in doc && (r.value.ref == x || r.value.name == x)
    ensures r.None? ==> forall s :: s in doc ==> s.ref != x && s.name != x
  {
    if doc == [] then None
    else if doc[0].ref == x || doc[0].name == x then Some(doc[0])
    else FindSchema(doc[1..], x)
  }

  /** `s` is the first schema of the document with the reference or the name `x`. */
  ghost predicate IsFirstMatch(doc: Document, x: string, s: Schema) {
    exists i :: FirstMatchAt(doc, x, i) && doc[i] == s
  }

  ghost predicate FirstMatchAt(doc: Document, x: string, i: int) {
    0 <= i < |doc| && (doc[i].ref == x || doc[i].name == x) &&
    forall j :: 0 <= j < i ==> doc[j].ref != x && doc[j].name != x
  }

  lemma {:induction false} FindSchemaIsFirst(doc: Document, x: string, s: Schema)
    ensures FindSchema(doc, x) == Some(s) <==> IsFirstMatch(doc, x, s)
  {
    if doc != [] {
      if doc[0].ref == x || doc[0].name == x {
        assert FirstMatchAt(doc, x, 0);
      } else {
        FindSchemaIsFirst(doc[1..], x, s);
        FirstMatchBehind(doc, x, s);
      }
    }
  }

  lemma FirstMatchBehind(doc: Document, x: string, s: Schema)
    requires doc != [] && doc[0].ref != x && doc[0].name != x
    ensures IsFirstMatch(doc, x, s) <==> IsFirstMatch(doc[1..], x, s)
  {
    var rest := doc[1..];
    if i :| FirstMatchAt(rest, x, i) && rest[i] == s {
      assert forall j :: 0 < j <= i ==> doc[j] == rest[j - 1];
      assert FirstMatchAt(doc, x, i + 1);
    }
    if i :| FirstMatchAt(doc, x, i) && doc[i] == s {
      assert forall j :: 0 <= j < i - 1 ==> rest[j] == doc[j + 1];
      assert FirstMatchAt(rest, x, i - 1);
    }
  }

  /** References and names do not mix: a reference contains a `#`, the name of a component does not. */
  ghost predicate RefsAreNotNames(doc: Document) {
    forall s, u :: s in doc && u in doc ==> u.ref != s.name
  }

  /** Of the schemas with its name, `s` is the one that is found by that name. */
  ghost predicate FirstOfName(doc: Document, s: Schema) {
    s in doc && FindSchema(doc, s.name) == Some(s)
  }

  /** What `x` finds is also what its name finds; so it is for every name. */
  ghost predicate Settled(doc: Document, x: string) {
    FindSchema(doc, x).Some? ==> FirstOfName(doc, FindSchema(doc, x).value)
  }

  lemma NamesAreSettled(doc: Document, s: Schema)
    requires RefsAreNotNames(doc) && s in doc
    ensures Settled(doc, s.name)
  {
    var found := FindSchema(doc, s.name);
    assert found.value.name == s.name;
  }

  predicate Excluded(name: string) {
    name == "ObjectReference" || name == "Error"
  }

  /** The model name under which a visit of `x` is recorded, if it is recorded at all. */
  function Enter(doc: Document, x: string): Option<string> {
    match FindSchema(doc, x)
    case None => None
    case Some(s) => if s.name == "" || s.name == "ObjectReference" || s.name == "Error" then None else Some(s.name)
  }

  // ---- chains of items ----

  function Handles(doc: Document): set<string> {
    (set s | s in doc :: s.ref) + (set s | s in doc :: s.name)
  }

  function ItemsOf(doc: Document, x: string): Option<string> {
    match FindSchema(doc, x)
    case None => None
    case Some(s) => s.links.items
  }

  function ItemsGraph(doc: Document): Graph<string> {
    map x | x in Handles(doc) :: if ItemsOf(doc, x).Some? then {ItemsOf(doc, x).value} else {}
  }

  lemma ItemsEdge(doc: Document, x: string, y: string)
    ensures Edge(ItemsGraph(doc), x, y) <==> ItemsOf(doc, x) == Some(y)
  {
  }

  /** `name` is the name of a schema on the items chain that starts at `ref`. */
  ghost predicate OnChain(doc: Document, ref: string, name: string) {
    name != "" && exists x :: Reaches(ItemsGraph(doc), ref, x) && Named(doc, x, name)
  }

  predicate Named(doc: Document, x: string, name: string) {
    FindSchema(doc, x).Some? && FindSchema(doc, x).value.name == name
  }

  lemma OnChainUnfold(doc: Document, ref: string, name: string)
    ensures OnChain(doc, ref, name) <==>
            || (name != "" && Named(doc, ref, name))
            || (ItemsOf(doc, ref).Some? && OnChain(doc, ItemsOf(doc, ref).value, name))
  {
    var g := ItemsGraph(doc);
    if OnChain(doc, ref, name) {
      var x :| Reaches(g, ref, x) && Named(doc, x, name);
      UnfoldStep(g, ref, x);
      if x != ref {
        var c :| Edge(g, ref, c) && Reaches(g, c, x);
        ItemsEdge(doc, ref, c);
      }
    }
    ReachesSelf(g, {}, ref);
    if ItemsOf(doc, ref).Some? && OnChain(doc, ItemsOf(doc, ref).value, name) {
      var x :| Reaches(g, ItemsOf(doc, ref).value, x) && Named(doc, x, name);
      ItemsEdge(doc, ref, ItemsOf(doc, ref).value);
      ReachesStep(g, {}, ref, ItemsOf(doc, ref).value, x);
    }
  }

  // ---- the closure as a graph ----

  function EffectiveIn(doc: Document, ref: string): Properties {
    Effective(ByRef(doc), ref, {})
  }

  /** The visit of `s` visits `name`. */
  ghost predicate Targets(doc: Document, s: Schema, name: string) {
    || (exists c :: c in s.links.allOf && Named(doc, c, name))
    || (exists n :: n in EffectiveIn(doc, s.ref) && OnChain(doc, EffectiveIn(doc, s.ref)[n].schema, name))
    || (s.links.items.Some? && OnChain(doc, s.links.items.value, name))
  }

  function Names(doc: Document): set<string> {
    set s | s in doc :: s.name
  }

  /** A visit of `s` records `m`, unless it is recorded already. */
  ghost predicate Leads(doc: Document, s: Schema, m: string) {
    exists t :: Targets(doc, s, t) && Enter(doc, t) == Some(m)
  }

  /** The names a visit of `s` leads to. */
  ghost function LeadSet(doc: Document, s: Schema): set<string> {
    set m | m in Names(doc) && Leads(doc, s, m)
  }

  ghost function Successors(doc: Document, n: string): set<string> {
    if FindSchema(doc, n).Some? then LeadSet(doc, FindSchema(doc, n).value) else {}
  }

  ghost function ProjectionGraph(doc: Document): Graph<string> {
    map n | n in Names(doc) :: Successors(doc, n)
  }

  lemma TargetIsLead(doc: Document, s: Schema, t: string)
    requires Targets(doc, s, t) && Enter(doc, t).Some?
    ensures Enter(doc, t).value in LeadSet(doc, s)
  {
    assert Leads(doc, s, Enter(doc, t).value);
  }

  lemma TargetIsSettled(doc: Document, s: Schema, t: string)
    requires RefsAreNotNames(doc) && Targets(doc, s, t)
    ensures Settled(doc, t)
  {
    if c :| c in s.links.allOf && Named(doc, c, t) {
      NamedIsSettled(doc, c, t);
    } else if n :| n in EffectiveIn(doc, s.ref) && OnChain(doc, EffectiveIn(doc, s.ref)[n].schema, t) {
      OnChainIsSettled(doc, EffectiveIn(doc, s.ref)[n].schema, t);
    } else {
      OnChainIsSettled(doc, s.links.items.value, t);
    }
  }

  lemma OnChainIsSettled(doc: Document, ref: string, t: string)
    requires RefsAreNotNames(doc) && OnChain(doc, ref, t)
    ensures Settled(doc, t)
  {
    var x :| Reaches(ItemsGraph(doc), ref, x) && Named(doc, x, t);
    NamedIsSettled(doc, x, t);
  }

  lemma NamedIsSettled(doc: Document, x: string, t: string)
    requires RefsAreNotNames(doc) && Named(doc, x, t)
    ensures Settled(doc, t)
  {
    NamesAreSettled(doc, FindSchema(doc, x).value);
  }

  // ---- the traversal ----

  /** `m` is reached from one of `starts` on a path that avoids `a`. */
  ghost predicate FromAny(doc: Document, a: set<string>, starts: set<string>, m: string) {
    exists c :: c in starts && ReachesAvoiding(ProjectionGraph(doc), a, c, m)
  }

  /** Names recorded since `a` have all their successors recorded and are reached from `starts` outside `a`. */
  ghost predicate Grown(doc: Document, a: set<string>, b: set<string>, starts: set<string>) {
    && a <= b <= Names(doc)
    && (forall m {:trigger Complete(doc, b, m)} :: m in b && m !in a ==> Complete(doc, b, m))
    && (forall m {:trigger FromAny(doc, a, starts, m)} :: m in b && m !in a ==> FromAny(doc, a, starts, m))
  }

  ghost predicate Complete(doc: Document, b: set<string>, m: string) {
    Successors(doc, m) <= b
  }

  lemma GrownBoth(doc: Document, a: set<string>, b: set<string>, c: set<string>, starts: set<string>)
    requires Grown(doc, a, b, starts) && Grown(doc, b, c, starts)
    ensures Grown(doc, a, c, starts)
  {
    forall m | m in c && m !in a ensures Complete(doc, c, m) && FromAny(doc, a, starts, m) {
      if m in b {
        assert Complete(doc, b, m) && FromAny(doc, a, starts, m);
      } else {
        assert Complete(doc, c, m) && FromAny(doc, b, starts, m);
        var x :| x in starts && ReachesAvoiding(ProjectionGraph(doc), b, x, m);
        ReachesWeaken(ProjectionGraph(doc), b, a, x, m);
      }
    }
  }

  lemma GrownMore(doc: Document, a: set<string>, b: set<string>, n: string, starts: set<string>)
    requires Grown(doc, a, b, {n}) && n in starts
    ensures Grown(doc, a, b, starts)
  {
    forall m | m in b && m !in a ensures FromAny(doc, a, starts, m) && Complete(doc, b, m) {
      assert Complete(doc, b, m) && FromAny(doc, a, {n}, m);
    }
  }

  /** What is recorded after a visit of `x`, given what was recorded before. */
  ghost function VisitStep(doc: Document, a: set<string>, x: string): set<string> {
    if Enter(doc, x).None? || Enter(doc, x).value in a then a
    else
      var n := Enter(doc, x).value;
      a + {n} + set m | m in Names(doc) && FromAny(doc, a + {n}, LeadSet(doc, FindSchema(doc, x).value), m)
  }

  /** A path that starts among recorded names and avoids the old ones stays among recorded names. */
  lemma {:induction false} GrownCovers(doc: Document, a: set<string>, b: set<string>, p: seq<string>)
    requires IsPath(ProjectionGraph(doc), p) && p[0] in b && forall x :: x in p ==> x !in a
    requires forall m {:trigger Complete(doc, b, m)} :: m in b && m !in a ==> Complete(doc, b, m)
    ensures p[|p| - 1] in b
    decreases |p|
  {
    if |p| > 1 {
      assert p[0] in p && Complete(doc, b, p[0]);
      assert p[1] in Successors(doc, p[0]);
      assert forall x :: x in p[1..] ==> x in p;
      GrownCovers(doc, a, b, p[1..]);
    }
  }

  lemma GrownIsExact(doc: Document, a: set<string>, b: set<string>, starts: set<string>)
    requires Grown(doc, a, b, starts) && starts <= b
    ensures b == a + set m | m in Names(doc) && FromAny(doc, a, starts, m)
  {
    forall m | FromAny(doc, a, starts, m) ensures m in b {
      var c :| c in starts && ReachesAvoiding(ProjectionGraph(doc), a, c, m);
      var p :| Joins(ProjectionGraph(doc), a, c, m, p);
      GrownCovers(doc, a, b, p);
    }
    forall m | m in b && m !in a ensures FromAny(doc, a, starts, m) {
      assert FromAny(doc, a, starts, m);
    }
  }

  /** For a settled name, a visit records what the name reaches outside what was recorded. */
  lemma StepGrows(doc: Document, a: set<string>, x: string)
    requires a <= Names(doc) && Settled(doc, x) && Enter(doc, x).Some?
    ensures Grown(doc, a, VisitStep(doc, a, x), {Enter(doc, x).value})
  {
    var n := Enter(doc, x).value;
    if n !in a {
      var b := VisitStep(doc, a, x);
      forall m | m in b && m !in a ensures Complete(doc, b, m) && FromAny(doc, a, {n}, m) {
        StepReaches(doc, a, x, m);
        StepCompletes(doc, a, x, m);
      }
    }
  }

  lemma StepReaches(doc: Document, a: set<string>, x: string, m: string)
    requires Settled(doc, x) && Enter(doc, x).Some? && Enter(doc, x).value !in a && m in VisitStep(doc, a, x) && m !in a
    ensures FromAny(doc, a, {Enter(doc, x).value}, m)
  {
    var n, g := Enter(doc, x).value, ProjectionGraph(doc);
    var leads := LeadSet(doc, FindSchema(doc, x).value);
    if m == n {
      ReachesSelf(g, a, n);
    } else {
      var c :| c in leads && ReachesAvoiding(g, a + {n}, c, m);
      assert Edge(g, n, c);
      Unfold(g, a, n, m);
    }
  }

  lemma StepCompletes(doc: Document, a: set<string>, x: string, m: string)
    requires Settled(doc, x) && Enter(doc, x).Some? && Enter(doc, x).value !in a && m in VisitStep(doc, a, x) && m !in a
    ensures Complete(doc, VisitStep(doc, a, x), m)
  {
    var n, g := Enter(doc, x).value, ProjectionGraph(doc);
    var leads := LeadSet(doc, FindSchema(doc, x).value);
    forall y | y in Successors(doc, m) && y !in a + {n} ensures FromAny(doc, a + {n}, leads, y) {
      if m == n {
        ReachesSelf(g, a + {n}, y);
      } else {
        var c :| c in leads && ReachesAvoiding(g, a + {n}, c, m);
        assert Edge(g, m, y);
        ReachesThen(g, a + {n}, c, m, y);
      }
    }
  }

  /** The visit of `x` is recorded. */
  ghost predicate Recorded(doc: Document, seen: set<string>, x: string) {
    Enter(doc, x).Some? ==> Enter(doc, x).value in seen
  }

  /** The names of the first `n` members are recorded. */
  ghost predicate MembersRecorded(doc: Document, members: seq<string>, n: nat, seen: set<string>)
    requires n <= |members|
  {
    forall i :: 0 <= i < n ==> MemberRecorded(doc, members[i], seen)
  }

  ghost predicate MemberRecorded(doc: Document, member: string, seen: set<string>) {
    FindSchema(doc, member).Some? ==> Recorded(doc, seen, FindSchema(doc, member).value.name)
  }

  lemma MembersOneMore(doc: Document, members: seq<string>, i: nat, a: set<string>, b: set<string>)
    requires i < |members| && MembersRecorded(doc, members, i, a) && a <= b && MemberRecorded(doc, members[i], b)
    ensures MembersRecorded(doc, members, i + 1, b)
  {
    forall j | 0 <= j < i ensures MemberRecorded(doc, members[j], b) {
      assert MemberRecorded(doc, members[j], a);
    }
  }

  /** The chains of the given properties are recorded. */
  ghost predicate ChainsRecorded(doc: Document, properties: Properties, names: set<string>, seen: set<string>) {
    forall n :: n in names && n in properties ==> ChainRecorded(doc, properties[n].schema, seen)
  }

  ghost predicate ChainRecorded(doc: Document, ref: string, seen: set<string>) {
    forall t :: OnChain(doc, ref, t) ==> Recorded(doc, seen, t)
  }

  lemma ChainsStayRecorded(doc: Document, properties: Properties, names: set<string>, a: set<string>, b: set<string>)
    requires ChainsRecorded(doc, properties, names, a) && a <= b
    ensures ChainsRecorded(doc, properties, names, b)
  {
    forall n | n in names && n in properties ensures ChainRecorded(doc, properties[n].schema, b) {
      assert ChainRecorded(doc, properties[n].schema, a);
    }
  }

  lemma AllRecorded(doc: Document, s: Schema, a: set<string>, b: set<string>, c: set<string>)
    requires a <= b <= c && MembersRecorded(doc, s.links.allOf, |s.links.allOf|, a)
    requires ChainsRecorded(doc, EffectiveIn(doc, s.ref), EffectiveIn(doc, s.ref).Keys, b)
    requires s.links.items.Some? ==> ChainRecorded(doc, s.links.items.value, c)
    ensures forall t :: Targets(doc, s, t) ==> Recorded(doc, c, t)
  {
    forall t | Targets(doc, s, t) ensures Recorded(doc, c, t) {
      if m :| m in s.links.allOf && Named(doc, m, t) {
        var i :| 0 <= i < |s.links.allOf| && s.links.allOf[i] == m;
        assert Recorded(doc, a, t);
      } else if n :| n in EffectiveIn(doc, s.ref) && OnChain(doc, EffectiveIn(doc, s.ref)[n].schema, t) {
        assert ChainRecorded(doc, EffectiveIn(doc, s.ref)[n].schema, b);
        assert Recorded(doc, b, t);
      }
    }
  }

  lemma LeadsAreRecorded(doc: Document, s: Schema, seen: set<string>)
    requires forall t :: Targets(doc, s, t) ==> Recorded(doc, seen, t)
    ensures LeadSet(doc, s) <= seen
  {
    forall m | m in LeadSet(doc, s) ensures m in seen {
      var t :| Targets(doc, s, t) && Enter(doc, t) == Some(m);
      assert Recorded(doc, seen, t);
    }
  }

  class Closure {
    const doc: Document
    var seen: set<string>

    constructor (doc: Document)
      ensures this.doc == doc && seen == {}
    {
      this.doc, seen := doc, {};
    }

    ghost predicate Ready()
      reads this
    {
      RefsAreNotNames(doc) && Acyclic(ItemsGraph(doc)) && seen <= Names(doc)
    }

    /** For any `x`, also one that is not settled. */
    method Visit(x: string)
      requires Ready()
      modifies this
      ensures Ready() && Recorded(doc, seen, x)
      ensures seen == VisitStep(doc, old(seen), x)
      decreases Names(doc) - seen, 0
    {
      var found := FindSchema(doc, x);
      if found.None? || found.value.name == "" || found.value.name in seen || Excluded(found.value.name) {
        return;
      }
      var s := found.value;
      ghost var before := seen;
      seen := seen + {s.name};
      assert s.name in Names(doc) - before;
      Expand(s);
      LeadsAreRecorded(doc, s, seen);
      GrownIsExact(doc, before + {s.name}, seen, LeadSet(doc, s));
    }

    /** Everything a newly recorded schema leads to. */
    method Expand(s: Schema)
      requires Ready()
      modifies this
      ensures Ready() && Grown(doc, old(seen), seen, LeadSet(doc, s))
      ensures forall t :: Targets(doc, s, t) ==> Recorded(doc, seen, t)
      decreases Names(doc) - seen, 4
    {
      ghost var before := seen;
      VisitMembers(s);
      ghost var a := seen;
      assert Names(doc) - a <= Names(doc) - before;
      VisitProperties(s);
      ghost var b := seen;
      GrownBoth(doc, before, a, b, LeadSet(doc, s));
      assert Names(doc) - b <= Names(doc) - before;
      if s.links.items.Some? {
        VisitReference(s.links.items.value, s);
        GrownBoth(doc, before, b, seen, LeadSet(doc, s));
      }
      AllRecorded(doc, s, a, b, seen);
    }

    /** One target of `s`. */
    method VisitTarget(s: Schema, t: string)
      requires Ready() && Targets(doc, s, t)
      modifies this
      ensures Ready() && Recorded(doc, seen, t) && Grown(doc, old(seen), seen, LeadSet(doc, s))
      decreases Names(doc) - seen, 1
    {
      ghost var before := seen;
      TargetIsSettled(doc, s, t);
      Visit(t);
      if Enter(doc, t).Some? {
        StepGrows(doc, before, t);
        TargetIsLead(doc, s, t);
        GrownMore(doc, before, seen, Enter(doc, t).value, LeadSet(doc, s));
      }
    }

    method VisitMembers(s: Schema)
      requires Ready()
      modifies this
      ensures Ready() && Grown(doc, old(seen), seen, LeadSet(doc, s))
      ensures MembersRecorded(doc, s.links.allOf, |s.links.allOf|, seen)
      decreases Names(doc) - seen, 3
    {
      ghost var before := seen;
      var members := s.links.allOf;
      for i := 0 to |members|
        invariant Ready() && Grown(doc, before, seen, LeadSet(doc, s))
        invariant MembersRecorded(doc, members, i, seen)
      {
        ghost var a := seen;
        assert Names(doc) - seen <= Names(doc) - before;
        VisitMember(s, members[i]);
        MembersOneMore(doc, members, i, a, seen);
        GrownBoth(doc, before, a, seen, LeadSet(doc, s));
      }
    }

    method VisitMember(s: Schema, member: string)
      requires Ready() && member in s.links.allOf
      modifies this
      ensures Ready() && Grown(doc, old(seen), seen, LeadSet(doc, s)) && MemberRecorded(doc, member, seen)
      decreases Names(doc) - seen, 2
    {
      var child := FindSchema(doc, member);
      if child.Some? {
        assert Named(doc, member, child.value.name);
        VisitTarget(s, child.value.name);
      }
    }

    /** The effective properties, in any order. */
    method VisitProperties(s: Schema)
      requires Ready()
      modifies this
      ensures Ready() && Grown(doc, old(seen), seen, LeadSet(doc, s))
      ensures ChainsRecorded(doc, EffectiveIn(doc, s.ref), EffectiveIn(doc, s.ref).Keys, seen)
      decreases Names(doc) - seen, 3
    {
      ghost var before := seen;
      var properties := DocumentEffectiveOf(doc, s.ref);
      var remaining := properties.Keys;
      while remaining != {}
        invariant remaining <= properties.Keys
        invariant Ready() && Grown(doc, before, seen, LeadSet(doc, s))
        invariant ChainsRecorded(doc, properties, properties.Keys - remaining, seen)
      {
        var n :| n in remaining;
        ghost var a := seen;
        assert Names(doc) - seen <= Names(doc) - before;
        assert n in EffectiveIn(doc, s.ref);
        VisitReference(properties[n].schema, s);
        GrownBoth(doc, before, a, seen, LeadSet(doc, s));
        ChainsStayRecorded(doc, properties, properties.Keys - remaining, a, seen);
        remaining := remaining - {n};
      }
    }

    /** `visitSchemaReference`, on behalf of `s`. */
    method VisitReference(ref: string, s: Schema)
      requires Ready()
      requires forall t :: OnChain(doc, ref, t) ==> Targets(doc, s, t)
      modifies this
      ensures Ready() && Grown(doc, old(seen), seen, LeadSet(doc, s))
      ensures forall t :: OnChain(doc, ref, t) ==> Recorded(doc, seen, t)
      decreases Names(doc) - seen, 2, ReachSet(ItemsGraph(doc), ref)
    {
      ghost var before := seen;
      forall t { OnChainUnfold(doc, ref, t); }
      var found := FindSchema(doc, ref);
      if found.None? {
        return;
      }
      var name := found.value.name;
      if name != "" {
        VisitTarget(s, name);
      }
      ghost var a := seen;
      if found.value.links.items.Some? {
        var next := found.value.links.items.value;
        ItemsEdge(doc, ref, next);
        ReachSetShrinks(ItemsGraph(doc), ref, next);
        assert Names(doc) - seen <= Names(doc) - before;
        VisitReference(next, s);
        GrownBoth(doc, before, a, seen, LeadSet(doc, s));
      }
    }
  }

  /** `n` is reached from one of the roots on a path through recorded models only. */
  ghost predicate InClosure(doc: Document, roots: seq<string>, n: string) {
    exists r :: r in roots && Enter(doc, r).Some? && Reaches(ProjectionGraph(doc), Enter(doc, r).value, n)
  }

  /** What is recorded after the first `n` roots, in the order given. */
  ghost function RecordedAfter(doc: Document, roots: seq<string>, n: nat): set<string>
    requires n <= |roots|
  {
    if n == 0 then {} else VisitStep(doc, RecordedAfter(doc, roots, n - 1), roots[n - 1])
  }

  /**
   * The first half of `projectModels`. What is recorded is `RecordedAfter`; if every root is what its name finds,
   * that is the closure of the roots, whatever their order.
   */
  method ProjectedNames(doc: Document, roots: seq<string>) returns (names: set<string>)
    requires RefsAreNotNames(doc) && Acyclic(ItemsGraph(doc))
    ensures names == RecordedAfter(doc, roots, |roots|)
    ensures (forall r :: r in roots ==> Settled(doc, r)) ==> forall n :: n in names <==> InClosure(doc, roots, n)
    ensures forall n :: n in names ==> IsRecordable(doc, n)
  {
    var closure := new Closure(doc);
    for i := 0 to |roots|
      invariant closure.doc == doc && closure.Ready()
      invariant closure.seen == RecordedAfter(doc, roots, i)
    {
      closure.Visit(roots[i]);
    }
    names := closure.seen;
    AllRecordable(doc, roots, |roots|);
    if forall r :: r in roots ==> Settled(doc, r) {
      SettledRoots(doc, roots, |roots|, names);
      ClosureIsExact(doc, roots, names);
    }
  }

  ghost predicate IsRecordable(doc: Document, n: string) {
    n != "" && n != "ObjectReference" && n != "Error" && n in Names(doc)
  }

  lemma {:induction false} AllRecordable(doc: Document, roots: seq<string>, n: nat)
    requires n <= |roots|
    ensures forall m :: m in RecordedAfter(doc, roots, n) ==> IsRecordable(doc, m)
  {
    if n > 0 {
      AllRecordable(doc, roots, n - 1);
      StepIsRecordable(doc, RecordedAfter(doc, roots, n - 1), roots[n - 1]);
    }
  }

  lemma StepIsRecordable(doc: Document, a: set<string>, x: string)
    requires forall m :: m in a ==> IsRecordable(doc, m)
    ensures forall m :: m in VisitStep(doc, a, x) ==> IsRecordable(doc, m)
  {
    if Enter(doc, x).Some? && Enter(doc, x).value !in a {
      var n, leads := Enter(doc, x).value, LeadSet(doc, FindSchema(doc, x).value);
      forall m | FromAny(doc, a + {n}, leads, m) ensures IsRecordable(doc, m) {
        var c :| c in leads && ReachesAvoiding(ProjectionGraph(doc), a + {n}, c, m);
        var p :| Joins(ProjectionGraph(doc), a + {n}, c, m, p);
        EnteredAlong(doc, p);
      }
    }
  }

  /** Everything recorded is complete and in the closure, and the first `n` roots are recorded. */
  ghost predicate RootsDone(doc: Document, roots: seq<string>, n: nat, a: set<string>) {
    && n <= |roots| && a <= Names(doc)
    && (forall m :: m in a ==> Complete(doc, a, m) && InClosure(doc, roots, m))
    && (forall j :: 0 <= j < n ==> Recorded(doc, a, roots[j]))
  }

  lemma {:induction false} SettledRoots(doc: Document, roots: seq<string>, n: nat, a: set<string>)
    requires n <= |roots| && a == RecordedAfter(doc, roots, n) && forall r :: r in roots ==> Settled(doc, r)
    ensures RootsDone(doc, roots, n, a)
    decreases n
  {
    if n > 0 {
      var before := RecordedAfter(doc, roots, n - 1);
      SettledRoots(doc, roots, n - 1, before);
      OneRootMore(doc, roots, n - 1, before, a);
    }
  }

  lemma OneRootMore(doc: Document, roots: seq<string>, i: nat, a: set<string>, b: set<string>)
    requires i < |roots| && Settled(doc, roots[i]) && RootsDone(doc, roots, i, a) && b == VisitStep(doc, a, roots[i])
    ensures RootsDone(doc, roots, i + 1, b)
  {
    if Enter(doc, roots[i]).Some? {
      StepGrows(doc, a, roots[i]);
      RootDone(doc, roots, i, a, b);
      assert Recorded(doc, b, roots[i]);
      forall j | 0 <= j < i ensures Recorded(doc, b, roots[j]) {
        assert Recorded(doc, a, roots[j]);
      }
    }
  }

  lemma RootDone(doc: Document, roots: seq<string>, i: nat, a: set<string>, b: set<string>)
    requires i < |roots| && Enter(doc, roots[i]).Some? && Grown(doc, a, b, {Enter(doc, roots[i]).value})
    requires forall m :: m in a ==> Complete(doc, a, m) && InClosure(doc, roots, m)
    ensures forall m :: m in b ==> Complete(doc, b, m) && InClosure(doc, roots, m)
  {
    forall m | m in b ensures Complete(doc, b, m) && InClosure(doc, roots, m) {
      if m in a {
        assert Complete(doc, a, m);
      } else {
        assert Complete(doc, b, m) && FromAny(doc, a, {Enter(doc, roots[i]).value}, m);
        ReachesWeaken(ProjectionGraph(doc), a, {}, Enter(doc, roots[i]).value, m);
        assert roots[i] in roots;
      }
    }
  }

  lemma ClosureIsExact(doc: Document, roots: seq<string>, names: set<string>)
    requires forall m :: m in names ==> Complete(doc, names, m) && InClosure(doc, roots, m)
    requires forall j :: 0 <= j < |roots| ==> Recorded(doc, names, roots[j])
    ensures forall n :: n in names <==> InClosure(doc, roots, n)
  {
    forall n | InClosure(doc, roots, n) ensures n in names {
      ClosureIsCovered(doc, roots, names, n);
    }
  }

  lemma ClosureIsCovered(doc: Document, roots: seq<string>, names: set<string>, n: string)
    requires forall m :: m in names ==> Complete(doc, names, m)
    requires forall r :: r in roots ==> Recorded(doc, names, r)
    requires InClosure(doc, roots, n)
    ensures n in names
  {
    var g := ProjectionGraph(doc);
    var r :| r in roots && Enter(doc, r).Some? && Reaches(g, Enter(doc, r).value, n);
    assert Recorded(doc, names, r);
    assert forall x, y :: x in names && Edge(g, x, y) ==> y in names by {
      forall x, y | x in names && Edge(g, x, y) ensures y in names {
        assert Complete(doc, names, x) && y in Successors(doc, x);
      }
    }
    ClosedUnderReach(g, names, Enter(doc, r).value, n);
  }

  /** Every node of a path that starts at a recorded name is a recordable name. */
  lemma {:induction false} EnteredAlong(doc: Document, p: seq<string>)
    requires IsPath(ProjectionGraph(doc), p) && IsRecordable(doc, p[0])
    ensures IsRecordable(doc, p[|p| - 1])
  {
    if |p| > 1 {
      assert p[1] in Successors(doc, p[0]);
      EnteredAlong(doc, p[1..]);
    }
  }

  // ---- two schemas of one name ----

  const PLAIN: Info := Info("object", "", [], false, false)

  /** Two files declare `N`; only the second `N` is composed of `M`. */
  const SHARED_NAME: Document := [
    Schema("a#/N", "N", PLAIN, NO_LINKS),
    Schema("b#/N", "N", PLAIN, NO_LINKS.(allOf := ["b#/M"])),
    Schema("b#/M", "M", PLAIN, NO_LINKS)]

  lemma FindsInShared()
    ensures FindSchema(SHARED_NAME, "N") == Some(SHARED_NAME[0])
    ensures FindSchema(SHARED_NAME, "b#/N") == Some(SHARED_NAME[1])
    ensures FindSchema(SHARED_NAME, "b#/M") == FindSchema(SHARED_NAME, "M") == Some(SHARED_NAME[2])
    ensures !Settled(SHARED_NAME, "b#/N") && Settled(SHARED_NAME, "N")
  {
    assert SHARED_NAME[1..][0] == SHARED_NAME[1] && SHARED_NAME[1..][1..][0] == SHARED_NAME[2];
  }

  /**
   * A root that is the second schema of its name is recorded under that name with what it leads to itself,
   * unless the name is recorded already: so the order of the roots decides whether `M` becomes a model.
   */
  lemma OrderOfRootsDecides()
    ensures "M" in RecordedAfter(SHARED_NAME, ["b#/N", "N"], 2)
    ensures "M" !in RecordedAfter(SHARED_NAME, ["N", "b#/N"], 2)
  {
    FindsInShared();
    LeadsToM();
    NoLinksNoLeads(SHARED_NAME, 0);
    RootsOfOneName(SHARED_NAME, "b#/N", "N", "N", "M");
  }

  lemma LeadsToM()
    ensures "M" in LeadSet(SHARED_NAME, SHARED_NAME[1])
  {
    FindsInShared();
    assert Named(SHARED_NAME, "b#/M", "M") && "b#/M" in SHARED_NAME[1].links.allOf;
    TargetIsLead(SHARED_NAME, SHARED_NAME[1], "M");
  }

  lemma RootsOfOneName(doc: Document, x: string, y: string, n: string, m: string)
    requires Enter(doc, x) == Enter(doc, y) == Some(n) && m != n
    requires m in LeadSet(doc, FindSchema(doc, x).value) && LeadSet(doc, FindSchema(doc, y).value) == {}
    ensures m in RecordedAfter(doc, [x, y], 2) && m !in RecordedAfter(doc, [y, x], 2)
  {
    LeadIsRecorded(doc, x, n, m);
    NothingMore(doc, y, n);
    TwoRoots(doc, x, y);
    TwoRoots(doc, y, x);
  }

  lemma TwoRoots(doc: Document, x: string, y: string)
    ensures RecordedAfter(doc, [x, y], 2) == VisitStep(doc, VisitStep(doc, {}, x), y)
  {
    var roots := [x, y];
    assert RecordedAfter(doc, roots, 1) == VisitStep(doc, RecordedAfter(doc, roots, 0), roots[0]);
  }

  lemma LeadIsRecorded(doc: Document, x: string, n: string, m: string)
    requires Enter(doc, x) == Some(n) && m in LeadSet(doc, FindSchema(doc, x).value) && m != n
    ensures m in VisitStep(doc, {}, x) && forall y :: m in VisitStep(doc, VisitStep(doc, {}, x), y)
  {
    ReachesSelf(ProjectionGraph(doc), {} + {n}, m);
    assert FromAny(doc, {} + {n}, LeadSet(doc, FindSchema(doc, x).value), m);
  }

  lemma NothingMore(doc: Document, x: string, n: string)
    requires Enter(doc, x) == Some(n) && LeadSet(doc, FindSchema(doc, x).value) == {}
    ensures VisitStep(doc, {}, x) == {n} && forall y :: Enter(doc, y) == Some(n) ==> VisitStep(doc, {n}, y) == {n}
  {
  }

  lemma {:induction false} ByRefHas(doc: Document, i: nat)
    requires i < |doc| && forall j :: i < j < |doc| ==> doc[j].ref != doc[i].ref
    ensures doc[i].ref in ByRef(doc) && ByRef(doc)[doc[i].ref] == doc[i]
    decreases |doc|
  {
    if i < |doc| - 1 {
      ByRefHas(doc[..|doc| - 1], i);
    }
  }

  lemma NoLinksNoLeads(doc: Document, i: nat)
    requires i < |doc| && forall j :: i < j < |doc| ==> doc[j].ref != doc[i].ref
    requires doc[i].links == NO_LINKS
    ensures LeadSet(doc, doc[i]) == {}
  {
    ByRefHas(doc, i);
    NothingInherited(ByRef(doc), doc[i].ref);
  }

  lemma NothingInherited(schemas: map<string, Schema>, ref: string)
    requires ref in schemas && schemas[ref].links == NO_LINKS
    ensures Effective(schemas, ref, {}) == map[]
  {
    assert Composed(schemas, [], {} + {ref}) == map[];
  }

  // ---- the models ----

  const PLACEMENT_INTENT := "GatewayPlacementIntent"

  predicate HasSuffix(s: string, suffix: string): (b: bool)
    ensures b <==> exists head :: s == head + suffix
  {
    assert |suffix| <= |s| ==> s == s[..|s| - |suffix|] + s[|s| - |suffix|..];
    |suffix| <= |s| && s[|s| - |suffix|..] == suffix
  }

  /** The model reference of `projectedTypes`: a named object or enum, or that of the items of an array. */
  function ModelRef(doc: Document, ref: string): string
    requires Acyclic(ItemsGraph(doc))
    decreases ReachSet(ItemsGraph(doc), ref)
  {
    match FindSchema(doc, ref)
    case None => ""
    case Some(s) =>
      if HasSuffix(ref, PLACEMENT_INTENT) then PLACEMENT_INTENT
      else if s.name != "" && (s.info.values != [] || EffectiveIn(doc, ref) != map[] || s.links.allOf != []) then s.name
      else if s.info.kind == "array" && s.links.items.Some? then
        ItemsEdge(doc, ref, s.links.items.value);
        ReachSetShrinks(ItemsGraph(doc), ref, s.links.items.value);
        ModelRef(doc, s.links.items.value)
      else ""
  }

  /** `x` names a schema with a name that is an enumeration, has effective properties or is composed. */
  predicate IsNamedModel(doc: Document, x: string) {
    match FindSchema(doc, x)
    case None => false
    case Some(s) => s.name != "" && (s.info.values != [] || EffectiveIn(doc, x) != map[] || s.links.allOf != [])
  }

  /** `x` gives the model `m` by itself: by the spelling of the reference or as a named model. */
  predicate GivesModel(doc: Document, x: string, m: string) {
    FindSchema(doc, x).Some? &&
    if HasSuffix(x, "GatewayPlacementIntent") then m == "GatewayPlacementIntent"
    else IsNamedModel(doc, x) && FindSchema(doc, x).value.name == m
  }

  /** `x` is an array that gives no model by itself: its items decide. */
  predicate IsPlainArray(doc: Document, x: string) {
    FindSchema(doc, x).Some? && FindSchema(doc, x).value.info.kind == "array" &&
    !HasSuffix(x, "GatewayPlacementIntent") && !IsNamedModel(doc, x)
  }

  /** A chain of items through plain arrays only. */
  ghost predicate ThroughArrays(doc: Document, ref: string, x: string, p: seq<string>) {
    Joins(ItemsGraph(doc), {}, ref, x, p) && forall i :: 0 <= i < |p| - 1 ==> IsPlainArray(doc, p[i])
  }

  /** The first schema on the items chain of `ref` that is not a plain array gives the model `m`. */
  ghost predicate RefersToModel(doc: Document, ref: string, m: string) {
    exists x, p :: ThroughArrays(doc, ref, x, p) && GivesModel(doc, x, m)
  }

  /** `m` is the model that `ref` refers to, or empty if there is none. */
  ghost predicate IsModelRef(doc: Document, ref: string, m: string) {
    if m == "" then forall n :: !RefersToModel(doc, ref, n) else RefersToModel(doc, ref, m)
  }

  /** One step along the items, or none. */
  lemma RefersUnfold(doc: Document, ref: string, m: string)
    ensures RefersToModel(doc, ref, m) <==>
            || GivesModel(doc, ref, m)
            || (IsPlainArray(doc, ref) && ItemsOf(doc, ref).Some? && RefersToModel(doc, ItemsOf(doc, ref).value, m))
  {
    if GivesModel(doc, ref, m) {
      assert ThroughArrays(doc, ref, ref, [ref]);
    }
    if IsPlainArray(doc, ref) && ItemsOf(doc, ref).Some? && RefersToModel(doc, ItemsOf(doc, ref).value, m) {
      var x, p :| ThroughArrays(doc, ItemsOf(doc, ref).value, x, p) && GivesModel(doc, x, m);
      ArrayThen(doc, ref, ItemsOf(doc, ref).value, x, p);
    }
    if RefersToModel(doc, ref, m) {
      var x, p :| ThroughArrays(doc, ref, x, p) && GivesModel(doc, x, m);
      if |p| > 1 {
        BehindArray(doc, ref, x, p);
      }
    }
  }

  lemma ArrayThen(doc: Document, ref: string, next: string, x: string, p: seq<string>)
    requires IsPlainArray(doc, ref) && ItemsOf(doc, ref) == Some(next) && ThroughArrays(doc, next, x, p)
    ensures ThroughArrays(doc, ref, x, [ref] + p)
  {
    ItemsEdge(doc, ref, next);
    assert ([ref] + p)[1..] == p;
  }

  lemma BehindArray(doc: Document, ref: string, x: string, p: seq<string>)
    requires ThroughArrays(doc, ref, x, p) && |p| > 1
    ensures IsPlainArray(doc, ref) && ItemsOf(doc, ref) == Some(p[1]) && ThroughArrays(doc, p[1], x, p[1..])
  {
    ItemsEdge(doc, ref, p[1]);
    assert forall i :: 0 <= i < |p[1..]| ==> p[1..][i] == p[i + 1];
  }

  /** A chain leads to at most one model; the recursion finds it. */
  lemma {:induction false} ModelRefFinds(doc: Document, ref: string, m: string)
    requires Acyclic(ItemsGraph(doc))
    ensures RefersToModel(doc, ref, m) <==> m != "" && ModelRef(doc, ref) == m
    decreases ReachSet(ItemsGraph(doc), ref)
  {
    RefersUnfold(doc, ref, m);
    if IsPlainArray(doc, ref) && ItemsOf(doc, ref).Some? {
      var next := ItemsOf(doc, ref).value;
      ItemsEdge(doc, ref, next);
      ReachSetShrinks(ItemsGraph(doc), ref, next);
      ModelRefFinds(doc, next, m);
    }
  }

  lemma ModelRefIs(doc: Document, ref: string, m: string)
    requires Acyclic(ItemsGraph(doc))
    ensures IsModelRef(doc, ref, m) <==> ModelRef(doc, ref) == m
  {
    forall n { ModelRefFinds(doc, ref, n); }
    assert RefersToModel(doc, ref, ModelRef(doc, ref)) <==> ModelRef(doc, ref) != "";
  }

  function FieldOf(doc: Document, name: string, p: Property): SensitiveModels.Field
    requires Acyclic(ItemsGraph(doc))
  {
    SensitiveModels.Field(name, p.info.sensitive, ModelRef(doc, p.schema))
  }

  /** `f` is the field of an effective property: its own flag, and the model its schema refers to. */
  ghost predicate IsFieldOf(doc: Document, s: Schema, f: SensitiveModels.Field) {
    && f.name in EffectiveIn(doc, s.ref)
    && f.sensitive == EffectiveIn(doc, s.ref)[f.name].info.sensitive
    && IsModelRef(doc, EffectiveIn(doc, s.ref)[f.name].schema, f.modelRef)
  }

  ghost predicate DistinctNames(fields: seq<SensitiveModels.Field>) {
    forall i, j :: 0 <= i < j < |fields| ==> fields[i].name != fields[j].name
  }

  /** One field per effective property; an enumeration has none. */
  ghost predicate FieldsOf(doc: Document, s: Schema, fields: seq<SensitiveModels.Field>) {
    if s.info.values != [] then fields == []
    else DistinctNames(fields) && forall f :: f in fields <==> IsFieldOf(doc, s, f)
  }

  lemma FieldOfIs(doc: Document, s: Schema, f: SensitiveModels.Field)
    requires Acyclic(ItemsGraph(doc))
    ensures IsFieldOf(doc, s, f) <==>
              f.name in EffectiveIn(doc, s.ref) && f == FieldOf(doc, f.name, EffectiveIn(doc, s.ref)[f.name])
  {
    if f.name in EffectiveIn(doc, s.ref) {
      ModelRefIs(doc, EffectiveIn(doc, s.ref)[f.name].schema, f.modelRef);
    }
  }

  method ProjectFields(doc: Document, s: Schema) returns (fields: seq<SensitiveModels.Field>)
    requires Acyclic(ItemsGraph(doc))
    ensures FieldsOf(doc, s, fields)
  {
    fields := [];
    if s.info.values != [] {
      return;
    }
    var properties := DocumentEffectiveOf(doc, s.ref);
    var remaining := properties.Keys;
    while remaining != {}
      invariant remaining <= properties.Keys && DistinctNames(fields)
      invariant forall f :: f in fields <==>
        f.name in properties.Keys - remaining && f == FieldOf(doc, f.name, properties[f.name])
    {
      var n :| n in remaining;
      fields := fields + [FieldOf(doc, n, properties[n])];
      remaining := remaining - {n};
    }
    forall f { FieldOfIs(doc, s, f); }
  }

  ghost predicate IsModel(doc: Document, m: SensitiveModels.Model) {
    FindSchema(doc, m.name).Some? && FindSchema(doc, m.name).value.info.kind != "array" &&
    FieldsOf(doc, FindSchema(doc, m.name).value, m.fields)
  }

  ghost predicate HasModel(models: seq<SensitiveModels.Model>, n: string) {
    exists i :: 0 <= i < |models| && models[i].name == n
  }

  ghost predicate DistinctModels(models: seq<SensitiveModels.Model>) {
    forall i, j :: 0 <= i < j < |models| ==> models[i].name != models[j].name
  }

  predicate IsArray(doc: Document, n: string) {
    FindSchema(doc, n).Some? && FindSchema(doc, n).value.info.kind == "array"
  }

  /** One model for every recorded schema that is not an array. */
  method BuildModels(doc: Document, names: set<string>) returns (models: seq<SensitiveModels.Model>)
    requires Acyclic(ItemsGraph(doc)) && forall n :: n in names ==> FindSchema(doc, n).Some?
    ensures forall i :: 0 <= i < |models| ==> models[i].name in names && IsModel(doc, models[i])
    ensures forall n :: n in names && !IsArray(doc, n) ==> HasModel(models, n)
    ensures DistinctModels(models)
  {
    var remaining := names;
    models := [];
    while remaining != {}
      invariant remaining <= names
      invariant forall i :: 0 <= i < |models| ==> models[i].name in names - remaining && IsModel(doc, models[i])
      invariant DistinctModels(models)
      invariant forall n :: n in names && n !in remaining && !IsArray(doc, n) ==> HasModel(models, n)
    {
      var n :| n in remaining;
      remaining := remaining - {n};
      if !IsArray(doc, n) {
        var fields := ProjectFields(doc, FindSchema(doc, n).value);
        models := AddModel(models, SensitiveModels.Model(n, fields));
      }
    }
  }

  method AddModel(models: seq<SensitiveModels.Model>, model: SensitiveModels.Model)
    returns (more: seq<SensitiveModels.Model>)
    ensures more == models + [model]
    ensures forall n :: HasModel(more, n) <==> HasModel(models, n) || n == model.name
  {
    more := models + [model];
    forall n | HasModel(models, n) ensures HasModel(more, n) {
      var i :| 0 <= i < |models| && models[i].name == n;
      assert more[i].name == n;
    }
    assert more[|models|].name == model.name;
    forall n | HasModel(more, n) && n != model.name ensures HasModel(models, n) {
      var i :| 0 <= i < |more| && more[i].name == n;
      assert models[i].name == n;
    }
  }

  // ---- the flags, over the document ----

  ghost function ModelNames(models: seq<SensitiveModels.Model>): set<string> {
    set m | m in models :: m.name
  }

  /** A property of the schema named `n`, which is no enumeration, refers to the model `m`. */
  ghost predicate HasPropertyOf(doc: Document, n: string, m: string) {
    FindSchema(doc, n).Some? && FindSchema(doc, n).value.info.values == [] &&
    var properties := EffectiveIn(doc, FindSchema(doc, n).value.ref);
    exists q :: q in properties && RefersToModel(doc, properties[q].schema, m)
  }

  /** A property of the schema named `n`, which is no enumeration, is sensitive. */
  ghost predicate HasSensitiveProperty(doc: Document, n: string) {
    FindSchema(doc, n).Some? && FindSchema(doc, n).value.info.values == [] &&
    var properties := EffectiveIn(doc, FindSchema(doc, n).value.ref);
    exists q :: q in properties && properties[q].info.sensitive
  }

  /** The models among `names` that a model refers to. */
  ghost function TypeGraph(doc: Document, names: set<string>): Graph<string> {
    map n | n in names :: set m | m in names && HasPropertyOf(doc, n, m)
  }

  /** From `n` a model with a sensitive property is reached through models only. */
  ghost predicate LeadsToSensitive(doc: Document, names: set<string>, n: string) {
    exists m :: m in names && Reaches(TypeGraph(doc, names), n, m) && HasSensitiveProperty(doc, m)
  }

  lemma ModelNamesThen(models: seq<SensitiveModels.Model>, m: SensitiveModels.Model)
    ensures ModelNames(models + [m]) == ModelNames(models) + {m.name}
  {
  }

  lemma {:induction false} ByNameHolds(models: seq<SensitiveModels.Model>, n: string)
    ensures var byName := SensitiveModels.ByName(models);
            (n in byName <==> n in ModelNames(models)) &&
            (n in byName ==> byName[n] in models && byName[n].name == n)
  {
    if models != [] {
      var rest, last := models[..|models| - 1], models[|models| - 1];
      ByNameHolds(rest, n);
      assert models == rest + [last];
      ModelNamesThen(rest, last);
    }
  }

  lemma FieldRefersTo(doc: Document, s: Schema, fields: seq<SensitiveModels.Field>, m: string)
    requires Acyclic(ItemsGraph(doc)) && FieldsOf(doc, s, fields) && m != ""
    ensures (exists f :: f in fields && f.modelRef == m) <==>
              s.info.values == [] &&
              exists q :: q in EffectiveIn(doc, s.ref) && RefersToModel(doc, EffectiveIn(doc, s.ref)[q].schema, m)
  {
    var properties := EffectiveIn(doc, s.ref);
    if f :| f in fields && f.modelRef == m {
      assert IsFieldOf(doc, s, f);
    }
    if s.info.values == [] {
      if q :| q in properties && RefersToModel(doc, properties[q].schema, m) {
        var f := SensitiveModels.Field(q, properties[q].info.sensitive, m);
        assert IsFieldOf(doc, s, f) && f in fields;
      }
    }
  }

  lemma FieldIsSensitive(doc: Document, s: Schema, fields: seq<SensitiveModels.Field>)
    requires Acyclic(ItemsGraph(doc)) && FieldsOf(doc, s, fields)
    ensures (exists f :: f in fields && f.sensitive) <==>
              s.info.values == [] &&
              exists q :: q in EffectiveIn(doc, s.ref) && EffectiveIn(doc, s.ref)[q].info.sensitive
  {
    var properties := EffectiveIn(doc, s.ref);
    if f :| f in fields && f.sensitive {
      assert IsFieldOf(doc, s, f);
    }
    if s.info.values == [] {
      if q :| q in properties && properties[q].info.sensitive {
        var f := SensitiveModels.Field(q, true, ModelRef(doc, properties[q].schema));
        ModelRefIs(doc, properties[q].schema, f.modelRef);
        assert IsFieldOf(doc, s, f) && f in fields;
      }
    }
  }

  /** Both graphs have the same edges between models. */
  lemma SameEdges(doc: Document, models: seq<SensitiveModels.Model>, a: string, b: string)
    requires Acyclic(ItemsGraph(doc)) && forall i :: 0 <= i < |models| ==> IsModel(doc, models[i])
    requires b in ModelNames(models) && "" !in ModelNames(models)
    ensures Edge(SensitiveModels.ModelGraph(SensitiveModels.ByName(models)), a, b) <==>
            Edge(TypeGraph(doc, ModelNames(models)), a, b)
  {
    ByNameHolds(models, a);
    if a in ModelNames(models) {
      var model := SensitiveModels.ByName(models)[a];
      assert IsModel(doc, model);
      FieldRefersTo(doc, FindSchema(doc, a).value, model.fields, b);
    }
  }

  lemma SameSensitive(doc: Document, models: seq<SensitiveModels.Model>, n: string)
    requires Acyclic(ItemsGraph(doc)) && forall i :: 0 <= i < |models| ==> IsModel(doc, models[i])
    ensures SensitiveModels.HasSensitiveField(SensitiveModels.ByName(models), n) <==>
            n in ModelNames(models) && HasSensitiveProperty(doc, n)
  {
    ByNameHolds(models, n);
    if n in ModelNames(models) {
      var model := SensitiveModels.ByName(models)[n];
      assert IsModel(doc, model);
      FieldIsSensitive(doc, FindSchema(doc, n).value, model.fields);
    }
  }

  /** A path of one graph that ends at a node of `nodes` is a path of another with the same edges into `nodes`. */
  lemma {:induction false} SamePath(g: Graph<string>, h: Graph<string>, nodes: set<string>, p: seq<string>)
    requires IsPath(g, p) && p[|p| - 1] in nodes && g.Keys <= nodes
    requires forall a, b :: b in nodes ==> (Edge(g, a, b) <==> Edge(h, a, b))
    ensures IsPath(h, p)
  {
    if |p| > 1 {
      SamePath(g, h, nodes, p[1..]);
      assert p[1] in nodes by {
        if |p| > 2 {
          assert Edge(g, p[1..][0], p[1..][1]);
        }
      }
    }
  }

  lemma SameReach(g: Graph<string>, h: Graph<string>, nodes: set<string>, a: string, b: string)
    requires Reaches(g, a, b) && b in nodes && g.Keys <= nodes
    requires forall x, y :: y in nodes ==> (Edge(g, x, y) <==> Edge(h, x, y))
    ensures Reaches(h, a, b)
  {
    var p :| Joins(g, {}, a, b, p);
    SamePath(g, h, nodes, p);
    assert Joins(h, {}, a, b, p);
  }

  lemma FlagIs(doc: Document, models: seq<SensitiveModels.Model>, n: string)
    requires Acyclic(ItemsGraph(doc)) && forall i :: 0 <= i < |models| ==> IsModel(doc, models[i])
    requires "" !in ModelNames(models)
    ensures SensitiveModels.ReachesSensitive(SensitiveModels.ByName(models), n, {}) <==>
            LeadsToSensitive(doc, ModelNames(models), n)
  {
    var byName, names := SensitiveModels.ByName(models), ModelNames(models);
    var g, h := SensitiveModels.ModelGraph(byName), TypeGraph(doc, names);
    forall a, b | b in names ensures Edge(g, a, b) <==> Edge(h, a, b) {
      SameEdges(doc, models, a, b);
    }
    forall m ensures m in g ==> m in names {
      ByNameHolds(models, m);
    }
    if SensitiveModels.ReachesSensitive(byName, n, {}) {
      var m :| Reaches(g, n, m) && SensitiveModels.HasSensitiveField(byName, m);
      SameSensitive(doc, models, m);
      SameReach(g, h, names, n, m);
    }
    if m :| m in names && Reaches(h, n, m) && HasSensitiveProperty(doc, m) {
      SameSensitive(doc, models, m);
      SameReach(h, g, names, n, m);
    }
  }

  // ---- references between models ----

  /** What a chain of items gives is the placement intent or the name of a schema on the chain. */
  lemma RefersOnChain(doc: Document, ref: string, m: string)
    requires RefersToModel(doc, ref, m)
    ensures m == "GatewayPlacementIntent" || OnChain(doc, ref, m)
  {
    var x, p :| ThroughArrays(doc, ref, x, p) && GivesModel(doc, x, m);
    assert Reaches(ItemsGraph(doc), ref, x);
    assert m != "GatewayPlacementIntent" ==> Named(doc, x, m);
  }

  /** `m` is a model, an array of the closure, or one of the three types that are written by hand. */
  ghost predicate IsKnownType(doc: Document, names: set<string>, m: string) {
    m == "GatewayPlacementIntent" || m == "ObjectReference" || m == "Error" || m in names
  }

  lemma NameOnChainIsEntered(doc: Document, ref: string, m: string)
    requires RefsAreNotNames(doc) && OnChain(doc, ref, m) && m != "ObjectReference" && m != "Error"
    ensures Enter(doc, m) == Some(m)
  {
    var x :| Reaches(ItemsGraph(doc), ref, x) && Named(doc, x, m);
    NamesAreSettled(doc, FindSchema(doc, x).value);
  }

  /** A property of a recorded schema refers to a known type. */
  lemma ReferenceIsKnown(doc: Document, names: set<string>, n: string, m: string)
    requires RefsAreNotNames(doc) && n in names && Complete(doc, names, n) && HasPropertyOf(doc, n, m)
    ensures IsKnownType(doc, names, m)
  {
    var s := FindSchema(doc, n).value;
    var properties := EffectiveIn(doc, s.ref);
    var q :| q in properties && RefersToModel(doc, properties[q].schema, m);
    RefersOnChain(doc, properties[q].schema, m);
    if m != "GatewayPlacementIntent" && m != "ObjectReference" && m != "Error" {
      NameOnChainIsEntered(doc, properties[q].schema, m);
      assert Targets(doc, s, m);
      TargetIsLead(doc, s, m);
    }
  }

  /**
   * `projectModels`: one model for every schema of the closure that is not an array, flagged exactly when
   * a model it leads to has a sensitive property.
   */
  method ProjectModels(doc: Document, roots: seq<string>)
    returns (models: seq<SensitiveModels.Model>, containsSensitive: seq<bool>)
    requires RefsAreNotNames(doc) && Acyclic(ItemsGraph(doc))
    ensures forall i :: 0 <= i < |models| ==> IsModel(doc, models[i])
    ensures DistinctModels(models)
    ensures forall n :: HasModel(models, n) <==> n in RecordedAfter(doc, roots, |roots|) && !IsArray(doc, n)
    ensures (forall r :: r in roots ==> Settled(doc, r)) ==>
              forall n :: HasModel(models, n) <==> InClosure(doc, roots, n) && !IsArray(doc, n)
    ensures (forall r :: r in roots ==> Settled(doc, r)) ==>
              forall n, m :: HasModel(models, n) && HasPropertyOf(doc, n, m) ==>
                HasModel(models, m) || IsArray(doc, m) || IsKnownType(doc, {}, m)
    ensures |containsSensitive| == |models|
    ensures forall i :: 0 <= i < |models| ==>
              (containsSensitive[i] <==> LeadsToSensitive(doc, ModelNames(models), models[i].name))
  {
    var names := ProjectedNames(doc, roots);
    models := BuildModels(doc, names);
    containsSensitive := SensitiveModels.MarkSensitive(models);
    forall n ensures HasModel(models, n) <==> n in names && !IsArray(doc, n) {
      if HasModel(models, n) {
        var i :| 0 <= i < |models| && models[i].name == n;
        assert IsModel(doc, models[i]);
      }
    }
    assert "" !in names && ModelNames(models) <= names;
    forall i | 0 <= i < |models|
      ensures containsSensitive[i] <==> LeadsToSensitive(doc, ModelNames(models), models[i].name)
    {
      FlagIs(doc, models, models[i].name);
    }
    if forall r :: r in roots ==> Settled(doc, r) {
      forall n, m | HasModel(models, n) && HasPropertyOf(doc, n, m)
        ensures HasModel(models, m) || IsArray(doc, m) || IsKnownType(doc, {}, m)
      {
        RecordedIsComplete(doc, roots, n);
        ReferenceIsKnown(doc, names, n, m);
      }
    }
  }

  lemma RecordedIsComplete(doc: Document, roots: seq<string>, n: string)
    requires (forall r :: r in roots ==> Settled(doc, r)) && n in RecordedAfter(doc, roots, |roots|)
    ensures Complete(doc, RecordedAfter(doc, roots, |roots|), n)
  {
    SettledRoots(doc, roots, |roots|, RecordedAfter(doc, roots, |roots|));
  }
}
