/**
 * Property inheritance through `allOf`: a traversal that marks a schema on entry and unmarks it on exit,
 * and overwrites earlier declarations with later ones.
 */
module EffectiveProperties {
  import opened Pointers
  import opened Reachability
  import opened SchemaNormalizer

  type Properties = map<string, Property>

  function AllOfGraph(schemas: map<string, Schema>): Graph<string> {
    map ref | ref in schemas :: set c | c in schemas[ref].links.allOf
  }

  function Own(schemas: map<string, Schema>, ref: string): Properties
    requires ref in schemas
  {
    schemas[ref].links.properties
  }

  /** What the traversal adds to its result when it enters `ref` with `visiting` marked. */
  function Effective(schemas: map<string, Schema>, ref: string, visiting: set<string>): Properties
    decreases schemas.Keys - visiting, 0, 0
  {
    if ref in visiting || ref !in schemas then map[]
    else
      assert ref in schemas.Keys - visiting;
      Composed(schemas, schemas[ref].links.allOf, visiting + {ref}) + Own(schemas, ref)
  }

  /** The contributions of a list of members, later ones over earlier ones. */
  function Composed(schemas: map<string, Schema>, members: seq<string>, visiting: set<string>): Properties
    decreases schemas.Keys - visiting, 1, |members|
  {
    if members == [] then map[]
    else Composed(schemas, members[..|members| - 1], visiting) + Effective(schemas, members[|members| - 1], visiting)
  }

  lemma ComposedStep(schemas: map<string, Schema>, members: seq<string>, i: nat, visiting: set<string>)
    requires i < |members|
    ensures Composed(schemas, members[..i + 1], visiting) ==
            Composed(schemas, members[..i], visiting) + Effective(schemas, members[i], visiting)
  {
    assert members[..i + 1][..i] == members[..i];
  }

  lemma MergeIsAssociative(a: Properties, b: Properties, c: Properties)
    ensures (a + b) + c == a + (b + c)
  {
  }

  // ---- the code ----

  class Collector {
    const schemas: map<string, Schema>
    var result: Properties
    var visiting: set<string>

    constructor (schemas: map<string, Schema>)
      ensures this.schemas == schemas && result == map[] && visiting == {}
    {
      this.schemas, result, visiting := schemas, map[], {};
    }

    method Collect(ref: string)
      modifies this
      ensures result == old(result) + Effective(schemas, ref, old(visiting))
      ensures visiting == old(visiting)
      decreases schemas.Keys - visiting
    {
      if ref in visiting {
        return;
      }
      ghost var entered := visiting;
      visiting := visiting + {ref};
      if ref in schemas {
        assert ref in schemas.Keys - entered;
        var members := schemas[ref].links.allOf;
        for i := 0 to |members|
          invariant visiting == entered + {ref}
          invariant result == old(result) + Composed(schemas, members[..i], visiting)
        {
          ComposedStep(schemas, members, i, visiting);
          MergeIsAssociative(old(result), Composed(schemas, members[..i], visiting),
                             Effective(schemas, members[i], visiting));
          Collect(members[i]);
        }
        assert members[..|members|] == members;
        MergeIsAssociative(old(result), Composed(schemas, members, visiting), Own(schemas, ref));
        result := result + schemas[ref].links.properties;
      }
      visiting := visiting - {ref};
      assert visiting == entered;
    }
  }

  /** `normalizer.EffectiveProperties`. */
  method EffectiveOf(schemas: map<string, Schema>, ref: string) returns (result: Properties)
    ensures result == Effective(schemas, ref, {})
  {
    var collector := new Collector(schemas);
    collector.Collect(ref);
    result := collector.result;
    assert map[] + Effective(schemas, ref, {}) == Effective(schemas, ref, {});
  }

  /** The index a document builds from its list of schemas: a later entry replaces an earlier one. */
  function ByRef(list: seq<Schema>): map<string, Schema> {
    if list == [] then map[]
    else ByRef(list[..|list| - 1])[list[|list| - 1].ref := list[|list| - 1]]
  }

  /** `Document.EffectiveProperties`. */
  method DocumentEffectiveOf(list: seq<Schema>, ref: string) returns (result: Properties)
    ensures result == Effective(ByRef(list), ref, {})
  {
    var byRef: map<string, Schema> := map[];
    for i := 0 to |list|
      invariant byRef == ByRef(list[..i])
    {
      assert list[..i + 1][..i] == list[..i];
      byRef := byRef[list[i].ref := list[i]];
    }
    assert list[..|list|] == list;
    result := EffectiveOf(byRef, ref);
  }

  // ---- which names ----

  /** `d` declares the property `name`. */
  ghost predicate Declares(schemas: map<string, Schema>, d: string, name: string) {
    d in schemas && name in schemas[d].links.properties
  }

  /** Some schema reached from `ref` through `allOf`, outside `visiting`, declares `name`. */
  ghost predicate Inherits(schemas: map<string, Schema>, ref: string, visiting: set<string>, name: string) {
    exists d :: ReachesAvoiding(AllOfGraph(schemas), visiting, ref, d) && Declares(schemas, d, name)
  }

  lemma {:induction false} EffectiveNames(schemas: map<string, Schema>, ref: string, visiting: set<string>,
                                          name: string)
    ensures name in Effective(schemas, ref, visiting) <==> Inherits(schemas, ref, visiting, name)
    decreases schemas.Keys - visiting, 0, 0
  {
    var g := AllOfGraph(schemas);
    if ref in visiting {
      NothingFromVisited(schemas, ref, visiting, name);
    } else if ref !in schemas {
      forall d { Unfold(g, visiting, ref, d); }
    } else {
      assert ref in schemas.Keys - visiting;
      var members, inner := schemas[ref].links.allOf, visiting + {ref};
      ComposedNames(schemas, members, inner, name);
      if Inherits(schemas, ref, visiting, name) {
        var d :| ReachesAvoiding(g, visiting, ref, d) && Declares(schemas, d, name);
        Unfold(g, visiting, ref, d);
        if d != ref {
          var c :| Edge(g, ref, c) && ReachesAvoiding(g, inner, c, d);
          assert c in members && Inherits(schemas, c, inner, name);
        }
      }
      if name in Own(schemas, ref) {
        Unfold(g, visiting, ref, ref);
        assert Declares(schemas, ref, name);
      } else if name in Composed(schemas, members, inner) {
        var c :| c in members && Inherits(schemas, c, inner, name);
        var d :| ReachesAvoiding(g, inner, c, d) && Declares(schemas, d, name);
        assert Edge(g, ref, c);
        Unfold(g, visiting, ref, d);
      }
    }
  }

  lemma NothingFromVisited(schemas: map<string, Schema>, ref: string, visiting: set<string>, name: string)
    requires ref in visiting
    ensures !Inherits(schemas, ref, visiting, name)
  {
    if d :| ReachesAvoiding(AllOfGraph(schemas), visiting, ref, d) {
      StartIsOutside(AllOfGraph(schemas), visiting, ref, d);
    }
  }

  lemma {:induction false} ComposedNames(schemas: map<string, Schema>, members: seq<string>, visiting: set<string>,
                                         name: string)
    ensures name in Composed(schemas, members, visiting) <==>
            exists c :: c in members && Inherits(schemas, c, visiting, name)
    decreases schemas.Keys - visiting, 1, |members|
  {
    if members != [] {
      var rest, last := members[..|members| - 1], members[|members| - 1];
      assert members == rest + [last];
      ComposedNames(schemas, rest, visiting, name);
      EffectiveNames(schemas, last, visiting, name);
    }
  }

  /** The effective names are exactly those declared by schemas reachable through `allOf`, cycles included. */
  lemma NamesAreThoseReachable(schemas: map<string, Schema>, ref: string, name: string)
    ensures name in Effective(schemas, ref, {}) <==>
            exists d :: Reaches(AllOfGraph(schemas), ref, d) && Declares(schemas, d, name)
  {
    EffectiveNames(schemas, ref, {}, name);
  }

  // ---- which declaration ----

  /** An independent reading: the own declaration, or else the last member that has one, searched top down. */
  function Lookup(schemas: map<string, Schema>, ref: string, name: string, visiting: set<string>): Option<Property>
    decreases schemas.Keys - visiting, 0, 0
  {
    if ref in visiting || ref !in schemas then None
    else if name in schemas[ref].links.properties then Some(schemas[ref].links.properties[name])
    else
      assert ref in schemas.Keys - visiting;
      LookupLast(schemas, schemas[ref].links.allOf, name, visiting + {ref})
  }

  function LookupLast(schemas: map<string, Schema>, members: seq<string>, name: string,
                      visiting: set<string>): Option<Property>
    decreases schemas.Keys - visiting, 1, |members|
  {
    if members == [] then None
    else match Lookup(schemas, members[|members| - 1], name, visiting)
      case Some(p) => Some(p)
      case None => LookupLast(schemas, members[..|members| - 1], name, visiting)
  }

  function Find(properties: Properties, name: string): Option<Property> {
    if name in properties then Some(properties[name]) else None
  }

  lemma {:induction false} OverwritingIsLookup(schemas: map<string, Schema>, ref: string, name: string,
                                               visiting: set<string>)
    ensures Find(Effective(schemas, ref, visiting), name) == Lookup(schemas, ref, name, visiting)
    decreases schemas.Keys - visiting, 0, 0
  {
    if ref !in visiting && ref in schemas {
      assert ref in schemas.Keys - visiting;
      OverwritingIsLookupLast(schemas, schemas[ref].links.allOf, name, visiting + {ref});
    }
  }

  lemma {:induction false} OverwritingIsLookupLast(schemas: map<string, Schema>, members: seq<string>, name: string,
                                                   visiting: set<string>)
    ensures Find(Composed(schemas, members, visiting), name) == LookupLast(schemas, members, name, visiting)
    decreases schemas.Keys - visiting, 1, |members|
  {
    if members != [] {
      OverwritingIsLookupLast(schemas, members[..|members| - 1], name, visiting);
      OverwritingIsLookup(schemas, members[|members| - 1], name, visiting);
    }
  }

  /** Every effective property is the own declaration of a schema reachable through `allOf`. */
  lemma {:induction false} ValuesAreDeclared(schemas: map<string, Schema>, ref: string, name: string,
                                             visiting: set<string>) returns (d: string)
    requires name in Effective(schemas, ref, visiting)
    ensures ReachesAvoiding(AllOfGraph(schemas), visiting, ref, d) && Declares(schemas, d, name)
    ensures Effective(schemas, ref, visiting)[name] == Own(schemas, d)[name]
    decreases schemas.Keys - visiting, 0, 0
  {
    var g := AllOfGraph(schemas);
    if name in Own(schemas, ref) {
      d := ref;
      ReachesSelf(g, visiting, ref);
    } else {
      assert ref in schemas.Keys - visiting;
      var c;
      c, d := MemberValuesAreDeclared(schemas, schemas[ref].links.allOf, name, visiting + {ref});
      assert Edge(g, ref, c);
      Unfold(g, visiting, ref, d);
    }
  }

  lemma {:induction false} MemberValuesAreDeclared(schemas: map<string, Schema>, members: seq<string>, name: string,
                                                   visiting: set<string>)
    returns (c: string, d: string)
    requires name in Composed(schemas, members, visiting)
    ensures c in members && ReachesAvoiding(AllOfGraph(schemas), visiting, c, d) && Declares(schemas, d, name)
    ensures Composed(schemas, members, visiting)[name] == Own(schemas, d)[name]
    decreases schemas.Keys - visiting, 1, |members|
  {
    var last := members[|members| - 1];
    if name in Effective(schemas, last, visiting) {
      c := last;
      d := ValuesAreDeclared(schemas, last, name, visiting);
    } else {
      c, d := MemberValuesAreDeclared(schemas, members[..|members| - 1], name, visiting);
    }
  }

  lemma {:induction false} LastMemberWins(schemas: map<string, Schema>, members: seq<string>, name: string,
                                          visiting: set<string>, i: nat)
    requires i < |members| && name in Effective(schemas, members[i], visiting)
    requires forall j :: i < j < |members| ==> name !in Effective(schemas, members[j], visiting)
    ensures name in Composed(schemas, members, visiting)
    ensures Composed(schemas, members, visiting)[name] == Effective(schemas, members[i], visiting)[name]
    decreases |members|
  {
    if i < |members| - 1 {
      LastMemberWins(schemas, members[..|members| - 1], name, visiting, i);
    }
  }

  /** Own declarations win; then the last member of `allOf` that brings the name. */
  lemma OwnThenLaterMembers(schemas: map<string, Schema>, ref: string, name: string, i: nat)
    requires ref in schemas && name !in Own(schemas, ref)
    requires var members := schemas[ref].links.allOf;
             && i < |members| && name in Effective(schemas, members[i], {ref})
             && forall j :: i < j < |members| ==> name !in Effective(schemas, members[j], {ref})
    ensures name in Effective(schemas, ref, {})
    ensures Effective(schemas, ref, {})[name] == Effective(schemas, schemas[ref].links.allOf[i], {ref})[name]
    ensures forall n :: n in Own(schemas, ref) ==>
              n in Effective(schemas, ref, {}) && Effective(schemas, ref, {})[n] == Own(schemas, ref)[n]
  {
    LastMemberWins(schemas, schemas[ref].links.allOf, name, {ref}, i);
    assert {} + {ref} == {ref};
  }

  // ---- without cycles the marks do not matter ----

  ghost predicate Unreachable(g: Graph<string>, from: string, marks: set<string>) {
    forall v :: v in marks ==> !Reaches(g, from, v)
  }

  lemma {:induction false} MarksDoNotMatter(schemas: map<string, Schema>, ref: string, a: set<string>, b: set<string>)
    requires Acyclic(AllOfGraph(schemas))
    requires Unreachable(AllOfGraph(schemas), ref, a) && Unreachable(AllOfGraph(schemas), ref, b)
    ensures Effective(schemas, ref, a) == Effective(schemas, ref, b)
    decreases schemas.Keys - a, 0, 0
  {
    var g := AllOfGraph(schemas);
    ReachesSelf(g, {}, ref);
    if ref in schemas {
      assert ref in schemas.Keys - a;
      var members := schemas[ref].links.allOf;
      forall c | c in members ensures Unreachable(g, c, a + {ref}) && Unreachable(g, c, b + {ref}) {
        assert Edge(g, ref, c);
        forall v | Reaches(g, c, v) ensures Reaches(g, ref, v) {
          ReachesStep(g, {}, ref, c, v);
        }
      }
      MemberMarksDoNotMatter(schemas, members, a + {ref}, b + {ref});
    }
  }

  lemma {:induction false} MemberMarksDoNotMatter(schemas: map<string, Schema>, members: seq<string>, a: set<string>,
                                                  b: set<string>)
    requires Acyclic(AllOfGraph(schemas))
    requires forall c :: c in members ==>
      Unreachable(AllOfGraph(schemas), c, a) && Unreachable(AllOfGraph(schemas), c, b)
    ensures Composed(schemas, members, a) == Composed(schemas, members, b)
    decreases schemas.Keys - a, 1, |members|
  {
    if members != [] {
      MemberMarksDoNotMatter(schemas, members[..|members| - 1], a, b);
      MarksDoNotMatter(schemas, members[|members| - 1], a, b);
    }
  }

  /** Without `allOf` cycles, inheritance composes: members contribute their own effective properties. */
  lemma InheritanceComposes(schemas: map<string, Schema>, ref: string)
    requires Acyclic(AllOfGraph(schemas)) && ref in schemas
    ensures Effective(schemas, ref, {}) == Composed(schemas, schemas[ref].links.allOf, {}) + Own(schemas, ref)
  {
    var g, members := AllOfGraph(schemas), schemas[ref].links.allOf;
    forall c | c in members ensures Unreachable(g, c, {ref}) && Unreachable(g, c, {}) {
      assert Edge(g, ref, c);
    }
    MemberMarksDoNotMatter(schemas, members, {ref}, {});
    assert {} + {ref} == {ref};
  }

  // ---- the normalizer and the document agree ----

  function Listed(schemas: map<string, Schema>, order: seq<string>): (list: seq<Schema>)
    requires forall ref :: ref in order ==> ref in schemas
    ensures |list| == |order| && forall i :: 0 <= i < |list| ==> list[i] == schemas[order[i]]
  {
    seq(|order|, i requires 0 <= i < |order| => schemas[order[i]])
  }

  /** The index maps exactly the listed references, each to its schema. */
  ghost predicate IndexOf(index: map<string, Schema>, schemas: map<string, Schema>, order: seq<string>)
    requires forall ref :: ref in order ==> ref in schemas
  {
    && (forall ref :: ref in index <==> ref in order)
    && (forall ref :: ref in index ==> index[ref] == schemas[ref])
  }

  lemma {:induction false} ByRefOfListed(schemas: map<string, Schema>, order: seq<string>)
    requires forall ref :: ref in order ==> ref in schemas && schemas[ref].ref == ref
    ensures IndexOf(ByRef(Listed(schemas, order)), schemas, order)
  {
    if order != [] {
      var rest, last := order[..|order| - 1], order[|order| - 1];
      assert order == rest + [last];
      ByRefOfListed(schemas, rest);
      ListedOne(schemas, rest, last);
    }
  }

  lemma ListedOne(schemas: map<string, Schema>, rest: seq<string>, last: string)
    requires (forall ref :: ref in rest ==> ref in schemas) && last in schemas && schemas[last].ref == last
    ensures ByRef(Listed(schemas, rest + [last])) == ByRef(Listed(schemas, rest))[last := schemas[last]]
  {
    var list := Listed(schemas, rest + [last]);
    assert list[..|list| - 1] == Listed(schemas, rest);
  }

  /** Both versions compute the same map, also after the document's schemas have been sorted. */
  lemma NormalizerAndDocumentAgree(heap: Heap, s: State, roots: set<RawId>, order: seq<string>, ref: string)
    requires Normalized(heap, s, roots) && multiset(order) == multiset(s.refs)
    ensures forall x :: x in order ==> x in s.schemas
    ensures Effective(ByRef(Listed(s.schemas, order)), ref, {}) == Effective(s.schemas, ref, {})
  {
    assert forall x :: x in order <==> x in multiset(order);
    forall x | x in s.schemas ensures s.schemas[x].ref == x {
      assert OwnedWell(heap, s, x);
    }
    ByRefOfListed(s.schemas, order);
    assert ByRef(Listed(s.schemas, order)) == s.schemas;
  }
}
