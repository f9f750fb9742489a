/** Finding the item schema of a list response, through `allOf` cycles as well. */
module ListItems {
  import opened Pointers
  import opened Reachability
  import opened SchemaNormalizer
  import opened EffectiveProperties

  /** The properties that may hold a list, in the order they are tried. */
  const CANDIDATES: seq<string> := ["items", "data", "results"]

  function ItemsOf(schemas: map<string, Schema>, ref: string): string {
    if ref in schemas && schemas[ref].links.items.Some? then schemas[ref].links.items.value else ""
  }

  function FirstCandidate(schemas: map<string, Schema>, properties: Properties, i: nat): string
    requires i <= |CANDIDATES|
    decreases |CANDIDATES| - i
  {
    if i == |CANDIDATES| then ""
    else
      var name := CANDIDATES[i];
      if name in properties && ItemsOf(schemas, properties[name].schema) != "" then
        ItemsOf(schemas, properties[name].schema)
      else FirstCandidate(schemas, properties, i + 1)
  }

  /** What a schema says about list items before its members are asked: its own items, or a list property. */
  function LocalItem(schemas: map<string, Schema>, ref: string): string {
    if ref !in schemas then ""
    else if schemas[ref].links.items.Some? then schemas[ref].links.items.value
    else FirstCandidate(schemas, Effective(schemas, ref, {}), 0)
  }

  function ListItem(schemas: map<string, Schema>, ref: string, visiting: set<string>): string
    decreases schemas.Keys - visiting, 0, 0
  {
    if ref in visiting || ref !in schemas then ""
    else if LocalItem(schemas, ref) != "" then LocalItem(schemas, ref)
    else
      assert ref in schemas.Keys - visiting;
      FirstItem(schemas, schemas[ref].links.allOf, 0, visiting + {ref})
  }

  /** The first nonempty answer among the members from `i` on. */
  function FirstItem(schemas: map<string, Schema>, members: seq<string>, i: nat, visiting: set<string>): string
    requires i <= |members|
    decreases schemas.Keys - visiting, 1, |members| - i
  {
    if i == |members| then ""
    else if ListItem(schemas, members[i], visiting) != "" then ListItem(schemas, members[i], visiting)
    else FirstItem(schemas, members, i + 1, visiting)
  }

  /** Every reference is a nonempty text. */
  ghost predicate RefsNonempty(schemas: map<string, Schema>) {
    forall ref :: ref in schemas && schemas[ref].links.items.Some? ==> schemas[ref].links.items.value != ""
  }

  // ---- which schema is the item ----

  /** `x` is an array of `item`. */
  ghost predicate HoldsItem(schemas: map<string, Schema>, x: string, item: string) {
    x in schemas && schemas[x].links.items == Some(item)
  }

  /** The effective property `name` of `d` is an array of `item`. */
  ghost predicate ListProperty(schemas: map<string, Schema>, d: string, name: string, item: string) {
    var properties := Effective(schemas, d, {});
    name in properties && HoldsItem(schemas, properties[name].schema, item)
  }

  ghost predicate IsListProperty(schemas: map<string, Schema>, d: string, name: string) {
    exists item :: ListProperty(schemas, d, name, item)
  }

  /** What `d` says by itself: its own items, else those of `items`, else of `data`, else of `results`. */
  ghost predicate LocalAnswer(schemas: map<string, Schema>, d: string, item: string) {
    d in schemas &&
    if schemas[d].links.items.Some? then HoldsItem(schemas, d, item)
    else if IsListProperty(schemas, d, "items") then ListProperty(schemas, d, "items", item)
    else if IsListProperty(schemas, d, "data") then ListProperty(schemas, d, "data", item)
    else ListProperty(schemas, d, "results", item)
  }

  /** Some schema that `ref` reaches through `allOf`, outside `visiting`, has an answer. */
  ghost predicate HasAnswer(schemas: map<string, Schema>, ref: string, visiting: set<string>) {
    exists d, item :: ReachesAvoiding(AllOfGraph(schemas), visiting, ref, d) && LocalAnswer(schemas, d, item)
  }

  /**
   * The way `p` leads to the first answer: no schema on it but the last has one by itself, and no member listed
   * before the next one reaches an answer.
   */
  ghost predicate FirstAnswer(schemas: map<string, Schema>, p: seq<string>, visiting: set<string>, item: string)
    decreases |p|
  {
    p != [] && p[0] in schemas && p[0] !in visiting &&
    if |p| == 1 then LocalAnswer(schemas, p[0], item)
    else !Answers(schemas, p[0]) && exists k :: IsTurn(schemas, p[0], k, p[1], visiting) &&
                                                FirstAnswer(schemas, p[1..], visiting + {p[0]}, item)
  }

  ghost predicate Answers(schemas: map<string, Schema>, d: string) {
    exists item :: LocalAnswer(schemas, d, item)
  }

  /** Member `k` of `d` is `next`, and the members before it reach no answer. */
  ghost predicate IsTurn(schemas: map<string, Schema>, d: string, k: int, next: string, visiting: set<string>) {
    d in schemas && 0 <= k < |schemas[d].links.allOf| && schemas[d].links.allOf[k] == next &&
    NoneBefore(schemas, schemas[d].links.allOf, 0, k, visiting + {d})
  }

  ghost predicate NoneBefore(schemas: map<string, Schema>, members: seq<string>, i: int, k: int,
                             visiting: set<string>) {
    forall j :: 0 <= i <= j < k <= |members| ==> !HasAnswer(schemas, members[j], visiting)
  }

  /** `item` is the first answer in the order of the search from `ref`. */
  ghost predicate IsListItem(schemas: map<string, Schema>, ref: string, visiting: set<string>, item: string) {
    exists p :: p != [] && p[0] == ref && FirstAnswer(schemas, p, visiting, item)
  }

  /** The answer of a schema that has none by itself is that of its first member with an answer. */
  lemma ItemUnfold(schemas: map<string, Schema>, ref: string, visiting: set<string>, item: string)
    ensures IsListItem(schemas, ref, visiting, item) <==>
              ref in schemas && ref !in visiting &&
              if Answers(schemas, ref) then LocalAnswer(schemas, ref, item)
              else SomeMemberAnswers(schemas, schemas[ref].links.allOf, 0, visiting + {ref}, item)
  {
    if IsListItem(schemas, ref, visiting, item) {
      var p :| p != [] && p[0] == ref && FirstAnswer(schemas, p, visiting, item);
      if |p| > 1 {
        var k :| IsTurn(schemas, ref, k, p[1], visiting) && FirstAnswer(schemas, p[1..], visiting + {ref}, item);
        assert MemberAnswers(schemas, schemas[ref].links.allOf, 0, k, visiting + {ref}, item);
      }
    }
    if ref in schemas && ref !in visiting {
      if LocalAnswer(schemas, ref, item) {
        assert FirstAnswer(schemas, [ref], visiting, item);
      } else if !Answers(schemas, ref) {
        if k :| MemberAnswers(schemas, schemas[ref].links.allOf, 0, k, visiting + {ref}, item) {
          ItemThrough(schemas, ref, k, visiting, item);
        }
      }
    }
  }

  lemma ItemThrough(schemas: map<string, Schema>, ref: string, k: int, visiting: set<string>, item: string)
    requires ref in schemas && ref !in visiting && !Answers(schemas, ref)
    requires MemberAnswers(schemas, schemas[ref].links.allOf, 0, k, visiting + {ref}, item)
    ensures IsListItem(schemas, ref, visiting, item)
  {
    var next := schemas[ref].links.allOf[k];
    var q :| q != [] && q[0] == next && FirstAnswer(schemas, q, visiting + {ref}, item);
    var p := [ref] + q;
    assert p[1..] == q && p[1] == next;
    assert IsTurn(schemas, ref, k, next, visiting);
    assert FirstAnswer(schemas, p, visiting, item);
  }

  /** Member `k` is the first from `i` on that reaches an answer, and its answer is `item`. */
  ghost predicate MemberAnswers(schemas: map<string, Schema>, members: seq<string>, i: int, k: int,
                                visiting: set<string>, item: string) {
    0 <= i <= k < |members| && NoneBefore(schemas, members, i, k, visiting) &&
    IsListItem(schemas, members[k], visiting, item)
  }

  ghost predicate SomeMemberAnswers(schemas: map<string, Schema>, members: seq<string>, i: int, visiting: set<string>,
                                    item: string) {
    exists k :: MemberAnswers(schemas, members, i, k, visiting, item)
  }

  lemma CandidatesInOrder(schemas: map<string, Schema>, properties: Properties)
    ensures var item := (name: string) requires name in properties => ItemsOf(schemas, properties[name].schema);
            FirstCandidate(schemas, properties, 0) ==
              if "items" in properties && item("items") != "" then item("items")
              else if "data" in properties && item("data") != "" then item("data")
              else if "results" in properties then item("results")
              else ""
  {
    assert FirstCandidate(schemas, properties, 3) == "";
    assert CANDIDATES[2] == "results" && CANDIDATES[1] == "data" && CANDIDATES[0] == "items";
    assert FirstCandidate(schemas, properties, 1) ==
             if "data" in properties && ItemsOf(schemas, properties["data"].schema) != "" then
               ItemsOf(schemas, properties["data"].schema)
             else FirstCandidate(schemas, properties, 2);
  }

  lemma ListPropertyIs(schemas: map<string, Schema>, d: string, name: string, item: string)
    requires RefsNonempty(schemas)
    ensures var properties := Effective(schemas, d, {});
            ListProperty(schemas, d, name, item) <==>
              name in properties && item != "" && ItemsOf(schemas, properties[name].schema) == item
  {
  }

  lemma LocalAnswerIs(schemas: map<string, Schema>, d: string, item: string)
    requires RefsNonempty(schemas)
    ensures LocalAnswer(schemas, d, item) <==> item != "" && LocalItem(schemas, d) == item
  {
    if d in schemas && schemas[d].links.items.None? {
      var properties := Effective(schemas, d, {});
      CandidatesInOrder(schemas, properties);
      IsListPropertyIs(schemas, d, "items");
      IsListPropertyIs(schemas, d, "data");
      ListPropertyIs(schemas, d, "items", item);
      ListPropertyIs(schemas, d, "data", item);
      ListPropertyIs(schemas, d, "results", item);
    }
  }

  lemma IsListPropertyIs(schemas: map<string, Schema>, d: string, name: string)
    requires RefsNonempty(schemas)
    ensures var properties := Effective(schemas, d, {});
            IsListProperty(schemas, d, name) <==>
              name in properties && ItemsOf(schemas, properties[name].schema) != ""
  {
    var properties := Effective(schemas, d, {});
    if name in properties {
      ListPropertyIs(schemas, d, name, ItemsOf(schemas, properties[name].schema));
    }
  }

  lemma AnswersIs(schemas: map<string, Schema>, d: string)
    requires RefsNonempty(schemas)
    ensures Answers(schemas, d) <==> LocalItem(schemas, d) != ""
  {
    LocalAnswerIs(schemas, d, LocalItem(schemas, d));
    forall item | LocalAnswer(schemas, d, item) ensures LocalItem(schemas, d) != "" {
      LocalAnswerIs(schemas, d, item);
    }
  }

  lemma HasAnswerIs(schemas: map<string, Schema>, ref: string, visiting: set<string>)
    requires RefsNonempty(schemas)
    ensures HasAnswer(schemas, ref, visiting) <==> ListItem(schemas, ref, visiting) != ""
  {
    ItemExists(schemas, ref, visiting);
    if HasAnswer(schemas, ref, visiting) {
      var d, item :| ReachesAvoiding(AllOfGraph(schemas), visiting, ref, d) && LocalAnswer(schemas, d, item);
      LocalAnswerIs(schemas, d, item);
    }
    if HasItem(schemas, ref, visiting) {
      var d :| ReachesAvoiding(AllOfGraph(schemas), visiting, ref, d) && LocalItem(schemas, d) != "";
      LocalAnswerIs(schemas, d, LocalItem(schemas, d));
    }
  }

  /** The recursion finds the first answer. */
  lemma {:induction false} ListItemFinds(schemas: map<string, Schema>, ref: string, visiting: set<string>, item: string)
    requires RefsNonempty(schemas)
    ensures IsListItem(schemas, ref, visiting, item) <==> item != "" && ListItem(schemas, ref, visiting) == item
    decreases schemas.Keys - visiting, 0, 0
  {
    ItemUnfold(schemas, ref, visiting, item);
    if ref in schemas && ref !in visiting {
      assert ref in schemas.Keys - visiting;
      AnswersIs(schemas, ref);
      LocalAnswerIs(schemas, ref, item);
      MembersFind(schemas, schemas[ref].links.allOf, 0, visiting + {ref}, item);
    }
  }

  lemma {:induction false} MembersFind(schemas: map<string, Schema>, members: seq<string>, i: nat,
                                       visiting: set<string>, item: string)
    requires RefsNonempty(schemas) && i <= |members|
    ensures SomeMemberAnswers(schemas, members, i, visiting, item) <==>
              item != "" && FirstItem(schemas, members, i, visiting) == item
    decreases schemas.Keys - visiting, 1, |members| - i
  {
    if i < |members| {
      HasAnswerIs(schemas, members[i], visiting);
      ListItemFinds(schemas, members[i], visiting, item);
      MembersFind(schemas, members, i + 1, visiting, item);
      MembersUnfold(schemas, members, i, visiting, item);
    }
  }

  lemma MembersUnfold(schemas: map<string, Schema>, members: seq<string>, i: nat, visiting: set<string>, item: string)
    requires i < |members|
    requires IsListItem(schemas, members[i], visiting, item) ==> HasAnswer(schemas, members[i], visiting)
    ensures SomeMemberAnswers(schemas, members, i, visiting, item) <==>
              if HasAnswer(schemas, members[i], visiting) then IsListItem(schemas, members[i], visiting, item)
              else SomeMemberAnswers(schemas, members, i + 1, visiting, item)
  {
    if k :| MemberAnswers(schemas, members, i, k, visiting, item) {
      if k > i {
        assert !HasAnswer(schemas, members[i], visiting);
        assert MemberAnswers(schemas, members, i + 1, k, visiting, item);
      }
    }
    if IsListItem(schemas, members[i], visiting, item) {
      assert MemberAnswers(schemas, members, i, i, visiting, item);
    }
    var next := i + 1;
    if !HasAnswer(schemas, members[i], visiting) && SomeMemberAnswers(schemas, members, next, visiting, item) {
      var k :| MemberAnswers(schemas, members, next, k, visiting, item);
      assert MemberAnswers(schemas, members, i, k, visiting, item);
    }
  }

  // ---- the code ----

  class Finder {
    const schemas: map<string, Schema>
    var visiting: set<string>

    constructor (schemas: map<string, Schema>)
      ensures this.schemas == schemas && visiting == {}
    {
      this.schemas, visiting := schemas, {};
    }

    method ListItemReference(ref: string) returns (item: string)
      requires RefsNonempty(schemas)
      modifies this
      ensures item == ListItem(schemas, ref, old(visiting)) && visiting == old(visiting)
      ensures forall x :: IsListItem(schemas, ref, visiting, x) <==> x != "" && item == x
      decreases schemas.Keys - visiting, 0
    {
      if ref in visiting {
        return "";
      }
      ghost var entered := visiting;
      visiting := visiting + {ref};
      item := "";
      if ref in schemas {
        assert ref in schemas.Keys - entered;
        if schemas[ref].links.items.Some? {
          item := schemas[ref].links.items.value;
        } else {
          item := SearchCandidates(ref);
        }
        if item == "" {
          item := SearchMembers(schemas[ref].links.allOf);
        }
      }
      visiting := visiting - {ref};
      assert visiting == entered;
      forall x { ListItemFinds(schemas, ref, visiting, x); }
    }

    method SearchCandidates(ref: string) returns (item: string)
      ensures item == FirstCandidate(schemas, Effective(schemas, ref, {}), 0)
    {
      var properties := EffectiveOf(schemas, ref);
      for i := 0 to |CANDIDATES|
        invariant FirstCandidate(schemas, properties, 0) == FirstCandidate(schemas, properties, i)
      {
        var name := CANDIDATES[i];
        if name in properties {
          item := ItemsOf(schemas, properties[name].schema);
          if item != "" {
            return;
          }
        }
      }
      item := "";
    }

    method SearchMembers(members: seq<string>) returns (item: string)
      requires RefsNonempty(schemas)
      modifies this
      ensures item == FirstItem(schemas, members, 0, old(visiting)) && visiting == old(visiting)
      decreases schemas.Keys - visiting, 1
    {
      for i := 0 to |members|
        invariant visiting == old(visiting)
        invariant FirstItem(schemas, members, 0, visiting) == FirstItem(schemas, members, i, visiting)
      {
        item := ListItemReference(members[i]);
        if item != "" {
          return;
        }
      }
      item := "";
    }
  }

  // ---- when there is an item schema ----

  ghost predicate HasItem(schemas: map<string, Schema>, ref: string, visiting: set<string>) {
    exists d :: ReachesAvoiding(AllOfGraph(schemas), visiting, ref, d) && LocalItem(schemas, d) != ""
  }

  lemma {:induction false} ItemExists(schemas: map<string, Schema>, ref: string, visiting: set<string>)
    ensures ListItem(schemas, ref, visiting) != "" <==> HasItem(schemas, ref, visiting)
    decreases schemas.Keys - visiting, 0, 0
  {
    var g := AllOfGraph(schemas);
    if ref in visiting {
      if d :| ReachesAvoiding(g, visiting, ref, d) {
        StartIsOutside(g, visiting, ref, d);
      }
    } else if ref !in schemas {
      forall d { Unfold(g, visiting, ref, d); }
    } else {
      assert ref in schemas.Keys - visiting;
      var members, inner := schemas[ref].links.allOf, visiting + {ref};
      MemberHasItem(schemas, members, 0, inner);
      if HasItem(schemas, ref, visiting) {
        var d :| ReachesAvoiding(g, visiting, ref, d) && LocalItem(schemas, d) != "";
        Unfold(g, visiting, ref, d);
        if d != ref {
          var c :| Edge(g, ref, c) && ReachesAvoiding(g, inner, c, d);
          assert c in members && HasItem(schemas, c, inner);
          var j :| 0 <= j < |members| && members[j] == c;
        }
      }
      if LocalItem(schemas, ref) != "" {
        ReachesSelf(g, visiting, ref);
      } else if j :| 0 <= j < |members| && HasItem(schemas, members[j], inner) {
        var d :| ReachesAvoiding(g, inner, members[j], d) && LocalItem(schemas, d) != "";
        assert Edge(g, ref, members[j]);
        Unfold(g, visiting, ref, d);
      }
    }
  }

  lemma {:induction false} MemberHasItem(schemas: map<string, Schema>, members: seq<string>, i: nat,
                                         visiting: set<string>)
    requires i <= |members|
    ensures FirstItem(schemas, members, i, visiting) != "" <==>
              exists j :: i <= j < |members| && HasItem(schemas, members[j], visiting)
    decreases schemas.Keys - visiting, 1, |members| - i
  {
    if i < |members| {
      ItemExists(schemas, members[i], visiting);
      MemberHasItem(schemas, members, i + 1, visiting);
    }
  }

  /** There is an item schema exactly when some schema reachable through `allOf` has an answer, cycles included. */
  lemma ListItemIff(schemas: map<string, Schema>, ref: string)
    requires RefsNonempty(schemas)
    ensures (exists item :: IsListItem(schemas, ref, {}, item)) <==>
            exists d, item :: Reaches(AllOfGraph(schemas), ref, d) && LocalAnswer(schemas, d, item)
  {
    HasAnswerIs(schemas, ref, {});
    ListItemFinds(schemas, ref, {}, ListItem(schemas, ref, {}));
    forall item { ListItemFinds(schemas, ref, {}, item); }
  }
}
