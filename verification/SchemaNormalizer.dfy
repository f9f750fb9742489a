/**
 * The memoised copy of the raw schema graph, which may be cyclic, into the schemas of the document.
 * Raw schemas live in a heap; two references to the same raw schema have the same target.
 */
module SchemaNormalizer {
  import opened Text
  import opened Pointers
  import opened Reachability

  type RawId = nat

  /** A schema reference of the raw document: unresolved, or a target with the text it was written with. */
  datatype RawRef = Unresolved | RawRef(target: RawId, text: string)

  /** Where a raw schema was declared: canonical file and key. */
  datatype Origin = Origin(file: string, key: string)

  /** The part of a schema that is copied as it is. */
  datatype Info = Info(kind: string, format: string, values: seq<string>, nullable: bool, sensitive: bool)

  datatype RawSchema = RawSchema(
    info: Info,
    origin: Option<Origin>,
    items: Option<RawRef>,
    additional: Option<RawRef>,
    allOf: seq<RawRef>,
    oneOf: seq<RawRef>,
    anyOf: seq<RawRef>,
    negated: Option<RawRef>,
    properties: map<string, RawRef>,
    required: set<string>)

  type Heap = map<RawId, RawSchema>

  datatype Property = Property(name: string, schema: string, required: bool, info: Info)

  /** The references of a document schema; every one is the identity of another document schema. */
  datatype Links = Links(
    items: Option<string>,
    additional: Option<string>,
    allOf: seq<string>,
    oneOf: seq<string>,
    anyOf: seq<string>,
    negated: Option<string>,
    properties: map<string, Property>)

  const NO_LINKS: Links := Links(None, None, [], [], [], None, map[])

  datatype Schema = Schema(ref: string, name: string, info: Info, links: Links)

  // ---- identities ----

  /** `schemaIdentity`: the identity, the name and the next inline number. */
  function SchemaIdentity(raw: RawSchema, text: string, fallback: string, nameHint: string, rootPath: string,
                          sequence: nat)
    : (r: (string, string, nat))
    ensures '#' in r.0
  {
    if text != "" && raw.origin.Some? && raw.origin.value.key != "" then
      var o := raw.origin.value;
      (o.file + "#/components/schemas/" + Escape(o.key), o.key, sequence)
    else if nameHint != "" && raw.origin.Some? then
      (raw.origin.value.file + "#/components/schemas/" + Escape(nameHint), nameHint, sequence)
    else
      var identity := if '#' in fallback then fallback else rootPath + "#" + fallback;
      if identity == "" || identity[|identity| - 1] == '#' then
        (rootPath + "#/inline/" + Decimal(sequence + 1), nameHint, sequence + 1)
      else (identity, nameHint, sequence)
  }

  /** References to declared components have one identity each: different files or keys, different identities. */
  lemma ComponentIdentities(raw: RawSchema, other: RawSchema, text: string, more: string, fallback: string,
                            elsewhere: string, nameHint: string, rootPath: string, sequence: nat, later: nat)
    requires text != "" && raw.origin.Some? && raw.origin.value.key != "" && '#' !in raw.origin.value.file
    requires more != "" && other.origin.Some? && other.origin.value.key != "" && '#' !in other.origin.value.file
    ensures var x := SchemaIdentity(raw, text, fallback, nameHint, rootPath, sequence).0;
            var y := SchemaIdentity(other, more, elsewhere, nameHint, rootPath, later).0;
            x == y <==> raw.origin == other.origin
  {
    var o, p := raw.origin.value, other.origin.value;
    var x, y := o.file + "#/components/schemas/" + Escape(o.key), p.file + "#/components/schemas/" + Escape(p.key);
    if x == y {
      SameParts(o.file, Escape(o.key), p.file, Escape(p.key));
      UnescapeEscape(o.key);
      UnescapeEscape(p.key);
    }
  }

  lemma SameParts(a: string, x: string, b: string, y: string)
    requires '#' !in a && '#' !in b && a + "#/components/schemas/" + x == b + "#/components/schemas/" + y
    ensures a == b && x == y
  {
    var s, t := a + "#/components/schemas/" + x, b + "#/components/schemas/" + y;
    assert s[|a|] == '#' && t[|b|] == '#';
    assert forall i :: 0 <= i < |a| ==> s[i] == a[i];
    assert forall i :: 0 <= i < |b| ==> t[i] == b[i];
    assert |a| == |b|;
    assert s[..|a|] == a && t[..|b|] == b;
    assert s[|a| + |"#/components/schemas/"|..] == x && t[|b| + |"#/components/schemas/"|..] == y;
  }

  // ---- the reference slots of a schema ----

  datatype Slot = Items | Additional | AllOf | OneOf | AnyOf | Negated

  /** The order in which the slots are filled; the properties come last. */
  const SLOTS: seq<Slot> := [Items, Additional, AllOf, OneOf, AnyOf, Negated]

  function Singleton<T>(o: Option<T>): seq<T> {
    if o.None? then [] else [o.value]
  }

  function RefsAt(raw: RawSchema, slot: Slot): seq<RawRef> {
    match slot
    case Items => Singleton(raw.items)
    case Additional => Singleton(raw.additional)
    case AllOf => raw.allOf
    case OneOf => raw.oneOf
    case AnyOf => raw.anyOf
    case Negated => Singleton(raw.negated)
  }

  function LinksAt(links: Links, slot: Slot): seq<string> {
    match slot
    case Items => Singleton(links.items)
    case Additional => Singleton(links.additional)
    case AllOf => links.allOf
    case OneOf => links.oneOf
    case AnyOf => links.anyOf
    case Negated => Singleton(links.negated)
  }

  predicate IsList(slot: Slot) {
    slot.AllOf? || slot.OneOf? || slot.AnyOf?
  }

  function First(out: seq<string>): Option<string> {
    if out == [] then None else Some(out[0])
  }

  function Put(links: Links, slot: Slot, out: seq<string>): Links {
    match slot
    case Items => links.(items := First(out))
    case Additional => links.(additional := First(out))
    case AllOf => links.(allOf := out)
    case OneOf => links.(oneOf := out)
    case AnyOf => links.(anyOf := out)
    case Negated => links.(negated := First(out))
  }

  lemma PutThenGet(links: Links, slot: Slot, other: Slot, out: seq<string>)
    requires IsList(slot) || |out| <= 1
    ensures LinksAt(Put(links, slot, out), slot) == out
    ensures other != slot ==> LinksAt(Put(links, slot, out), other) == LinksAt(links, other)
    ensures Put(links, slot, out).properties == links.properties
  {
  }

  function Fallback(identity: string, slot: Slot, i: nat): string {
    identity + SlotPointer(slot, i)
  }

  function SlotPointer(slot: Slot, i: nat): string {
    match slot
    case Items => "/items"
    case Additional => "/additionalProperties"
    case AllOf => "/allOf/" + Decimal(i)
    case OneOf => "/oneOf/" + Decimal(i)
    case AnyOf => "/anyOf/" + Decimal(i)
    case Negated => "/not"
  }

  // ---- the raw graph ----

  function Children(raw: RawSchema): set<RawRef> {
    (set r | r in RefsAt(raw, Items)) + (set r | r in RefsAt(raw, Additional)) + (set r | r in RefsAt(raw, AllOf)) +
    (set r | r in RefsAt(raw, OneOf)) + (set r | r in RefsAt(raw, AnyOf)) + (set r | r in RefsAt(raw, Negated)) +
    raw.properties.Values
  }

  function RawGraph(heap: Heap): Graph<RawId> {
    map id | id in heap :: set r | r in Children(heap[id]) && r.RawRef? :: r.target
  }

  /** References that resolve have their target on the heap. */
  ghost predicate ClosedHeap(heap: Heap) {
    forall id, r :: id in heap && r in Children(heap[id]) && r.RawRef? ==> r.target in heap
  }

  /** A raw schema reachable from `id` has an unresolved reference. */
  ghost predicate Broken(heap: Heap, id: RawId) {
    exists b :: Reaches(RawGraph(heap), id, b) && b in heap && Unresolved in Children(heap[b])
  }

  ghost predicate BrokenRef(heap: Heap, r: RawRef) {
    r.Unresolved? || Broken(heap, r.target)
  }

  lemma SlotInChildren(raw: RawSchema, slot: Slot, r: RawRef)
    requires r in RefsAt(raw, slot)
    ensures r in Children(raw)
  {
  }

  lemma ChildrenHaveSlots(raw: RawSchema, r: RawRef)
    requires r in Children(raw)
    ensures (exists slot :: r in RefsAt(raw, slot)) || exists n :: n in raw.properties && raw.properties[n] == r
  {
    if r !in raw.properties.Values {
      assert r in RefsAt(raw, Items) || r in RefsAt(raw, Additional) || r in RefsAt(raw, AllOf) ||
             r in RefsAt(raw, OneOf) || r in RefsAt(raw, AnyOf) || r in RefsAt(raw, Negated);
    }
  }

  // ---- how a schema is asked for, and where it is stored ----

  /** Where a reference stands in a raw schema. */
  datatype Place = InSlot(slot: Slot, i: nat) | InProperty(name: string)

  /**
   * How a raw schema was first asked for: as a component, as a child of another raw schema, or by an operation, which
   * gives a fallback; and with which text.
   */
  datatype Request =
    | AsComponent(name: string, text: string)
    | AsChild(parent: RawId, place: Place, text: string)
    | ByOperation(fallback: string, text: string)

  ghost predicate ChildAt(raw: RawSchema, place: Place, ref: RawRef) {
    match place
    case InSlot(slot, i) => i < |RefsAt(raw, slot)| && RefsAt(raw, slot)[i] == ref
    case InProperty(n) => n in raw.properties && raw.properties[n] == ref
  }

  /** The reference tokens of a place, below the pointer of the schema. */
  function PlaceTokens(place: Place): seq<string> {
    match place
    case InSlot(Items, _) => ["items"]
    case InSlot(Additional, _) => ["additionalProperties"]
    case InSlot(AllOf, i) => ["allOf", Decimal(i)]
    case InSlot(OneOf, i) => ["oneOf", Decimal(i)]
    case InSlot(AnyOf, i) => ["anyOf", Decimal(i)]
    case InSlot(Negated, _) => ["not"]
    case InProperty(n) => ["properties", n]
  }

  /** `<file>#/components/schemas/<key>`, the key escaped. */
  function ComponentId(file: string, key: string): string {
    file + "#" + Render(["components", "schemas", key])
  }

  ghost predicate EndsInHash(s: string) {
    s != "" && s[|s| - 1] == '#'
  }

  ghost predicate IsInline(rootPath: string, identity: string) {
    exists n :: identity == rootPath + "#/inline/" + Decimal(n)
  }

  /** A reference written as text to a schema with a declared key. */
  ghost predicate IsDeclared(raw: RawSchema, text: string) {
    text != "" && raw.origin.Some? && raw.origin.value.key != ""
  }

  /** Stored under `identity` unless that ends in a hash; then under an inline number. */
  ghost predicate IsStoredAs(rootPath: string, stored: string, identity: string) {
    if EndsInHash(identity) then IsInline(rootPath, stored) else stored == identity
  }

  /**
   * Where a raw schema is stored: under its declared key if it was referred to by text, as a component under its
   * name, and as a child under the identity of its parent followed by its place.
   */
  ghost predicate PlacedBy(heap: Heap, given: Given, ids: Identities, r: RawId, identity: string, request: Request) {
    r in heap && r in ids &&
    match request
    case AsComponent(name, text) =>
      (name, RawRef(r, text)) in given.components &&
      if IsDeclared(heap[r], text) then identity == ComponentId(heap[r].origin.value.file, heap[r].origin.value.key)
      else if name != "" && heap[r].origin.Some? then identity == ComponentId(heap[r].origin.value.file, name)
      else IsStoredAs(given.rootPath, identity, ComponentId(given.rootPath, name))
    case AsChild(p, place, text) =>
      p in ids && p in heap && ChildAt(heap[p], place, RawRef(r, text)) &&
      if IsDeclared(heap[r], text) then identity == ComponentId(heap[r].origin.value.file, heap[r].origin.value.key)
      else IsStoredAs(given.rootPath, identity, ids[p] + Render(PlaceTokens(place)))
    case ByOperation(fallback, text) =>
      (fallback, RawRef(r, text)) in given.operations &&
      if IsDeclared(heap[r], text) then identity == ComponentId(heap[r].origin.value.file, heap[r].origin.value.key)
      else IsStoredAs(given.rootPath, identity, Anchored(given.rootPath, fallback))
  }

  /** A fallback that names no file is one of the root document. */
  ghost function Anchored(rootPath: string, fallback: string): string {
    if '#' in fallback then fallback else rootPath + "#" + fallback
  }

  /** The name a request asks for. */
  ghost function Wanted(raw: RawSchema, request: Request): string {
    if IsDeclared(raw, request.text) then raw.origin.value.key
    else if request.AsComponent? then request.name
    else ""
  }

  // ---- the normalizer's state ----

  type Identities = map<RawId, string>

  /**
   * What the normalizer is given: the path of the root document, the named component references, and the references
   * of operations with their fallbacks.
   */
  datatype Given = Given(rootPath: string, components: set<(string, RawRef)>, operations: set<(string, RawRef)>)

  /**
   * `owner` remembers which raw schema was stored under an identity and `requests` how each raw schema was first
   * asked for; the code keeps no such records.
   */
  datatype State = State(schemas: map<string, Schema>, ids: Identities, refs: seq<string>, owner: map<string, RawId>,
                         requests: map<RawId, Request>, given: Given)

  function Start(given: Given): State {
    State(map[], map[], [], map[], map[], given)
  }

  ghost predicate ValidState(heap: Heap, s: State) {
    ValidIds(heap, s) && ValidOwners(heap, s) && ListsKeys(s) && Traced(heap, s)
  }

  ghost predicate ValidIds(heap: Heap, s: State) {
    forall r :: r in s.ids ==> r in heap && s.ids[r] in s.schemas && '#' in s.ids[r]
  }

  /** Every identity and every name is accounted for by requests. */
  ghost predicate Traced(heap: Heap, s: State) {
    && s.requests.Keys == s.ids.Keys
    && (forall r {:trigger Placed(heap, s, r)} :: r in s.ids ==> Placed(heap, s, r))
    && (forall id {:trigger NameHolds(heap, s, id)} :: id in s.schemas ==> NameHolds(heap, s, id))
  }

  ghost predicate Placed(heap: Heap, s: State, r: RawId) {
    r in s.ids && r in s.requests && PlacedBy(heap, s.given, s.ids, r, s.ids[r], s.requests[r])
  }

  /** Raw schema `r`, stored under `id`, asks for the name. */
  ghost predicate Asks(heap: Heap, s: State, r: RawId, id: string, name: string) {
    r in s.ids && r in s.requests && r in heap && s.ids[r] == id && Wanted(heap[r], s.requests[r]) == name
  }

  /** The name of a schema is one that was asked for, and it is empty only if nothing else was. */
  ghost predicate NameHolds(heap: Heap, s: State, id: string) {
    id in s.schemas && (exists r :: Asks(heap, s, r, id, s.schemas[id].name)) &&
    (s.schemas[id].name == "" ==> forall r, name :: Asks(heap, s, r, id, name) ==> name == "")
  }

  ghost predicate ValidOwners(heap: Heap, s: State) {
    && s.owner.Keys == s.schemas.Keys
    && (forall id {:trigger OwnedWell(heap, s, id)} :: id in s.schemas ==> OwnedWell(heap, s, id))
  }

  ghost predicate OwnedWell(heap: Heap, s: State, id: string)
    requires id in s.schemas && id in s.owner
  {
    && s.owner[id] in s.ids && s.owner[id] in heap && s.ids[s.owner[id]] == id
    && s.schemas[id].ref == id && s.schemas[id].info == heap[s.owner[id]].info
  }

  /** The document lists every schema once. */
  ghost predicate ListsKeys(s: State) {
    multiset(s.refs) == multiset(s.schemas.Keys)
  }

  /** `out` holds the identities of the targets of `refs`. */
  ghost predicate Denotes(ids: Identities, refs: seq<RawRef>, out: seq<string>) {
    |out| == |refs| &&
    forall i :: 0 <= i < |refs| ==> refs[i].RawRef? && refs[i].target in ids && ids[refs[i].target] == out[i]
  }

  /** Property `n` is stored as the raw schema declares it. */
  ghost predicate PropertyDone(heap: Heap, ids: Identities, raw: RawSchema, props: map<string, Property>, n: string) {
    && n in raw.properties && n in props
    && raw.properties[n].RawRef? && raw.properties[n].target in ids && raw.properties[n].target in heap
    && props[n] == Property(n, ids[raw.properties[n].target], n in raw.required, heap[raw.properties[n].target].info)
  }

  ghost predicate PropertiesDone(heap: Heap, ids: Identities, raw: RawSchema, props: map<string, Property>,
                                 names: set<string>) {
    props.Keys == names && forall n :: n in names ==> PropertyDone(heap, ids, raw, props, n)
  }

  /** `links` is the image of `raw` under the identities. */
  ghost predicate IsImage(heap: Heap, ids: Identities, raw: RawSchema, links: Links) {
    && (forall slot :: Denotes(ids, RefsAt(raw, slot), LinksAt(links, slot)))
    && PropertiesDone(heap, ids, raw, links.properties, raw.properties.Keys)
  }

  ghost predicate Done(heap: Heap, s: State, id: string)
    requires ValidState(heap, s) && id in s.schemas
  {
    assert OwnedWell(heap, s, id);
    IsImage(heap, s.ids, heap[s.owner[id]], s.schemas[id].links)
  }

  ghost predicate Extends(s0: State, s1: State) {
    && (forall r :: r in s0.ids ==> r in s1.ids && s1.ids[r] == s0.ids[r])
    && (forall id :: id in s0.schemas ==> id in s1.schemas)
    && (forall id :: id in s0.owner ==> id in s1.owner && s1.owner[id] == s0.owner[id])
    && s1.given == s0.given && Remembers(s0.requests, s1.requests)
  }

  ghost predicate Remembers(before: map<RawId, Request>, after: map<RawId, Request>) {
    forall r :: r in before ==> r in after && after[r] == before[r]
  }

  lemma Remembered(s0: State, s1: State, me: RawId)
    requires Extends(s0, s1) && me in s0.requests
    ensures me in s1.requests && s1.requests[me] == s0.requests[me]
  {
  }

  /** Known schemas stay known: the measure of the recursion. */
  lemma NoMoreUnknown(heap: Heap, s0: State, s1: State)
    requires Extends(s0, s1)
    ensures var before, after := heap.Keys - s0.ids.Keys, heap.Keys - s1.ids.Keys;
            after == before || after < before
  {
    assert heap.Keys - s1.ids.Keys <= heap.Keys - s0.ids.Keys;
  }

  lemma ExtendsTransitive(s0: State, s1: State, s2: State)
    requires Extends(s0, s1) && Extends(s1, s2)
    ensures Extends(s0, s2)
  {
  }

  /** Schemas of `s0` outside `but` keep their links; a name, once given, stays. */
  ghost predicate Kept(s0: State, s1: State, but: set<string>) {
    forall id :: id in s0.schemas && id in s1.schemas ==>
      (id !in but ==> s1.schemas[id].links == s0.schemas[id].links) &&
      (s0.schemas[id].name != "" ==> s1.schemas[id].name == s0.schemas[id].name)
  }

  /** What was added since `s0` is complete and reachable from `from`. */
  ghost predicate Added(heap: Heap, s0: State, s1: State, from: RawId)
    requires ValidState(heap, s1)
  {
    && (forall id {:trigger Done(heap, s1, id)} :: id in s1.schemas && id !in s0.schemas ==> Done(heap, s1, id))
    && (forall r {:trigger Reaches(RawGraph(heap), from, r)} ::
          r in s1.ids && r !in s0.ids ==> Reaches(RawGraph(heap), from, r))
  }

  /** Work on behalf of raw schema `me`, stored under `identity`. */
  ghost predicate Worked(heap: Heap, s0: State, s1: State, me: RawId, identity: string) {
    && ValidState(heap, s0) && ValidState(heap, s1)
    && me in s0.ids && identity in s0.schemas && s0.owner[identity] == me
    && Extends(s0, s1) && Added(heap, s0, s1, me) && Kept(s0, s1, {identity})
  }

  ghost predicate Ensured(heap: Heap, s0: State, s1: State, me: RawId) {
    && ValidState(heap, s1)
    && me in s1.ids
    && Extends(s0, s1) && Added(heap, s0, s1, me) && Kept(s0, s1, {})
  }

  lemma ImageStable(heap: Heap, s1: State, s2: State, raw: RawSchema, links: Links)
    requires IsImage(heap, s1.ids, raw, links) && Extends(s1, s2)
    ensures IsImage(heap, s2.ids, raw, links)
  {
    forall slot ensures Denotes(s2.ids, RefsAt(raw, slot), LinksAt(links, slot)) {
      assert Denotes(s1.ids, RefsAt(raw, slot), LinksAt(links, slot));
    }
    forall n | n in raw.properties.Keys ensures PropertyDone(heap, s2.ids, raw, links.properties, n) {
      assert PropertyDone(heap, s1.ids, raw, links.properties, n);
    }
  }

  lemma DoneStable(heap: Heap, s1: State, s2: State, id: string)
    requires ValidState(heap, s1) && ValidState(heap, s2) && Extends(s1, s2)
    requires id in s1.schemas && id in s2.schemas && s2.schemas[id].links == s1.schemas[id].links
    requires Done(heap, s1, id)
    ensures Done(heap, s2, id)
  {
    assert OwnedWell(heap, s1, id);
    ImageStable(heap, s1, s2, heap[s1.owner[id]], s1.schemas[id].links);
  }

  lemma AddedBoth(heap: Heap, s0: State, s1: State, s2: State, from: RawId, but: set<string>)
    requires ValidState(heap, s1) && ValidState(heap, s2)
    requires Extends(s0, s1) && Extends(s1, s2) && Added(heap, s0, s1, from) && Added(heap, s1, s2, from)
    requires Kept(s1, s2, but) && forall id :: id in but ==> id in s0.schemas
    ensures Added(heap, s0, s2, from)
  {
    forall id | id in s2.schemas && id !in s0.schemas ensures Done(heap, s2, id) {
      if id in s1.schemas {
        assert Done(heap, s1, id);
        DoneStable(heap, s1, s2, id);
      }
    }
  }

  lemma WorkedBoth(heap: Heap, s0: State, s1: State, s2: State, me: RawId, identity: string)
    requires Worked(heap, s0, s1, me, identity) && Worked(heap, s1, s2, me, identity)
    ensures Worked(heap, s0, s2, me, identity)
  {
    AddedBoth(heap, s0, s1, s2, me, {identity});
  }

  /** Ensuring a child is work on behalf of its parent. */
  lemma EnsuredIsWork(heap: Heap, s0: State, s1: State, me: RawId, identity: string, child: RawId)
    requires ValidState(heap, s0) && me in s0.ids && identity in s0.schemas && s0.owner[identity] == me
    requires Edge(RawGraph(heap), me, child) && Ensured(heap, s0, s1, child)
    ensures Worked(heap, s0, s1, me, identity)
  {
    forall r | r in s1.ids && r !in s0.ids ensures Reaches(RawGraph(heap), me, r) {
      assert Reaches(RawGraph(heap), child, r);
      ReachesStep(RawGraph(heap), {}, me, child, r);
    }
  }

  /** Writing the links of one schema. */
  function Write(s: State, identity: string, links: Links): State
    requires identity in s.schemas
  {
    s.(schemas := s.schemas[identity := s.schemas[identity].(links := links)])
  }

  lemma WriteIsWork(heap: Heap, s: State, me: RawId, identity: string, links: Links)
    requires ValidState(heap, s) && me in s.ids && identity in s.schemas && s.owner[identity] == me
    ensures Worked(heap, s, Write(s, identity, links), me, identity)
  {
    var s1 := Write(s, identity, links);
    assert s1.schemas.Keys == s.schemas.Keys;
    assert ValidOwners(heap, s1) by {
      forall id | id in s1.schemas ensures OwnedWell(heap, s1, id) {
        assert OwnedWell(heap, s, id);
      }
    }
    TracedWrite(heap, s, identity, links);
    assert ListsKeys(s1) && ValidIds(heap, s1);
  }

  lemma TracedWrite(heap: Heap, s: State, identity: string, links: Links)
    requires Traced(heap, s) && identity in s.schemas
    ensures Traced(heap, Write(s, identity, links))
  {
    var s1 := Write(s, identity, links);
    forall r | r in s1.ids ensures Placed(heap, s1, r) {
      assert Placed(heap, s, r);
    }
    forall id | id in s1.schemas ensures NameHolds(heap, s1, id) {
      assert NameHolds(heap, s, id);
      SameNames(heap, s, s1, id);
    }
  }

  /** The law of a name depends on the name and on who asks. */
  lemma SameNames(heap: Heap, s: State, s1: State, id: string)
    requires NameHolds(heap, s, id) && id in s1.schemas && s1.schemas[id].name == s.schemas[id].name
    requires s1.ids == s.ids && s1.requests == s.requests
    ensures NameHolds(heap, s1, id)
  {
    var r :| Asks(heap, s, r, id, s.schemas[id].name);
    assert Asks(heap, s1, r, id, s1.schemas[id].name);
    forall x, name | Asks(heap, s1, x, id, name) && s1.schemas[id].name == "" ensures name == "" {
      assert Asks(heap, s, x, id, name);
    }
  }

  function Register(heap: Heap, s: State, me: RawId, identity: string, name: string, request: Request): State
    requires me in heap
  {
    s.(schemas := s.schemas[identity := Schema(identity, name, heap[me].info, NO_LINKS)],
       ids := s.ids[me := identity], refs := s.refs + [identity], owner := s.owner[identity := me],
       requests := s.requests[me := request])
  }

  /** A request that fits: it asks for this name, and places the schema under this identity. */
  ghost predicate Fits(heap: Heap, s: State, me: RawId, identity: string, name: string, request: Request) {
    me in heap && PlacedBy(heap, s.given, s.ids[me := identity], me, identity, request) &&
    Wanted(heap[me], request) == name
  }

  /** `reference` is asked for as `request` says, with the fallback and the name of that request. */
  ghost predicate IsRequest(heap: Heap, s: State, reference: RawRef, fallback: string, nameHint: string,
                            request: Request) {
    reference.Unresolved? ||
    (request.text == reference.text &&
     match request
     case AsComponent(name, _) =>
       (name, reference) in s.given.components && nameHint == name && fallback == ComponentId(s.given.rootPath, name)
     case AsChild(p, place, _) =>
       p in s.ids && p in heap && ChildAt(heap[p], place, reference) && nameHint == "" &&
       fallback == s.ids[p] + Render(PlaceTokens(place))
     case ByOperation(f, _) => (f, reference) in s.given.operations && nameHint == "" && fallback == f)
  }

  /** What the code computes: a declared key, else a hinted name, else the fallback unless that ends in a hash. */
  lemma IdentityCases(raw: RawSchema, text: string, fallback: string, nameHint: string, root: string, sequence: nat)
    ensures var (identity, name, _) := SchemaIdentity(raw, text, fallback, nameHint, root, sequence);
            if IsDeclared(raw, text) then
              identity == ComponentId(raw.origin.value.file, raw.origin.value.key) && name == raw.origin.value.key
            else
              name == nameHint &&
              if nameHint != "" && raw.origin.Some? then identity == ComponentId(raw.origin.value.file, nameHint)
              else IsStoredAs(root, identity, Anchored(root, fallback))
  {
    if IsDeclared(raw, text) {
      ComponentIdSpelled(raw.origin.value.file, raw.origin.value.key);
    } else if nameHint != "" && raw.origin.Some? {
      ComponentIdSpelled(raw.origin.value.file, nameHint);
    }
  }

  /** The identity and the name that the code computes are those of the request. */
  lemma IdentityFits(heap: Heap, s: State, reference: RawRef, fallback: string, nameHint: string, request: Request,
                     sequence: nat)
    requires reference.RawRef? && reference.target in heap && reference.target !in s.ids
    requires IsRequest(heap, s, reference, fallback, nameHint, request) && (!request.ByOperation? ==> '#' in fallback)
    ensures var raw, root := heap[reference.target], s.given.rootPath;
            var (identity, name, _) := SchemaIdentity(raw, reference.text, fallback, nameHint, root, sequence);
            Fits(heap, s, reference.target, identity, name, request)
  {
    IdentityCases(heap[reference.target], reference.text, fallback, nameHint, s.given.rootPath, sequence);
  }

  lemma FallbackHasHash(heap: Heap, s: State, reference: RawRef, fallback: string, nameHint: string, request: Request)
    requires ValidIds(heap, s) && reference.RawRef? && IsRequest(heap, s, reference, fallback, nameHint, request)
    ensures !request.ByOperation? ==> '#' in fallback
  {
    match request
    case ByOperation(_, _) =>
    case AsComponent(name, _) => assert fallback[|s.given.rootPath|] == '#';
    case AsChild(p, place, _) => assert '#' in s.ids[p];
  }

  /** The pointer that the code spells for a declared schema. */
  lemma ComponentIdSpelled(file: string, key: string)
    ensures ComponentId(file, key) == file + "#/components/schemas/" + Escape(key)
  {
    var a, b, c := "/components", "/schemas", Escape(key);
    assert ["components", "schemas", key] == ["components"] + (["schemas"] + [key]);
    PlainThen("components", ["schemas"] + [key]);
    PlainThen("schemas", [key]);
    LastToken(key);
    ComponentParts(file, c);
  }

  lemma ComponentParts(file: string, escaped: string)
    ensures file + "#" + (("/" + "components") + (("/" + "schemas") + ("/" + escaped))) ==
            file + "#/components/schemas/" + escaped
  {
    FourParts(file, "#", "/" + "components", "/" + "schemas", "/", escaped, "#/components/schemas/");
  }

  lemma FourParts(file: string, a: string, b: string, c: string, d: string, e: string, all: string)
    requires all == a + b + c + d
    ensures file + a + (b + (c + (d + e))) == file + all + e
  {
    Associate(c, d, e);
    Associate(b, c + d, e);
    Associate(b, c, d);
    Associate(file + a, b + c + d, e);
    Associate(a, b + c, d);
    Associate(a, b, c);
    Associate(file, a, b + c + d);
  }

  /** The pointer that the code spells for a slot is that of the place. */
  lemma SlotSpelled(slot: Slot, i: nat)
    ensures SlotPointer(slot, i) == Render(PlaceTokens(InSlot(slot, i)))
  {
    match slot
    case Items => SingleItem("items", "/items");
    case Additional => SingleItem("additionalProperties", "/additionalProperties");
    case Negated => SingleItem("not", "/not");
    case _ => ListSpelled(slot, i);
  }

  lemma ListSpelled(slot: Slot, i: nat)
    requires IsList(slot)
    ensures SlotPointer(slot, i) == Render(PlaceTokens(InSlot(slot, i)))
  {
    match slot
    case AllOf => NumberedItem("allOf", "/allOf/", i);
    case OneOf => NumberedItem("oneOf", "/oneOf/", i);
    case AnyOf => NumberedItem("anyOf", "/anyOf/", i);
    case _ =>
  }

  lemma SingleItem(keyword: string, spelled: string)
    requires '~' !in keyword && '/' !in keyword && spelled == "/" + keyword
    ensures Render([keyword]) == spelled
  {
    PlainToken(keyword);
  }

  lemma NumberedItem(keyword: string, spelled: string, i: nat)
    requires '~' !in keyword && '/' !in keyword && spelled == "/" + keyword + "/"
    ensures Render([keyword, Decimal(i)]) == spelled + Decimal(i)
  {
    KeywordThen(keyword, spelled, Decimal(i));
    EscapesToItself(Decimal(i));
  }

  lemma PropertyPointer(n: string)
    ensures Render(PlaceTokens(InProperty(n))) == "/properties/" + Escape(n)
  {
    KeywordThen("properties", "/properties/", n);
  }

  lemma PropertySpelled(identity: string, n: string)
    ensures identity + "/properties/" + Escape(n) == identity + Render(PlaceTokens(InProperty(n)))
  {
    PropertyPointer(n);
    Associate(identity, "/properties/", Escape(n));
  }

  lemma PlacedStays(heap: Heap, s: State, me: RawId, identity: string, request: Request, r: RawId)
    requires Placed(heap, s, r) && me !in s.ids
    ensures PlacedBy(heap, s.given, s.ids[me := identity], r, s.ids[r], s.requests[r]) && r != me
  {
  }

  lemma TracedRegister(heap: Heap, s: State, me: RawId, identity: string, name: string, request: Request)
    requires Traced(heap, s) && ValidIds(heap, s) && me !in s.ids && identity !in s.schemas
    requires Fits(heap, s, me, identity, name, request)
    ensures Traced(heap, Register(heap, s, me, identity, name, request))
  {
    var s1 := Register(heap, s, me, identity, name, request);
    forall r | r in s1.ids ensures Placed(heap, s1, r) {
      if r != me {
        assert Placed(heap, s, r);
        PlacedStays(heap, s, me, identity, request, r);
      }
    }
    forall id | id in s1.schemas ensures NameHolds(heap, s1, id) {
      if id == identity {
        assert Asks(heap, s1, me, identity, name);
        forall x, n | Asks(heap, s1, x, id, n) ensures x == me {
        }
      } else {
        assert NameHolds(heap, s, id);
        OthersAsk(heap, s, s1, me, id);
      }
    }
  }

  /** A new raw schema elsewhere does not change who asks for `id`. */
  lemma OthersAsk(heap: Heap, s: State, s1: State, me: RawId, id: string)
    requires NameHolds(heap, s, id) && id in s1.schemas && s1.schemas[id].name == s.schemas[id].name
    requires me !in s.ids && me in s1.ids && s1.ids == s.ids[me := s1.ids[me]] && s1.ids[me] != id
    requires me in s1.requests && s1.requests == s.requests[me := s1.requests[me]]
    ensures NameHolds(heap, s1, id)
  {
    var r :| Asks(heap, s, r, id, s.schemas[id].name);
    assert Asks(heap, s1, r, id, s1.schemas[id].name);
    forall x, name | Asks(heap, s1, x, id, name) && s1.schemas[id].name == "" ensures name == "" {
      assert Asks(heap, s, x, id, name);
    }
  }

  lemma RegisterLists(s: State, s1: State, identity: string)
    requires ListsKeys(s) && identity !in s.schemas
    requires s1.refs == s.refs + [identity] && s1.schemas.Keys == s.schemas.Keys + {identity}
    ensures ListsKeys(s1)
  {
    assert multiset(s.schemas.Keys + {identity}) == multiset(s.schemas.Keys) + multiset{identity};
  }

  lemma RegisterOwners(heap: Heap, s: State, me: RawId, identity: string, name: string, request: Request)
    requires ValidOwners(heap, s) && me in heap && me !in s.ids && identity !in s.schemas
    ensures ValidOwners(heap, Register(heap, s, me, identity, name, request))
  {
    var s1 := Register(heap, s, me, identity, name, request);
    forall id | id in s1.schemas ensures OwnedWell(heap, s1, id) {
      assert id != identity ==> OwnedWell(heap, s, id);
    }
  }

  lemma RegisterValid(heap: Heap, s: State, me: RawId, identity: string, name: string, request: Request)
    requires ValidState(heap, s) && me !in s.ids && identity !in s.schemas && '#' in identity
    requires Fits(heap, s, me, identity, name, request)
    ensures ValidState(heap, Register(heap, s, me, identity, name, request))
  {
    var s1 := Register(heap, s, me, identity, name, request);
    RegisterLists(s, s1, identity);
    RegisterOwners(heap, s, me, identity, name, request);
    TracedRegister(heap, s, me, identity, name, request);
    assert ValidIds(heap, s1);
  }

  lemma RegisterExtends(heap: Heap, s: State, me: RawId, identity: string, name: string, request: Request)
    requires s.owner.Keys == s.schemas.Keys && s.requests.Keys == s.ids.Keys
    requires me in heap && me !in s.ids && identity !in s.schemas
    ensures var s1 := Register(heap, s, me, identity, name, request);
            && Extends(s, s1) && Kept(s, s1, {})
            && s1.schemas.Keys == s.schemas.Keys + {identity} && s1.ids.Keys == s.ids.Keys + {me}
  {
    var s1 := Register(heap, s, me, identity, name, request);
    OneMoreRequest(s.requests, me, request);
    KeptBeside(s, s1, identity, s1.schemas[identity]);
  }

  lemma OneMoreRequest(requests: map<RawId, Request>, me: RawId, request: Request)
    requires me !in requests
    ensures Remembers(requests, requests[me := request])
  {
  }

  lemma KeptBeside(s: State, s1: State, identity: string, schema: Schema)
    requires s1.schemas == s.schemas[identity := schema] && identity !in s.schemas
    ensures Kept(s, s1, {})
  {
  }

  lemma FinishAdded(heap: Heap, s0: State, s1: State, s2: State, me: RawId, identity: string)
    requires ValidState(heap, s2) && Added(heap, s1, s2, me)
    requires identity in s2.schemas && identity in s2.owner && s2.owner[identity] == me
    requires me in heap && IsImage(heap, s2.ids, heap[me], s2.schemas[identity].links)
    requires s1.schemas.Keys == s0.schemas.Keys + {identity} && s1.ids.Keys == s0.ids.Keys + {me}
    ensures Added(heap, s0, s2, me)
  {
    ReachesSelf(RawGraph(heap), {}, me);
  }

  lemma KeptTransitive(s0: State, s1: State, s2: State, identity: string)
    requires Kept(s0, s1, {}) && Kept(s1, s2, {identity}) && Extends(s0, s1) && identity !in s0.schemas
    ensures Kept(s0, s2, {})
  {
  }

  lemma FinishEnsured(heap: Heap, s0: State, s1: State, s2: State, me: RawId, identity: string)
    requires identity !in s0.schemas && Extends(s0, s1) && Kept(s0, s1, {})
    requires s1.schemas.Keys == s0.schemas.Keys + {identity} && s1.ids.Keys == s0.ids.Keys + {me}
    requires Worked(heap, s1, s2, me, identity)
    requires IsImage(heap, s2.ids, heap[me], s2.schemas[identity].links)
    ensures Ensured(heap, s0, s2, me)
  {
    FinishAdded(heap, s0, s1, s2, me, identity);
    ExtendsTransitive(s0, s1, s2);
    KeptTransitive(s0, s1, s2, identity);
  }

  /** A second raw schema with an identity that is already taken becomes an alias; it may give a name. */
  function Alias(s: State, me: RawId, identity: string, name: string, request: Request): State
    requires identity in s.schemas
  {
    var existing := s.schemas[identity];
    s.(ids := s.ids[me := identity],
       schemas := s.schemas[identity := if existing.name == "" then existing.(name := name) else existing],
       requests := s.requests[me := request])
  }

  lemma AliasValid(heap: Heap, s: State, me: RawId, identity: string, name: string, request: Request)
    requires ValidState(heap, s) && me !in s.ids && identity in s.schemas && '#' in identity
    requires Fits(heap, s, me, identity, name, request)
    ensures ValidState(heap, Alias(s, me, identity, name, request))
  {
    var s1 := Alias(s, me, identity, name, request);
    assert s1.schemas.Keys == s.schemas.Keys;
    forall id | id in s1.schemas ensures OwnedWell(heap, s1, id) {
      assert OwnedWell(heap, s, id);
    }
    TracedAlias(heap, s, me, identity, name, request);
  }

  lemma TracedAlias(heap: Heap, s: State, me: RawId, identity: string, name: string, request: Request)
    requires Traced(heap, s) && ValidIds(heap, s) && me !in s.ids && identity in s.schemas
    requires Fits(heap, s, me, identity, name, request)
    ensures Traced(heap, Alias(s, me, identity, name, request))
  {
    var s1 := Alias(s, me, identity, name, request);
    forall r | r in s1.ids ensures Placed(heap, s1, r) {
      if r != me {
        assert Placed(heap, s, r);
        PlacedStays(heap, s, me, identity, request, r);
      }
    }
    forall id | id in s1.schemas ensures NameHolds(heap, s1, id) {
      assert NameHolds(heap, s, id);
      if id == identity {
        AliasName(heap, s, me, identity, name, request);
      } else {
        OthersAsk(heap, s, s1, me, id);
      }
    }
  }

  /** An alias gives its name to a schema that has none. */
  lemma AliasName(heap: Heap, s: State, me: RawId, identity: string, name: string, request: Request)
    requires NameHolds(heap, s, identity) && me !in s.ids && Fits(heap, s, me, identity, name, request)
    ensures NameHolds(heap, Alias(s, me, identity, name, request), identity)
  {
    var s1 := Alias(s, me, identity, name, request);
    assert Asks(heap, s1, me, identity, name);
    var r :| Asks(heap, s, r, identity, s.schemas[identity].name);
    assert Asks(heap, s1, r, identity, s.schemas[identity].name);
    forall x, n | Asks(heap, s1, x, identity, n) && s1.schemas[identity].name == "" ensures n == "" {
      if x != me {
        assert Asks(heap, s, x, identity, n);
      }
    }
  }

  lemma AliasEnsured(heap: Heap, s: State, me: RawId, identity: string, name: string, request: Request)
    requires ValidState(heap, s) && me !in s.ids && identity in s.schemas && '#' in identity
    requires Fits(heap, s, me, identity, name, request)
    ensures Ensured(heap, s, Alias(s, me, identity, name, request), me)
  {
    ReachesSelf(RawGraph(heap), {}, me);
    AliasValid(heap, s, me, identity, name, request);
    AliasExtends(s, me, identity, name, request);
  }

  lemma AliasExtends(s: State, me: RawId, identity: string, name: string, request: Request)
    requires me !in s.ids && identity in s.schemas && s.requests.Keys == s.ids.Keys
    ensures var s1 := Alias(s, me, identity, name, request);
            Extends(s, s1) && Kept(s, s1, {}) && s1.schemas.Keys == s.schemas.Keys
  {
  }

  lemma KnownEnsured(heap: Heap, s: State, me: RawId)
    requires ValidState(heap, s) && me in s.ids
    ensures Ensured(heap, s, s, me)
  {
  }

  lemma NothingWorked(heap: Heap, s: State, me: RawId, identity: string)
    requires ValidState(heap, s) && me in s.ids && identity in s.schemas && s.owner[identity] == me
    ensures Worked(heap, s, s, me, identity)
  {
  }

  lemma DenotesOneMore(s0: State, s1: State, refs: seq<RawRef>, i: nat, out: seq<string>)
    requires i < |refs| && Denotes(s0.ids, refs[..i], out) && Extends(s0, s1)
    requires refs[i].RawRef? && refs[i].target in s1.ids
    ensures Denotes(s1.ids, refs[..i + 1], out + [s1.ids[refs[i].target]])
  {
    assert forall j :: 0 <= j < i ==> refs[..i][j] == refs[..i + 1][j];
  }

  lemma WholePrefix(refs: seq<RawRef>)
    ensures refs[..|refs|] == refs
  {
  }

  lemma BrokenHere(heap: Heap, me: RawId, ref: RawRef)
    requires me in heap && ref in Children(heap[me])
    requires ref.Unresolved? || Broken(heap, ref.target)
    ensures Broken(heap, me)
  {
    if ref.Unresolved? {
      ReachesSelf(RawGraph(heap), {}, me);
    } else {
      var b :| Reaches(RawGraph(heap), ref.target, b) && b in heap && Unresolved in Children(heap[b]);
      ReachesStep(RawGraph(heap), {}, me, ref.target, b);
    }
  }

  class Normalizer {
    const heap: Heap
    const rootPath: string
    var schemas: map<string, Schema>
    var schemaIdentity: Identities
    var documentRefs: seq<string>
    var inlineSequence: nat
    ghost const components: set<(string, RawRef)>
    ghost const operations: set<(string, RawRef)>
    ghost var owner: map<string, RawId>
    ghost var requests: map<RawId, Request>

    constructor (heap: Heap, rootPath: string, ghost components: set<(string, RawRef)>,
                 ghost operations: set<(string, RawRef)>)
      ensures this.heap == heap && Snapshot() == Start(Given(rootPath, components, operations))
    {
      this.heap, this.rootPath, this.components, this.operations := heap, rootPath, components, operations;
      schemas, schemaIdentity, documentRefs, inlineSequence, owner, requests := map[], map[], [], 0, map[], map[];
    }

    ghost function Snapshot(): State
      reads this
    {
      State(schemas, schemaIdentity, documentRefs, owner, requests, Given(rootPath, components, operations))
    }

    method EnsureSchema(reference: RawRef, fallback: string, nameHint: string, ghost request: Request)
      returns (r: Option<string>)
      requires ClosedHeap(heap) && ValidState(heap, Snapshot())
      requires IsRequest(heap, Snapshot(), reference, fallback, nameHint, request)
      requires reference.RawRef? ==> reference.target in heap
      modifies this
      ensures r.Some? ==> reference.RawRef? && Ensured(heap, old(Snapshot()), Snapshot(), reference.target) &&
                          r.value == schemaIdentity[reference.target]
      ensures r.None? ==> reference.Unresolved? || Broken(heap, reference.target)
      ensures r.Some? && reference.target !in old(schemaIdentity) ==>
                reference.target in requests && requests[reference.target] == request
      decreases heap.Keys - schemaIdentity.Keys, 0
    {
      if reference.Unresolved? {
        return None;
      }
      ghost var s0 := Snapshot();
      var me := reference.target;
      if me in schemaIdentity && schemaIdentity[me] != "" {
        KnownEnsured(heap, s0, me);
        return Some(schemaIdentity[me]);
      }
      var (identity, name, next) :=
        SchemaIdentity(heap[me], reference.text, fallback, nameHint, rootPath, inlineSequence);
      FallbackHasHash(heap, s0, reference, fallback, nameHint, request);
      IdentityFits(heap, s0, reference, fallback, nameHint, request, inlineSequence);
      inlineSequence := next;
      if identity in schemas {
        Adopt(me, identity, name, request);
        AliasEnsured(heap, s0, me, identity, name, request);
        return Some(identity);
      }
      var ok := AddSchema(me, identity, name, request);
      r := if ok then Some(identity) else None;
    }

    /** Stores a new schema and then follows its references. */
    method AddSchema(me: RawId, identity: string, name: string, ghost request: Request) returns (ok: bool)
      requires ClosedHeap(heap) && ValidState(heap, Snapshot())
      requires me !in schemaIdentity && identity !in schemas && '#' in identity
      requires Fits(heap, Snapshot(), me, identity, name, request)
      modifies this
      ensures ok ==> Ensured(heap, old(Snapshot()), Snapshot(), me)
      ensures ok ==> schemaIdentity[me] == identity && requests[me] == request
      ensures !ok ==> Broken(heap, me)
      decreases heap.Keys - schemaIdentity.Keys, 0, 0
    {
      ghost var s0 := Snapshot();
      Enter(me, identity, name, request);
      RegisterValid(heap, s0, me, identity, name, request);
      RegisterExtends(heap, s0, me, identity, name, request);
      ghost var s1 := Snapshot();
      assert s1.requests[me] == request;
      assert me in heap.Keys - s0.ids.Keys;
      ok := FillLinks(me, identity);
      if ok {
        Remembered(s1, Snapshot(), me);
        FinishEnsured(heap, s0, s1, Snapshot(), me, identity);
      }
    }

    /** One component schema, after those that `roots` stands for. */
    method EnsureComponent(name: string, reference: RawRef, ghost roots: set<RawId>) returns (r: Option<string>)
      requires ClosedHeap(heap) && Normalized(heap, Snapshot(), roots)
      requires reference.RawRef? ==> reference.target in heap
      requires (name, reference) in components
      modifies this
      ensures r.Some? ==> reference.RawRef? && Normalized(heap, Snapshot(), roots + {reference.target})
      ensures r.None? ==> BrokenRef(heap, reference)
    {
      ghost var s := Snapshot();
      var fallback := rootPath + "#/components/schemas/" + Escape(name);
      ComponentIdSpelled(rootPath, name);
      ghost var text := if reference.RawRef? then reference.text else "";
      r := EnsureSchema(reference, fallback, name, AsComponent(name, text));
      if r.Some? {
        NormalizedMore(heap, s, Snapshot(), roots, reference.target);
      }
    }

    method EnsureComponents(names: seq<string>, refs: seq<RawRef>) returns (ok: bool)
      requires ClosedHeap(heap) && |names| == |refs| && Normalized(heap, Snapshot(), {})
      requires forall i :: 0 <= i < |refs| ==> (names[i], refs[i]) in components
      requires forall r :: r in refs && r.RawRef? ==> r.target in heap
      modifies this
      ensures ok ==> Normalized(heap, Snapshot(), Roots(refs, |refs|))
      ensures ok ==> AllResolved(refs, |refs|)
      ensures !ok ==> exists i :: 0 <= i < |refs| && BrokenRef(heap, refs[i])
    {
      ghost var roots: set<RawId> := {};
      for i := 0 to |refs|
        invariant roots == Roots(refs, i) && Normalized(heap, Snapshot(), roots)
        invariant AllResolved(refs, i)
      {
        var reference := refs[i];
        assert reference in refs;
        var r := EnsureComponent(names[i], reference, roots);
        if r.None? {
          return false;
        }
        roots := roots + {reference.target};
      }
      ok := true;
    }

    /** The identity is known already. */
    method Adopt(me: RawId, identity: string, name: string, ghost request: Request)
      requires identity in schemas
      modifies this`schemas, this`schemaIdentity, this`requests
      ensures Snapshot() == Alias(old(Snapshot()), me, identity, name, request)
    {
      requests := requests[me := request];
      schemaIdentity := schemaIdentity[me := identity];
      var existing := schemas[identity];
      if existing.name == "" && name != "" {
        schemas := schemas[identity := existing.(name := name)];
      }
      assert schemas == Alias(old(Snapshot()), me, identity, name, request).schemas;
    }

    /** A new schema is stored before its references are followed. */
    method Enter(me: RawId, identity: string, name: string, ghost request: Request)
      requires me in heap
      modifies this`schemas, this`schemaIdentity, this`documentRefs, this`owner, this`requests
      ensures Snapshot() == Register(heap, old(Snapshot()), me, identity, name, request)
    {
      schemas := schemas[identity := Schema(identity, name, heap[me].info, NO_LINKS)];
      schemaIdentity := schemaIdentity[me := identity];
      documentRefs := documentRefs + [identity];
      owner, requests := owner[identity := me], requests[me := request];
    }

    /** One child reference of a schema under construction; `s0` is when its construction began. */
    method EnsureChild(me: RawId, identity: string, ref: RawRef, fallback: string, ghost place: Place, ghost s0: State)
      returns (r: Option<string>)
      requires ClosedHeap(heap) && Worked(heap, s0, Snapshot(), me, identity)
      requires ref in Children(heap[me]) && ChildAt(heap[me], place, ref)
      requires fallback == identity + Render(PlaceTokens(place))
      modifies this
      ensures r.Some? ==>
        && Worked(heap, s0, Snapshot(), me, identity)
        && Extends(old(Snapshot()), Snapshot())
        && schemas[identity].links == old(schemas[identity].links)
        && ref.RawRef? && ref.target in schemaIdentity && r.value == schemaIdentity[ref.target]
      ensures r.None? ==> Broken(heap, me)
      decreases heap.Keys - schemaIdentity.Keys, 1
    {
      ghost var s1 := Snapshot();
      assert OwnedWell(heap, s0, identity);
      ghost var text := if ref.RawRef? then ref.text else "";
      r := EnsureSchema(ref, fallback, "", AsChild(me, place, text));
      if r.None? {
        BrokenHere(heap, me, ref);
      } else {
        EnsuredIsWork(heap, s1, Snapshot(), me, identity, ref.target);
        WorkedBoth(heap, s0, s1, Snapshot(), me, identity);
      }
    }

    /** Stores the links of a schema under construction. */
    method Store(me: RawId, identity: string, links: Links, ghost s0: State)
      requires Worked(heap, s0, Snapshot(), me, identity)
      modifies this`schemas
      ensures Worked(heap, s0, Snapshot(), me, identity) && schemas[identity].links == links
      ensures Extends(old(Snapshot()), Snapshot())
    {
      ghost var s1 := Snapshot();
      WriteIsWork(heap, s1, me, identity, links);
      schemas := schemas[identity := schemas[identity].(links := links)];
      assert Snapshot() == Write(s1, identity, links);
      WorkedBoth(heap, s0, s1, Write(s1, identity, links), me, identity);
    }

    /** One more reference of a slot, after `out`. */
    method NextChild(me: RawId, identity: string, slot: Slot, i: nat, out: seq<string>, ghost s0: State)
      returns (ok: bool, more: seq<string>)
      requires ClosedHeap(heap) && Worked(heap, s0, Snapshot(), me, identity)
      requires i < |RefsAt(heap[me], slot)| && Denotes(schemaIdentity, RefsAt(heap[me], slot)[..i], out)
      modifies this
      ensures ok ==>
        && Worked(heap, s0, Snapshot(), me, identity)
        && Extends(old(Snapshot()), Snapshot())
        && schemas[identity].links == old(schemas[identity].links)
        && Denotes(schemaIdentity, RefsAt(heap[me], slot)[..i + 1], more)
      ensures !ok ==> Broken(heap, me)
      decreases heap.Keys - schemaIdentity.Keys, 2
    {
      var refs := RefsAt(heap[me], slot);
      ghost var s1 := Snapshot();
      SlotInChildren(heap[me], slot, refs[i]);
      SlotSpelled(slot, i);
      var child := EnsureChild(me, identity, refs[i], Fallback(identity, slot, i), InSlot(slot, i), s0);
      if child.None? {
        return false, out;
      }
      DenotesOneMore(s1, Snapshot(), refs, i, out);
      return true, out + [child.value];
    }

    /** The identities of the references in one slot. */
    method CollectSlot(me: RawId, identity: string, slot: Slot, ghost s0: State) returns (ok: bool, out: seq<string>)
      requires ClosedHeap(heap) && Worked(heap, s0, Snapshot(), me, identity)
      modifies this
      ensures ok ==>
        && Worked(heap, s0, Snapshot(), me, identity)
        && Extends(old(Snapshot()), Snapshot())
        && schemas[identity].links == old(schemas[identity].links)
        && Denotes(schemaIdentity, RefsAt(heap[me], slot), out)
      ensures !ok ==> Broken(heap, me)
      decreases heap.Keys - schemaIdentity.Keys, 3
    {
      var refs := RefsAt(heap[me], slot);
      ghost var s1 := Snapshot();
      ghost var s2 := s1;
      out := [];
      for i := 0 to |refs|
        invariant s2 == Snapshot() && Worked(heap, s0, s2, me, identity) && Extends(s1, s2)
        invariant Denotes(s2.ids, refs[..i], out) && s2.schemas[identity].links == s1.schemas[identity].links
      {
        NoMoreUnknown(heap, s1, Snapshot());
        ok, out := NextChild(me, identity, slot, i, out, s0);
        if !ok {
          return;
        }
        ExtendsTransitive(s1, s2, Snapshot());
        s2 := Snapshot();
      }
      WholePrefix(refs);
      ok := true;
    }

    /** The references in one slot. */
    method FillSlot(me: RawId, identity: string, slot: Slot, ghost s0: State) returns (ok: bool)
      requires ClosedHeap(heap) && Worked(heap, s0, Snapshot(), me, identity)
      modifies this
      ensures ok ==>
        && Worked(heap, s0, Snapshot(), me, identity)
        && Extends(old(Snapshot()), Snapshot())
        && OnlySlotChanged(old(schemas[identity].links), schemas[identity].links, slot)
        && Denotes(schemaIdentity, RefsAt(heap[me], slot), LinksAt(schemas[identity].links, slot))
      ensures !ok ==> Broken(heap, me)
      decreases heap.Keys - schemaIdentity.Keys, 4
    {
      ghost var s1 := Snapshot();
      var links := schemas[identity].links;
      var out;
      ok, out := CollectSlot(me, identity, slot, s0);
      if ok {
        ghost var s2 := Snapshot();
        PutChangesSlot(heap[me], links, slot, out);
        Store(me, identity, Put(links, slot, out), s0);
        ExtendsTransitive(s1, s2, Snapshot());
      }
    }

    /** All slots in the order of the code. */
    method FillSlots(me: RawId, identity: string, ghost s0: State) returns (ok: bool)
      requires ClosedHeap(heap) && Worked(heap, s0, Snapshot(), me, identity)
      modifies this
      ensures ok ==>
        && Worked(heap, s0, Snapshot(), me, identity)
        && Extends(old(Snapshot()), Snapshot())
        && SlotsDone(schemaIdentity, heap[me], schemas[identity].links, |SLOTS|)
        && schemas[identity].links.properties == old(schemas[identity].links.properties)
      ensures !ok ==> Broken(heap, me)
      decreases heap.Keys - schemaIdentity.Keys, 5
    {
      ghost var s1 := Snapshot();
      ghost var s2 := s1;
      for k := 0 to |SLOTS|
        invariant s2 == Snapshot() && Worked(heap, s0, s2, me, identity) && Extends(s1, s2)
        invariant SlotsDone(s2.ids, heap[me], s2.schemas[identity].links, k)
        invariant s2.schemas[identity].links.properties == s1.schemas[identity].links.properties
      {
        NoMoreUnknown(heap, s1, Snapshot());
        ok := FillSlot(me, identity, SLOTS[k], s0);
        if !ok {
          return;
        }
        SlotsOneMore(heap[me], s2, Snapshot(), identity, k);
        ExtendsTransitive(s1, s2, Snapshot());
        s2 := Snapshot();
      }
      ok := true;
    }

    /** The stored form of one property, which joins the ones in `done`. */
    method MakeProperty(me: RawId, identity: string, n: string, ghost done: set<string>, ghost s0: State)
      returns (ok: bool, p: Property)
      requires ClosedHeap(heap) && Worked(heap, s0, Snapshot(), me, identity)
      requires n in heap[me].properties
      requires PropertiesDone(heap, schemaIdentity, heap[me], schemas[identity].links.properties, done)
      modifies this
      ensures ok ==>
        && Worked(heap, s0, Snapshot(), me, identity)
        && Extends(old(Snapshot()), Snapshot())
        && schemas[identity].links == old(schemas[identity].links)
        && PropertiesDone(heap, schemaIdentity, heap[me], schemas[identity].links.properties[n := p], done + {n})
      ensures !ok ==> Broken(heap, me)
      decreases heap.Keys - schemaIdentity.Keys, 2
    {
      ghost var ids := schemaIdentity;
      var raw := heap[me];
      var ref := raw.properties[n];
      p := Property(n, "", false, raw.info);
      PropertySpelled(identity, n);
      var child := EnsureChild(me, identity, ref, identity + "/properties/" + Escape(n), InProperty(n), s0);
      if child.None? {
        return false, p;
      }
      p := Property(n, child.value, n in raw.required, heap[ref.target].info);
      OnePropertyMore(heap, ids, schemaIdentity, raw, schemas[identity].links.properties, done, n, p);
      ok := true;
    }

    /** One property, after the ones in `done`. */
    method FillProperty(me: RawId, identity: string, n: string, ghost done: set<string>, ghost s0: State)
      returns (ok: bool)
      requires ClosedHeap(heap) && Worked(heap, s0, Snapshot(), me, identity)
      requires n in heap[me].properties
      requires PropertiesDone(heap, schemaIdentity, heap[me], schemas[identity].links.properties, done)
      modifies this
      ensures ok ==>
        && Worked(heap, s0, Snapshot(), me, identity)
        && Extends(old(Snapshot()), Snapshot())
        && PropertiesDone(heap, schemaIdentity, heap[me], schemas[identity].links.properties, done + {n})
        && SameSlots(old(schemas[identity].links), schemas[identity].links)
      ensures !ok ==> Broken(heap, me)
      decreases heap.Keys - schemaIdentity.Keys, 3
    {
      ghost var s1 := Snapshot();
      var links := schemas[identity].links;
      var p;
      ok, p := MakeProperty(me, identity, n, done, s0);
      if !ok {
        return;
      }
      ghost var s2 := Snapshot();
      var filled := links.(properties := links.properties[n := p]);
      Store(me, identity, filled, s0);
      ExtendsTransitive(s1, s2, Snapshot());
    }

    /** All properties; the order does not matter to the result. */
    method FillProperties(me: RawId, identity: string, ghost s0: State) returns (ok: bool)
      requires ClosedHeap(heap) && Worked(heap, s0, Snapshot(), me, identity)
      requires schemas[identity].links.properties == map[]
      modifies this
      ensures ok ==>
        && Worked(heap, s0, Snapshot(), me, identity)
        && Extends(old(Snapshot()), Snapshot())
        && PropertiesDone(heap, schemaIdentity, heap[me], schemas[identity].links.properties, heap[me].properties.Keys)
        && SameSlots(old(schemas[identity].links), schemas[identity].links)
      ensures !ok ==> Broken(heap, me)
      decreases heap.Keys - schemaIdentity.Keys, 4
    {
      var raw := heap[me];
      ghost var s1 := Snapshot();
      ghost var s2 := s1;
      var done: set<string> := {};
      while done != raw.properties.Keys
        invariant done <= raw.properties.Keys
        invariant s2 == Snapshot() && Worked(heap, s0, s2, me, identity) && Extends(s1, s2)
        invariant PropertiesDone(heap, s2.ids, raw, s2.schemas[identity].links.properties, done)
        invariant SameSlots(s1.schemas[identity].links, s2.schemas[identity].links)
        decreases raw.properties.Keys - done
      {
        assert raw.properties.Keys - done != {};
        var n :| n in raw.properties.Keys - done;
        NoMoreUnknown(heap, s1, Snapshot());
        ok := FillProperty(me, identity, n, done, s0);
        if !ok {
          return;
        }
        ExtendsTransitive(s1, s2, Snapshot());
        done, s2 := done + {n}, Snapshot();
      }
      ok := true;
    }

    /** The second half of `ensureSchema`: all references of a freshly registered schema. */
    method FillLinks(me: RawId, identity: string) returns (ok: bool)
      requires ClosedHeap(heap) && ValidState(heap, Snapshot())
      requires me in schemaIdentity && identity in schemas && owner[identity] == me
      requires schemas[identity].links == NO_LINKS
      modifies this
      ensures ok ==> Worked(heap, old(Snapshot()), Snapshot(), me, identity) &&
                     IsImage(heap, schemaIdentity, heap[me], schemas[identity].links)
      ensures !ok ==> Broken(heap, me)
      decreases heap.Keys - schemaIdentity.Keys, 6
    {
      ghost var s0 := Snapshot();
      NothingWorked(heap, s0, me, identity);
      ok := FillSlots(me, identity, s0);
      if ok {
        ghost var s1 := Snapshot();
        NoMoreUnknown(heap, s0, Snapshot());
        ok := FillProperties(me, identity, s0);
        if ok {
          AllSlots(heap[me], s1, Snapshot(), identity);
        }
      }
    }
  }

  ghost predicate SameSlots(a: Links, b: Links) {
    b == a.(properties := b.properties)
  }

  ghost predicate OnlySlotChanged(a: Links, b: Links, slot: Slot) {
    b.properties == a.properties && forall other :: other != slot ==> LinksAt(b, other) == LinksAt(a, other)
  }

  /** The first `k` slots hold the identities of the raw references. */
  ghost predicate SlotsDone(ids: Identities, raw: RawSchema, links: Links, k: nat)
    requires k <= |SLOTS|
  {
    forall j :: 0 <= j < k ==> Denotes(ids, RefsAt(raw, SLOTS[j]), LinksAt(links, SLOTS[j]))
  }

  lemma PutChangesSlot(raw: RawSchema, links: Links, slot: Slot, out: seq<string>)
    requires |out| == |RefsAt(raw, slot)|
    ensures LinksAt(Put(links, slot, out), slot) == out
    ensures OnlySlotChanged(links, Put(links, slot, out), slot)
  {
    forall other { PutThenGet(links, slot, other, out); }
  }

  lemma SlotsOneMore(raw: RawSchema, s1: State, s2: State, identity: string, k: nat)
    requires k < |SLOTS| && identity in s1.schemas && identity in s2.schemas && Extends(s1, s2)
    requires SlotsDone(s1.ids, raw, s1.schemas[identity].links, k)
    requires OnlySlotChanged(s1.schemas[identity].links, s2.schemas[identity].links, SLOTS[k])
    requires Denotes(s2.ids, RefsAt(raw, SLOTS[k]), LinksAt(s2.schemas[identity].links, SLOTS[k]))
    ensures SlotsDone(s2.ids, raw, s2.schemas[identity].links, k + 1)
  {
    forall j | 0 <= j < k
      ensures Denotes(s2.ids, RefsAt(raw, SLOTS[j]), LinksAt(s2.schemas[identity].links, SLOTS[j]))
    {
      assert SLOTS[j] != SLOTS[k];
    }
  }

  lemma AllSlots(raw: RawSchema, s1: State, s2: State, identity: string)
    requires identity in s1.schemas && identity in s2.schemas && Extends(s1, s2)
    requires SameSlots(s1.schemas[identity].links, s2.schemas[identity].links)
    requires SlotsDone(s1.ids, raw, s1.schemas[identity].links, |SLOTS|)
    ensures forall slot :: Denotes(s2.ids, RefsAt(raw, slot), LinksAt(s2.schemas[identity].links, slot))
  {
    forall slot ensures Denotes(s2.ids, RefsAt(raw, slot), LinksAt(s2.schemas[identity].links, slot)) {
      assert LinksAt(s2.schemas[identity].links, slot) == LinksAt(s1.schemas[identity].links, slot);
      assert slot == SLOTS[0] || slot == SLOTS[1] || slot == SLOTS[2] ||
             slot == SLOTS[3] || slot == SLOTS[4] || slot == SLOTS[5];
    }
  }

  lemma OnePropertyMore(heap: Heap, ids1: Identities, ids2: Identities, raw: RawSchema, props: map<string, Property>,
                        names: set<string>, n: string, p: Property)
    requires forall r :: r in ids1 ==> r in ids2 && ids2[r] == ids1[r]
    requires PropertiesDone(heap, ids1, raw, props, names)
    requires PropertyDone(heap, ids2, raw, props[n := p], n)
    ensures PropertiesDone(heap, ids2, raw, props[n := p], names + {n})
  {
    forall m | m in names + {n} ensures PropertyDone(heap, ids2, raw, props[n := p], m) {
      if m != n {
        assert PropertyDone(heap, ids1, raw, props, m);
      }
    }
  }

  // ---- the whole document ----

  ghost predicate AllDone(heap: Heap, s: State)
    requires ValidState(heap, s)
  {
    forall id {:trigger Done(heap, s, id)} :: id in s.schemas ==> Done(heap, s, id)
  }

  ghost predicate FromRoots(heap: Heap, roots: set<RawId>, r: RawId) {
    exists root :: root in roots && Reaches(RawGraph(heap), root, r)
  }

  ghost predicate OnlyFromRoots(heap: Heap, ids: Identities, roots: set<RawId>) {
    forall r {:trigger FromRoots(heap, roots, r)} :: r in ids ==> FromRoots(heap, roots, r)
  }

  /** The result of ensuring all of `roots`, from nothing. */
  ghost predicate Normalized(heap: Heap, s: State, roots: set<RawId>) {
    ValidState(heap, s) && AllDone(heap, s) && roots <= s.ids.Keys && OnlyFromRoots(heap, s.ids, roots)
  }

  lemma NormalizedNothing(heap: Heap, given: Given)
    ensures Normalized(heap, Start(given), {})
  {
  }

  lemma AllDoneMore(heap: Heap, s0: State, s1: State, r: RawId)
    requires ValidState(heap, s0) && AllDone(heap, s0) && Ensured(heap, s0, s1, r)
    ensures AllDone(heap, s1)
  {
    forall id | id in s1.schemas ensures Done(heap, s1, id) {
      if id in s0.schemas {
        assert Done(heap, s0, id);
        DoneStable(heap, s0, s1, id);
      }
    }
  }

  lemma RootsMore(heap: Heap, s0: State, s1: State, roots: set<RawId>, r: RawId)
    requires ValidState(heap, s1) && OnlyFromRoots(heap, s0.ids, roots) && Added(heap, s0, s1, r)
    ensures OnlyFromRoots(heap, s1.ids, roots + {r})
  {
    forall x | x in s1.ids ensures FromRoots(heap, roots + {r}, x) {
      if x in s0.ids {
        assert FromRoots(heap, roots, x);
        var root :| root in roots && Reaches(RawGraph(heap), root, x);
        assert root in roots + {r};
      } else {
        assert r in roots + {r} && Reaches(RawGraph(heap), r, x);
      }
    }
  }

  lemma NormalizedMore(heap: Heap, s0: State, s1: State, roots: set<RawId>, r: RawId)
    requires Normalized(heap, s0, roots) && Ensured(heap, s0, s1, r)
    ensures Normalized(heap, s1, roots + {r})
  {
    AllDoneMore(heap, s0, s1, r);
    RootsMore(heap, s0, s1, roots, r);
  }

  /** Some reference is unresolved or leads to a schema with an unresolved reference. */
  ghost predicate AnyBroken(heap: Heap, refs: seq<RawRef>) {
    exists r :: r in refs && BrokenRef(heap, r)
  }

  predicate AllResolved(refs: seq<RawRef>, n: nat)
    requires n <= |refs|
  {
    n == 0 || (AllResolved(refs, n - 1) && refs[n - 1].RawRef?)
  }

  lemma {:induction false} ResolvedMeans(refs: seq<RawRef>, n: nat)
    requires n <= |refs| && AllResolved(refs, n)
    ensures Unresolved !in refs[..n]
  {
    if n > 0 {
      ResolvedMeans(refs, n - 1);
      assert refs[..n] == refs[..n - 1] + [refs[n - 1]];
    }
  }

  /** The targets of the first `n` references. */
  function Roots(refs: seq<RawRef>, n: nat): set<RawId>
    requires n <= |refs|
  {
    if n == 0 then {}
    else Roots(refs, n - 1) + if refs[n - 1].RawRef? then {refs[n - 1].target} else {}
  }

  function Components(names: seq<string>, refs: seq<RawRef>): set<(string, RawRef)>
    requires |names| == |refs|
  {
    set i | 0 <= i < |refs| :: (names[i], refs[i])
  }

  /** Every reference stored in the document names a schema of the document. */
  lemma ReferencesStayInside(heap: Heap, s: State, roots: set<RawId>, id: string)
    requires Normalized(heap, s, roots) && id in s.schemas
    ensures forall slot, x :: x in LinksAt(s.schemas[id].links, slot) ==> x in s.schemas
    ensures forall n :: n in s.schemas[id].links.properties ==>
              s.schemas[id].links.properties[n].schema in s.schemas &&
              s.schemas[id].links.properties[n].name == n
  {
    assert Done(heap, s, id) && OwnedWell(heap, s, id);
    var raw, links := heap[s.owner[id]], s.schemas[id].links;
    forall slot, x | x in LinksAt(links, slot) ensures x in s.schemas {
      assert Denotes(s.ids, RefsAt(raw, slot), LinksAt(links, slot));
      var i :| 0 <= i < |LinksAt(links, slot)| && LinksAt(links, slot)[i] == x;
      assert RefsAt(raw, slot)[i].target in s.ids;
    }
    forall n | n in links.properties ensures links.properties[n].schema in s.schemas && links.properties[n].name == n {
      assert PropertyDone(heap, s.ids, raw, links.properties, n);
    }
  }

  /** The document lists every schema exactly once. */
  lemma ReferencesAreUnique(heap: Heap, s: State, roots: set<RawId>)
    requires Normalized(heap, s, roots)
    ensures forall id :: id in s.refs <==> id in s.schemas
    ensures forall i, j :: 0 <= i < j < |s.refs| ==> s.refs[i] != s.refs[j]
  {
    assert forall id :: id in s.refs <==> id in multiset(s.refs);
    forall i, j | 0 <= i < j < |s.refs| ensures s.refs[i] != s.refs[j] {
      var a, b, c := s.refs[..j], s.refs[j], s.refs[j + 1..];
      assert s.refs == a + [b] + c && a[i] == s.refs[i];
      assert multiset(s.refs)[b] == multiset(a)[b] + 1 + multiset(c)[b];
      assert multiset(s.refs)[b] <= 1;
      assert a[i] in multiset(a);
    }
  }

  ghost predicate Injective(ids: Identities) {
    forall a, b :: a in ids && b in ids && ids[a] == ids[b] ==> a == b
  }

  lemma OwnImage(heap: Heap, s: State, r: RawId)
    requires ValidState(heap, s) && AllDone(heap, s) && Injective(s.ids) && r in s.ids
    ensures IsImage(heap, s.ids, heap[r], s.schemas[s.ids[r]].links)
  {
    assert Done(heap, s, s.ids[r]) && OwnedWell(heap, s, s.ids[r]);
  }

  lemma ChildIsKnown(heap: Heap, s: State, r: RawId, c: RawRef)
    requires r in heap && r in s.ids && s.ids[r] in s.schemas && c in Children(heap[r])
    requires IsImage(heap, s.ids, heap[r], s.schemas[s.ids[r]].links)
    ensures c.RawRef? && c.target in s.ids
  {
    var raw, links := heap[r], s.schemas[s.ids[r]].links;
    ChildrenHaveSlots(raw, c);
    if slot :| c in RefsAt(raw, slot) {
      assert Denotes(s.ids, RefsAt(raw, slot), LinksAt(links, slot));
      var i :| 0 <= i < |RefsAt(raw, slot)| && RefsAt(raw, slot)[i] == c;
    } else {
      var n :| n in raw.properties && raw.properties[n] == c;
      assert PropertyDone(heap, s.ids, raw, links.properties, n);
    }
  }

  lemma ReachableIsKnown(heap: Heap, s: State, roots: set<RawId>, r: RawId)
    requires Normalized(heap, s, roots) && Injective(s.ids) && FromRoots(heap, roots, r)
    ensures r in s.ids
  {
    var root :| root in roots && Reaches(RawGraph(heap), root, r);
    forall x, y | x in s.ids.Keys && Edge(RawGraph(heap), x, y) ensures y in s.ids.Keys {
      SuccessorIsKnown(heap, s, x, y);
    }
    ClosedUnderReach(RawGraph(heap), s.ids.Keys, root, r);
  }

  lemma SuccessorIsKnown(heap: Heap, s: State, x: RawId, y: RawId)
    requires ValidState(heap, s) && AllDone(heap, s) && Injective(s.ids)
    requires x in s.ids && Edge(RawGraph(heap), x, y)
    ensures y in s.ids
  {
    var c :| c in Children(heap[x]) && c.RawRef? && c.target == y;
    OwnImage(heap, s, x);
    ChildIsKnown(heap, s, x, c);
  }

  /**
   * When distinct raw schemas have distinct identities, the document is the exact image of the raw graph:
   * it holds the schemas reachable from the roots, each with the identities of its own references.
   */
  lemma DocumentIsExactImage(heap: Heap, s: State, roots: set<RawId>, r: RawId)
    requires Normalized(heap, s, roots) && Injective(s.ids)
    ensures r in s.ids <==> FromRoots(heap, roots, r)
    ensures r in s.ids ==>
              && r in heap && Unresolved !in Children(heap[r])
              && LinksMatch(heap, s.ids, heap[r], s.schemas[s.ids[r]].links)
  {
    if FromRoots(heap, roots, r) {
      ReachableIsKnown(heap, s, roots, r);
    }
    if r in s.ids {
      OwnImage(heap, s, r);
      ImageLinksMatch(heap, s.ids, heap[r], s.schemas[s.ids[r]].links);
      if Unresolved in Children(heap[r]) {
        ChildIsKnown(heap, s, r, Unresolved);
      }
    }
  }

  // ---- every identity is the file and the key of a component, followed by the way to the schema ----

  ghost predicate HasKey(raw: RawSchema) {
    raw.origin.Some? && raw.origin.value.key != "" && '#' !in raw.origin.value.file
  }

  /** A schema that is given as a component or referred to by text. */
  ghost predicate IsComponent(heap: Heap, given: Given, r: RawId) {
    (exists name, text :: (name, RawRef(r, text)) in given.components) || ReferredTo(heap, r)
  }

  ghost predicate ReferredTo(heap: Heap, r: RawId) {
    exists p, place, text :: text != "" && p in heap && ChildAt(heap[p], place, RawRef(r, text))
  }

  /**
   * Components have a declared key, no two the same one; what is written in place is not a component; and no operation
   * asks for anything.
   */
  ghost predicate IsProper(heap: Heap, given: Given) {
    && given.operations == {}
    && (forall name, r, text :: (name, RawRef(r, text)) in given.components ==>
          r in heap && HasKey(heap[r]) && (text != "" || heap[r].origin.value.key == name))
    && (forall p, place, r, text :: p in heap && ChildAt(heap[p], place, RawRef(r, text)) ==>
          IsProperChild(heap, given, r, text))
    && (forall a, b :: IsComponent(heap, given, a) && IsComponent(heap, given, b) ==> a == b || !SameOrigin(heap, a, b))
    && (forall p, n :: p in heap && n in heap[p].properties ==> !EndsInHash(n))
  }

  ghost predicate SameOrigin(heap: Heap, a: RawId, b: RawId) {
    a in heap && b in heap && heap[a].origin == heap[b].origin
  }

  ghost predicate IsProperChild(heap: Heap, given: Given, r: RawId, text: string) {
    if text == "" then !IsComponent(heap, given, r) else r in heap && HasKey(heap[r])
  }

  /** From `c`, the places lead to `r`, through references written in place. */
  ghost predicate Follows(heap: Heap, c: RawId, places: seq<Place>, r: RawId)
    decreases |places|
  {
    if places == [] then c == r
    else c in heap && exists m :: ChildAt(heap[c], places[0], RawRef(m, "")) && Follows(heap, m, places[1..], r)
  }

  function TokensOf(places: seq<Place>): seq<string> {
    if places == [] then [] else PlaceTokens(places[0]) + TokensOf(places[1..])
  }

  /** `id` spells the component `c` and the places that lead from it to `r`. */
  ghost predicate Spells(heap: Heap, given: Given, id: string, c: RawId, places: seq<Place>, r: RawId) {
    && c in heap && IsComponent(heap, given, c) && HasKey(heap[c]) && Follows(heap, c, places, r)
    && id == heap[c].origin.value.file + "#" +
             Render(["components", "schemas", heap[c].origin.value.key] + TokensOf(places))
  }

  lemma {:induction false} FollowsOneMore(heap: Heap, c: RawId, places: seq<Place>, p: RawId, place: Place, r: RawId)
    requires Follows(heap, c, places, p) && p in heap && ChildAt(heap[p], place, RawRef(r, ""))
    ensures Follows(heap, c, places + [place], r)
    decreases |places|
  {
    var more := places + [place];
    if places == [] {
      assert more[0] == place && more[1..] == [];
      assert Follows(heap, r, more[1..], r);
    } else {
      var m :| ChildAt(heap[c], places[0], RawRef(m, "")) && Follows(heap, m, places[1..], p);
      assert more[0] == places[0] && more[1..] == places[1..] + [place];
      FollowsOneMore(heap, m, places[1..], p, place, r);
      assert Follows(heap, m, more[1..], r);
    }
  }

  lemma {:induction false} TokensOneMore(places: seq<Place>, place: Place)
    ensures TokensOf(places + [place]) == TokensOf(places) + PlaceTokens(place)
    decreases |places|
  {
    var more := places + [place];
    if places == [] {
      assert more[0] == place && more[1..] == [];
      assert TokensOf(more) == PlaceTokens(place) + [];
    } else {
      assert more[0] == places[0] && more[1..] == places[1..] + [place];
      TokensOneMore(places[1..], place);
      TokensRegroup(PlaceTokens(places[0]), TokensOf(places[1..]), PlaceTokens(place));
    }
  }

  lemma {:induction false} HashStays(s: string)
    requires EndsInHash(Escape(s))
    ensures EndsInHash(s)
  {
    if s == "" {
      EscapeStep('a', "");
    } else {
      EscapeStep(s[0], s[1..]);
      assert [s[0]] + s[1..] == s;
      if s[1..] == "" {
        EscapeStep('a', "");
      } else {
        EscapeStep(s[1], s[2..]);
        assert [s[1]] + s[2..] == s[1..];
        HashStays(s[1..]);
      }
    }
  }

  lemma PlaceEnds(identity: string, place: Place)
    requires place.InProperty? ==> !EndsInHash(place.name)
    ensures |Render(PlaceTokens(place))| > 0 && !EndsInHash(identity + Render(PlaceTokens(place)))
  {
    match place
    case InProperty(n) => PropertyEnds(identity, n);
    case InSlot(slot, i) =>
      SlotSpelled(slot, i);
      SlotEnds(slot, i);
      EndOf(identity, SlotPointer(slot, i));
  }

  lemma SlotEnds(slot: Slot, i: nat)
    ensures SlotPointer(slot, i) != "" && !EndsInHash(SlotPointer(slot, i))
  {
    if IsList(slot) {
      var s := SlotPointer(slot, i);
      assert s[|s| - 1] == Decimal(i)[|Decimal(i)| - 1];
    }
  }

  lemma PropertyEnds(identity: string, n: string)
    requires !EndsInHash(n)
    ensures var s := Render(PlaceTokens(InProperty(n)));
            s != "" && !EndsInHash(identity + s)
  {
    var s := Render(PlaceTokens(InProperty(n)));
    PropertyPointer(n);
    if EndsInHash(Escape(n)) {
      HashStays(n);
    }
    EndOf("/properties/", Escape(n));
    EndOf(identity, s);
  }

  lemma EndOf(a: string, b: string)
    ensures b != "" ==> (EndsInHash(a + b) <==> EndsInHash(b))
    ensures b == "" ==> a + b == a
  {
  }

  /** The identity of every schema spells a component and the way from it. */
  lemma {:induction false} IdentityIsSpelled(heap: Heap, s: State, r: RawId)
    requires ValidState(heap, s) && IsProper(heap, s.given) && r in s.ids
    ensures exists c, places :: Spells(heap, s.given, s.ids[r], c, places, r)
    decreases |s.ids[r]|
  {
    assert Placed(heap, s, r);
    match s.requests[r]
    case AsComponent(name, text) =>
      ComponentIsSpelled(heap, s, r, name, text);
    case AsChild(p, place, text) =>
      assert IsProperChild(heap, s.given, r, text);
      if text != "" {
        assert ReferredTo(heap, r);
        SpellsItself(heap, s.given, s.ids[r], r);
      } else {
        PlaceEnds(s.ids[p], place);
        assert |s.ids[r]| == |s.ids[p]| + |Render(PlaceTokens(place))|;
        IdentityIsSpelled(heap, s, p);
        var c, places :| Spells(heap, s.given, s.ids[p], c, places, p);
        SpellsChild(heap, s.given, s.ids[p], c, places, p, place, r);
      }
    case ByOperation(_, _) =>
      assert false;
  }

  lemma SpellsItself(heap: Heap, given: Given, id: string, r: RawId)
    requires r in heap && IsComponent(heap, given, r) && HasKey(heap[r])
    requires id == ComponentId(heap[r].origin.value.file, heap[r].origin.value.key)
    ensures Spells(heap, given, id, r, [], r)
  {
    var parts := ["components", "schemas", heap[r].origin.value.key];
    assert parts + TokensOf([]) == parts;
  }

  lemma ComponentIsSpelled(heap: Heap, s: State, r: RawId, name: string, text: string)
    requires IsProper(heap, s.given) && Placed(heap, s, r) && s.requests[r] == AsComponent(name, text)
    ensures IsComponent(heap, s.given, r)
    ensures Spells(heap, s.given, s.ids[r], r, [], r)
  {
    assert (name, RawRef(r, text)) in s.given.components;
    SpellsItself(heap, s.given, s.ids[r], r);
  }

  lemma SpellsChild(heap: Heap, given: Given, id: string, c: RawId, places: seq<Place>, p: RawId, place: Place,
                    r: RawId)
    requires Spells(heap, given, id, c, places, p) && p in heap && ChildAt(heap[p], place, RawRef(r, ""))
    ensures Spells(heap, given, id + Render(PlaceTokens(place)), c, places + [place], r)
  {
    FollowsOneMore(heap, c, places, p, place, r);
    TokensOneMore(places, place);
    var file, key := heap[c].origin.value.file, heap[c].origin.value.key;
    var parts := ["components", "schemas", key];
    RenderConcat(parts + TokensOf(places), PlaceTokens(place));
    TokensRegroup(parts, TokensOf(places), PlaceTokens(place));
    Associate(file + "#", Render(parts + TokensOf(places)), Render(PlaceTokens(place)));
  }

  lemma TokensRegroup(a: seq<string>, b: seq<string>, c: seq<string>)
    ensures a + (b + c) == a + b + c
  {
  }

  /** A place is read back from the front of the tokens. */
  lemma PlaceDecodes(raw: RawSchema, a: Place, b: Place, x: RawRef, y: RawRef, more: seq<string>, rest: seq<string>)
    requires PlaceTokens(a) + more == PlaceTokens(b) + rest && ChildAt(raw, a, x) && ChildAt(raw, b, y)
    ensures x == y && more == rest
  {
    assert (PlaceTokens(a) + more)[0] == PlaceTokens(a)[0] && (PlaceTokens(b) + rest)[0] == PlaceTokens(b)[0];
    SameKeyword(a, b);
    SameFront(PlaceTokens(a), PlaceTokens(b), more, rest);
    SamePlace(raw, a, b, x, y);
  }

  lemma SameFront(a: seq<string>, b: seq<string>, more: seq<string>, rest: seq<string>)
    requires a + more == b + rest && |a| == |b|
    ensures a == b && more == rest
  {
    assert a == (a + more)[..|a|] && b == (b + rest)[..|b|];
    assert more == (a + more)[|a|..] && rest == (b + rest)[|b|..];
  }

  lemma SamePlace(raw: RawSchema, a: Place, b: Place, x: RawRef, y: RawRef)
    requires PlaceTokens(a) == PlaceTokens(b) && ChildAt(raw, a, x) && ChildAt(raw, b, y)
    requires a.InSlot? == b.InSlot? && (a.InSlot? ==> a.slot == b.slot)
    ensures x == y
  {
    if a.InSlot? && IsList(a.slot) {
      assert PlaceTokens(a)[1] == Decimal(a.i) && PlaceTokens(b)[1] == Decimal(b.i);
      DecimalRoundTrip(a.i);
      DecimalRoundTrip(b.i);
    } else if a.InProperty? {
      assert PlaceTokens(a)[1] == a.name && PlaceTokens(b)[1] == b.name;
    }
  }

  lemma SameKeyword(a: Place, b: Place)
    requires PlaceTokens(a)[0] == PlaceTokens(b)[0]
    ensures |PlaceTokens(a)| == |PlaceTokens(b)| && a.InSlot? == b.InSlot?
    ensures a.InSlot? ==> a.slot == b.slot
  {
    var x, y := PlaceTokens(a)[0], PlaceTokens(b)[0];
    assert x[0] == y[0] && x[1] == y[1];
    if |x| > 4 {
      assert x[4] == y[4];
    }
  }

  lemma {:induction false} FollowsUnique(heap: Heap, c: RawId, p: seq<Place>, q: seq<Place>, a: RawId, b: RawId)
    requires Follows(heap, c, p, a) && Follows(heap, c, q, b) && TokensOf(p) == TokensOf(q)
    ensures a == b
    decreases |p|
  {
    if p != [] && q != [] {
      var m :| ChildAt(heap[c], p[0], RawRef(m, "")) && Follows(heap, m, p[1..], a);
      var n :| ChildAt(heap[c], q[0], RawRef(n, "")) && Follows(heap, n, q[1..], b);
      PlaceDecodes(heap[c], p[0], q[0], RawRef(m, ""), RawRef(n, ""), TokensOf(p[1..]), TokensOf(q[1..]));
      FollowsUnique(heap, m, p[1..], q[1..], a, b);
    }
  }

  /** Two schemas whose identity spells the same are the same. */
  lemma SpelledOnce(heap: Heap, given: Given, id: string, c: RawId, p: seq<Place>, r: RawId,
                    d: RawId, q: seq<Place>, x: RawId)
    requires IsProper(heap, given) && Spells(heap, given, id, c, p, r) && Spells(heap, given, id, d, q, x)
    ensures r == x
  {
    var o, u := heap[c].origin.value, heap[d].origin.value;
    var a, b := ["components", "schemas", o.key] + TokensOf(p), ["components", "schemas", u.key] + TokensOf(q);
    SplitAtHash(o.file, Render(a), u.file, Render(b));
    RenderInjective(a, b);
    assert a[2] == o.key && b[2] == u.key && a[3..] == TokensOf(p) && b[3..] == TokensOf(q);
    assert SameOrigin(heap, c, d);
    FollowsUnique(heap, c, p, q, r, x);
  }

  lemma SplitAtHash(a: string, x: string, b: string, y: string)
    requires '#' !in a && '#' !in b && a + "#" + x == b + "#" + y
    ensures a == b && x == y
  {
    var s, t := a + "#" + x, b + "#" + y;
    assert s[|a|] == '#' && t[|b|] == '#';
    assert forall i :: 0 <= i < |a| ==> s[i] == a[i];
    assert forall i :: 0 <= i < |b| ==> t[i] == b[i];
    assert |a| == |b|;
    assert s[..|a|] == a && t[..|b|] == b;
    assert s[|a| + 1..] == x && t[|b| + 1..] == y;
  }

  /** Distinct schemas of a proper document have distinct identities. */
  lemma IdentitiesAreDistinct(heap: Heap, s: State)
    requires ValidState(heap, s) && IsProper(heap, s.given)
    ensures Injective(s.ids)
  {
    forall r, x | r in s.ids && x in s.ids && s.ids[r] == s.ids[x] ensures r == x {
      IdentityIsSpelled(heap, s, r);
      IdentityIsSpelled(heap, s, x);
      var c, p :| Spells(heap, s.given, s.ids[r], c, p, r);
      var d, q :| Spells(heap, s.given, s.ids[x], d, q, x);
      SpelledOnce(heap, s.given, s.ids[r], c, p, r, d, q, x);
    }
  }

  /** First referred to by text, with a declared key in a file without a `#`. */
  ghost predicate IsPlacedByKey(heap: Heap, s: State, r: RawId) {
    r in s.ids && r in heap && r in s.requests && IsDeclared(heap[r], s.requests[r].text) && HasKey(heap[r])
  }

  /** In any document, schemas placed by their keys share an identity exactly when file and key are the same. */
  lemma KeysDecideIdentities(heap: Heap, s: State, r: RawId, x: RawId)
    requires ValidState(heap, s) && IsPlacedByKey(heap, s, r) && IsPlacedByKey(heap, s, x)
    ensures s.ids[r] == s.ids[x] <==> heap[r].origin == heap[x].origin
  {
    assert Placed(heap, s, r) && Placed(heap, s, x);
    var o, p := heap[r].origin.value, heap[x].origin.value;
    ComponentIdSpelled(o.file, o.key);
    ComponentIdSpelled(p.file, p.key);
    if s.ids[r] == s.ids[x] {
      SameParts(o.file, Escape(o.key), p.file, Escape(p.key));
      UnescapeEscape(o.key);
      UnescapeEscape(p.key);
    }
  }

  /** Stored under its file and key, with the key as its name. */
  ghost predicate StoredAsComponent(heap: Heap, s: State, r: RawId) {
    && r in heap && r in s.ids && heap[r].origin.Some? && s.ids[r] in s.schemas
    && s.ids[r] == heap[r].origin.value.file + "#/components/schemas/" + Escape(heap[r].origin.value.key)
    && s.schemas[s.ids[r]].name == heap[r].origin.value.key
  }

  /** Written in place, `ref` stands in a raw schema where its pointer below that schema says. */
  ghost predicate StandsAt(raw: RawSchema, ref: RawRef, pointer: string) {
    || (raw.items == Some(ref) && pointer == "/items")
    || (raw.additional == Some(ref) && pointer == "/additionalProperties")
    || (raw.negated == Some(ref) && pointer == "/not")
    || StandsInList(raw.allOf, ref, pointer, "/allOf/")
    || StandsInList(raw.oneOf, ref, pointer, "/oneOf/")
    || StandsInList(raw.anyOf, ref, pointer, "/anyOf/")
    || (exists n :: n in raw.properties && raw.properties[n] == ref && pointer == "/properties/" + Escape(n))
  }

  ghost predicate StandsInList(refs: seq<RawRef>, ref: RawRef, pointer: string, keyword: string) {
    exists i :: 0 <= i < |refs| && refs[i] == ref && pointer == keyword + Decimal(i)
  }

  lemma PlaceStands(raw: RawSchema, place: Place, ref: RawRef)
    requires ChildAt(raw, place, ref)
    ensures StandsAt(raw, ref, Render(PlaceTokens(place)))
  {
    match place
    case InProperty(n) => PropertyPointer(n);
    case InSlot(slot, i) =>
      SlotSpelled(slot, i);
      SlotStands(raw, slot, i, ref);
  }

  lemma SlotStands(raw: RawSchema, slot: Slot, i: nat, ref: RawRef)
    requires ChildAt(raw, InSlot(slot, i), ref)
    ensures StandsAt(raw, ref, SlotPointer(slot, i))
  {
    match slot
    case AllOf => assert StandsInList(raw.allOf, ref, SlotPointer(slot, i), "/allOf/");
    case OneOf => assert StandsInList(raw.oneOf, ref, SlotPointer(slot, i), "/oneOf/");
    case AnyOf => assert StandsInList(raw.anyOf, ref, SlotPointer(slot, i), "/anyOf/");
    case _ =>
  }

  /** Stored without a name under the identity of a schema that holds it, followed by its pointer there. */
  ghost predicate StoredInPlace(heap: Heap, s: State, r: RawId) {
    && r in s.ids && s.ids[r] in s.schemas && s.schemas[s.ids[r]].name == ""
    && exists p, pointer :: p in s.ids && p in heap && StandsAt(heap[p], RawRef(r, ""), pointer) &&
                            s.ids[r] == s.ids[p] + pointer
  }

  ghost predicate IsTarget(ids: Identities, ref: Option<RawRef>, link: Option<string>) {
    if ref.None? then link.None?
    else ref.value.RawRef? && ref.value.target in ids && link == Some(ids[ref.value.target])
  }

  /** Every link of the document schema is the identity of what the raw schema refers to under the same keyword. */
  ghost predicate LinksMatch(heap: Heap, ids: Identities, raw: RawSchema, links: Links) {
    && IsTarget(ids, raw.items, links.items)
    && IsTarget(ids, raw.additional, links.additional)
    && IsTarget(ids, raw.negated, links.negated)
    && Denotes(ids, raw.allOf, links.allOf)
    && Denotes(ids, raw.oneOf, links.oneOf)
    && Denotes(ids, raw.anyOf, links.anyOf)
    && PropertiesDone(heap, ids, raw, links.properties, raw.properties.Keys)
  }

  lemma ImageLinksMatch(heap: Heap, ids: Identities, raw: RawSchema, links: Links)
    requires IsImage(heap, ids, raw, links)
    ensures LinksMatch(heap, ids, raw, links)
  {
    assert Denotes(ids, RefsAt(raw, AllOf), LinksAt(links, AllOf));
    assert Denotes(ids, RefsAt(raw, OneOf), LinksAt(links, OneOf));
    assert Denotes(ids, RefsAt(raw, AnyOf), LinksAt(links, AnyOf));
    assert Denotes(ids, RefsAt(raw, Items), LinksAt(links, Items));
    assert Denotes(ids, RefsAt(raw, Additional), LinksAt(links, Additional));
    assert Denotes(ids, RefsAt(raw, Negated), LinksAt(links, Negated));
    SingleTarget(ids, raw.items, links.items);
    SingleTarget(ids, raw.additional, links.additional);
    SingleTarget(ids, raw.negated, links.negated);
  }

  lemma SingleTarget(ids: Identities, ref: Option<RawRef>, link: Option<string>)
    requires Denotes(ids, Singleton(ref), Singleton(link))
    ensures IsTarget(ids, ref, link)
  {
    assert ref.Some? ==> Singleton(ref)[0] == ref.value;
    assert link.Some? ==> Singleton(link)[0] == link.value;
  }

  lemma OwnName(heap: Heap, s: State, r: RawId)
    requires ValidState(heap, s) && Injective(s.ids) && r in s.ids
    ensures r in heap && r in s.requests && s.ids[r] in s.schemas
    ensures s.schemas[s.ids[r]].name == Wanted(heap[r], s.requests[r])
  {
    assert NameHolds(heap, s, s.ids[r]);
    var x :| Asks(heap, s, x, s.ids[r], s.schemas[s.ids[r]].name);
    assert x == r;
  }

  lemma OwnInfo(heap: Heap, s: State, r: RawId)
    requires ValidState(heap, s) && Injective(s.ids) && r in s.ids
    ensures r in heap && s.ids[r] in s.schemas && s.schemas[s.ids[r]].info == heap[r].info
  {
    assert OwnedWell(heap, s, s.ids[r]);
  }

  lemma ComponentsAreStored(heap: Heap, s: State, r: RawId)
    requires ValidState(heap, s) && IsProper(heap, s.given) && r in s.ids && IsComponent(heap, s.given, r)
    ensures StoredAsComponent(heap, s, r)
  {
    IdentitiesAreDistinct(heap, s);
    OwnName(heap, s, r);
    assert Placed(heap, s, r);
    match s.requests[r]
    case AsComponent(name, text) =>
      ComponentIsSpelled(heap, s, r, name, text);
      ComponentIdSpelled(heap[r].origin.value.file, heap[r].origin.value.key);
    case AsChild(p, place, text) =>
      assert IsProperChild(heap, s.given, r, text);
      ComponentIdSpelled(heap[r].origin.value.file, heap[r].origin.value.key);
    case ByOperation(_, _) =>
      assert false;
  }

  lemma OthersAreStoredInPlace(heap: Heap, s: State, r: RawId)
    requires ValidState(heap, s) && IsProper(heap, s.given) && r in s.ids && !IsComponent(heap, s.given, r)
    ensures StoredInPlace(heap, s, r)
  {
    IdentitiesAreDistinct(heap, s);
    OwnName(heap, s, r);
    assert Placed(heap, s, r);
    match s.requests[r]
    case AsComponent(_, _) =>
      assert false;
    case ByOperation(_, _) =>
      assert false;
    case AsChild(p, place, text) =>
      assert text == "" by {
        if text != "" {
          assert ReferredTo(heap, r);
        }
      }
      PlaceStands(heap[p], place, RawRef(r, ""));
      PlaceEnds(s.ids[p], place);
  }

  /**
   * Raw schema `r` is stored exactly if a root reaches it: under an identity of its own, which is its file and key
   * or its place, and with the identities of its own references.
   */
  ghost predicate StoredExactly(heap: Heap, s: State, roots: set<RawId>, r: RawId) {
    && (r in s.ids <==> FromRoots(heap, roots, r))
    && (r in s.ids ==>
          && r in heap && s.ids[r] in s.schemas && Unresolved !in Children(heap[r])
          && LinksMatch(heap, s.ids, heap[r], s.schemas[s.ids[r]].links)
          && s.schemas[s.ids[r]].info == heap[r].info
          && if IsComponent(heap, s.given, r) then StoredAsComponent(heap, s, r) else StoredInPlace(heap, s, r))
  }

  ghost predicate IsExact(heap: Heap, s: State, roots: set<RawId>) {
    forall r {:trigger StoredExactly(heap, s, roots, r)} :: StoredExactly(heap, s, roots, r)
  }

  /** The exact image of a proper document needs no assumption about identities. */
  lemma ProperDocumentIsExact(heap: Heap, s: State, roots: set<RawId>)
    requires Normalized(heap, s, roots) && IsProper(heap, s.given)
    ensures Injective(s.ids) && IsExact(heap, s, roots)
  {
    IdentitiesAreDistinct(heap, s);
    forall r ensures StoredExactly(heap, s, roots, r) {
      DocumentIsExactImage(heap, s, roots, r);
      if r in s.ids {
        OwnInfo(heap, s, r);
        if IsComponent(heap, s.given, r) {
          ComponentsAreStored(heap, s, r);
        } else {
          OthersAreStoredInPlace(heap, s, r);
        }
      }
    }
  }

  /** The loop over the component schemas, which are given in name order. */
  method NormalizeComponents(heap: Heap, rootPath: string, names: seq<string>, refs: seq<RawRef>)
    returns (ok: bool, schemas: map<string, Schema>, order: seq<string>, ghost s: State)
    requires ClosedHeap(heap) && |names| == |refs|
    requires forall r :: r in refs && r.RawRef? ==> r.target in heap
    ensures s.given == Given(rootPath, Components(names, refs), {})
    ensures ok ==> schemas == s.schemas && order == s.refs && Normalized(heap, s, Roots(refs, |refs|))
    ensures ok && IsProper(heap, s.given) ==> Injective(s.ids) && IsExact(heap, s, Roots(refs, |refs|))
    ensures ok ==> Unresolved !in refs
    ensures !ok ==> AnyBroken(heap, refs)
  {
    ghost var components := Components(names, refs);
    var normalizer := new Normalizer(heap, rootPath, components, {});
    NormalizedNothing(heap, Given(rootPath, components, {}));
    ok := normalizer.EnsureComponents(names, refs);
    if ok {
      ResolvedMeans(refs, |refs|);
      assert refs[..|refs|] == refs;
    }
    s := normalizer.Snapshot();
    if ok && IsProper(heap, s.given) {
      ProperDocumentIsExact(heap, s, Roots(refs, |refs|));
    }
    schemas, order := normalizer.schemas, normalizer.documentRefs;
  }
}
