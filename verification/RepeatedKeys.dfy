/**
 * A document in which one mapping has two `$ref` entries. The scan records both, and the search accepts a cycle
 * that contains references which are no schema references.
 */
module RepeatedKeys {
  import opened Text
  import opened Pointers
  import opened Reachability
  import opened Preflight
  import opened ReferenceCycles

  const FILE: string := "openapi.yaml"
  const A: Location := Location(FILE, "/schemas/A")
  const B: Location := Location(FILE, "/schemas/B")
  const C: Location := Location(FILE, "/C")

  const AT_A: Node := Mapping([("$ref", Scalar("b")), ("$ref", Scalar("c"))])
  const AT_B: Node := Mapping([("$ref", Scalar("a"))])
  const AT_C: Node := Mapping([("$ref", Scalar("b"))])
  const SCHEMAS: Node := Mapping([("A", AT_A), ("B", AT_B)])
  const DOCUMENT: Node := Mapping([("schemas", SCHEMAS), ("C", AT_C)])

  function Locate(file: File, text: string): Option<Location> {
    if text == "a" then Some(A) else if text == "b" then Some(B) else if text == "c" then Some(C) else None
  }

  const WORLD: World := World(map[FILE := DOCUMENT], Locate, _ => true)

  /** What the scan of the document leaves. */
  const SCANNED: State := State(map[FILE := DOCUMENT], HidingEdges(A, B, C), {FILE})

  const REFS: seq<Ref> :=
    [Ref("/schemas/A", "b"), Ref("/schemas/A", "c"), Ref("/schemas/B", "a"), Ref("/C", "b")]

  // ---- the references of the document ----

  lemma OneEntry(e: (string, Node), p: string)
    ensures Refs(Mapping([e]), p) == RefsOfChild(Mapping([e]), p, 0)
  {
    var node := Mapping([e]);
    assert RefsUpTo(node, p, 1) == RefsUpTo(node, p, 0) + RefsOfChild(node, p, 0);
  }

  lemma TwoEntries(e: (string, Node), f: (string, Node), p: string)
    ensures Refs(Mapping([e, f]), p) == RefsOfChild(Mapping([e, f]), p, 0) + RefsOfChild(Mapping([e, f]), p, 1)
  {
    var node := Mapping([e, f]);
    assert RefsUpTo(node, p, 1) == RefsUpTo(node, p, 0) + RefsOfChild(node, p, 0);
    assert RefsUpTo(node, p, 2) == RefsUpTo(node, p, 1) + RefsOfChild(node, p, 1);
  }

  ghost predicate IsPlain(key: string) {
    '~' !in key && '/' !in key && key != "$ref"
  }

  /** The references below two plain keys. */
  lemma TwoChildren(k: string, x: Node, l: string, y: Node, p: string)
    requires IsPlain(k) && IsPlain(l)
    ensures Refs(Mapping([(k, x), (l, y)]), p) == Refs(x, p + "/" + k) + Refs(y, p + "/" + l)
  {
    EscapesToItself(k);
    EscapesToItself(l);
    TwoEntries((k, x), (l, y), p);
  }

  lemma RefsOfSchemas(p: string)
    ensures Refs(SCHEMAS, p) == [Ref(p + "/" + "A", "b"), Ref(p + "/" + "A", "c"), Ref(p + "/" + "B", "a")]
  {
    TwoChildren("A", AT_A, "B", AT_B, p);
    TwoEntries(("$ref", Scalar("b")), ("$ref", Scalar("c")), p + "/" + "A");
    OneEntry(("$ref", Scalar("a")), p + "/" + "B");
  }

  lemma RefsOfDocument()
    ensures Refs(DOCUMENT, "") == REFS
  {
    TwoChildren("schemas", SCHEMAS, "C", AT_C, "");
    RefsOfSchemas("" + "/" + "schemas");
    OneEntry(("$ref", Scalar("b")), "" + "/" + "C");
    assert "" + "/" + "schemas" + "/" + "A" == A.pointer && "" + "/" + "schemas" + "/" + "B" == B.pointer;
    assert "" + "/" + "C" == C.pointer;
  }

  // ---- the edges the scan records ----

  lemma WhichAreSchemas()
    ensures Contains(A.pointer, "/schemas/") && Contains(B.pointer, "/schemas/") && !Contains(C.pointer, "/schemas/")
  {
    assert "/schemas/" <= A.pointer[0..] && "/schemas/" <= B.pointer[0..];
  }

  lemma EdgeTo(p: string, text: string, target: Location)
    requires Locate(FILE, text) == Some(target) && HasPrefix(target.pointer, "/")
    ensures EdgesAt(WORLD, FILE, Ref(p, text)) ==
            [ReferenceEdge(Location(FILE, p), target,
                           Contains(p, "/schemas/") && Contains(target.pointer, "/schemas/"))]
  {
  }

  lemma EdgesOfDocument()
    ensures EdgesOf(WORLD, FILE, REFS) == HidingEdges(A, B, C)
  {
    WhichAreSchemas();
    EdgeTo(A.pointer, "b", B);
    EdgeTo(A.pointer, "c", C);
    EdgeTo(B.pointer, "a", A);
    EdgeTo(C.pointer, "b", B);
    EdgesOfFour(REFS[0], REFS[1], REFS[2], REFS[3]);
  }

  lemma EdgesOfFour(r0: Ref, r1: Ref, r2: Ref, r3: Ref)
    ensures EdgesOf(WORLD, FILE, [r0, r1, r2, r3]) ==
            EdgesAt(WORLD, FILE, r0)
            + (EdgesAt(WORLD, FILE, r1) + (EdgesAt(WORLD, FILE, r2) + EdgesAt(WORLD, FILE, r3)))
  {
    var refs := [r0, r1, r2, r3];
    EdgesOne(refs, 0);
    EdgesOne(refs, 1);
    EdgesOne(refs, 2);
    EdgesOne(refs, 3);
    assert refs[0..] == refs && refs[4..] == [];
    assert EdgesAt(WORLD, FILE, r3) + [] == EdgesAt(WORLD, FILE, r3);
  }

  lemma EdgesOne(refs: seq<Ref>, i: nat)
    requires i < |refs|
    ensures EdgesOf(WORLD, FILE, refs[i..]) == EdgesAt(WORLD, FILE, refs[i]) + EdgesOf(WORLD, FILE, refs[i + 1..])
  {
    assert refs[i..][1..] == refs[i + 1..];
  }

  lemma {:induction false} AllFromFile(edges: seq<ReferenceEdge>)
    requires forall e :: e in edges ==> e.from.file == FILE
    ensures EdgesFrom(edges, FILE) == edges
  {
    if edges != [] {
      var n := |edges| - 1;
      AllFromFile(edges[..n]);
      assert edges == edges[..n] + [edges[n]];
    }
  }

  /** A mapping outside `/paths` whose children are identified or references. */
  lemma OutsidePaths(entries: seq<(string, Node)>, p: string)
    requires !HasPrefix(p, "/paths/")
    requires forall i :: 0 <= i < |entries| ==>
      IsReference(entries[i]) || Identified(entries[i].1, p + "/" + Escape(entries[i].0))
    ensures Identified(Mapping(entries), p)
  {
  }

  /** Two children below plain keys, outside `/paths`. */
  lemma TwoOutsidePaths(k: string, x: Node, l: string, y: Node, p: string)
    requires IsPlain(k) && IsPlain(l) && !HasPrefix(p, "/paths/")
    requires Identified(x, p + "/" + k) && Identified(y, p + "/" + l)
    ensures Identified(Mapping([(k, x), (l, y)]), p)
  {
    EscapesToItself(k);
    EscapesToItself(l);
    OutsidePaths([(k, x), (l, y)], p);
  }

  lemma NotBelowPaths(p: string, q: string)
    requires |p| > 1 && p[1] != 'p'
    ensures !HasPrefix(p, "/paths/") && !HasPrefix(p + "/" + q, "/paths/")
  {
    assert "/paths/"[1] == 'p' && (p + "/" + q)[1] == p[1];
  }

  lemma OnlyReferences(entries: seq<(string, Node)>, p: string, q: string)
    requires |p| > 1 && p[1] != 'p' && forall i :: 0 <= i < |entries| ==> IsReference(entries[i])
    ensures Identified(Mapping(entries), p + "/" + q)
  {
    NotBelowPaths(p, q);
    OutsidePaths(entries, p + "/" + q);
  }

  lemma SchemasAreIdentified(p: string)
    requires |p| > 1 && p[1] != 'p'
    ensures Identified(SCHEMAS, p)
  {
    BothOnlyReferences("A", AT_A.entries, "B", AT_B.entries, p);
  }

  lemma BothOnlyReferences(k: string, x: seq<(string, Node)>, l: string, y: seq<(string, Node)>, p: string)
    requires IsPlain(k) && IsPlain(l) && |p| > 1 && p[1] != 'p'
    requires forall i :: 0 <= i < |x| ==> IsReference(x[i])
    requires forall i :: 0 <= i < |y| ==> IsReference(y[i])
    ensures Identified(Mapping([(k, Mapping(x)), (l, Mapping(y))]), p)
  {
    OnlyReferences(x, p, k);
    OnlyReferences(y, p, l);
    NotBelowPaths(p, "");
    TwoOutsidePaths(k, Mapping(x), l, Mapping(y), p);
  }

  lemma DocumentIsIdentified()
    ensures Identified(DOCUMENT, "")
  {
    SchemasAreIdentified("" + "/" + "schemas");
    NotBelowPaths("" + "/" + "C", "");
    OutsidePaths(AT_C.entries, "" + "/" + "C");
    TwoOutsidePaths("schemas", SCHEMAS, "C", AT_C, "");
  }

  lemma DocumentIsScanned()
    ensures Scanned(WORLD, EMPTY, SCANNED, FILE)
  {
    RefsOfDocument();
    DocumentIsFollowed();
    EdgesOfDocument();
    DocumentIsIdentified();
    OneFile(WORLD, SCANNED, REFS);
  }

  /** What makes a single file scanned. */
  lemma OneFile(w: World, s: State, refs: seq<Ref>)
    requires FILE in w.files && Identified(w.files[FILE], "") && Refs(w.files[FILE], "") == refs
    requires s.documents == map[FILE := w.files[FILE]] && s.allowed == {FILE} && s.edges == EdgesOf(w, FILE, refs)
    requires Followed(w, s, FILE, refs)
    requires forall e :: e in s.edges ==> e.from.file == FILE && e.to.file == FILE
    ensures Scanned(w, EMPTY, s, FILE)
  {
    AllFromFile(s.edges);
    assert Complete(w, s, FILE);
    ReachesSelf(FileGraph(w), {}, FILE);
  }

  lemma DocumentIsFollowed()
    ensures Followed(WORLD, SCANNED, FILE, REFS)
  {
  }

  // ---- every target is there ----

  lemma TargetsResolve()
    ensures forall e :: e in SCANNED.edges ==> Resolved(SCANNED.documents, e)
  {
    FindsA();
    FindsB();
    FindsC();
    EdgesResolve(A, B, C, SCANNED.documents);
  }

  lemma EdgesResolve(a: Location, b: Location, c: Location, documents: map<File, Node>)
    requires a.file in documents && Resolve(documents[a.file], a.pointer).Some?
    requires b.file in documents && Resolve(documents[b.file], b.pointer).Some?
    requires c.file in documents && Resolve(documents[c.file], c.pointer).Some?
    ensures forall e :: e in HidingEdges(a, b, c) ==> Resolved(documents, e)
  {
  }

  lemma FindsA()
    ensures Resolve(DOCUMENT, A.pointer).Some?
  {
    Finds(DOCUMENT, "schemas", SCHEMAS, "A", AT_A);
    assert "/" + "schemas" + "/" + "A" == A.pointer;
  }

  lemma FindsB()
    ensures Resolve(DOCUMENT, B.pointer).Some?
  {
    Finds(DOCUMENT, "schemas", SCHEMAS, "B", AT_B);
    assert "/" + "schemas" + "/" + "B" == B.pointer;
  }

  lemma FindsC()
    ensures Resolve(DOCUMENT, C.pointer).Some?
  {
    FindsTop(DOCUMENT, "C", AT_C);
    assert "/" + "C" == C.pointer;
  }

  lemma FindsTop(root: Node, x: string, target: Node)
    requires IsPlain(x) && root.Mapping? && FirstEntry(root.entries, x) == Some(target)
    ensures Resolve(root, "/" + x).Some?
  {
    EscapesToItself(x);
    TokensRender([x]);
    assert [x][1..] == [];
    assert Render([x]) == "/" + x + Render([]) == "/" + x;
    assert Descend(root, [x]) == Descend(target, []);
  }

  lemma Finds(root: Node, x: string, inner: Node, y: string, target: Node)
    requires IsPlain(x) && IsPlain(y) && root.Mapping? && FirstEntry(root.entries, x) == Some(inner)
    requires inner.Mapping? && FirstEntry(inner.entries, y) == Some(target)
    ensures Resolve(root, "/" + x + "/" + y).Some?
  {
    EscapesToItself(x);
    EscapesToItself(y);
    PointerOfTwo(x, y);
    assert [x, y][1..] == [y] && [y][1..] == [];
    assert Descend(inner, [y]) == Descend(target, []);
  }

  lemma PointerOfTwo(x: string, y: string)
    requires Escape(x) == x && Escape(y) == y
    ensures HasPrefix("/" + x + "/" + y, "/") && Tokens("/" + x + "/" + y) == [x, y]
  {
    TokensRender([x, y]);
    assert [x, y][1..] == [y] && [y][1..] == [];
    assert Render([y]) == "/" + y;
    assert Render([x, y]) == "/" + x + ("/" + y) == "/" + x + "/" + y;
  }

  lemma KeysRepeat()
    ensures !UniqueKeys(DOCUMENT)
  {
    assert AT_A.entries[0].0 == AT_A.entries[1].0;
    assert !UniqueKeys(AT_A);
    assert SCHEMAS.entries[0].1 == AT_A;
    assert !UniqueKeys(SCHEMAS);
    assert DOCUMENT.entries[0].1 == SCHEMAS;
  }

  /** The whole check accepts this document in one order, although a cycle leaves the schemas and comes back. */
  lemma RepeatedRefHidesACycle()
    ensures Scanned(WORLD, EMPTY, SCANNED, FILE) && !UniqueKeys(DOCUMENT)
    ensures forall e :: e in SCANNED.edges ==> Resolved(SCANNED.documents, e)
    ensures IsOrder(SCANNED.edges, [A, B, C]) && Accepts(SCANNED.edges, [A, B, C])
    ensures exists w: seq<ReferenceEdge> :: Cycle(SCANNED.edges, w) && !AllSchema(w)
  {
    DocumentIsScanned();
    TargetsResolve();
    TwoEdgesCanHideACycle(A, B, C);
    KeysRepeat();
  }
}
