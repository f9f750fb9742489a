/**
 * The bounded reference preflight: it reads the root document, walks every node tree, records one edge
 * per `$ref` and reads every referenced file once, also when files refer to each other in cycles.
 */
module Preflight {
  import opened Text
  import opened Pointers
  import opened Reachability

  type File = string

  datatype Location = Location(file: File, pointer: string)

  datatype ReferenceEdge = ReferenceEdge(from: Location, to: Location, isSchema: bool)

  /** A `$ref` as found in a tree: the pointer of its mapping and the text of its value. */
  datatype Ref = Ref(pointer: string, text: string)

  /**
   * What the scanner sees of its surroundings. `files` holds the document node of every file that can be
   * read and parsed; `locate` stands for URL parsing and path canonicalisation; `within` is the check
   * against the configured document roots.
   */
  datatype World = World(
    files: map<File, Node>,
    locate: (File, string) -> Option<Location>,
    within: File -> bool)

  /** The text of a reference in `file` names `t`, which is within the roots and has a pointer for its fragment. */
  predicate Located(w: World, file: File, text: string, t: Location) {
    w.locate(file, text) == Some(t) && w.within(t.file) && (t.pointer == "" || HasPrefix(t.pointer, "/"))
  }

  /** `resolveReference`: the target must lie within the roots and its fragment must be a pointer. */
  function ResolveReference(w: World, file: File, text: string): (r: Option<Location>)
    ensures forall t :: r == Some(t) <==> Located(w, file, text, t)
  {
    match w.locate(file, text)
    case None => None
    case Some(target) =>
      if !w.within(target.file) then None
      else if target.pointer != "" && !HasPrefix(target.pointer, "/") then None
      else Some(target)
  }

  // ---- what a tree contains ----

  function Width(node: Node): nat {
    match node
    case Mapping(entries) => |entries|
    case Sequence(items) => |items|
    case _ => 0
  }

  predicate IsReference(entry: (string, Node)) {
    entry.0 == "$ref" && entry.1.Scalar?
  }

  /** The references of a tree, in walk order. */
  function Refs(node: Node, pointer: string): seq<Ref>
    decreases node, 1, 0
  {
    RefsUpTo(node, pointer, Width(node))
  }

  function RefsUpTo(node: Node, pointer: string, n: nat): seq<Ref>
    requires n <= Width(node)
    decreases node, 0, n
  {
    if n == 0 then [] else RefsUpTo(node, pointer, n - 1) + RefsOfChild(node, pointer, n - 1)
  }

  function RefsOfChild(node: Node, pointer: string, i: nat): seq<Ref>
    requires i < Width(node)
    decreases node, 0, i
  {
    match node
    case Mapping(entries) =>
      var entry := entries[i];
      if IsReference(entry) then [Ref(pointer, entry.1.text)]
      else Refs(entry.1, pointer + "/" + Escape(entry.0))
    case Sequence(items) => Refs(items[i], pointer + "/" + Decimal(i))
  }

  // ---- operations of path items ----

  /** Whitespace as `strings.TrimSpace` knows it. */
  predicate IsSpace(c: char) {
    var n := c as int;
    || 9 <= n <= 13 || n == 32 || n == 0x85 || n == 0xA0 || n == 0x1680 || 0x2000 <= n <= 0x200A
    || n == 0x2028 || n == 0x2029 || n == 0x202F || n == 0x205F || n == 0x3000
  }

  predicate IsBlank(s: string) {
    forall c :: c in s ==> IsSpace(c)
  }

  /** `strings.ToLower` as far as the result can be an ASCII letter. */
  function LowerChar(c: char): char {
    if 'A' <= c <= 'Z' then c + 'a' - 'A'
    else if c as int == 0x130 then 'i'
    else if c as int == 0x212A then 'k'
    else c
  }

  function Lower(s: string): string {
    if s == "" then "" else [LowerChar(s[0])] + Lower(s[1..])
  }

  const METHODS: set<string> := {"connect", "delete", "get", "head", "options", "patch", "post", "put", "trace"}

  /** The pointer of a direct child of `/paths`. */
  predicate IsPathItemPointer(pointer: string) {
    HasPrefix(pointer, "/paths/") && '/' !in pointer[|"/paths/"|..]
  }

  /** The text of a node as the parser keeps it: mappings and sequences have none. */
  function ValueOf(node: Node): string {
    match node
    case Scalar(text) => text
    case Other(value) => value
    case _ => ""
  }

  predicate HasOperationId(entries: seq<(string, Node)>) {
    var id := FirstEntry(entries, "operationId");
    id.Some? && !IsBlank(ValueOf(id.value))
  }

  /** An entry of a path item that is no operation, or an operation with an identifier. */
  predicate EntryIdentified(entry: (string, Node)) {
    Lower(entry.0) in METHODS && entry.1.Mapping? ==> HasOperationId(entry.1.entries)
  }

  predicate OperationsIdentified(node: Node, pointer: string) {
    node.Mapping? && IsPathItemPointer(pointer) ==>
      forall i :: 0 <= i < |node.entries| ==> EntryIdentified(node.entries[i])
  }

  /** Every operation the walk of this tree meets has an identifier. */
  predicate Identified(node: Node, pointer: string)
    decreases node, 2
  {
    OperationsIdentified(node, pointer) && ChildrenIdentified(node, pointer, Width(node))
  }

  predicate ChildrenIdentified(node: Node, pointer: string, n: nat)
    requires n <= Width(node)
    decreases node, 1
  {
    forall i {:trigger ChildIdentified(node, pointer, i)} :: 0 <= i < n ==> ChildIdentified(node, pointer, i)
  }

  predicate ChildIdentified(node: Node, pointer: string, i: nat)
    requires i < Width(node)
    decreases node, 0
  {
    match node
    case Mapping(entries) => IsReference(entries[i]) || Identified(entries[i].1, pointer + "/" + Escape(entries[i].0))
    case Sequence(items) => Identified(items[i], pointer + "/" + Decimal(i))
  }

  // ---- edges ----

  predicate Resolves(w: World, file: File, ref: Ref) {
    ResolveReference(w, file, ref.text).Some?
  }

  function TargetOf(w: World, file: File, ref: Ref): Location
    requires Resolves(w, file, ref)
  {
    ResolveReference(w, file, ref.text).value
  }

  function EdgeOf(w: World, file: File, ref: Ref): ReferenceEdge
    requires Resolves(w, file, ref)
  {
    var to := TargetOf(w, file, ref);
    ReferenceEdge(Location(file, ref.pointer), to,
                  Contains(ref.pointer, "/schemas/") && Contains(to.pointer, "/schemas/"))
  }

  /** The edges of the references that resolve, in order. */
  function EdgesOf(w: World, file: File, refs: seq<Ref>): seq<ReferenceEdge> {
    if refs == [] then [] else EdgesAt(w, file, refs[0]) + EdgesOf(w, file, refs[1..])
  }

  function EdgesAt(w: World, file: File, ref: Ref): seq<ReferenceEdge> {
    if Resolves(w, file, ref) then [EdgeOf(w, file, ref)] else []
  }

  /** The references of a whole file. */
  function FileRefs(w: World, file: File): seq<Ref>
    requires file in w.files
  {
    Refs(w.files[file], "")
  }

  /** File `f` points at file `t` when one of its references resolves there. */
  function FileGraph(w: World): Graph<File> {
    map f | f in w.files ::
      set r | r in FileRefs(w, f) && Resolves(w, f, r) :: TargetOf(w, f, r).file
  }

  /** A file that can be read, whose operations have identifiers and whose references all resolve. */
  ghost predicate Sound(w: World, file: File) {
    && file in w.files && Identified(w.files[file], "")
    && forall r :: r in FileRefs(w, file) ==> Resolves(w, file, r)
  }

  // ---- the scanner's state ----

  datatype State = State(documents: map<File, Node>, edges: seq<ReferenceEdge>, allowed: set<File>)

  function EdgesFrom(edges: seq<ReferenceEdge>, file: File): seq<ReferenceEdge> {
    if edges == [] then []
    else
      var last := edges[|edges| - 1];
      EdgesFrom(edges[..|edges| - 1], file) + if last.from.file == file then [last] else []
  }

  lemma {:induction false} EdgesFromContents(edges: seq<ReferenceEdge>, file: File, e: ReferenceEdge)
    ensures e in EdgesFrom(edges, file) <==> e in edges && e.from.file == file
  {
    if edges != [] {
      EdgesFromContents(edges[..|edges| - 1], file, e);
      assert edges == edges[..|edges| - 1] + [edges[|edges| - 1]];
    }
  }

  ghost predicate ValidState(w: World, s: State) {
    && (forall f :: f in s.documents ==> f in w.files && s.documents[f] == w.files[f])
    && s.allowed == s.documents.Keys
    && (forall e :: e in s.edges ==> e.from.file in s.documents && e.to.file in s.documents)
  }

  /** Every reference of `refs` has been followed into a scanned file. */
  ghost predicate Followed(w: World, s: State, file: File, refs: seq<Ref>) {
    forall r :: r in refs ==> Resolves(w, file, r) && TargetOf(w, file, r).file in s.documents
  }

  /** A fully scanned file: its operations are identified, its references followed and its edges recorded in order. */
  ghost predicate Complete(w: World, s: State, file: File) {
    && file in s.documents
    && file in w.files && Identified(w.files[file], "")
    && Followed(w, s, file, FileRefs(w, file))
    && EdgesFrom(s.edges, file) == EdgesOf(w, file, FileRefs(w, file))
  }

  /** Some file that `path` leads to is not sound. */
  ghost predicate Doomed(w: World, path: File) {
    exists f {:trigger Sound(w, f)} :: Reaches(FileGraph(w), path, f) && !Sound(w, f)
  }

  /** The files added since `s0` are complete, reachable from `path`, and within the document roots. */
  ghost predicate Added(w: World, s0: State, s1: State, path: File) {
    && s0.documents.Keys <= s1.documents.Keys
    && (forall g {:trigger Complete(w, s1, g)} :: g in s1.documents && g !in s0.documents ==>
          Complete(w, s1, g) && Reaches(FileGraph(w), path, g) && (g == path || w.within(g)))
  }

  /** The edges of the files of `s0`, except those in `but`, are as they were. */
  ghost predicate Kept(s0: State, s1: State, but: set<File>) {
    forall g {:trigger EdgesFrom(s1.edges, g)} ::
      g in s0.documents && g !in but ==> EdgesFrom(s1.edges, g) == EdgesFrom(s0.edges, g)
  }

  /** Scanning `path` leaves earlier files alone and completes every file it adds. */
  ghost predicate Scanned(w: World, s0: State, s1: State, path: File) {
    && ValidState(w, s1) && path in s1.documents
    && Added(w, s0, s1, path)
    && Kept(s0, s1, {})
  }

  /** Walking a part of `path` with references `refs` also follows them and records their edges. */
  ghost predicate Walked(w: World, s0: State, s1: State, path: File, refs: seq<Ref>) {
    && ValidState(w, s1) && path in s0.documents
    && Added(w, s0, s1, path)
    && Kept(s0, s1, {path})
    && Recorded(w, s0, s1, path, refs)
  }

  ghost predicate Recorded(w: World, s0: State, s1: State, path: File, refs: seq<Ref>) {
    && Followed(w, s1, path, refs)
    && EdgesFrom(s1.edges, path) == EdgesFrom(s0.edges, path) + EdgesOf(w, path, refs)
  }

  lemma WalkedNothing(w: World, s: State, path: File)
    requires ValidState(w, s) && path in s.documents
    ensures Walked(w, s, s, path, [])
  {
    assert EdgesOf(w, path, []) == [];
  }

  lemma CompleteKept(w: World, s1: State, s2: State, g: File)
    requires Complete(w, s1, g) && s1.documents.Keys <= s2.documents.Keys
    requires EdgesFrom(s2.edges, g) == EdgesFrom(s1.edges, g)
    ensures Complete(w, s2, g)
  {
  }

  lemma EdgeConcat(a: seq<ReferenceEdge>, b: seq<ReferenceEdge>, c: seq<ReferenceEdge>)
    ensures a + (b + c) == a + b + c
  {
  }

  lemma {:induction false} EdgesOfBoth(w: World, path: File, first: seq<Ref>, second: seq<Ref>)
    ensures EdgesOf(w, path, first + second) == EdgesOf(w, path, first) + EdgesOf(w, path, second)
  {
    if first == [] {
      assert first + second == second;
    } else {
      EdgesOfBoth(w, path, first[1..], second);
      assert (first + second)[1..] == first[1..] + second;
      EdgeConcat(EdgesAt(w, path, first[0]), EdgesOf(w, path, first[1..]), EdgesOf(w, path, second));
    }
  }

  lemma RecordedBoth(w: World, s0: State, s1: State, s2: State, path: File, first: seq<Ref>, second: seq<Ref>)
    requires Recorded(w, s0, s1, path, first) && Recorded(w, s1, s2, path, second)
    requires s1.documents.Keys <= s2.documents.Keys
    ensures Recorded(w, s0, s2, path, first + second)
  {
    EdgesOfBoth(w, path, first, second);
    EdgeConcat(EdgesFrom(s0.edges, path), EdgesOf(w, path, first), EdgesOf(w, path, second));
  }

  lemma AddedBoth(w: World, s0: State, s1: State, s2: State, path: File)
    requires path in s0.documents
    requires Added(w, s0, s1, path) && Added(w, s1, s2, path) && Kept(s1, s2, {path})
    ensures Added(w, s0, s2, path)
  {
    forall g | g in s2.documents && g !in s0.documents
      ensures Complete(w, s2, g) && Reaches(FileGraph(w), path, g) && (g == path || w.within(g))
    {
      if g in s1.documents {
        CompleteKept(w, s1, s2, g);
      }
    }
  }

  lemma WalkedBoth(w: World, s0: State, s1: State, s2: State, path: File, first: seq<Ref>, second: seq<Ref>)
    requires Walked(w, s0, s1, path, first) && Walked(w, s1, s2, path, second)
    ensures Walked(w, s0, s2, path, first + second)
  {
    AddedBoth(w, s0, s1, s2, path);
    RecordedBoth(w, s0, s1, s2, path, first, second);
  }

  lemma EdgesFromAppend(edges: seq<ReferenceEdge>, e: ReferenceEdge, file: File)
    ensures EdgesFrom(edges + [e], file) ==
            EdgesFrom(edges, file) + if e.from.file == file then [e] else []
  {
    assert (edges + [e])[..|edges|] == edges;
  }

  lemma EdgeInGraph(w: World, file: File, ref: Ref)
    requires file in w.files && ref in FileRefs(w, file) && Resolves(w, file, ref)
    ensures Edge(FileGraph(w), file, TargetOf(w, file, ref).file)
  {
  }

  /** Scanning the target of a reference and recording its edge walks that reference. */
  lemma ScannedThenRecorded(w: World, s0: State, s1: State, s2: State, path: File, ref: Ref)
    requires ValidState(w, s0) && path in s0.documents
    requires ref in FileRefs(w, path) && Resolves(w, path, ref)
    requires Scanned(w, s0, s1, TargetOf(w, path, ref).file)
    requires s2 == s1.(edges := s1.edges + [EdgeOf(w, path, ref)])
    ensures Walked(w, s0, s2, path, [ref])
  {
    var e, t := EdgeOf(w, path, ref), TargetOf(w, path, ref).file;
    EdgeInGraph(w, path, ref);
    EdgesFromAppend(s1.edges, e, path);
    assert EdgesOf(w, path, [ref]) == [e];
    forall g | g in s1.documents && g != path
      ensures EdgesFrom(s2.edges, g) == EdgesFrom(s1.edges, g)
    {
      EdgesFromAppend(s1.edges, e, g);
    }
    AddedThrough(w, s0, s1, s2, path, t);
  }

  /** What scanning the target of an edge adds, seen from the source of the edge. */
  lemma AddedThrough(w: World, s0: State, s1: State, s2: State, path: File, t: File)
    requires path in s0.documents && Edge(FileGraph(w), path, t) && Added(w, s0, s1, t)
    requires t in s0.documents || w.within(t)
    requires s2.documents == s1.documents
    requires forall g :: g in s1.documents && g != path ==> EdgesFrom(s2.edges, g) == EdgesFrom(s1.edges, g)
    ensures Added(w, s0, s2, path)
  {
    forall g | g in s2.documents && g !in s0.documents
      ensures Complete(w, s2, g) && Reaches(FileGraph(w), path, g) && (g == path || w.within(g))
    {
      assert Complete(w, s1, g);
      ReachesStep(FileGraph(w), {}, path, t, g);
      CompleteKept(w, s1, s2, g);
    }
  }

  lemma DoomedThroughReference(w: World, path: File, ref: Ref)
    requires path in w.files && ref in FileRefs(w, path)
    requires Resolves(w, path, ref) ==> Doomed(w, TargetOf(w, path, ref).file)
    ensures Doomed(w, path)
  {
    if Resolves(w, path, ref) {
      var t := TargetOf(w, path, ref).file;
      var f :| Reaches(FileGraph(w), t, f) && !Sound(w, f);
      EdgeInGraph(w, path, ref);
      ReachesStep(FileGraph(w), {}, path, t, f);
    } else {
      ReachesSelf(FileGraph(w), {}, path);
      assert !Sound(w, path);
    }
  }

  lemma {:induction false} NoEdgesYet(edges: seq<ReferenceEdge>, file: File)
    requires forall e :: e in edges ==> e.from.file != file
    ensures EdgesFrom(edges, file) == []
  {
    if edges != [] {
      NoEdgesYet(edges[..|edges| - 1], file);
    }
  }

  /** Walking a whole new file completes it. */
  lemma WalkedFileIsScanned(w: World, s0: State, s1: State, s2: State, path: File)
    requires ValidState(w, s0) && path !in s0.documents && path in w.files
    requires s1 == State(s0.documents[path := w.files[path]], s0.edges, s0.allowed + {path})
    requires Walked(w, s1, s2, path, FileRefs(w, path)) && Identified(w.files[path], "")
    ensures Scanned(w, s0, s2, path)
  {
    NoEdgesYet(s0.edges, path);
    ReachesSelf(FileGraph(w), {}, path);
    assert Complete(w, s2, path);
  }

  lemma Unreadable(w: World, path: File)
    requires path !in w.files
    ensures Doomed(w, path)
  {
    ReachesSelf(FileGraph(w), {}, path);
    assert !Sound(w, path);
  }

  lemma Unidentified(w: World, path: File)
    requires path in w.files && !Identified(w.files[path], "")
    ensures Doomed(w, path)
  {
    ReachesSelf(FileGraph(w), {}, path);
    assert !Sound(w, path);
  }

  lemma {:induction false} RefsGrow(node: Node, pointer: string, m: nat, n: nat)
    requires m <= n <= Width(node)
    ensures forall r :: r in RefsUpTo(node, pointer, m) ==> r in RefsUpTo(node, pointer, n)
    decreases n
  {
    if m < n {
      RefsGrow(node, pointer, m, n - 1);
    }
  }

  lemma RefsOfChildInRefs(node: Node, pointer: string, i: nat)
    requires i < Width(node)
    ensures forall r :: r in RefsOfChild(node, pointer, i) ==> r in Refs(node, pointer)
  {
    RefsGrow(node, pointer, i + 1, Width(node));
  }

  lemma OneMoreIdentified(node: Node, pointer: string, i: nat)
    requires i < Width(node) && ChildrenIdentified(node, pointer, i) && ChildIdentified(node, pointer, i)
    ensures ChildrenIdentified(node, pointer, i + 1)
  {
  }

  class Scanner {
    const world: World
    var documents: map<File, Node>
    var edges: seq<ReferenceEdge>
    var allowedFiles: set<File>

    constructor (w: World)
      ensures world == w && Snapshot() == State(map[], [], {})
    {
      world := w;
      documents, edges, allowedFiles := map[], [], {};
    }

    ghost function Snapshot(): State
      reads this
    {
      State(documents, edges, allowedFiles)
    }

    method ScanFile(path: File) returns (ok: bool)
      requires ValidState(world, Snapshot())
      modifies this
      ensures ok ==> Scanned(world, old(Snapshot()), Snapshot(), path)
      ensures !ok ==> Doomed(world, path)
      decreases world.files.Keys - documents.Keys, 0
    {
      ghost var s0 := Snapshot();
      if path in documents {
        return true;
      }
      if path !in world.files {
        Unreadable(world, path);
        return false;
      }
      documents := documents[path := world.files[path]];
      allowedFiles := allowedFiles + {path};
      ghost var s1 := Snapshot();
      assert path in world.files.Keys - s0.documents.Keys;
      if !Identified(world.files[path], "") {
        Unidentified(world, path);
      }
      ok := Walk(path, world.files[path], "");
      if ok {
        WalkedFileIsScanned(world, s0, s1, Snapshot(), path);
      }
    }

    method Walk(path: File, node: Node, pointer: string) returns (ok: bool)
      requires ValidState(world, Snapshot()) && path in documents
      requires forall r :: r in Refs(node, pointer) ==> r in FileRefs(world, path)
      requires Doomed(world, path) || Identified(node, pointer)
      modifies this
      ensures ok ==> Walked(world, old(Snapshot()), Snapshot(), path, Refs(node, pointer)) && Identified(node, pointer)
      ensures !ok ==> Doomed(world, path)
      decreases world.files.Keys - documents.Keys, 2, node, 3
    {
      if node.Mapping? && IsPathItemPointer(pointer) {
        ok := CollectOperations(node.entries);
        if !ok {
          return;
        }
      }
      ok := WalkChildren(path, node, pointer);
    }

    method WalkChildren(path: File, node: Node, pointer: string) returns (ok: bool)
      requires ValidState(world, Snapshot()) && path in documents
      requires forall r :: r in Refs(node, pointer) ==> r in FileRefs(world, path)
      requires Doomed(world, path) || ChildrenIdentified(node, pointer, Width(node))
      modifies this
      ensures ok ==> Walked(world, old(Snapshot()), Snapshot(), path, Refs(node, pointer))
      ensures ok ==> ChildrenIdentified(node, pointer, Width(node))
      ensures !ok ==> Doomed(world, path)
      decreases world.files.Keys - documents.Keys, 2, node, 2
    {
      ghost var s0, refs := Snapshot(), RefsUpTo(node, pointer, 0);
      ghost var s1 := s0;
      WalkedNothing(world, s0, path);
      var i := 0;
      while i < Width(node)
        invariant i <= Width(node) && refs == RefsUpTo(node, pointer, i) && ChildrenIdentified(node, pointer, i)
        invariant s1 == Snapshot() && Walked(world, s0, s1, path, refs)
      {
        ok := WalkChild(path, node, pointer, i, s0);
        if !ok {
          return;
        }
        OneMoreIdentified(node, pointer, i);
        i, refs, s1 := i + 1, RefsUpTo(node, pointer, i + 1), Snapshot();
      }
      assert refs == Refs(node, pointer);
      ok := true;
    }

    /** The body of the walk's loops; `s0` is the state in which the loop was entered. */
    method WalkChild(path: File, node: Node, pointer: string, i: nat, ghost s0: State) returns (ok: bool)
      requires i < Width(node) && Walked(world, s0, Snapshot(), path, RefsUpTo(node, pointer, i))
      requires forall r :: r in Refs(node, pointer) ==> r in FileRefs(world, path)
      requires Doomed(world, path) || ChildrenIdentified(node, pointer, Width(node))
      modifies this
      ensures ok ==> Walked(world, s0, Snapshot(), path, RefsUpTo(node, pointer, i + 1))
      ensures ok ==> ChildIdentified(node, pointer, i)
      ensures !ok ==> Doomed(world, path)
      decreases world.files.Keys - s0.documents.Keys, 2, node, 1
    {
      ghost var s1 := Snapshot();
      RefsOfChildInRefs(node, pointer, i);
      assert world.files.Keys - documents.Keys <= world.files.Keys - s0.documents.Keys;
      assert Doomed(world, path) || ChildIdentified(node, pointer, i);
      ok := VisitChild(path, node, pointer, i);
      if ok {
        WalkedBoth(world, s0, s1, Snapshot(), path, RefsUpTo(node, pointer, i), RefsOfChild(node, pointer, i));
      }
    }

    method VisitChild(path: File, node: Node, pointer: string, i: nat) returns (ok: bool)
      requires ValidState(world, Snapshot()) && path in documents && i < Width(node)
      requires forall r :: r in RefsOfChild(node, pointer, i) ==> r in FileRefs(world, path)
      requires Doomed(world, path) || ChildIdentified(node, pointer, i)
      modifies this
      ensures ok ==> Walked(world, old(Snapshot()), Snapshot(), path, RefsOfChild(node, pointer, i))
      ensures ok ==> ChildIdentified(node, pointer, i)
      ensures !ok ==> Doomed(world, path)
      decreases world.files.Keys - documents.Keys, 2, node, 0
    {
      match node {
        case Mapping(entries) =>
          if IsReference(entries[i]) {
            ok := CollectReference(path, pointer, entries[i].1.text);
          } else {
            ok := Walk(path, entries[i].1, pointer + "/" + Escape(entries[i].0));
          }
        case Sequence(items) =>
          ok := Walk(path, items[i], pointer + "/" + Decimal(i));
      }
    }

    /** `collectOperations`: fails on an operation without an identifier. */
    method CollectOperations(entries: seq<(string, Node)>) returns (ok: bool)
      ensures ok <==> forall i :: 0 <= i < |entries| ==> EntryIdentified(entries[i])
    {
      for i := 0 to |entries|
        invariant forall j :: 0 <= j < i ==> EntryIdentified(entries[j])
      {
        var name, operation := Lower(entries[i].0), entries[i].1;
        if name !in METHODS || !operation.Mapping? {
          continue;
        }
        if !HasOperationId(operation.entries) {
          return false;
        }
      }
      ok := true;
    }

    method CollectReference(path: File, pointer: string, text: string) returns (ok: bool)
      requires ValidState(world, Snapshot()) && path in documents
      requires Ref(pointer, text) in FileRefs(world, path)
      modifies this
      ensures ok ==> Walked(world, old(Snapshot()), Snapshot(), path, [Ref(pointer, text)])
      ensures !ok ==> Doomed(world, path)
      decreases world.files.Keys - documents.Keys, 1
    {
      ghost var ref := Ref(pointer, text);
      ghost var s0 := Snapshot();
      var resolved := ResolveReference(world, path, text);
      if resolved.None? {
        DoomedThroughReference(world, path, ref);
        return false;
      }
      var target := resolved.value;
      ok := ScanFile(target.file);
      if !ok {
        DoomedThroughReference(world, path, ref);
        return;
      }
      ghost var s1 := Snapshot();
      edges := edges + [ReferenceEdge(Location(path, pointer), target,
                          Contains(pointer, "/schemas/") && Contains(target.pointer, "/schemas/"))];
      ScannedThenRecorded(world, s0, s1, Snapshot(), path, ref);
    }
  }

  const EMPTY: State := State(map[], [], {})

  /**
   * After an accepted scan the documents are exactly the files reachable from the root, every file but
   * the root passed the containment check, and the edges of each file are those of its references.
   */
  lemma ScannedIsExact(w: World, s: State, root: File)
    requires Scanned(w, EMPTY, s, root)
    ensures forall f :: f in s.documents <==> Reaches(FileGraph(w), root, f)
    ensures s.allowed == s.documents.Keys
    ensures forall f :: f in s.documents ==> Complete(w, s, f) && Sound(w, f) && (f == root || w.within(f))
    ensures forall e :: e in s.edges ==> e.from.file in s.documents && e.to.file in s.documents
  {
    forall f | f in s.documents ensures Complete(w, s, f) && Sound(w, f) {
      assert f !in EMPTY.documents;
    }
    forall f | Reaches(FileGraph(w), root, f) ensures f in s.documents {
      forall x, y | x in s.documents.Keys && Edge(FileGraph(w), x, y) ensures y in s.documents.Keys {
        var r :| r in FileRefs(w, x) && Resolves(w, x, r) && y == TargetOf(w, x, r).file;
      }
      ClosedUnderReach(FileGraph(w), s.documents.Keys, root, f);
    }
  }

  // ---- the pointers the walk writes ----

  /** The mapping at `path` has a `$ref` entry with that text. */
  ghost predicate RefersAt(node: Node, path: seq<Step>, text: string) {
    exists entries: seq<(string, Node)> :: At(node, path, Mapping(entries)) && ("$ref", Scalar(text)) in entries
  }

  /** `r` is the reference of a mapping at `path` below a node with pointer `p`. */
  ghost predicate IsRefAt(node: Node, p: string, path: seq<Step>, r: Ref) {
    RefersAt(node, path, r.text) && r.pointer == p + PointerOf(path)
  }

  /** The step to child `i` and the token the walk appends for it. */
  lemma ChildPointer(node: Node, i: nat, path: seq<Step>)
    requires i < Width(node)
    ensures var step := StepTo(node, i); PointerOf([step] + path) == "/" + ChildToken(node, i) + PointerOf(path)
  {
    var step := StepTo(node, i);
    assert PathTokens([step] + path) == [Token(step)] + PathTokens(path);
    assert ([Token(step)] + PathTokens(path))[1..] == PathTokens(path);
    if node.Sequence? {
      EscapesToItself(Decimal(i));
    }
  }

  function StepTo(node: Node, i: nat): Step
    requires i < Width(node)
  {
    if node.Mapping? then Key(node.entries[i].0) else Index(i)
  }

  function Child(node: Node, i: nat): (child: Node)
    requires i < Width(node)
    ensures child < node
  {
    if node.Mapping? then node.entries[i].1 else node.items[i]
  }

  lemma AtChild(node: Node, i: nat, path: seq<Step>, target: Node)
    requires i < Width(node) && At(Child(node, i), path, target)
    ensures At(node, [StepTo(node, i)] + path, target)
  {
    assert ([StepTo(node, i)] + path)[1..] == path;
  }

  /** A pointer below a child, seen from the node. */
  lemma ChildPosition(node: Node, p: string, i: nat, path: seq<Step>)
    requires i < Width(node)
    ensures p + PointerOf([StepTo(node, i)] + path) == p + "/" + ChildToken(node, i) + PointerOf(path)
  {
    ChildPointer(node, i, path);
    PointerConcat(p, "/", ChildToken(node, i), PointerOf(path));
  }

  lemma PointerConcat(a: string, b: string, c: string, d: string)
    ensures a + (b + c + d) == a + b + c + d
  {
  }

  lemma ChildRefAt(node: Node, p: string, i: nat, path: seq<Step>, r: Ref)
    requires i < Width(node) && IsRefAt(Child(node, i), p + "/" + ChildToken(node, i), path, r)
    ensures IsRefAt(node, p, [StepTo(node, i)] + path, r)
  {
    var entries: seq<(string, Node)> :|
      At(Child(node, i), path, Mapping(entries)) && ("$ref", Scalar(r.text)) in entries;
    AtChild(node, i, path, Mapping(entries));
    ChildPosition(node, p, i, path);
  }

  lemma {:induction false} RefHasPosition(node: Node, p: string, r: Ref) returns (path: seq<Step>)
    requires r in Refs(node, p)
    ensures IsRefAt(node, p, path, r)
    decreases node
  {
    var k := OwningChild(node, p, Width(node), r);
    if node.Mapping? && IsReference(node.entries[k]) {
      path := [];
      assert node.entries[k] == ("$ref", Scalar(r.text));
      assert At(node, [], Mapping(node.entries));
      assert p + PointerOf([]) == p;
    } else {
      path := RefHasPosition(Child(node, k), p + "/" + ChildToken(node, k), r);
      ChildRefAt(node, p, k, path, r);
      path := [StepTo(node, k)] + path;
    }
  }

  lemma {:induction false} PositionHasRef(node: Node, p: string, path: seq<Step>, r: Ref)
    requires IsRefAt(node, p, path, r)
    ensures r in Refs(node, p)
    decreases |path|
  {
    var entries: seq<(string, Node)> :| At(node, path, Mapping(entries)) && ("$ref", Scalar(r.text)) in entries;
    if path == [] {
      var i :| 0 <= i < |entries| && entries[i] == ("$ref", Scalar(r.text));
      assert p + PointerOf([]) == p;
      assert RefsOfChild(node, p, i) == [r];
      RefsOfChildInRefs(node, p, i);
    } else {
      var i := FirstStep(node, path, Mapping(entries));
      ChildPosition(node, p, i, path[1..]);
      assert path == [StepTo(node, i)] + path[1..];
      PositionHasRef(Child(node, i), p + "/" + ChildToken(node, i), path[1..], r);
      ChildHasRef(node, p, i, r);
    }
  }

  lemma ChildHasRef(node: Node, p: string, i: nat, r: Ref)
    requires i < Width(node) && r in Refs(Child(node, i), p + "/" + ChildToken(node, i))
    ensures r in Refs(node, p)
  {
    RefsOfChildInRefs(node, p, i);
    assert Width(Child(node, i)) > 0;
  }

  lemma FirstStep(node: Node, path: seq<Step>, target: Node) returns (i: nat)
    requires path != [] && At(node, path, target)
    ensures i < Width(node) && path[0] == StepTo(node, i) && At(Child(node, i), path[1..], target)
  {
    match path[0]
    case Key(name) =>
      i :| 0 <= i < |node.entries| && node.entries[i].0 == name && At(node.entries[i].1, path[1..], target);
    case Index(n) =>
      i := n;
  }

  /** The references of a document are those of its mappings, each under the pointer of its mapping. */
  lemma RefsHavePointersOfMappings(root: Node, r: Ref)
    ensures r in Refs(root, "") <==> exists path :: RefersAt(root, path, r.text) && r.pointer == PointerOf(path)
  {
    if r in Refs(root, "") {
      var path := RefHasPosition(root, "", r);
      assert "" + PointerOf(path) == PointerOf(path);
    }
    if path :| RefersAt(root, path, r.text) && r.pointer == PointerOf(path) {
      assert "" + PointerOf(path) == PointerOf(path);
      PositionHasRef(root, "", path, r);
    }
  }

  lemma {:induction false} UniqueBelow(node: Node, path: seq<Step>, target: Node)
    requires UniqueKeys(node) && At(node, path, target)
    ensures UniqueKeys(target)
    decreases |path|
  {
    if path != [] {
      var i := FirstStep(node, path, target);
      UniqueBelow(Child(node, i), path[1..], target);
    }
  }

  /** Without repeated keys, two references with one pointer are one reference. */
  lemma OnePointerOneReference(root: Node, r: Ref, t: Ref)
    requires UniqueKeys(root) && r in Refs(root, "") && t in Refs(root, "") && r.pointer == t.pointer
    ensures r == t
  {
    var p := RefHasPosition(root, "", r);
    var q := RefHasPosition(root, "", t);
    var x: seq<(string, Node)> :| At(root, p, Mapping(x)) && ("$ref", Scalar(r.text)) in x;
    var y: seq<(string, Node)> :| At(root, q, Mapping(y)) && ("$ref", Scalar(t.text)) in y;
    assert "" + PointerOf(p) == PointerOf(p) && "" + PointerOf(q) == PointerOf(q);
    DistinctPositionsDistinctPointers(root, p, q, Mapping(x), Mapping(y));
    UniqueBelow(root, p, Mapping(x));
    var i, j :| 0 <= i < |x| && x[i] == ("$ref", Scalar(r.text)) && 0 <= j < |x| && x[j] == ("$ref", Scalar(t.text));
    assert i == j;
  }

  // ---- what the scan accepts, in terms of positions in the trees ----

  /** `op` is an operation: the entry `name` of a mapping directly below `paths`. */
  ghost predicate OperationAt(root: Node, item: Step, name: string, op: seq<(string, Node)>) {
    IsMethod(name) && exists entries: seq<(string, Node)> ::
      At(root, [Key("paths"), item], Mapping(entries)) && (name, Mapping(op)) in entries
  }

  /** One of the nine HTTP methods in any letter case. */
  predicate IsMethod(name: string) {
    || SameLetters(name, "connect") || SameLetters(name, "delete") || SameLetters(name, "get")
    || SameLetters(name, "head") || SameLetters(name, "options") || SameLetters(name, "patch")
    || SameLetters(name, "post") || SameLetters(name, "put") || SameLetters(name, "trace")
  }

  predicate SameLetters(s: string, lower: string) {
    |s| == |lower| && forall i :: 0 <= i < |s| ==> SameLetter(s[i], lower[i])
  }

  /** `lower` is the lower case of `c`; U+0130 and U+212A have ASCII letters for theirs. */
  predicate SameLetter(c: char, lower: char) {
    || c == lower || ('A' <= c <= 'Z' && c as int + 32 == lower as int)
    || (c as int == 0x130 && lower == 'i') || (c as int == 0x212A && lower == 'k')
  }

  /** The first `operationId` is not blank. */
  ghost predicate HasIdentifier(op: seq<(string, Node)>) {
    exists i :: IsFirst(op, "operationId", i) && !IsBlank(ValueOf(op[i].1))
  }

  /** A file that can be read, all of whose operations have identifiers and all of whose references are located. */
  ghost predicate GoodFile(w: World, file: File) {
    && file in w.files
    && (forall item, name, op :: OperationAt(w.files[file], item, name, op) ==> HasIdentifier(op))
    && (forall path, text :: RefersAt(w.files[file], path, text) ==> exists t :: Located(w, file, text, t))
  }

  /** Some reference of file `f` names something in file `g`. */
  ghost predicate Refers(w: World, f: File, g: File) {
    f in w.files && exists path, text, t :: RefersAt(w.files[f], path, text) && Located(w, f, text, t) && t.file == g
  }

  /** The edge of a reference in a file that the root leads to. */
  ghost predicate IsEdge(w: World, root: File, e: ReferenceEdge) {
    Reaches(FileGraph(w), root, e.from.file) && EdgeOfReference(w, e)
  }

  ghost predicate EdgeOfReference(w: World, e: ReferenceEdge) {
    && e.from.file in w.files
    && (exists path, text :: RefersAt(w.files[e.from.file], path, text) && e.from.pointer == PointerOf(path) &&
                             Located(w, e.from.file, text, e.to))
    && e.isSchema == (Contains(e.from.pointer, "/schemas/") && Contains(e.to.pointer, "/schemas/"))
  }

  lemma {:induction false} LowerIs(s: string, lower: string)
    requires forall i :: 0 <= i < |lower| ==> 'a' <= lower[i] <= 'z'
    ensures Lower(s) == lower <==> SameLetters(s, lower)
  {
    if s != "" && lower != "" {
      LowerIs(s[1..], lower[1..]);
      assert lower == [lower[0]] + lower[1..];
      assert Lower(s)[0] == LowerChar(s[0]) && Lower(s)[1..] == Lower(s[1..]);
      assert SameLetter(s[0], lower[0]) <==> LowerChar(s[0]) == lower[0];
      assert SameLetters(s, lower) <==> SameLetter(s[0], lower[0]) && SameLetters(s[1..], lower[1..]) by {
        if SameLetter(s[0], lower[0]) && SameLetters(s[1..], lower[1..]) {
          forall i | 0 <= i < |s| ensures SameLetter(s[i], lower[i]) {
            assert i > 0 ==> SameLetter(s[1..][i - 1], lower[1..][i - 1]);
          }
        }
        if SameLetters(s, lower) {
          forall i | 0 <= i < |s[1..]| ensures SameLetter(s[1..][i], lower[1..][i]) {
            assert SameLetter(s[i + 1], lower[i + 1]);
          }
        }
      }
    }
  }

  lemma MethodIs(name: string)
    ensures Lower(name) in METHODS <==> IsMethod(name)
  {
    LowerIs(name, "connect");
    LowerIs(name, "delete");
    LowerIs(name, "get");
    LowerIs(name, "head");
    LowerIs(name, "options");
    LowerIs(name, "patch");
    LowerIs(name, "post");
    LowerIs(name, "put");
    LowerIs(name, "trace");
  }

  lemma IdentifierIs(op: seq<(string, Node)>)
    ensures HasOperationId(op) <==> HasIdentifier(op)
  {
    FirstEntryIs(op, "operationId");
  }

  lemma {:induction false} FirstEntryIs(entries: seq<(string, Node)>, name: string)
    ensures FirstEntry(entries, name).Some? <==> exists i :: IsFirst(entries, name, i)
    ensures forall i :: IsFirst(entries, name, i) ==> FirstEntry(entries, name) == Some(entries[i].1)
  {
    if entries != [] {
      var rest := entries[1..];
      FirstEntryIs(rest, name);
      forall i | IsFirst(entries, name, i) ensures FirstEntry(entries, name) == Some(entries[i].1) {
        if i > 0 {
          assert entries[0].0 != name;
          assert IsFirst(rest, name, i - 1) by {
            assert forall j :: 0 <= j < i - 1 ==> rest[j] == entries[j + 1];
          }
        }
      }
      if entries[0].0 == name {
        assert IsFirst(entries, name, 0);
      } else if i :| IsFirst(rest, name, i) {
        assert IsFirst(entries, name, i + 1) by {
          assert forall j :: 0 < j <= i ==> entries[j] == rest[j - 1];
        }
      }
    }
  }

  /** Entry `i` is the first with that key. */
  ghost predicate IsFirst(entries: seq<(string, Node)>, name: string, i: int) {
    0 <= i < |entries| && entries[i].0 == name && forall j :: 0 <= j < i ==> entries[j].0 != name
  }

  /** The pointers of path items are those of the positions one step below `paths`. */
  lemma PathItemPositions(path: seq<Step>)
    ensures IsPathItemPointer(PointerOf(path)) <==> |path| == 2 && path[0] == Key("paths")
  {
    if |path| == 2 && path[0] == Key("paths") {
      ItemHasPointer(path);
    }
    if IsPathItemPointer(PointerOf(path)) {
      PointerHasItem(path);
    }
  }

  lemma ItemHasPointer(path: seq<Step>)
    requires |path| == 2 && path[0] == Key("paths")
    ensures IsPathItemPointer(PointerOf(path))
  {
    var token := Token(path[1]);
    assert PathTokens(path) == [Token(path[0])] + PathTokens(path[1..]);
    assert PathTokens(path[1..]) == [token] + PathTokens(path[2..]);
    assert PathTokens(path) == ["paths", token];
    KeywordThen("paths", "/paths/", token);
    EscapeHasNoSlash(token);
    PrefixThenRest("/paths/", Escape(token));
  }

  lemma PrefixThenRest(prefix: string, rest: string)
    ensures HasPrefix(prefix + rest, prefix) && (prefix + rest)[|prefix|..] == rest
  {
  }

  lemma PointerHasItem(path: seq<Step>)
    requires IsPathItemPointer(PointerOf(path))
    ensures |path| == 2 && path[0] == Key("paths")
  {
    var s := PointerOf(path);
    assert path != [];
    TokensRender(PathTokens(path));
    PrefixAndRest(s, "/paths/");
    PathsParts(s, s[|"/paths/"|..]);
    SameTokens(path, Tokens(s));
  }

  lemma SameTokens(path: seq<Step>, tokens: seq<string>)
    requires PathTokens(path) == tokens && |tokens| == 2 && tokens[0] == "paths"
    ensures |path| == 2 && path[0] == Key("paths")
  {
    assert Token(path[0]) == "paths";
    assert 'p' in Token(path[0]);
  }

  lemma PrefixAndRest(s: string, prefix: string)
    requires HasPrefix(s, prefix)
    ensures s == prefix + s[|prefix|..]
  {
  }

  lemma PathsParts(s: string, rest: string)
    requires HasPrefix(s, "/") && s == "/paths/" + rest && '/' !in rest
    ensures Tokens(s) == ["paths", Unescape(rest)]
  {
    assert s[1..] == "paths" + ['/'] + rest;
    SplitPrefix("paths", rest, '/');
    SplitWhole(rest, '/');
    TwoParts("paths", rest);
    EscapesToItself("paths");
    UnescapeEscape("paths");
  }

  lemma TwoParts(a: string, b: string)
    ensures UnescapeAll([a] + [b]) == [Unescape(a), Unescape(b)]
  {
    assert ([a] + [b])[1..] == [b] && [b][1..] == [];
    assert UnescapeAll([b]) == [Unescape(b)] + UnescapeAll([]);
  }

  /** What holds of the whole walk holds at every position. */
  lemma {:induction false} IdentifiedAt(node: Node, p: string, path: seq<Step>, target: Node)
    requires Identified(node, p) && At(node, path, target)
    ensures OperationsIdentified(target, p + PointerOf(path))
    decreases |path|
  {
    if path == [] {
      assert p + PointerOf(path) == p;
    } else {
      var i := FirstStep(node, path, target);
      ChildPosition(node, p, i, path[1..]);
      assert path == [StepTo(node, i)] + path[1..];
      assert ChildIdentified(node, p, i);
      if node.Mapping? && IsReference(node.entries[i]) {
        assert path[1..] == [];
      } else {
        IdentifiedAt(Child(node, i), p + "/" + ChildToken(node, i), path[1..], target);
      }
    }
  }

  lemma {:induction false} UnidentifiedAt(node: Node, p: string) returns (path: seq<Step>, target: Node)
    requires !Identified(node, p)
    ensures At(node, path, target) && !OperationsIdentified(target, p + PointerOf(path))
    decreases node
  {
    if !OperationsIdentified(node, p) {
      path, target := [], node;
      assert p + PointerOf([]) == p;
    } else {
      assert !ChildrenIdentified(node, p, Width(node));
      var i :| 0 <= i < Width(node) && !ChildIdentified(node, p, i);
      path, target := UnidentifiedAt(Child(node, i), p + "/" + ChildToken(node, i));
      AtChild(node, i, path, target);
      ChildPosition(node, p, i, path);
      path := [StepTo(node, i)] + path;
    }
  }

  lemma OperationsAre(root: Node)
    ensures Identified(root, "") <==>
            forall item, name, op :: OperationAt(root, item, name, op) ==> HasIdentifier(op)
  {
    if Identified(root, "") {
      forall item, name, op | OperationAt(root, item, name, op) ensures HasIdentifier(op) {
        OperationIdentified(root, item, name, op);
      }
    } else {
      var path, target := UnidentifiedAt(root, "");
      assert "" + PointerOf(path) == PointerOf(path);
      PathItemPositions(path);
      var i :| 0 <= i < |target.entries| && !EntryIdentified(target.entries[i]);
      var name, op := target.entries[i].0, target.entries[i].1.entries;
      assert path == [Key("paths"), path[1]];
      MethodIs(name);
      IdentifierIs(op);
      assert OperationAt(root, path[1], name, op);
    }
  }

  lemma OperationIdentified(root: Node, item: Step, name: string, op: seq<(string, Node)>)
    requires Identified(root, "") && OperationAt(root, item, name, op)
    ensures HasIdentifier(op)
  {
    var path := [Key("paths"), item];
    var entries: seq<(string, Node)> :| At(root, path, Mapping(entries)) && (name, Mapping(op)) in entries;
    IdentifiedAt(root, "", path, Mapping(entries));
    assert "" + PointerOf(path) == PointerOf(path);
    PathItemPositions(path);
    var i :| 0 <= i < |entries| && entries[i] == (name, Mapping(op));
    assert EntryIdentified(entries[i]);
    MethodIs(name);
    IdentifierIs(op);
  }

  lemma ReferencesAreLocated(w: World, file: File)
    requires file in w.files
    ensures (forall r :: r in FileRefs(w, file) ==> Resolves(w, file, r)) <==>
            forall path, text :: RefersAt(w.files[file], path, text) ==> exists t :: Located(w, file, text, t)
  {
    var root := w.files[file];
    if forall r :: r in FileRefs(w, file) ==> Resolves(w, file, r) {
      forall path, text | RefersAt(root, path, text) ensures exists t :: Located(w, file, text, t) {
        var r := Ref(PointerOf(path), text);
        RefsHavePointersOfMappings(root, r);
        assert Resolves(w, file, r);
        assert Located(w, file, text, TargetOf(w, file, r));
      }
    }
    if forall path, text :: RefersAt(root, path, text) ==> exists t :: Located(w, file, text, t) {
      forall r | r in FileRefs(w, file) ensures Resolves(w, file, r) {
        RefsHavePointersOfMappings(root, r);
        var path :| RefersAt(root, path, r.text) && r.pointer == PointerOf(path);
        var t :| Located(w, file, r.text, t);
      }
    }
  }

  lemma SoundIs(w: World, file: File)
    ensures Sound(w, file) <==> GoodFile(w, file)
  {
    if file in w.files {
      OperationsAre(w.files[file]);
      ReferencesAreLocated(w, file);
    }
  }

  /** The file graph leads from a file to the files its located references name. */
  lemma FileGraphIs(w: World, f: File, g: File)
    ensures Edge(FileGraph(w), f, g) <==> Refers(w, f, g)
  {
    if Edge(FileGraph(w), f, g) {
      var r :| r in FileRefs(w, f) && Resolves(w, f, r) && TargetOf(w, f, r).file == g;
      RefsHavePointersOfMappings(w.files[f], r);
      var path :| RefersAt(w.files[f], path, r.text) && r.pointer == PointerOf(path);
      assert Located(w, f, r.text, TargetOf(w, f, r));
    }
    if Refers(w, f, g) {
      var path, text, t :| RefersAt(w.files[f], path, text) && Located(w, f, text, t) && t.file == g;
      var r := Ref(PointerOf(path), text);
      RefsHavePointersOfMappings(w.files[f], r);
      EdgeInGraph(w, f, r);
    }
  }

  lemma {:induction false} EdgesOfContents(w: World, file: File, refs: seq<Ref>, e: ReferenceEdge)
    ensures e in EdgesOf(w, file, refs) <==> exists r :: r in refs && Resolves(w, file, r) && e == EdgeOf(w, file, r)
  {
    if refs != [] {
      EdgesOfContents(w, file, refs[1..], e);
      assert refs == [refs[0]] + refs[1..];
    }
  }

  /** The recorded edges are those of the references in the files that the root leads to. */
  lemma EdgesAreReferences(w: World, s: State, root: File, e: ReferenceEdge)
    requires Scanned(w, EMPTY, s, root)
    ensures e in s.edges <==> IsEdge(w, root, e)
  {
    ScannedIsExact(w, s, root);
    var f := e.from.file;
    EdgesFromContents(s.edges, f, e);
    if f in s.documents {
      assert Complete(w, s, f);
      EdgesOfContents(w, f, FileRefs(w, f), e);
      EdgeOfReferenceIs(w, e);
    }
  }

  lemma EdgeOfReferenceIs(w: World, e: ReferenceEdge)
    requires e.from.file in w.files
    ensures (exists r :: r in FileRefs(w, e.from.file) && Resolves(w, e.from.file, r) && e == EdgeOf(w, e.from.file, r))
            <==> EdgeOfReference(w, e)
  {
    var f := e.from.file;
    if r :| r in FileRefs(w, f) && Resolves(w, f, r) && e == EdgeOf(w, f, r) {
      RefsHavePointersOfMappings(w.files[f], r);
      var path :| RefersAt(w.files[f], path, r.text) && r.pointer == PointerOf(path);
      assert Located(w, f, r.text, e.to);
    }
    if EdgeOfReference(w, e) {
      var path, text :| RefersAt(w.files[f], path, text) && e.from.pointer == PointerOf(path) &&
                        Located(w, f, text, e.to);
      var r := Ref(PointerOf(path), text);
      RefsHavePointersOfMappings(w.files[f], r);
      assert r in FileRefs(w, f) && Resolves(w, f, r) && e == EdgeOf(w, f, r);
    }
  }

  // ---- every mapping is the source of at most one edge ----

  ghost predicate DistinctPointers(refs: seq<Ref>) {
    forall i, j :: 0 <= i < j < |refs| ==> refs[i].pointer != refs[j].pointer
  }

  ghost predicate OneEdgePerSource(edges: seq<ReferenceEdge>) {
    forall i, j :: 0 <= i < j < |edges| ==> edges[i].from != edges[j].from
  }

  /** `x` is the pointer `p` or the pointer of something below it. */
  ghost predicate Under(p: string, x: string) {
    x == p || p + "/" <= x
  }

  /** The token of child `i`, as the walk appends it. */
  function ChildToken(node: Node, i: nat): (token: string)
    requires i < Width(node)
  {
    if node.Mapping? then Escape(node.entries[i].0) else Decimal(i)
  }

  lemma ChildTokensDiffer(node: Node, i: nat, j: nat)
    requires UniqueKeys(node) && i < j < Width(node)
    ensures ChildToken(node, i) != ChildToken(node, j)
    ensures '/' !in ChildToken(node, i) && '/' !in ChildToken(node, j)
  {
    if node.Mapping? {
      UnescapeEscape(node.entries[i].0);
      UnescapeEscape(node.entries[j].0);
      EscapeHasNoSlash(node.entries[i].0);
      EscapeHasNoSlash(node.entries[j].0);
    } else {
      DecimalRoundTrip(i);
      DecimalRoundTrip(j);
    }
  }

  /** The token that follows `p` in a pointer can be read back. */
  lemma NextToken(p: string, a: string, x: string)
    requires '/' !in a && Under(p + "/" + a, x)
    ensures |x| > |p|
    ensures var rest := x[|p| + 1..]; rest[..IndexOf(rest, '/')] == a
  {
    var rest := x[|p| + 1..];
    var i := IndexOf(rest, '/');
    assert forall j :: 0 <= j < |a| ==> rest[j] == a[j];
    assert i >= |a|;
    assert |rest| > |a| ==> rest[|a|] == '/';
    assert forall j :: 0 <= j < i ==> rest[j] in rest[..i];
    assert i == |a|;
  }

  lemma BranchesMeet(p: string, a: string, b: string, x: string)
    requires '/' !in a && '/' !in b
    requires Under(p + "/" + a, x) && Under(p + "/" + b, x)
    ensures a == b
  {
    NextToken(p, a, x);
    NextToken(p, b, x);
  }

  /** The pointers of a child's references lie below the child, or at the mapping itself for a `$ref`. */
  lemma {:induction false} ChildRefsUnder(node: Node, p: string, i: nat, r: Ref)
    requires i < Width(node) && r in RefsOfChild(node, p, i)
    ensures if node.Mapping? && IsReference(node.entries[i]) then r.pointer == p
            else Under(p + "/" + ChildToken(node, i), r.pointer)
    decreases node, i
  {
    if node.Mapping? && IsReference(node.entries[i]) {
    } else {
      var child := if node.Mapping? then node.entries[i].1 else node.items[i];
      var q := p + "/" + ChildToken(node, i);
      var k := OwningChild(child, q, Width(child), r);
      ChildRefsUnder(child, q, k, r);
    }
  }

  lemma {:induction false} OwningChild(node: Node, p: string, n: nat, r: Ref) returns (k: nat)
    requires n <= Width(node) && r in RefsUpTo(node, p, n)
    ensures k < n && r in RefsOfChild(node, p, k)
  {
    if r in RefsOfChild(node, p, n - 1) {
      k := n - 1;
    } else {
      k := OwningChild(node, p, n - 1, r);
    }
  }

  lemma RefsOfTwoChildrenDiffer(node: Node, p: string, i: nat, j: nat, r: Ref, t: Ref)
    requires UniqueKeys(node) && i < j < Width(node)
    requires r in RefsOfChild(node, p, i) && t in RefsOfChild(node, p, j)
    ensures r.pointer != t.pointer
  {
    ChildRefsUnder(node, p, i, r);
    ChildRefsUnder(node, p, j, t);
    ChildTokensDiffer(node, i, j);
    var first := node.Mapping? && IsReference(node.entries[i]);
    var second := node.Mapping? && IsReference(node.entries[j]);
    if !first && !second && r.pointer == t.pointer {
      BranchesMeet(p, ChildToken(node, i), ChildToken(node, j), r.pointer);
    }
  }

  lemma {:induction false} RefsUpToDistinct(node: Node, p: string, n: nat)
    requires UniqueKeys(node) && n <= Width(node)
    ensures DistinctPointers(RefsUpTo(node, p, n))
    decreases node, n
  {
    if n > 0 {
      RefsUpToDistinct(node, p, n - 1);
      var before, here := RefsUpTo(node, p, n - 1), RefsOfChild(node, p, n - 1);
      if node.Mapping? && !IsReference(node.entries[n - 1]) {
        var child := node.entries[n - 1].1;
        var q := p + "/" + Escape(node.entries[n - 1].0);
        RefsUpToDistinct(child, q, Width(child));
        assert here == Refs(child, q) == RefsUpTo(child, q, Width(child));
      } else if node.Sequence? {
        var child := node.items[n - 1];
        var q := p + "/" + Decimal(n - 1);
        RefsUpToDistinct(child, q, Width(child));
        assert here == Refs(child, q) == RefsUpTo(child, q, Width(child));
      }
      forall i, j | 0 <= i < |before| && 0 <= j < |here| ensures before[i].pointer != here[j].pointer {
        var k := OwningChild(node, p, n - 1, before[i]);
        RefsOfTwoChildrenDiffer(node, p, k, n - 1, before[i], here[j]);
      }
      DistinctConcat(before, here);
    }
  }

  lemma DistinctConcat(a: seq<Ref>, b: seq<Ref>)
    requires DistinctPointers(a) && DistinctPointers(b)
    requires forall i, j :: 0 <= i < |a| && 0 <= j < |b| ==> a[i].pointer != b[j].pointer
    ensures DistinctPointers(a + b)
  {
  }

  lemma {:induction false} EdgesKeepPointers(w: World, file: File, refs: seq<Ref>, e: ReferenceEdge)
    requires e in EdgesOf(w, file, refs)
    ensures exists r :: r in refs && e.from == Location(file, r.pointer)
  {
    if Resolves(w, file, refs[0]) && e == EdgeOf(w, file, refs[0]) {
      assert refs[0] in refs;
    } else {
      EdgesKeepPointers(w, file, refs[1..], e);
      var r :| r in refs[1..] && e.from == Location(file, r.pointer);
      assert r in refs;
    }
  }

  lemma {:induction false} EdgesOfDistinct(w: World, file: File, refs: seq<Ref>)
    requires DistinctPointers(refs)
    ensures OneEdgePerSource(EdgesOf(w, file, refs))
  {
    if refs != [] {
      var rest := EdgesOf(w, file, refs[1..]);
      EdgesOfDistinct(w, file, refs[1..]);
      forall j | 0 <= j < |rest| ensures rest[j].from != Location(file, refs[0].pointer) {
        EdgesKeepPointers(w, file, refs[1..], rest[j]);
        var r :| r in refs[1..] && rest[j].from == Location(file, r.pointer);
        var k :| 0 <= k < |refs[1..]| && refs[1..][k] == r;
        assert refs[k + 1] == r;
      }
    }
  }

  /** If the edges of every file have distinct sources, so do all edges. */
  lemma {:induction false} PerFileIsEnough(edges: seq<ReferenceEdge>)
    requires forall f :: OneEdgePerSource(EdgesFrom(edges, f))
    ensures OneEdgePerSource(edges)
  {
    if edges != [] {
      var rest, last := edges[..|edges| - 1], edges[|edges| - 1];
      forall f ensures OneEdgePerSource(EdgesFrom(rest, f)) {
        assert OneEdgePerSource(EdgesFrom(edges, f));
        var more := EdgesFrom(rest, f);
        assert more <= EdgesFrom(edges, f);
        assert forall i :: 0 <= i < |more| ==> more[i] == EdgesFrom(edges, f)[i];
      }
      PerFileIsEnough(rest);
      forall i | 0 <= i < |rest| ensures rest[i].from != last.from {
        var f := last.from.file;
        assert OneEdgePerSource(EdgesFrom(edges, f));
        if rest[i].from.file == f {
          EdgesFromContents(rest, f, rest[i]);
          var here := EdgesFrom(rest, f);
          var k :| 0 <= k < |here| && here[k] == rest[i];
          assert EdgesFrom(edges, f)[k] == rest[i];
          assert EdgesFrom(edges, f)[|here|] == last;
        }
      }
    }
  }

  /** When no mapping repeats a key, the walk gives every mapping at most one outgoing edge. */
  lemma ScanGivesOneEdgePerSource(w: World, s: State, root: File)
    requires Scanned(w, EMPTY, s, root)
    requires forall f :: f in s.documents ==> UniqueKeys(s.documents[f])
    ensures OneEdgePerSource(s.edges)
  {
    forall f ensures OneEdgePerSource(EdgesFrom(s.edges, f)) {
      if f in s.documents {
        assert Complete(w, s, f);
        RefsUpToDistinct(w.files[f], "", Width(w.files[f]));
        EdgesOfDistinct(w, f, FileRefs(w, f));
      } else {
        NoEdgesYet(s.edges, f);
      }
    }
    PerFileIsEnough(s.edges);
  }

  /** The preflight of a root document: `newScanner` followed by `scanFile`. */
  method Scan(w: World, root: File) returns (ok: bool, s: State)
    ensures ok <==> forall f :: Reaches(FileGraph(w), root, f) ==> GoodFile(w, f)
    ensures ok ==> Scanned(w, EMPTY, s, root)
    ensures ok ==> forall e :: e in s.edges <==> IsEdge(w, root, e)
  {
    var scanner := new Scanner(w);
    ok := scanner.ScanFile(root);
    s := State(scanner.documents, scanner.edges, scanner.allowedFiles);
    forall f ensures Sound(w, f) <==> GoodFile(w, f) {
      SoundIs(w, f);
    }
    if ok {
      ScannedIsExact(w, s, root);
      forall e ensures e in s.edges <==> IsEdge(w, root, e) {
        EdgesAreReferences(w, s, root, e);
      }
    }
  }
}
