/**
 * YAML node trees and JSON Pointers (sections 3 and 4 of RFC 6901) as the reference preflight builds
 * and follows them.
 */
module Pointers {
  import opened Text

  datatype Option<+T> = None | Some(value: T)

  /**
   * A parsed YAML node. Mapping entries keep their order; aliases, whose value is the name of their anchor,
   * and empty documents are `Other`.
   */
  datatype Node =
    | Scalar(text: string)
    | Mapping(entries: seq<(string, Node)>)
    | Sequence(items: seq<Node>)
    | Other(value: string)

  // ---- escaping ----

  function Escape(token: string): string {
    ReplaceAll(ReplaceAll(token, "~", "~0"), "/", "~1")
  }

  function Unescape(token: string): string {
    ReplaceAll(ReplaceAll(token, "~1", "/"), "~0", "~")
  }

  /** Escaping works one character at a time. */
  lemma EscapeStep(c: char, s: string)
    ensures Escape("") == ""
    ensures Escape([c] + s) == (if c == '~' then "~0" else if c == '/' then "~1" else [c]) + Escape(s)
  {
    var inner := ReplaceAll(s, "~", "~0");
    if c == '~' {
      ReplaceHit(s, "~", "~0");
      ReplaceSkipText("~0", inner, "/", "~1");
    } else {
      ReplaceSkip(c, s, "~", "~0");
      if c == '/' {
        ReplaceHit(inner, "/", "~1");
      } else {
        ReplaceSkip(c, inner, "/", "~1");
      }
    }
  }

  lemma {:induction false} EscapeHasNoSlash(s: string)
    ensures '/' !in Escape(s)
  {
    if s == "" {
      EscapeStep('a', "");
    } else {
      EscapeStep(s[0], s[1..]);
      EscapeHasNoSlash(s[1..]);
      assert [s[0]] + s[1..] == s;
    }
  }

  /** Undoing `~1` first turns an escaped token into the token with only its tildes escaped. */
  lemma {:induction false} UndoSlash(s: string)
    ensures ReplaceAll(Escape(s), "~1", "/") == ReplaceAll(s, "~", "~0")
  {
    if s == "" {
      EscapeStep('a', "");
    } else {
      var c, t := s[0], s[1..];
      assert [c] + t == s;
      EscapeStep(c, t);
      UndoSlash(t);
      if c == '~' {
        ReplaceHit(t, "~", "~0");
        assert "~0" + Escape(t) == ['~'] + (['0'] + Escape(t));
        ReplaceSkip('0', Escape(t), "~1", "/");
        ReplaceSkip('~', ['0'] + Escape(t), "~1", "/");
        assert ['~'] + (['0'] + ReplaceAll(t, "~", "~0")) == "~0" + ReplaceAll(t, "~", "~0");
      } else {
        ReplaceSkip(c, t, "~", "~0");
        if c == '/' {
          ReplaceHit(Escape(t), "~1", "/");
        } else {
          ReplaceSkip(c, Escape(t), "~1", "/");
        }
      }
    }
  }

  lemma {:induction false} UndoTilde(s: string)
    ensures ReplaceAll(ReplaceAll(s, "~", "~0"), "~0", "~") == s
  {
    if s != "" {
      var c, t := s[0], s[1..];
      assert [c] + t == s;
      UndoTilde(t);
      if c == '~' {
        ReplaceHit(t, "~", "~0");
        ReplaceHit(ReplaceAll(t, "~", "~0"), "~0", "~");
      } else {
        ReplaceSkip(c, t, "~", "~0");
        ReplaceSkip(c, ReplaceAll(t, "~", "~0"), "~0", "~");
      }
    }
  }

  lemma UnescapeEscape(s: string)
    ensures Unescape(Escape(s)) == s
  {
    UndoSlash(s);
    UndoTilde(s);
  }

  // ---- pointers of token lists ----

  /** The pointer of a list of reference tokens. */
  function Render(tokens: seq<string>): string {
    if tokens == [] then "" else "/" + Escape(tokens[0]) + Render(tokens[1..])
  }

  /** The tokens that `FindPointer` reads out of a pointer that starts with a slash. */
  function Tokens(pointer: string): seq<string>
    requires HasPrefix(pointer, "/")
  {
    UnescapeAll(Split(pointer[1..], '/'))
  }

  function UnescapeAll(parts: seq<string>): (tokens: seq<string>)
    ensures |tokens| == |parts|
  {
    if parts == [] then [] else [Unescape(parts[0])] + UnescapeAll(parts[1..])
  }

  /** Reading back a rendered pointer gives its tokens. */
  lemma {:induction false} TokensRender(tokens: seq<string>)
    requires tokens != []
    ensures HasPrefix(Render(tokens), "/")
    ensures Tokens(Render(tokens)) == tokens
  {
    var head, tail := Escape(tokens[0]), tokens[1..];
    EscapeHasNoSlash(tokens[0]);
    UnescapeEscape(tokens[0]);
    if tail == [] {
      assert Render(tokens)[1..] == head;
      SplitWhole(head, '/');
    } else {
      TokensRender(tail);
      var rest := Render(tail)[1..];
      assert Render(tail) == ['/'] + rest;
      RenderTail(head, rest);
      SplitPrefix(head, rest, '/');
      assert ([head] + Split(rest, '/'))[1..] == Split(rest, '/');
    }
  }

  lemma RenderTail(head: string, rest: string)
    ensures ("/" + head + (['/'] + rest))[1..] == head + ['/'] + rest
  {
  }

  lemma RenderInjective(a: seq<string>, b: seq<string>)
    requires Render(a) == Render(b)
    ensures a == b
  {
    if a != [] && b != [] {
      TokensRender(a);
      TokensRender(b);
    }
  }

  lemma {:induction false} EscapesToItself(s: string)
    requires '~' !in s && '/' !in s
    ensures Escape(s) == s
  {
    if s == "" {
      EscapeStep('a', "");
    } else {
      EscapeStep(s[0], s[1..]);
      EscapesToItself(s[1..]);
      assert [s[0]] + s[1..] == s;
    }
  }

  /** A token with nothing to escape is spelled as it is. */
  lemma PlainToken(token: string)
    requires '~' !in token && '/' !in token
    ensures Render([token]) == "/" + token
  {
    EscapesToItself(token);
    assert Render([]) == "";
  }

  lemma PlainThen(token: string, rest: seq<string>)
    requires '~' !in token && '/' !in token
    ensures Render([token] + rest) == ("/" + token) + Render(rest)
  {
    EscapesToItself(token);
    assert ([token] + rest)[1..] == rest;
  }

  lemma LastToken(token: string)
    ensures Render([token]) == "/" + Escape(token)
  {
    assert Render([]) == "";
  }

  lemma KeywordThen(keyword: string, spelled: string, token: string)
    requires '~' !in keyword && '/' !in keyword && spelled == "/" + keyword + "/"
    ensures Render([keyword, token]) == spelled + Escape(token)
  {
    assert [keyword, token] == [keyword] + [token];
    PlainThen(keyword, [token]);
    LastToken(token);
    Associate("/" + keyword, "/", Escape(token));
  }

  lemma {:induction false} RenderConcat(a: seq<string>, b: seq<string>)
    ensures Render(a + b) == Render(a) + Render(b)
  {
    if a == [] {
      assert a + b == b;
    } else {
      assert (a + b)[0] == a[0] && (a + b)[1..] == a[1..] + b;
      RenderConcat(a[1..], b);
      Associate("/" + Escape(a[0]), Render(a[1..]), Render(b));
    }
  }

  // ---- positions in a tree ----

  /** One step from a node to a child: an entry of a mapping or an item of a sequence. */
  datatype Step = Key(name: string) | Index(n: nat)

  /** The reference token the walk appends for a step. Item numbers contain nothing to escape. */
  function Token(step: Step): string {
    match step
    case Key(name) => name
    case Index(n) => Decimal(n)
  }

  function PathTokens(path: seq<Step>): (tokens: seq<string>)
    ensures |tokens| == |path|
  {
    if path == [] then [] else [Token(path[0])] + PathTokens(path[1..])
  }

  function PointerOf(path: seq<Step>): string {
    Render(PathTokens(path))
  }

  /** The first entry with the given key: `mappingValue`. */
  function FirstEntry(entries: seq<(string, Node)>, name: string): (r: Option<Node>)
    ensures r.Some? ==> exists i :: 0 <= i < |entries| && entries[i] == (name, r.value)
    ensures r.None? ==> forall i :: 0 <= i < |entries| ==> entries[i].0 != name
  {
    if entries == [] then None
    else if entries[0].0 == name then assert entries[0] == (name, entries[0].1); Some(entries[0].1)
    else
      var r := FirstEntry(entries[1..], name);
      assert r.Some? ==> exists i :: 0 <= i < |entries[1..]| && entries[1..][i] == (name, r.value);
      assert forall i :: 0 <= i < |entries[1..]| ==> entries[1..][i] == entries[i + 1];
      r
  }

  predicate DistinctKeys(entries: seq<(string, Node)>) {
    forall i, j :: 0 <= i < j < |entries| ==> entries[i].0 != entries[j].0
  }

  /** No mapping in the tree repeats a key. */
  predicate UniqueKeys(node: Node) {
    match node
    case Mapping(entries) =>
      DistinctKeys(entries) && forall i :: 0 <= i < |entries| ==> UniqueKeys(entries[i].1)
    case Sequence(items) => forall i :: 0 <= i < |items| ==> UniqueKeys(items[i])
    case _ => true
  }

  /** `target` sits at `path` below `node`. */
  ghost predicate At(node: Node, path: seq<Step>, target: Node)
    decreases |path|
  {
    if path == [] then node == target
    else match path[0]
      case Key(name) =>
        node.Mapping? &&
        exists i :: 0 <= i < |node.entries| && node.entries[i].0 == name &&
                    At(node.entries[i].1, path[1..], target)
      case Index(n) =>
        node.Sequence? && n < |node.items| && At(node.items[n], path[1..], target)
  }

  /** Following tokens through mappings only. */
  function Descend(node: Node, tokens: seq<string>): Option<Node>
    decreases |tokens|
  {
    if tokens == [] then Some(node)
    else if !node.Mapping? then None
    else match FirstEntry(node.entries, tokens[0])
      case None => None
      case Some(child) => Descend(child, tokens[1..])
  }

  /** What a pointer names in a document. */
  function Resolve(root: Node, pointer: string): Option<Node> {
    if pointer == "" then Some(root)
    else if !HasPrefix(pointer, "/") then None
    else Descend(root, Tokens(pointer))
  }

  lemma {:induction false} DescendNone(node: Node, tokens: seq<string>, k: nat)
    requires k <= |tokens| && Descend(node, tokens[..k]).None?
    ensures Descend(node, tokens).None?
    decreases k
  {
    if k > 0 && node.Mapping? {
      assert tokens[..k][0] == tokens[0];
      var next := FirstEntry(node.entries, tokens[0]);
      if next.Some? {
        assert tokens[..k][1..] == tokens[1..][..k - 1];
        DescendNone(next.value, tokens[1..], k - 1);
      }
    }
  }

  lemma {:induction false} DescendAppend(node: Node, tokens: seq<string>, token: string)
    ensures Descend(node, tokens + [token]) ==
            match Descend(node, tokens)
            case None => None
            case Some(child) => if child.Mapping? then FirstEntry(child.entries, token) else None
    decreases |tokens|
  {
    if tokens == [] {
      assert tokens + [token] == [token];
      assert [token][1..] == [];
    } else {
      assert (tokens + [token])[1..] == tokens[1..] + [token];
      assert (tokens + [token])[0] == tokens[0];
      if node.Mapping? && FirstEntry(node.entries, tokens[0]).Some? {
        DescendAppend(FirstEntry(node.entries, tokens[0]).value, tokens[1..], token);
      }
    }
  }

  /** The cursor loop that follows a pointer from the document node. */
  method FindPointer(root: Node, pointer: string) returns (found: Option<Node>)
    ensures found == Resolve(root, pointer)
  {
    if pointer == "" {
      return Some(root);
    }
    if !HasPrefix(pointer, "/") {
      return None;
    }
    var parts := Split(pointer[1..], '/');
    ghost var tokens := Tokens(pointer);
    var node := Some(root);
    for i := 0 to |parts|
      invariant node == Descend(root, tokens[..i])
    {
      UnescapeAt(parts, i);
      assert tokens[..i + 1] == tokens[..i] + [tokens[i]];
      DescendAppend(root, tokens[..i], tokens[i]);
      if node.None? || !node.value.Mapping? {
        DescendNone(root, tokens, i + 1);
        return None;
      }
      node := FirstEntry(node.value.entries, Unescape(parts[i]));
    }
    assert tokens[..|parts|] == tokens;
    found := node;
  }

  lemma {:induction false} UnescapeAt(parts: seq<string>, i: nat)
    requires i < |parts|
    ensures UnescapeAll(parts)[i] == Unescape(parts[i])
  {
    if i > 0 {
      UnescapeAt(parts[1..], i - 1);
    }
  }

  predicate OnlyKeys(path: seq<Step>) {
    path == [] || (path[0].Key? && OnlyKeys(path[1..]))
  }

  lemma FirstEntryIsUnique(entries: seq<(string, Node)>, i: nat)
    requires DistinctKeys(entries) && i < |entries|
    ensures FirstEntry(entries, entries[i].0) == Some(entries[i].1)
  {
    var r := FirstEntry(entries, entries[i].0);
    assert r.Some?;
    var j :| 0 <= j < |entries| && entries[j] == (entries[i].0, r.value);
  }

  lemma {:induction false} DescendAlong(node: Node, path: seq<Step>, target: Node)
    requires UniqueKeys(node) && At(node, path, target)
    ensures Descend(node, PathTokens(path)) == if OnlyKeys(path) then Some(target) else None
    decreases |path|
  {
    if path != [] {
      assert PathTokens(path)[1..] == PathTokens(path[1..]);
      match path[0]
      case Key(name) =>
        var i :| 0 <= i < |node.entries| && node.entries[i].0 == name &&
                 At(node.entries[i].1, path[1..], target);
        FirstEntryIsUnique(node.entries, i);
        DescendAlong(node.entries[i].1, path[1..], target);
      case Index(n) =>
    }
  }

  /**
   * A node of a document without repeated keys is found again under the pointer the walk gives it,
   * exactly when no sequence lies on the way.
   */
  lemma FindsNodeByItsPointer(root: Node, path: seq<Step>, target: Node)
    requires UniqueKeys(root) && At(root, path, target)
    ensures Resolve(root, PointerOf(path)) == if OnlyKeys(path) then Some(target) else None
  {
    DescendAlong(root, path, target);
    if path != [] {
      TokensRender(PathTokens(path));
    }
  }

  /** The pointer spells these tokens; the empty pointer spells none. */
  ghost predicate SpellsTokens(pointer: string, tokens: seq<string>) {
    if pointer == "" then tokens == [] else HasPrefix(pointer, "/") && Tokens(pointer) == tokens
  }

  lemma {:induction false} DescendPath(node: Node, tokens: seq<string>) returns (path: seq<Step>)
    requires Descend(node, tokens).Some?
    ensures OnlyKeys(path) && PathTokens(path) == tokens && At(node, path, Descend(node, tokens).value)
    decreases |tokens|
  {
    if tokens == [] {
      path := [];
    } else {
      var child := FirstEntry(node.entries, tokens[0]).value;
      var rest := DescendPath(child, tokens[1..]);
      path := [Key(tokens[0])] + rest;
      assert path[1..] == rest;
    }
  }

  /** In a document without repeated keys, a pointer names exactly the nodes at the positions it spells. */
  lemma ResolveIs(root: Node, pointer: string, target: Node)
    requires UniqueKeys(root)
    ensures Resolve(root, pointer) == Some(target) <==>
            exists path :: OnlyKeys(path) && At(root, path, target) && SpellsTokens(pointer, PathTokens(path))
  {
    if Resolve(root, pointer) == Some(target) {
      var path := DescendPath(root, if pointer == "" then [] else Tokens(pointer));
      assert SpellsTokens(pointer, PathTokens(path));
    }
    if path :| OnlyKeys(path) && At(root, path, target) && SpellsTokens(pointer, PathTokens(path)) {
      DescendAlong(root, path, target);
    }
  }

  lemma {:induction false} SameTokensSamePath(node: Node, p: seq<Step>, q: seq<Step>, a: Node, b: Node)
    requires UniqueKeys(node) && At(node, p, a) && At(node, q, b) && PathTokens(p) == PathTokens(q)
    ensures p == q && a == b
    decreases |p|
  {
    if p != [] {
      assert PathTokens(p)[1..] == PathTokens(p[1..]) && PathTokens(q)[1..] == PathTokens(q[1..]);
      assert Token(p[0]) == PathTokens(p)[0] == PathTokens(q)[0] == Token(q[0]);
      match p[0]
      case Key(name) =>
        var i :| 0 <= i < |node.entries| && node.entries[i].0 == name && At(node.entries[i].1, p[1..], a);
        var j :| 0 <= j < |node.entries| && node.entries[j].0 == name && At(node.entries[j].1, q[1..], b);
        SameTokensSamePath(node.entries[i].1, p[1..], q[1..], a, b);
      case Index(n) =>
        DecimalRoundTrip(n);
        DecimalRoundTrip(q[0].n);
        SameTokensSamePath(node.items[n], p[1..], q[1..], a, b);
    }
  }

  /** Distinct positions of a document without repeated keys get distinct pointers. */
  lemma DistinctPositionsDistinctPointers(root: Node, p: seq<Step>, q: seq<Step>, a: Node, b: Node)
    requires UniqueKeys(root) && At(root, p, a) && At(root, q, b)
    requires PointerOf(p) == PointerOf(q)
    ensures p == q && a == b
  {
    RenderInjective(PathTokens(p), PathTokens(q));
    SameTokensSamePath(root, p, q, a, b);
  }

  // ---- canonical references as text ----

  function LastIndexOf(s: string, c: char): (i: int)
    ensures -1 <= i < |s|
    ensures i >= 0 ==> s[i] == c
    ensures forall j :: i < j < |s| ==> s[j] != c
  {
    if s == "" then -1
    else if s[|s| - 1] == c then |s| - 1
    else
      LastIndexOf(s[..|s| - 1], c)
  }

  function SplitCanonicalReference(reference: string): (string, string) {
    var i := LastIndexOf(reference, '#');
    if i < 0 then (reference, "") else (reference[..i], reference[i + 1..])
  }

  function CanonicalReference(file: string, pointer: string): string {
    file + "#" + pointer
  }

  /** Splitting a canonical reference recovers its parts exactly when the pointer has no `#`. */
  lemma SplitRecoversIffNoHash(file: string, pointer: string)
    ensures SplitCanonicalReference(CanonicalReference(file, pointer)) == (file, pointer) <==>
            '#' !in pointer
  {
    var s := CanonicalReference(file, pointer);
    var i := LastIndexOf(s, '#');
    assert s[|file|] == '#' && s[|file| + 1..] == pointer && s[..|file|] == file;
    assert |file| <= i;
    assert '#' in pointer ==> exists j :: 0 <= j < |pointer| && pointer[j] == '#' && s[|file| + 1 + j] == '#';
  }
}
