/**
 * File-pattern globs: their compilation to regular expressions, and what the compiled expressions match,
 * path segment by path segment.
 */
module Globs {
  import opened Text

  /** The pieces of the expressions the compiler emits. */
  datatype Atom =
    | Literal(c: char)  // the escaped character
    | One               // [^/]
    | Run               // [^/]*
    | Dirs              // (?:[^/]+/)*
    | Rest              // .*

  // ---- what the expression engine accepts ----

  /** Zero or more nonempty pieces without a slash, each closed by a slash. */
  predicate IsDirs(t: string)
    decreases |t|, 1
  {
    t == "" || exists i {:trigger DirAndDirs(t, i)} :: 0 < i < |t| && DirAndDirs(t, i)
  }

  predicate DirAndDirs(t: string, i: nat)
    requires 0 < i < |t|
    decreases |t|, 0
  {
    '/' !in t[..i] && t[i] == '/' && IsDirs(t[i + 1..])
  }

  /** The atoms followed by `$` match all of `s`; `$` also matches before a final line break, `.` never matches one. */
  predicate Accepts(atoms: seq<Atom>, s: string)
    decreases |atoms|, 0
  {
    if atoms == [] then s == "" || s == "\n"
    else
      var more := atoms[1..];
      match atoms[0]
      case Literal(c) => s != "" && s[0] == c && Accepts(more, s[1..])
      case One => s != "" && s[0] != '/' && Accepts(more, s[1..])
      case Run => exists k {:trigger AfterRun(more, s, k)} :: 0 <= k <= |s| && AfterRun(more, s, k)
      case Dirs => exists k {:trigger AfterDirs(more, s, k)} :: 0 <= k <= |s| && AfterDirs(more, s, k)
      case Rest => exists k {:trigger AfterRest(more, s, k)} :: 0 <= k <= |s| && AfterRest(more, s, k)
  }

  /** The first `k` characters are directories and the atoms match what follows. */
  predicate AfterDirs(more: seq<Atom>, s: string, k: nat)
    decreases |more|, 1
  {
    k <= |s| && IsDirs(s[..k]) && Accepts(more, s[k..])
  }

  predicate AfterRun(more: seq<Atom>, s: string, k: nat)
    decreases |more|, 1
  {
    k <= |s| && '/' !in s[..k] && Accepts(more, s[k..])
  }

  predicate AfterRest(more: seq<Atom>, s: string, k: nat)
    decreases |more|, 1
  {
    k <= |s| && '\n' !in s[..k] && Accepts(more, s[k..])
  }

  // ---- the compiler ----

  /** The atom at the front of a pattern and the number of characters it stands for. */
  function Front(pattern: string): (front: (Atom, nat))
    requires pattern != ""
    ensures 1 <= front.1 <= |pattern|
  {
    if pattern[0] == '*' then
      if |pattern| > 1 && pattern[1] == '*' then if |pattern| > 2 && pattern[2] == '/' then (Dirs, 3) else (Rest, 2)
      else (Run, 1)
    else if pattern[0] == '?' then (One, 1)
    else (Literal(pattern[0]), 1)
  }

  function Translate(pattern: string): seq<Atom>
    decreases |pattern|
  {
    if pattern == "" then [] else [Front(pattern).0] + Translate(pattern[Front(pattern).1..])
  }

  method GlobToRegex(pattern: string) returns (out: seq<Atom>)
    ensures out == Translate(pattern)
  {
    out := [];
    var i, n := 0, |pattern|;
    assert pattern[0..] == pattern;
    while i < n
      invariant 0 <= i <= n && Translate(pattern) == out + Translate(pattern[i..])
    {
      var c := pattern[i];
      ghost var at := i;
      var atom;
      if c == '*' {
        if i + 1 < n && pattern[i + 1] == '*' {
          i := i + 2;
          if i < n && pattern[i] == '/' {
            atom := Dirs;
            i := i + 1;
          } else {
            atom := Rest;
          }
        } else {
          atom := Run;
          i := i + 1;
        }
      } else if c == '?' {
        atom := One;
        i := i + 1;
      } else {
        atom := Literal(c);
        i := i + 1;
      }
      TranslateOne(pattern, at, i, atom, out);
      out := out + [atom];
    }
  }

  lemma TranslateOne(pattern: string, i: nat, j: nat, atom: Atom, out: seq<Atom>)
    requires i < j <= |pattern| && Front(pattern[i..]) == (atom, j - i)
    ensures out + Translate(pattern[i..]) == (out + [atom]) + Translate(pattern[j..])
  {
    assert pattern[i..][j - i..] == pattern[j..];
  }

  // ---- the segment matcher ----

  /** One segment: `*` is any run of characters, `?` any one character. */
  predicate SegmentMatches(glob: string, segment: string)
    decreases |glob|, 1
  {
    if glob == "" then segment == ""
    else if glob[0] == '*' then
      exists k {:trigger StarTakes(glob, segment, k)} :: 0 <= k <= |segment| && StarTakes(glob, segment, k)
    else segment != "" && (glob[0] == '?' || glob[0] == segment[0]) && SegmentMatches(glob[1..], segment[1..])
  }

  /** A leading `*` takes the first `k` characters. */
  predicate StarTakes(glob: string, segment: string, k: nat)
    requires glob != ""
    decreases |glob|, 0
  {
    k <= |segment| && SegmentMatches(glob[1..], segment[k..])
  }

  /** A final `**` spans one or more segments, any other `**` zero or more. */
  predicate PathMatches(globs: seq<string>, path: seq<string>)
    requires globs != []
    decreases |globs|
  {
    if |globs| == 1 then
      if globs[0] == "**" then path != [] else |path| == 1 && SegmentMatches(globs[0], path[0])
    else if globs[0] == "**" then exists k :: 0 <= k <= |path| && PathMatches(globs[1..], path[k..])
    else path != [] && SegmentMatches(globs[0], path[0]) && PathMatches(globs[1..], path[1..])
  }

  ghost predicate FreeOfDoubleStar(g: string) {
    forall i, j :: 0 <= i && j == i + 1 && j < |g| ==> !(g[i] == '*' && g[j] == '*')
  }

  ghost predicate IsGlobSegment(g: string) {
    '/' !in g && (g == "**" || FreeOfDoubleStar(g))
  }

  ghost predicate IsPathSegment(p: string) {
    p != "" && '/' !in p && '\n' !in p
  }

  // ---- compiling a path of segments ----

  function SegmentAtoms(g: string): seq<Atom> {
    if g == "" then []
    else [SegmentAtom(g[0])] + SegmentAtoms(g[1..])
  }

  function SegmentAtom(c: char): Atom {
    if c == '*' then Run else if c == '?' then One else Literal(c)
  }

  lemma {:induction false} TranslateSegment(g: string, rest: string)
    requires FreeOfDoubleStar(g) && (rest == "" || rest[0] == '/')
    ensures Translate(g + rest) == SegmentAtoms(g) + Translate(rest)
  {
    if g == "" {
      assert g + rest == rest;
    } else {
      TranslateSegment(g[1..], rest);
      SegmentFront(g, rest);
      AtomConcat([SegmentAtom(g[0])], SegmentAtoms(g[1..]), Translate(rest));
    }
  }

  lemma AtomConcat(a: seq<Atom>, b: seq<Atom>, c: seq<Atom>)
    ensures a + (b + c) == a + b + c
  {
  }

  lemma SegmentFront(g: string, rest: string)
    requires g != "" && FreeOfDoubleStar(g) && (rest == "" || rest[0] == '/')
    ensures Translate(g + rest) == [SegmentAtom(g[0])] + Translate(g[1..] + rest)
  {
    assert (g + rest)[1..] == g[1..] + rest;
    assert |g| > 1 ==> (g + rest)[1] == g[1];
    assert |g| == 1 && rest != "" ==> (g + rest)[1] == rest[0];
  }

  /** The compiled form of a whole pattern, segment by segment. */
  function PathAtoms(globs: seq<string>): seq<Atom>
    requires globs != []
  {
    if |globs| == 1 then if globs[0] == "**" then [Rest] else SegmentAtoms(globs[0])
    else if globs[0] == "**" then [Dirs] + PathAtoms(globs[1..])
    else SegmentAtoms(globs[0]) + ([Literal('/')] + PathAtoms(globs[1..]))
  }

  lemma TranslateDirs(tail: string)
    ensures Translate("**" + ['/'] + tail) == [Dirs] + Translate(tail)
  {
    var whole := "**" + ['/'] + tail;
    assert whole[0] == '*' && whole[1] == '*' && whole[2] == '/' && whole[3..] == tail;
  }

  lemma {:induction false} TranslatePath(globs: seq<string>)
    requires globs != [] && forall i :: 0 <= i < |globs| ==> IsGlobSegment(globs[i])
    ensures Translate(Join(globs, '/')) == PathAtoms(globs)
  {
    var g := globs[0];
    if |globs| == 1 {
      TranslateLast(g);
    } else {
      TranslatePath(globs[1..]);
      if g == "**" {
        TranslateDirs(Join(globs[1..], '/'));
      } else {
        TranslateThen(g, Join(globs[1..], '/'));
      }
    }
  }

  lemma TranslateLast(g: string)
    requires IsGlobSegment(g)
    ensures Translate(g) == if g == "**" then [Rest] else SegmentAtoms(g)
  {
    if g == "**" {
      assert g[2..] == "";
    } else {
      TranslateSegment(g, "");
      assert g + "" == g;
    }
  }

  lemma TranslateThen(g: string, tail: string)
    requires FreeOfDoubleStar(g)
    ensures Translate(g + ['/'] + tail) == SegmentAtoms(g) + ([Literal('/')] + Translate(tail))
  {
    TranslateSegment(g, ['/'] + tail);
    assert g + ['/'] + tail == g + (['/'] + tail);
    assert (['/'] + tail)[1..] == tail;
  }

  // ---- matching a path of segments ----

  /** A compiled segment followed by a slash takes the first segment of a longer path. */
  lemma {:induction false} AcceptsSegment(g: string, more: seq<Atom>, head: string, t: string)
    requires '/' !in g && '/' !in head
    ensures Accepts(SegmentAtoms(g) + ([Literal('/')] + more), head + (['/'] + t)) <==>
              SegmentMatches(g, head) && Accepts(more, t)
    decreases |g|
  {
    var s := head + (['/'] + t);
    var after := [Literal('/')] + more;
    if g == "" {
      assert SegmentAtoms(g) + after == after;
      assert after[1..] == more;
      assert head == "" ==> s[1..] == t;
    } else {
      var atoms := SegmentAtoms(g) + after;
      assert atoms[1..] == SegmentAtoms(g[1..]) + after;
      if g[0] == '*' {
        forall k | 0 <= k <= |head| ensures TailsAgree(g, atoms, more, head, t, k) {
          AcceptsSegment(g[1..], more, head[k..], t);
          assert s[k..] == head[k..] + (['/'] + t);
        }
        AcceptsStar(g, atoms, more, head, t);
      } else if head != "" {
        AcceptsSegment(g[1..], more, head[1..], t);
        assert s[1..] == head[1..] + (['/'] + t);
      }
    }
  }

  /** After `k` characters of the segment, atoms and glob agree on the rest. */
  ghost predicate TailsAgree(g: string, atoms: seq<Atom>, more: seq<Atom>, head: string, t: string, k: nat) {
    g != "" && atoms != [] && k <= |head| &&
    (Accepts(atoms[1..], (head + (['/'] + t))[k..]) <==> SegmentMatches(g[1..], head[k..]) && Accepts(more, t))
  }

  /** The case of a leading `*`, given the rest of the segment. */
  lemma AcceptsStar(g: string, atoms: seq<Atom>, more: seq<Atom>, head: string, t: string)
    requires g != "" && g[0] == '*' && atoms != [] && atoms[0] == Run && '/' !in head
    requires forall k {:trigger TailsAgree(g, atoms, more, head, t, k)} ::
               0 <= k <= |head| ==> TailsAgree(g, atoms, more, head, t, k)
    ensures Accepts(atoms, head + (['/'] + t)) <==> SegmentMatches(g, head) && Accepts(more, t)
  {
    var s := head + (['/'] + t);
    if Accepts(atoms, s) {
      var k := RunTaken(atoms, s);
      SlashFree(head, t, k);
      assert TailsAgree(g, atoms, more, head, t, k);
      StarHit(g, head, k);
    }
    if SegmentMatches(g, head) && Accepts(more, t) {
      var k := StarTaken(g, head);
      SlashFree(head, t, k);
      assert TailsAgree(g, atoms, more, head, t, k);
      RunHit(atoms, s, k);
    }
  }

  lemma RunTaken(atoms: seq<Atom>, s: string) returns (k: nat)
    requires atoms != [] && atoms[0] == Run && Accepts(atoms, s)
    ensures AfterRun(atoms[1..], s, k)
  {
    k :| 0 <= k <= |s| && AfterRun(atoms[1..], s, k);
  }

  lemma RunHit(atoms: seq<Atom>, s: string, k: nat)
    requires atoms != [] && atoms[0] == Run && AfterRun(atoms[1..], s, k)
    ensures Accepts(atoms, s)
  {
  }

  lemma StarTaken(g: string, segment: string) returns (k: nat)
    requires g != "" && g[0] == '*' && SegmentMatches(g, segment)
    ensures StarTakes(g, segment, k)
  {
    k :| 0 <= k <= |segment| && StarTakes(g, segment, k);
  }

  lemma StarHit(g: string, segment: string, k: nat)
    requires g != "" && g[0] == '*' && StarTakes(g, segment, k)
    ensures SegmentMatches(g, segment)
  {
  }

  lemma SlashFree(head: string, t: string, k: nat)
    requires '/' !in head && k <= |head + (['/'] + t)|
    ensures '/' !in (head + (['/'] + t))[..k] <==> k <= |head|
  {
    var s := head + (['/'] + t);
    if k <= |head| {
      assert s[..k] == head[..k];
    } else {
      assert s[..k][|head|] == '/';
    }
  }

  /** Without a slash in the text nothing matches a slash. */
  lemma {:induction false} NeedsSlash(g: string, more: seq<Atom>, s: string)
    requires '/' !in g && '/' !in s
    ensures !Accepts(SegmentAtoms(g) + ([Literal('/')] + more), s)
    decreases |g|
  {
    var after := [Literal('/')] + more;
    if g == "" {
      assert SegmentAtoms(g) + after == after;
    } else {
      assert (SegmentAtoms(g) + after)[1..] == SegmentAtoms(g[1..]) + after;
      forall k | 0 <= k <= |s| ensures !Accepts(SegmentAtoms(g[1..]) + after, s[k..]) {
        NeedsSlash(g[1..], more, s[k..]);
      }
      forall k | 0 <= k <= |s| ensures !AfterRun(SegmentAtoms(g[1..]) + after, s, k) {
        assert !Accepts(SegmentAtoms(g[1..]) + after, s[k..]);
      }
    }
  }

  /** A compiled last segment matches what is left if that is one segment. */
  lemma {:induction false} AcceptsLast(g: string, s: string)
    requires '/' !in g && '\n' !in s
    ensures Accepts(SegmentAtoms(g), s) <==> '/' !in s && SegmentMatches(g, s)
    decreases |g|
  {
    if g != "" {
      var atoms := SegmentAtoms(g);
      assert atoms[1..] == SegmentAtoms(g[1..]);
      if g[0] == '*' {
        if Accepts(atoms, s) {
          var k := RunTaken(atoms, s);
          AcceptsLast(g[1..], s[k..]);
          assert s == s[..k] + s[k..];
          StarHit(g, s, k);
        }
        if '/' !in s && SegmentMatches(g, s) {
          var k := StarTaken(g, s);
          AcceptsLast(g[1..], s[k..]);
          RunHit(atoms, s, k);
        }
      } else if s != "" {
        AcceptsLast(g[1..], s[1..]);
        assert s == [s[0]] + s[1..];
      }
    }
  }

  /** A leading `**` skips nothing, or one nonempty segment and then again. */
  lemma DirsUnfolds(more: seq<Atom>, head: string, t: string)
    requires head != "" && '/' !in head
    ensures Accepts([Dirs] + more, head + (['/'] + t)) <==>
            Accepts(more, head + (['/'] + t)) || Accepts([Dirs] + more, t)
  {
    if Accepts([Dirs] + more, head + (['/'] + t)) {
      DirsSkip(more, head, t);
    }
    if Accepts(more, head + (['/'] + t)) {
      DirsNone(more, head + (['/'] + t));
    }
    if Accepts([Dirs] + more, t) {
      DirsAgain(more, head, t);
    }
  }

  lemma DirsSkip(more: seq<Atom>, head: string, t: string)
    requires head != "" && '/' !in head && Accepts([Dirs] + more, head + (['/'] + t))
    ensures Accepts(more, head + (['/'] + t)) || Accepts([Dirs] + more, t)
  {
    var s := head + (['/'] + t);
    var k := DirsTaken(more, s);
    if k > 0 {
      DirsStart(head, t, k);
      DirsShift(more, head, t, k);
      DirsHit(more, t, k - |head| - 1);
    } else {
      assert s[0..] == s;
    }
  }

  /** The directories after the first one. */
  lemma DirsShift(more: seq<Atom>, head: string, t: string, k: nat)
    requires AfterDirs(more, head + (['/'] + t), k) && |head| < k && IsDirs(t[..k - |head| - 1])
    ensures AfterDirs(more, t, k - |head| - 1)
  {
    assert t[k - |head| - 1..] == (head + (['/'] + t))[k..];
  }

  lemma DirsAgain(more: seq<Atom>, head: string, t: string)
    requires head != "" && '/' !in head && Accepts([Dirs] + more, t)
    ensures Accepts([Dirs] + more, head + (['/'] + t))
  {
    var s, n := head + (['/'] + t), |head| + 1;
    var k := DirsTaken(more, t);
    DirsExtend(head, t, k);
    assert s[n + k..] == t[k..];
    DirsHit(more, s, n + k);
  }

  lemma DirsTaken(more: seq<Atom>, s: string) returns (k: nat)
    requires Accepts([Dirs] + more, s)
    ensures AfterDirs(more, s, k)
  {
    assert ([Dirs] + more)[1..] == more;
    k :| 0 <= k <= |s| && AfterDirs(more, s, k);
  }

  lemma DirsHit(more: seq<Atom>, s: string, k: nat)
    requires AfterDirs(more, s, k)
    ensures Accepts([Dirs] + more, s)
  {
    assert ([Dirs] + more)[1..] == more;
  }

  lemma DirsNone(more: seq<Atom>, s: string)
    requires Accepts(more, s)
    ensures Accepts([Dirs] + more, s)
  {
    assert s[..0] == "" && s[0..] == s;
    DirsHit(more, s, 0);
  }

  lemma DirsWithoutSlash(more: seq<Atom>, s: string)
    requires '/' !in s
    ensures Accepts([Dirs] + more, s) <==> Accepts(more, s)
  {
    assert ([Dirs] + more)[1..] == more;
    if Accepts([Dirs] + more, s) {
      var k := DirsTaken(more, s);
      if s[..k] != "" {
        DirsHasSlash(s[..k]);
      }
      assert s[0..] == s;
    }
    if Accepts(more, s) {
      DirsNone(more, s);
    }
  }

  lemma DirsHasSlash(t: string)
    requires IsDirs(t) && t != ""
    ensures '/' in t
  {
    var i :| 0 < i < |t| && DirAndDirs(t, i);
    assert t[i] in t;
  }

  lemma DirsStart(head: string, t: string, k: nat)
    requires head != "" && '/' !in head && 0 < k <= |head| + 1 + |t| && IsDirs((head + (['/'] + t))[..k])
    ensures |head| < k && IsDirs(t[..k - |head| - 1])
  {
    var s := head + (['/'] + t);
    var u := s[..k];
    var i :| 0 < i < |u| && DirAndDirs(u, i);
    FirstSlash(head, t, k, i);
    assert u[i + 1..] == t[..k - |head| - 1];
  }

  lemma FirstSlash(head: string, t: string, k: nat, i: nat)
    requires '/' !in head && i < k <= |head| + 1 + |t|
    requires var u := (head + (['/'] + t))[..k]; '/' !in u[..i] && u[i] == '/'
    ensures i == |head|
  {
    var s := head + (['/'] + t);
    var u := s[..k];
    assert u[..i] == s[..i] && u[..i + 1] == s[..i + 1];
    SlashFree(head, t, i);
    assert u[..i + 1][i] == '/';
    SlashFree(head, t, i + 1);
  }

  lemma DirsExtend(head: string, t: string, k: nat)
    requires head != "" && '/' !in head && k <= |t| && IsDirs(t[..k])
    ensures IsDirs((head + (['/'] + t))[..|head| + 1 + k])
  {
    var u := (head + (['/'] + t))[..|head| + 1 + k];
    assert u[..|head|] == head && u[|head|] == '/';
    assert u[|head| + 1..] == t[..k];
    assert DirAndDirs(u, |head|);
  }

  lemma JoinFirst(path: seq<string>)
    requires path != [] && forall p :: p in path ==> IsPathSegment(p)
    ensures IsPathSegment(path[0]) && '\n' !in Join(path, '/')
    ensures |path| == 1 ==> Join(path, '/') == path[0]
    ensures |path| > 1 ==> Join(path, '/') == path[0] + (['/'] + Join(path[1..], '/'))
  {
    assert path[0] in path;
    NoNewline(path);
  }

  lemma {:induction false} NoNewline(path: seq<string>)
    requires path != [] && forall p :: p in path ==> IsPathSegment(p)
    ensures '\n' !in Join(path, '/')
  {
    assert path[0] in path;
    if |path| > 1 {
      NoNewline(path[1..]);
    }
  }

  /** The atoms accept the path from segment `k` on. */
  ghost predicate AcceptsFrom(more: seq<Atom>, path: seq<string>, k: nat) {
    k < |path| && Accepts(more, Join(path[k..], '/'))
  }

  lemma {:induction false} AcceptsDirs(more: seq<Atom>, path: seq<string>)
    requires path != [] && forall p :: p in path ==> IsPathSegment(p)
    ensures Accepts([Dirs] + more, Join(path, '/')) <==>
              exists k {:trigger AcceptsFrom(more, path, k)} :: AcceptsFrom(more, path, k)
    decreases |path|
  {
    JoinFirst(path);
    FromStart(more, path);
    if |path| == 1 {
      DirsWithoutSlash(more, Join(path, '/'));
    } else {
      DirsUnfolds(more, path[0], Join(path[1..], '/'));
      AcceptsDirs(more, path[1..]);
      if k: nat :| AcceptsFrom(more, path[1..], k) {
        FromLater(more, path, k + 1);
      }
      if k: nat :| AcceptsFrom(more, path, k) && k > 0 {
        FromLater(more, path, k);
      }
    }
  }

  lemma FromStart(more: seq<Atom>, path: seq<string>)
    requires path != []
    ensures AcceptsFrom(more, path, 0) <==> Accepts(more, Join(path, '/'))
  {
    assert path[0..] == path;
  }

  lemma FromLater(more: seq<Atom>, path: seq<string>, k: nat)
    requires path != [] && k > 0
    ensures AcceptsFrom(more, path, k) <==> AcceptsFrom(more, path[1..], k - 1)
  {
    if k < |path| {
      assert path[k..] == path[1..][k - 1..];
    }
  }

  /** The compiled pattern accepts a normalized path exactly when the segment matcher does. */
  lemma {:induction false} PathAtomsMatch(globs: seq<string>, path: seq<string>)
    requires globs != [] && forall i :: 0 <= i < |globs| ==> IsGlobSegment(globs[i])
    requires path != [] && forall p :: p in path ==> IsPathSegment(p)
    ensures Accepts(PathAtoms(globs), Join(path, '/')) <==> PathMatches(globs, path)
    decreases |globs|
  {
    var g, s := globs[0], Join(path, '/');
    JoinFirst(path);
    if |globs| == 1 {
      if g == "**" {
        assert s[..|s|] == s && s[|s|..] == "" && [Rest][1..] == [];
        assert AfterRest([], s, |s|);
      } else {
        AcceptsLast(g, s);
        assert |path| > 1 ==> s[|path[0]|] == '/';
      }
    } else {
      var more := PathAtoms(globs[1..]);
      if g == "**" {
        AcceptsDirs(more, path);
        forall k | 0 <= k <= |path| ensures AcceptsFrom(more, path, k) <==> PathMatches(globs[1..], path[k..]) {
          if k < |path| {
            PathAtomsMatch(globs[1..], path[k..]);
          } else {
            NothingLeft(globs[1..]);
          }
        }
      } else {
        if |path| > 1 {
          AcceptsSegment(g, more, path[0], Join(path[1..], '/'));
          PathAtomsMatch(globs[1..], path[1..]);
        } else {
          NeedsSlash(g, more, s);
          NothingLeft(globs[1..]);
        }
      }
    }
  }

  /** No pattern matches an empty list of segments. */
  lemma {:induction false} NothingLeft(globs: seq<string>)
    requires globs != []
    ensures !PathMatches(globs, [])
  {
    if |globs| > 1 {
      NothingLeft(globs[1..]);
    }
  }

  lemma GlobMeansSegments(globs: seq<string>, path: seq<string>)
    requires globs != [] && forall i :: 0 <= i < |globs| ==> IsGlobSegment(globs[i])
    requires path != [] && forall p :: p in path ==> IsPathSegment(p)
    ensures Accepts(Translate(Join(globs, '/')), Join(path, '/')) <==> PathMatches(globs, path)
  {
    TranslatePath(globs);
    PathAtomsMatch(globs, path);
  }

  // ---- selecting scopes ----

  datatype Scope = Scope(included: seq<string>, excluded: seq<string>)

  ghost predicate Selects(patterns: seq<string>, path: string) {
    exists p :: p in patterns && Accepts(Translate(p), path)
  }

  /** The matcher with its cache of compiled patterns. */
  class Matcher {
    var cache: map<string, seq<Atom>>

    ghost predicate Valid()
      reads this
    {
      forall p :: p in cache ==> cache[p] == Translate(p)
    }

    constructor ()
      ensures Valid()
    {
      cache := map[];
    }

    method Compiled(pattern: string) returns (regex: seq<Atom>)
      requires Valid()
      modifies this
      ensures Valid() && regex == Translate(pattern)
      ensures cache == old(cache)[pattern := regex]
    {
      if pattern in cache {
        regex := cache[pattern];
      } else {
        regex := GlobToRegex(pattern);
      }
      cache := cache[pattern := regex];
    }

    method MatchesAny(path: string, patterns: seq<string>) returns (found: bool)
      requires Valid()
      modifies this
      ensures Valid() && (found <==> Selects(patterns, path))
    {
      for i := 0 to |patterns|
        invariant Valid() && forall j :: 0 <= j < i ==> !Accepts(Translate(patterns[j]), path)
      {
        var regex := Compiled(patterns[i]);
        if Accepts(regex, path) {
          return true;
        }
      }
      found := false;
    }

    method ScopesFor(path: string, scopes: map<string, Scope>) returns (selected: set<string>)
      requires Valid()
      modifies this
      ensures Valid()
      ensures forall n :: n in selected <==>
                n in scopes && Selects(scopes[n].included, path) && !Selects(scopes[n].excluded, path)
    {
      selected := {};
      var rest := scopes.Keys;
      while rest != {}
        invariant Valid() && rest <= scopes.Keys
        invariant forall n :: n in selected <==>
                    n in scopes && n !in rest && Selects(scopes[n].included, path) && !Selects(scopes[n].excluded, path)
        decreases rest
      {
        var n :| n in rest;
        var hit := MatchesAny(path, scopes[n].included);
        if hit {
          var dropped := MatchesAny(path, scopes[n].excluded);
          if !dropped {
            selected := selected + {n};
          }
        }
        rest := rest - {n};
      }
    }

    method IsClassified(path: string, scopes: map<string, Scope>, barriers: seq<string>) returns (classified: bool)
      requires Valid()
      modifies this
      ensures Valid()
      ensures classified <==>
        || Selects(barriers, path)
        || exists n :: n in scopes && Selects(scopes[n].included, path) && !Selects(scopes[n].excluded, path)
    {
      classified := MatchesAny(path, barriers);
      if !classified {
        var selected := ScopesFor(path, scopes);
        classified := selected != {};
      }
    }
  }
}
