/** Path templates: their decomposition into literals and parameters, and the route of an operation. */
module Routes {
  import opened Pointers
  import opened Text

  /** A template is text with holes; a hole is written `{name}`. */
  datatype Piece = Text(text: string) | Hole(name: string)

  function RenderPiece(p: Piece): string {
    match p
    case Text(text) => text
    case Hole(name) => ['{'] + name + ['}']
  }

  function RenderPieces(ps: seq<Piece>): string {
    if ps == [] then "" else RenderPiece(ps[0]) + RenderPieces(ps[1..])
  }

  /** Literals are nonempty, never adjacent and open no hole; names close no hole. */
  ghost predicate IsCanonical(ps: seq<Piece>) {
    && (forall i :: 0 <= i < |ps| ==> PieceFits(ps[i]))
    && (forall i, j :: 0 <= i && j == i + 1 && j < |ps| ==> ps[i].Hole? || ps[j].Hole?)
  }

  ghost predicate PieceFits(p: Piece) {
    match p
    case Text(text) => text != "" && '{' !in text
    case Hole(name) => '}' !in name
  }

  /** Where the first hole of a text is. */
  datatype Front = NoHole | Unclosed | Closed(lead: string, name: string, rest: string)

  function FirstHole(part: string): (front: Front)
    ensures front.NoHole? <==> '{' !in part
    ensures front.Closed? ==>
      '{' !in front.lead && '}' !in front.name && part == front.lead + (['{'] + front.name + ['}'] + front.rest)
  {
    var open := CutAt(part, '{');
    if open.None? then NoHole
    else
      var close := CutAt(open.value.1, '}');
      if close.None? then Unclosed
      else
        var (lead, name, rest) := (open.value.0, close.value.0, close.value.1);
        HoleText(lead, name, rest);
        Closed(lead, name, rest)
  }

  /** The texts before and after the first occurrence of a character. */
  function CutAt(s: string, c: char): (cut: Option<(string, string)>)
    ensures cut.None? <==> c !in s
    ensures cut.Some? ==> c !in cut.value.0 && s == cut.value.0 + [c] + cut.value.1
  {
    if s == "" then None
    else if s[0] == c then assert s == "" + [c] + s[1..]; Some(("", s[1..]))
    else
      match CutAt(s[1..], c)
      case None => None
      case Some(cut) =>
        CutConcat(s, cut.0, [c], cut.1);
        Some(([s[0]] + cut.0, cut.1))
  }

  lemma CutConcat(s: string, a: string, b: string, c: string)
    requires s != "" && s[1..] == a + b + c
    ensures s == ([s[0]] + a) + b + c
  {
    assert s == [s[0]] + s[1..];
  }

  lemma HoleText(lead: string, name: string, rest: string)
    ensures lead + ['{'] + (name + ['}'] + rest) == lead + (['{'] + name + ['}'] + rest)
  {
  }

  function Lead(text: string): seq<Piece> {
    if text != "" then [Text(text)] else []
  }

  /** The pieces of a template; none if a hole is not closed. */
  function Scan(part: string): Option<seq<Piece>>
    decreases |part|
  {
    match FirstHole(part)
    case NoHole => Some(Lead(part))
    case Unclosed => None
    case Closed(lead, name, rest) =>
      match Scan(rest)
      case None => None
      case Some(ps) => Some(Lead(lead) + ([Hole(name)] + ps))
  }

  // ---- scanning and rendering are inverse ----

  lemma {:induction false} RenderAppend(a: seq<Piece>, b: seq<Piece>)
    ensures RenderPieces(a + b) == RenderPieces(a) + RenderPieces(b)
    decreases |a|
  {
    if a == [] {
      assert a + b == b;
    } else {
      assert (a + b)[1..] == a[1..] + b;
      RenderAppend(a[1..], b);
    }
  }

  lemma RenderLead(lead: string, ps: seq<Piece>)
    ensures RenderPieces(Lead(lead) + ps) == lead + RenderPieces(ps)
  {
    if lead == "" {
      assert Lead(lead) + ps == ps;
    } else {
      assert ([Text(lead)] + ps)[1..] == ps;
    }
  }

  lemma RenderHole(name: string, ps: seq<Piece>)
    ensures RenderPieces([Hole(name)] + ps) == ['{'] + name + ['}'] + RenderPieces(ps)
  {
    assert ([Hole(name)] + ps)[1..] == ps;
  }

  lemma {:induction false} CutAtOf(a: string, c: char, b: string)
    requires c !in a
    ensures CutAt(a + [c] + b, c) == Some((a, b))
  {
    if a == "" {
      assert (a + [c] + b)[1..] == b;
    } else {
      CutAtOf(a[1..], c, b);
      TailOfCut(a, [c], b);
    }
  }

  lemma TailOfCut(a: string, b: string, c: string)
    requires a != ""
    ensures (a + b + c)[0] == a[0] && (a + b + c)[1..] == a[1..] + b + c && a == [a[0]] + a[1..]
  {
  }

  lemma FirstHoleOf(lead: string, name: string, rest: string)
    requires '{' !in lead && '}' !in name
    ensures FirstHole(lead + (['{'] + name + ['}'] + rest)) == Closed(lead, name, rest)
  {
    HoleText(lead, name, rest);
    CutAtOf(lead, '{', name + ['}'] + rest);
    CutAtOf(name, '}', rest);
  }

  /** What is scanned is canonical and renders to what was scanned. */
  lemma {:induction false} ScanRenders(part: string)
    requires Scan(part).Some?
    ensures RenderPieces(Scan(part).value) == part && IsCanonical(Scan(part).value)
    decreases |part|
  {
    match FirstHole(part)
    case NoHole =>
      RenderLead(part, []);
      assert Lead(part) + [] == Lead(part);
    case Closed(lead, name, rest) =>
      ScanRenders(rest);
      var ps := Scan(rest).value;
      RenderHole(name, ps);
      RenderLead(lead, [Hole(name)] + ps);
      CanonicalFront(lead, name, ps);
  }

  lemma CanonicalFront(lead: string, name: string, ps: seq<Piece>)
    requires '{' !in lead && '}' !in name && IsCanonical(ps)
    ensures IsCanonical(Lead(lead) + ([Hole(name)] + ps))
  {
  }

  /** Canonical pieces are the only ones with their rendering. */
  lemma {:induction false} ScanOfRender(ps: seq<Piece>)
    requires IsCanonical(ps)
    ensures Scan(RenderPieces(ps)) == Some(ps)
    decreases |ps|, 1
  {
    if ps == [] {
      assert Scan("") == Some(Lead(""));
    } else if ps[0].Hole? {
      ScanFront("", ps[0].name, ps[1..]);
      assert Lead("") + ([ps[0]] + ps[1..]) == ps;
    } else if |ps| == 1 {
      assert PieceFits(ps[0]);
      RenderLead(ps[0].text, []);
      assert Lead(ps[0].text) == Lead(ps[0].text) + [] == ps;
      assert RenderPieces(ps) == ps[0].text + "" == ps[0].text;
      assert FirstHole(ps[0].text).NoHole?;
    } else {
      ScanFront(ps[0].text, ps[1].name, ps[2..]);
      assert Lead(ps[0].text) + ([ps[1]] + ps[2..]) == ps;
    }
  }

  lemma {:induction false} ScanFront(lead: string, name: string, ps: seq<Piece>)
    requires '{' !in lead && '}' !in name && IsCanonical(ps)
    ensures Scan(RenderPieces(Lead(lead) + ([Hole(name)] + ps))) == Some(Lead(lead) + ([Hole(name)] + ps))
    decreases |ps| + 1, 0
  {
    RenderHole(name, ps);
    RenderLead(lead, [Hole(name)] + ps);
    FirstHoleOf(lead, name, RenderPieces(ps));
    ScanOfRender(ps);
  }

  // ---- the route of an operation ----

  datatype Place = InPath | InQuery | InHeader | InCookie

  datatype Parameter = Parameter(name: string, place: Place, required: bool)

  datatype Segment = Literal(text: string) | Variable(parameter: Parameter)

  datatype Problem = Unterminated | MissingOrOptional(name: string) | NotInPath(name: string)

  datatype Route =
    | Accepted(segments: seq<Segment>, ordered: seq<Parameter>)
    | Rejected(problem: Problem)

  /** The declared path parameters; of two with one name the later counts. */
  function Declared(parameters: seq<Parameter>): map<string, Parameter> {
    if parameters == [] then map[]
    else
      var last := parameters[|parameters| - 1];
      var before := Declared(parameters[..|parameters| - 1]);
      if last.place.InPath? then before[last.name := last] else before
  }

  /** The first `n` lists of pieces in one, if there are that many. */
  function Joined(scans: seq<Option<seq<Piece>>>, n: nat): Option<seq<Piece>>
    requires n <= |scans|
  {
    if n == 0 then Some([])
    else
      var last, before := scans[n - 1], Joined(scans, n - 1);
      if last.None? || before.None? then None else Some(before.value + last.value)
  }

  function Scans(parts: seq<string>): seq<Option<seq<Piece>>> {
    seq(|parts|, i requires 0 <= i < |parts| => Scan(parts[i]))
  }

  /** The pieces of a list of slash-separated parts. */
  function ScanAll(parts: seq<string>): Option<seq<Piece>> {
    Joined(Scans(parts), |parts|)
  }

  function TrimSlashes(path: string): string {
    TrimEnd(TrimStart(path))
  }

  function TrimStart(s: string): string {
    if s != "" && s[0] == '/' then TrimStart(s[1..]) else s
  }

  function TrimEnd(s: string): string {
    if s != "" && s[|s| - 1] == '/' then TrimEnd(s[..|s| - 1]) else s
  }

  function Parts(path: string): seq<string> {
    Split(TrimSlashes(path), '/')
  }

  ghost predicate Usable(declared: map<string, Parameter>, name: string) {
    name in declared && declared[name].required
  }

  ghost predicate AllUsable(declared: map<string, Parameter>, ps: seq<Piece>) {
    forall p :: p in ps && p.Hole? ==> Usable(declared, p.name)
  }

  /**
   * When a path is accepted: every hole is closed and names a required path parameter, and every declared one is
   * used.
   */
  ghost predicate IsAccepted(path: string, declared: map<string, Parameter>) {
    && ScanAll(Parts(path)).Some?
    && AllUsable(declared, ScanAll(Parts(path)).value)
    && forall n :: n in declared ==> Hole(n) in ScanAll(Parts(path)).value
  }

  /** The pieces with their parameters looked up. */
  ghost function Resolve(declared: map<string, Parameter>, ps: seq<Piece>): seq<Segment> {
    if ps == [] then [] else Resolve(declared, ps[..|ps| - 1]) + [ResolvePiece(declared, ps[|ps| - 1])]
  }

  ghost function ResolvePiece(declared: map<string, Parameter>, p: Piece): Segment {
    if p.Text? then Literal(p.text)
    else if p.name in declared then Variable(declared[p.name])
    else Literal(RenderPiece(p))
  }

  ghost function Variables(segments: seq<Segment>): seq<Parameter> {
    if segments == [] then []
    else
      var last := segments[|segments| - 1];
      Variables(segments[..|segments| - 1]) + (if last.Variable? then [last.parameter] else [])
  }

  /** What has been built from the pieces read so far. */
  ghost predicate Built(declared: map<string, Parameter>, ps: seq<Piece>,
                        segments: seq<Segment>, ordered: seq<Parameter>, used: set<string>)
  {
    && AllUsable(declared, ps) && segments == Resolve(declared, ps)
    && ordered == Variables(segments) && used == HoleNames(ps)
  }

  ghost function HoleNames(ps: seq<Piece>): set<string> {
    set p | p in ps && p.Hole? :: p.name
  }

  lemma BuiltLiteral(declared: map<string, Parameter>, ps: seq<Piece>, segments: seq<Segment>, ordered: seq<Parameter>,
                     used: set<string>, text: string)
    requires Built(declared, ps, segments, ordered, used)
    ensures Built(declared, ps + [Text(text)], segments + [Literal(text)], ordered, used)
  {
    ResolveOne(declared, ps, Text(text));
    VariablesOne(segments, Literal(text));
    assert ordered + [] == ordered;
  }

  lemma BuiltVariable(declared: map<string, Parameter>, ps: seq<Piece>, segments: seq<Segment>, ordered: seq<Parameter>,
                      used: set<string>, name: string)
    requires Built(declared, ps, segments, ordered, used) && Usable(declared, name)
    ensures Built(declared, ps + [Hole(name)], segments + [Variable(declared[name])], ordered + [declared[name]],
                  used + {name})
  {
    ResolveOne(declared, ps, Hole(name));
    VariablesOne(segments, Variable(declared[name]));
  }

  lemma BuiltRest(declared: map<string, Parameter>, ps: seq<Piece>, done: seq<Piece>, segments: seq<Segment>,
                  ordered: seq<Parameter>, used: set<string>, text: string)
    requires Built(declared, ps + done, segments, ordered, used) && text != ""
    ensures Built(declared, ps + (done + Lead(text)), segments + [Literal(text)], ordered, used)
  {
    BuiltLiteral(declared, ps + done, segments, ordered, used, text);
    assert ps + done + [Text(text)] == ps + (done + Lead(text));
  }

  /** A hole and the literal before it, if there is one. */
  lemma BuiltHole(declared: map<string, Parameter>, ps: seq<Piece>, segments: seq<Segment>, ordered: seq<Parameter>,
                  used: set<string>, lead: string, name: string)
    requires Built(declared, ps, segments, ordered, used) && Usable(declared, name)
    ensures Built(declared, ps + Lead(lead) + [Hole(name)],
                  (if lead != "" then segments + [Literal(lead)] else segments) + [Variable(declared[name])],
                  ordered + [declared[name]], used + {name})
  {
    if lead != "" {
      BuiltLiteral(declared, ps, segments, ordered, used, lead);
      BuiltVariable(declared, ps + [Text(lead)], segments + [Literal(lead)], ordered, used, name);
    } else {
      BuiltVariable(declared, ps, segments, ordered, used, name);
      assert ps + [] == ps;
    }
  }

  lemma ResolveOne(declared: map<string, Parameter>, ps: seq<Piece>, p: Piece)
    ensures Resolve(declared, ps + [p]) == Resolve(declared, ps) + [ResolvePiece(declared, p)]
  {
    assert (ps + [p])[..|ps|] == ps;
  }

  lemma VariablesOne(segments: seq<Segment>, g: Segment)
    ensures Variables(segments + [g]) == Variables(segments) + if g.Variable? then [g.parameter] else []
  {
    assert (segments + [g])[..|segments|] == segments;
  }

  ghost function Prefixed(done: seq<Piece>, rest: Option<seq<Piece>>): Option<seq<Piece>> {
    if rest.None? then None else Some(done + rest.value)
  }

  /** The loop over one slash-separated part. */
  method RoutePart(part: string, declared: map<string, Parameter>, segments0: seq<Segment>, ordered0: seq<Parameter>,
                   used0: set<string>, ghost ps: seq<Piece>, ghost scan: Option<seq<Piece>>)
    returns (ok: bool, problem: Problem, segments: seq<Segment>, ordered: seq<Parameter>, used: set<string>)
    requires Built(declared, ps, segments0, ordered0, used0) && scan == Scan(part)
    ensures ok <==> scan.Some? && AllUsable(declared, scan.value)
    ensures ok ==> Built(declared, ps + scan.value, segments, ordered, used)
    ensures !ok ==> IsReason(declared, scan, problem)
  {
    ok, problem, segments, ordered, used := true, Unterminated, segments0, ordered0, used0;
    var remaining := part;
    ghost var done: seq<Piece> := [];
    assert ps + [] == ps;
    assert scan.Some? ==> [] + scan.value == scan.value;
    while remaining != ""
      invariant Built(declared, ps + done, segments, ordered, used)
      invariant scan == Prefixed(done, Scan(remaining))
      decreases |remaining|
    {
      ghost var old_, done0 := segments, done;
      var open := CutAt(remaining, '{');
      if open.None? {
        BuiltRest(declared, ps, done, segments, ordered, used, remaining);
        segments := segments + [Literal(remaining)];
        return;
      }
      var (lead, tail) := open.value;
      if lead != "" {
        segments := segments + [Literal(lead)];
      }
      var close := CutAt(tail, '}');
      if close.None? {
        ok := false;
        return;
      }
      var (name, rest) := close.value;
      ScanOneHole(done, remaining, lead, name, rest);
      if name !in declared || !declared[name].required {
        UnusableHole(declared, done + Lead(lead), name, Scan(rest));
        ok, problem := false, MissingOrOptional(name);
        return;
      }
      BuiltHole(declared, ps + done, old_, ordered, used, lead, name);
      segments := segments + [Variable(declared[name])];
      ordered := ordered + [declared[name]];
      used := used + {name};
      done := done + Lead(lead) + [Hole(name)];
      PieceConcat(ps, done0, Lead(lead), [Hole(name)]);
      remaining := rest;
    }
    assert Scan("") == Some([]);
    assert done + [] == done;
  }

  lemma ScanOneHole(done: seq<Piece>, part: string, lead: string, name: string, rest: string)
    requires FirstHole(part) == Closed(lead, name, rest)
    ensures Prefixed(done, Scan(part)) == Prefixed(done + Lead(lead) + [Hole(name)], Scan(rest))
  {
    if Scan(rest).Some? {
      PieceConcat(done, Lead(lead), [Hole(name)], Scan(rest).value);
    }
  }

  lemma PieceConcat(a: seq<Piece>, b: seq<Piece>, c: seq<Piece>, d: seq<Piece>)
    ensures a + (b + (c + d)) == a + b + c + d == a + (b + c + d)
  {
  }

  lemma UnusableHole(declared: map<string, Parameter>, before: seq<Piece>, name: string, rest: Option<seq<Piece>>)
    requires !Usable(declared, name)
    ensures var all := Prefixed(before + [Hole(name)], rest); all.None? || !AllUsable(declared, all.value)
  {
    if rest.Some? {
      var all := before + [Hole(name)] + rest.value;
      assert all[|before|] == Hole(name);
    }
  }

  // ---- the whole path ----

  /** A part that cannot be read, or a hole that cannot be filled, spoils the whole path. */
  lemma {:induction false} BadPart(scans: seq<Option<seq<Piece>>>, i: nat, n: nat, declared: map<string, Parameter>)
    requires i < n <= |scans|
    requires scans[i].None? || !AllUsable(declared, scans[i].value)
    ensures Joined(scans, n).None? || !AllUsable(declared, Joined(scans, n).value)
    ensures scans[i].None? ==> Joined(scans, n).None?
    decreases n
  {
    if i < n - 1 {
      BadPart(scans, i, n - 1, declared);
    }
  }

  ghost predicate Explained(path: string, declared: map<string, Parameter>, problem: Problem) {
    match problem
    case Unterminated => ScanAll(Parts(path)).None?
    case MissingOrOptional(name) => !Usable(declared, name)
    case NotInPath(name) => name in declared && ScanAll(Parts(path)).Some? && Hole(name) !in ScanAll(Parts(path)).value
  }

  method RouteSegments(path: string, parameters: seq<Parameter>) returns (route: Route)
    ensures route.Accepted? <==> IsAccepted(path, Declared(parameters))
    ensures route.Accepted? ==>
      && route.segments == Resolve(Declared(parameters), ScanAll(Parts(path)).value)
      && route.ordered == Variables(route.segments)
    ensures route.Rejected? ==> Explained(path, Declared(parameters), route.problem)
  {
    var declared := PathParameters(parameters);
    var ok, problem, segments, ordered, used;
    ghost var all;
    ok, problem, segments, ordered, used, all := RouteParts(Parts(path), declared);
    if !ok {
      return Rejected(problem);
    }
    var unused := FindUnused(declared, used);
    if unused.Some? {
      return Rejected(NotInPath(unused.value));
    }
    route := Accepted(segments, ordered);
  }

  method RouteParts(parts: seq<string>, declared: map<string, Parameter>)
    returns (ok: bool, problem: Problem, segments: seq<Segment>, ordered: seq<Parameter>, used: set<string>,
             ghost all: Option<seq<Piece>>)
    ensures all == ScanAll(parts)
    ensures ok ==> all.Some? && Built(declared, all.value, segments, ordered, used)
    ensures !ok ==> IsUnusable(declared, all) && IsReason(declared, all, problem)
  {
    ghost var scans, ps := Scans(parts), [];
    all := ScanAll(parts);
    ok, problem, segments, ordered, used := true, Unterminated, [], [], {};
    for i := 0 to |parts|
      invariant ok && Joined(scans, i) == Some(ps) && Built(declared, ps, segments, ordered, used)
    {
      ok, problem, segments, ordered, used, ps :=
        RouteNext(parts, i, declared, segments, ordered, used, ps, scans, all);
      if !ok {
        return;
      }
    }
  }

  method RouteNext(parts: seq<string>, i: nat, declared: map<string, Parameter>, segments0: seq<Segment>,
                   ordered0: seq<Parameter>, used0: set<string>, ghost ps0: seq<Piece>,
                   ghost scans: seq<Option<seq<Piece>>>, ghost all: Option<seq<Piece>>)
    returns (ok: bool, problem: Problem, segments: seq<Segment>, ordered: seq<Parameter>, used: set<string>,
             ghost ps: seq<Piece>)
    requires i < |parts| && scans == Scans(parts) && Joined(scans, i) == Some(ps0) && all == Joined(scans, |scans|)
    requires Built(declared, ps0, segments0, ordered0, used0)
    ensures ok ==> Joined(scans, i + 1) == Some(ps) && Built(declared, ps, segments, ordered, used)
    ensures !ok ==> IsUnusable(declared, all) && IsReason(declared, all, problem)
  {
    ok, problem, segments, ordered, used := RoutePart(parts[i], declared, segments0, ordered0, used0, ps0, scans[i]);
    ps := if ok then ps0 + scans[i].value else ps0;
    if !ok {
      BadPart(scans, i, |scans|, declared);
    }
  }

  ghost predicate IsUnusable(declared: map<string, Parameter>, scan: Option<seq<Piece>>) {
    scan.None? || !AllUsable(declared, scan.value)
  }

  /** Why a part, or a list of parts, with this scan is rejected. */
  ghost predicate IsReason(declared: map<string, Parameter>, scan: Option<seq<Piece>>, problem: Problem) {
    match problem
    case Unterminated => scan.None?
    case MissingOrOptional(name) => !Usable(declared, name)
    case NotInPath(_) => false
  }

  method PathParameters(parameters: seq<Parameter>) returns (declared: map<string, Parameter>)
    ensures declared == Declared(parameters)
  {
    declared := map[];
    for i := 0 to |parameters|
      invariant declared == Declared(parameters[..i])
    {
      assert parameters[..i + 1][..i] == parameters[..i];
      if parameters[i].place.InPath? {
        declared := declared[parameters[i].name := parameters[i]];
      }
    }
    assert parameters[..|parameters|] == parameters;
  }

  method FindUnused(declared: map<string, Parameter>, used: set<string>) returns (unused: Option<string>)
    ensures unused.None? ==> declared.Keys <= used
    ensures unused.Some? ==> unused.value in declared && unused.value !in used
  {
    var rest := declared.Keys;
    while rest != {}
      invariant rest <= declared.Keys && forall n :: n in declared && n !in rest ==> n in used
      decreases rest
    {
      var name :| name in rest;
      if name !in used {
        return Some(name);
      }
      rest := rest - {name};
    }
    unused := None;
  }

  // ---- what acceptance means ----

  function WithoutSlashes(s: string): string {
    if s == "" then "" else (if s[0] == '/' then "" else [s[0]]) + WithoutSlashes(s[1..])
  }

  function RenderSegment(g: Segment): string {
    match g
    case Literal(text) => text
    case Variable(p) => ['{'] + p.name + ['}']
  }

  function RenderSegments(segments: seq<Segment>): string {
    if segments == [] then ""
    else RenderSegments(segments[..|segments| - 1]) + RenderSegment(segments[|segments| - 1])
  }

  lemma {:induction false} WithoutSlashesAppend(a: string, b: string)
    ensures WithoutSlashes(a + b) == WithoutSlashes(a) + WithoutSlashes(b)
  {
    if a == "" {
      assert a + b == b;
    } else {
      assert (a + b)[1..] == a[1..] + b;
      WithoutSlashesAppend(a[1..], b);
    }
  }

  lemma {:induction false} NoSlashes(s: string)
    requires '/' !in s
    ensures WithoutSlashes(s) == s
  {
    if s != "" {
      NoSlashes(s[1..]);
    }
  }

  lemma LastSlash(s: string)
    requires s != "" && s[|s| - 1] == '/'
    ensures WithoutSlashes(s[..|s| - 1]) == WithoutSlashes(s)
  {
    var n := |s| - 1;
    WithoutSlashesAppend(s[..n], "/");
    assert s == s[..n] + "/";
    assert WithoutSlashes("/") == "" + WithoutSlashes("");
  }

  lemma {:induction false} TrimmedSlashes(s: string)
    ensures WithoutSlashes(TrimStart(s)) == WithoutSlashes(s) && WithoutSlashes(TrimEnd(s)) == WithoutSlashes(s)
  {
    if s != "" && s[0] == '/' {
      TrimmedSlashes(s[1..]);
    }
    if s != "" && s[|s| - 1] == '/' {
      TrimmedSlashes(s[..|s| - 1]);
      LastSlash(s);
    }
  }

  function Concat(parts: seq<string>): string {
    if parts == [] then "" else parts[0] + Concat(parts[1..])
  }

  lemma {:induction false} JoinWithoutSlashes(parts: seq<string>)
    requires |parts| > 0 && forall i :: 0 <= i < |parts| ==> '/' !in parts[i]
    ensures WithoutSlashes(Join(parts, '/')) == Concat(parts)
  {
    NoSlashes(parts[0]);
    if |parts| == 1 {
      assert Concat(parts[1..]) == "";
    } else {
      JoinWithoutSlashes(parts[1..]);
      SlashBetween(parts[0], Join(parts[1..], '/'));
    }
  }

  lemma SlashBetween(a: string, b: string)
    ensures WithoutSlashes(a + ['/'] + b) == WithoutSlashes(a) + WithoutSlashes(b)
  {
    WithoutSlashesAppend(a + ['/'], b);
    WithoutSlashesAppend(a, ['/']);
    assert WithoutSlashes(['/']) == "" + WithoutSlashes("") == "";
  }

  lemma {:induction false} ConcatAppend(parts: seq<string>, last: string)
    ensures Concat(parts + [last]) == Concat(parts) + last
  {
    if parts != [] {
      assert (parts + [last])[1..] == parts[1..] + [last];
      ConcatAppend(parts[1..], last);
    } else {
      assert [last][1..] == [];
    }
  }

  lemma {:induction false} JoinedRenders(scans: seq<Option<seq<Piece>>>, parts: seq<string>, n: nat)
    requires n <= |parts| == |scans| && Joined(scans, n).Some?
    requires forall i :: 0 <= i < n && scans[i].Some? ==> RenderPieces(scans[i].value) == parts[i]
    ensures RenderPieces(Joined(scans, n).value) == Concat(parts[..n])
    decreases n
  {
    if n > 0 {
      JoinedRenders(scans, parts, n - 1);
      RenderAppend(Joined(scans, n - 1).value, scans[n - 1].value);
      ConcatOne(parts, n);
    }
  }

  lemma ConcatOne(parts: seq<string>, n: nat)
    requires 0 < n <= |parts|
    ensures Concat(parts[..n]) == Concat(parts[..n - 1]) + parts[n - 1]
  {
    ConcatAppend(parts[..n - 1], parts[n - 1]);
    assert parts[..n] == parts[..n - 1] + [parts[n - 1]];
  }

  lemma RenderOne(p: Piece)
    ensures RenderPieces([p]) == RenderPiece(p)
  {
    assert [p][1..] == [];
  }

  lemma RenderSegmentsOne(segments: seq<Segment>, g: Segment)
    ensures RenderSegments(segments + [g]) == RenderSegments(segments) + RenderSegment(g)
  {
    assert (segments + [g])[..|segments|] == segments;
  }

  lemma PieceRenders(declared: map<string, Parameter>, p: Piece)
    requires p.Hole? ==> p.name in declared && declared[p.name].name == p.name
    ensures RenderSegment(ResolvePiece(declared, p)) == RenderPiece(p)
  {
  }

  lemma {:induction false} ResolveRenders(declared: map<string, Parameter>, ps: seq<Piece>)
    requires AllUsable(declared, ps) && forall n :: n in declared ==> declared[n].name == n
    ensures RenderSegments(Resolve(declared, ps)) == RenderPieces(ps)
    decreases |ps|
  {
    if ps != [] {
      var rest, p := ps[..|ps| - 1], ps[|ps| - 1];
      assert ps == rest + [p] && p in ps;
      ResolveRenders(declared, rest);
      PieceRenders(declared, p);
      RenderLast(rest, p);
      RenderSegmentsOne(Resolve(declared, rest), ResolvePiece(declared, p));
    }
  }

  lemma RenderLast(ps: seq<Piece>, p: Piece)
    ensures RenderPieces(ps + [p]) == RenderPieces(ps) + RenderPiece(p)
  {
    RenderAppend(ps, [p]);
    RenderOne(p);
  }

  lemma {:induction false} DeclaredNames(parameters: seq<Parameter>)
    ensures forall n :: n in Declared(parameters) ==>
              var p := Declared(parameters)[n]; p.name == n && p.place.InPath? && p in parameters
    decreases |parameters|
  {
    if parameters != [] {
      DeclaredNames(parameters[..|parameters| - 1]);
    }
  }

  /** `p` is the last path parameter of its name. */
  ghost predicate LastOfName(parameters: seq<Parameter>, p: Parameter) {
    exists i :: 0 <= i < |parameters| && parameters[i] == p && p.place == InPath && NoneAfter(parameters, i, p.name)
  }

  ghost predicate NoneAfter(parameters: seq<Parameter>, i: int, name: string) {
    forall j :: 0 <= i < j < |parameters| ==> parameters[j].place != InPath || parameters[j].name != name
  }

  /** Declared are the path parameters, and of two with one name the later one. */
  lemma {:induction false} DeclaredIs(parameters: seq<Parameter>, n: string, p: Parameter)
    ensures n in Declared(parameters) && Declared(parameters)[n] == p <==> p.name == n && LastOfName(parameters, p)
    decreases |parameters|
  {
    if parameters != [] {
      var k := |parameters| - 1;
      var before, last := parameters[..k], parameters[k];
      DeclaredIs(before, n, p);
      if last.place == InPath && last.name == n {
        assert NoneAfter(parameters, k, n);
        if i :| 0 <= i < |parameters| && parameters[i] == p && p.name == n && NoneAfter(parameters, i, n) {
          assert i == k;
        }
      } else if p.name == n {
        if i :| 0 <= i < |before| && before[i] == p && NoneAfter(before, i, n) {
          assert parameters[i] == p && NoneAfter(parameters, i, n);
        }
        if i :| 0 <= i < |parameters| && parameters[i] == p && p.place == InPath && NoneAfter(parameters, i, n) {
          assert before[i] == p && NoneAfter(before, i, n) by {
            assert forall j :: 0 <= j < k ==> before[j] == parameters[j];
          }
        }
      }
    }
  }

  lemma {:induction false} VariablesAre(segments: seq<Segment>, p: Parameter)
    ensures p in Variables(segments) <==> Variable(p) in segments
    decreases |segments|
  {
    if segments != [] {
      var n := |segments| - 1;
      VariablesAre(segments[..n], p);
      assert segments == segments[..n] + [segments[n]];
    }
  }

  lemma {:induction false} ResolveIs(declared: map<string, Parameter>, ps: seq<Piece>, p: Parameter)
    ensures Variable(p) in Resolve(declared, ps) <==>
            exists n :: n in declared && declared[n] == p && Hole(n) in ps
    decreases |ps|
  {
    if ps != [] {
      var k := |ps| - 1;
      ResolveIs(declared, ps[..k], p);
      assert ps == ps[..k] + [ps[k]];
    }
  }

  lemma PiecesSpellPath(path: string)
    requires ScanAll(Parts(path)).Some?
    ensures RenderPieces(ScanAll(Parts(path)).value) == WithoutSlashes(path)
  {
    var parts := Parts(path);
    assert parts[..|parts|] == parts;
    forall i | 0 <= i < |parts| && Scans(parts)[i].Some? ensures RenderPieces(Scans(parts)[i].value) == parts[i] {
      ScanRenders(parts[i]);
    }
    JoinedRenders(Scans(parts), parts, |parts|);
    JoinSplit(TrimSlashes(path), '/');
    JoinWithoutSlashes(parts);
    TrimmedSlashes(path);
    TrimmedSlashes(TrimStart(path));
  }

  /**
   * The segments of an accepted path spell the path without its slashes; its variables are required path
   * parameters, and every declared path parameter is among them.
   */
  lemma AcceptedRoute(path: string, parameters: seq<Parameter>)
    requires IsAccepted(path, Declared(parameters))
    ensures var declared := Declared(parameters);
            var segments := Resolve(declared, ScanAll(Parts(path)).value);
            && RenderSegments(segments) == WithoutSlashes(path)
            && (forall p :: p in Variables(segments) ==>
                  (p in parameters && p.place.InPath? && p.required && p.name in declared && declared[p.name] == p))
            && (forall n :: n in declared ==> declared[n] in Variables(segments))
  {
    var declared := Declared(parameters);
    var ps := ScanAll(Parts(path)).value;
    var segments := Resolve(declared, ps);
    DeclaredNames(parameters);
    ResolveRenders(declared, ps);
    PiecesSpellPath(path);
    forall p | p in Variables(segments)
      ensures p in parameters && p.place.InPath? && p.required && p.name in declared && declared[p.name] == p
    {
      VariablesAre(segments, p);
      ResolveIs(declared, ps, p);
    }
    forall n | n in declared ensures declared[n] in Variables(segments) {
      VariablesAre(segments, declared[n]);
      ResolveIs(declared, ps, declared[n]);
    }
  }

  // ---- merging path-level and operation-level parameters ----

  function Key(p: Parameter): (Place, string) {
    (p.place, p.name)
  }

  /** Of one place and one name: what the keys of the merge stand for. */
  predicate Same(p: Parameter, q: Parameter) {
    p.place == q.place && p.name == q.name
  }

  /** Among the first `n` entries, `p` is the last of its place and name. */
  ghost predicate IsLast(all: seq<Option<Parameter>>, n: nat, p: Parameter)
    requires n <= |all|
  {
    exists j :: 0 <= j < n && all[j] == Some(p) && forall l :: j < l < n && all[l].Some? ==> !Same(all[l].value, p)
  }

  /** `at` is the first entry with the place and the name of `p`. */
  ghost predicate IsFirst(all: seq<Option<Parameter>>, at: nat, p: Parameter) {
    at < |all| && all[at].Some? && Same(all[at].value, p) &&
    forall l :: 0 <= l < at && all[l].Some? ==> !Same(all[l].value, p)
  }

  /**
   * One parameter per place and name: the last one given, so that an operation overrides its path, in the
   * order in which the places and names first appear.
   */
  method MergeParameters(pathLevel: seq<Option<Parameter>>, operationLevel: seq<Option<Parameter>>)
    returns (merged: seq<Parameter>, ghost first: seq<nat>)
    ensures forall i, j :: 0 <= i < j < |merged| ==> !Same(merged[i], merged[j])
    ensures var all := pathLevel + operationLevel;
            && Lasts(all, |all|, merged) && Firsts(all, |all|, merged, first)
            && forall k :: 0 <= k < |all| && all[k].Some? ==> HasSame(merged, all[k].value)
  {
    var all := pathLevel + operationLevel;
    merged, first := [], [];
    var indexes: map<(Place, string), nat> := map[];
    for n := 0 to |all|
      invariant Indexes(merged, indexes) && Known(all, n, indexes)
      invariant Lasts(all, n, merged) && Firsts(all, n, merged, first)
    {
      if all[n].Some? {
        var value := all[n].value;
        if Key(value) in indexes {
          MergeOver(all, n, merged, indexes, first);
          merged := merged[indexes[Key(value)] := value];
        } else {
          MergeNew(all, n, merged, indexes, first);
          indexes := indexes[Key(value) := |merged|];
          merged := merged + [value];
          first := first + [n];
        }
      } else {
        MergeNothing(all, n, merged, first);
      }
    }
    MergedIsDistinct(merged, indexes);
    KnownIsMerged(all, merged, indexes);
  }

  /** The index of each key is where its parameter stands. */
  ghost predicate Indexes(merged: seq<Parameter>, indexes: map<(Place, string), nat>) {
    && (forall k :: k in indexes ==> indexes[k] < |merged| && Key(merged[indexes[k]]) == k)
    && (forall i :: 0 <= i < |merged| ==> Key(merged[i]) in indexes && indexes[Key(merged[i])] == i)
  }

  ghost predicate Known(all: seq<Option<Parameter>>, n: nat, indexes: map<(Place, string), nat>) {
    n <= |all| && forall k :: 0 <= k < n && all[k].Some? ==> Key(all[k].value) in indexes
  }

  ghost predicate Lasts(all: seq<Option<Parameter>>, n: nat, merged: seq<Parameter>) {
    n <= |all| && forall i {:trigger IsLast(all, n, merged[i])} :: 0 <= i < |merged| ==> IsLast(all, n, merged[i])
  }

  ghost predicate Firsts(all: seq<Option<Parameter>>, n: nat, merged: seq<Parameter>, first: seq<nat>) {
    && |first| == |merged|
    && (forall i {:trigger IsFirst(all, first[i], merged[i])} ::
          0 <= i < |merged| ==> first[i] < n && IsFirst(all, first[i], merged[i]))
    && (forall i, j :: 0 <= i < j < |first| ==> first[i] < first[j])
  }

  lemma MergedIsDistinct(merged: seq<Parameter>, indexes: map<(Place, string), nat>)
    requires Indexes(merged, indexes)
    ensures forall i, j :: 0 <= i < j < |merged| ==> !Same(merged[i], merged[j])
  {
    forall i, j | 0 <= i < j < |merged| ensures !Same(merged[i], merged[j]) {
      assert indexes[Key(merged[i])] == i && indexes[Key(merged[j])] == j;
    }
  }

  lemma KnownIsMerged(all: seq<Option<Parameter>>, merged: seq<Parameter>, indexes: map<(Place, string), nat>)
    requires Indexes(merged, indexes) && Known(all, |all|, indexes)
    ensures forall k :: 0 <= k < |all| && all[k].Some? ==> HasSame(merged, all[k].value)
  {
  }

  ghost predicate HasSame(merged: seq<Parameter>, p: Parameter) {
    exists i :: 0 <= i < |merged| && Same(merged[i], p)
  }

  lemma MergeOver(all: seq<Option<Parameter>>, n: nat, merged: seq<Parameter>, indexes: map<(Place, string), nat>,
                  first: seq<nat>)
    requires Indexes(merged, indexes) && Known(all, n, indexes) && Lasts(all, n, merged)
    requires Firsts(all, n, merged, first)
    requires n < |all| && all[n].Some? && Key(all[n].value) in indexes
    ensures var merged' := merged[indexes[Key(all[n].value)] := all[n].value];
            && Indexes(merged', indexes) && Known(all, n + 1, indexes)
            && Lasts(all, n + 1, merged') && Firsts(all, n + 1, merged', first)
  {
    var at := indexes[Key(all[n].value)];
    LastsOver(all, n, merged, indexes, at);
    FirstsOver(all, n, merged, first, at, all[n].value);
  }

  lemma LastsOver(all: seq<Option<Parameter>>, n: nat, merged: seq<Parameter>, indexes: map<(Place, string), nat>,
                  at: nat)
    requires Indexes(merged, indexes) && Lasts(all, n, merged) && n < |all| && all[n].Some?
    requires Key(all[n].value) in indexes && at == indexes[Key(all[n].value)]
    ensures Lasts(all, n + 1, merged[at := all[n].value])
  {
    var merged' := merged[at := all[n].value];
    forall i | 0 <= i < |merged'| ensures IsLast(all, n + 1, merged'[i]) {
      if i == at {
        NewIsLast(all, n);
      } else {
        assert indexes[Key(merged[i])] == i;
        LastStays(all, n, merged[i]);
      }
    }
  }

  lemma FirstsOver(all: seq<Option<Parameter>>, n: nat, merged: seq<Parameter>, first: seq<nat>, at: nat, p: Parameter)
    requires Firsts(all, n, merged, first) && at < |merged| && Same(merged[at], p)
    ensures Firsts(all, n + 1, merged[at := p], first)
  {
    var merged' := merged[at := p];
    forall i | 0 <= i < |merged'| ensures IsFirst(all, first[i], merged'[i]) {
      assert IsFirst(all, first[i], merged[i]);
    }
  }

  lemma MergeNew(all: seq<Option<Parameter>>, n: nat, merged: seq<Parameter>, indexes: map<(Place, string), nat>,
                 first: seq<nat>)
    requires Indexes(merged, indexes) && Known(all, n, indexes) && Lasts(all, n, merged)
    requires Firsts(all, n, merged, first)
    requires n < |all| && all[n].Some? && Key(all[n].value) !in indexes
    ensures var merged' := merged + [all[n].value];
            var indexes' := indexes[Key(all[n].value) := |merged|];
            && Indexes(merged', indexes') && Known(all, n + 1, indexes')
            && Lasts(all, n + 1, merged') && Firsts(all, n + 1, merged', first + [n])
  {
    LastsNew(all, n, merged, indexes);
    FirstsNew(all, n, merged, indexes, first);
  }

  lemma LastsNew(all: seq<Option<Parameter>>, n: nat, merged: seq<Parameter>, indexes: map<(Place, string), nat>)
    requires Indexes(merged, indexes) && Lasts(all, n, merged)
    requires n < |all| && all[n].Some? && Key(all[n].value) !in indexes
    ensures Lasts(all, n + 1, merged + [all[n].value])
  {
    var merged' := merged + [all[n].value];
    forall i | 0 <= i < |merged'| ensures IsLast(all, n + 1, merged'[i]) {
      if i == |merged| {
        NewIsLast(all, n);
      } else {
        assert Key(merged[i]) in indexes;
        LastStays(all, n, merged[i]);
      }
    }
  }

  lemma FirstsNew(all: seq<Option<Parameter>>, n: nat, merged: seq<Parameter>, indexes: map<(Place, string), nat>,
                  first: seq<nat>)
    requires Known(all, n, indexes) && Firsts(all, n, merged, first)
    requires n < |all| && all[n].Some? && Key(all[n].value) !in indexes
    ensures Firsts(all, n + 1, merged + [all[n].value], first + [n])
  {
    var merged', first' := merged + [all[n].value], first + [n];
    forall i | 0 <= i < |merged'| ensures IsFirst(all, first'[i], merged'[i]) && first'[i] < n + 1 {
      if i < |merged| {
        assert IsFirst(all, first[i], merged[i]);
      }
    }
    forall i, j | 0 <= i < j < |first'| ensures first'[i] < first'[j] {
      assert IsFirst(all, first[i], merged[i]);
    }
  }

  lemma NewIsLast(all: seq<Option<Parameter>>, n: nat)
    requires n < |all| && all[n].Some?
    ensures IsLast(all, n + 1, all[n].value)
  {
  }

  /** A new entry of another key leaves the last ones as they are. */
  lemma LastStays(all: seq<Option<Parameter>>, n: nat, p: Parameter)
    requires n < |all| && IsLast(all, n, p) && (all[n].Some? ==> !Same(all[n].value, p))
    ensures IsLast(all, n + 1, p)
  {
    var j :| 0 <= j < n && all[j] == Some(p) && forall l :: j < l < n && all[l].Some? ==> !Same(all[l].value, p);
  }

  lemma MergeNothing(all: seq<Option<Parameter>>, n: nat, merged: seq<Parameter>, first: seq<nat>)
    requires n < |all| && all[n].None? && Lasts(all, n, merged) && Firsts(all, n, merged, first)
    ensures Lasts(all, n + 1, merged) && Firsts(all, n + 1, merged, first)
  {
    forall i | 0 <= i < |merged| ensures IsLast(all, n + 1, merged[i]) && IsFirst(all, first[i], merged[i]) {
      assert IsLast(all, n, merged[i]) && IsFirst(all, first[i], merged[i]);
      LastStays(all, n, merged[i]);
    }
    forall i | 0 <= i < |merged| ensures first[i] < n + 1 {
      assert IsFirst(all, first[i], merged[i]);
    }
  }
}
