/**
 * The URL paths of the generated clients: a Go `fmt.Sprintf` call and a TypeScript template literal, both made
 * by replacing `{name}` in the route, and what the two expressions evaluate to.
 */
module PathExpressions {
  import opened Pointers
  import opened Text
  import opened Routes

  datatype PathParameter = PathParameter(name: string, goName: string, tsName: string)

  /** `strconv.Quote(text)`, or `fmt.Sprintf(format, url.PathEscape(a), ...)` with the argument variables. */
  datatype GoExpression = Quoted(text: string) | Sprintf(format: string, arguments: seq<string>)

  // ---- the two generators ----

  function HoleText(name: string): string {
    ['{'] + name + ['}']
  }

  const CALL: string := "encodeURIComponent("

  function Call(tsName: string): string {
    CALL + tsName + [')']
  }

  function GoHole(p: PathParameter): string {
    "%s"
  }

  function TsText(tsName: string): string {
    ['$'] + HoleText(Call(tsName))
  }

  function TsHole(p: PathParameter): string {
    TsText(p.tsName)
  }

  /** The path with the holes of these parameters replaced, one parameter after the other. */
  function ReplaceHoles(path: string, params: seq<PathParameter>, hole: PathParameter -> string): string {
    if params == [] then path
    else
      var last := params[|params| - 1];
      ReplaceAll(ReplaceHoles(path, params[..|params| - 1], hole), HoleText(last.name), hole(last))
  }

  function GoNames(params: seq<PathParameter>): seq<string> {
    seq(|params|, i requires 0 <= i < |params| => params[i].goName)
  }

  function Parameters(scope: seq<PathParameter>, item: Option<PathParameter>): seq<PathParameter> {
    if item.Some? then scope + [item.value] else scope
  }

  function GoPath(path: string, params: seq<PathParameter>): GoExpression {
    var format := ReplaceHoles(path, params, GoHole);
    if params == [] then Quoted(format) else Sprintf(format, GoNames(params))
  }

  function TsPath(path: string, params: seq<PathParameter>): string {
    ['`'] + ReplaceHoles(path, params, TsHole) + ['`']
  }

  lemma OneMore(scope: seq<PathParameter>, i: nat)
    requires i < |scope|
    ensures scope[..i + 1] == scope[..i] + [scope[i]]
  {
  }

  lemma AllOfScope(scope: seq<PathParameter>)
    ensures scope[..|scope|] == scope
  {
  }

  lemma ReplaceHolesThen(path: string, params: seq<PathParameter>, p: PathParameter, hole: PathParameter -> string)
    ensures ReplaceHoles(path, params + [p], hole) ==
            ReplaceAll(ReplaceHoles(path, params, hole), HoleText(p.name), hole(p))
  {
    assert (params + [p])[..|params|] == params;
  }

  lemma GoNamesThen(params: seq<PathParameter>, p: PathParameter)
    ensures GoNames(params + [p]) == GoNames(params) + [p.goName]
  {
  }

  method GoPathExpression(path: string, scope: seq<PathParameter>, item: Option<PathParameter>)
    returns (e: GoExpression)
    ensures e == GoPath(path, Parameters(scope, item))
    ensures GoMeans(e, path, scope, item)
  {
    var format := path;
    var arguments := [];
    for i := 0 to |scope|
      invariant format == ReplaceHoles(path, scope[..i], GoHole) && arguments == GoNames(scope[..i])
    {
      OneMore(scope, i);
      ReplaceHolesThen(path, scope[..i], scope[i], GoHole);
      GoNamesThen(scope[..i], scope[i]);
      format := ReplaceAll(format, HoleText(scope[i].name), "%s");
      arguments := arguments + [scope[i].goName];
    }
    AllOfScope(scope);
    if item.Some? {
      ReplaceHolesThen(path, scope, item.value, GoHole);
      GoNamesThen(scope, item.value);
      format := ReplaceAll(format, HoleText(item.value.name), "%s");
      arguments := arguments + [item.value.goName];
    }
    e := if |arguments| == 0 then Quoted(format) else Sprintf(format, arguments);
    GoExpressionMeans(path, scope, item);
  }

  method TsPathExpression(path: string, scope: seq<PathParameter>, item: Option<PathParameter>) returns (e: string)
    ensures e == TsPath(path, Parameters(scope, item))
    ensures TsMeans(e, path, scope, item)
  {
    var result := path;
    for i := 0 to |scope|
      invariant result == ReplaceHoles(path, scope[..i], TsHole)
    {
      OneMore(scope, i);
      ReplaceHolesThen(path, scope[..i], scope[i], TsHole);
      result := ReplaceAll(result, HoleText(scope[i].name), TsHole(scope[i]));
    }
    AllOfScope(scope);
    if item.Some? {
      ReplaceHolesThen(path, scope, item.value, TsHole);
      result := ReplaceAll(result, HoleText(item.value.name), TsHole(item.value));
    }
    e := ['`'] + result + ['`'];
    TsExpressionMeans(path, scope, item);
  }

  // ---- what the expressions mean, over the scope and the item ----

  /** The names of the scope in order, and then that of the item. */
  function ScopeThenItem(scope: seq<PathParameter>, item: Option<PathParameter>): (names: seq<string>)
    ensures |names| == |scope| + if item.Some? then 1 else 0
  {
    seq(|scope|, i requires 0 <= i < |scope| => scope[i].name) + if item.Some? then [item.value.name] else []
  }

  /** A valid template, and valid parameters with distinct names. */
  ghost predicate IsRoute(path: string, scope: seq<PathParameter>, item: Option<PathParameter>) {
    && Scan(path).Some? && IsTemplate(Scan(path).value) && AreParameters(scope)
    && (item.Some? ==> AreParameters([item.value]) && forall p :: p in scope ==> p.name != item.value.name)
  }

  ghost predicate GoHolds(p: PathParameter, values: map<string, string>, env: map<string, string>) {
    p.name in values && p.goName in env && env[p.goName] == values[p.name]
  }

  ghost predicate TsHolds(p: PathParameter, values: map<string, string>, env: map<string, string>) {
    p.name in values && p.tsName in env && env[p.tsName] == values[p.name]
  }

  /** If the holes are the scope and then the item, the Go expression evaluates to the instantiated path. */
  ghost predicate GoMeans(e: GoExpression, path: string, scope: seq<PathParameter>, item: Option<PathParameter>) {
    IsRoute(path, scope, item) && Holes(Scan(path).value) == ScopeThenItem(scope, item) ==>
      forall values: map<string, string>, env: map<string, string>, escape: Escape ::
        (forall p :: p in scope || item == Some(p) ==> GoHolds(p, values, env)) ==>
          EvalGo(e, env, escape) == Some(Instantiate(Scan(path).value, values, escape))
  }

  /** If every hole is named by the scope or the item, the template literal evaluates to the instantiated path. */
  ghost predicate TsMeans(e: string, path: string, scope: seq<PathParameter>, item: Option<PathParameter>) {
    IsRoute(path, scope, item) && (forall n :: n in Holes(Scan(path).value) ==> n in ScopeThenItem(scope, item)) ==>
      forall values: map<string, string>, env: map<string, string>, escape: Escape ::
        (forall p :: p in scope || item == Some(p) ==> TsHolds(p, values, env)) ==>
          EvalTs(e, env, escape) == Some(Instantiate(Scan(path).value, values, escape))
  }

  lemma ParametersAre(scope: seq<PathParameter>, item: Option<PathParameter>)
    ensures Names(Parameters(scope, item)) == ScopeThenItem(scope, item)
    ensures forall p :: p in Parameters(scope, item) <==> p in scope || item == Some(p)
  {
    NamesAre(Parameters(scope, item));
  }

  lemma RouteParameters(path: string, scope: seq<PathParameter>, item: Option<PathParameter>)
    requires IsRoute(path, scope, item)
    ensures AreParameters(Parameters(scope, item))
  {
    var params := Parameters(scope, item);
    forall i | 0 <= i < |params| ensures IsIdentifier(params[i].name) && IsIdentifier(params[i].tsName) {
      if i == |scope| {
        assert params[i] == [item.value][0];
      }
    }
    forall i, j | 0 <= i < j < |params| ensures params[i].name != params[j].name {
      assert params[i] in scope;
    }
  }

  lemma GoExpressionMeans(path: string, scope: seq<PathParameter>, item: Option<PathParameter>)
    ensures GoMeans(GoPath(path, Parameters(scope, item)), path, scope, item)
  {
    var params := Parameters(scope, item);
    if IsRoute(path, scope, item) && Holes(Scan(path).value) == ScopeThenItem(scope, item) {
      RouteParameters(path, scope, item);
      ParametersAre(scope, item);
      ScanRenders(path);
      forall values: map<string, string>, env: map<string, string>, escape: Escape |
        forall p :: p in scope || item == Some(p) ==> GoHolds(p, values, env)
        ensures EvalGo(GoPath(path, params), env, escape) == Some(Instantiate(Scan(path).value, values, escape))
      {
        assert forall p :: p in params ==> GoHolds(p, values, env);
        GoPathMeans(Scan(path).value, params, values, env, escape);
      }
    }
  }

  lemma TsExpressionMeans(path: string, scope: seq<PathParameter>, item: Option<PathParameter>)
    ensures TsMeans(TsPath(path, Parameters(scope, item)), path, scope, item)
  {
    var params := Parameters(scope, item);
    if IsRoute(path, scope, item) && forall n :: n in Holes(Scan(path).value) ==> n in ScopeThenItem(scope, item) {
      RouteParameters(path, scope, item);
      ParametersAre(scope, item);
      ScanRenders(path);
      forall values: map<string, string>, env: map<string, string>, escape: Escape |
        forall p :: p in scope || item == Some(p) ==> TsHolds(p, values, env)
        ensures EvalTs(TsPath(path, params), env, escape) == Some(Instantiate(Scan(path).value, values, escape))
      {
        assert forall p :: p in params ==> TsHolds(p, values, env);
        TsPathMeans(Scan(path).value, params, values, env, escape);
      }
    }
  }

  // ---- what the expressions evaluate to ----

  /**
   * `fmt.Sprintf` for formats whose only verb is `%s`; other verbs, and too few or too many arguments, have no value
   * here.
   */
  function SprintfValue(format: string, args: seq<string>): Option<string>
    decreases |format|
  {
    if format == "" then if args == [] then Some("") else None
    else if format[0] == '%' then
      if |format| > 1 && format[1] == 's' && args != [] then Prepend(args[0], SprintfValue(format[2..], args[1..]))
      else None
    else Prepend([format[0]], SprintfValue(format[1..], args))
  }

  function Prepend(s: string, rest: Option<string>): Option<string> {
    if rest.None? then None else Some(s + rest.value)
  }

  type Escape = string -> string

  function EvalGo(e: GoExpression, env: map<string, string>, escape: Escape): Option<string> {
    match e
    case Quoted(text) => Some(text)
    case Sprintf(format, arguments) =>
      if forall a :: a in arguments ==> a in env then
        SprintfValue(format,
          seq(|arguments|, i requires 0 <= i < |arguments| && arguments[i] in env => escape(env[arguments[i]])))
      else None
  }

  /** The variable of a call `encodeURIComponent(variable)`. */
  function Argument(call: string): Option<string> {
    var start := "encodeURIComponent(";
    if |call| > |start| && start <= call && call[|call| - 1] == ')' then Some(call[|start|..|call| - 1]) else None
  }

  /** The inside of a template literal in which every `${...}` is a call and nothing is escaped. */
  function TemplateValue(s: string, env: map<string, string>, escape: Escape): Option<string>
    decreases |s|
  {
    if s == "" then Some("")
    else if s[0] == '`' || s[0] == '\\' then None
    else if s[0] == '$' && |s| > 1 && s[1] == '{' then
      match CutAt(s[2..], '}')
      case None => None
      case Some(cut) =>
        var variable := Argument(cut.0);
        if variable.Some? && variable.value in env then
          Prepend(escape(env[variable.value]), TemplateValue(cut.1, env, escape))
        else None
    else Prepend([s[0]], TemplateValue(s[1..], env, escape))
  }

  function EvalTs(e: string, env: map<string, string>, escape: Escape): Option<string> {
    if |e| >= 2 && e[0] == '`' && e[|e| - 1] == '`' then TemplateValue(e[1..|e| - 1], env, escape) else None
  }

  // ---- templates that pass the validation of identifiers and route literals ----

  predicate IsWordChar(c: char) {
    'a' <= c <= 'z' || 'A' <= c <= 'Z' || '0' <= c <= '9' || c == '_'
  }

  predicate IsIdentifier(s: string) {
    s != "" && !('0' <= s[0] <= '9') && forall c :: c in s ==> IsWordChar(c)
  }

  predicate IsRouteChar(c: char) {
    IsWordChar(c) || c == '.' || c == '~' || c == ':' || c == '-' || c == '/'
  }

  ghost predicate IsTemplate(ps: seq<Piece>) {
    forall p :: p in ps ==> if p.Text? then forall c :: c in p.text ==> IsRouteChar(c) else IsIdentifier(p.name)
  }

  function Holes(ps: seq<Piece>): seq<string> {
    if ps == [] then [] else (if ps[0].Hole? then [ps[0].name] else []) + Holes(ps[1..])
  }

  /** The template with every hole replaced by the escaped value of its parameter. */
  function Instantiate(ps: seq<Piece>, values: map<string, string>, escape: Escape): string {
    if ps == [] then "" else PieceValue(ps[0], values, escape) + Instantiate(ps[1..], values, escape)
  }

  function PieceValue(p: Piece, values: map<string, string>, escape: Escape): string {
    match p
    case Text(text) => text
    case Hole(name) => if name in values then escape(values[name]) else HoleText(name)
  }

  // ---- replacing holes one parameter at a time ----

  /** The rendering in which some names have been replaced. */
  function Rendered(ps: seq<Piece>, done: map<string, string>): string {
    if ps == [] then "" else PieceText(ps[0], done) + Rendered(ps[1..], done)
  }

  lemma {:induction false} NothingReplaced(ps: seq<Piece>)
    ensures Rendered(ps, map[]) == RenderPieces(ps)
  {
    if ps != [] {
      NothingReplaced(ps[1..]);
    }
  }

  /** A character at which the pattern does not start is copied. */
  lemma ReplaceStep(c: char, s: string, old_: string, new_: string)
    requires old_ != "" && !(old_ <= [c] + s)
    ensures ReplaceAll([c] + s, old_, new_) == [c] + ReplaceAll(s, old_, new_)
  {
    assert ([c] + s)[1..] == s;
  }

  /** Two names in braces at the front of one text are the same name. */
  lemma SameHole(q: string, x: string, body: string, rest: string)
    requires '}' !in q && '}' !in body && HoleText(q) + x == HoleText(body) + rest
    ensures q == body
  {
    BraceFirst(q, x);
    BraceFirst(body, rest);
    assert (['{'] + (q + ['}'] + x))[1..] == q + ['}'] + x;
    assert (['{'] + (body + ['}'] + rest))[1..] == body + ['}'] + rest;
    SameName(q, x, body, rest);
  }

  lemma SameName(q: string, x: string, body: string, rest: string)
    requires '}' !in q && '}' !in body && q + ['}'] + x == body + ['}'] + rest
    ensures q == body
  {
    CutAtOf(q, '}', x);
    CutAtOf(body, '}', rest);
  }

  lemma OtherHole(q: string, body: string, rest: string)
    requires '}' !in q && '}' !in body && q != body
    ensures !(HoleText(q) <= HoleText(body) + rest)
  {
    var s := HoleText(body) + rest;
    if HoleText(q) <= s {
      SameHole(q, s[|HoleText(q)|..], body, rest);
    }
  }

  lemma BraceFirst(body: string, rest: string)
    ensures HoleText(body) + rest == ['{'] + (body + ['}'] + rest)
  {
  }

  /** Another name in braces is copied. */
  lemma SkipHole(body: string, rest: string, q: string, new_: string)
    requires '}' !in q && '}' !in body && '{' !in body && q != body
    ensures ReplaceAll(HoleText(body) + rest, HoleText(q), new_) == HoleText(body) + ReplaceAll(rest, HoleText(q), new_)
  {
    OtherHole(q, body, rest);
    BraceFirst(body, rest);
    ReplaceStep('{', body + ['}'] + rest, HoleText(q), new_);
    ReplaceSkipText(body + ['}'], rest, HoleText(q), new_);
    BraceFirst(body, ReplaceAll(rest, HoleText(q), new_));
  }

  ghost predicate BraceFree(s: string) {
    '{' !in s && '}' !in s
  }

  /** What a generator writes in place of a hole. */
  ghost predicate IsReplacement(v: string) {
    v == "%s" || exists ts :: BraceFree(ts) && v == TsText(ts)
  }

  lemma CallIsNoName(ts: string, q: string)
    requires IsIdentifier(q) && BraceFree(ts)
    ensures Call(ts) != q && BraceFree(Call(ts))
  {
    assert Call(ts)[|CALL| - 1] == '(' && '(' in Call(ts);
  }

  lemma SkipReplacement(v: string, rest: string, q: string, new_: string)
    requires IsReplacement(v) && IsIdentifier(q)
    ensures ReplaceAll(v + rest, HoleText(q), new_) == v + ReplaceAll(rest, HoleText(q), new_)
  {
    if v == "%s" {
      ReplaceSkipText(v, rest, HoleText(q), new_);
    } else {
      var ts :| BraceFree(ts) && v == TsText(ts);
      SkipTsText(ts, rest, q, new_);
    }
  }

  lemma SkipTsText(ts: string, rest: string, q: string, new_: string)
    requires BraceFree(ts) && IsIdentifier(q)
    ensures ReplaceAll(TsText(ts) + rest, HoleText(q), new_) == TsText(ts) + ReplaceAll(rest, HoleText(q), new_)
  {
    var tail := HoleText(Call(ts));
    CallIsNoName(ts, q);
    DollarFirst(tail, rest);
    ReplaceSkipText(['$'], tail + rest, HoleText(q), new_);
    SkipHole(Call(ts), rest, q, new_);
    DollarFirst(tail, ReplaceAll(rest, HoleText(q), new_));
  }

  lemma DollarFirst(tail: string, rest: string)
    ensures ['$'] + tail + rest == ['$'] + (tail + rest)
  {
  }

  function PieceText(p: Piece, done: map<string, string>): string {
    match p
    case Text(text) => text
    case Hole(name) => if name in done then done[name] else HoleText(name)
  }

  lemma ReplacePiece(p: Piece, done: map<string, string>, q: string, new_: string, rest: string)
    requires IsTemplate([p]) && IsIdentifier(q) && q !in done && forall n :: n in done ==> IsReplacement(done[n])
    ensures ReplaceAll(PieceText(p, done) + rest, HoleText(q), new_) ==
            PieceText(p, done[q := new_]) + ReplaceAll(rest, HoleText(q), new_)
  {
    assert p in [p];
    match p
    case Text(text) => ReplaceSkipText(text, rest, HoleText(q), new_);
    case Hole(name) =>
      if name in done {
        SkipReplacement(done[name], rest, q, new_);
      } else if name == q {
        ReplaceHit(rest, HoleText(q), new_);
      } else {
        SkipHole(name, rest, q, new_);
      }
  }

  /** Replacing one more parameter renders one more name. */
  lemma {:induction false} ReplaceOne(ps: seq<Piece>, done: map<string, string>, q: string, new_: string)
    requires IsTemplate(ps) && IsIdentifier(q) && q !in done && forall n :: n in done ==> IsReplacement(done[n])
    ensures ReplaceAll(Rendered(ps, done), HoleText(q), new_) == Rendered(ps, done[q := new_])
    decreases |ps|
  {
    if ps != [] {
      assert ps[0] in ps;
      ReplaceOne(ps[1..], done, q, new_);
      ReplacePiece(ps[0], done, q, new_, Rendered(ps[1..], done));
    }
  }

  function Replacements(params: seq<PathParameter>, n: nat, hole: PathParameter -> string): map<string, string>
    requires n <= |params|
  {
    if n == 0 then map[] else Replacements(params, n - 1, hole)[params[n - 1].name := hole(params[n - 1])]
  }

  ghost predicate AreParameters(params: seq<PathParameter>) {
    && (forall i :: 0 <= i < |params| ==> IsIdentifier(params[i].name) && IsIdentifier(params[i].tsName))
    && (forall i, j :: 0 <= i < j < |params| ==> params[i].name != params[j].name)
  }

  lemma {:induction false} ReplacementsAre(params: seq<PathParameter>, n: nat, hole: PathParameter -> string)
    requires n <= |params| && AreParameters(params)
    ensures forall x :: x in Replacements(params, n, hole) <==> exists i :: 0 <= i < n && params[i].name == x
    ensures forall i :: 0 <= i < n ==> Replacements(params, n, hole)[params[i].name] == hole(params[i])
  {
    if n > 0 {
      ReplacementsAre(params, n - 1, hole);
    }
  }

  lemma {:induction false} ReplaceAllHoles(ps: seq<Piece>, params: seq<PathParameter>, n: nat,
                                           hole: PathParameter -> string)
    requires IsTemplate(ps) && AreParameters(params) && n <= |params|
    requires forall i :: 0 <= i < |params| ==> IsReplacement(hole(params[i]))
    ensures ReplaceHoles(RenderPieces(ps), params[..n], hole) == Rendered(ps, Replacements(params, n, hole))
    decreases n
  {
    if n == 0 {
      NothingReplaced(ps);
    } else {
      ReplaceAllHoles(ps, params, n - 1, hole);
      assert params[..n][..n - 1] == params[..n - 1];
      NextReplacement(params, n - 1, hole);
      ReplaceOne(ps, Replacements(params, n - 1, hole), params[n - 1].name, hole(params[n - 1]));
    }
  }

  lemma NextReplacement(params: seq<PathParameter>, n: nat, hole: PathParameter -> string)
    requires n < |params| && AreParameters(params) && forall i :: 0 <= i < |params| ==> IsReplacement(hole(params[i]))
    ensures var done := Replacements(params, n, hole);
            params[n].name !in done && forall x :: x in done ==> IsReplacement(done[x])
  {
    ReplacementsAre(params, n, hole);
  }

  // ---- evaluating the Go expression ----

  lemma PrependTwice(a: string, b: string, rest: Option<string>)
    ensures Prepend(a, Prepend(b, rest)) == Prepend(a + b, rest)
    ensures Prepend("", rest) == rest
  {
    if rest.Some? {
      assert a + (b + rest.value) == a + b + rest.value;
      assert "" + rest.value == rest.value;
    }
  }

  lemma {:induction false} SprintfText(text: string, rest: string, args: seq<string>)
    requires '%' !in text
    ensures SprintfValue(text + rest, args) == Prepend(text, SprintfValue(rest, args))
  {
    if text == "" {
      assert text + rest == rest;
      PrependTwice("", "", SprintfValue(rest, args));
    } else {
      SprintfText(text[1..], rest, args);
      assert (text + rest)[1..] == text[1..] + rest;
      PrependTwice([text[0]], text[1..], SprintfValue(rest, args));
      assert text == [text[0]] + text[1..];
    }
  }

  lemma SprintfVerb(rest: string, arg: string, args: seq<string>)
    ensures SprintfValue("%s" + rest, [arg] + args) == Prepend(arg, SprintfValue(rest, args))
  {
    assert ("%s" + rest)[2..] == rest && ([arg] + args)[1..] == args;
  }

  function Escaped(names: seq<string>, values: map<string, string>, escape: Escape): seq<string> {
    if names == [] then []
    else
      [if names[0] in values then escape(values[names[0]]) else HoleText(names[0])] +
      Escaped(names[1..], values, escape)
  }

  /** The template with its holes filled in order. */
  function Filled(ps: seq<Piece>, args: seq<string>): string
    requires |args| == |Holes(ps)|
  {
    if ps == [] then ""
    else if ps[0].Hole? then args[0] + Filled(ps[1..], args[1..])
    else ps[0].text + Filled(ps[1..], args)
  }

  lemma {:induction false} SprintfFills(ps: seq<Piece>, done: map<string, string>, args: seq<string>)
    requires IsTemplate(ps) && |args| == |Holes(ps)| && forall n :: n in Holes(ps) ==> n in done && done[n] == "%s"
    ensures SprintfValue(Rendered(ps, done), args) == Some(Filled(ps, args))
    decreases |ps|
  {
    if ps != [] {
      var rest := Rendered(ps[1..], done);
      assert ps[0] in ps;
      if ps[0].Hole? {
        assert Holes(ps)[0] == ps[0].name;
        SprintfFills(ps[1..], done, args[1..]);
        SprintfVerb(rest, args[0], args[1..]);
        assert [args[0]] + args[1..] == args;
      } else {
        SprintfFills(ps[1..], done, args);
        SprintfText(ps[0].text, rest, args);
      }
    }
  }

  /** Filling in path order instantiates the template. */
  lemma {:induction false} FilledInOrder(ps: seq<Piece>, values: map<string, string>, escape: Escape)
    requires forall n :: n in Holes(ps) ==> n in values
    ensures |Escaped(Holes(ps), values, escape)| == |Holes(ps)|
    ensures Filled(ps, Escaped(Holes(ps), values, escape)) == Instantiate(ps, values, escape)
    decreases |ps|
  {
    if ps != [] {
      FilledInOrder(ps[1..], values, escape);
      if ps[0].Hole? {
        assert Holes(ps)[0] == ps[0].name && Holes(ps)[1..] == Holes(ps[1..]);
      } else {
        assert Holes(ps) == Holes(ps[1..]);
      }
    }
  }

  // ---- evaluating the TypeScript expression ----

  lemma {:induction false} TemplateText(text: string, rest: string, env: map<string, string>, escape: Escape)
    requires '$' !in text && '`' !in text && '\\' !in text
    ensures TemplateValue(text + rest, env, escape) == Prepend(text, TemplateValue(rest, env, escape))
  {
    if text == "" {
      assert text + rest == rest;
      PrependTwice("", "", TemplateValue(rest, env, escape));
    } else {
      TemplateText(text[1..], rest, env, escape);
      assert (text + rest)[1..] == text[1..] + rest;
      PrependTwice([text[0]], text[1..], TemplateValue(rest, env, escape));
      assert text == [text[0]] + text[1..];
    }
  }

  lemma ArgumentOfCall(ts: string)
    ensures Argument(Call(ts)) == Some(ts)
  {
    var call := Call(ts);
    assert call[..|CALL|] == CALL && call[|CALL|..|call| - 1] == ts;
  }

  lemma TemplateCall(ts: string, rest: string, env: map<string, string>, escape: Escape)
    requires BraceFree(ts) && ts in env
    ensures TemplateValue(TsText(ts) + rest, env, escape) == Prepend(escape(env[ts]), TemplateValue(rest, env, escape))
  {
    var s := TsText(ts) + rest;
    assert s[2..] == Call(ts) + ['}'] + rest;
    CutAtOf(Call(ts), '}', rest);
    ArgumentOfCall(ts);
  }

  /** The name stands for a call on a variable that holds the value of the name. */
  ghost predicate HoldsValue(done: map<string, string>, env: map<string, string>, values: map<string, string>,
                             n: string) {
    n in done && n in values && exists ts :: BraceFree(ts) && done[n] == TsText(ts) && ts in env && env[ts] == values[n]
  }

  lemma {:induction false} TemplateFills(ps: seq<Piece>, done: map<string, string>, env: map<string, string>,
                                         values: map<string, string>, escape: Escape)
    requires IsTemplate(ps) && forall n :: n in Holes(ps) ==> HoldsValue(done, env, values, n)
    ensures TemplateValue(Rendered(ps, done), env, escape) == Some(Instantiate(ps, values, escape))
    decreases |ps|
  {
    if ps != [] {
      var rest := Rendered(ps[1..], done);
      assert ps[0] in ps;
      TemplateFills(ps[1..], done, env, values, escape);
      if ps[0].Hole? {
        var name := ps[0].name;
        assert name in Holes(ps);
        var ts :| BraceFree(ts) && done[name] == TsText(ts) && ts in env && env[ts] == values[name];
        TemplateCall(ts, rest, env, escape);
      } else {
        TemplateText(ps[0].text, rest, env, escape);
      }
    }
  }

  // ---- both backends ----

  /** The variables of the generated function hold the values of the parameters. */
  ghost predicate Binds(params: seq<PathParameter>, values: map<string, string>, goEnv: map<string, string>,
                        tsEnv: map<string, string>) {
    GoBinds(params, values, goEnv) && TsBinds(params, values, tsEnv)
  }

  ghost predicate GoBinds(params: seq<PathParameter>, values: map<string, string>, env: map<string, string>) {
    forall p :: p in params ==> GoHolds(p, values, env)
  }

  ghost predicate TsBinds(params: seq<PathParameter>, values: map<string, string>, env: map<string, string>) {
    forall p :: p in params ==> TsHolds(p, values, env)
  }

  function Names(params: seq<PathParameter>): seq<string> {
    if params == [] then [] else [params[0].name] + Names(params[1..])
  }

  lemma {:induction false} NamesAre(params: seq<PathParameter>)
    ensures |Names(params)| == |params| && forall i :: 0 <= i < |params| ==> Names(params)[i] == params[i].name
  {
    if params != [] {
      NamesAre(params[1..]);
    }
  }

  lemma {:induction false} EscapedAre(names: seq<string>, values: map<string, string>, escape: Escape)
    requires forall n :: n in names ==> n in values
    ensures Escaped(names, values, escape) ==
            seq(|names|, i requires 0 <= i < |names| && names[i] in values => escape(values[names[i]]))
  {
    if names != [] {
      EscapedAre(names[1..], values, escape);
    }
  }

  /** The Go expression fills the holes by position: its arguments count in the order of the parameters. */
  lemma GoFillsByPosition(ps: seq<Piece>, params: seq<PathParameter>, values: map<string, string>,
                          goEnv: map<string, string>, escape: Escape)
    requires IsTemplate(ps) && AreParameters(params) && GoBinds(params, values, goEnv)
    requires |params| == |Holes(ps)| && forall n :: n in Holes(ps) ==> n in Names(params)
    ensures |Escaped(Names(params), values, escape)| == |Holes(ps)|
    ensures EvalGo(GoPath(RenderPieces(ps), params), goEnv, escape) ==
            Some(Filled(ps, Escaped(Names(params), values, escape)))
  {
    var done, args := Replacements(params, |params|, GoHole), Escaped(Names(params), values, escape);
    GoArguments(params, values, goEnv, escape);
    ReplaceAllHoles(ps, params, |params|, GoHole);
    assert params[..|params|] == params;
    forall n | n in Holes(ps) ensures n in done && done[n] == "%s" {
      GoDone(params, n);
    }
    if params == [] {
      PlainFilled(ps, done);
    } else {
      SprintfFills(ps, done, args);
    }
  }

  lemma GoDone(params: seq<PathParameter>, n: string)
    requires AreParameters(params) && n in Names(params)
    ensures var done := Replacements(params, |params|, GoHole); n in done && done[n] == "%s"
  {
    NamesAre(params);
    ReplacementsAre(params, |params|, GoHole);
    var i :| 0 <= i < |params| && params[i].name == n;
  }

  /** Without holes the format is the path itself. */
  lemma {:induction false} PlainFilled(ps: seq<Piece>, done: map<string, string>)
    requires Holes(ps) == []
    ensures Rendered(ps, done) == Filled(ps, [])
  {
    if ps != [] {
      PlainFilled(ps[1..], done);
    }
  }

  lemma GoArguments(params: seq<PathParameter>, values: map<string, string>, goEnv: map<string, string>,
                    escape: Escape)
    requires GoBinds(params, values, goEnv)
    ensures |Escaped(Names(params), values, escape)| == |params|
    ensures var names := GoNames(params);
            && (forall a :: a in names ==> a in goEnv)
            && seq(|names|, i requires 0 <= i < |names| && names[i] in goEnv => escape(goEnv[names[i]])) ==
               Escaped(Names(params), values, escape)
  {
    NamesAre(params);
    var names := GoNames(params);
    forall i | 0 <= i < |params|
      ensures names[i] in goEnv && params[i].name in values && goEnv[names[i]] == values[params[i].name]
    {
      assert params[i] in params;
    }
    EscapedAre(Names(params), values, escape);
  }

  /** In path order it is the path with every hole replaced by the escaped value of its parameter. */
  lemma GoPathMeans(ps: seq<Piece>, params: seq<PathParameter>, values: map<string, string>, goEnv: map<string, string>,
                    escape: Escape)
    requires IsTemplate(ps) && AreParameters(params) && Names(params) == Holes(ps)
    requires GoBinds(params, values, goEnv)
    ensures EvalGo(GoPath(RenderPieces(ps), params), goEnv, escape) == Some(Instantiate(ps, values, escape))
  {
    NamesAre(params);
    forall n | n in Holes(ps) ensures n in values {
      var i :| 0 <= i < |params| && params[i].name == n;
      assert params[i] in params;
    }
    GoFillsByPosition(ps, params, values, goEnv, escape);
    FilledInOrder(ps, values, escape);
  }

  /** The order of the parameters does not matter here, nor does a hole that occurs twice. */
  lemma TsPathMeans(ps: seq<Piece>, params: seq<PathParameter>, values: map<string, string>, tsEnv: map<string, string>,
                    escape: Escape)
    requires IsTemplate(ps) && AreParameters(params) && TsBinds(params, values, tsEnv)
    requires forall n :: n in Holes(ps) ==> n in Names(params)
    ensures EvalTs(TsPath(RenderPieces(ps), params), tsEnv, escape) == Some(Instantiate(ps, values, escape))
  {
    var done := Replacements(params, |params|, TsHole);
    forall i | 0 <= i < |params| ensures IsReplacement(TsHole(params[i])) {
      TsReplacement(params[i]);
    }
    ReplaceAllHoles(ps, params, |params|, TsHole);
    assert params[..|params|] == params;
    forall n | n in Holes(ps) ensures HoldsValue(done, tsEnv, values, n) {
      TsHoldsValue(params, values, tsEnv, n);
    }
    TemplateFills(ps, done, tsEnv, values, escape);
    var e := TsPath(RenderPieces(ps), params);
    assert e[1..|e| - 1] == Rendered(ps, done);
  }

  lemma TsReplacement(p: PathParameter)
    requires IsIdentifier(p.tsName)
    ensures BraceFree(p.tsName) && IsReplacement(TsHole(p))
  {
  }

  lemma TsHoldsValue(params: seq<PathParameter>, values: map<string, string>, tsEnv: map<string, string>, n: string)
    requires AreParameters(params) && TsBinds(params, values, tsEnv) && n in Names(params)
    ensures HoldsValue(Replacements(params, |params|, TsHole), tsEnv, values, n)
  {
    NamesAre(params);
    ReplacementsAre(params, |params|, TsHole);
    var i :| 0 <= i < |params| && params[i].name == n;
    assert params[i] in params;
    TsReplacement(params[i]);
  }

  /**
   * For a route whose literals and names pass validation, with the parameters in path order: each expression is
   * the path with every `{p}` replaced by the escaped value of p, and the two agree wherever the escapes do.
   */
  lemma BackendsAgree(path: string, params: seq<PathParameter>, values: map<string, string>, goEnv: map<string, string>,
                      tsEnv: map<string, string>, goEscape: Escape, tsEscape: Escape)
    requires Scan(path).Some? && IsTemplate(Scan(path).value) && AreParameters(params)
    requires Names(params) == Holes(Scan(path).value) && Binds(params, values, goEnv, tsEnv)
    ensures EvalGo(GoPath(path, params), goEnv, goEscape) == Some(Instantiate(Scan(path).value, values, goEscape))
    ensures EvalTs(TsPath(path, params), tsEnv, tsEscape) == Some(Instantiate(Scan(path).value, values, tsEscape))
    ensures (forall n :: n in values ==> goEscape(values[n]) == tsEscape(values[n])) ==>
              EvalGo(GoPath(path, params), goEnv, goEscape) == EvalTs(TsPath(path, params), tsEnv, tsEscape)
  {
    var ps := Scan(path).value;
    ScanRenders(path);
    GoPathMeans(ps, params, values, goEnv, goEscape);
    TsPathMeans(ps, params, values, tsEnv, tsEscape);
    if forall n :: n in values ==> goEscape(values[n]) == tsEscape(values[n]) {
      SameInstance(ps, values, goEscape, tsEscape);
    }
  }

  lemma {:induction false} SameInstance(ps: seq<Piece>, values: map<string, string>, f: Escape, g: Escape)
    requires forall n :: n in values ==> f(values[n]) == g(values[n])
    ensures Instantiate(ps, values, f) == Instantiate(ps, values, g)
  {
    if ps != [] {
      SameInstance(ps[1..], values, f, g);
    }
  }

  // ---- accepted routes ----

  /** The holes and the literal text of a template, each in order. */
  datatype Content = Content(holes: seq<string>, text: string)

  function Plus(a: Content, b: Content): Content {
    Content(a.holes + b.holes, a.text + b.text)
  }

  lemma PlusAssociates(a: Content, b: Content, c: Content)
    ensures Plus(a, Plus(b, c)) == Plus(Plus(a, b), c)
    ensures Plus(Content([], ""), a) == a == Plus(a, Content([], ""))
  {
    assert a.holes + (b.holes + c.holes) == a.holes + b.holes + c.holes;
    assert a.text + (b.text + c.text) == a.text + b.text + c.text;
    assert [] + a.holes == a.holes == a.holes + [] && "" + a.text == a.text == a.text + "";
  }

  function Then(a: Content, rest: Option<Content>): Option<Content> {
    if rest.None? then None else Some(Plus(a, rest.value))
  }

  lemma ThenThen(a: Content, b: Content, rest: Option<Content>)
    ensures Then(a, Then(b, rest)) == Then(Plus(a, b), rest)
  {
    if rest.Some? {
      PlusAssociates(a, b, rest.value);
    }
  }

  function ContentOf(ps: seq<Piece>): Content {
    if ps == [] then Content([], "") else Plus(PieceContent(ps[0]), ContentOf(ps[1..]))
  }

  function PieceContent(p: Piece): Content {
    if p.Hole? then Content([p.name], "") else Content([], p.text)
  }

  lemma {:induction false} ContentAppend(a: seq<Piece>, b: seq<Piece>)
    ensures ContentOf(a + b) == Plus(ContentOf(a), ContentOf(b))
  {
    PlusAssociates(ContentOf(b), ContentOf(b), ContentOf(b));
    if a == [] {
      assert a + b == b;
    } else {
      assert (a + b)[1..] == a[1..] + b;
      ContentAppend(a[1..], b);
      PlusAssociates(PieceContent(a[0]), ContentOf(a[1..]), ContentOf(b));
    }
  }

  lemma {:induction false} HolesOfContent(ps: seq<Piece>)
    ensures ContentOf(ps).holes == Holes(ps)
  {
    if ps != [] {
      HolesOfContent(ps[1..]);
    }
  }

  /** What a text contains, read hole by hole; none if a hole is not closed. */
  function Contents(s: string): Option<Content>
    decreases |s|
  {
    match FirstHole(s)
    case NoHole => Some(Content([], s))
    case Unclosed => None
    case Closed(lead, name, rest) => Then(Content([name], lead), Contents(rest))
  }

  lemma ContentOfLead(text: string)
    ensures ContentOf(Lead(text)) == Content([], text)
  {
    PlusAssociates(Content([], text), Content([], ""), Content([], ""));
    if text != "" {
      assert Lead(text)[1..] == [];
    }
  }

  lemma ContentOfHole(lead: string, name: string, ps: seq<Piece>)
    ensures ContentOf(Lead(lead) + ([Hole(name)] + ps)) == Plus(Content([name], lead), ContentOf(ps))
  {
    ContentAppend(Lead(lead), [Hole(name)] + ps);
    ContentOfLead(lead);
    assert ([Hole(name)] + ps)[1..] == ps;
    PlusAssociates(Content([], lead), Content([name], ""), ContentOf(ps));
    assert [] + [name] == [name] && lead + "" == lead;
  }

  lemma {:induction false} ContentsOfScan(s: string)
    ensures Contents(s) == if Scan(s).None? then None else Some(ContentOf(Scan(s).value))
    decreases |s|
  {
    match FirstHole(s)
    case NoHole => ContentOfLead(s);
    case Unclosed =>
    case Closed(lead, name, rest) =>
      ContentsOfScan(rest);
      if Scan(rest).Some? {
        ContentOfHole(lead, name, Scan(rest).value);
      }
  }

  lemma CutAfter(x: string, c: char, z: string)
    requires c !in x && CutAt(z, c).Some?
    ensures CutAt(x + z, c) == Some((x + CutAt(z, c).value.0, CutAt(z, c).value.1))
  {
    var (a, b) := CutAt(z, c).value;
    CutAtOf(x + a, c, b);
    JoinConcat(x, a, [c], b);
  }

  lemma FirstHoleAfter(x: string, z: string)
    requires '{' !in x
    ensures FirstHole(x + z) ==
            match FirstHole(z)
            case NoHole => NoHole
            case Unclosed => Unclosed
            case Closed(lead, name, rest) => Closed(x + lead, name, rest)
  {
    if CutAt(z, '{').Some? {
      CutAfter(x, '{', z);
    }
  }

  lemma PlusText(x: string, holes: seq<string>, z: string)
    ensures Plus(Content([], x), Content(holes, z)) == Content(holes, x + z)
  {
    assert [] + holes == holes;
  }

  lemma ContentsAfterText(x: string, z: string)
    requires '{' !in x
    ensures Contents(x + z) == Then(Content([], x), Contents(z))
  {
    FirstHoleAfter(x, z);
    match FirstHole(z)
    case NoHole => PlusText(x, [], z);
    case Unclosed =>
    case Closed(lead, name, rest) =>
      PlusText(x, [name], lead);
      ThenThen(Content([], x), Content([name], lead), Contents(rest));
  }

  /** A text whose holes are all closed, followed by more text. */
  lemma {:induction false} ContentsAppend(x: string, z: string)
    requires Contents(x).Some?
    ensures Contents(x + z) == Then(Contents(x).value, Contents(z))
    decreases |x|
  {
    match FirstHole(x)
    case NoHole => ContentsAfterText(x, z);
    case Closed(lead, name, rest) =>
      ContentsAppend(rest, z);
      HoleThenMore(x, z, lead, name, rest);
      ThenThen(Content([name], lead), Contents(rest).value, Contents(z));
  }

  lemma HoleThenMore(x: string, z: string, lead: string, name: string, rest: string)
    requires FirstHole(x) == Closed(lead, name, rest)
    ensures FirstHole(x + z) == Closed(lead, name, rest + z)
  {
    FirstHoleOf(lead, name, rest + z);
    HoleConcat(lead, ['{'] + name + ['}'], rest, z);
  }

  lemma HoleConcat(lead: string, hole: string, rest: string, z: string)
    ensures lead + (hole + rest) + z == lead + (hole + (rest + z))
  {
  }

  // ---- the parameters of an accepted route are in path order ----

  ghost predicate Reads(s: string, content: Content) {
    Contents(s) == Some(content)
  }

  lemma {:induction false} JoinAppend(parts: seq<string>, last: string)
    requires |parts| > 0
    ensures Join(parts + [last], '/') == Join(parts, '/') + ['/'] + last
  {
    if |parts| == 1 {
      assert (parts + [last])[1..] == [last];
    } else {
      assert (parts + [last])[1..] == parts[1..] + [last];
      JoinAppend(parts[1..], last);
      JoinConcat(parts[0] + ['/'], Join(parts[1..], '/'), ['/'], last);
    }
  }

  lemma JoinConcat(a: string, b: string, c: string, d: string)
    ensures a + (b + c + d) == a + b + c + d
  {
  }

  /** The same holes, and no literal character that is not a slash or in the text. */
  ghost predicate Spells(content: Content, all: Content) {
    content.holes == all.holes && forall c :: c in content.text ==> c == '/' || c in all.text
  }

  lemma {:induction false} JoinedSpells(parts: seq<string>, n: nat)
    requires 0 < n <= |parts| && Routes.Joined(Scans(parts), n).Some?
    ensures var s := Join(parts[..n], '/');
            Contents(s).Some? && Spells(Contents(s).value, ContentOf(Routes.Joined(Scans(parts), n).value))
    decreases n
  {
    var scans, last := Scans(parts), parts[n - 1];
    assert parts[..n] == parts[..n - 1] + [last];
    if n == 1 {
      OnePart(last, scans[0].value);
      assert [] + scans[0].value == scans[0].value;
    } else {
      JoinedSpells(parts, n - 1);
      JoinAppend(parts[..n - 1], last);
      OnePartMore(Join(parts[..n - 1], '/'), last, Routes.Joined(scans, n - 1).value, scans[n - 1].value);
    }
  }

  lemma OnePart(last: string, ps: seq<Piece>)
    requires Scan(last) == Some(ps)
    ensures Join([last], '/') == last && Reads(last, ContentOf(ps))
  {
    ContentsOfScan(last);
  }

  lemma OnePartMore(before: string, last: string, ps: seq<Piece>, qs: seq<Piece>)
    requires Contents(before).Some? && Spells(Contents(before).value, ContentOf(ps)) && Scan(last) == Some(qs)
    ensures var s := before + ['/'] + last; Contents(s).Some? && Spells(Contents(s).value, ContentOf(ps + qs))
  {
    assert before + ['/'] + last == before + (['/'] + last);
    ContentsOfScan(last);
    ContentsAppend(before, ['/'] + last);
    ContentsAfterText(['/'], last);
    ContentAppend(ps, qs);
    SpellsOneMore(Contents(before).value, ContentOf(ps), ContentOf(qs));
  }

  lemma SpellsOneMore(a: Content, all: Content, last: Content)
    requires Spells(a, all)
    ensures Spells(Plus(a, Plus(Content([], ['/']), last)), Plus(all, last))
  {
    assert [] + last.holes == last.holes;
  }

  lemma {:induction false} UntrimmedStart(s: string, all: Content)
    requires Contents(TrimStart(s)).Some? && Spells(Contents(TrimStart(s)).value, all)
    ensures Contents(s).Some? && Spells(Contents(s).value, all)
  {
    if s != "" && s[0] == '/' {
      UntrimmedStart(s[1..], all);
      assert s == ['/'] + s[1..];
      ContentsAfterText(['/'], s[1..]);
      assert [] + Contents(s[1..]).value.holes == Contents(s[1..]).value.holes;
    }
  }

  lemma {:induction false} UntrimmedEnd(s: string, all: Content)
    requires Contents(TrimEnd(s)).Some? && Spells(Contents(TrimEnd(s)).value, all)
    ensures Contents(s).Some? && Spells(Contents(s).value, all)
  {
    if s != "" && s[|s| - 1] == '/' {
      var t := s[..|s| - 1];
      UntrimmedEnd(t, all);
      assert s == t + ['/'];
      ContentsAppend(t, ['/']);
      assert Contents(['/']) == Some(Content([], ['/']));
      assert Contents(t).value.holes + [] == Contents(t).value.holes;
    }
  }

  /** The path as a whole has the holes of its parts, in the same order. */
  lemma PathSpells(path: string)
    requires ScanAll(Parts(path)).Some?
    ensures Scan(path).Some? && Spells(ContentOf(Scan(path).value), ContentOf(ScanAll(Parts(path)).value))
  {
    var parts, all := Parts(path), ContentOf(ScanAll(Parts(path)).value);
    JoinedSpells(parts, |parts|);
    assert parts[..|parts|] == parts;
    JoinSplit(TrimSlashes(path), '/');
    UntrimmedEnd(TrimStart(path), all);
    UntrimmedStart(path, all);
    ContentsOfScan(path);
  }

  function ParameterNames(parameters: seq<Parameter>): seq<string> {
    seq(|parameters|, i requires 0 <= i < |parameters| => parameters[i].name)
  }

  lemma {:induction false} VariableNames(declared: map<string, Parameter>, ps: seq<Piece>)
    requires AllUsable(declared, ps) && forall n :: n in declared ==> declared[n].name == n
    ensures ParameterNames(Variables(Routes.Resolve(declared, ps))) == Holes(ps)
    decreases |ps|
  {
    if ps != [] {
      var rest, p := ps[..|ps| - 1], ps[|ps| - 1];
      assert ps == rest + [p] && p in ps;
      VariableNames(declared, rest);
      ResolveOne(declared, rest, p);
      VariablesOne(Routes.Resolve(declared, rest), ResolvePiece(declared, p));
      HolesOne(rest, p);
      NamesOne(Variables(Routes.Resolve(declared, rest)), ResolvePiece(declared, p));
    }
  }

  lemma NamesOne(parameters: seq<Parameter>, g: Segment)
    ensures ParameterNames(parameters + if g.Variable? then [g.parameter] else []) ==
            ParameterNames(parameters) + if g.Variable? then [g.parameter.name] else []
  {
  }

  lemma HolesOne(ps: seq<Piece>, p: Piece)
    ensures Holes(ps + [p]) == Holes(ps) + if p.Hole? then [p.name] else []
  {
    ContentAppend(ps, [p]);
    HolesOfContent(ps);
    HolesOfContent(ps + [p]);
    HolesOfContent([p]);
    assert [p][1..] == [];
  }

  /** An accepted path has exactly the holes of its ordered parameters, in that order. */
  lemma OrderedIsPathOrder(path: string, parameters: seq<Parameter>)
    requires IsAccepted(path, Declared(parameters))
    ensures Scan(path).Some?
    ensures Holes(Scan(path).value) ==
            ParameterNames(Variables(Routes.Resolve(Declared(parameters), ScanAll(Parts(path)).value)))
  {
    PathSpells(path);
    DeclaredNames(parameters);
    VariableNames(Declared(parameters), ScanAll(Parts(path)).value);
    HolesOfContent(Scan(path).value);
    HolesOfContent(ScanAll(Parts(path)).value);
  }

  /** Validation of the segments makes the whole path a template. */
  ghost predicate SegmentsValid(segments: seq<Segment>) {
    && (forall g :: g in segments && g.Literal? ==> forall c :: c in g.text ==> IsRouteChar(c))
    && (forall g :: g in segments && g.Variable? ==> IsIdentifier(g.parameter.name))
  }

  lemma {:induction false} TextOfSegments(declared: map<string, Parameter>, ps: seq<Piece>)
    requires AllUsable(declared, ps) && SegmentsValid(Routes.Resolve(declared, ps))
    ensures forall c :: c in ContentOf(ps).text ==> IsRouteChar(c)
    decreases |ps|
  {
    if ps != [] {
      var n := |ps| - 1;
      var before, last := Routes.Resolve(declared, ps[..n]), ResolvePiece(declared, ps[n]);
      ResolveOne(declared, ps[..n], ps[n]);
      assert ps == ps[..n] + [ps[n]];
      assert forall g :: g in before ==> g in before + [last];
      assert last in before + [last];
      TextOfSegments(declared, ps[..n]);
      ContentAppend(ps[..n], [ps[n]]);
      assert [ps[n]][1..] == [];
      assert ps[n] in ps;
    }
  }

  lemma {:induction false} TemplateFromContent(ps: seq<Piece>)
    requires forall c :: c in ContentOf(ps).text ==> IsRouteChar(c)
    requires forall n :: n in Holes(ps) ==> IsIdentifier(n)
    ensures IsTemplate(ps)
    decreases |ps|
  {
    if ps != [] {
      TemplateFromContent(ps[1..]);
      assert ps == [ps[0]] + ps[1..];
    }
  }

  /**
   * For every accepted route whose segments pass validation, with the client's parameters named like the ordered
   * parameters of the route: both expressions evaluate to the path with every `{p}` replaced by the escaped value of p.
   */
  lemma AcceptedRoutesAgree(path: string, parameters: seq<Parameter>, params: seq<PathParameter>,
                            values: map<string, string>, goEnv: map<string, string>, tsEnv: map<string, string>,
                            goEscape: Escape, tsEscape: Escape)
    requires IsAccepted(path, Declared(parameters)) && AreParameters(params) && Binds(params, values, goEnv, tsEnv)
    requires var segments := Routes.Resolve(Declared(parameters), ScanAll(Parts(path)).value);
             SegmentsValid(segments) && Names(params) == ParameterNames(Variables(segments))
    ensures Scan(path).Some?
    ensures EvalGo(GoPath(path, params), goEnv, goEscape) == Some(Instantiate(Scan(path).value, values, goEscape))
    ensures EvalTs(TsPath(path, params), tsEnv, tsEscape) == Some(Instantiate(Scan(path).value, values, tsEscape))
  {
    var declared, all := Declared(parameters), ScanAll(Parts(path)).value;
    OrderedIsPathOrder(path, parameters);
    PathSpells(path);
    TextOfSegments(declared, all);
    NamesAre(params);
    TemplateFromContent(Scan(path).value);
    BackendsAgree(path, params, values, goEnv, tsEnv, goEscape, tsEscape);
  }
}
