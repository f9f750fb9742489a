/**
 * Resource views: operations grouped by path, kind and represented schema, with the capabilities of the
 * operations they list. The order of the operation names in a view is not kept.
 */
module ResourceViews {
  import opened Text
  import opened Pointers
  import opened SchemaNormalizer
  import opened ListItems

  /** In the order of their names. */
  datatype Capability = Action | Create | Delete | Get | List | Stream | Update

  function Rank(c: Capability): nat {
    match c
    case Action => 0
    case Create => 1
    case Delete => 2
    case Get => 3
    case List => 4
    case Stream => 5
    case Update => 6
  }

  // ---- sorting and compacting capabilities ----

  ghost predicate Sorted(s: seq<Capability>) {
    forall i, j :: 0 <= i < j < |s| ==> Rank(s[i]) <= Rank(s[j])
  }

  /** The same, built up from the front. */
  ghost predicate Ascending(s: seq<Capability>) {
    s == [] || (Ascending(s[..|s| - 1]) && forall x :: x in s[..|s| - 1] ==> Rank(x) <= Rank(s[|s| - 1]))
  }

  ghost predicate StrictlyIncreasing(s: seq<Capability>) {
    forall i, j :: 0 <= i < j < |s| ==> Rank(s[i]) < Rank(s[j])
  }

  function Elements(s: seq<Capability>): set<Capability> {
    set c | c in s
  }

  lemma ElementsAppend(s: seq<Capability>, c: Capability)
    ensures Elements(s + [c]) == Elements(s) + {c}
  {
  }

  /** Any sorting of a list: here by insertion. */
  function Sort(s: seq<Capability>): seq<Capability> {
    if s == [] then [] else Insert(Sort(s[..|s| - 1]), s[|s| - 1])
  }

  function Insert(s: seq<Capability>, c: Capability): seq<Capability> {
    if s == [] || Rank(s[|s| - 1]) <= Rank(c) then s + [c] else Insert(s[..|s| - 1], c) + [s[|s| - 1]]
  }

  lemma SortedAppend(s: seq<Capability>, c: Capability)
    requires Sorted(s) && forall x :: x in s ==> Rank(x) <= Rank(c)
    ensures Sorted(s + [c])
  {
  }

  lemma SortedLast(s: seq<Capability>)
    requires Sorted(s) && s != []
    ensures Sorted(s[..|s| - 1]) && s == s[..|s| - 1] + [s[|s| - 1]]
    ensures forall x :: x in s ==> Rank(x) <= Rank(s[|s| - 1])
  {
  }

  lemma {:induction false} SortedAscends(s: seq<Capability>)
    requires Sorted(s)
    ensures Ascending(s)
  {
    if s != [] {
      SortedLast(s);
      SortedAscends(s[..|s| - 1]);
    }
  }

  lemma {:induction false} InsertElements(s: seq<Capability>, c: Capability)
    ensures Elements(Insert(s, c)) == Elements(s) + {c}
  {
    ElementsAppend(s, c);
    if s != [] && Rank(s[|s| - 1]) > Rank(c) {
      var rest, last := s[..|s| - 1], s[|s| - 1];
      assert s == rest + [last];
      InsertElements(rest, c);
      ElementsAppend(rest, last);
      ElementsAppend(Insert(rest, c), last);
    }
  }

  lemma {:induction false} InsertSorts(s: seq<Capability>, c: Capability)
    requires Sorted(s)
    ensures Sorted(Insert(s, c))
  {
    if s != [] {
      SortedLast(s);
      if Rank(s[|s| - 1]) <= Rank(c) {
        SortedAppend(s, c);
      } else {
        InsertSorts(s[..|s| - 1], c);
        InsertBelow(s[..|s| - 1], c, s[|s| - 1]);
        SortedAppend(Insert(s[..|s| - 1], c), s[|s| - 1]);
      }
    }
  }

  lemma InsertBelow(s: seq<Capability>, c: Capability, top: Capability)
    requires Rank(c) <= Rank(top) && forall x :: x in s ==> Rank(x) <= Rank(top)
    ensures forall x :: x in Insert(s, c) ==> Rank(x) <= Rank(top)
  {
    InsertElements(s, c);
    forall x | x in Insert(s, c) ensures Rank(x) <= Rank(top) {
      assert x in Elements(s) + {c};
    }
  }

  lemma {:induction false} SortSorts(s: seq<Capability>)
    ensures Sorted(Sort(s)) && Elements(Sort(s)) == Elements(s)
  {
    if s != [] {
      var rest, last := s[..|s| - 1], s[|s| - 1];
      assert s == rest + [last];
      SortSorts(rest);
      InsertSorts(Sort(rest), last);
      InsertElements(Sort(rest), last);
      ElementsAppend(rest, last);
    }
  }

  /** Without the entries that equal their predecessor. */
  function Compacted(s: seq<Capability>): seq<Capability> {
    if s == [] then []
    else
      var rest, last := Compacted(s[..|s| - 1]), s[|s| - 1];
      if rest == [] || rest[|rest| - 1] != last then rest + [last] else rest
  }

  lemma StrictAppend(s: seq<Capability>, c: Capability)
    requires StrictlyIncreasing(s) && (s != [] ==> s[|s| - 1] != c && Rank(s[|s| - 1]) <= Rank(c))
    ensures StrictlyIncreasing(s + [c])
  {
  }

  lemma {:induction false} CompactedIs(s: seq<Capability>)
    requires Ascending(s)
    ensures StrictlyIncreasing(Compacted(s)) && Elements(Compacted(s)) == Elements(s)
  {
    if s != [] {
      var rest, last := s[..|s| - 1], s[|s| - 1];
      assert s == rest + [last];
      CompactedIs(rest);
      CompactStep(rest, Compacted(rest), last);
    }
  }

  lemma CompactStep(rest: seq<Capability>, kept: seq<Capability>, last: Capability)
    requires StrictlyIncreasing(kept) && Elements(kept) == Elements(rest)
    requires forall x :: x in rest ==> Rank(x) <= Rank(last)
    ensures var kept' := if kept == [] || kept[|kept| - 1] != last then kept + [last] else kept;
            StrictlyIncreasing(kept') && Elements(kept') == Elements(rest + [last])
  {
    ElementsAppend(rest, last);
    ElementsAppend(kept, last);
    if kept != [] {
      assert kept[|kept| - 1] in Elements(kept);
    }
    if kept == [] || kept[|kept| - 1] != last {
      StrictAppend(kept, last);
    }
  }

  /** The compaction in place: the result is written over the part already read. */
  method Compact(a: array<Capability>) returns (n: nat)
    modifies a
    ensures n <= a.Length && a[..n] == Compacted(old(a[..]))
  {
    n := 0;
    for i := 0 to a.Length
      invariant n <= i && a[..n] == Compacted(old(a[..i]))
      invariant forall k :: i <= k < a.Length ==> a[k] == old(a[k])
    {
      ghost var kept := a[..n];
      assert old(a[..i + 1])[..i] == old(a[..i]) && old(a[..i + 1])[i] == a[i];
      if n == 0 || a[n - 1] != a[i] {
        a[n] := a[i];
        n := n + 1;
        assert a[..n] == kept + [a[n - 1]];
      }
    }
    assert old(a[..a.Length]) == old(a[..]);
  }

  method SortCapabilities(capabilities: seq<Capability>) returns (result: seq<Capability>)
    ensures StrictlyIncreasing(result) && Elements(result) == Elements(capabilities)
  {
    var sorted := Sort(capabilities);
    SortSorts(capabilities);
    SortedAscends(sorted);
    CompactedIs(sorted);
    var a := new Capability[|sorted|](i requires 0 <= i < |sorted| => sorted[i]);
    assert a[..] == sorted;
    var n := Compact(a);
    result := a[..n];
  }

  // ---- operations ----

  datatype Media = Media(contentType: string, schema: Option<string>)

  datatype Response = Response(status: string, content: seq<Media>)

  datatype Operation = Operation(id: string, verb: string, path: string, responses: seq<Response>,
                                 request: Option<seq<Media>>)

  datatype Kind = Collection | ItemView

  /** `strconv.Atoi` as far as three-digit values go: an optional sign and digits. */
  function Atoi(s: string): Option<int> {
    if s != "" && (s[0] == '+' || s[0] == '-') then
      if |s| > 1 && forall c :: c in s[1..] ==> IsDigit(c) then
        var n: int := ParseDecimal(s[1..]);
        Some(if s[0] == '-' then -n else n)
      else None
    else if s != "" && forall c :: c in s ==> IsDigit(c) then Some(ParseDecimal(s))
    else None
  }

  predicate IsSuccess(status: string) {
    (status != "" && status[0] == '2') || (Atoi(status).Some? && 200 <= Atoi(status).value < 300)
  }

  predicate AreDigits(s: string) {
    forall c :: c in s ==> IsDigit(c)
  }

  /** Zeros, a 2, and two more digits. */
  ghost predicate SpellsTwoHundreds(s: string) {
    AreDigits(s) && |s| >= 3 && s[|s| - 3] == '2' && forall i :: 0 <= i < |s| - 3 ==> s[i] == '0'
  }

  lemma {:induction false} ZeroIs(s: string)
    requires AreDigits(s)
    ensures ParseDecimal(s) == 0 <==> forall i :: 0 <= i < |s| ==> s[i] == '0'
  {
    if s != "" {
      var front := s[..|s| - 1];
      assert s[|s| - 1] in s;
      ZeroIs(front);
      assert forall i :: 0 <= i < |front| ==> front[i] == s[i];
    }
  }

  lemma LastDigit(s: string)
    requires AreDigits(s) && s != ""
    ensures IsDigit(s[|s| - 1]) && AreDigits(s[..|s| - 1])
    ensures ParseDecimal(s) == ParseDecimal(s[..|s| - 1]) * 10 + DigitValue(s[|s| - 1])
  {
    assert s[|s| - 1] in s;
  }

  lemma TwoHundreds(s: string)
    requires AreDigits(s)
    ensures 200 <= ParseDecimal(s) < 300 <==> SpellsTwoHundreds(s)
  {
    if s == "" {
    } else if |s| == 1 {
      LastDigit(s);
      assert s[..0] == "";
    } else if |s| == 2 {
      LastDigit(s);
      LastDigit(s[..1]);
      assert s[..1][..0] == "";
    } else {
      ThreeDigits(s);
    }
  }

  lemma ThreeDigits(s: string)
    requires AreDigits(s) && |s| >= 3
    ensures 200 <= ParseDecimal(s) < 300 <==> SpellsTwoHundreds(s)
  {
    var tens, hundreds := s[..|s| - 1], s[..|s| - 2];
    LastDigit(s);
    LastDigit(tens);
    assert tens[..|tens| - 1] == hundreds;
    TwoMoreDigits(ParseDecimal(hundreds), DigitValue(tens[|tens| - 1]), DigitValue(s[|s| - 1]));
    IsTwo(hundreds);
    TwoDigitsLess(s, hundreds);
  }

  lemma TwoMoreDigits(h: nat, d: nat, e: nat)
    requires d < 10 && e < 10
    ensures 200 <= (h * 10 + d) * 10 + e < 300 <==> h == 2
  {
  }

  /** Zeros and a 2. */
  ghost predicate SpellsTwo(s: string) {
    s != "" && s[|s| - 1] == '2' && forall i :: 0 <= i < |s| - 1 ==> s[i] == '0'
  }

  lemma IsTwo(s: string)
    requires AreDigits(s) && s != ""
    ensures ParseDecimal(s) == 2 <==> SpellsTwo(s)
  {
    var front := s[..|s| - 1];
    LastDigit(s);
    ZeroIs(front);
    assert forall i :: 0 <= i < |front| ==> front[i] == s[i];
  }

  lemma TwoDigitsLess(s: string, hundreds: string)
    requires AreDigits(s) && |s| >= 3 && hundreds == s[..|s| - 2]
    ensures SpellsTwo(hundreds) <==> SpellsTwoHundreds(s)
  {
    assert forall i :: 0 <= i < |hundreds| ==> hundreds[i] == s[i];
  }

  /** The status starts with a 2, or it is a number from 200 to 299, perhaps with a plus sign. */
  lemma SuccessIs(status: string)
    ensures IsSuccess(status) <==>
              || (exists rest :: status == "2" + rest) || SpellsTwoHundreds(status)
              || (status != "" && status[0] == '+' && SpellsTwoHundreds(status[1..]))
  {
    if status != "" {
      assert status == [status[0]] + status[1..];
      assert status[0] in status;
      if status[0] == '2' {
        assert status == "2" + status[1..];
      }
      if AreDigits(status[1..]) {
        TwoHundreds(status[1..]);
      }
      if AreDigits(status) {
        TwoHundreds(status);
      }
    }
  }

  /** The first schema of a list of contents. */
  function FirstSchema(content: seq<Media>, i: nat): Option<string>
    requires i <= |content|
    decreases |content| - i
  {
    if i == |content| then None
    else if content[i].schema.Some? then content[i].schema
    else FirstSchema(content, i + 1)
  }

  /** The first schema among the successful responses from `i` on. */
  function ResponseSchema(responses: seq<Response>, i: nat): Option<string>
    requires i <= |responses|
    decreases |responses| - i
  {
    if i == |responses| then None
    else if IsSuccess(responses[i].status) && FirstSchema(responses[i].content, 0).Some? then
      FirstSchema(responses[i].content, 0)
    else ResponseSchema(responses, i + 1)
  }

  /** The schema an operation represents, "" for none, and whether it is the item of a list. */
  function Represented(schemas: map<string, Schema>, op: Operation): (string, bool) {
    match ResponseSchema(op.responses, 0)
    case Some(ref) =>
      var item := ListItem(schemas, ref, {});
      if item != "" then (item, true) else (ref, false)
    case None =>
      if op.request.Some? && FirstSchema(op.request.value, 0).Some? then (FirstSchema(op.request.value, 0).value, false)
      else ("", false)
  }

  /** Some successful response or the request body has a schema. */
  ghost predicate HasRepresentedSchema(op: Operation) {
    || (exists i, j :: 0 <= i < |op.responses| && IsSuccess(op.responses[i].status) &&
          0 <= j < |op.responses[i].content| && op.responses[i].content[j].schema.Some?)
    || (op.request.Some? && exists j :: 0 <= j < |op.request.value| && op.request.value[j].schema.Some?)
  }

  method OperationHasRepresentedSchema(op: Operation) returns (found: bool)
    ensures found <==> HasRepresentedSchema(op)
  {
    for i := 0 to |op.responses|
      invariant forall k, j :: 0 <= k < i && IsSuccess(op.responses[k].status) && 0 <= j < |op.responses[k].content| ==>
                  op.responses[k].content[j].schema.None?
    {
      if !IsSuccess(op.responses[i].status) {
        continue;
      }
      var content := op.responses[i].content;
      for j := 0 to |content|
        invariant forall l :: 0 <= l < j ==> content[l].schema.None?
      {
        if content[j].schema.Some? {
          return true;
        }
      }
    }
    if op.request.Some? {
      var content := op.request.value;
      for j := 0 to |content|
        invariant forall l :: 0 <= l < j ==> content[l].schema.None?
      {
        if content[j].schema.Some? {
          return true;
        }
      }
    }
    found := false;
  }

  // ---- which schema is represented ----

  /** `ref` is the first schema of the content, in media type `j`. */
  ghost predicate FirstIn(content: seq<Media>, j: int, ref: string) {
    0 <= j < |content| && content[j].schema == Some(ref) && forall l :: 0 <= l < j ==> content[l].schema.None?
  }

  ghost predicate IsFirstSchema(content: seq<Media>, ref: string) {
    exists j :: FirstIn(content, j, ref)
  }

  /** Response `i` is the first successful one with a schema, and `ref` is its first schema. */
  ghost predicate FirstResponse(responses: seq<Response>, i: int, ref: string) {
    && 0 <= i < |responses| && IsSuccess(responses[i].status) && IsFirstSchema(responses[i].content, ref)
    && forall k :: 0 <= k < i ==> !HasContentSchema(responses[k])
  }

  ghost predicate HasContentSchema(response: Response) {
    IsSuccess(response.status) && exists ref :: IsFirstSchema(response.content, ref)
  }

  /** The first successful response with a schema answers with `ref`. */
  ghost predicate RespondsWith(op: Operation, ref: string) {
    exists i :: FirstResponse(op.responses, i, ref)
  }

  /** The item of the list that `answer` is, or `answer` itself. */
  ghost predicate IsShownAs(schemas: map<string, Schema>, answer: string, ref: string, isList: bool) {
    if isList then IsListItem(schemas, answer, {}, ref)
    else ref == answer && forall x :: !IsListItem(schemas, answer, {}, x)
  }

  /** The schema an operation represents: that of its first successful response, else that of its request, else none. */
  ghost predicate IsRepresented(schemas: map<string, Schema>, op: Operation, ref: string, isList: bool) {
    || (exists answer :: RespondsWith(op, answer) && IsShownAs(schemas, answer, ref, isList))
    || ((forall answer :: !RespondsWith(op, answer)) && !isList &&
        if op.request.Some? && exists x :: IsFirstSchema(op.request.value, x) then IsFirstSchema(op.request.value, ref)
        else ref == "")
  }

  lemma {:induction false} FirstSchemaIs(content: seq<Media>, ref: string, i: nat)
    requires i <= |content| && forall l :: 0 <= l < i ==> content[l].schema.None?
    ensures IsFirstSchema(content, ref) <==> FirstSchema(content, i) == Some(ref)
    decreases |content| - i
  {
    if i < |content| {
      if content[i].schema.None? {
        FirstSchemaIs(content, ref, i + 1);
      } else if content[i].schema == Some(ref) {
        assert FirstIn(content, i, ref);
      }
    }
  }

  lemma HasContentSchemaIs(response: Response)
    ensures HasContentSchema(response) <==> IsSuccess(response.status) && FirstSchema(response.content, 0).Some?
  {
    if FirstSchema(response.content, 0).Some? {
      FirstSchemaIs(response.content, FirstSchema(response.content, 0).value, 0);
    }
    forall ref | IsFirstSchema(response.content, ref) ensures FirstSchema(response.content, 0).Some? {
      FirstSchemaIs(response.content, ref, 0);
    }
  }

  lemma {:induction false} FirstResponseIs(responses: seq<Response>, ref: string, i: nat)
    requires i <= |responses| && forall k :: 0 <= k < i ==> !HasContentSchema(responses[k])
    ensures (exists k :: FirstResponse(responses, k, ref)) <==> ResponseSchema(responses, i) == Some(ref)
    decreases |responses| - i
  {
    if i < |responses| {
      HasContentSchemaIs(responses[i]);
      FirstSchemaIs(responses[i].content, ref, 0);
      if !HasContentSchema(responses[i]) {
        FirstResponseIs(responses, ref, i + 1);
      } else {
        if ResponseSchema(responses, i) == Some(ref) {
          assert FirstResponse(responses, i, ref);
        }
        if k :| FirstResponse(responses, k, ref) {
          assert HasContentSchema(responses[k]);
          assert k == i;
        }
      }
    }
  }

  /** The code computes the represented schema. */
  lemma RepresentedIs(schemas: map<string, Schema>, op: Operation, ref: string, isList: bool)
    requires RefsNonempty(schemas)
    ensures IsRepresented(schemas, op, ref, isList) <==> Represented(schemas, op) == (ref, isList)
  {
    forall answer ensures RespondsWith(op, answer) <==> ResponseSchema(op.responses, 0) == Some(answer) {
      FirstResponseIs(op.responses, answer, 0);
    }
    match ResponseSchema(op.responses, 0)
    case Some(answer) =>
      ShownAs(schemas, answer, ref, isList);
      assert RespondsWith(op, answer);
    case None =>
      if op.request.Some? {
        forall x ensures IsFirstSchema(op.request.value, x) <==> FirstSchema(op.request.value, 0) == Some(x) {
          FirstSchemaIs(op.request.value, x, 0);
        }
        assert FirstSchema(op.request.value, 0).Some? ==>
            IsFirstSchema(op.request.value, FirstSchema(op.request.value, 0).value);
      }
  }

  lemma ShownAs(schemas: map<string, Schema>, answer: string, ref: string, isList: bool)
    requires RefsNonempty(schemas)
    ensures var item := ListItem(schemas, answer, {});
            IsShownAs(schemas, answer, ref, isList) <==>
              (ref, isList) == if item != "" then (item, true) else (answer, false)
  {
    var item := ListItem(schemas, answer, {});
    forall x ensures IsListItem(schemas, answer, {}, x) <==> x != "" && item == x {
      ListItemFinds(schemas, answer, {}, x);
    }
    assert item != "" ==> IsListItem(schemas, answer, {}, item);
  }

  method RepresentedSchema(schemas: map<string, Schema>, op: Operation) returns (ref: string, isList: bool)
    requires RefsNonempty(schemas)
    ensures (ref, isList) == Represented(schemas, op)
    ensures forall x, b :: IsRepresented(schemas, op, x, b) <==> ref == x && isList == b
  {
    forall x, b { RepresentedIs(schemas, op, x, b); }
    for i := 0 to |op.responses|
      invariant ResponseSchema(op.responses, 0) == ResponseSchema(op.responses, i)
    {
      if !IsSuccess(op.responses[i].status) {
        continue;
      }
      var content := op.responses[i].content;
      for j := 0 to |content|
        invariant FirstSchema(content, 0) == FirstSchema(content, j)
      {
        if content[j].schema.None? {
          continue;
        }
        var finder := new Finder(schemas);
        var item := finder.ListItemReference(content[j].schema.value);
        if item != "" {
          return item, true;
        }
        return content[j].schema.value, false;
      }
    }
    if op.request.Some? {
      var content := op.request.value;
      for j := 0 to |content|
        invariant FirstSchema(content, 0) == FirstSchema(content, j)
      {
        if content[j].schema.Some? {
          return content[j].schema.value, false;
        }
      }
    }
    return "", false;
  }

  /** All schema references in an operation are nonempty texts. */
  ghost predicate OperationRefsNonempty(op: Operation) {
    && (forall i, j ::
          0 <= i < |op.responses| && 0 <= j < |op.responses[i].content| ==>
            op.responses[i].content[j].schema != Some(""))
    && (op.request.Some? ==> forall j :: 0 <= j < |op.request.value| ==> op.request.value[j].schema != Some(""))
  }

  lemma {:induction false} FirstSchemaIff(content: seq<Media>, i: nat)
    requires i <= |content|
    ensures FirstSchema(content, i).Some? <==> exists j :: i <= j < |content| && content[j].schema.Some?
    ensures FirstSchema(content, i).Some? ==>
              exists j :: i <= j < |content| && content[j].schema == FirstSchema(content, i)
    decreases |content| - i
  {
    if i < |content| {
      FirstSchemaIff(content, i + 1);
    }
  }

  lemma {:induction false} ResponseSchemaIff(responses: seq<Response>, i: nat)
    requires i <= |responses|
    ensures ResponseSchema(responses, i).Some? <==>
            exists k, j :: i <= k < |responses| && IsSuccess(responses[k].status) &&
              0 <= j < |responses[k].content| && responses[k].content[j].schema.Some?
    ensures ResponseSchema(responses, i).Some? ==>
            exists k, j :: i <= k < |responses| && 0 <= j < |responses[k].content| &&
              responses[k].content[j].schema == ResponseSchema(responses, i)
    decreases |responses| - i
  {
    if i < |responses| {
      FirstSchemaIff(responses[i].content, 0);
      ResponseSchemaIff(responses, i + 1);
    }
  }

  /** The two represented-schema tests agree when no reference is empty. */
  lemma RepresentedAgrees(schemas: map<string, Schema>, op: Operation)
    requires OperationRefsNonempty(op)
    ensures Represented(schemas, op).0 != "" <==> HasRepresentedSchema(op)
  {
    ResponseSchemaIff(op.responses, 0);
    if op.request.Some? {
      FirstSchemaIff(op.request.value, 0);
    }
  }

  // ---- capabilities of an operation ----

  function ResourceKind(path: string, isList: bool): Kind {
    if isList then Collection
    else
      var parts := Split(path, '/');
      if '{' in parts[|parts| - 1] then ItemView else Collection
  }

  const STREAMS: set<string> := {"text/event-stream", "application/x-ndjson", "application/octet-stream"}

  predicate IsStream(op: Operation) {
    exists r :: r in op.responses && exists m :: m in r.content && m.contentType in STREAMS
  }

  function VerbCapability(verb: string, kind: Kind): Capability {
    if verb == "GET" then if kind == Collection then List else Get
    else if verb == "POST" then if kind == Collection then Create else Action
    else if verb == "PATCH" || verb == "PUT" then Update
    else if verb == "DELETE" then Delete
    else Action
  }

  function CapabilitySet(op: Operation, kind: Kind): set<Capability> {
    (if IsStream(op) then {Stream} else {}) + {if ':' in op.path then Action else VerbCapability(op.verb, kind)}
  }

  /** The operation gives the capability in a view of this kind. */
  ghost predicate Gives(op: Operation, kind: Kind, c: Capability) {
    match c
    case Stream => Streams(op)
    case List => ':' !in op.path && op.verb == "GET" && kind == Collection
    case Get => ':' !in op.path && op.verb == "GET" && kind == ItemView
    case Create => ':' !in op.path && op.verb == "POST" && kind == Collection
    case Update => ':' !in op.path && (op.verb == "PATCH" || op.verb == "PUT")
    case Delete => ':' !in op.path && op.verb == "DELETE"
    case Action =>
      || ':' in op.path || (op.verb == "POST" && kind == ItemView)
      || (op.verb != "GET" && op.verb != "POST" && op.verb != "PATCH" && op.verb != "PUT" && op.verb != "DELETE")
  }

  predicate IsStreamType(contentType: string) {
    || contentType == "text/event-stream" || contentType == "application/x-ndjson"
    || contentType == "application/octet-stream"
  }

  /** The last segment of the path holds a brace. */
  ghost predicate EndsInParameter(path: string) {
    exists i :: 0 <= i < |path| && path[i] == '{' && '/' !in path[i..]
  }

  ghost predicate Streams(op: Operation) {
    exists i, j :: 0 <= i < |op.responses| && 0 <= j < |op.responses[i].content| &&
                   IsStreamType(op.responses[i].content[j].contentType)
  }

  lemma StreamsIs(op: Operation)
    ensures IsStream(op) <==> Streams(op)
  {
    if Streams(op) {
      var i, j :| 0 <= i < |op.responses| && 0 <= j < |op.responses[i].content| &&
                  IsStreamType(op.responses[i].content[j].contentType);
      assert op.responses[i] in op.responses && op.responses[i].content[j] in op.responses[i].content;
    }
    if IsStream(op) {
      var r :| r in op.responses && exists m :: m in r.content && m.contentType in STREAMS;
      var m :| m in r.content && m.contentType in STREAMS;
      var i :| 0 <= i < |op.responses| && op.responses[i] == r;
      var j :| 0 <= j < |r.content| && r.content[j] == m;
      assert IsStreamType(op.responses[i].content[j].contentType);
    }
  }

  lemma CapabilitySetIs(op: Operation, kind: Kind, c: Capability)
    ensures c in CapabilitySet(op, kind) <==> Gives(op, kind, c)
  {
    StreamsIs(op);
  }

  lemma {:induction false} LastSegmentIs(path: string)
    ensures var parts := Split(path, '/'); '{' in parts[|parts| - 1] <==> EndsInParameter(path)
    ensures '/' in path <==> |Split(path, '/')| > 1
  {
    if path != "" {
      var rest := path[1..];
      LastSegmentIs(rest);
      EndsAfterFirst(path);
    }
  }

  lemma EndsAfterFirst(path: string)
    requires path != ""
    ensures EndsInParameter(path) <==> EndsInParameter(path[1..]) || (path[0] == '{' && '/' !in path)
  {
    if i :| 0 <= i < |path| && path[i] == '{' && '/' !in path[i..] {
      if i == 0 {
        assert path[0..] == path;
      } else {
        assert path[1..][i - 1] == '{' && path[1..][i - 1..] == path[i..];
      }
    }
    if i :| 0 <= i < |path[1..]| && path[1..][i] == '{' && '/' !in path[1..][i..] {
      assert path[i + 1] == '{' && path[i + 1..] == path[1..][i..];
    }
    if path[0] == '{' && '/' !in path {
      assert path[0..] == path;
    }
  }

  method OperationCapabilities(op: Operation, kind: Kind, stream: bool) returns (result: seq<Capability>)
    requires stream == IsStream(op)
    ensures StrictlyIncreasing(result) && Elements(result) == CapabilitySet(op, kind)
  {
    result := [];
    if stream {
      result := result + [Stream];
    }
    result := result + [if ':' in op.path then Action else VerbCapability(op.verb, kind)];
    result := SortCapabilities(result);
  }

  // ---- views ----

  datatype ViewKey = ViewKey(path: string, kind: Kind, ref: string)

  datatype View = View(key: ViewKey, operations: multiset<string>, capabilities: seq<Capability>)

  /** What grouping needs to know of an operation; the key is absent if it represents no schema. */
  datatype Entry = Entry(id: string, path: string, key: Option<ViewKey>, capabilities: set<Capability>)

  function EntryOf(schemas: map<string, Schema>, op: Operation): Entry {
    var (ref, isList) := Represented(schemas, op);
    var kind := ResourceKind(op.path, isList);
    Entry(op.id, op.path, if ref == "" then None else Some(ViewKey(op.path, kind, ref)), CapabilitySet(op, kind))
  }

  /** What grouping should know of an operation. */
  ghost predicate Describes(schemas: map<string, Schema>, op: Operation, e: Entry) {
    e.id == op.id && e.path == op.path &&
    exists ref, isList :: IsRepresented(schemas, op, ref, isList) && DescribesAs(op, ref, isList, e)
  }

  ghost predicate DescribesAs(op: Operation, ref: string, isList: bool, e: Entry) {
    var kind := if !isList && EndsInParameter(op.path) then ItemView else Collection;
    && e.key == (if ref == "" then None else Some(ViewKey(op.path, kind, ref)))
    && forall c :: c in e.capabilities <==> Gives(op, kind, c)
  }

  lemma EntryIs(schemas: map<string, Schema>, op: Operation)
    requires RefsNonempty(schemas)
    ensures Describes(schemas, op, EntryOf(schemas, op))
    ensures forall e :: Describes(schemas, op, e) ==> e == EntryOf(schemas, op)
  {
    var (ref, isList) := Represented(schemas, op);
    forall x, b { RepresentedIs(schemas, op, x, b); }
    LastSegmentIs(op.path);
    var kind := ResourceKind(op.path, isList);
    forall c { CapabilitySetIs(op, kind, c); }
    assert DescribesAs(op, ref, isList, EntryOf(schemas, op));
    forall e | Describes(schemas, op, e) ensures e == EntryOf(schemas, op) {
      assert e.capabilities == CapabilitySet(op, kind);
    }
  }

  function Entries(schemas: map<string, Schema>, ops: seq<Operation>): (es: seq<Entry>)
    ensures |es| == |ops| && forall i :: 0 <= i < |es| ==> es[i] == EntryOf(schemas, ops[i])
  {
    seq(|ops|, i requires 0 <= i < |ops| => EntryOf(schemas, ops[i]))
  }

  /** An operation that represents the schema of the view, at its path. */
  predicate Shows(e: Entry, key: ViewKey) {
    e.key == Some(key)
  }

  /** An operation that represents nothing, at the path of the view. */
  predicate Joins(e: Entry, key: ViewKey) {
    e.key.None? && e.path == key.path
  }

  function Shown(es: seq<Entry>, n: nat, key: ViewKey): (multiset<string>, set<Capability>)
    requires n <= |es|
  {
    if n == 0 then (multiset{}, {})
    else
      var (ids, caps) := Shown(es, n - 1, key);
      if Shows(es[n - 1], key) then (ids + multiset{es[n - 1].id}, caps + es[n - 1].capabilities) else (ids, caps)
  }

  function Joined(es: seq<Entry>, n: nat, key: ViewKey): (multiset<string>, set<Capability>)
    requires n <= |es|
  {
    if n == 0 then (multiset{}, {})
    else
      var (ids, caps) := Joined(es, n - 1, key);
      if Joins(es[n - 1], key) then (ids + multiset{es[n - 1].id}, caps + es[n - 1].capabilities) else (ids, caps)
  }

  ghost predicate KeysDistinct(views: seq<View>) {
    forall i, j :: 0 <= i < j < |views| ==> views[i].key != views[j].key
  }

  /** `v` lists the shown operations among the first `n`, and the joining ones among the first `m`. */
  ghost predicate Holds(es: seq<Entry>, n: nat, m: nat, v: View) {
    && n <= |es| && m <= |es|
    && v.operations == Shown(es, n, v.key).0 + Joined(es, m, v.key).0
    && Elements(v.capabilities) == Shown(es, n, v.key).1 + Joined(es, m, v.key).1
  }

  /** The operation with index `n` is added to the views it belongs to, and no others change. */
  lemma HoldsShown(es: seq<Entry>, n: nat, v: View, capabilities: seq<Capability>)
    requires n < |es| && Holds(es, n, 0, v)
    requires Elements(capabilities) == es[n].capabilities
    ensures !Shows(es[n], v.key) ==> Holds(es, n + 1, 0, v)
    ensures Shows(es[n], v.key) ==> Holds(es, n + 1, 0, WithOperation(v, es[n].id, v.capabilities + capabilities))
  {
    ElementsConcat(v.capabilities, capabilities);
  }

  lemma HoldsJoined(es: seq<Entry>, m: nat, v: View, capabilities: seq<Capability>)
    requires m < |es| && Holds(es, |es|, m, v)
    requires Elements(capabilities) == Elements(v.capabilities) + es[m].capabilities
    ensures !Joins(es[m], v.key) ==> Holds(es, |es|, m + 1, v)
    ensures Joins(es[m], v.key) ==> Holds(es, |es|, m + 1, WithOperation(v, es[m].id, capabilities))
  {
  }

  lemma ElementsConcat(a: seq<Capability>, b: seq<Capability>)
    ensures Elements(a + b) == Elements(a) + Elements(b)
  {
  }

  function WithOperation(v: View, id: string, capabilities: seq<Capability>): View {
    v.(operations := v.operations + multiset{id}, capabilities := capabilities)
  }

  ghost predicate Indexed(views: seq<View>, index: map<ViewKey, nat>) {
    && (forall k :: k in index ==> index[k] < |views| && views[index[k]].key == k)
    && (forall i :: 0 <= i < |views| ==> views[i].key in index && index[views[i].key] == i)
  }

  lemma IndexedNew(views: seq<View>, index: map<ViewKey, nat>, v: View)
    requires Indexed(views, index) && v.key !in index
    ensures Indexed(views + [v], index[v.key := |views|])
  {
  }

  lemma IndexedSame(views: seq<View>, index: map<ViewKey, nat>, i: nat, v: View)
    requires Indexed(views, index) && i < |views| && v.key == views[i].key
    ensures Indexed(views[i := v], index)
  {
  }

  ghost predicate AllHold(es: seq<Entry>, n: nat, m: nat, views: seq<View>) {
    forall i {:trigger Holds(es, n, m, views[i])} :: 0 <= i < |views| ==> Holds(es, n, m, views[i])
  }

  lemma HoldsNew(es: seq<Entry>, n: nat, views: seq<View>, v: View)
    requires n <= |es| && AllHold(es, n, 0, views) && v.operations == multiset{} && v.capabilities == []
    requires Shown(es, n, v.key) == (multiset{}, {})
    ensures AllHold(es, n, 0, views + [v])
  {
    var more := views + [v];
    forall i | 0 <= i < |more| ensures Holds(es, n, 0, more[i]) {
      if i < |views| {
        assert Holds(es, n, 0, views[i]);
      }
    }
  }

  /** The views before `i` have operation `m`, the others not yet. */
  ghost predicate HoldFrom(es: seq<Entry>, m: nat, i: nat, views: seq<View>) {
    && i <= |views|
    && (forall j {:trigger Holds(es, |es|, m + 1, views[j])} :: 0 <= j < i ==> Holds(es, |es|, m + 1, views[j]))
    && (forall j {:trigger Holds(es, |es|, m, views[j])} :: i <= j < |views| ==> Holds(es, |es|, m, views[j]))
  }

  lemma HoldOneMore(es: seq<Entry>, m: nat, i: nat, before: seq<View>, views: seq<View>)
    requires HoldFrom(es, m, i, before) && i < |before| == |views| && views == before[i := views[i]]
    requires Holds(es, |es|, m + 1, views[i])
    ensures HoldFrom(es, m, i + 1, views)
  {
    forall j | 0 <= j < i + 1 ensures Holds(es, |es|, m + 1, views[j]) {
      assert j < i ==> Holds(es, |es|, m + 1, before[j]);
    }
    forall j | i + 1 <= j < |views| ensures Holds(es, |es|, m, views[j]) {
      assert Holds(es, |es|, m, before[j]);
    }
  }

  /** The keys are those of the operations, among the first `n`, that represent a schema. */
  ghost predicate KeysOf(es: seq<Entry>, n: nat, keys: set<ViewKey>)
    requires n <= |es|
  {
    && (forall j :: 0 <= j < n && es[j].key.Some? ==> es[j].key.value in keys)
    && (forall k :: k in keys ==> exists j :: 0 <= j < n && Shows(es[j], k))
  }

  lemma KeysGrow(es: seq<Entry>, n: nat, keys: set<ViewKey>)
    requires n < |es| && KeysOf(es, n, keys)
    ensures es[n].key.None? ==> KeysOf(es, n + 1, keys)
    ensures es[n].key.Some? ==> KeysOf(es, n + 1, keys + {es[n].key.value})
  {
  }

  ghost predicate Computed(es: seq<Entry>, n: nat, capabilities: seq<seq<Capability>>) {
    n <= |es| && |capabilities| == n && forall j :: 0 <= j < n ==> Elements(capabilities[j]) == es[j].capabilities
  }

  lemma ComputedOne(es: seq<Entry>, n: nat, capabilities: seq<seq<Capability>>, own: seq<Capability>)
    requires Computed(es, n, capabilities) && n < |es| && Elements(own) == es[n].capabilities
    ensures Computed(es, n + 1, capabilities + [own])
  {
  }

  /** What the first pass computes about one operation. */
  method Describe(schemas: map<string, Schema>, op: Operation) returns (ref: string, kind: Kind, own: seq<Capability>)
    requires RefsNonempty(schemas)
    ensures EntryOf(schemas, op) ==
            Entry(op.id, op.path, if ref == "" then None else Some(ViewKey(op.path, kind, ref)), Elements(own))
  {
    var isList;
    ref, isList := RepresentedSchema(schemas, op);
    kind := ResourceKind(op.path, isList);
    own := OperationCapabilities(op, kind, IsStream(op));
  }

  ghost predicate AllSorted(views: seq<View>) {
    forall i :: 0 <= i < |views| ==> StrictlyIncreasing(views[i].capabilities)
  }

  ghost predicate SameKeys(a: seq<View>, b: seq<View>) {
    |a| == |b| && forall i :: 0 <= i < |a| ==> a[i].key == b[i].key
  }

  class Builder {
    const schemas: map<string, Schema>
    const ops: seq<Operation>
    ghost const es: seq<Entry>
    var views: seq<View>
    var index: map<ViewKey, nat>
    var capabilities: seq<seq<Capability>>  // of the operations, in their order

    /** After the first `n` operations of the first pass. */
    ghost predicate Grouped(n: nat)
      reads this
    {
      && RefsNonempty(schemas) && es == Entries(schemas, ops) && n <= |es|
      && Indexed(views, index) && AllHold(es, n, 0, views) && KeysOf(es, n, index.Keys)
      && Computed(es, n, capabilities)
    }

    constructor (schemas: map<string, Schema>, ops: seq<Operation>)
      requires RefsNonempty(schemas)
      ensures Grouped(0) && this.schemas == schemas && this.ops == ops
    {
      this.schemas, this.ops, views, index, capabilities := schemas, ops, [], map[], [];
      es := Entries(schemas, ops);
    }

    method AddOperation(n: nat)
      requires Grouped(n) && n < |ops|
      modifies this
      ensures Grouped(n + 1)
    {
      var ref, kind, own := Describe(schemas, ops[n]);
      KeysGrow(es, n, index.Keys);
      ComputedOne(es, n, capabilities, own);
      capabilities := capabilities + [own];
      if ref == "" {
        forall i | 0 <= i < |views| ensures Holds(es, n + 1, 0, views[i]) {
          HoldsShown(es, n, views[i], own);
        }
        return;
      }
      AddToView(n, ViewKey(ops[n].path, kind, ref), ops[n].id, own);
    }

    method AddToView(n: nat, key: ViewKey, id: string, own: seq<Capability>)
      requires n < |es| && Indexed(views, index) && AllHold(es, n, 0, views) && KeysOf(es, n, index.Keys)
      requires es[n].key == Some(key) && es[n].id == id && Elements(own) == es[n].capabilities
      modifies this`views, this`index
      ensures Indexed(views, index) && AllHold(es, n + 1, 0, views) && index.Keys == old(index.Keys) + {key}
    {
      EnsureView(n, key);
      ghost var before := views;
      var view := views[index[key]];
      views := views[index[key] := WithOperation(view, id, view.capabilities + own)];
      IndexedSame(before, index, index[key], WithOperation(view, id, view.capabilities + own));
      forall i | 0 <= i < |views| ensures Holds(es, n + 1, 0, views[i]) {
        assert Holds(es, n, 0, before[i]);
        HoldsShown(es, n, before[i], own);
        assert i != index[key] ==> before[i].key != key;
      }
    }

    method Group()
      requires Grouped(0)
      modifies this
      ensures Grouped(|es|)
    {
      for n := 0 to |ops|
        invariant Grouped(n)
      {
        AddOperation(n);
      }
    }

    method Join()
      requires es == Entries(schemas, ops) && Computed(es, |es|, capabilities)
      requires AllHold(es, |es|, 0, views) && AllSorted(views) && forall op :: op in ops ==> OperationRefsNonempty(op)
      modifies this`views
      ensures AllHold(es, |es|, |es|, views) && AllSorted(views) && SameKeys(old(views), views)
    {
      for m := 0 to |ops|
        invariant AllHold(es, |es|, m, views) && AllSorted(views) && SameKeys(old(views), views)
      {
        JoinViews(m);
      }
    }

    /** Finds the view of a key, or appends an empty one. */
    method EnsureView(n: nat, key: ViewKey)
      requires n <= |es| && Indexed(views, index) && AllHold(es, n, 0, views) && KeysOf(es, n, index.Keys)
      modifies this`views, this`index
      ensures Indexed(views, index) && AllHold(es, n, 0, views) && index.Keys == old(index.Keys) + {key}
    {
      if key !in index {
        var empty := View(key, multiset{}, []);
        NothingShown(es, n, key);
        IndexedNew(views, index, empty);
        HoldsNew(es, n, views, empty);
        index := index[key := |views|];
        views := views + [empty];
        assert index.Keys == old(index.Keys) + {key};
      }
    }

    /** The second pass: sorts the capabilities of every view. */
    method SortViews()
      requires AllHold(es, |es|, 0, views)
      modifies this`views
      ensures AllHold(es, |es|, 0, views) && AllSorted(views) && SameKeys(old(views), views)
    {
      for i := 0 to |views|
        invariant SameKeys(old(views), views) && AllHold(es, |es|, 0, views) && AllSorted(views[..i])
      {
        ghost var before := views;
        var sorted := SortCapabilities(views[i].capabilities);
        views := views[i := views[i].(capabilities := sorted)];
        assert Holds(es, |es|, 0, views[i]) by {
          assert Holds(es, |es|, 0, before[i]);
        }
        assert views[..i] == before[..i];
      }
      assert views[..|views|] == views;
    }

    /** The third pass, one operation: it joins the views at its path if it represents nothing itself. */
    method JoinViews(m: nat)
      requires es == Entries(schemas, ops) && m < |ops| && OperationRefsNonempty(ops[m])
      requires Computed(es, |es|, capabilities)
      requires AllHold(es, |es|, m, views) && AllSorted(views)
      modifies this`views
      ensures AllHold(es, |es|, m + 1, views) && AllSorted(views) && SameKeys(old(views), views)
    {
      RepresentedAgrees(schemas, ops[m]);
      var represented := OperationHasRepresentedSchema(ops[m]);
      if represented {
        forall i | 0 <= i < |views| ensures Holds(es, |es|, m + 1, views[i]) {
          NotJoining(es, m, views[i]);
        }
        return;
      }
      JoinEach(m);
    }

    method JoinEach(m: nat)
      requires es == Entries(schemas, ops) && m < |ops| && es[m].key.None? && Computed(es, |es|, capabilities)
      requires AllHold(es, |es|, m, views) && AllSorted(views)
      modifies this`views
      ensures AllHold(es, |es|, m + 1, views) && AllSorted(views) && SameKeys(old(views), views)
    {
      for i := 0 to |views|
        invariant SameKeys(old(views), views) && AllSorted(views)
        invariant HoldFrom(es, m, i, views)
      {
        ghost var before := views;
        assert Holds(es, |es|, m, before[i]);
        JoinView(m, i);
        HoldOneMore(es, m, i, before, views);
      }
    }

    method JoinView(m: nat, i: nat)
      requires es == Entries(schemas, ops) && m < |ops| && es[m].key.None? && Computed(es, |es|, capabilities)
      requires i < |views| && Holds(es, |es|, m, views[i]) && StrictlyIncreasing(views[i].capabilities)
      modifies this`views
      ensures |views| == |old(views)| && views == old(views)[i := views[i]] && views[i].key == old(views)[i].key
      ensures Holds(es, |es|, m + 1, views[i]) && StrictlyIncreasing(views[i].capabilities)
    {
      var view := views[i];
      if view.key.path != ops[m].path {
        NotJoining(es, m, view);
        return;
      }
      var merged := SortCapabilities(view.capabilities + capabilities[m]);
      ElementsConcat(view.capabilities, capabilities[m]);
      HoldsJoined(es, m, view, merged);
      views := views[i := WithOperation(view, ops[m].id, merged)];
    }
  }

  lemma NotJoining(es: seq<Entry>, m: nat, v: View)
    requires m < |es| && Holds(es, |es|, m, v) && !Joins(es[m], v.key)
    ensures Holds(es, |es|, m + 1, v)
  {
  }

  ghost function Keys(views: seq<View>): set<ViewKey> {
    set v | v in views :: v.key
  }

  /** A finished list of views for these operations. */
  ghost predicate Finished(es: seq<Entry>, views: seq<View>) {
    && KeysDistinct(views) && KeysOf(es, |es|, Keys(views))
    && AllSorted(views) && AllHold(es, |es|, |es|, views)
  }

  method BuildViews(schemas: map<string, Schema>, ops: seq<Operation>)
    returns (views: seq<View>, ghost es: seq<Entry>)
    requires RefsNonempty(schemas) && forall op :: op in ops ==> OperationRefsNonempty(op)
    ensures |es| == |ops| && forall i :: 0 <= i < |ops| ==> Describes(schemas, ops[i], es[i])
    ensures Finished(es, views)
  {
    es := Entries(schemas, ops);
    forall i | 0 <= i < |ops| ensures Describes(schemas, ops[i], es[i]) {
      EntryIs(schemas, ops[i]);
    }
    var builder := new Builder(schemas, ops);
    builder.Group();
    ghost var grouped := builder.views;
    IndexedKeys(builder.views, builder.index);
    builder.SortViews();
    builder.Join();
    views := builder.views;
    SameKeysMeans(grouped, views);
  }

  lemma IndexedKeys(views: seq<View>, index: map<ViewKey, nat>)
    requires Indexed(views, index)
    ensures KeysDistinct(views) && Keys(views) == index.Keys
  {
    forall k | k in index ensures k in Keys(views) {
      assert views[index[k]] in views;
    }
  }

  lemma SameKeysMeans(a: seq<View>, b: seq<View>)
    requires SameKeys(a, b) && KeysDistinct(a)
    ensures KeysDistinct(b) && Keys(a) == Keys(b)
  {
    forall k ensures k in Keys(a) <==> k in Keys(b) {
      if k in Keys(a) {
        var i :| 0 <= i < |a| && a[i].key == k;
        assert b[i] in b;
      }
      if k in Keys(b) {
        var i :| 0 <= i < |b| && b[i].key == k;
        assert a[i] in a;
      }
    }
  }

  /** A key that no operation shows has nothing to list. */
  lemma {:induction false} NothingShown(es: seq<Entry>, n: nat, key: ViewKey)
    requires n <= |es| && forall j :: 0 <= j < n ==> !Shows(es[j], key)
    ensures Shown(es, n, key) == (multiset{}, {})
  {
    if n > 0 {
      NothingShown(es, n - 1, key);
    }
  }

  // ---- what a view lists ----

  /** An operation belongs to a view: by its schema, or by its path if it represents none. */
  ghost predicate Attached(e: Entry, key: ViewKey) {
    Shows(e, key) || Joins(e, key)
  }

  lemma {:induction false} ShownAre(es: seq<Entry>, n: nat, key: ViewKey)
    requires n <= |es|
    ensures forall c :: c in Shown(es, n, key).1 <==>
              exists j :: 0 <= j < n && Shows(es[j], key) && c in es[j].capabilities
    ensures forall x :: x in Shown(es, n, key).0 <==> exists j :: 0 <= j < n && Shows(es[j], key) && es[j].id == x
  {
    if n > 0 {
      ShownAre(es, n - 1, key);
    }
  }

  lemma {:induction false} JoinedAre(es: seq<Entry>, n: nat, key: ViewKey)
    requires n <= |es|
    ensures forall c :: c in Joined(es, n, key).1 <==>
              exists j :: 0 <= j < n && Joins(es[j], key) && c in es[j].capabilities
    ensures forall x :: x in Joined(es, n, key).0 <==> exists j :: 0 <= j < n && Joins(es[j], key) && es[j].id == x
  {
    if n > 0 {
      JoinedAre(es, n - 1, key);
    }
  }

  /** The capabilities of a finished view are strictly increasing and the union of those of the operations it lists. */
  lemma ViewIsUnion(es: seq<Entry>, views: seq<View>, v: View)
    requires Finished(es, views) && v in views
    ensures StrictlyIncreasing(v.capabilities)
    ensures forall x :: x in v.operations <==> exists e :: e in es && Attached(e, v.key) && e.id == x
    ensures forall c :: c in v.capabilities <==> exists e :: e in es && Attached(e, v.key) && c in e.capabilities
  {
    var i :| 0 <= i < |views| && views[i] == v;
    assert Holds(es, |es|, |es|, views[i]);
    ShownAre(es, |es|, v.key);
    JoinedAre(es, |es|, v.key);
    forall c ensures c in v.capabilities <==> exists e :: e in es && Attached(e, v.key) && c in e.capabilities {
      assert c in v.capabilities <==> c in Elements(v.capabilities);
    }
  }

  lemma {:induction false} AttachedOnce(es: seq<Entry>, n: nat, key: ViewKey, x: string)
    requires n <= |es| && forall i, j :: 0 <= i < j < |es| ==> es[i].id != es[j].id
    ensures (Shown(es, n, key).0 + Joined(es, n, key).0)[x] <= 1
    ensures (forall j :: 0 <= j < n ==> es[j].id != x) ==> (Shown(es, n, key).0 + Joined(es, n, key).0)[x] == 0
  {
    if n > 0 {
      AttachedOnce(es, n - 1, key, x);
    }
  }

  /** An operation at the path of some view is attached to a view, and with distinct names no view lists one twice. */
  lemma PathWithViewAttaches(es: seq<Entry>, views: seq<View>, e: Entry, v: View)
    requires Finished(es, views) && e in es && v in views && v.key.path == e.path
    ensures exists w :: w in views && Attached(e, w.key)
    ensures (forall i, j :: 0 <= i < j < |es| ==> es[i].id != es[j].id) ==> v.operations[e.id] <= 1
  {
    if e.key.None? {
      assert Attached(e, v.key);
    } else {
      var j :| 0 <= j < |es| && es[j] == e;
      assert e.key.value in Keys(views);
      var w :| w in views && w.key == e.key.value;
      assert Attached(e, w.key);
    }
    if forall i, j :: 0 <= i < j < |es| ==> es[i].id != es[j].id {
      AttachedOnce(es, |es|, v.key, e.id);
      var i :| 0 <= i < |views| && views[i] == v;
      assert Holds(es, |es|, |es|, views[i]);
    }
  }
}
