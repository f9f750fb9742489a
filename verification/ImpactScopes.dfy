/** The indentation-relative reader of the impact scope file. */
module ImpactScopes {
  import opened Pointers
  import opened Globs

  // ---- Python's string helpers ----

  predicate IsSpace(c: char) {
    var n := c as int;
    || 9 <= n <= 13 || 28 <= n <= 32 || n == 0x85 || n == 0xA0 || n == 0x1680 || 0x2000 <= n <= 0x200A
    || n == 0x2028 || n == 0x2029 || n == 0x202F || n == 0x205F || n == 0x3000
  }

  function DropLeading(s: string, drop: char -> bool): string {
    if s != "" && drop(s[0]) then DropLeading(s[1..], drop) else s
  }

  function DropTrailing(s: string, drop: char -> bool): string {
    if s != "" && drop(s[|s| - 1]) then DropTrailing(s[..|s| - 1], drop) else s
  }

  function StripIf(s: string, drop: char -> bool): string {
    DropTrailing(DropLeading(s, drop), drop)
  }

  function Strip(s: string): string {
    StripIf(s, IsSpace)
  }

  function Is(c: char): char -> bool {
    x => x == c
  }

  function StripChar(s: string, c: char): string {
    StripIf(s, Is(c))
  }

  /** `startswith("- ")` */
  predicate StartsItem(s: string) {
    |s| > 1 && s[0] == '-' && s[1] == ' '
  }

  /** Number of leading spaces. */
  function Indent(raw: string): nat {
    if raw != "" && raw[0] == ' ' then 1 + Indent(raw[1..]) else 0
  }

  // ---- lines ----

  /** The characters at which `splitlines` ends a line. */
  predicate IsBreak(c: char) {
    var n := c as int;
    10 <= n <= 13 || 28 <= n <= 30 || n == 0x85 || n == 0x2028 || n == 0x2029
  }

  predicate IsLine(s: string) {
    forall c :: c in s ==> !IsBreak(c)
  }

  /** `str.splitlines`: a carriage return and a line feed end one line together. */
  function SplitLines(text: string): (lines: seq<string>)
    ensures forall l :: l in lines ==> IsLine(l)
    decreases |text|
  {
    if text == "" then []
    else
      var n := BreakAt(text);
      if n == |text| then [text] else [text[..n]] + SplitLines(text[n + BreakWidth(text, n)..])
  }

  function BreakAt(text: string): (n: nat)
    ensures n <= |text| && IsLine(text[..n]) && (n < |text| ==> IsBreak(text[n]))
  {
    if text == "" || IsBreak(text[0]) then 0
    else
      var n := BreakAt(text[1..]);
      assert text[..n + 1] == [text[0]] + text[1..][..n];
      n + 1
  }

  function BreakWidth(text: string, n: nat): (w: nat)
    requires n < |text|
    ensures 1 <= w <= |text| - n
  {
    if text[n] == '\r' && n + 1 < |text| && text[n + 1] == '\n' then 2 else 1
  }

  /** The lines as a text. */
  function Unlines(lines: seq<string>): string {
    if lines == [] then "" else lines[0] + "\n" + Unlines(lines[1..])
  }

  lemma {:induction false} BreakAfter(line: string, rest: string)
    requires IsLine(line)
    ensures BreakAt(line + "\n" + rest) == |line|
  {
    if line != "" {
      BreakAfter(line[1..], rest);
      assert (line + "\n" + rest)[1..] == line[1..] + "\n" + rest;
    }
  }

  lemma {:induction false} SplitUnlines(lines: seq<string>)
    requires forall l :: l in lines ==> IsLine(l)
    ensures SplitLines(Unlines(lines)) == lines
    decreases |lines|
  {
    if lines != [] {
      var line, rest := lines[0], Unlines(lines[1..]);
      var text := line + "\n" + rest;
      assert line in lines;
      SplitUnlines(lines[1..]);
      BreakAfter(line, rest);
      assert text[|line|] == '\n' && text[..|line|] == line && text[|line| + 1..] == rest;
    }
  }

  // ---- one line ----

  datatype Line =
    | Skip
    | Item(text: string)
    | Entry(indent: nat, key: string, isKey: bool)

  function Unquoted(text: string): string {
    StripChar(StripChar(Strip(text), '"'), '\'')
  }

  function EntryOf(indent: nat, stripped: string): Line {
    var isKey := stripped != "" && stripped[|stripped| - 1] == ':';
    Entry(indent, if isKey then stripped[..|stripped| - 1] else stripped, isKey)
  }

  function Classify(raw: string): Line {
    var stripped := Strip(raw);
    var leading := DropLeading(raw, IsSpace);
    if stripped == "" || (leading != "" && leading[0] == '#') then Skip
    else if StartsItem(stripped) then Item(Unquoted(stripped[2..]))
    else EntryOf(Indent(raw), stripped)
  }

  // ---- the reader ----

  datatype Section = Nowhere | Include | Exclude | Barrier

  datatype State = State(
    scopes: map<string, Scope>, barriers: seq<string>,
    filesIndent: Option<nat>, barriersIndent: Option<nat>, current: Option<string>, section: Section)

  const START: State := State(map[], [], None, None, None, Nowhere)

  /** The scope being filled exists. */
  ghost predicate Valid(s: State) {
    s.current.Some? ==> s.current.value in s.scopes
  }

  function AddItem(s: State, item: string): (t: State)
    requires Valid(s)
    ensures Valid(t)
  {
    match s.section
    case Nowhere => s
    case Barrier => s.(barriers := s.barriers + [item])
    case Include =>
      if s.current.None? then s
      else
        var scope := s.scopes[s.current.value];
        s.(scopes := s.scopes[s.current.value := scope.(included := scope.included + [item])])
    case Exclude =>
      if s.current.None? then s
      else
        var scope := s.scopes[s.current.value];
        s.(scopes := s.scopes[s.current.value := scope.(excluded := scope.excluded + [item])])
  }

  function Leave(s: State, filesIndent: Option<nat>, barriersIndent: Option<nat>): State {
    s.(filesIndent := filesIndent, barriersIndent := barriersIndent, current := None, section := Nowhere)
  }

  function OpenScope(s: State, name: string): State {
    var scopes := if name in s.scopes then s.scopes else s.scopes[name := Scope([], [])];
    s.(scopes := scopes, current := Some(name), section := Nowhere)
  }

  function InBarriers(s: State, indent: nat, key: string, isKey: bool): State {
    if s.barriersIndent.None? then s
    else if indent <= s.barriersIndent.value then s.(barriersIndent := None, section := Nowhere)
    else if indent == s.barriersIndent.value + 2 && isKey && key == "include" then s.(section := Barrier)
    else s
  }

  function AddEntry(s: State, indent: nat, key: string, isKey: bool): (t: State)
    requires Valid(s)
    ensures Valid(t)
  {
    if indent == 0 then Leave(s, None, None)
    else if isKey && key == "files" then Leave(s, Some(indent), None)
    else if isKey && key == "barrier_files" then Leave(s, None, Some(indent))
    else if s.filesIndent.Some? then
      if indent <= s.filesIndent.value then InBarriers(Leave(s, None, s.barriersIndent), indent, key, isKey)
      else if indent == s.filesIndent.value + 2 && isKey && key != "include" && key != "exclude" then OpenScope(s, key)
      else if s.current.Some? && indent == s.filesIndent.value + 4 && (key == "include" || key == "exclude") then
        s.(section := if key == "include" then Include else Exclude)
      else s
    else InBarriers(s, indent, key, isKey)
  }

  function Read(s: State, line: Line): (t: State)
    requires Valid(s)
    ensures Valid(t)
  {
    match line
    case Skip => s
    case Item(text) => AddItem(s, text)
    case Entry(indent, key, isKey) => AddEntry(s, indent, key, isKey)
  }

  function ReadAll(s: State, lines: seq<string>): (t: State)
    requires Valid(s)
    ensures Valid(t)
    decreases |lines|
  {
    if lines == [] then s else ReadAll(Read(s, Classify(lines[0])), lines[1..])
  }

  function Parse(lines: seq<string>): (map<string, Scope>, seq<string>) {
    var t := ReadAll(START, lines);
    (t.scopes, t.barriers)
  }

  method ParseImpactScopes(text: string) returns (scopes: map<string, Scope>, barriers: seq<string>)
    ensures (scopes, barriers) == Parse(SplitLines(text))
  {
    var lines := SplitLines(text);
    scopes, barriers := map[], [];
    var filesIndent: Option<nat>, barriersIndent: Option<nat> := None, None;
    var current: Option<string> := None;
    var section := Nowhere;
    assert lines[0..] == lines;
    for i := 0 to |lines|
      invariant Valid(State(scopes, barriers, filesIndent, barriersIndent, current, section))
      invariant ReadAll(START, lines) ==
                ReadAll(State(scopes, barriers, filesIndent, barriersIndent, current, section), lines[i..])
    {
      ghost var before := State(scopes, barriers, filesIndent, barriersIndent, current, section);
      var raw := lines[i];
      ReadAllOne(before, lines, i);
      var stripped, leading := Strip(raw), DropLeading(raw, IsSpace);
      if stripped == "" || (leading != "" && leading[0] == '#') {
        continue;
      }
      var indent := Indent(raw);
      if StartsItem(stripped) {
        var item := Unquoted(stripped[2..]);
        if section == Barrier {
          barriers := barriers + [item];
        } else if section != Nowhere && current.Some? {
          var scope := scopes[current.value];
          scopes := scopes[current.value := if section == Include then scope.(included := scope.included + [item])
                                            else scope.(excluded := scope.excluded + [item])];
        }
        continue;
      }
      var isKey := stripped[|stripped| - 1] == ':';
      var key := if isKey then stripped[..|stripped| - 1] else stripped;
      scopes, filesIndent, barriersIndent, current, section :=
        ReadKeyLine(scopes, filesIndent, barriersIndent, current, section, indent, key, isKey, barriers);
    }
  }

  /** The part of the loop for lines that are no items. */
  method ReadKeyLine(scopes0: map<string, Scope>, files0: Option<nat>, barriers0: Option<nat>, current0: Option<string>,
                     section0: Section, indent: nat, key: string, isKey: bool, ghost barriers: seq<string>)
    returns (scopes: map<string, Scope>, filesIndent: Option<nat>, barriersIndent: Option<nat>, current: Option<string>,
             section: Section)
    requires Valid(State(scopes0, barriers, files0, barriers0, current0, section0))
    ensures State(scopes, barriers, filesIndent, barriersIndent, current, section) ==
            AddEntry(State(scopes0, barriers, files0, barriers0, current0, section0), indent, key, isKey)
  {
    scopes, filesIndent, barriersIndent, current, section := scopes0, files0, barriers0, current0, section0;
    if indent == 0 {
      filesIndent, barriersIndent, current, section := None, None, None, Nowhere;
      return;
    }
    if isKey && key == "files" {
      filesIndent, barriersIndent, current, section := Some(indent), None, None, Nowhere;
      return;
    }
    if isKey && key == "barrier_files" {
      filesIndent, barriersIndent, current, section := None, Some(indent), None, Nowhere;
      return;
    }
    if filesIndent.Some? {
      if indent <= filesIndent.value {
        filesIndent, current, section := None, None, Nowhere;
      } else if indent == filesIndent.value + 2 && isKey && key != "include" && key != "exclude" {
        if key !in scopes {
          scopes := scopes[key := Scope([], [])];
        }
        current, section := Some(key), Nowhere;
        return;
      } else if current.Some? && indent == filesIndent.value + 4 && (key == "include" || key == "exclude") {
        section := if key == "include" then Include else Exclude;
        return;
      } else {
        return;
      }
    }
    if barriersIndent.Some? {
      if indent <= barriersIndent.value {
        barriersIndent, section := None, Nowhere;
      } else if indent == barriersIndent.value + 2 && isKey && key == "include" {
        section := Barrier;
      }
    }
  }

  lemma ReadAllOne(s: State, lines: seq<string>, i: nat)
    requires Valid(s) && i < |lines|
    ensures ReadAll(s, lines[i..]) == ReadAll(Read(s, Classify(lines[i])), lines[i + 1..])
  {
    assert lines[i..][1..] == lines[i + 1..];
  }

  // ---- comments and blank lines ----

  /** Nothing but spaces, or a `#` after nothing but spaces. */
  ghost predicate IsIgnored(raw: string) {
    IsBlank(raw) || exists k :: HashAt(raw, k)
  }

  ghost predicate IsBlank(raw: string) {
    forall c :: c in raw ==> IsSpace(c)
  }

  ghost predicate HashAt(raw: string, k: int) {
    0 <= k < |raw| && raw[k] == '#' && forall i :: 0 <= i < k ==> IsSpace(raw[i])
  }

  /** The lines that are not ignored. */
  ghost function Relevant(lines: seq<string>): seq<string> {
    if lines == [] then [] else (if IsIgnored(lines[0]) then [] else [lines[0]]) + Relevant(lines[1..])
  }

  lemma {:induction false} LeadingIs(s: string)
    ensures var rest := DropLeading(s, IsSpace); rest != "" && rest[0] == '#' <==> exists k :: HashAt(s, k)
    ensures IsBlank(DropLeading(s, IsSpace)) <==> IsBlank(s)
  {
    if s != "" && IsSpace(s[0]) {
      LeadingIs(s[1..]);
      HashBehindSpace(s);
      assert s == [s[0]] + s[1..];
    } else if s != "" && s[0] == '#' {
      assert HashAt(s, 0);
    }
  }

  lemma HashBehindSpace(s: string)
    requires s != "" && IsSpace(s[0])
    ensures (exists k :: HashAt(s, k)) <==> exists k :: HashAt(s[1..], k)
  {
    var tail := s[1..];
    if k :| HashAt(tail, k) {
      assert HashAt(s, k + 1) by {
        assert forall i :: 0 < i < k + 1 ==> s[i] == tail[i - 1];
      }
    }
    if k :| HashAt(s, k) {
      assert HashAt(tail, k - 1) by {
        assert forall i :: 0 <= i < k - 1 ==> tail[i] == s[i + 1];
      }
    }
  }

  lemma {:induction false} TrailingIs(s: string)
    ensures DropTrailing(s, IsSpace) == "" <==> IsBlank(s)
  {
    if s != "" {
      var last := s[|s| - 1];
      assert s == s[..|s| - 1] + [last];
      if IsSpace(last) {
        TrailingIs(s[..|s| - 1]);
      }
    }
  }

  lemma SkippedAreIgnored(raw: string)
    ensures Classify(raw).Skip? <==> IsIgnored(raw)
  {
    LeadingIs(raw);
    TrailingIs(DropLeading(raw, IsSpace));
  }

  lemma {:induction false} RelevantDecide(s: State, lines: seq<string>)
    requires Valid(s)
    ensures ReadAll(s, lines) == ReadAll(s, Relevant(lines))
    decreases |lines|
  {
    if lines != [] {
      SkippedAreIgnored(lines[0]);
      RelevantDecide(Read(s, Classify(lines[0])), lines[1..]);
      if !IsIgnored(lines[0]) {
        assert ([lines[0]] + Relevant(lines[1..]))[1..] == Relevant(lines[1..]);
      } else {
        assert [] + Relevant(lines[1..]) == Relevant(lines[1..]);
      }
    }
  }

  /** Two texts that differ only in comment lines and blank lines, anywhere, give the same scopes and barriers. */
  lemma CommentsChangeNothing(text: string, other: string)
    requires Relevant(SplitLines(text)) == Relevant(SplitLines(other))
    ensures Parse(SplitLines(text)) == Parse(SplitLines(other))
  {
    RelevantDecide(START, SplitLines(text));
    RelevantDecide(START, SplitLines(other));
  }

  lemma {:induction false} RelevantConcat(a: seq<string>, b: seq<string>)
    ensures Relevant(a + b) == Relevant(a) + Relevant(b)
    decreases |a|
  {
    if a == [] {
      assert a + b == b;
    } else {
      assert (a + b)[1..] == a[1..] + b && (a + b)[0] == a[0];
      RelevantConcat(a[1..], b);
      LinesConcat(if IsIgnored(a[0]) then [] else [a[0]], Relevant(a[1..]), Relevant(b));
    }
  }

  lemma LinesConcat(a: seq<string>, b: seq<string>, c: seq<string>)
    ensures a + (b + c) == a + b + c
  {
  }

  lemma RelevantInserted(before: seq<string>, ignored: seq<string>, after: seq<string>)
    requires forall l :: l in ignored ==> IsIgnored(l)
    ensures Relevant(before + ignored + after) == Relevant(before + after)
  {
    RelevantConcat(before + ignored, after);
    RelevantConcat(before, ignored);
    RelevantConcat(before, after);
    NoneRelevant(ignored);
  }

  /** Inserting ignored lines between any two lines of a file changes nothing. */
  lemma InsertingIgnoredLines(before: seq<string>, ignored: seq<string>, after: seq<string>)
    requires forall l :: l in before + ignored + after ==> IsLine(l)
    requires forall l :: l in ignored ==> IsIgnored(l)
    ensures Parse(SplitLines(Unlines(before + ignored + after))) == Parse(SplitLines(Unlines(before + after)))
  {
    RelevantInserted(before, ignored, after);
    SameRelevant(before + ignored + after, before + after);
  }

  lemma SameRelevant(lines: seq<string>, fewer: seq<string>)
    requires (forall l :: l in lines ==> IsLine(l)) && forall l :: l in fewer ==> l in lines
    requires Relevant(lines) == Relevant(fewer)
    ensures Parse(SplitLines(Unlines(lines))) == Parse(SplitLines(Unlines(fewer)))
  {
    SplitUnlines(lines);
    SplitUnlines(fewer);
    CommentsChangeNothing(Unlines(lines), Unlines(fewer));
  }

  lemma {:induction false} NoneRelevant(ignored: seq<string>)
    requires forall l :: l in ignored ==> IsIgnored(l)
    ensures Relevant(ignored) == []
  {
    if ignored != [] {
      NoneRelevant(ignored[1..]);
    }
  }

  // ---- blocks of other top-level keys ----

  /** A line without indent that is no comment and no item. */
  ghost predicate IsTopLevel(raw: string) {
    raw != "" && !IsSpace(raw[0]) && raw[0] != '#' && !StartsItem(raw)
  }

  /** The line is `files:` or `barrier_files:`, apart from blanks around it. */
  ghost predicate IsAnchor(raw: string) {
    exists a, b :: IsBlank(a) && IsBlank(b) && (raw == a + "files:" + b || raw == a + "barrier_files:" + b)
  }

  lemma {:induction false} LeadingParts(s: string) returns (a: string)
    ensures IsBlank(a) && s == a + DropLeading(s, IsSpace)
  {
    a := "";
    if s != "" && IsSpace(s[0]) {
      a := LeadingParts(s[1..]);
      a := [s[0]] + a;
      assert s == [s[0]] + s[1..];
    }
  }

  lemma {:induction false} TrailingParts(s: string) returns (b: string)
    ensures IsBlank(b) && s == DropTrailing(s, IsSpace) + b
  {
    b := "";
    if s != "" && IsSpace(s[|s| - 1]) {
      var front := s[..|s| - 1];
      b := TrailingParts(front);
      b := b + [s[|s| - 1]];
      assert s == front + [s[|s| - 1]];
    }
  }

  lemma StripParts(raw: string) returns (a: string, b: string)
    ensures IsBlank(a) && IsBlank(b) && raw == a + Strip(raw) + b
  {
    a := LeadingParts(raw);
    b := TrailingParts(DropLeading(raw, IsSpace));
    PartsConcat(a, Strip(raw), b);
  }

  lemma PartsConcat(a: string, b: string, c: string)
    ensures a + (b + c) == a + b + c
  {
  }

  /** No block is open. */
  ghost predicate IsIdle(s: State) {
    s.filesIndent.None? && s.barriersIndent.None? && s.current.None? && s.section == Nowhere
  }

  lemma IdleStays(s: State, raw: string)
    requires Valid(s) && IsIdle(s) && !IsAnchor(raw)
    ensures Read(s, Classify(raw)) == s
  {
    var a, b := StripParts(raw);
    var stripped := Strip(raw);
    if stripped != "" && stripped[|stripped| - 1] == ':' {
      var key := stripped[..|stripped| - 1];
      assert stripped == key + ":";
      assert key != "files" && key != "barrier_files" by {
        assert "files" + ":" == "files:" && "barrier_files" + ":" == "barrier_files:";
      }
    }
  }

  lemma {:induction false} IdleThroughout(s: State, lines: seq<string>)
    requires Valid(s) && IsIdle(s) && forall l :: l in lines ==> !IsAnchor(l)
    ensures ReadAll(s, lines) == s
    decreases |lines|
  {
    if lines != [] {
      IdleStays(s, lines[0]);
      IdleThroughout(s, lines[1..]);
    }
  }

  lemma TopLevelLeaves(s: State, raw: string)
    requires Valid(s) && IsTopLevel(raw)
    ensures Read(s, Classify(raw)) == Leave(s, None, None)
  {
    var b := TrailingParts(raw);
    var stripped := DropTrailing(raw, IsSpace);
    assert stripped != "" by {
      assert raw[0] in raw;
    }
    assert stripped[0] == raw[0] && (|stripped| > 1 ==> stripped[1] == raw[1]);
  }

  lemma BlockIsSkipped(s: State, head: string, body: seq<string>, after: seq<string>)
    requires Valid(s) && IsTopLevel(head) && forall l :: l in body ==> !IsAnchor(l)
    ensures ReadAll(s, [head] + body + after) == ReadAll(Leave(s, None, None), after)
  {
    assert [head] + body + after == [head] + (body + after);
    assert ([head] + (body + after))[1..] == body + after;
    TopLevelLeaves(s, head);
    ReadAllAppend(Leave(s, None, None), body, after);
    IdleThroughout(Leave(s, None, None), body);
  }

  /**
   * A block of another top-level key, which may hold anything but the two anchors, is skipped: the file reads the
   * same without it, if the block is at the end or another top-level line follows.
   */
  lemma OtherBlocksAreSkipped(before: seq<string>, head: string, body: seq<string>, after: seq<string>)
    requires IsTopLevel(head) && forall l :: l in body ==> !IsAnchor(l)
    requires after == [] || IsTopLevel(after[0])
    ensures Parse(before + ([head] + body + after)) == Parse(before + after)
  {
    var s := ReadAll(START, before);
    ReadAllAppend(START, before, [head] + body + after);
    ReadAllAppend(START, before, after);
    BlockIsSkipped(s, head, body, after);
    if after != [] {
      TopLevelLeaves(s, after[0]);
      TopLevelLeaves(Leave(s, None, None), after[0]);
    }
  }

  // ---- reindenting ----

  function Spaces(n: nat): (s: string)
    ensures |s| == n && forall c :: c in s ==> c == ' '
  {
    if n == 0 then "" else [' '] + Spaces(n - 1)
  }

  function Shift(k: nat, raw: string): string {
    if Indent(raw) > 0 then Spaces(k) + raw else raw
  }

  lemma {:induction false} ShiftedLine(k: nat, raw: string)
    ensures Indent(Spaces(k) + raw) == k + Indent(raw)
    ensures DropLeading(Spaces(k) + raw, IsSpace) == DropLeading(raw, IsSpace)
  {
    if k == 0 {
      assert Spaces(0) + raw == raw;
    } else {
      ShiftedLine(k - 1, raw);
      assert (Spaces(k) + raw)[1..] == Spaces(k - 1) + raw;
    }
  }

  function ShiftIndent(k: nat, indent: Option<nat>): Option<nat> {
    if indent.Some? then Some(indent.value + k) else None
  }

  /** The same state, in a file indented by `k` more. */
  function ShiftState(k: nat, s: State): State {
    s.(filesIndent := ShiftIndent(k, s.filesIndent), barriersIndent := ShiftIndent(k, s.barriersIndent))
  }

  function ShiftLine(k: nat, line: Line): Line {
    if line.Entry? && line.indent > 0 then line.(indent := line.indent + k) else line
  }

  lemma ClassifyShift(k: nat, raw: string)
    ensures Classify(Shift(k, raw)) == ShiftLine(k, Classify(raw))
  {
    ShiftedLine(k, raw);
  }

  lemma ShiftedStep(k: nat, s: State, line: Line)
    requires Valid(s)
    ensures Read(ShiftState(k, s), ShiftLine(k, line)) == ShiftState(k, Read(s, line))
  {
    match line
    case Skip =>
    case Item(text) =>
    case Entry(indent, key, isKey) =>
      if indent > 0 {
        ShiftedEntry(k, s, indent, key, isKey);
      }
  }

  lemma ShiftedEntry(k: nat, s: State, indent: nat, key: string, isKey: bool)
    requires Valid(s) && indent > 0
    ensures AddEntry(ShiftState(k, s), indent + k, key, isKey) == ShiftState(k, AddEntry(s, indent, key, isKey))
  {
    if isKey && (key == "files" || key == "barrier_files") {
    } else if s.filesIndent.Some? {
      if indent <= s.filesIndent.value {
        ShiftedBarriers(k, Leave(s, None, s.barriersIndent), indent, key, isKey);
      }
    } else {
      ShiftedBarriers(k, s, indent, key, isKey);
    }
  }

  lemma ShiftedBarriers(k: nat, s: State, indent: nat, key: string, isKey: bool)
    ensures InBarriers(ShiftState(k, s), indent + k, key, isKey) == ShiftState(k, InBarriers(s, indent, key, isKey))
  {
  }

  lemma {:induction false} ShiftedLines(k: nat, s: State, lines: seq<string>)
    requires Valid(s)
    ensures ReadAll(ShiftState(k, s), ShiftAll(k, lines)) == ShiftState(k, ReadAll(s, lines))
    decreases |lines|
  {
    var shifted := ShiftAll(k, lines);
    if lines != [] {
      var rest := lines[1..];
      ClassifyShift(k, lines[0]);
      ShiftedStep(k, s, Classify(lines[0]));
      ShiftedLines(k, Read(s, Classify(lines[0])), rest);
      assert shifted[1..] == ShiftAll(k, rest);
    }
  }

  function ShiftAll(k: nat, lines: seq<string>): seq<string> {
    seq(|lines|, i requires 0 <= i < |lines| => Shift(k, lines[i]))
  }

  /** Adding `k` spaces to every line with a nonzero indent changes nothing that is read. */
  lemma ReindentingChangesNothing(k: nat, text: string)
    ensures Parse(SplitLines(Unlines(ShiftAll(k, SplitLines(text))))) == Parse(SplitLines(text))
  {
    var lines := SplitLines(text);
    forall l | l in ShiftAll(k, lines) ensures IsLine(l) {
      var i :| 0 <= i < |lines| && l == Shift(k, lines[i]);
      assert lines[i] in lines;
    }
    SplitUnlines(ShiftAll(k, lines));
    ShiftedLines(k, START, lines);
  }

  // ---- the canonical rendering ----

  datatype Row = Row(name: string, scope: Scope)

  datatype Table = Table(rows: seq<Row>, barriers: seq<string>)

  /** Items are written bare, or between quotes of one kind. */
  datatype Style = Bare | Single | Double

  function Quote(style: Style, item: string): string {
    match style
    case Bare => item
    case Single => ['\''] + item + ['\'']
    case Double => ['"'] + item + ['"']
  }

  function ItemLines(indent: nat, style: Style, items: seq<string>): seq<string> {
    if items == [] then []
    else [Spaces(indent) + ("- " + Quote(style, items[0]))] + ItemLines(indent, style, items[1..])
  }

  function KeyLine(indent: nat, key: string): string {
    Spaces(indent) + (key + ":")
  }

  /** The lines of one scope under a `files:` key at indent `f`. */
  function RowLines(f: nat, row: Row, style: Style): seq<string> {
    [KeyLine(f + 2, row.name)] + SectionLines(f, row.scope, style)
  }

  function SectionLines(f: nat, scope: Scope, style: Style): seq<string> {
    IncludedLines(f, scope.included, style) + ExcludedLines(f, scope.excluded, style)
  }

  function IncludedLines(f: nat, items: seq<string>, style: Style): seq<string> {
    [KeyLine(f + 4, "include")] + ItemLines(f + 6, style, items)
  }

  function ExcludedLines(f: nat, items: seq<string>, style: Style): seq<string> {
    [KeyLine(f + 4, "exclude")] + ItemLines(f + 6, style, items)
  }

  function RowsLines(f: nat, rows: seq<Row>, style: Style): seq<string> {
    if rows == [] then [] else RowLines(f, rows[0], style) + RowsLines(f, rows[1..], style)
  }

  function BarrierLines(b: nat, barriers: seq<string>, style: Style): seq<string> {
    [KeyLine(b, "barrier_files")] + ([KeyLine(b + 2, "include")] + ItemLines(b + 4, style, barriers))
  }

  /** The whole file, with the two anchors at indents `f` and `b`. */
  function Render(table: Table, style: Style, f: nat, b: nat): seq<string> {
    [KeyLine(0, "scopes")]
    + ([KeyLine(b, "source")]
       + ([KeyLine(f, "files")] + (RowsLines(f, table.rows, style) + BarrierLines(b, table.barriers, style))))
  }

  // ---- what can be written ----

  const RESERVED: set<string> := {"files", "barrier_files", "include", "exclude"}

  /** A scope name that reads as one: on one line, not indented, no comment, no item and not a word of the format. */
  ghost predicate LegalName(name: string) {
    IsLine(name) && name !in RESERVED && (name != "" ==> !IsSpace(name[0]) && name[0] != '#') && !StartsItem(name)
  }

  predicate IsPlain(c: char) {
    !IsSpace(c) && c != '"' && c != '\''
  }

  /** One line, with nothing that the reader would strip at either end. */
  ghost predicate LegalItem(item: string) {
    IsLine(item) && item != "" && IsPlain(item[0]) && IsPlain(item[|item| - 1])
  }

  ghost predicate LegalScope(scope: Scope) {
    && (forall x :: x in scope.included ==> LegalItem(x))
    && (forall x :: x in scope.excluded ==> LegalItem(x))
  }

  ghost predicate LegalTable(table: Table) {
    && (forall i :: 0 <= i < |table.rows| ==> LegalName(table.rows[i].name) && LegalScope(table.rows[i].scope))
    && (forall i, j :: 0 <= i < j < |table.rows| ==> table.rows[i].name != table.rows[j].name)
    && (forall x :: x in table.barriers ==> LegalItem(x))
  }

  // ---- reading it back ----

  /** Text whose ends are not dropped is not stripped, whatever spaces precede it. */
  lemma {:induction false} DropsSpaces(n: nat, x: string)
    requires x != "" && !IsSpace(x[0])
    ensures Indent(Spaces(n) + x) == n && DropLeading(Spaces(n) + x, IsSpace) == x
  {
    ShiftedLine(n, x);
  }

  lemma ClassifyText(n: nat, x: string)
    requires x != "" && !IsSpace(x[0]) && !IsSpace(x[|x| - 1]) && x[0] != '#'
    ensures Classify(Spaces(n) + x) == if StartsItem(x) then Item(Unquoted(x[2..])) else EntryOf(n, x)
  {
    DropsSpaces(n, x);
  }

  lemma ClassifyKey(n: nat, key: string)
    requires key != "" ==> !IsSpace(key[0]) && key[0] != '#'
    requires !StartsItem(key)
    ensures Classify(KeyLine(n, key)) == Entry(n, key, true)
  {
    var x := key + ":";
    assert x[..|x| - 1] == key;
    assert |key| > 1 ==> x[0] == key[0] && x[1] == key[1];
    ClassifyText(n, x);
  }

  lemma ClassifyItem(n: nat, style: Style, item: string)
    requires LegalItem(item)
    ensures Classify(Spaces(n) + ("- " + Quote(style, item))) == Item(item)
  {
    var quoted := Quote(style, item);
    var x := "- " + quoted;
    assert x[2..] == quoted && x[|x| - 1] == quoted[|quoted| - 1];
    ClassifyText(n, x);
    Unquotes(style, item);
  }

  lemma StripsNothing(x: string, drop: char -> bool)
    requires x != "" && !drop(x[0]) && !drop(x[|x| - 1])
    ensures StripIf(x, drop) == x
  {
  }

  lemma StripsEnds(q: char, x: string, drop: char -> bool)
    requires drop(q) && x != "" && !drop(x[0]) && !drop(x[|x| - 1])
    ensures StripIf([q] + x + [q], drop) == x
  {
    var quoted := [q] + x + [q];
    assert quoted[1..] == x + [q];
    assert DropLeading(quoted, drop) == x + [q];
    assert (x + [q])[..|x|] == x;
    assert DropTrailing(x + [q], drop) == DropTrailing(x, drop);
  }

  lemma Unquotes(style: Style, item: string)
    requires LegalItem(item)
    ensures Unquoted(Quote(style, item)) == item
  {
    var quoted := Quote(style, item);
    StripsNothing(quoted, IsSpace);
    if style == Double {
      StripsEnds('"', item, Is('"'));
      StripsNothing(item, Is('\''));
    } else {
      StripsNothing(quoted, Is('"'));
      if style == Single {
        StripsEnds('\'', item, Is('\''));
      } else {
        StripsNothing(item, Is('\''));
      }
    }
  }

  lemma {:induction false} ReadAllAppend(s: State, a: seq<string>, b: seq<string>)
    requires Valid(s)
    ensures ReadAll(s, a + b) == ReadAll(ReadAll(s, a), b)
    decreases |a|
  {
    if a == [] {
      assert a + b == b;
    } else {
      assert (a + b)[1..] == a[1..] + b;
      ReadAllAppend(Read(s, Classify(a[0])), a[1..], b);
    }
  }

  /** The state after reading these items in the current section. */
  function AddItems(s: State, items: seq<string>): (t: State)
    requires Valid(s)
    ensures Valid(t)
    decreases |items|
  {
    if items == [] then s else AddItems(AddItem(s, items[0]), items[1..])
  }

  lemma {:induction false} ReadItems(s: State, indent: nat, style: Style, items: seq<string>)
    requires Valid(s) && forall x :: x in items ==> LegalItem(x)
    ensures ReadAll(s, ItemLines(indent, style, items)) == AddItems(s, items)
    decreases |items|
  {
    if items != [] {
      assert items[0] in items;
      ClassifyItem(indent, style, items[0]);
      ReadItems(AddItem(s, items[0]), indent, style, items[1..]);
      var lines := ItemLines(indent, style, items);
      assert lines[1..] == ItemLines(indent, style, items[1..]);
    }
  }

  lemma {:induction false} ItemsIncluded(s: State, name: string, items: seq<string>)
    requires Valid(s) && s.current == Some(name) && s.section == Include
    ensures AddItems(s, items) ==
            s.(scopes := s.scopes[name := s.scopes[name].(included := s.scopes[name].included + items)])
    decreases |items|
  {
    var was := s.scopes[name];
    if items == [] {
      assert was.included + [] == was.included;
    } else {
      ItemsIncluded(AddItem(s, items[0]), name, items[1..]);
      assert was.included + [items[0]] + items[1..] == was.included + items;
    }
  }

  lemma {:induction false} ItemsExcluded(s: State, name: string, items: seq<string>)
    requires Valid(s) && s.current == Some(name) && s.section == Exclude
    ensures AddItems(s, items) ==
            s.(scopes := s.scopes[name := s.scopes[name].(excluded := s.scopes[name].excluded + items)])
    decreases |items|
  {
    var was := s.scopes[name];
    if items == [] {
      assert was.excluded + [] == was.excluded;
    } else {
      ItemsExcluded(AddItem(s, items[0]), name, items[1..]);
      assert was.excluded + [items[0]] + items[1..] == was.excluded + items;
    }
  }

  lemma {:induction false} ItemsAreBarriers(s: State, items: seq<string>)
    requires Valid(s) && s.section == Barrier
    ensures AddItems(s, items) == s.(barriers := s.barriers + items)
    decreases |items|
  {
    if items == [] {
      assert s.barriers + [] == s.barriers;
    } else {
      ItemsAreBarriers(AddItem(s, items[0]), items[1..]);
      assert s.barriers + [items[0]] + items[1..] == s.barriers + items;
    }
  }

  lemma ReadKey(s: State, n: nat, key: string, rest: seq<string>)
    requires Valid(s) && !StartsItem(key) && (key != "" ==> !IsSpace(key[0]) && key[0] != '#')
    ensures ReadAll(s, [KeyLine(n, key)] + rest) == ReadAll(AddEntry(s, n, key, true), rest)
  {
    ClassifyKey(n, key);
    assert ([KeyLine(n, key)] + rest)[1..] == rest;
  }

  /** Inside the block of a `files:` key at indent `f`. */
  ghost predicate InFiles(f: nat, s: State) {
    Valid(s) && f > 0 && s.filesIndent == Some(f) && s.barriersIndent == None
  }

  lemma ReadName(f: nat, s: State, n: string, rest: seq<string>)
    requires InFiles(f, s) && LegalName(n) && n !in s.scopes
    ensures ReadAll(s, [KeyLine(f + 2, n)] + rest) == ReadAll(OpenScope(s, n), rest)
  {
    ReadKey(s, f + 2, n, rest);
  }

  lemma ReadIncluded(f: nat, s: State, n: string, items: seq<string>, style: Style)
    requires InFiles(f, s) && s.current == Some(n) && forall x :: x in items ==> LegalItem(x)
    ensures ReadAll(s, IncludedLines(f, items, style)) ==
            s.(section := Include, scopes := s.scopes[n := s.scopes[n].(included := s.scopes[n].included + items)])
  {
    var lines, t := ItemLines(f + 6, style, items), s.(section := Include);
    ReadKey(s, f + 4, "include", lines);
    EnterSection(f, s, "include");
    ReadItems(t, f + 6, style, items);
    ItemsIncluded(t, n, items);
  }

  lemma ReadExcluded(f: nat, s: State, n: string, items: seq<string>, style: Style)
    requires InFiles(f, s) && s.current == Some(n) && forall x :: x in items ==> LegalItem(x)
    ensures ReadAll(s, ExcludedLines(f, items, style)) ==
            s.(section := Exclude, scopes := s.scopes[n := s.scopes[n].(excluded := s.scopes[n].excluded + items)])
  {
    var lines, t := ItemLines(f + 6, style, items), s.(section := Exclude);
    ReadKey(s, f + 4, "exclude", lines);
    EnterSection(f, s, "exclude");
    ReadItems(t, f + 6, style, items);
    ItemsExcluded(t, n, items);
  }

  lemma EnterSection(f: nat, s: State, key: string)
    requires InFiles(f, s) && s.current.Some? && (key == "include" || key == "exclude")
    ensures AddEntry(s, f + 4, key, true) == s.(section := if key == "include" then Include else Exclude)
  {
  }

  lemma ReadRow(f: nat, s: State, row: Row, style: Style)
    requires InFiles(f, s) && LegalName(row.name) && LegalScope(row.scope) && row.name !in s.scopes
    ensures InFiles(f, ReadAll(s, RowLines(f, row, style)))
    ensures ReadAll(s, RowLines(f, row, style)).scopes == s.scopes[row.name := row.scope]
    ensures ReadAll(s, RowLines(f, row, style)).barriers == s.barriers
  {
    ReadName(f, s, row.name, SectionLines(f, row.scope, style));
    ReadSections(f, OpenScope(s, row.name), row.name, row.scope, style);
  }

  lemma ReadSections(f: nat, s: State, n: string, scope: Scope, style: Style)
    requires InFiles(f, s) && s.current == Some(n) && s.scopes[n] == Scope([], []) && LegalScope(scope)
    ensures ReadAll(s, SectionLines(f, scope, style)) == s.(section := Exclude, scopes := s.scopes[n := scope])
  {
    ReadAllAppend(s, IncludedLines(f, scope.included, style), ExcludedLines(f, scope.excluded, style));
    ReadIncluded(f, s, n, scope.included, style);
    assert [] + scope.included == scope.included;
    var t := s.(section := Include, scopes := s.scopes[n := Scope(scope.included, [])]);
    ReadExcluded(f, t, n, scope.excluded, style);
    assert [] + scope.excluded == scope.excluded;
    assert t.scopes[n := scope] == s.scopes[n := scope];
  }

  /** The scopes after these rows. */
  function AddRows(scopes: map<string, Scope>, rows: seq<Row>): map<string, Scope>
    decreases |rows|
  {
    if rows == [] then scopes else AddRows(scopes[rows[0].name := rows[0].scope], rows[1..])
  }

  lemma {:induction false} ReadRows(f: nat, s: State, rows: seq<Row>, style: Style)
    requires InFiles(f, s)
    requires forall i :: 0 <= i < |rows| ==>
               LegalName(rows[i].name) && LegalScope(rows[i].scope) && rows[i].name !in s.scopes
    requires forall i, j :: 0 <= i < j < |rows| ==> rows[i].name != rows[j].name
    ensures InFiles(f, ReadAll(s, RowsLines(f, rows, style)))
    ensures ReadAll(s, RowsLines(f, rows, style)).scopes == AddRows(s.scopes, rows)
    ensures ReadAll(s, RowsLines(f, rows, style)).barriers == s.barriers
    decreases |rows|
  {
    if rows != [] {
      ReadRow(f, s, rows[0], style);
      ReadAllAppend(s, RowLines(f, rows[0], style), RowsLines(f, rows[1..], style));
      ReadRows(f, ReadAll(s, RowLines(f, rows[0], style)), rows[1..], style);
    }
  }

  lemma {:induction false} AddedRows(scopes: map<string, Scope>, rows: seq<Row>)
    requires forall i, j :: 0 <= i < j < |rows| ==> rows[i].name != rows[j].name
    ensures var all := AddRows(scopes, rows);
            && (forall n :: n in all <==> n in scopes || exists i :: 0 <= i < |rows| && rows[i].name == n)
            && (forall i :: 0 <= i < |rows| ==> all[rows[i].name] == rows[i].scope)
            && (forall n :: n in scopes && (forall i :: 0 <= i < |rows| ==> rows[i].name != n) ==> all[n] == scopes[n])
    decreases |rows|
  {
    if rows != [] {
      var rest := rows[1..];
      assert forall i :: 0 <= i < |rest| ==> rest[i] == rows[i + 1];
      assert forall i :: 0 < i < |rows| ==> rows[i] == rest[i - 1];
      AddedRows(scopes[rows[0].name := rows[0].scope], rest);
    }
  }

  /** Reading the rendering of a legal table gives the table back, whatever its indents and quotes. */
  lemma ParseRender(table: Table, style: Style, f: nat, b: nat)
    requires LegalTable(table) && f > 0 && b > 0
    ensures IsReadAs(table, Parse(SplitLines(Unlines(Render(table, style, f, b)))))
  {
    var rows, tail := RowsLines(f, table.rows, style), BarrierLines(b, table.barriers, style);
    var s1 := Leave(START, Some(f), None);
    RenderedLines(table, style, f, b);
    SplitUnlines(Render(table, style, f, b));
    ReadHead(f, b, rows + tail);
    ReadRows(f, s1, table.rows, style);
    ReadAllAppend(s1, rows, tail);
    ReadBarriers(f, b, ReadAll(s1, rows), table.barriers, style);
    AddedRows(map[], table.rows);
  }

  ghost predicate IsReadAs(table: Table, read: (map<string, Scope>, seq<string>)) {
    && read.1 == table.barriers
    && (forall n :: n in read.0 <==> exists i :: 0 <= i < |table.rows| && table.rows[i].name == n)
    && (forall i :: 0 <= i < |table.rows| ==> read.0[table.rows[i].name] == table.rows[i].scope)
  }

  // ---- the rendering consists of lines ----

  ghost predicate AreLines(lines: seq<string>) {
    forall l :: l in lines ==> IsLine(l)
  }

  /** A key line in front of other lines. */
  lemma KeyThenLines(indent: nat, key: string, rest: seq<string>)
    requires IsLine(key) && AreLines(rest)
    ensures AreLines([KeyLine(indent, key)] + rest)
  {
    assert IsLine(KeyLine(indent, key));
  }

  lemma LinesThenLines(a: seq<string>, b: seq<string>)
    requires AreLines(a) && AreLines(b)
    ensures AreLines(a + b)
  {
  }

  lemma {:induction false} ItemsAreLines(indent: nat, style: Style, items: seq<string>)
    requires forall x :: x in items ==> LegalItem(x)
    ensures AreLines(ItemLines(indent, style, items))
    decreases |items|
  {
    if items != [] {
      assert LegalItem(items[0]);
      assert IsLine(Quote(style, items[0]));
      ItemsAreLines(indent, style, items[1..]);
    }
  }

  lemma RowIsLines(f: nat, row: Row, style: Style)
    requires LegalName(row.name) && LegalScope(row.scope)
    ensures AreLines(RowLines(f, row, style))
  {
    ItemsAreLines(f + 6, style, row.scope.included);
    ItemsAreLines(f + 6, style, row.scope.excluded);
    KeyThenLines(f + 4, "include", ItemLines(f + 6, style, row.scope.included));
    KeyThenLines(f + 4, "exclude", ItemLines(f + 6, style, row.scope.excluded));
    LinesThenLines(IncludedLines(f, row.scope.included, style), ExcludedLines(f, row.scope.excluded, style));
    KeyThenLines(f + 2, row.name, SectionLines(f, row.scope, style));
  }

  lemma {:induction false} RowsAreLines(f: nat, rows: seq<Row>, style: Style)
    requires forall i :: 0 <= i < |rows| ==> LegalName(rows[i].name) && LegalScope(rows[i].scope)
    ensures AreLines(RowsLines(f, rows, style))
    decreases |rows|
  {
    if rows != [] {
      RowIsLines(f, rows[0], style);
      RowsAreLines(f, rows[1..], style);
      LinesThenLines(RowLines(f, rows[0], style), RowsLines(f, rows[1..], style));
    }
  }

  lemma RenderedLines(table: Table, style: Style, f: nat, b: nat)
    requires LegalTable(table)
    ensures AreLines(Render(table, style, f, b))
  {
    RowsAreLines(f, table.rows, style);
    BarriersAreLines(b, table.barriers, style);
    LinesThenLines(RowsLines(f, table.rows, style), BarrierLines(b, table.barriers, style));
    HeadIsLines(f, b, RowsLines(f, table.rows, style) + BarrierLines(b, table.barriers, style));
  }

  lemma BarriersAreLines(b: nat, barriers: seq<string>, style: Style)
    requires forall x :: x in barriers ==> LegalItem(x)
    ensures AreLines(BarrierLines(b, barriers, style))
  {
    var items := ItemLines(b + 4, style, barriers);
    ItemsAreLines(b + 4, style, barriers);
    KeyThenLines(b + 2, "include", items);
    KeyThenLines(b, "barrier_files", [KeyLine(b + 2, "include")] + items);
  }

  lemma HeadIsLines(f: nat, b: nat, rest: seq<string>)
    requires AreLines(rest)
    ensures AreLines([KeyLine(0, "scopes")] + ([KeyLine(b, "source")] + ([KeyLine(f, "files")] + rest)))
  {
    KeyThenLines(f, "files", rest);
    KeyThenLines(b, "source", [KeyLine(f, "files")] + rest);
    KeyThenLines(0, "scopes", [KeyLine(b, "source")] + ([KeyLine(f, "files")] + rest));
  }

  lemma ReadHead(f: nat, b: nat, rest: seq<string>)
    requires f > 0 && b > 0
    ensures ReadAll(START, [KeyLine(0, "scopes")] + ([KeyLine(b, "source")] + ([KeyLine(f, "files")] + rest))) ==
            ReadAll(Leave(START, Some(f), None), rest)
  {
    ReadKey(START, 0, "scopes", [KeyLine(b, "source")] + ([KeyLine(f, "files")] + rest));
    ReadKey(START, b, "source", [KeyLine(f, "files")] + rest);
    ReadKey(START, f, "files", rest);
  }

  lemma ReadBarriers(f: nat, b: nat, s: State, barriers: seq<string>, style: Style)
    requires InFiles(f, s) && b > 0 && s.barriers == [] && forall x :: x in barriers ==> LegalItem(x)
    ensures var t := ReadAll(s, BarrierLines(b, barriers, style)); t.scopes == s.scopes && t.barriers == barriers
  {
    var items := ItemLines(b + 4, style, barriers);
    var s1 := Leave(s, None, Some(b));
    ReadKey(s, b, "barrier_files", [KeyLine(b + 2, "include")] + items);
    ReadBarrierItems(b, s1, barriers, style);
  }

  lemma ReadBarrierItems(b: nat, s: State, barriers: seq<string>, style: Style)
    requires Valid(s) && s.filesIndent.None? && s.barriersIndent == Some(b) && s.barriers == []
    requires forall x :: x in barriers ==> LegalItem(x)
    ensures ReadAll(s, [KeyLine(b + 2, "include")] + ItemLines(b + 4, style, barriers)) ==
            s.(section := Barrier, barriers := barriers)
  {
    var t := s.(section := Barrier);
    ReadKey(s, b + 2, "include", ItemLines(b + 4, style, barriers));
    ReadItems(t, b + 4, style, barriers);
    ItemsAreBarriers(t, barriers);
    assert [] + barriers == barriers;
  }
}
