/** Reading the answers of `git cat-file --batch`. A byte is the character of that code. */
module BatchFrames {
  import opened Text

  type Byte = c: char | c as int < 256

  datatype Blob = Blob(oid: string, file: string)

  /** `<oid> blob <size>` */
  function HeaderLine(oid: string, size: nat): string {
    oid + " blob " + Decimal(size)
  }

  function Frame(oid: string, content: seq<Byte>): string {
    HeaderLine(oid, |content|) + "\n" + content + "\n"
  }

  /** What git prints for a list of objects with these contents. */
  function Output(blobs: seq<Blob>, contents: seq<seq<Byte>>): string
    requires |contents| == |blobs|
  {
    if blobs == [] then "" else Frame(blobs[0].oid, contents[0]) + Output(blobs[1..], contents[1..])
  }

  ghost predicate IsObjectName(oid: string) {
    ' ' !in oid && '\n' !in oid
  }

  /** A zero byte among the first 8000. */
  ghost predicate HasEarlyZero(content: string) {
    exists i :: 0 <= i < |content| && i < 8000 && content[i] as int == 0
  }

  predicate IsBinary(content: string): (binary: bool)
    ensures binary <==> HasEarlyZero(content)
  {
    var head := content[..if |content| < 8000 then |content| else 8000];
    assert forall i :: 0 <= i < |head| ==> head[i] == content[i];
    '\0' in head
  }

  /** The line break that ends the header is the first one. */
  lemma HeaderEnds(text: string, line: string, rest: string)
    requires '\n' !in line && text == line + "\n" + rest
    ensures IndexOf(text, '\n') == |line| && text[..|line|] == line
  {
    assert text[|line|] == '\n';
    assert text[..|line|] == line;
  }

  /** The header line holds the size as its third field. */
  lemma HeaderFields(oid: string, size: nat)
    requires IsObjectName(oid)
    ensures '\n' !in HeaderLine(oid, size)
    ensures Split(HeaderLine(oid, size), ' ') == [oid, "blob", Decimal(size)]
  {
    assert HeaderLine(oid, size) == oid + [' '] + ("blob" + [' '] + Decimal(size));
    SplitPrefix(oid, "blob" + [' '] + Decimal(size), ' ');
    SplitPrefix("blob", Decimal(size), ' ');
    SplitWhole(Decimal(size), ' ');
  }

  /** Every file's text, exactly, whatever bytes it holds; binary files are left out. */
  method ReadBatch<Text>(output: string, blobs: seq<Blob>, decode: string -> Text, ghost contents: seq<seq<Byte>>)
    returns (texts: map<string, Text>)
    requires |contents| == |blobs| && output == Output(blobs, contents)
    requires forall b :: b in blobs ==> IsObjectName(b.oid)
    ensures forall f :: f in texts ==> IsFileOf(blobs, f)
    ensures DistinctFiles(blobs) ==> TextsOf(blobs, contents, decode, |blobs|, texts)
  {
    texts := map[];
    var offset: nat := 0;
    for k := 0 to |blobs|
      invariant offset <= |output| && output[offset..] == Output(blobs[k..], contents[k..])
      invariant forall f :: f in texts ==> IsFileOf(blobs[..k], f)
      invariant DistinctFiles(blobs) ==> TextsOf(blobs, contents, decode, k, texts)
    {
      ghost var before := texts;
      OutputOne(blobs, contents, k);
      var content, next := ReadFrame(output, offset, blobs[k], contents[k], Output(blobs[k + 1..], contents[k + 1..]));
      offset := next;
      if !IsBinary(content) {
        texts := texts[blobs[k].file := decode(content)];
      }
      TextsOne(blobs, contents, decode, k, before, texts);
    }
    assert blobs[..|blobs|] == blobs;
  }

  ghost predicate IsFileOf(blobs: seq<Blob>, file: string) {
    exists b :: b in blobs && b.file == file
  }

  ghost predicate DistinctFiles(blobs: seq<Blob>) {
    forall i, j :: 0 <= i < j < |blobs| ==> blobs[i].file != blobs[j].file
  }

  /** File `i` has its text unless it is binary. */
  ghost predicate TextAt<Text>(blob: Blob, content: string, decode: string -> Text, texts: map<string, Text>) {
    && (blob.file in texts <==> !HasEarlyZero(content))
    && (blob.file in texts ==> texts[blob.file] == decode(content))
  }

  /** The first `k` files have exactly their texts. */
  ghost predicate TextsOf<Text>(blobs: seq<Blob>, contents: seq<seq<Byte>>, decode: string -> Text, k: nat,
                                      texts: map<string, Text>)
    requires |contents| == |blobs|
  {
    forall i {:trigger TextAt(blobs[i], contents[i], decode, texts)} ::
      0 <= i < k && i < |blobs| ==> TextAt(blobs[i], contents[i], decode, texts)
  }

  lemma OutputOne(blobs: seq<Blob>, contents: seq<seq<Byte>>, k: nat)
    requires k < |blobs| == |contents|
    ensures Output(blobs[k..], contents[k..]) ==
            Frame(blobs[k].oid, contents[k]) + Output(blobs[k + 1..], contents[k + 1..])
  {
    assert blobs[k..][1..] == blobs[k + 1..] && contents[k..][1..] == contents[k + 1..];
  }

  lemma TextsOne<Text>(blobs: seq<Blob>, contents: seq<seq<Byte>>, decode: string -> Text, k: nat,
                             before: map<string, Text>, texts: map<string, Text>)
    requires k < |blobs| == |contents| && forall f :: f in before ==> IsFileOf(blobs[..k], f)
    requires texts == if IsBinary(contents[k]) then before else before[blobs[k].file := decode(contents[k])]
    ensures forall f :: f in texts ==> IsFileOf(blobs[..k + 1], f)
    ensures DistinctFiles(blobs) && TextsOf(blobs, contents, decode, k, before) ==>
              TextsOf(blobs, contents, decode, k + 1, texts)
  {
    assert blobs[..k + 1] == blobs[..k] + [blobs[k]];
    forall f | f in texts ensures IsFileOf(blobs[..k + 1], f) {
      if f in before {
        assert IsFileOf(blobs[..k], f);
      } else {
        assert blobs[k] in blobs[..k + 1];
      }
    }
    if DistinctFiles(blobs) && TextsOf(blobs, contents, decode, k, before) {
      forall i | 0 <= i < k + 1 ensures TextAt(blobs[i], contents[i], decode, texts) {
        if i < k {
          assert TextAt(blobs[i], contents[i], decode, before);
        } else {
          NotYetRead(blobs, k, before);
        }
      }
    }
  }

  lemma NotYetRead<Text>(blobs: seq<Blob>, k: nat, before: map<string, Text>)
    requires k < |blobs| && DistinctFiles(blobs) && forall f :: f in before ==> IsFileOf(blobs[..k], f)
    ensures blobs[k].file !in before
  {
  }

  method ReadFrame(output: string, offset: nat, blob: Blob, ghost expected: seq<Byte>, ghost rest: string)
    returns (content: string, next: nat)
    requires offset <= |output| && IsObjectName(blob.oid)
    requires output[offset..] == Frame(blob.oid, expected) + rest
    ensures content == expected && next <= |output| && output[next..] == rest
  {
    ghost var line := HeaderLine(blob.oid, |expected|);
    Located(output, offset, line, expected, rest, blob.oid);
    var headerEnd := offset + IndexOf(output[offset..], '\n');
    var size := ReadSize(output[offset..headerEnd], blob.oid, |expected|);
    content := output[headerEnd + 1..headerEnd + 1 + size];
    next := headerEnd + 1 + size + 1;
  }

  method ReadSize(header: string, ghost oid: string, ghost size: nat) returns (n: nat)
    requires IsObjectName(oid) && header == HeaderLine(oid, size)
    ensures n == size
  {
    SizeOfHeader(oid, size);
    n := ParseDecimal(Split(header, ' ')[2]);
  }

  /** The size is the third field of the header. */
  lemma SizeOfHeader(oid: string, size: nat)
    requires IsObjectName(oid)
    ensures var fields := Split(HeaderLine(oid, size), ' ');
            |fields| == 3 && (forall c :: c in fields[2] ==> IsDigit(c)) && ParseDecimal(fields[2]) == size
  {
    HeaderFields(oid, size);
    DecimalRoundTrip(size);
  }

  /** Where a frame lies in the output: its header up to the line break, its content and what follows. */
  lemma Located(output: string, offset: nat, line: string, content: seq<Byte>, rest: string, oid: string)
    requires offset <= |output| && IsObjectName(oid) && line == HeaderLine(oid, |content|)
    requires output[offset..] == Frame(oid, content) + rest
    ensures offset + IndexOf(output[offset..], '\n') == offset + |line|
    ensures output[offset..offset + |line|] == line
    ensures var at := offset + |line| + 1;
            at + |content| < |output| && output[at..at + |content|] == content && output[at + |content| + 1..] == rest
  {
    FrameShape(line, content, rest);
    HeaderFields(oid, |content|);
    HeaderEnds(output[offset..], line, content + "\n" + rest);
    Parts(output, offset, line, content, rest);
  }

  lemma FrameShape(line: string, content: string, rest: string)
    ensures line + "\n" + content + "\n" + rest == line + "\n" + (content + "\n" + rest)
  {
  }

  /** Where the parts of a frame lie in the whole output. */
  lemma Parts(output: string, offset: nat, line: string, content: string, rest: string)
    requires offset <= |output| && output[offset..] == line + "\n" + (content + "\n" + rest)
    ensures output[offset..offset + |line|] == line
    ensures var at := offset + |line| + 1;
            at + |content| < |output| && output[at..at + |content|] == content && output[at + |content| + 1..] == rest
  {
    var at := offset + |line| + 1;
    assert output[offset..offset + |line|] == output[offset..][..|line|];
    assert output[at..] == output[offset..][|line| + 1..];
    assert output[at..] == content + "\n" + rest;
    assert output[at..at + |content|] == output[at..][..|content|];
    assert output[at + |content| + 1..] == output[at..][|content| + 1..];
  }
}
