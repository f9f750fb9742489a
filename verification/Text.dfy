/** String operations shared by the models: splitting, joining, replacing and decimal numerals. */
module Text {

  /** `strings.Split` / `str.split` on a one-character separator; never empty. */
  function Split(s: string, sep: char): (parts: seq<string>)
    ensures |parts| > 0
    ensures forall i :: 0 <= i < |parts| ==> sep !in parts[i]
  {
    if s == "" then [""]
    else
      var rest := Split(s[1..], sep);
      if s[0] == sep then [""] + rest
      else [[s[0]] + rest[0]] + rest[1..]
  }

  function Join(parts: seq<string>, sep: char): string
    requires |parts| > 0
  {
    if |parts| == 1 then parts[0] else parts[0] + [sep] + Join(parts[1..], sep)
  }

  lemma {:induction false} SplitPrefix(x: string, rest: string, sep: char)
    requires sep !in x
    ensures Split(x + [sep] + rest, sep) == [x] + Split(rest, sep)
  {
    var s := x + [sep] + rest;
    if x == "" {
      assert s[1..] == rest;
    } else {
      SplitPrefix(x[1..], rest, sep);
      assert s[1..] == x[1..] + [sep] + rest;
      assert [s[0]] + x[1..] == x;
    }
  }

  lemma {:induction false} SplitWhole(x: string, sep: char)
    requires sep !in x
    ensures Split(x, sep) == [x]
  {
    if x != "" {
      SplitWhole(x[1..], sep);
      assert [x[0]] + x[1..] == x;
    }
  }

  lemma {:induction false} JoinSplit(s: string, sep: char)
    ensures Join(Split(s, sep), sep) == s
  {
    if s != "" {
      JoinSplit(s[1..], sep);
      var rest := Split(s[1..], sep);
      if s[0] == sep {
        assert ([""] + rest)[1..] == rest;
      } else {
        var parts := [[s[0]] + rest[0]] + rest[1..];
        assert parts[1..] == rest[1..];
        assert [s[0]] + s[1..] == s;
      }
    }
  }

  predicate HasPrefix(s: string, prefix: string) {
    prefix <= s
  }

  predicate Contains(s: string, part: string) {
    exists i :: 0 <= i <= |s| && part <= s[i..]
  }

  /** Length of the longest prefix free of `c`: `strings.IndexByte`, with `|s|` for "absent". */
  function IndexOf(s: string, c: char): (i: nat)
    ensures i <= |s|
    ensures c !in s[..i]
    ensures i < |s| ==> s[i] == c
    ensures i < |s| <==> c in s
  {
    if s == "" || s[0] == c then 0
    else
      var j := IndexOf(s[1..], c);
      assert s[..1 + j] == [s[0]] + s[1..][..j];
      1 + j
  }

  /** `strings.ReplaceAll`: leftmost, non-overlapping occurrences. */
  function ReplaceAll(s: string, old_: string, new_: string): string
    requires old_ != ""
  {
    if |s| < |old_| then s
    else if old_ <= s then new_ + ReplaceAll(s[|old_|..], old_, new_)
    else [s[0]] + ReplaceAll(s[1..], old_, new_)
  }

  /** A first character that starts no occurrence is copied; two characters of the pattern decide. */
  lemma ReplaceSkip(c: char, s: string, old_: string, new_: string)
    requires old_ != ""
    requires old_[0] != c || (|old_| > 1 && (s == "" || s[0] != old_[1]))
    ensures ReplaceAll([c] + s, old_, new_) == [c] + ReplaceAll(s, old_, new_)
  {
    var whole := [c] + s;
    assert whole[0] == c && (s != "" ==> whole[1] == s[0]);
    assert ([c] + s)[1..] == s;
    if |[c] + s| < |old_| {
      assert ReplaceAll(s, old_, new_) == s;
    }
  }

  /** An occurrence at the front is replaced. */
  lemma ReplaceHit(s: string, old_: string, new_: string)
    requires old_ != ""
    ensures ReplaceAll(old_ + s, old_, new_) == new_ + ReplaceAll(s, old_, new_)
  {
    assert (old_ + s)[|old_|..] == s;
    assert old_ <= old_ + s;
  }

  lemma Associate(a: string, b: string, c: string)
    ensures a + (b + c) == a + b + c
  {
  }

  lemma Regroup(t: string, s: string)
    requires t != ""
    ensures t + s == [t[0]] + (t[1..] + s)
  {
  }

  /** A text that cannot meet the first character of the pattern is copied. */
  lemma {:induction false} ReplaceSkipText(t: string, s: string, old_: string, new_: string)
    requires old_ != "" && old_[0] !in t
    ensures ReplaceAll(t + s, old_, new_) == t + ReplaceAll(s, old_, new_)
  {
    if t == "" {
      assert t + s == s;
    } else {
      ReplaceSkipText(t[1..], s, old_, new_);
      Regroup(t, s);
      ReplaceSkip(t[0], t[1..] + s, old_, new_);
      Regroup(t, ReplaceAll(s, old_, new_));
    }
  }

  // ---- decimal numerals ----

  const DIGITS: string := "0123456789"

  predicate IsDigit(c: char) { '0' <= c <= '9' }

  function DigitValue(c: char): (d: nat)
    requires IsDigit(c)
    ensures d < 10 && DIGITS[d] == c
  {
    (c as int) - ('0' as int)
  }

  /** `fmt.Sprintf("%d", n)` / `String(n)` for a natural number. */
  function Decimal(n: nat): (s: string)
    ensures |s| > 0 && forall c :: c in s ==> IsDigit(c)
  {
    if n < 10 then [DIGITS[n]] else Decimal(n / 10) + [DIGITS[n % 10]]
  }

  function ParseDecimal(s: string): nat
    requires forall c :: c in s ==> IsDigit(c)
  {
    if s == "" then 0
    else ParseDecimal(s[..|s| - 1]) * 10 + DigitValue(s[|s| - 1])
  }

  lemma {:induction false} DecimalRoundTrip(n: nat)
    ensures ParseDecimal(Decimal(n)) == n
  {
    var s := Decimal(n);
    if n < 10 {
      assert s[..0] == "";
    } else {
      DecimalRoundTrip(n / 10);
      assert s[..|s| - 1] == Decimal(n / 10);
    }
  }
}
