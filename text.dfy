/** The few Python `str` operations the throttle relies on: `split(sep)`,
    `split()`, `strip()`, `''.join(...)` and `int(...)` on a decimal string. */
module Text {
  import opened Base

  /** Python's `str.isspace()` character set. */
  predicate IsSpace(c: char) {
    c == ' ' || ('\t' <= c <= '\r') || ('\U{1c}' <= c <= '\U{1f}') ||
    c == '\U{85}' || c == '\U{a0}' || c == '\U{1680}' ||
    ('\U{2000}' <= c <= '\U{200a}') || c == '\U{2028}' || c == '\U{2029}' ||
    c == '\U{202f}' || c == '\U{205f}' || c == '\U{3000}'
  }

  predicate AllSpace(s: string) {
    forall i :: 0 <= i < |s| ==> IsSpace(s[i])
  }

  predicate NoSpace(s: string) {
    forall i :: 0 <= i < |s| ==> !IsSpace(s[i])
  }

  // ---------------------------------------------------------------------------
  // str.split(sep)

  /** `s.split(sep)` for a one-character separator: the pieces between
      consecutive separators, empty pieces included. */
  function Split(s: string, sep: char): (parts: seq<string>)
    ensures |parts| > 0
  {
    if s == [] then [[]]
    else
      var rest := Split(s[1..], sep);
      if s[0] == sep then [[]] + rest
      else [[s[0]] + rest[0]] + rest[1..]
  }

  /** `sep.join(parts)`. */
  function Join(parts: seq<string>, sep: char): string {
    if |parts| == 0 then []
    else if |parts| == 1 then parts[0]
    else parts[0] + [sep] + Join(parts[1..], sep)
  }

  /** How many times `c` occurs in `s`. */
  function Occurrences(s: string, c: char): nat {
    if s == [] then 0 else (if s[0] == c then 1 else 0) + Occurrences(s[1..], c)
  }

  /** Joining the pieces with the separator gives the string back. */
  lemma {:induction false} SplitJoin(s: string, sep: char)
    ensures Join(Split(s, sep), sep) == s
  {
    if s != [] {
      SplitJoin(s[1..], sep);
      var rest := Split(s[1..], sep);
      if s[0] == sep {
        assert Join([[]] + rest, sep) == [sep] + Join(rest, sep) by {
          assert ([[]] + rest)[1..] == rest;
        }
      } else {
        JoinExtendFirst(s[0], rest, sep);
      }
      assert s == [s[0]] + s[1..];
    }
  }

  /** Putting `c` in front of the first piece puts it in front of the join. */
  lemma JoinExtendFirst(c: char, parts: seq<string>, sep: char)
    requires |parts| > 0
    ensures Join([[c] + parts[0]] + parts[1..], sep) == [c] + Join(parts, sep)
  {
    var q := [[c] + parts[0]] + parts[1..];
    if |parts| > 1 {
      assert q[1..] == parts[1..];
    }
  }

  /** No piece contains the separator: `Split` cuts at every separator. */
  lemma {:induction false} SplitPiecesLackSeparator(s: string, sep: char)
    ensures forall i :: 0 <= i < |Split(s, sep)| ==> sep !in Split(s, sep)[i]
  {
    if s != [] {
      SplitPiecesLackSeparator(s[1..], sep);
      var rest := Split(s[1..], sep);
      var parts := Split(s, sep);
      forall i | 0 <= i < |parts| ensures sep !in parts[i] {
        if s[0] == sep {
          if i > 0 { assert parts[i] == rest[i - 1]; }
        } else if i == 0 {
          assert parts[0] == [s[0]] + rest[0];
          assert sep !in rest[0];
        } else {
          assert parts[i] == rest[i];
        }
      }
    }
  }

  /** There is one more piece than there are separators. */
  lemma {:induction false} SplitCount(s: string, sep: char)
    ensures |Split(s, sep)| == Occurrences(s, sep) + 1
  {
    if s != [] {
      SplitCount(s[1..], sep);
    }
  }

  /** Splitting `a + [sep] + b` where `a` has no separator puts `a` first. */
  lemma {:induction false} SplitAfterPiece(a: string, sep: char, b: string)
    requires sep !in a
    ensures Split(a + [sep] + b, sep) == [a] + Split(b, sep)
  {
    if a == [] {
      assert a + [sep] + b == [sep] + b;
      assert ([sep] + b)[1..] == b;
    } else {
      assert (a + [sep] + b)[1..] == a[1..] + [sep] + b;
      assert a == [a[0]] + a[1..];
      SplitAfterPiece(a[1..], sep, b);
    }
  }

  /** A string without the separator is a single piece. */
  lemma {:induction false} SplitWhole(s: string, sep: char)
    requires sep !in s
    ensures Split(s, sep) == [s]
  {
    if s != [] {
      assert s == [s[0]] + s[1..];
      SplitWhole(s[1..], sep);
    }
  }

  // ---------------------------------------------------------------------------
  // str.strip()

  /** The number of leading whitespace characters of `s`. */
  function LeadingSpace(s: string): (k: nat)
    ensures k <= |s| && (k < |s| ==> !IsSpace(s[k]))
  {
    if s != [] && IsSpace(s[0]) then 1 + LeadingSpace(s[1..]) else 0
  }

  /** Where the trailing whitespace of `s` begins. */
  function TrailingSpace(s: string): (k: nat)
    ensures k <= |s| && (k > 0 ==> !IsSpace(s[k - 1]))
  {
    if s != [] && IsSpace(s[|s| - 1]) then TrailingSpace(s[..|s| - 1]) else |s|
  }

  /** `s.lstrip()`. */
  function StripLeft(s: string): string {
    s[LeadingSpace(s)..]
  }

  /** `s.rstrip()`. */
  function StripRight(s: string): string {
    s[..TrailingSpace(s)]
  }

  /** What `StripLeft` removes is whitespace. */
  lemma {:induction false} LeadingSpaceIsSpace(s: string)
    ensures AllSpace(s[..LeadingSpace(s)])
  {
    if s != [] && IsSpace(s[0]) {
      LeadingSpaceIsSpace(s[1..]);
      var k := LeadingSpace(s);
      assert s[..k] == [s[0]] + s[1..][..k - 1];
    }
  }

  /** What `StripRight` removes is whitespace. */
  lemma {:induction false} TrailingSpaceIsSpace(s: string)
    ensures AllSpace(s[TrailingSpace(s)..])
  {
    if s != [] && IsSpace(s[|s| - 1]) {
      TrailingSpaceIsSpace(s[..|s| - 1]);
      var k := TrailingSpace(s);
      assert s[k..] == s[..|s| - 1][k..] + [s[|s| - 1]];
    }
  }

  /** `s.strip()`: `s` without its leading and trailing whitespace. */
  function Strip(s: string): (r: string)
    ensures r == [] || (!IsSpace(r[0]) && !IsSpace(r[|r| - 1]))
  {
    StripRight(StripLeft(s))
  }

  /** What `Strip` removes is whitespace, and what it keeps is a contiguous
      piece of the input. */
  lemma StripInfix(s: string)
    ensures exists i, j :: 0 <= i <= j <= |s| && Strip(s) == s[i..j] && AllSpace(s[..i]) && AllSpace(s[j..])
  {
    var i := LeadingSpace(s);
    var t := s[i..];
    var j := i + TrailingSpace(t);
    LeadingSpaceIsSpace(s);
    TrailingSpaceIsSpace(t);
    assert Strip(s) == s[i..j];
    assert s[j..] == t[TrailingSpace(t)..];
  }

  /** A string that neither starts nor ends with whitespace is its own strip. */
  lemma StripUnchanged(s: string)
    requires s == [] || (!IsSpace(s[0]) && !IsSpace(s[|s| - 1]))
    ensures Strip(s) == s
  {
  }

  // ---------------------------------------------------------------------------
  // str.split() and ''.join(...)

  /** The leading run of non-whitespace characters of `s`. */
  function Word(s: string): (w: string)
    ensures |w| <= |s| && w == s[..|w|] && NoSpace(w)
    ensures |w| < |s| ==> IsSpace(s[|w|])
  {
    if s == [] || IsSpace(s[0]) then [] else [s[0]] + Word(s[1..])
  }

  /** `s.split()`: the maximal runs of non-whitespace characters, in order. */
  function SplitSpace(s: string): (words: seq<string>)
    decreases |s|
  {
    var t := StripLeft(s);
    if t == [] then []
    else
      var w := Word(t);
      [w] + SplitSpace(t[|w|..])
  }

  /** `''.join(parts)`. */
  function Concat(parts: seq<string>): string {
    if parts == [] then [] else parts[0] + Concat(parts[1..])
  }

  /** `s` with every whitespace character removed. */
  function RemoveSpace(s: string): (r: string) {
    if s == [] then [] else (if IsSpace(s[0]) then [] else [s[0]]) + RemoveSpace(s[1..])
  }

  lemma {:induction false} RemoveSpaceAppend(a: string, b: string)
    ensures RemoveSpace(a + b) == RemoveSpace(a) + RemoveSpace(b)
  {
    if a == [] {
      assert a + b == b;
    } else {
      var head: string := if IsSpace(a[0]) then [] else [a[0]];
      assert (a + b)[0] == a[0];
      assert (a + b)[1..] == a[1..] + b;
      RemoveSpaceAppend(a[1..], b);
      calc {
        RemoveSpace(a + b);
        head + RemoveSpace(a[1..] + b);
        head + (RemoveSpace(a[1..]) + RemoveSpace(b));
        (head + RemoveSpace(a[1..])) + RemoveSpace(b);
        RemoveSpace(a) + RemoveSpace(b);
      }
    }
  }

  lemma {:induction false} RemoveSpaceOfSpace(s: string)
    requires AllSpace(s)
    ensures RemoveSpace(s) == []
  {
    if s != [] {
      RemoveSpaceOfSpace(s[1..]);
    }
  }

  lemma {:induction false} RemoveSpaceOfWord(s: string)
    requires NoSpace(s)
    ensures RemoveSpace(s) == s
  {
    if s != [] {
      RemoveSpaceOfWord(s[1..]);
    }
  }

  lemma StripLeftRemoveSpace(s: string)
    ensures RemoveSpace(s) == RemoveSpace(StripLeft(s))
  {
    var t := StripLeft(s);
    var lead := s[..LeadingSpace(s)];
    LeadingSpaceIsSpace(s);
    assert s == lead + t;
    RemoveSpaceAppend(lead, t);
    RemoveSpaceOfSpace(lead);
  }

  lemma WordRemoveSpace(t: string)
    ensures RemoveSpace(t) == Word(t) + RemoveSpace(t[|Word(t)|..])
  {
    var w := Word(t);
    assert t == w + t[|w|..];
    RemoveSpaceAppend(w, t[|w|..]);
    RemoveSpaceOfWord(w);
  }

  /** `''.join(s.split())` is `s` with all whitespace removed. */
  lemma {:induction false} JoinSplitSpace(s: string)
    ensures Concat(SplitSpace(s)) == RemoveSpace(s)
    decreases |s|
  {
    var t := StripLeft(s);
    StripLeftRemoveSpace(s);
    if t != [] {
      var w := Word(t);
      var rest := t[|w|..];
      WordRemoveSpace(t);
      JoinSplitSpace(rest);
      var words := SplitSpace(s);
      assert words == [w] + SplitSpace(rest);
      assert words[1..] == SplitSpace(rest);
    }
  }

  /** Every word of `s.split()` is non-empty and free of whitespace. */
  lemma {:induction false} SplitSpaceWords(s: string)
    ensures forall i :: 0 <= i < |SplitSpace(s)| ==> SplitSpace(s)[i] != [] && NoSpace(SplitSpace(s)[i])
    decreases |s|
  {
    var t := StripLeft(s);
    if t != [] {
      var w := Word(t);
      var rest := t[|w|..];
      SplitSpaceWords(rest);
      var words := SplitSpace(s);
      assert words == [w] + SplitSpace(rest);
      forall i | 0 <= i < |words| ensures words[i] != [] && NoSpace(words[i]) {
        if i > 0 { assert words[i] == SplitSpace(rest)[i - 1]; }
      }
    }
  }

  // ---------------------------------------------------------------------------
  // int(s) and str(n), base 10

  predicate IsDigit(c: char) { '0' <= c <= '9' }

  function DigitValue(c: char): nat
    requires IsDigit(c)
  {
    (c as int - '0' as int) as nat
  }

  function DigitChar(d: nat): (c: char)
    requires d < 10
    ensures IsDigit(c) && DigitValue(c) == d
  {
    ('0' as int + d) as char
  }

  /** The body Python's `int()` accepts after the sign: decimal digits, with
      single underscores allowed between two digits. */
  predicate DigitRun(s: string) {
    && |s| > 0
    && IsDigit(s[0])
    && (|s| == 1 || (s[1] == '_' && DigitRun(s[2..])) || DigitRun(s[1..]))
  }

  /** The number the digits of `s` denote; underscores are skipped. */
  function DigitsValue(s: string): nat {
    if s == [] then 0
    else if IsDigit(s[|s| - 1]) then 10 * DigitsValue(s[..|s| - 1]) + DigitValue(s[|s| - 1])
    else DigitsValue(s[..|s| - 1])
  }

  /** The whitespace `int()` skips around a number: the `isspace` set
      without the information separators U+001C..U+001F, which `int()`
      rejects although `str.strip` removes them. */
  predicate IsIntSpace(c: char) {
    IsSpace(c) && !('\U{1c}' <= c <= '\U{1f}')
  }

  /** `s` without the leading and trailing whitespace `int()` skips. */
  function IntStrip(s: string): (r: string)
    ensures r == [] || (!IsIntSpace(r[0]) && !IsIntSpace(r[|r| - 1]))
    // a first character `int()` does not skip is kept in front
    ensures s != [] && !IsIntSpace(s[0]) ==> r != [] && r[0] == s[0]
    decreases |s|
  {
    if s != [] && IsIntSpace(s[0]) then IntStrip(s[1..])
    else if s != [] && IsIntSpace(s[|s| - 1]) then IntStrip(s[..|s| - 1])
    else s
  }

  predicate AllIntSpace(s: string) {
    forall i :: 0 <= i < |s| ==> IsIntSpace(s[i])
  }

  /** The cut of `s` is the cut of its tail `t` shifted by one when `s`
      starts with `int()` whitespace. */
  lemma IntStripBoundsFront(s: string, t: string, i: nat, j: nat)
    requires s != [] && IsIntSpace(s[0]) && t == s[1..]
    requires i <= j <= |t| && IntStrip(t) == t[i..j]
    requires forall k :: 0 <= k < i ==> IsIntSpace(t[k])
    requires forall k :: j <= k < |t| ==> IsIntSpace(t[k])
    ensures IntStrip(s) == s[i + 1..j + 1]
    ensures forall k :: 0 <= k < i + 1 ==> IsIntSpace(s[k])
    ensures forall k :: j + 1 <= k < |s| ==> IsIntSpace(s[k])
  {
    assert IntStrip(s) == s[i + 1..j + 1] by {
      assert t[i..j] == s[i + 1..j + 1];
    }
    forall k | 0 <= k < |s| && (k < i + 1 || j + 1 <= k)
      ensures IsIntSpace(s[k])
    {
      if k > 0 {
        assert s[k] == t[k - 1];
      }
    }
  }

  /** The cut of `s` is the cut of `s` without its last character, `t`,
      when that character is `int()` whitespace and the first is not. */
  lemma IntStripBoundsBack(s: string, t: string, i: nat, j: nat)
    requires s != [] && !IsIntSpace(s[0]) && IsIntSpace(s[|s| - 1]) && t == s[..|s| - 1]
    requires i <= j <= |t| && IntStrip(t) == t[i..j]
    requires forall k :: 0 <= k < i ==> IsIntSpace(t[k])
    requires forall k :: j <= k < |t| ==> IsIntSpace(t[k])
    ensures IntStrip(s) == s[i..j]
    ensures forall k :: 0 <= k < i ==> IsIntSpace(s[k])
    ensures forall k :: j <= k < |s| ==> IsIntSpace(s[k])
  {
    assert IntStrip(s) == s[i..j] by {
      assert IntStrip(s) == IntStrip(t);
      assert t[i..j] == s[i..j];
    }
    forall k | 0 <= k < |s| && (k < i || j <= k)
      ensures IsIntSpace(s[k])
    {
      if k < |t| {
        assert s[k] == t[k];
      }
    }
  }

  /** Where `IntStrip` cuts `s`: only `int()` whitespace lies outside
      `s[i..j]`. */
  lemma {:induction false} IntStripBounds(s: string) returns (i: nat, j: nat)
    ensures i <= j <= |s| && IntStrip(s) == s[i..j]
    ensures forall k :: 0 <= k < i ==> IsIntSpace(s[k])
    ensures forall k :: j <= k < |s| ==> IsIntSpace(s[k])
    decreases |s|
  {
    if s != [] && IsIntSpace(s[0]) {
      var i', j' := IntStripBounds(s[1..]);
      IntStripBoundsFront(s, s[1..], i', j');
      i, j := i' + 1, j' + 1;
    } else if s != [] && IsIntSpace(s[|s| - 1]) {
      i, j := IntStripBounds(s[..|s| - 1]);
      IntStripBoundsBack(s, s[..|s| - 1], i, j);
    } else {
      i, j := 0, |s|;
      assert s[i..j] == s;
    }
  }

  /** What `IntStrip` removes is `int()` whitespace, and what it keeps is a
      contiguous piece of the input. */
  lemma IntStripInfix(s: string)
    ensures exists i, j :: && 0 <= i <= j <= |s| && IntStrip(s) == s[i..j]
                           && (forall k :: 0 <= k < i ==> IsIntSpace(s[k]))
                           && (forall k :: j <= k < |s| ==> IsIntSpace(s[k]))
  {
    var i, j := IntStripBounds(s);
  }

  lemma {:induction false} IntStripOfSpace(s: string)
    requires AllIntSpace(s)
    ensures IntStrip(s) == []
    decreases |s|
  {
    if s != [] {
      IntStripOfSpace(s[1..]);
    }
  }

  /** Leading `int()` whitespace does not change the strip. */
  lemma {:induction false} IntStripPrefix(a: string, x: string)
    requires AllIntSpace(a)
    ensures IntStrip(a + x) == IntStrip(x)
    decreases |a|
  {
    if a == [] {
      assert a + x == x;
    } else {
      assert (a + x)[0] == a[0];
      assert (a + x)[1..] == a[1..] + x;
      IntStripPrefix(a[1..], x);
    }
  }

  /** Trailing `int()` whitespace does not change the strip. */
  lemma {:induction false} IntStripSuffix(x: string, b: string)
    requires AllIntSpace(b)
    ensures IntStrip(x + b) == IntStrip(x)
    decreases |x| + |b|
  {
    if b == [] {
      assert x + b == x;
    } else if x == [] {
      assert x + b == b;
      IntStripOfSpace(b);
    } else if IsIntSpace(x[0]) {
      assert (x + b)[0] == x[0];
      assert (x + b)[1..] == x[1..] + b;
      IntStripSuffix(x[1..], b);
    } else {
      var n := |x + b|;
      assert (x + b)[0] == x[0];
      assert (x + b)[n - 1] == b[|b| - 1];
      assert (x + b)[..n - 1] == x + b[..|b| - 1];
      IntStripSuffix(x, b[..|b| - 1]);
    }
  }

  /** `int(s)`: surrounding whitespace is ignored, an optional `+` or `-`
      sign, then a digit run; `None` where Python raises `ValueError`. */
  function ParseInt(s: string): (r: Option<int>)
    // accepted exactly: after stripping, a digit run with an optional sign
    ensures r.Some? <==>
      var t := IntStrip(s);
      DigitRun(t) || (|t| > 0 && (t[0] == '+' || t[0] == '-') && DigitRun(t[1..]))
    // the sign decides the sign of the value
    ensures r.Some? && IntStrip(s)[0] == '-' ==> r.value <= 0
    ensures r.Some? && IntStrip(s)[0] != '-' ==> r.value >= 0
  {
    var t := IntStrip(s);
    if |t| > 0 && (t[0] == '+' || t[0] == '-') then
      if DigitRun(t[1..]) then
        var n: int := DigitsValue(t[1..]);
        Some(if t[0] == '-' then -n else n)
      else None
    else if DigitRun(t) then Some(DigitsValue(t))
    else None
  }

  /** A leading information separator makes `int()` fail, where `str.strip`
      would have removed it. */
  lemma ParseIntRejectsSeparator(c: char, d: string)
    requires '\U{1c}' <= c <= '\U{1f}'
    ensures Strip([c]) == []
    ensures ParseInt([c] + d) == None
  {
    var t := IntStrip([c] + d);
    assert t[0] == c;
  }

  /** A digit run ends in a digit. */
  lemma {:induction false} DigitRunEnds(d: string)
    requires DigitRun(d)
    ensures IsDigit(d[|d| - 1])
    decreases |d|
  {
    if |d| > 1 {
      if d[1] == '_' && DigitRun(d[2..]) {
        DigitRunEnds(d[2..]);
      } else {
        DigitRunEnds(d[1..]);
      }
    }
  }

  /** An unsigned digit run denotes its digits, underscores skipped:
      `int("010") == int("1_0") == 10`. */
  lemma ParseIntOfDigitRun(d: string)
    requires DigitRun(d)
    ensures ParseInt(d) == Some(DigitsValue(d))
  {
    DigitRunEnds(d);
    assert IntStrip(d) == d;
  }

  /** A string that neither starts nor ends with `int()` whitespace is its
      own `IntStrip`. */
  lemma IntStripUnchanged(s: string)
    requires s != [] && !IsIntSpace(s[0]) && !IsIntSpace(s[|s| - 1])
    ensures IntStrip(s) == s
  {
  }

  /** A sign followed by a digit run is its own `IntStrip`. */
  lemma SignedDigitRunUnchanged(sign: char, d: string)
    requires (sign == '+' || sign == '-') && DigitRun(d)
    ensures IntStrip([sign] + d) == [sign] + d && ([sign] + d)[1..] == d
  {
    DigitRunEnds(d);
    var s := [sign] + d;
    assert s[|s| - 1] == d[|d| - 1];
    IntStripUnchanged(s);
    assert s[1..] == d;
  }

  /** A `+` keeps the value of the digit run after it, a `-` negates it. */
  lemma ParseIntSigned(d: string)
    requires DigitRun(d)
    ensures ParseInt(['+'] + d) == Some(DigitsValue(d))
    ensures ParseInt(['-'] + d) == Some(-(DigitsValue(d) as int))
  {
    SignedDigitRunUnchanged('+', d);
    SignedDigitRunUnchanged('-', d);
  }

  /** `int()` whitespace around a string changes neither whether `int()`
      accepts it nor the value: `int(" 10 ") == int("10")`. */
  lemma ParseIntIgnoresPadding(a: string, s: string, b: string)
    requires AllIntSpace(a) && AllIntSpace(b)
    ensures ParseInt(a + s + b) == ParseInt(s)
  {
    assert a + s + b == a + (s + b);
    IntStripPrefix(a, s + b);
    IntStripSuffix(s, b);
  }

  /** `str(n)` for a natural number: its decimal digits, no leading zero. */
  function NatToString(n: nat): (s: string)
    ensures |s| > 0 && forall i :: 0 <= i < |s| ==> IsDigit(s[i])
    ensures s[0] == '0' ==> n == 0
  {
    if n < 10 then [DigitChar(n)] else NatToString(n / 10) + [DigitChar(n % 10)]
  }

  /** `str(n)`. */
  function IntToString(n: int): (s: string) {
    if n < 0 then ['-'] + NatToString(-n) else NatToString(n)
  }

  lemma {:induction false} NatToStringValue(n: nat)
    ensures DigitsValue(NatToString(n)) == n
  {
    if n >= 10 {
      NatToStringValue(n / 10);
      var s := NatToString(n);
      assert s[..|s| - 1] == NatToString(n / 10);
    }
  }

  lemma ParseIntToStringNegative(n: int)
    requires n < 0
    ensures ParseInt(IntToString(n)) == Some(n)
  {
    var d := NatToString(-n);
    assert DigitsValue(d) == -n by {
      NatToStringValue(-n);
    }
    assert DigitRun(d) by {
      DigitsHaveNoSpace(d);
    }
    ParseIntSigned(d);
  }

  /** `int(str(n)) == n`: the parser reads back every integer Python prints. */
  lemma {:induction false} ParseIntToString(n: int)
    ensures ParseInt(IntToString(n)) == Some(n)
  {
    if n < 0 {
      ParseIntToStringNegative(n);
    } else {
      NatToStringValue(n);
      DigitsHaveNoSpace(NatToString(n));
      ParseIntOfDigitRun(NatToString(n));
    }
  }

  lemma {:induction false} DigitsHaveNoSpace(d: string)
    requires |d| > 0 && forall i :: 0 <= i < |d| ==> IsDigit(d[i])
    ensures NoSpace(d) && DigitRun(d)
  {
    if |d| > 1 {
      DigitsHaveNoSpace(d[1..]);
    }
  }
}
