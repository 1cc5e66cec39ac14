/**
 * The Python string operations the pages rely on, over `string` (= `seq<char>`).
 * Whitespace, digits and case are the ASCII ones; Python's Unicode tables are
 * not modelled.
 */
module Text {

  /**
   * `c.isspace()` for ASCII: space, tab, newline, vertical tab, form feed,
   * carriage return, and the four separators `\x1c` to `\x1f`.
   */
  predicate IsSpace(c: char) {
    c == ' ' || '\t' <= c <= '\r' || '\U{001C}' <= c <= '\U{001F}'
  }

  /** `c.isdigit()` for ASCII. */
  predicate IsDigit(c: char) {
    '0' <= c <= '9'
  }

  predicate IsUpper(c: char) {
    'A' <= c <= 'Z'
  }

  /** Every character is whitespace, so `s.strip()` is empty (Python: `not s.strip()`). */
  predicate IsBlank(s: string) {
    forall i :: 0 <= i < |s| ==> IsSpace(s[i])
  }

  /** Neither end is whitespace, so `s.strip() == s`. */
  predicate IsTrimmed(s: string) {
    s == [] || (!IsSpace(s[0]) && !IsSpace(s[|s| - 1]))
  }

  predicate StartsWith(s: string, prefix: string) {
    |prefix| <= |s| && s[..|prefix|] == prefix
  }

  predicate EndsWith(s: string, suffix: string) {
    |suffix| <= |s| && s[|s| - |suffix|..] == suffix
  }

  /** Python's `sub in s` for strings. */
  predicate Contains(s: string, sub: string)
    decreases |s|
  {
    StartsWith(s, sub) || (|s| > 0 && Contains(s[1..], sub))
  }

  /** `s.lstrip()`. */
  function LStrip(s: string): (r: string)
    ensures |r| <= |s|
  {
    if |s| > 0 && IsSpace(s[0]) then LStrip(s[1..]) else s
  }

  /** `s.lstrip()` is the longest suffix of `s` that does not start with whitespace. */
  lemma {:induction false} LStripSpec(s: string)
    ensures var r := LStrip(s);
      r == s[|s| - |r|..] && (r == [] || !IsSpace(r[0])) && IsBlank(s[..|s| - |r|])
    decreases |s|
  {
    if |s| > 0 && IsSpace(s[0]) {
      LStripSpec(s[1..]);
      var r := LStrip(s[1..]);
      assert s[1..][..|s| - 1 - |r|] == s[1..|s| - |r|];
    }
  }

  /** `s.rstrip()`. */
  function RStrip(s: string): (r: string)
    ensures |r| <= |s|
  {
    if |s| > 0 && IsSpace(s[|s| - 1]) then RStrip(s[..|s| - 1]) else s
  }

  /** `s.rstrip()` is the longest prefix of `s` that does not end with whitespace. */
  lemma {:induction false} RStripSpec(s: string)
    ensures var r := RStrip(s);
      r == s[..|r|] && (r == [] || !IsSpace(r[|r| - 1])) && IsBlank(s[|r|..])
    decreases |s|
  {
    if |s| > 0 && IsSpace(s[|s| - 1]) {
      RStripSpec(s[..|s| - 1]);
      var r := RStrip(s[..|s| - 1]);
      assert s[..|s| - 1][|r|..] == s[|r|..|s| - 1];
    }
  }

  /** `s.strip()`. */
  function Strip(s: string): (r: string)
    ensures |r| <= |s|
  {
    RStrip(LStrip(s))
  }

  /**
   * `s.strip()` has no whitespace at either end, is empty exactly when `s` is
   * blank, leaves a trimmed string alone and takes its characters from `s`.
   */
  lemma StripSpec(s: string)
    ensures IsTrimmed(Strip(s))
    ensures Strip(s) == [] <==> IsBlank(s)
    ensures IsTrimmed(s) ==> Strip(s) == s
    ensures forall c :: c in Strip(s) ==> c in s
  {
    var l := LStrip(s);
    var r := RStrip(l);
    LStripSpec(s);
    RStripSpec(l);
    if r != [] {
      assert r[0] == l[0];
    }
    assert r == [] ==> IsBlank(s) by {
      if r == [] {
        assert l[|r|..] == l;
        assert s[..|s| - |l|] == s;
      }
    }
    assert IsBlank(s) ==> l == [];
    forall c | c in r ensures c in s {
      var i :| 0 <= i < |r| && r[i] == c;
      assert l[i] == c;
      assert s[|s| - |l| + i] == c;
    }
  }

  /** `s.lstrip(c)` for a single character `c`. */
  function LStripChar(s: string, c: char): (r: string)
    ensures |r| <= |s|
  {
    if |s| > 0 && s[0] == c then LStripChar(s[1..], c) else s
  }

  /** `s.lstrip(c)` drops exactly the leading run of `c`. */
  lemma {:induction false} LStripCharSpec(s: string, c: char)
    ensures var r := LStripChar(s, c);
      r == s[|s| - |r|..] && (r == [] || r[0] != c) && forall i :: 0 <= i < |s| - |r| ==> s[i] == c
    decreases |s|
  {
    if |s| > 0 && s[0] == c {
      LStripCharSpec(s[1..], c);
    }
  }

  /** `s.rstrip(c)` for a single character `c`. */
  function RStripChar(s: string, c: char): (r: string)
    ensures |r| <= |s|
  {
    if |s| > 0 && s[|s| - 1] == c then RStripChar(s[..|s| - 1], c) else s
  }

  /** `s.rstrip(c)` drops exactly the trailing run of `c`. */
  lemma {:induction false} RStripCharSpec(s: string, c: char)
    ensures var r := RStripChar(s, c);
      r == s[..|r|] && (r == [] || r[|r| - 1] != c) && forall i :: |r| <= i < |s| ==> s[i] == c
    decreases |s|
  {
    if |s| > 0 && s[|s| - 1] == c {
      RStripCharSpec(s[..|s| - 1], c);
    }
  }

  function LowerChar(c: char): char {
    if IsUpper(c) then (c as int + 32) as char else c
  }

  /** `s.lower()` for ASCII letters. */
  function Lower(s: string): (r: string)
    ensures |r| == |s| && forall i :: 0 <= i < |s| ==> r[i] == LowerChar(s[i])
  {
    seq(|s|, i requires 0 <= i < |s| => LowerChar(s[i]))
  }

  /** `s.replace(a, b)` for single characters. */
  function ReplaceChar(s: string, a: char, b: char): (r: string)
    ensures |r| == |s| && forall i :: 0 <= i < |s| ==> r[i] == (if s[i] == a then b else s[i])
  {
    seq(|s|, i requires 0 <= i < |s| => if s[i] == a then b else s[i])
  }

  /** `c * n` for a one-character string. */
  function Repeat(c: char, n: nat): (r: string)
    ensures |r| == n && forall i :: 0 <= i < n ==> r[i] == c
  {
    seq(n, i => c)
  }

  /** `s.count(c)` for a single character `c`. */
  function CountChar(s: string, c: char): nat {
    if s == [] then 0
    else CountChar(s[..|s| - 1], c) + (if s[|s| - 1] == c then 1 else 0)
  }

  lemma {:induction false} CountCharConcat(a: string, b: string, c: char)
    ensures CountChar(a + b, c) == CountChar(a, c) + CountChar(b, c)
    decreases |b|
  {
    if b != [] {
      var b' := b[..|b| - 1];
      assert (a + b)[..|a + b| - 1] == a + b';
      CountCharConcat(a, b', c);
    } else {
      assert a + b == a;
    }
  }

  lemma {:induction false} CountCharAbsent(s: string, c: char)
    requires c !in s
    ensures CountChar(s, c) == 0
    decreases |s|
  {
    if s != [] {
      assert s[|s| - 1] in s;
      CountCharAbsent(s[..|s| - 1], c);
    }
  }

  /** A string with a single `c` counts one. */
  lemma CountCharOne(a: string, b: string, c: char)
    requires c !in a && c !in b
    ensures CountChar(a + [c] + b, c) == 1
  {
    CountCharConcat(a + [c], b, c);
    CountCharConcat(a, [c], c);
    CountCharAbsent(a, c);
    CountCharAbsent(b, c);
    assert [c][..0] == [];
  }

  /** `sep.join(parts)`. */
  function Join(sep: string, parts: seq<string>): string {
    if |parts| == 0 then ""
    else if |parts| == 1 then parts[0]
    else Join(sep, parts[..|parts| - 1]) + sep + parts[|parts| - 1]
  }

  /** Joining two non-empty lists puts one separator between their joins. */
  lemma {:induction false} JoinAppend(sep: string, a: seq<string>, b: seq<string>)
    requires |a| >= 1 && |b| >= 1
    ensures Join(sep, a + b) == Join(sep, a) + sep + Join(sep, b)
    decreases |b|
  {
    var ab := a + b;
    if |b| == 1 {
      assert ab[..|ab| - 1] == a;
    } else {
      var b' := b[..|b| - 1];
      JoinAppend(sep, a, b');
      assert ab[..|ab| - 1] == a + b';
    }
  }

  /** `s.split(c)` for a single-character separator: always at least one part. */
  function Split(s: string, c: char): (parts: seq<string>)
    ensures |parts| >= 1
  {
    if |s| == 0 then [""] else SplitStep(Split(s[..|s| - 1], c), s[|s| - 1], c)
  }

  /** How `Split` extends its parts by one more character `x`. */
  function SplitStep(prev: seq<string>, x: char, c: char): (parts: seq<string>)
    requires |prev| >= 1
    ensures |parts| >= 1
  {
    if x == c then prev + [""] else prev[..|prev| - 1] + [prev[|prev| - 1] + [x]]
  }

  /** The text before the first `c` (all of `s` if there is none). */
  function TakeUntil(s: string, c: char): (r: string)
    ensures StartsWith(s, r) && c !in r
    ensures |r| < |s| ==> s[|r|] == c
  {
    if s == [] || s[0] == c then []
    else
      var r := TakeUntil(s[1..], c);
      assert s[..|r| + 1] == [s[0]] + s[1..][..|r|];
      [s[0]] + r
  }

  /** Joining the parts of a split with the separator gives back the string. */
  lemma {:induction false} JoinSplit(s: string, c: char)
    ensures Join([c], Split(s, c)) == s
    decreases |s|
  {
    if |s| > 0 {
      var s' := s[..|s| - 1];
      var prev := Split(s', c);
      var x := s[|s| - 1];
      assert s == s' + [x];
      JoinSplit(s', c);
      assert Join([c], prev) == s';
      assert Split(s, c) == SplitStep(prev, x, c);
      if x == c {
        JoinEmptyLast([c], prev);
        assert Join([c], SplitStep(prev, x, c)) == s' + [c];
      } else {
        JoinExtendLast([c], prev, x);
        assert Join([c], SplitStep(prev, x, c)) == s' + [x];
      }
    }
  }

  /** An empty last part adds one separator to the join. */
  lemma JoinEmptyLast(sep: string, prev: seq<string>)
    requires |prev| >= 1
    ensures Join(sep, prev + [""]) == Join(sep, prev) + sep
  {
    assert (prev + [""])[..|prev|] == prev;
  }

  /** Extending the last part extends the join. */
  lemma JoinExtendLast(sep: string, prev: seq<string>, x: char)
    requires |prev| >= 1
    ensures Join(sep, prev[..|prev| - 1] + [prev[|prev| - 1] + [x]]) == Join(sep, prev) + [x]
  {
    var p := prev[..|prev| - 1] + [prev[|prev| - 1] + [x]];
    assert p[..|p| - 1] == prev[..|prev| - 1];
  }

  /** No part of a split contains the separator. */
  lemma {:induction false} SplitPartsFree(s: string, c: char)
    ensures forall i :: 0 <= i < |Split(s, c)| ==> c !in Split(s, c)[i]
    decreases |s|
  {
    if |s| > 0 {
      SplitPartsFree(s[..|s| - 1], c);
    }
  }

  /** Every character of every part of a split occurs in the string. */
  lemma {:induction false} SplitPartsFrom(s: string, c: char)
    ensures forall i, d :: 0 <= i < |Split(s, c)| && d in Split(s, c)[i] ==> d in s
    decreases |s|
  {
    if |s| > 0 {
      var s' := s[..|s| - 1];
      SplitPartsFrom(s', c);
      assert forall d :: d in s' ==> d in s;
    }
  }

  /** A string without the separator splits into itself. */
  lemma {:induction false} SplitAbsent(s: string, c: char)
    requires c !in s
    ensures Split(s, c) == [s]
    decreases |s|
  {
    if |s| > 0 {
      var s' := s[..|s| - 1];
      assert c !in s' by { assert forall d :: d in s' ==> d in s; }
      SplitAbsent(s', c);
      assert s == s' + [s[|s| - 1]];
    }
  }

  /** One step of `Split`: appending a character to the string. */
  lemma SplitSnoc(s: string, x: char, c: char)
    ensures Split(s + [x], c) == SplitStep(Split(s, c), x, c)
  {
    assert (s + [x])[..|s|] == s;
  }

  /** Splitting distributes over a separator occurrence. */
  lemma {:induction false} SplitAround(a: string, b: string, c: char)
    ensures Split(a + [c] + b, c) == Split(a, c) + Split(b, c)
    decreases |b|
  {
    if |b| == 0 {
      assert a + [c] + b == a + [c];
      SplitSnoc(a, c, c);
    } else {
      var b' := b[..|b| - 1];
      var x := b[|b| - 1];
      SplitAround(a, b', c);
      SplitAroundStep(a, b', x, c);
      assert b' + [x] == b;
    }
  }

  lemma SplitAroundStep(a: string, b': string, x: char, c: char)
    requires Split(a + [c] + b', c) == Split(a, c) + Split(b', c)
    ensures Split(a + [c] + (b' + [x]), c) == Split(a, c) + Split(b' + [x], c)
  {
    var w := a + [c] + b';
    var pa, pb := Split(a, c), Split(b', c);
    assert Split(a + [c] + (b' + [x]), c) == SplitStep(pa + pb, x, c) by {
      assert a + [c] + (b' + [x]) == w + [x];
      SplitSnoc(w, x, c);
    }
    assert SplitStep(pa + pb, x, c) == pa + SplitStep(pb, x, c) by {
      ExtendLast(pa, pb, x, c);
    }
    SplitSnoc(b', x, c);
  }

  lemma ExtendLast(pa: seq<string>, pb: seq<string>, x: char, c: char)
    requires |pb| >= 1
    ensures SplitStep(pa + pb, x, c) == pa + SplitStep(pb, x, c)
  {
    var prev := pa + pb;
    assert prev[..|prev| - 1] == pa + pb[..|pb| - 1];
  }

  /** Splitting a join of separator-free parts gives back the parts. */
  lemma {:induction false} SplitJoin(parts: seq<string>, c: char)
    requires |parts| >= 1
    requires forall i :: 0 <= i < |parts| ==> c !in parts[i]
    ensures Split(Join([c], parts), c) == parts
    decreases |parts|
  {
    if |parts| == 1 {
      SplitAbsent(parts[0], c);
    } else {
      var pre := parts[..|parts| - 1];
      var last := parts[|parts| - 1];
      SplitJoin(pre, c);
      SplitAround(Join([c], pre), last, c);
      SplitAbsent(last, c);
      assert Join([c], parts) == Join([c], pre) + [c] + last;
      assert pre + [last] == parts;
    }
  }

  /** `s.split(c)[0]` is the text before the first `c`. */
  lemma SplitHead(s: string, c: char)
    ensures Split(s, c)[0] == TakeUntil(s, c)
  {
    var t := TakeUntil(s, c);
    if |t| < |s| {
      var rest := s[|t| + 1..];
      assert s == t + [c] + rest;
      SplitAround(t, rest, c);
      SplitAbsent(t, c);
    } else {
      assert s == t;
      SplitAbsent(s, c);
    }
  }

  /** The substring search finds a string placed between two others. */
  lemma {:induction false} ContainsMiddle(a: string, b: string, c: string)
    ensures Contains(a + b + c, b)
    decreases |a|
  {
    if a == [] {
      assert (a + b + c)[..|b|] == b;
    } else {
      assert (a + b + c)[1..] == a[1..] + b + c;
      ContainsMiddle(a[1..], b, c);
    }
  }

  lemma {:induction false} ContainsAfter(a: string, b: string, sub: string)
    requires Contains(b, sub)
    ensures Contains(a + b, sub)
    decreases |a|
  {
    if a != [] {
      assert (a + b)[1..] == a[1..] + b;
      ContainsAfter(a[1..], b, sub);
    } else {
      assert a + b == b;
    }
  }

  function DigitChar(d: nat): char
    requires d < 10
  {
    ('0' as int + d) as char
  }

  /** `str(n)` for a non-negative integer: its decimal digits. */
  function NatToString(n: nat): (r: string)
    ensures |r| >= 1 && forall i :: 0 <= i < |r| ==> IsDigit(r[i])
  {
    if n < 10 then [DigitChar(n)] else NatToString(n / 10) + [DigitChar(n % 10)]
  }

  /** Different numbers have different decimal forms. */
  lemma {:induction false} NatToStringInjective(a: nat, b: nat)
    requires NatToString(a) == NatToString(b)
    ensures a == b
    decreases a
  {
    var sa, sb := NatToString(a), NatToString(b);
    if a >= 10 && b >= 10 {
      assert sa[..|sa| - 1] == NatToString(a / 10);
      assert sb[..|sb| - 1] == NatToString(b / 10);
      NatToStringInjective(a / 10, b / 10);
      assert DigitChar(a % 10) == sa[|sa| - 1] == DigitChar(b % 10);
    } else if a < 10 && b < 10 {
      assert DigitChar(a) == sa[0] == DigitChar(b);
    }
  }

  /** The text before the first `c` of `a + b`, when `a` has no `c` and `b` starts with one, is `a`. */
  lemma TakeUntilPrefix(a: string, b: string, c: char)
    requires c !in a && b != [] && b[0] == c
    ensures TakeUntil(a + b, c) == a
  {
    assert (a + b)[..|a|] == a;
  }

  /** Left-trimming skips a blank prefix and stops at the first non-space character. */
  lemma {:induction false} LStripBlankPrefix(a: string, s: string)
    requires IsBlank(a) && (s == [] || !IsSpace(s[0]))
    ensures LStrip(a + s) == s
    decreases |a|
  {
    if a == [] {
      assert a + s == s;
    } else {
      assert (a + s)[1..] == a[1..] + s;
      LStripBlankPrefix(a[1..], s);
    }
  }

  /** Right-trimming drops a blank suffix and stops at the last non-space character. */
  lemma {:induction false} RStripBlankSuffix(s: string, b: string)
    requires IsBlank(b) && (s == [] || !IsSpace(s[|s| - 1]))
    ensures RStrip(s + b) == s
    decreases |b|
  {
    if b == [] {
      assert s + b == s;
    } else {
      var b' := b[..|b| - 1];
      assert (s + b)[..|s + b| - 1] == s + b';
      RStripBlankSuffix(s, b');
    }
  }

  /** Trimming a trimmed text padded with whitespace gives back the text. */
  lemma StripPadded(a: string, h: string, b: string)
    requires IsBlank(a) && IsBlank(b) && IsTrimmed(h)
    ensures Strip(a + h + b) == h
  {
    if h == [] {
      assert a + h + b == a + b;
      LStripBlankPrefix(a + b, []);
      assert (a + b) + [] == a + b;
      assert RStrip([]) == [];
    } else {
      assert a + h + b == a + (h + b);
      LStripBlankPrefix(a, h + b);
      RStripBlankSuffix(h, b);
    }
  }

  /** Right-trimming keeps a prefix that ends with a non-space character. */
  lemma RStripKeepsPrefix(h: string, rest: string)
    requires h != [] && !IsSpace(h[|h| - 1])
    ensures StartsWith(RStrip(h + rest), h)
  {
    var s := h + rest;
    RStripSpec(s);
    var r := RStrip(s);
    if |r| < |h| {
      assert false;
    }
    assert r[..|h|] == s[..|h|];
  }

  lemma StartsWithConcat(a: string, b: string)
    ensures StartsWith(a + b, a)
  {
    assert (a + b)[..|a|] == a;
  }
}
