/**
 * String helpers with PHP's semantics: `empty()`, `trim()`, `strtolower()`,
 * `explode('/')`/`implode('/')`, single-pass `str_replace('..', '', …)` and
 * decimal conversion of integers.
 */
module Text {

  /** PHP_INT_MAX on a 64-bit build; `(int)` of a longer digit string saturates here. */
  const IntMax: nat := 0x7FFF_FFFF_FFFF_FFFF

  predicate IsDigit(c: char) { '0' <= c <= '9' }

  predicate AllDigits(s: string) { forall i :: 0 <= i < |s| ==> IsDigit(s[i]) }

  /** `empty($s)` for a string: only "" and "0" are empty. */
  predicate PhpEmpty(s: string) { s == "" || s == "0" }

  /** The characters PHP's `trim()` strips by default. */
  const Whitespace: set<char> := {' ', '\t', '\n', '\r', '\0', '\U{0B}'}

  function TrimLeft(s: string, cs: set<char>): string
  {
    if s != [] && s[0] in cs then TrimLeft(s[1..], cs) else s
  }

  function TrimRight(s: string, cs: set<char>): string
  {
    if s != [] && s[|s| - 1] in cs then TrimRight(s[..|s| - 1], cs) else s
  }

  /** `trim($s, $chars)`: strips the characters of `cs` from both ends. */
  function Trim(s: string, cs: set<char>): string
  {
    TrimRight(TrimLeft(s, cs), cs)
  }

  /** `ltrim` keeps a suffix that does not start with a stripped character, and drops only stripped ones. */
  lemma {:induction false} TrimLeftSuffix(s: string, cs: set<char>)
    ensures var r := TrimLeft(s, cs);
      |r| <= |s| && r == s[|s| - |r|..] && (r == [] || r[0] !in cs)
    ensures forall i :: 0 <= i < |s| - |TrimLeft(s, cs)| ==> s[i] in cs
  {
    if s != [] && s[0] in cs {
      var t := s[1..];
      TrimLeftSuffix(t, cs);
      var r := TrimLeft(t, cs);
      assert TrimLeft(s, cs) == r;
      assert t[|t| - |r|..] == s[|s| - |r|..];
      forall i | 0 <= i < |s| - |r|
        ensures s[i] in cs
      {
        if i > 0 {
          assert s[i] == t[i - 1];
        }
      }
    }
  }

  /** `rtrim` keeps a prefix that does not end in a stripped character, and drops only stripped ones. */
  lemma {:induction false} TrimRightPrefix(s: string, cs: set<char>)
    ensures var r := TrimRight(s, cs);
      |r| <= |s| && r == s[..|r|] && (r == [] || r[|r| - 1] !in cs)
    ensures forall i :: |TrimRight(s, cs)| <= i < |s| ==> s[i] in cs
  {
    if s != [] && s[|s| - 1] in cs {
      TrimRightPrefix(s[..|s| - 1], cs);
    }
  }

  /** Neither end of a trimmed string is a stripped character. */
  lemma TrimEnds(s: string, cs: set<char>)
    ensures var r := Trim(s, cs); r == [] || (r[0] !in cs && r[|r| - 1] !in cs)
  {
    var l := TrimLeft(s, cs);
    TrimLeftSuffix(s, cs);
    TrimRightPrefix(l, cs);
  }

  /** What `trim` keeps is one piece of the input, starting after the stripped head. */
  lemma TrimSubstring(s: string, cs: set<char>)
    ensures |TrimLeft(s, cs)| <= |s|
    ensures var i := |s| - |TrimLeft(s, cs)|; var r := Trim(s, cs);
      i + |r| <= |s| && r == s[i..i + |r|]
  {
    var l := TrimLeft(s, cs);
    var r := TrimRight(l, cs);
    TrimLeftSuffix(s, cs);
    TrimRightPrefix(l, cs);
    assert r == s[|s| - |l|..][..|r|];
  }

  /** ASCII `strtolower` (PHP 8 lowercases A-Z only). */
  function Lower(c: char): char
  {
    if 'A' <= c <= 'Z' then (c as int + 32) as char else c
  }

  function ToLower(s: string): (r: string)
    ensures |r| == |s| && forall i :: 0 <= i < |s| ==> r[i] == Lower(s[i])
  {
    if s == [] then [] else [Lower(s[0])] + ToLower(s[1..])
  }

  /** `explode('/', $s)`: the pieces between slashes, "" pieces included. */
  function Split(s: string): (parts: seq<string>)
    ensures |parts| >= 1
    ensures forall i :: 0 <= i < |parts| ==> '/' !in parts[i]
  {
    if s == [] then [""] else SplitStep(s[0], Split(s[1..]))
  }

  /** What one more character in front does to the pieces of the rest. */
  function SplitStep(c: char, rest: seq<string>): (parts: seq<string>)
    requires |rest| >= 1
    ensures |parts| >= 1
    ensures (forall i :: 0 <= i < |rest| ==> '/' !in rest[i]) ==> forall i :: 0 <= i < |parts| ==> '/' !in parts[i]
  {
    if c == '/' then [""] + rest else [[c] + rest[0]] + rest[1..]
  }

  /** `implode('/', $parts)`. */
  function Join(parts: seq<string>): string
  {
    if |parts| == 0 then ""
    else if |parts| == 1 then parts[0]
    else parts[0] + "/" + Join(parts[1..])
  }

  lemma {:induction false} JoinSplit(s: string)
    ensures Join(Split(s)) == s
  {
    if s != [] {
      JoinSplit(s[1..]);
      var rest := Split(s[1..]);
      if s[0] == '/' {
        assert s == "/" + s[1..];
      } else if |rest| == 1 {
        assert s == [s[0]] + s[1..];
      } else {
        assert Join(rest) == rest[0] + "/" + Join(rest[1..]);
        assert s == [s[0]] + s[1..];
      }
    }
  }

  /** Splitting a string glued with a slash splits each side. */
  lemma {:induction false} SplitConcat(a: string, b: string)
    ensures Split(a + "/" + b) == Split(a) + Split(b)
  {
    if a == [] {
      var x := a + "/" + b;
      assert x[0] == '/' && x[1..] == b;
    } else {
      SplitConcat(a[1..], b);
      SplitConcatStep(a, b);
    }
  }

  /** The step of SplitConcat: one more character in front of `a`. */
  lemma SplitConcatStep(a: string, b: string)
    requires a != []
    requires Split(a[1..] + "/" + b) == Split(a[1..]) + Split(b)
    ensures Split(a + "/" + b) == Split(a) + Split(b)
  {
    var t := a[1..] + "/" + b;
    var x := a + "/" + b;
    assert x[0] == a[0] && x[1..] == t;
    StepConcat(a[0], Split(a[1..]), Split(b));
  }

  lemma StepConcat(c: char, left: seq<string>, right: seq<string>)
    requires |left| >= 1
    ensures SplitStep(c, left + right) == SplitStep(c, left) + right
  {
    if c != '/' {
      assert (left + right)[0] == left[0];
      assert (left + right)[1..] == left[1..] + right;
    }
  }

  /** The first piece of a split is a prefix of the string. */
  lemma {:induction false} SplitHeadPrefix(s: string)
    ensures Split(s)[0] <= s
  {
    if s != [] && s[0] != '/' {
      SplitHeadPrefix(s[1..]);
      assert s == [s[0]] + s[1..];
    }
  }

  /** No `..` substring. */
  predicate NoDoubleDot(s: string)
  {
    forall i :: 0 <= i < |s| - 1 ==> !(s[i] == '.' && s[i + 1] == '.')
  }

  /** `str_replace('..', '', $s)`: one left-to-right pass over non-overlapping matches. */
  function StripDotDot(s: string): string
  {
    if |s| >= 2 && s[0] == '.' && s[1] == '.' then StripDotDot(s[2..])
    else if s == [] then []
    else [s[0]] + StripDotDot(s[1..])
  }

  lemma {:induction false} StripDotDotHead(s: string)
    requires s != [] && s[0] != '.'
    ensures StripDotDot(s) != [] && StripDotDot(s)[0] == s[0]
  {
  }

  /** A single pass already leaves no `..` behind (a kept dot is followed by a kept non-dot). */
  lemma {:induction false} StripDotDotClean(s: string)
    ensures NoDoubleDot(StripDotDot(s))
  {
    if |s| >= 2 && s[0] == '.' && s[1] == '.' {
      StripDotDotClean(s[2..]);
    } else if s != [] {
      StripDotDotClean(s[1..]);
      var rest := StripDotDot(s[1..]);
      if s[0] == '.' && rest != [] {
        assert s[1..] != [] && s[1] != '.';
        StripDotDotHead(s[1..]);
      }
      var r := [s[0]] + rest;
      forall i | 0 <= i < |r| - 1
        ensures !(r[i] == '.' && r[i + 1] == '.')
      {
        if i > 0 { assert r[i] == rest[i - 1] && r[i + 1] == rest[i]; }
      }
    }
  }

  lemma SubstringNoDoubleDot(s: string, i: nat, j: nat)
    requires NoDoubleDot(s) && i <= j <= |s|
    ensures NoDoubleDot(s[i..j])
  {
    forall k | 0 <= k < j - i - 1
      ensures !(s[i..j][k] == '.' && s[i..j][k + 1] == '.')
    {
      assert s[i..j][k] == s[i + k] && s[i..j][k + 1] == s[i + k + 1];
    }
  }

  /** Removing `..` changes nothing in a string that holds none. */
  lemma {:induction false} StripDotDotNoop(s: string)
    requires NoDoubleDot(s)
    ensures StripDotDot(s) == s
  {
    if s != [] {
      assert !(|s| >= 2 && s[0] == '.' && s[1] == '.');
      SubstringNoDoubleDot(s, 1, |s|);
      StripDotDotNoop(s[1..]);
      assert s == [s[0]] + s[1..];
    }
  }

  /** A string without `..` splits into pieces none of which is `..`. */
  lemma {:induction false} SplitNoDotDot(s: string)
    requires NoDoubleDot(s)
    ensures ".." !in Split(s)
  {
    if s != [] {
      SubstringNoDoubleDot(s, 1, |s|);
      SplitNoDotDot(s[1..]);
      var rest := Split(s[1..]);
      if s[0] != '/' {
        var head := [s[0]] + rest[0];
        SplitHeadPrefix(s[1..]);
        if |rest[0]| == 1 && rest[0][0] == '.' {
          assert s[1..][0] == '.';
          assert s[0] != '.';
        }
        assert head[0] == s[0] && head[1..] == rest[0];
        assert head != "..";
        forall k | 0 <= k < |rest| - 1
          ensures rest[1..][k] != ".."
        {
          assert rest[1..][k] == rest[k + 1];
        }
      }
    }
  }

  function DigitChar(d: nat): (c: char)
    requires d < 10
    ensures IsDigit(c)
  {
    ('0' as int + d) as char
  }

  function DigitValue(c: char): (d: nat)
    requires IsDigit(c)
    ensures d < 10
  {
    c as int - '0' as int
  }

  /** The value of a decimal digit string. */
  function DecimalValue(s: string): nat
    requires AllDigits(s)
  {
    if s == [] then 0 else DecimalValue(s[..|s| - 1]) * 10 + DigitValue(s[|s| - 1])
  }

  /** PHP's `(int)` cast of a digit string: the decimal value, saturated at PHP_INT_MAX. */
  function ParseInt(s: string): (n: nat)
    requires AllDigits(s)
    ensures n <= IntMax
    ensures DecimalValue(s) <= IntMax ==> n == DecimalValue(s)
  {
    var v := DecimalValue(s);
    if v > IntMax then IntMax else v
  }

  /** The decimal text PHP produces when a non-negative integer is turned into a string. */
  function Decimal(n: nat): (s: string)
    ensures |s| >= 1 && AllDigits(s)
    ensures |s| > 1 ==> s[0] != '0'
  {
    if n < 10 then [DigitChar(n)] else Decimal(n / 10) + [DigitChar(n % 10)]
  }

  lemma {:induction false} DecimalRoundTrip(n: nat)
    ensures DecimalValue(Decimal(n)) == n
  {
    if n >= 10 {
      DecimalRoundTrip(n / 10);
      var s := Decimal(n);
      assert s[..|s| - 1] == Decimal(n / 10);
    }
  }
}
