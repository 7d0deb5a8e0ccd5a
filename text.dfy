/**
 * The string operations the task service relies on: prefix and suffix tests,
 * splitting on a one-character separator, and decimal formatting of integers
 * as `%d` writes them.
 */
module Text {

  predicate HasPrefix(s: string, p: string) {
    |p| <= |s| && s[..|p|] == p
  }

  predicate HasSuffix(s: string, p: string) {
    |p| <= |s| && s[|s| - |p|..] == p
  }

  /**
   * Splits `s` around every occurrence of `sep`, as Go's `strings.Split` does
   * with a one-character separator: `k` separators give `k + 1` parts, and the
   * empty string gives one empty part. Defined from the end of the string.
   */
  function Split(s: string, sep: char): (parts: seq<string>)
    ensures |parts| >= 1
    ensures forall i :: 0 <= i < |parts| ==> sep !in parts[i]
    decreases |s|
  {
    if s == [] then [""]
    else
      var init := Split(s[..|s| - 1], sep);
      var c := s[|s| - 1];
      if c == sep then init + [""]
      else init[..|init| - 1] + [init[|init| - 1] + [c]]
  }

  /** Glues the parts back together with `sep` between neighbours. */
  function Join(parts: seq<string>, sep: char): string
    requires |parts| >= 1
  {
    if |parts| == 1 then parts[0]
    else Join(parts[..|parts| - 1], sep) + [sep] + parts[|parts| - 1]
  }

  /** Joining the parts of a split gives back the original string. */
  lemma {:induction false} JoinSplit(s: string, sep: char)
    ensures Join(Split(s, sep), sep) == s
    decreases |s|
  {
    if s != [] {
      var s' := s[..|s| - 1];
      var c := s[|s| - 1];
      var init := Split(s', sep);
      JoinSplit(s', sep);
      if c != sep {
        var parts := init[..|init| - 1] + [init[|init| - 1] + [c]];
        if |init| > 1 {
          assert parts[..|parts| - 1] == init[..|init| - 1];
        }
      } else {
        var parts := init + [""];
        assert parts[..|parts| - 1] == init;
      }
      assert s' + [c] == s;
    }
  }

  /** Splitting `x`, a separator and a separator-free `y` ends with the parts of `x` and then `y`. */
  lemma {:induction false} SplitAfterSeparator(x: string, sep: char, y: string)
    requires sep !in y
    ensures Split(x + [sep] + y, sep) == Split(x, sep) + [y]
    decreases |y|
  {
    var s := x + [sep] + y;
    if y == [] {
      assert s[..|s| - 1] == x;
    } else {
      var y' := y[..|y| - 1];
      assert s[..|s| - 1] == x + [sep] + y';
      SplitAfterSeparator(x, sep, y');
      assert y' + [y[|y| - 1]] == y;
    }
  }

  /** Splitting a separator-free string gives that string as the only part. */
  lemma {:induction false} SplitFree(y: string, sep: char)
    requires sep !in y
    ensures Split(y, sep) == [y]
    decreases |y|
  {
    if y != [] {
      var y' := y[..|y| - 1];
      SplitFree(y', sep);
      assert y' + [y[|y| - 1]] == y;
    }
  }

  /** Splitting the join of separator-free parts gives back the parts. */
  lemma {:induction false} SplitJoin(parts: seq<string>, sep: char)
    requires |parts| >= 1
    requires forall i :: 0 <= i < |parts| ==> sep !in parts[i]
    ensures Split(Join(parts, sep), sep) == parts
    decreases |parts|
  {
    if |parts| == 1 {
      SplitFree(parts[0], sep);
    } else {
      var init := parts[..|parts| - 1];
      SplitJoin(init, sep);
      SplitAfterSeparator(Join(init, sep), sep, parts[|parts| - 1]);
      assert init + [parts[|parts| - 1]] == parts;
    }
  }

  /**
   * The last part of a split is a separator-free suffix of the string, and it
   * is either the whole string or preceded by a separator: the text after the
   * last separator.
   */
  lemma {:induction false} SplitLast(s: string, sep: char)
    ensures var last := Split(s, sep)[|Split(s, sep)| - 1];
      HasSuffix(s, last) && (|last| == |s| || s[|s| - |last| - 1] == sep)
    decreases |s|
  {
    if s != [] {
      var s' := s[..|s| - 1];
      SplitLast(s', sep);
      var init := Split(s', sep);
      var last' := init[|init| - 1];
      if s[|s| - 1] != sep {
        var last := last' + [s[|s| - 1]];
        assert Split(s, sep)[|Split(s, sep)| - 1] == last;
        assert s[|s| - |last|..] == s'[|s'| - |last'|..] + [s[|s| - 1]];
      }
    }
  }

  /** A separator-free suffix that is the whole string or follows a separator is unique. */
  lemma AfterLastUnique(s: string, sep: char, a: string, b: string)
    requires HasSuffix(s, a) && sep !in a && (|a| == |s| || s[|s| - |a| - 1] == sep)
    requires HasSuffix(s, b) && sep !in b && (|b| == |s| || s[|s| - |b| - 1] == sep)
    ensures a == b
  {
  }

  function DigitChar(d: int): (c: char)
    requires 0 <= d < 10
    ensures '0' <= c <= '9'
  {
    ('0' as int + d) as char
  }

  /** The decimal digits of `n`, most significant first, without leading zeros. */
  function NatToString(n: nat): (s: string)
    ensures |s| >= 1
    ensures forall i :: 0 <= i < |s| ==> '0' <= s[i] <= '9'
  {
    if n < 10 then [DigitChar(n)] else NatToString(n / 10) + [DigitChar(n % 10)]
  }

  /** `n` written as `%d` writes an integer: a minus sign for negatives, then the digits. */
  function Itoa(n: int): (s: string)
    ensures |s| >= 1
    ensures forall i :: 0 <= i < |s| ==> s[i] == '-' || '0' <= s[i] <= '9'
  {
    if n < 0 then "-" + NatToString(-n) else NatToString(n)
  }

  /** The value of a string of decimal digits. */
  function DigitsValue(s: string): int {
    if s == [] then 0 else DigitsValue(s[..|s| - 1]) * 10 + (s[|s| - 1] as int - '0' as int)
  }

  /** Reads back a decimal integer with an optional leading minus sign. */
  function ParseInt(s: string): int {
    if |s| > 0 && s[0] == '-' then -DigitsValue(s[1..]) else DigitsValue(s)
  }

  lemma {:induction false} NatToStringValue(n: nat)
    ensures DigitsValue(NatToString(n)) == n
  {
    if n >= 10 {
      NatToStringValue(n / 10);
      var s := NatToString(n);
      assert s[..|s| - 1] == NatToString(n / 10);
    }
  }

  /** Formatting an integer and reading the text back gives the integer. */
  lemma ItoaParse(n: int)
    ensures ParseInt(Itoa(n)) == n
  {
    if n < 0 {
      NatToStringValue(-n);
      assert Itoa(n)[1..] == NatToString(-n);
    } else {
      NatToStringValue(n);
    }
  }

  /** Distinct integers are written differently, and never with a '/' or an '_'. */
  lemma ItoaInjective(a: int, b: int)
    ensures Itoa(a) == Itoa(b) ==> a == b
    ensures '/' !in Itoa(a) && '_' !in Itoa(a)
  {
    ItoaParse(a);
    ItoaParse(b);
  }
}
