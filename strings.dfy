/**
 * The handful of Python `str` operations the converter relies on:
 * `lstrip`/`rstrip` of one character, `replace` of one character by another,
 * `rfind`, decimal formatting of a natural number, and prefix facts.
 */
module Strings {

  predicate StartsWith(s: string, p: string) {
    |p| <= |s| && s[..|p|] == p
  }

  /** `s.lstrip(c)`: removes every leading occurrence of `c`, not just one. */
  function LStrip(s: string, c: char): (r: string)
    ensures |r| <= |s| && r == s[|s| - |r|..]
    ensures forall i :: 0 <= i < |s| - |r| ==> s[i] == c
    ensures r == [] || r[0] != c
  {
    if |s| > 0 && s[0] == c then LStrip(s[1..], c) else s
  }

  /** `s.rstrip(c)`: removes every trailing occurrence of `c`. */
  function RStrip(s: string, c: char): (r: string)
    ensures |r| <= |s| && r == s[..|r|]
    ensures forall i :: |r| <= i < |s| ==> s[i] == c
    ensures r == [] || r[|r| - 1] != c
  {
    if |s| > 0 && s[|s| - 1] == c then RStrip(s[..|s| - 1], c) else s
  }

  /** `s.replace(x, y)` for single characters `x` and `y`. */
  function ReplaceChar(s: string, x: char, y: char): (r: string)
    ensures |r| == |s|
    ensures forall i :: 0 <= i < |s| ==> r[i] == if s[i] == x then y else s[i]
  {
    if |s| == 0 then [] else [if s[0] == x then y else s[0]] + ReplaceChar(s[1..], x, y)
  }

  /** `s.rfind(c)`: the index of the last `c` in `s`, or -1. */
  function RFind(s: string, c: char): (r: int)
    ensures -1 <= r < |s|
    ensures r >= 0 ==> s[r] == c && c !in s[r + 1..]
    ensures r == -1 ==> c !in s
  {
    if |s| == 0 then -1
    else if s[|s| - 1] == c then |s| - 1
    else RFind(s[..|s| - 1], c)
  }

  function Digit(d: nat): (c: char)
    requires d < 10
    ensures '0' <= c <= '9'
  {
    (48 + d) as char
  }

  /** `str(n)` for a natural number `n`: its decimal digits, most significant first. */
  function DecimalString(n: nat): (r: string)
    ensures |r| >= 1
    ensures (|r| == 1) == (n < 10)
    ensures forall i :: 0 <= i < |r| ==> '0' <= r[i] <= '9'
  {
    if n < 10 then [Digit(n)] else DecimalString(n / 10) + [Digit(n % 10)]
  }

  /** Distinct numbers have distinct decimal strings. */
  lemma {:induction false} DecimalStringInjective(m: nat, n: nat)
    requires DecimalString(m) == DecimalString(n)
    ensures m == n
  {
    var s, t := DecimalString(m), DecimalString(n);
    if m < 10 && n < 10 {
      assert s[0] == Digit(m) && t[0] == Digit(n);
    } else if 10 <= m && 10 <= n {
      assert s[|s| - 1] == Digit(m % 10) && t[|t| - 1] == Digit(n % 10);
      assert s[..|s| - 1] == DecimalString(m / 10);
      assert t[..|t| - 1] == DecimalString(n / 10);
      DecimalStringInjective(m / 10, n / 10);
    }
  }

  /** Two strings with a common prefix are equal exactly when what follows it is. */
  lemma PrefixCancel(p: string, a: string, b: string)
    ensures p + a == p + b <==> a == b
  {
    if p + a == p + b {
      assert a == (p + a)[|p|..];
      assert b == (p + b)[|p|..];
    }
  }

  lemma {:induction false} LStripAppend(s: string, t: string, c: char)
    requires LStrip(s, c) != []
    ensures LStrip(s + t, c) == LStrip(s, c) + t
    decreases |s|
  {
    if |s| > 0 && s[0] == c {
      var st := s + t;
      assert st[0] == c && st[1..] == s[1..] + t;
      LStripAppend(s[1..], t, c);
    } else {
      assert |s| > 0 && (s + t)[0] == s[0];
    }
  }

  lemma {:induction false} LStripOfStripped(s: string, t: string, c: char)
    requires LStrip(s, c) == []
    ensures LStrip(s + t, c) == LStrip(t, c)
    decreases |s|
  {
    if |s| > 0 {
      assert s[0] == c;
      var st := s + t;
      assert st[0] == c && st[1..] == s[1..] + t;
      LStripOfStripped(s[1..], t, c);
    } else {
      assert s + t == t;
    }
  }

  /** Replacing '/' by '.' in `s + "/" + seg`, where `seg` has no '/'. */
  lemma ReplaceSlashBeforeSegment(s: string, seg: string)
    requires '/' !in seg
    ensures ReplaceChar(s + ("/" + seg), '/', '.') == ReplaceChar(s, '/', '.') + ("." + seg)
  {
    var l, r := ReplaceChar(s + ("/" + seg), '/', '.'), ReplaceChar(s, '/', '.') + ("." + seg);
    forall i | 0 <= i < |l| ensures l[i] == r[i] {
      if i > |s| {
        assert (s + ("/" + seg))[i] == seg[i - |s| - 1];
      }
    }
  }

  lemma ReplaceCharAbsent(s: string, x: char, y: char)
    requires x !in s
    ensures ReplaceChar(s, x, y) == s
  {
  }

  lemma LStripAbsent(s: string, c: char)
    requires s == [] || s[0] != c
    ensures LStrip(s, c) == s
  {
  }
}
