/**
 * The few pieces of Python's `str` that the pipeline relies on, with Python's
 * `len` read as the number of code points, i.e. `|s|` on `seq<char>`:
 * `str.isspace`, `str.strip()`, `str.rfind(c, 0, end)` and `str(n)` for
 * natural numbers, plus the filter `NonSpace` used to say that only
 * whitespace is ever discarded.
 */
module Strings {

  /** `c.isspace()` in Python: the code points Unicode classes as white space. */
  predicate IsSpace(c: char) {
    var n := c as int;
    || 0x09 <= n <= 0x0D || 0x1C <= n <= 0x20
    || n == 0x85 || n == 0xA0 || n == 0x1680
    || 0x2000 <= n <= 0x200A
    || n == 0x2028 || n == 0x2029 || n == 0x202F || n == 0x205F || n == 0x3000
  }

  /** The characters of `s` that are not white space, in order. */
  function NonSpace(s: string): (r: string)
    ensures |r| <= |s|
    ensures forall i :: 0 <= i < |r| ==> !IsSpace(r[i])
  {
    if s == [] then []
    else (if IsSpace(s[0]) then [] else [s[0]]) + NonSpace(s[1..])
  }

  lemma {:induction false} NonSpaceAppend(a: string, b: string)
    ensures NonSpace(a + b) == NonSpace(a) + NonSpace(b)
  {
    if a == [] {
      assert a + b == b;
    } else {
      assert (a + b)[1..] == a[1..] + b;
      NonSpaceAppend(a[1..], b);
    }
  }

  /** Concatenation regroups freely. */
  lemma AppendAssoc<T>(a: seq<T>, b: seq<T>, c: seq<T>)
    ensures (a + b) + c == a + (b + c)
  {
  }

  /** Python's `s.strip()` with no argument: white space off both ends. */
  function Strip(s: string): (r: string)
    ensures |r| <= |s|
    decreases |s|
  {
    if |s| > 0 && IsSpace(s[0]) then Strip(s[1..])
    else if |s| > 0 && IsSpace(s[|s| - 1]) then Strip(s[..|s| - 1])
    else s
  }

  /** The number of white-space characters `s` starts with. */
  function LeadingSpace(s: string): (k: nat)
    ensures k <= |s|
  {
    if |s| > 0 && IsSpace(s[0]) then 1 + LeadingSpace(s[1..]) else 0
  }

  /**
   * `Strip(s)` is the stretch of `s` that starts after its leading white
   * space: the lemmas below say that it is a contiguous part of `s`, that
   * only white space lies around it, and that it neither starts nor ends
   * with white space.
   */
  lemma {:induction false} StripIsInfix(s: string)
    ensures var r, k := Strip(s), LeadingSpace(s);
            k + |r| <= |s| && r == s[k..k + |r|]
    decreases |s|
  {
    var r, k := Strip(s), LeadingSpace(s);
    if |s| > 0 && IsSpace(s[0]) {
      var u := s[1..];
      StripIsInfix(u);
      assert r == u[k - 1..k - 1 + |r|];
    } else if |s| > 0 && IsSpace(s[|s| - 1]) {
      var t := s[..|s| - 1];
      StripIsInfix(t);
      assert |s| >= 2 && t[0] == s[0] && LeadingSpace(t) == 0;
      assert r == t[..|r|];
    } else {
      assert s[0..|s|] == s;
    }
  }

  /** What `Strip` removes, before and after what it keeps, is white space. */
  lemma {:induction false} StripRemovesSpace(s: string)
    ensures var r, k := Strip(s), LeadingSpace(s);
            && (forall i :: 0 <= i < k ==> IsSpace(s[i]))
            && (forall i :: k + |r| <= i < |s| ==> IsSpace(s[i]))
    decreases |s|
  {
    var r, k := Strip(s), LeadingSpace(s);
    if |s| > 0 && IsSpace(s[0]) {
      var u := s[1..];
      StripRemovesSpace(u);
      forall i | 0 <= i < k
        ensures IsSpace(s[i])
      {
        if i > 0 {
          assert s[i] == u[i - 1];
        }
      }
      forall i | k + |r| <= i < |s|
        ensures IsSpace(s[i])
      {
        assert s[i] == u[i - 1];
      }
    } else if |s| > 0 && IsSpace(s[|s| - 1]) {
      var t := s[..|s| - 1];
      StripRemovesSpace(t);
      assert t[0] == s[0] && LeadingSpace(t) == 0;
      forall i | |r| <= i < |s|
        ensures IsSpace(s[i])
      {
        if i < |s| - 1 {
          assert s[i] == t[i];
        }
      }
    }
  }

  /** A stripped string is empty or has non-white-space at both ends. */
  lemma {:induction false} StripEnds(s: string)
    ensures var r := Strip(s); r == [] || (!IsSpace(r[0]) && !IsSpace(r[|r| - 1]))
    decreases |s|
  {
    if |s| > 0 && IsSpace(s[0]) {
      StripEnds(s[1..]);
    } else if |s| > 0 && IsSpace(s[|s| - 1]) {
      StripEnds(s[..|s| - 1]);
    }
  }

  /** Stripping removes white space only. */
  lemma {:induction false} StripKeepsNonSpace(s: string)
    ensures NonSpace(Strip(s)) == NonSpace(s)
    decreases |s|
  {
    if |s| > 0 && IsSpace(s[0]) {
      StripKeepsNonSpace(s[1..]);
    } else if |s| > 0 && IsSpace(s[|s| - 1]) {
      var t := s[..|s| - 1];
      assert s == t + [s[|s| - 1]];
      NonSpaceAppend(t, [s[|s| - 1]]);
      StripKeepsNonSpace(t);
    }
  }

  /** One trailing space makes no difference to what `strip()` keeps. */
  lemma {:induction false} StripTrailingSpace(s: string)
    ensures Strip(s + " ") == Strip(s)
    decreases |s|
  {
    var t := s + " ";
    if s == [] {
      assert t[1..] == [];
    } else if IsSpace(s[0]) {
      assert t[1..] == s[1..] + " ";
      StripTrailingSpace(s[1..]);
    } else {
      assert t[..|t| - 1] == s;
    }
  }

  function Min(a: int, b: int): int {
    if a < b then a else b
  }

  /**
   * `s.rfind(c, 0, end)`: the greatest index below `min(end, |s|)` holding
   * `c`, or -1 when there is none.
   */
  function RFind(s: string, c: char, end: nat): (r: int)
    ensures -1 <= r < Min(end, |s|)
    ensures r >= 0 ==> s[r] == c
    ensures forall j :: r < j < Min(end, |s|) ==> s[j] != c
    decreases end
  {
    var n := Min(end, |s|);
    if n == 0 then -1
    else if s[n - 1] == c then n - 1
    else RFind(s, c, n - 1)
  }

  predicate IsDigit(c: char) {
    '0' as int <= c as int <= '9' as int
  }

  function DigitChar(d: nat): (c: char)
    requires d < 10
    ensures IsDigit(c) && DigitValue(c) == d
  {
    (('0' as int) + d) as char
  }

  function DigitValue(c: char): nat
    requires IsDigit(c)
  {
    (c as int) - ('0' as int)
  }

  /** The value of a string of decimal digits, most significant first. */
  function DigitsValue(s: string): nat
    requires forall i :: 0 <= i < |s| ==> IsDigit(s[i])
  {
    if s == [] then 0
    else DigitsValue(s[..|s| - 1]) * 10 + DigitValue(s[|s| - 1])
  }

  /** `str(n)` for a natural number: its decimal digits, without leading zeros. */
  function NatToString(n: nat): (r: string)
    ensures |r| >= 1
    ensures forall i :: 0 <= i < |r| ==> IsDigit(r[i])
    ensures |r| > 1 ==> r[0] != '0'
    ensures DigitsValue(r) == n
  {
    if n < 10 then
      var r := [DigitChar(n)];
      assert r[..0] == [];
      r
    else
      var prefix := NatToString(n / 10);
      var r := prefix + [DigitChar(n % 10)];
      assert r[..|r| - 1] == prefix;
      r
  }

  /** The number of decimal digits at the front of `s`. */
  function DigitSpan(s: string): (k: nat)
    ensures k <= |s|
    ensures forall i :: 0 <= i < k ==> IsDigit(s[i])
    ensures k < |s| ==> !IsDigit(s[k])
  {
    if s != [] && IsDigit(s[0]) then 1 + DigitSpan(s[1..]) else 0
  }

  /**
   * Digits `d` followed by a non-digit `c` and anything: the digit span is
   * `d`, the separator sits right after it, and `t` follows the separator.
   */
  lemma DigitsThen(d: string, c: char, t: string)
    requires forall i :: 0 <= i < |d| ==> IsDigit(d[i])
    requires !IsDigit(c)
    ensures var s := d + [c] + t;
            DigitSpan(s) == |d| && s[..|d|] == d && s[|d|] == c && s[|d| + 1..] == t
  {
    var s := d + [c] + t;
    assert s == d + ([c] + t);
    DigitSpanOfDigits(d, [c] + t);
  }

  /** The digit span of `d + t` is `d` itself when `t` does not start with a digit. */
  lemma {:induction false} DigitSpanOfDigits(d: string, t: string)
    requires forall i :: 0 <= i < |d| ==> IsDigit(d[i])
    requires t == [] || !IsDigit(t[0])
    ensures DigitSpan(d + t) == |d|
  {
    if d != [] {
      assert (d + t)[1..] == d[1..] + t;
      DigitSpanOfDigits(d[1..], t);
    } else {
      assert d + t == t;
    }
  }
}
