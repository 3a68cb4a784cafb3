/** String operations the components rely on: `toLowerCase` (over ASCII), `includes`,
    and the decimal rendering of a number inside a template string. */
module Text {
  import opened Wrappers

  /** `toLowerCase` of one character, over the ASCII letters only. */
  function LowerChar(c: char): char {
    if 'A' <= c <= 'Z' then (c as int + 32) as char else c
  }

  /** `s.toLowerCase()`, over the ASCII letters only. */
  function Lower(s: string): (r: string)
    ensures |r| == |s|
    ensures forall i :: 0 <= i < |s| ==> r[i] == LowerChar(s[i])
  {
    seq(|s|, i requires 0 <= i < |s| => LowerChar(s[i]))
  }

  /** `x` and `y` agree character by character once lowered: what a case-insensitive
      regular expression compares. */
  predicate EqualIgnoringCase(x: string, y: string) {
    |x| == |y| && (x == [] || (LowerChar(x[0]) == LowerChar(y[0]) && EqualIgnoringCase(x[1..], y[1..])))
  }

  /** Comparing character by character is comparing the lowered strings. */
  lemma {:induction false} EqualIgnoringCaseIff(x: string, y: string)
    ensures EqualIgnoringCase(x, y) <==> Lower(x) == Lower(y)
  {
    if |x| == |y| && x != [] {
      EqualIgnoringCaseIff(x[1..], y[1..]);
      assert Lower(x) == [LowerChar(x[0])] + Lower(x[1..]);
      assert Lower(y) == [LowerChar(y[0])] + Lower(y[1..]);
    }
  }

  /** `n` occurs in `h` starting at index `i`. */
  predicate OccursAt(h: string, n: string, i: int) {
    0 <= i && i + |n| <= |h| && h[i..i + |n|] == n
  }

  /** `h.includes(n)`: true for the empty `n`, otherwise when some window of `h` equals `n`. */
  predicate Contains(h: string, n: string)
    decreases |h|
  {
    n <= h || (h != [] && Contains(h[1..], n))
  }

  /** `Contains` holds exactly when there is an index where the needle occurs. */
  lemma {:induction false} ContainsIff(h: string, n: string)
    ensures Contains(h, n) <==> exists i :: OccursAt(h, n, i)
  {
    if n <= h {
      assert OccursAt(h, n, 0);
    } else if h == [] {
      assert forall i :: !OccursAt(h, n, i);
    } else {
      ContainsIff(h[1..], n);
      forall i | OccursAt(h, n, i)
        ensures OccursAt(h[1..], n, i - 1)
      {
        assert h[1..][i - 1..i - 1 + |n|] == h[i..i + |n|];
      }
      forall i | OccursAt(h[1..], n, i)
        ensures OccursAt(h, n, i + 1)
      {
        assert h[1..][i..i + |n|] == h[i + 1..i + 1 + |n|];
      }
    }
  }

  /** Every string includes the empty string. */
  lemma ContainsEmpty(h: string)
    ensures Contains(h, "")
  {
  }

  /** The ASCII digit of `d`. */
  function DigitChar(d: int): char
    requires 0 <= d < 10
  {
    ('0' as int + d) as char
  }

  predicate IsDigit(c: char) {
    '0' as int <= c as int <= '9' as int
  }

  /** `String(n)` for a natural number: its decimal digits, most significant first, without leading zeros. */
  function NatToString(n: nat): (r: string)
    ensures r != [] && forall i :: 0 <= i < |r| ==> IsDigit(r[i])
    ensures |r| > 1 ==> r[0] != '0'
  {
    if n < 10 then [DigitChar(n)] else NatToString(n / 10) + [DigitChar(n % 10)]
  }

  /** The value of a non-empty string of decimal digits. */
  function DigitsValue(s: string): nat
    requires s != [] && forall i :: 0 <= i < |s| ==> IsDigit(s[i])
  {
    assert IsDigit(s[|s| - 1]);
    var last := s[|s| - 1] as int - '0' as int;
    if |s| == 1 then last else DigitsValue(s[..|s| - 1]) * 10 + last
  }

  /** Reading the decimal rendering back gives the number. */
  lemma {:induction false} DigitsValueOfNatToString(n: nat)
    ensures DigitsValue(NatToString(n)) == n
  {
    if n >= 10 {
      var r := NatToString(n);
      assert r[..|r| - 1] == NatToString(n / 10);
      DigitsValueOfNatToString(n / 10);
    }
  }

  /** Decimal rendering is injective: different numbers print differently. */
  lemma NatToStringInjective(m: nat, n: nat)
    requires NatToString(m) == NatToString(n)
    ensures m == n
  {
    DigitsValueOfNatToString(m);
    DigitsValueOfNatToString(n);
  }

  /** The longest prefix of digits of `s`, and what follows it. */
  function SplitDigits(s: string): (r: (string, string))
    ensures r.0 + r.1 == s
    ensures forall i :: 0 <= i < |r.0| ==> IsDigit(r.0[i])
    ensures r.1 == [] || !IsDigit(r.1[0])
  {
    if s != [] && IsDigit(s[0]) then
      var t := SplitDigits(s[1..]);
      var digits := [s[0]] + t.0;
      assert digits + t.1 == [s[0]] + s[1..] == s;
      assert forall i :: 1 <= i < |digits| ==> digits[i] == t.0[i - 1];
      (digits, t.1)
    else ([], s)
  }

  lemma {:induction false} SplitDigitsOf(d: string, rest: string)
    requires forall i :: 0 <= i < |d| ==> IsDigit(d[i])
    requires rest == [] || !IsDigit(rest[0])
    ensures SplitDigits(d + rest) == (d, rest)
  {
    if d == [] {
      assert d + rest == rest;
    } else {
      assert (d + rest)[1..] == d[1..] + rest;
      SplitDigitsOf(d[1..], rest);
      assert [d[0]] + d[1..] == d;
    }
  }
}
