/** Decimal digits: rendering a number and reading a run of digits back. */
module Decimal {

  // The largest value of the source's 32-bit `int`; longer numbers are "too big".
  const INT_MAX := 0x7FFF_FFFF

  predicate IsDigit(c: char) {
    '0' <= c <= '9'
  }

  predicate AllDigits(s: string) {
    forall i :: 0 <= i < |s| ==> IsDigit(s[i])
  }

  function DigitValue(c: char): (d: nat)
    requires IsDigit(c)
    ensures d < 10
  {
    c as int - '0' as int
  }

  function DigitChar(d: nat): (c: char)
    requires d < 10
    ensures IsDigit(c) && DigitValue(c) == d
  {
    ('0' as int + d) as char
  }

  lemma DigitsInOrder(d: nat)
    requires d < 10
    ensures DigitChar(d) == "0123456789"[d] && DigitValue("0123456789"[d]) == d
  {
  }

  function Render(n: nat): string {
    if n < 10 then [DigitChar(n)] else Render(n / 10) + [DigitChar(n % 10)]
  }

  function Value(s: string): nat
    requires AllDigits(s)
  {
    if s == "" then 0 else 10 * Value(s[..|s| - 1]) + DigitValue(s[|s| - 1])
  }

  /** Reading what was rendered gives the number back; only zero starts with '0'. */
  lemma {:induction false} RenderThenValue(n: nat)
    ensures Render(n) != "" && AllDigits(Render(n)) && Value(Render(n)) == n
    ensures Render(n)[0] == '0' <==> n == 0
    ensures n == 0 ==> Render(n) == "0"
  {
    if n >= 10 {
      RenderThenValue(n / 10);
      assert Render(n)[..|Render(n)| - 1] == Render(n / 10);
    } else {
      assert Render(n)[..0] == "";
    }
  }

  /** Rendering what was read gives the digits back, when they carry no padding. */
  lemma {:induction false} ValueThenRender(s: string)
    requires s != "" && AllDigits(s)
    requires s[0] != '0' || s == "0"
    ensures Render(Value(s)) == s
    ensures s[0] != '0' ==> Value(s) > 0
  {
    var init, last := s[..|s| - 1], s[|s| - 1];
    assert s == init + [last];
    assert DigitChar(DigitValue(last)) == last;
    if init == "" {
      assert Value(init) == 0;
    } else {
      ValueThenRender(init);
      assert Value(s) / 10 == Value(init) && Value(s) % 10 == DigitValue(last);
    }
  }

  lemma RenderInjective(m: nat, n: nat)
    requires Render(m) == Render(n)
    ensures m == n
  {
    RenderThenValue(m);
    RenderThenValue(n);
  }

  /** Zeros in front of a number do not change its value. */
  lemma {:induction false} PaddingIsIgnored(zeros: string, s: string)
    requires (forall i :: 0 <= i < |zeros| ==> zeros[i] == '0') && AllDigits(s)
    ensures AllDigits(zeros + s) && Value(zeros + s) == Value(s)
    decreases |zeros| + |s|
  {
    if s != "" {
      assert (zeros + s)[..|zeros + s| - 1] == zeros + s[..|s| - 1];
      PaddingIsIgnored(zeros, s[..|s| - 1]);
    } else if zeros != "" {
      assert zeros + s == zeros;
      assert zeros[..|zeros| - 1] + "" == zeros[..|zeros| - 1];
      PaddingIsIgnored(zeros[..|zeros| - 1], "");
    } else {
      assert zeros + s == "";
    }
  }

  /** The end of the maximal run of digits that starts at `pos`. */
  function DigitsEnd(s: string, pos: nat): (end: nat)
    requires pos <= |s|
    ensures pos <= end <= |s| && AllDigits(s[pos..end])
    ensures end < |s| ==> !IsDigit(s[end])
    decreases |s| - pos
  {
    if pos < |s| && IsDigit(s[pos]) then
      var end := DigitsEnd(s, pos + 1);
      assert s[pos..end] == [s[pos]] + s[pos + 1..end];
      end
    else pos
  }

  /** A run of digits closed by a non-digit is found exactly. */
  lemma {:induction false} DigitsEndAt(s: string, pos: nat, end: nat)
    requires pos <= end <= |s| && (forall i :: pos <= i < end ==> IsDigit(s[i]))
    requires end < |s| ==> !IsDigit(s[end])
    ensures DigitsEnd(s, pos) == end
    decreases end - pos
  {
    if pos < end {
      DigitsEndAt(s, pos + 1, end);
    }
  }

  lemma ValuePrefix(s: string, pos: nat, i: nat)
    requires pos <= i < |s| && AllDigits(s[pos..i]) && IsDigit(s[i])
    ensures AllDigits(s[pos..i + 1]) && Value(s[pos..i + 1]) == 10 * Value(s[pos..i]) + DigitValue(s[i])
  {
    assert s[pos..i + 1] == s[pos..i] + [s[i]];
  }

  lemma {:induction false} ValueGrows(s: string, pos: nat, i: nat, end: nat)
    requires pos <= i <= end <= |s| && AllDigits(s[pos..end])
    ensures AllDigits(s[pos..i]) && Value(s[pos..i]) <= Value(s[pos..end])
    decreases end - i
  {
    assert forall k :: 0 <= k < i - pos ==> s[pos..i][k] == s[pos..end][k];
    if i < end {
      assert s[i] == s[pos..end][i - pos];
      ValuePrefix(s, pos, i);
      ValueGrows(s, pos, i + 1, end);
    }
  }

  /**
    `parse_nonnegative_int`: its check before each digit stops in time, so that the unsigned
    32-bit value never wraps around, and it refuses exactly the numbers above INT_MAX.
   */
  method ParseNonnegativeInt(s: string, pos: nat) returns (value: nat, end: nat, tooBig: bool)
    requires pos < |s| && IsDigit(s[pos])
    ensures tooBig <==> Value(s[pos..DigitsEnd(s, pos)]) > 2147483647
    ensures !tooBig ==> end == DigitsEnd(s, pos) && value == Value(s[pos..end])
  {
    value, end := 0, pos;
    var big := INT_MAX / 10;
    assert s[pos..pos] == "";
    while end < |s| && IsDigit(s[end])
      invariant pos <= end <= |s| && AllDigits(s[pos..end]) && value == Value(s[pos..end])
      invariant DigitsEnd(s, pos) == DigitsEnd(s, end) >= end
      invariant value < 0x1_0000_0000
    {
      ValuePrefix(s, pos, end);
      if value > big {
        ValueGrows(s, pos, end + 1, DigitsEnd(s, pos));
        return INT_MAX + 1, end, true;
      }
      value := value * 10 + DigitValue(s[end]);
      end := end + 1;
    }
    tooBig := value > INT_MAX;
  }
}
