/**
  Reading back the integers that PrintfInteger writes: the text of every conversion is padding, a
  sign, a base prefix and digits, and the digits are those of the value.
 */
module PrintfNumerals {
  import opened PrintfFormat
  import opened PrintfLoop
  import opened PrintfScan
  import opened PrintfInteger

  // ------------------------------------------------------------------ a reader

  function ReadDigit(c: char): int {
    if '0' <= c <= '9' then c as int - '0' as int
    else if 'a' <= c <= 'z' then c as int - 'a' as int + 10
    else if 'A' <= c <= 'Z' then c as int - 'A' as int + 10
    else -1
  }

  predicate AreDigits(base: nat, t: string) {
    forall i :: 0 <= i < |t| ==> 0 <= ReadDigit(t[i]) < base
  }

  /** The value of a numeral, its last digit counting least. */
  function ReadNumber(base: nat, t: string): int {
    if t == "" then 0 else base * ReadNumber(base, t[..|t| - 1]) + ReadDigit(t[|t| - 1])
  }

  // Letters of one case only.
  predicate CaseIs(upper: bool, t: string) {
    forall i :: 0 <= i < |t| ==> !(if upper then 'a' <= t[i] <= 'z' else 'A' <= t[i] <= 'Z')
  }

  predicate AllSpaces(t: string) {
    forall i :: 0 <= i < |t| ==> t[i] == ' '
  }

  /** A written number in its parts; '0' of '#' with o is one of the digits. */
  datatype Parts = Parts(before: string, sign: string, prefix: string, digits: string, behind: string) {
    function Text(): string {
      before + sign + prefix + digits + behind
    }
  }

  // ------------------------------------------------------------------ digits

  lemma DigitRead(d: nat, upper: bool)
    requires d < 16
    ensures ReadDigit(Digit(d, upper)) == d && CaseIs(upper, [Digit(d, upper)])
  {
  }

  lemma OneDigitMore(base: nat, t: string, m: nat, d: nat, upper: bool, n: nat)
    requires d < base <= 16 && AreDigits(base, t) && CaseIs(upper, t) && ReadNumber(base, t) == m && n == base * m + d
    ensures var u := t + [Digit(d, upper)];
            AreDigits(base, u) && CaseIs(upper, u) && ReadNumber(base, u) == n
  {
    DigitRead(d, upper);
    assert (t + [Digit(d, upper)])[..|t|] == t;
  }

  lemma NumeralsOf(base: nat, n: nat, upper: bool) returns (m: nat, d: nat)
    requires 2 <= base <= 16 && n > 0
    ensures d < base && n == base * m + d && m < n
    ensures Numerals(base, n, upper) == Numerals(base, m, upper) + [Digit(d, upper)]
  {
    m, d := n / base, n % base;
  }

  lemma {:induction false} NumeralsRead(base: nat, n: nat, upper: bool)
    requires 2 <= base <= 16
    ensures AreDigits(base, Numerals(base, n, upper)) && CaseIs(upper, Numerals(base, n, upper))
    ensures ReadNumber(base, Numerals(base, n, upper)) == n
    decreases n
  {
    if n > 0 {
      var m, d := NumeralsOf(base, n, upper);
      NumeralsRead(base, m, upper);
      OneDigitMore(base, Numerals(base, m, upper), m, d, upper, n);
    }
  }

  lemma {:induction false} ZerosRead(base: nat, k: int, t: string)
    requires base >= 2 && AreDigits(base, t)
    ensures AreDigits(base, Copies('0', k) + t) && ReadNumber(base, Copies('0', k) + t) == ReadNumber(base, t)
    decreases |t| + if k < 0 then 0 else k
  {
    var all := Copies('0', k) + t;
    if t != "" {
      assert all[..|all| - 1] == Copies('0', k) + t[..|t| - 1];
      ZerosRead(base, k, t[..|t| - 1]);
    } else if k > 0 {
      ZerosRead(base, k - 1, "");
      assert all[..|all| - 1] == Copies('0', k - 1) + "";
    } else {
      assert all == "";
    }
  }

  lemma DigitsRead(base: nat, n: nat, upper: bool)
    requires 2 <= base <= 16
    ensures var t := Digits(base, n, upper);
            && t != "" && (t[0] == '0' <==> n == 0)
            && AreDigits(base, t) && CaseIs(upper, t) && ReadNumber(base, t) == n
  {
    NumeralsRead(base, n, upper);
    if n == 0 {
      assert "0"[..0] == "";
    }
  }

  function Base(ty: char): nat {
    if ty == 'o' then 8 else if ty == 'x' || ty == 'X' then 16 else 10
  }

  /** Digits, with letters of one case, that read as the value. */
  predicate ReadsAs(base: nat, upper: bool, n: nat, t: string) {
    t != "" && AreDigits(base, t) && CaseIs(upper, t) && ReadNumber(base, t) == n
  }

  lemma ExtendedRead(base: nat, upper: bool, n: nat, digits: string, k: int)
    requires base >= 2 && ReadsAs(base, upper, n, digits)
    ensures ReadsAs(base, upper, n, Copies('0', k) + digits)
    ensures |Copies('0', k) + digits| == |digits| + if k < 0 then 0 else k
    ensures if k > 0 then (Copies('0', k) + digits)[0] == '0' else Copies('0', k) + digits == digits
  {
    ZerosRead(base, k, digits);
  }

  lemma OctalRead(upper: bool, n: nat, digits: string)
    requires ReadsAs(8, upper, n, digits)
    ensures ReadsAs(8, upper, n, "0" + digits)
  {
    ExtendedRead(8, upper, n, digits, 1);
    assert Copies('0', 1) == "0";
  }

  // Why the digits of a nonzero number may begin with a zero.
  predicate ZeroDue(r: Request, ty: char, t: string) {
    t != "" && t[0] == '0' ==>
      (r.precision.Some? && |t| == r.precision.n) || (ty == 'o' && r.alt && |t| > 1 && t[1] != '0')
  }

  // The digits for a value with zeros up to the precision, if there is one.
  function Filled(r: Request, base: nat, upper: bool, n: nat): string
    requires 2 <= base <= 16
  {
    Extended(Digits(base, n, upper), if r.precision.Some? then r.precision.n else 0)
  }

  lemma FilledSize(r: Request, base: nat, upper: bool, n: nat)
    requires 2 <= base <= 16 && Digits(base, n, upper) != "" && (Digits(base, n, upper)[0] == '0' <==> n == 0)
    ensures var t := Filled(r, base, upper, n);
            && t != "" && (r.precision.Some? ==> |t| >= r.precision.n)
            && (n != 0 && t[0] == '0' ==> r.precision.Some? && |t| == r.precision.n)
  {
  }

  lemma FilledRead(r: Request, base: nat, upper: bool, n: nat)
    requires 2 <= base <= 16
    ensures var t := Filled(r, base, upper, n);
            && ReadsAs(base, upper, n, t)
            && (r.precision.Some? ==> |t| >= r.precision.n)
            && (n != 0 && t[0] == '0' ==> r.precision.Some? && |t| == r.precision.n)
  {
    DigitsRead(base, n, upper);
    FilledSize(r, base, upper, n);
    ExtendedRead(base, upper, n, Digits(base, n, upper),
                 (if r.precision.Some? then r.precision.n else 0) - |Digits(base, n, upper)|);
  }

  lemma CodeDigitsForm(r: Request, ty: char, v: int)
    requires ty in "diuoxX"
    ensures var t := Filled(r, Base(ty), ty == 'X', Abs(v));
            t != "" ==> CodeDigits(r, ty, v) == if ty == 'o' && r.alt && v != 0 && t[0] != '0' then "0" + t else t
  {
    assert Base(ty) == BaseOf(ty);
  }

  /** The digits that the code writes for a value, before any padding to the width. */
  lemma CodeDigitsRead(r: Request, ty: char, v: int)
    requires ty in "diuoxX"
    ensures ReadsAs(Base(ty), ty == 'X', Abs(v), CodeDigits(r, ty, v))
    ensures r.precision.Some? ==> |CodeDigits(r, ty, v)| >= r.precision.n
    ensures v != 0 ==> ZeroDue(r, ty, CodeDigits(r, ty, v))
  {
    var t := Filled(r, Base(ty), ty == 'X', Abs(v));
    FilledRead(r, Base(ty), ty == 'X', Abs(v));
    CodeDigitsForm(r, ty, v);
    if ty == 'o' {
      OctalRead(ty == 'X', Abs(v), t);
    }
  }

  // ------------------------------------------------------------------ the whole text

  function PartsIn(width: nat, left: bool, zero: bool, sign: string, prefix: string, body: string): Parts {
    var room := width - (|sign| + |prefix| + |body|);
    Parts(if left || zero then "" else Copies(' ', room), sign, prefix,
          if zero && !left then Copies('0', room) + body else body, if left then Copies(' ', room) else "")
  }

  lemma PartsInLayout(width: nat, left: bool, zero: bool, sign: string, prefix: string, body: string)
    ensures Layout(width, left, zero, sign + prefix, body) == PartsIn(width, left, zero, sign, prefix, body).Text()
  {
    var room := width - (|sign| + |prefix| + |body|);
    var zeros, spaces := Copies('0', room), Copies(' ', room);
    assert |sign + prefix| == |sign| + |prefix|;
    if left {
      assert "" + sign + prefix + body + spaces == (sign + prefix) + body + spaces;
    } else if zero {
      assert "" + sign + prefix + (zeros + body) + "" == (sign + prefix) + zeros + body;
    } else {
      assert spaces + (sign + prefix) + body == spaces + sign + prefix + body + "";
    }
  }

  lemma PartsInSize(width: nat, left: bool, zero: bool, sign: string, prefix: string, body: string)
    ensures var p := PartsIn(width, left, zero, sign, prefix, body);
            && |p.Text()| == (if width > |sign| + |prefix| + |body| then width else |sign| + |prefix| + |body|)
            && AllSpaces(p.before) && AllSpaces(p.behind) && (p.before == "" || p.behind == "")
            && (p.before + p.behind != "" ==> |p.Text()| == width)
            && |p.digits| >= |body| && (p.digits == body || (zero && |p.Text()| == width))
  {
    if zero && !left {
      var room := width - (|sign| + |prefix| + |body|);
      assert room <= 0 ==> Copies('0', room) + body == body;
    }
  }

  lemma PartsInRead(width: nat, left: bool, zero: bool, sign: string, prefix: string, body: string,
                    base: nat, upper: bool, n: nat)
    requires base >= 2 && ReadsAs(base, upper, n, body)
    ensures ReadsAs(base, upper, n, PartsIn(width, left, zero, sign, prefix, body).digits)
  {
    ExtendedRead(base, upper, n, body, width - (|sign| + |prefix| + |body|));
  }

  function PartsOf(r: Request, negative: bool, raw: int, ty: char, v: int): Parts {
    PartsIn(r.width, r.left, StandardZero(r) && !negative, CodeSign(r, v), CodeBase(r, ty, raw), CodeDigits(r, ty, v))
  }

  lemma PartsWritten(sp: Specs, r: Request, negative: bool, raw: int, ty: char, v: int)
    requires SpecsFor(sp, r, negative, raw) && ty in "diuoxX" && (raw == 0 ==> v == 0)
    ensures WriteInt(sp, TypeFor(Int(raw), ty), v) == PartsOf(r, negative, raw, ty, v).Text()
  {
    WrittenFor(sp, r, negative, raw, ty, v);
    PartsInLayout(r.width, r.left, StandardZero(r) && !negative, CodeSign(r, v), CodeBase(r, ty, raw),
                  CodeDigits(r, ty, v));
  }

  /** What the parts of a text are, by the request; `precision` is -1 without one. */
  predicate Parted(p: Parts, r: Request, precision: int, ty: char, v: int) {
    && ReadsAs(Base(ty), ty == 'X', if v < 0 then -v else v, p.digits)
    && AllSpaces(p.before) && AllSpaces(p.behind) && (p.before == "" || p.behind == "")
    && |p.digits| >= precision && |p.Text()| >= r.width
    && (p.before + p.behind != "" ==> |p.Text()| == r.width)
    && (v != 0 ==> ZeroDue(r, ty, p.digits) || (r.zero && |p.Text()| == r.width))
  }

  lemma PartsInParted(r: Request, precision: int, ty: char, v: int, zero: bool,
                      sign: string, prefix: string, body: string)
    requires ReadsAs(Base(ty), ty == 'X', Abs(v), body) && |body| >= precision
    requires (v != 0 ==> ZeroDue(r, ty, body)) && (zero ==> r.zero)
    ensures Parted(PartsIn(r.width, r.left, zero, sign, prefix, body), r, precision, ty, v)
  {
    PartsInSize(r.width, r.left, zero, sign, prefix, body);
    PartsInRead(r.width, r.left, zero, sign, prefix, body, Base(ty), ty == 'X', Abs(v));
  }

  lemma PartsRead(sp: Specs, r: Request, negative: bool, raw: int, ty: char, v: int)
    requires SpecsFor(sp, r, negative, raw) && ty in "diuoxX"
    ensures Parted(PartsOf(r, negative, raw, ty, v), r, sp.precision, ty, v)
  {
    CodeDigitsRead(r, ty, v);
    PartsInParted(r, sp.precision, ty, v, StandardZero(r) && !negative, CodeSign(r, v), CodeBase(r, ty, raw),
                  CodeDigits(r, ty, v));
  }

  lemma PartsOfSpecs(sp: Specs, r: Request, negative: bool, raw: int, ty: char, v: int) returns (p: Parts)
    requires SpecsFor(sp, r, negative, raw) && ty in "diuoxX" && (raw == 0 ==> v == 0)
    ensures WriteInt(sp, TypeFor(Int(raw), ty), v) == p.before + p.sign + p.prefix + p.digits + p.behind
    ensures p.sign == if v < 0 then "-" else if r.plus then "+" else if r.space then " " else ""
    ensures p.prefix == if r.alt && raw != 0 && ty == 'x' then "0x" else if r.alt && raw != 0 && ty == 'X' then "0X"
                        else ""
    ensures Parted(p, r, sp.precision, ty, v)
  {
    PartsWritten(sp, r, negative, raw, ty, v);
    PartsRead(sp, r, negative, raw, ty, v);
    p := PartsOf(r, negative, raw, ty, v);
  }

  /**
    What is written for a value: spaces on one side only and only up to the width, the sign, "0x" or
    "0X", and digits that read back as the value in base 8, 10 or 16. Zeros in front of them are due
    to the precision, to '0' and the width, or, one of them, to '#' with o.
   */
  lemma WrittenReadsBack(c: ConvText, args: seq<Arg>, next: int, raw: int, v: int) returns (p: Parts)
    requires ValidConv(c) && c.ty in "diuoxX" && next >= -1 && ConvMeaning(c, args, next).Means?
    requires var w := ConvMeaning(c, args, next).value; w.arg < |args| && args[w.arg] == Int(raw)
    requires raw == 0 ==> v == 0
    ensures var w, flags := ConvMeaning(c, args, next).value, c.header.flags;
            && WriteInt(w.specs, w.ty, v) == p.before + p.sign + p.prefix + p.digits + p.behind
            && p.sign == (if v < 0 then "-" else if '+' in flags then "+" else if ' ' in flags then " " else "")
            && p.prefix == (if '#' in flags && raw != 0 && c.ty == 'x' then "0x"
                            else if '#' in flags && raw != 0 && c.ty == 'X' then "0X" else "")
            && Parted(p, Asked(c, args, next), w.specs.precision, c.ty, v)
  {
    AskedSpecs(c, args, next, raw);
    TypeWritten(c, args, next);
    p := PartsOfSpecs(ConvMeaning(c, args, next).value.specs, Asked(c, args, next), NegativePrecision(c, args, next),
                      raw, c.ty, v);
  }
}
