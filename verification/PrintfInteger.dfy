/**
  Integers under printf formatting (printf.h, write_int in format.h) against what section 7.21.6.1
  of ISO/IEC 9899:2011 asks for the conversions d, i, u, o, x and X.
 */
module PrintfInteger {
  import opened PrintfFormat
  import opened PrintfLoop
  import opened PrintfScan

  // ------------------------------------------------------------------ numerals

  predicate IsIntegerType(ty: char) {
    ty == 'd' || ty == 'i' || ty == 'u' || ty == 'o' || ty == 'x' || ty == 'X'
  }

  predicate IsSigned(ty: char) {
    ty == 'd' || ty == 'i'
  }

  predicate IsHex(ty: char) {
    ty == 'x' || ty == 'X'
  }

  function BaseOf(ty: char): (b: nat)
    ensures 2 <= b <= 16
  {
    if ty == 'o' then 8 else if IsHex(ty) then 16 else 10
  }

  function Digit(d: nat, upper: bool): (c: char)
    requires d < 16
    ensures IsNumeral(c) && (c == '0' <==> d == 0)
  {
    if d < 10 then ('0' as int + d) as char
    else if upper then ('A' as int + (d - 10)) as char
    else ('a' as int + (d - 10)) as char
  }

  predicate IsNumeral(c: char) {
    '0' <= c <= '9' || 'a' <= c <= 'f' || 'A' <= c <= 'F'
  }

  /** The digits of a number; those of zero are none. */
  function Numerals(base: nat, n: nat, upper: bool): (t: string)
    requires 2 <= base <= 16
    ensures forall i :: 0 <= i < |t| ==> IsNumeral(t[i])
    ensures n > 0 ==> t != "" && t[0] != '0'
    ensures n == 0 ==> t == ""
  {
    if n == 0 then "" else Numerals(base, n / base, upper) + [Digit(n % base, upper)]
  }

  function Copies(c: char, n: int): (t: string)
    ensures |t| == (if n < 0 then 0 else n) && forall i :: 0 <= i < |t| ==> t[i] == c
  {
    if n <= 0 then "" else [c] + Copies(c, n - 1)
  }

  /** At least `n` digits, with zeros in front. */
  function Extended(digits: string, n: int): string {
    Copies('0', n - |digits|) + digits
  }

  // ------------------------------------------------------------------ what the code writes

  // Counting the digits of zero gives one.
  function Digits(base: nat, n: nat, upper: bool): string
    requires 2 <= base <= 16
  {
    if n == 0 then "0" else Numerals(base, n, upper)
  }

  function SignPrefix(sp: Specs, v: int): string {
    if v < 0 then "-"
    else
      match sp.sign
      case NoSign => ""
      case Plus => "+"
      case Space => " "
  }

  function BasePrefix(sp: Specs, ty: char, v: int, digits: string): string {
    if IsHex(ty) && sp.alt then ['0', ty]
    else if ty == 'o' && sp.alt && sp.precision <= |digits| && v != 0 then "0"
    else ""
  }

  function Abs(v: int): nat {
    if v < 0 then -v else v
  }

  // The second half of `write_int`, for a prefix and the digits.
  function Field(sp: Specs, prefix: string, digits: string): string {
    var natural := |prefix| + |digits|;
    var zeros :=
      if sp.align == Numeric then (if sp.width > natural then sp.width - natural else 0)
      else if sp.precision > |digits| then sp.precision - |digits|
      else 0;
    var size := natural + zeros;
    var padding := if sp.width > size then sp.width - size else 0;
    var left := if sp.align == Left then 0 else padding;
    Copies(sp.fill, left) + prefix + Copies('0', zeros) + digits + Copies(sp.fill, padding - left)
  }

  /** `write_int`: padding, prefix, zeros, digits and padding again. */
  function WriteInt(sp: Specs, ty: char, v: int): string {
    var digits := Digits(BaseOf(ty), Abs(v), ty == 'X');
    var prefix := SignPrefix(sp, v) + BasePrefix(sp, ty, v, digits);
    if sp.width == 0 && sp.precision == -1 then prefix + digits
    else Field(sp, prefix, digits)
  }

  // ------------------------------------------------------------------ what the standard asks for

  /** A conversion specification as the standard reads it: a negative precision is none. */
  datatype Request = Request(plus: bool, space: bool, alt: bool, zero: bool, left: bool, width: nat, precision: Option)

  datatype Option = None | Some(n: nat)

  function Asked(c: ConvText, args: seq<Arg>, next: int): Request {
    var flags, w := c.header.flags, c.header.width;
    var k := next + Stars(c) - 1;
    Request('+' in flags, ' ' in flags, '#' in flags, '0' in flags,
            '-' in flags || (w.WidthStar? && StarNegative(args, next)),
            match w
            case WidthAbsent => 0
            case WidthOf(n) => n
            case WidthStar => if 0 <= next < |args| && args[next].Int? then Abs(args[next].v) else 0,
            match c.precision
            case PrecisionAbsent => None
            case PrecisionEmpty => Some(0)
            case PrecisionOf(n) => Some(n)
            case PrecisionStar => if 0 <= k < |args| && args[k].Int? && args[k].v >= 0 then Some(args[k].v) else None)
  }

  // A sign belongs to the signed conversions only.
  function StandardSign(r: Request, ty: char, v: int): string {
    if !IsSigned(ty) then ""
    else if v < 0 then "-"
    else if r.plus then "+"
    else if r.space then " "
    else ""
  }

  // "0x" stands before nonzero numbers only.
  function StandardBase(r: Request, ty: char, v: int): string {
    if IsHex(ty) && r.alt && v != 0 then ['0', ty] else ""
  }

  // At least as many digits as the precision, which is one by default; '#' makes octals begin with a zero.
  function StandardDigits(r: Request, ty: char, v: int): string {
    var digits := Extended(Numerals(BaseOf(ty), Abs(v), ty == 'X'), if r.precision.Some? then r.precision.n else 1);
    if ty == 'o' && r.alt && (digits == "" || digits[0] != '0') then "0" + digits else digits
  }

  /** A text in a field: padded on the right, with zeros behind the prefix, or on the left. */
  function Layout(width: nat, left: bool, zero: bool, prefix: string, body: string): string {
    var room := width - (|prefix| + |body|);
    if left then prefix + body + Copies(' ', room)
    else if zero then prefix + Copies('0', room) + body
    else Copies(' ', room) + prefix + body
  }

  // '-' overrides '0', and so does a precision.
  function StandardZero(r: Request): bool {
    r.zero && !r.left && r.precision.None?
  }

  /**
   The text for a value under a request. For '#' with d, i and u, which the standard leaves
   undefined, it is the text without '#'.
   */
  function StandardText(r: Request, ty: char, v: int): string {
    Layout(r.width, r.left, StandardZero(r),
           StandardSign(r, ty, v) + StandardBase(r, ty, v), StandardDigits(r, ty, v))
  }

  // ------------------------------------------------------------------ when they agree

  /** The number of characters that the standard asks for without any padding. */
  function NaturalWidth(r: Request, ty: char, v: int): nat {
    |StandardSign(r, ty, v)| + |StandardBase(r, ty, v)| + |StandardDigits(r, ty, v)|
  }

  predicate NegativePrecision(c: ConvText, args: seq<Arg>, next: int) {
    c.precision.PrecisionStar? && StarNegative(args, next + Stars(c) - 1)
  }

  /**
   What has to hold for the code to write what the standard asks for: no '+' on an unsigned
   conversion; no zero under a precision of zero, but for the octal one with '#'; no '#' on a
   hexadecimal argument that its length modifier makes zero; no zero padding to be done under a
   negative precision; and ' ' on an unsigned conversion only where there is padding to hide it.
   */
  predicate MeetsStandard(r: Request, negative: bool, raw: int, ty: char, v: int) {
    && (!IsSigned(ty) ==> !r.plus)
    && (v == 0 && r.precision == Some(0) ==> ty == 'o' && r.alt)
    && (IsHex(ty) && r.alt && v == 0 ==> raw == 0)
    && (negative && StandardZero(r) ==> r.width <= NaturalWidth(r, ty, v))
    && (!IsSigned(ty) && r.space ==> !r.left && !StandardZero(r) && r.width > NaturalWidth(r, ty, v))
  }

  // ------------------------------------------------------------------ texts in fields

  lemma LayoutHas(c: char, width: nat, left: bool, zero: bool, prefix: string, body: string)
    ensures c in Layout(width, left, zero, prefix, body) <==>
              || c in prefix || c in body
              || (width > |prefix| + |body| && c == if zero && !left then '0' else ' ')
  {
    var room := width - (|prefix| + |body|);
    if room > 0 {
      assert Copies(' ', room)[0] == ' ' && Copies('0', room)[0] == '0';
    }
  }

  /** A zero may count as the last of the prefix or the first of the body. */
  lemma ZeroMoves(width: nat, left: bool, zero: bool, prefix: string, body: string)
    ensures Layout(width, left, zero, prefix + "0", body) == Layout(width, left, zero, prefix, "0" + body)
  {
    var room := width - (|prefix| + 1 + |body|);
    assert "0" + Copies('0', room) == Copies('0', room) + "0";
    assert (prefix + "0") + body == prefix + ("0" + body);
    assert (prefix + "0") + Copies('0', room) + body == prefix + ("0" + Copies('0', room)) + body;
    assert prefix + (Copies('0', room) + "0") + body == prefix + Copies('0', room) + ("0" + body);
    assert (prefix + body) == prefix + body;
    assert (prefix + "0") + body + Copies(' ', room) == prefix + ("0" + body) + Copies(' ', room);
    assert Copies(' ', room) + (prefix + "0") + body == Copies(' ', room) + prefix + ("0" + body);
  }

  /** Padding with spaces and padding with zeros are the same only if there is nothing to pad. */
  lemma ZerosOrSpaces(width: nat, prefix: string, body: string)
    requires prefix == "" || prefix[0] != ' ' || prefix == " "
    ensures Layout(width, false, false, prefix, body) == Layout(width, false, true, prefix, body) <==>
              width <= |prefix| + |body|
  {
    var room := width - (|prefix| + |body|);
    var spaces, zeros := Copies(' ', room) + prefix + body, prefix + Copies('0', room) + body;
    if room > 0 {
      if prefix == " " {
        assert spaces[1] == ' ' && zeros[1] == '0';
      } else {
        assert spaces[0] == ' ' && zeros[0] == if prefix == "" then '0' else prefix[0];
      }
    } else {
      assert spaces == prefix + body == zeros;
    }
  }

  /** A space before a number goes unnoticed only where there are spaces before it anyway. */
  lemma SpaceHidden(width: nat, left: bool, zero: bool, zero': bool, base: string, body: string)
    requires base + body != "" && (base + body)[0] != ' ' && (zero ==> zero')
    ensures Layout(width, left, zero, " " + base, body) == Layout(width, left, zero', base, body) <==>
              !left && !zero' && width > |base| + |body|
  {
    var with, without := Layout(width, left, zero, " " + base, body), Layout(width, left, zero', base, body);
    var room := width - (|base| + |body|);
    assert with[0] == ' ' by {
      if room > 1 {
        assert Copies(' ', room - 1)[0] == ' ';
      }
    }
    if left || zero' {
      assert without[0] != ' ';
    } else if room <= 0 {
      assert |with| == |without| + 1;
    } else {
      assert Copies(' ', room - 1) + " " == Copies(' ', room);
      assert with == (Copies(' ', room - 1) + " ") + base + body;
    }
  }

  // ------------------------------------------------------------------ the code's text in the same form

  /** The shape of the specs that integers are written under. */
  predicate Normal(sp: Specs) {
    && (sp.align == Numeric <==> sp.fill == '0') && (sp.fill == '0' || sp.fill == ' ')
    && sp.width >= 0 && sp.precision >= -1 && (sp.align == Numeric ==> sp.precision == -1)
  }

  lemma WrittenAsLayout(sp: Specs, ty: char, v: int)
    requires Normal(sp)
    ensures var digits := Digits(BaseOf(ty), Abs(v), ty == 'X');
            WriteInt(sp, ty, v) ==
              Layout(sp.width, sp.align == Left, sp.align == Numeric,
                     SignPrefix(sp, v) + BasePrefix(sp, ty, v, digits), Extended(digits, sp.precision))
  {
    var digits := Digits(BaseOf(ty), Abs(v), ty == 'X');
    FieldAsLayout(sp, SignPrefix(sp, v) + BasePrefix(sp, ty, v, digits), digits);
  }

  lemma NumericField(sp: Specs, prefix: string, digits: string)
    requires Normal(sp) && sp.align == Numeric
    ensures Field(sp, prefix, digits) == Layout(sp.width, false, true, prefix, digits)
  {
  }

  lemma SpacedField(sp: Specs, prefix: string, digits: string)
    requires Normal(sp) && sp.align != Numeric
    ensures Field(sp, prefix, digits) ==
              Layout(sp.width, sp.align == Left, false, prefix, Extended(digits, sp.precision))
  {
    var zeros := Copies('0', sp.precision - |digits|);
    var room := sp.width - (|prefix| + |zeros + digits|);
    assert prefix + zeros + digits == prefix + (zeros + digits);
    if sp.align == Left {
      assert Field(sp, prefix, digits) == prefix + zeros + digits + Copies(' ', room);
    } else {
      assert Copies(' ', room) + prefix + zeros + digits == Copies(' ', room) + prefix + (zeros + digits);
    }
  }

  lemma FieldAsLayout(sp: Specs, prefix: string, digits: string)
    requires Normal(sp) && digits != ""
    ensures Layout(sp.width, sp.align == Left, sp.align == Numeric, prefix, Extended(digits, sp.precision)) ==
              if sp.width == 0 && sp.precision == -1 then prefix + digits else Field(sp, prefix, digits)
  {
    if sp.align == Numeric {
      NumericField(sp, prefix, digits);
      ExtendedByNothing(digits, -1, -1);
    } else {
      SpacedField(sp, prefix, digits);
    }
    if sp.width == 0 && sp.precision == -1 {
      NoRoom(sp.align == Left, sp.align == Numeric, prefix, Extended(digits, -1));
      ExtendedByNothing(digits, -1, -1);
    }
  }

  lemma NoRoom(left: bool, zero: bool, prefix: string, body: string)
    ensures Layout(0, left, zero, prefix, body) == prefix + body
  {
  }

  lemma ExtendedByNothing(digits: string, n: int, m: int)
    requires n <= |digits| && m <= |digits|
    ensures Extended(digits, n) == Extended(digits, m) == digits
  {
  }

  /** The specs of a conversion of an integer, by what is asked for. */
  ghost predicate SpecsFor(sp: Specs, r: Request, negative: bool, raw: int) {
    && Normal(sp)
    && (sp.align == Left <==> r.left)
    && (sp.align == Numeric <==> StandardZero(r) && !negative)
    && sp.sign == (if r.plus then Plus else if r.space then Space else NoSign)
    && (sp.alt <==> r.alt && raw != 0)
    && sp.width == r.width
    && sp.precision == (if negative then 0 else if r.precision.Some? then r.precision.n else -1)
    && (negative ==> r.precision.None?)
  }

  lemma AskedSpecs(c: ConvText, args: seq<Arg>, next: int, raw: int)
    requires ValidConv(c) && next >= -1 && ConvMeaning(c, args, next).Means?
    requires var w := ConvMeaning(c, args, next).value; w.arg < |args| && args[w.arg] == Int(raw)
    ensures SpecsFor(ConvMeaning(c, args, next).value.specs, Asked(c, args, next), NegativePrecision(c, args, next),
                     raw)
  {
    FlagRules(c, args, next);
    ArgumentsDrawn(c, args, next);
  }

  // ------------------------------------------------------------------ the comparison

  // A prefix and a body in which the octal '0' counts as a digit.
  function CodeBase(r: Request, ty: char, raw: int): string {
    if IsHex(ty) && r.alt && raw != 0 then ['0', ty] else ""
  }

  function CodeSign(r: Request, v: int): string {
    if v < 0 then "-" else if r.plus then "+" else if r.space then " " else ""
  }

  function CodeDigits(r: Request, ty: char, v: int): string {
    var digits := Extended(Digits(BaseOf(ty), Abs(v), ty == 'X'), if r.precision.Some? then r.precision.n else 0);
    if ty == 'o' && r.alt && v != 0 && digits[0] != '0' then "0" + digits else digits
  }

  lemma WrittenFor(sp: Specs, r: Request, negative: bool, raw: int, ty: char, v: int)
    requires SpecsFor(sp, r, negative, raw) && IsIntegerType(ty) && (raw == 0 ==> v == 0)
    ensures WriteInt(sp, TypeFor(Int(raw), ty), v) ==
              Layout(r.width, r.left, StandardZero(r) && !negative,
                     CodeSign(r, v) + CodeBase(r, ty, raw), CodeDigits(r, ty, v))
  {
    var ty' := TypeFor(Int(raw), ty);
    var digits := Digits(BaseOf(ty), Abs(v), ty == 'X');
    WrittenAsLayout(sp, ty', v);
    assert BaseOf(ty') == BaseOf(ty) && SignPrefix(sp, v) == CodeSign(r, v);
    var p := if r.precision.Some? then r.precision.n else 0;
    if r.precision.None? {
      ExtendedByNothing(digits, sp.precision, p);
    }
    assert Extended(digits, sp.precision) == Extended(digits, p);
    if ty == 'o' && r.alt && v != 0 && sp.precision <= |digits| {
      ExtendedByNothing(digits, p, p);
      ZeroMoves(r.width, r.left, StandardZero(r) && !negative, CodeSign(r, v), digits);
    } else if ty == 'o' && r.alt && v != 0 {
      assert Extended(digits, p)[0] == '0';
    }
    assert CodeSign(r, v) + "" == CodeSign(r, v);
  }

  /** The digits are those asked for, but for a zero that should not be written at all. */
  lemma DigitsAgree(r: Request, ty: char, v: int)
    ensures var nothing := v == 0 && r.precision == Some(0) && !(ty == 'o' && r.alt);
            if nothing then StandardDigits(r, ty, v) == "" && CodeDigits(r, ty, v) == "0"
            else CodeDigits(r, ty, v) == StandardDigits(r, ty, v)
  {
    var n := if r.precision.Some? then r.precision.n else 1;
    if v != 0 {
      ExtendedByNothing(Numerals(BaseOf(ty), Abs(v), ty == 'X'), 0, 1);
    } else {
      ZeroExtended(n);
    }
  }

  lemma ZeroExtended(n: nat)
    ensures n >= 1 ==> Extended("", n) == Extended("0", n) && Extended("", n)[0] == '0'
    ensures Extended("", 0) == "" && Extended("0", 0) == Extended("0", 1) == "0"
  {
    if n >= 1 {
      assert Copies('0', n - 1) + "0" == Copies('0', n);
    }
  }

  lemma StandardDigitsAre(r: Request, ty: char, v: int)
    ensures forall i :: 0 <= i < |StandardDigits(r, ty, v)| ==> IsNumeral(StandardDigits(r, ty, v)[i])
    ensures StandardDigits(r, ty, v) == "" ==> v == 0 && r.precision == Some(0) && !(ty == 'o' && r.alt)
  {
  }

  // The character that gives the code away.
  lemma PlusShows(r: Request, zero: bool, raw: int, ty: char, v: int)
    requires !IsSigned(ty) && v >= 0 && r.plus
    ensures StandardText(r, ty, v) !=
              Layout(r.width, r.left, zero, CodeSign(r, v) + CodeBase(r, ty, raw), CodeDigits(r, ty, v))
  {
    StandardDigitsAre(r, ty, v);
    LayoutHas('+', r.width, r.left, StandardZero(r),
              StandardSign(r, ty, v) + StandardBase(r, ty, v), StandardDigits(r, ty, v));
    LayoutHas('+', r.width, r.left, zero, CodeSign(r, v) + CodeBase(r, ty, raw), CodeDigits(r, ty, v));
    assert (CodeSign(r, v) + CodeBase(r, ty, raw))[0] == '+';
  }

  lemma ZeroShows(r: Request, zero: bool, raw: int, ty: char, v: int)
    requires v == 0 && r.precision == Some(0) && !(ty == 'o' && r.alt)
    ensures StandardText(r, ty, v) !=
              Layout(r.width, r.left, zero, CodeSign(r, v) + CodeBase(r, ty, raw), CodeDigits(r, ty, v))
  {
    DigitsAgree(r, ty, v);
    LayoutHas('0', r.width, r.left, StandardZero(r),
              StandardSign(r, ty, v) + StandardBase(r, ty, v), StandardDigits(r, ty, v));
    LayoutHas('0', r.width, r.left, zero, CodeSign(r, v) + CodeBase(r, ty, raw), CodeDigits(r, ty, v));
    assert CodeDigits(r, ty, v)[0] == '0';
  }

  lemma BaseShows(r: Request, zero: bool, raw: int, ty: char, v: int)
    requires IsHex(ty) && r.alt && v == 0 && raw != 0
    ensures StandardText(r, ty, v) !=
              Layout(r.width, r.left, zero, CodeSign(r, v) + CodeBase(r, ty, raw), CodeDigits(r, ty, v))
  {
    StandardDigitsAre(r, ty, v);
    LayoutHas(ty, r.width, r.left, StandardZero(r),
              StandardSign(r, ty, v) + StandardBase(r, ty, v), StandardDigits(r, ty, v));
    LayoutHas(ty, r.width, r.left, zero, CodeSign(r, v) + CodeBase(r, ty, raw), CodeDigits(r, ty, v));
    var prefix := CodeSign(r, v) + CodeBase(r, ty, raw);
    assert prefix[|prefix| - 1] == ty;
  }

  lemma SpaceCase(r: Request, negative: bool, raw: int, ty: char, v: int)
    requires IsIntegerType(ty) && !IsSigned(ty) && v >= 0 && r.space && !r.plus && (raw == 0 ==> v == 0)
    requires !(v == 0 && r.precision == Some(0) && !(ty == 'o' && r.alt)) && !(IsHex(ty) && r.alt && v == 0 && raw != 0)
    ensures StandardText(r, ty, v) ==
              Layout(r.width, r.left, StandardZero(r) && !negative,
                     CodeSign(r, v) + CodeBase(r, ty, raw), CodeDigits(r, ty, v))
        <==> !r.left && !StandardZero(r) && r.width > NaturalWidth(r, ty, v)
  {
    DigitsAgree(r, ty, v);
    StandardDigitsAre(r, ty, v);
    var base, digits := StandardBase(r, ty, v), StandardDigits(r, ty, v);
    assert CodeBase(r, ty, raw) == base && "" + base == base;
    SpaceHidden(r.width, r.left, StandardZero(r) && !negative, StandardZero(r), base, digits);
  }

  lemma ZeroCase(r: Request, negative: bool, raw: int, ty: char, v: int)
    requires IsIntegerType(ty) && (IsSigned(ty) || (v >= 0 && !r.space && !r.plus)) && (raw == 0 ==> v == 0)
    requires !(v == 0 && r.precision == Some(0) && !(ty == 'o' && r.alt)) && !(IsHex(ty) && r.alt && v == 0 && raw != 0)
    ensures StandardText(r, ty, v) ==
              Layout(r.width, r.left, StandardZero(r) && !negative,
                     CodeSign(r, v) + CodeBase(r, ty, raw), CodeDigits(r, ty, v))
        <==> (negative && StandardZero(r) ==> r.width <= NaturalWidth(r, ty, v))
  {
    DigitsAgree(r, ty, v);
    var prefix := StandardSign(r, ty, v) + StandardBase(r, ty, v);
    assert CodeSign(r, v) == StandardSign(r, ty, v) && CodeBase(r, ty, raw) == StandardBase(r, ty, v);
    ZerosOrSpaces(r.width, prefix, StandardDigits(r, ty, v));
  }

  lemma MeetsExactly(r: Request, negative: bool, raw: int, ty: char, v: int)
    requires IsIntegerType(ty) && (IsSigned(ty) || v >= 0) && (raw == 0 ==> v == 0)
    ensures StandardText(r, ty, v) ==
              Layout(r.width, r.left, StandardZero(r) && !negative,
                     CodeSign(r, v) + CodeBase(r, ty, raw), CodeDigits(r, ty, v))
        <==> MeetsStandard(r, negative, raw, ty, v)
  {
    var zero := StandardZero(r) && !negative;
    if !IsSigned(ty) && r.plus {
      PlusShows(r, zero, raw, ty, v);
    } else if v == 0 && r.precision == Some(0) && !(ty == 'o' && r.alt) {
      ZeroShows(r, zero, raw, ty, v);
    } else if IsHex(ty) && r.alt && v == 0 && raw != 0 {
      BaseShows(r, zero, raw, ty, v);
    } else if !IsSigned(ty) && r.space {
      SpaceCase(r, negative, raw, ty, v);
    } else {
      ZeroCase(r, negative, raw, ty, v);
    }
  }

  lemma WrittenAgrees(sp: Specs, r: Request, negative: bool, raw: int, ty: char, v: int)
    requires SpecsFor(sp, r, negative, raw)
    requires IsIntegerType(ty) && (IsSigned(ty) || v >= 0) && (raw == 0 ==> v == 0)
    ensures WriteInt(sp, TypeFor(Int(raw), ty), v) == StandardText(r, ty, v) <==> MeetsStandard(r, negative, raw, ty, v)
  {
    WrittenFor(sp, r, negative, raw, ty, v);
    MeetsExactly(r, negative, raw, ty, v);
  }

  lemma TypeWritten(c: ConvText, args: seq<Arg>, next: int)
    requires ConvMeaning(c, args, next).Means?
    ensures var w := ConvMeaning(c, args, next).value;
            w.arg < |args| && w.ty == TypeFor(args[w.arg], c.ty)
  {
  }

  /**
   For every conversion of an integer argument that is written at all: the text is the one that the
   standard asks for if and only if the conversion meets it. The length modifier makes `v` of the
   argument `raw`, in the same way for both.
   */
  lemma AgreesWithStandardExactly(c: ConvText, args: seq<Arg>, next: int, raw: int, v: int)
    requires ValidConv(c) && c.ty in "diuoxX" && next >= -1 && ConvMeaning(c, args, next).Means?
    requires var w := ConvMeaning(c, args, next).value; w.arg < |args| && args[w.arg] == Int(raw)
    requires (c.ty in "di" || v >= 0) && (raw == 0 ==> v == 0)
    ensures var w, r := ConvMeaning(c, args, next).value, Asked(c, args, next);
            WriteInt(w.specs, w.ty, v) == StandardText(r, c.ty, v) <==>
              MeetsStandard(r, NegativePrecision(c, args, next), raw, c.ty, v)
  {
    AskedSpecs(c, args, next, raw);
    TypeWritten(c, args, next);
    WrittenAgrees(ConvMeaning(c, args, next).value.specs, Asked(c, args, next), NegativePrecision(c, args, next),
                  raw, c.ty, v);
  }

  // ------------------------------------------------------------------ where they differ

  // The texts of the code and of the standard for one conversion of the last argument.
  ghost predicate Texts(c: ConvText, args: seq<Arg>, v: int, code: string, standard: string) {
    && ConvMeaning(c, args, 0).Means?
    && var w := ConvMeaning(c, args, 0).value;
       && w.arg == |args| - 1
       && WriteInt(w.specs, w.ty, v) == code && StandardText(Asked(c, args, 0), c.ty, v) == standard
  }

  /** "%+x" of 42. */
  lemma PlusOnUnsigned()
    ensures var c := ConvText(HeaderText(0, "+", WidthAbsent), PrecisionAbsent, NoLength, 'x');
            PrintConv(c) == "+x" && Texts(c, [Int(42)], 42, "+2a", "2a")
  {
    FlagsAreASet(FRESH, "+");
    assert Numerals(16, 42, false) == Numerals(16, 2, false) + "a";
  }

  /** "%.0d", "%.0o" and "%#.0o" of 0: only the last of them asks for a zero. */
  lemma ZeroUnderNoPrecision()
    ensures var c := ConvText(HeaderText(0, "", WidthAbsent), PrecisionOf(0), NoLength, 'd');
            PrintConv(c) == ".0d" && Texts(c, [Int(0)], 0, "0", "")
    ensures var c := ConvText(HeaderText(0, "", WidthAbsent), PrecisionOf(0), NoLength, 'o');
            PrintConv(c) == ".0o" && Texts(c, [Int(0)], 0, "0", "")
    ensures var c := ConvText(HeaderText(0, "#", WidthAbsent), PrecisionOf(0), NoLength, 'o');
            PrintConv(c) == "#.0o" && Texts(c, [Int(0)], 0, "0", "0")
  {
    FlagsAreASet(FRESH, "");
    FlagsAreASet(FRESH, "#");
    ZeroExtended(0);
  }

  /** "%#hhx" of 256, which the length modifier makes 0. */
  lemma BaseOfTruncated()
    ensures var c := ConvText(HeaderText(0, "#", WidthAbsent), PrecisionAbsent, LenHH, 'x');
            PrintConv(c) == "#hhx" && Texts(c, [Int(256)], 0, "0x0", "0")
  {
    FlagsAreASet(FRESH, "#");
    ZeroExtended(1);
  }

  const UNPADDED := ConvText(HeaderText(0, "0", WidthOf(2)), PrecisionStar, NoLength, 'd')

  lemma UnpaddedSpecs()
    ensures PrintConv(UNPADDED) == "02.*d"
    ensures ConvMeaning(UNPADDED, [Int(-1), Int(7)], 0) ==
              Means(Written(1, Specs(Right, NoSign, ' ', false, 2, 0), NoLength, 'd'), 2)
    ensures Asked(UNPADDED, [Int(-1), Int(7)], 0) == Request(false, false, false, true, false, 2, None)
  {
    FlagsAreASet(FRESH, "0");
  }

  lemma Seven()
    ensures Digits(10, 7, false) == Numerals(10, 7, false) == "7"
  {
  }

  lemma UnpaddedWritten()
    ensures WriteInt(Specs(Right, NoSign, ' ', false, 2, 0), 'd', 7) == " 7"
  {
    Seven();
    UnpaddedField();
  }

  lemma UnpaddedField()
    ensures Field(Specs(Right, NoSign, ' ', false, 2, 0), "", "7") == " 7"
  {
    assert Copies(' ', 1) == " ";
  }

  lemma UnpaddedAsked()
    ensures StandardText(Request(false, false, false, true, false, 2, None), 'd', 7) == "07"
  {
    Seven();
    assert Copies('0', 1) == "0";
  }

  /** "%02.*d" of -1 and 7. */
  lemma NegativePrecisionUnpads()
    ensures PrintConv(UNPADDED) == "02.*d" && Texts(UNPADDED, [Int(-1), Int(7)], 7, " 7", "07")
  {
    UnpaddedSpecs();
    UnpaddedWritten();
    UnpaddedAsked();
  }

  function Spaced(width: Width): ConvText {
    ConvText(HeaderText(0, " ", width), PrecisionAbsent, NoLength, 'x')
  }

  lemma SpacedSpecs(width: Width)
    requires width.WidthAbsent? || (width.WidthOf? && width.n == 5)
    ensures var n := if width.WidthOf? then 5 else 0;
            && ConvMeaning(Spaced(width), [Int(42)], 0) ==
                 Means(Written(0, Specs(Right, Space, ' ', false, n, -1), NoLength, 'x'), 1)
            && Asked(Spaced(width), [Int(42)], 0) == Request(false, true, false, false, false, n, None)
  {
    FlagsAreASet(FRESH, " ");
  }

  lemma FortyTwo()
    ensures Numerals(16, 42, false) == "2a"
  {
    assert Numerals(16, 42, false) == Numerals(16, 2, false) + "a";
  }

  lemma SpacedWritten()
    ensures WriteInt(Specs(Right, Space, ' ', false, 0, -1), 'x', 42) == " 2a"
    ensures WriteInt(Specs(Right, Space, ' ', false, 5, -1), 'x', 42) == "   2a"
  {
    FortyTwo();
    assert Copies(' ', 2) == "  ";
  }

  lemma SpacedAsked()
    ensures StandardText(Request(false, true, false, false, false, 0, None), 'x', 42) == "2a"
    ensures StandardText(Request(false, true, false, false, false, 5, None), 'x', 42) == "   2a"
  {
    FortyTwo();
    assert Copies(' ', 3) == "   ";
  }

  /** "% x" of 42, and "% 5x", where the padding hides the space. */
  lemma SpaceOnUnsigned()
    ensures PrintConv(Spaced(WidthAbsent)) == " x" && Texts(Spaced(WidthAbsent), [Int(42)], 42, " 2a", "2a")
    ensures PrintConv(Spaced(WidthOf(5))) == " 5x" && Texts(Spaced(WidthOf(5)), [Int(42)], 42, "   2a", "   2a")
  {
    SpacedSpecs(WidthAbsent);
    SpacedSpecs(WidthOf(5));
    SpacedWritten();
    SpacedAsked();
  }
}
