/** The conversions of a printf format (printf.h), and formats that use them. */
module PrintfScan {
  import opened Decimal
  import opened PrintfFormat
  import opened PrintfLoop

  // ------------------------------------------------------------------ the parts of a conversion

  datatype PrecisionResult = PrecisionIs(it: nat, specs: Specs, next: int) | NotPrecise(e: Error)

  function PrecisionFromArg(it: nat, sp: Specs, args: seq<Arg>, next: int): PrecisionResult {
    match GetArg(args, next, -1)
    case NotDrawn(e) => NotPrecise(e)
    case Drawn(arg, _, next') =>
      if !arg.Int? then NotPrecise(PrecisionNotInteger)
      else if !(-INT_MAX - 1 <= arg.v <= INT_MAX) then NotPrecise(TooBig)
      else PrecisionIs(it, sp.(precision := if arg.v < 0 then 0 else arg.v), next')
  }

  function ParsePrecision(s: string, it: nat, sp: Specs, args: seq<Arg>, next: int): (r: PrecisionResult)
    requires it <= |s|
    ensures r.PrecisionIs? ==> it <= r.it <= |s|
  {
    if At(s, it) != '.' || it == |s| then PrecisionIs(it, sp, next)
    else if IsDigit(At(s, it + 1)) then
      var end := DigitsEnd(s, it + 1);
      var n := Value(s[it + 1..end]);
      if n > INT_MAX then NotPrecise(TooBig) else PrecisionIs(end, sp.(precision := n), next)
    else if it + 1 < |s| && s[it + 1] == '*' then PrecisionFromArg(it + 2, sp, args, next)
    else PrecisionIs(it + 1, sp.(precision := 0), next)
  }

  // The adjustments that depend on the argument.
  function Normalize(sp: Specs, arg: Arg): Specs {
    var sp1 := if sp.precision >= 0 && arg.Int? then sp.(fill := ' ') else sp;
    var sp2 := if sp1.alt && arg == Int(0) then sp1.(alt := false) else sp1;
    if sp2.fill != '0' then sp2
    else if (arg.Int? || arg.Float?) && sp2.align != Left then sp2.(align := Numeric)
    else sp2.(fill := ' ')
  }

  // At the end of the string the source steps back onto the last character it has read.
  function ParseLength(s: string, it: nat): (r: (Length, nat))
    requires 0 < it <= |s|
    ensures it - 1 <= r.1 <= |s| && (it < |s| ==> it <= r.1)
  {
    if it == |s| then (NoLength, it - 1)
    else
      match s[it]
      case 'h' => if At(s, it + 1) == 'h' then (LenHH, it + 2) else (LenH, it + 1)
      case 'l' => if At(s, it + 1) == 'l' then (LenLL, it + 2) else (LenL, it + 1)
      case 'j' => (LenJ, it + 1)
      case 'z' => (LenZ, it + 1)
      case 't' => (LenT, it + 1)
      case 'L' => (LenBigL, it + 1)
      case _ => (NoLength, it)
  }

  function TypeFor(arg: Arg, ty: char): char {
    if arg.Int? && (ty == 'i' || ty == 'u') then 'd' else ty
  }

  function ParseValue(s: string, it: nat, sp: Specs, index: int, args: seq<Arg>, next: int): (c: Conversion)
    requires 0 < it <= |s|
    ensures c.Parsed? ==> it <= c.it <= |s|
  {
    match GetArg(args, next, index)
    case NotDrawn(e) => Unparsed(e)
    case Drawn(arg, id, next') =>
      var (length, it1) := ParseLength(s, it);
      if it1 == |s| then Unparsed(InvalidFormat)
      else Parsed(Written(id, Normalize(sp, arg), length, TypeFor(arg, s[it1])), it1 + 1, next')
  }

  function ParsePrecise(s: string, it: nat, sp: Specs, index: int, args: seq<Arg>, next: int): (c: Conversion)
    requires 0 < it <= |s|
    ensures c.Parsed? ==> it <= c.it <= |s|
  {
    match ParsePrecision(s, it, sp, args, next)
    case NotPrecise(e) => Unparsed(e)
    case PrecisionIs(it2, sp2, next2) => ParseValue(s, it2, sp2, index, args, next2)
  }

  function ParseConversion(s: string, it: nat, args: seq<Arg>, next: int): (c: Conversion)
    requires 0 < it <= |s|
    ensures c.Parsed? ==> it <= c.it <= |s|
  {
    match ParseHeader(s, it, FRESH, args, next)
    case NoHeader(e) => Unparsed(e)
    case Header(index, it1, sp, next1) =>
      if index == 0 then Unparsed(NoSuchArg) else ParsePrecise(s, it1, sp, index, args, next1)
  }

  /** What the loop calls once it has read a '%'. */
  function Parser(s: string, args: seq<Arg>): (nat, int) -> Conversion {
    (it: nat, next: int) => if 0 < it <= |s| then ParseConversion(s, it, args, next) else Unparsed(InvalidFormat)
  }

  lemma ParserGoesOn(s: string, args: seq<Arg>)
    ensures GoesOn(s, Parser(s, args))
  {
  }

  method Format(s: string, args: seq<Arg>) returns (r: Scanned)
    ensures GoesOn(s, Parser(s, args)) && r == Scan(s, 0, 0, Parser(s, args), 0)
  {
    ParserGoesOn(s, args);
    r := FormatLoop(s, Parser(s, args));
  }

  // ------------------------------------------------------------------ printing formats

  datatype Precision = PrecisionAbsent | PrecisionOf(n: nat) | PrecisionStar | PrecisionEmpty

  datatype ConvText = ConvText(header: HeaderText, precision: Precision, length: Length, ty: char)

  // What may stand for a type: any character that cannot be another part of a conversion.
  predicate IsTypeLetter(c: char) {
    c !in "-+ #0123456789$*.%hljztL"
  }

  predicate ValidConv(c: ConvText) {
    ValidHeader(c.header) && IsTypeLetter(c.ty) && (c.precision.PrecisionOf? ==> c.precision.n <= 2147483647)
  }

  function PrintPrecision(p: Precision): string {
    match p
    case PrecisionAbsent => ""
    case PrecisionOf(n) => "." + Render(n)
    case PrecisionStar => ".*"
    case PrecisionEmpty => "."
  }

  function PrintLength(l: Length): string {
    match l
    case NoLength => ""
    case LenHH => "hh"
    case LenH => "h"
    case LenL => "l"
    case LenLL => "ll"
    case LenJ => "j"
    case LenZ => "z"
    case LenT => "t"
    case LenBigL => "L"
  }

  function PrintEnd(c: ConvText): string {
    PrintLength(c.length) + [c.ty]
  }

  function PrintConv(c: ConvText): string {
    PrintHeader(c.header) + (PrintPrecision(c.precision) + PrintEnd(c))
  }

  // ------------------------------------------------------------------ what a format means

  function PrecisionMeaning(p: Precision, it: nat, sp: Specs, args: seq<Arg>, next: int): PrecisionResult {
    match p
    case PrecisionAbsent => PrecisionIs(it, sp, next)
    case PrecisionOf(n) => PrecisionIs(it, sp.(precision := n), next)
    case PrecisionStar => PrecisionFromArg(it, sp, args, next)
    case PrecisionEmpty => PrecisionIs(it, sp.(precision := 0), next)
  }

  function ValueMeaning(c: ConvText, sp: Specs, index: int, args: seq<Arg>, next: int): Interp {
    match GetArg(args, next, index)
    case NotDrawn(e) => Fails(e)
    case Drawn(arg, id, next') => Means(Written(id, Normalize(sp, arg), c.length, TypeFor(arg, c.ty)), next')
  }

  function PreciseMeaning(c: ConvText, sp: Specs, index: int, args: seq<Arg>, next: int): Interp {
    match PrecisionMeaning(c.precision, 0, sp, args, next)
    case NotPrecise(e) => Fails(e)
    case PrecisionIs(_, sp2, next2) => ValueMeaning(c, sp2, index, args, next2)
  }

  /** A conversion read off its parts: width and precision arguments are drawn before the value. */
  function ConvMeaning(c: ConvText, args: seq<Arg>, next: int): Interp {
    match HeaderMeaning(c.header, 0, args, next)
    case NoHeader(e) => Fails(e)
    case Header(index, _, sp, next1) => PreciseMeaning(c, sp, index, args, next1)
  }

  function Language(args: seq<Arg>): Language<ConvText> {
    PrintfLoop.Language(c => PrintConv(c), (c, next) => ConvMeaning(c, args, next), c => ValidConv(c))
  }

  // ------------------------------------------------------------------ the rules of the flags

  predicate Arithmetic(arg: Arg) {
    arg.Int? || arg.Float?
  }

  // The argument of a '*' that is drawn when the counter stands at `next`.
  predicate StarNegative(args: seq<Arg>, next: int) {
    0 <= next < |args| && args[next].Int? && args[next].v < 0
  }

  lemma NormalizedFlags(sp: Specs, arg: Arg)
    requires sp.align != Numeric
    ensures var n := Normalize(sp, arg);
            && n == sp.(fill := n.fill, align := n.align, alt := n.alt)
            && (sp.fill == ' ' ==> n.fill == ' ') && (sp.fill == '0' ==> n.fill == '0' || n.fill == ' ')
            && (n.fill == '0' <==>
                  sp.fill == '0' && Arithmetic(arg) && sp.align != Left && !(sp.precision >= 0 && arg.Int?))
            && n.align == (if n.fill == '0' then Numeric else sp.align)
            && (n.alt <==> sp.alt && arg != Int(0))
  {
  }

  lemma HeaderFlags(h: HeaderText, args: seq<Arg>, next: int)
    requires HeaderMeaning(h, 0, args, next).Header?
    ensures var sp := HeaderMeaning(h, 0, args, next).specs;
            && sp.align == (if '-' in h.flags || (h.width.WidthStar? && StarNegative(args, next)) then Left else Right)
            && sp.sign == (if '+' in h.flags then Plus else if ' ' in h.flags then Space else NoSign)
            && sp.fill == (if '0' in h.flags then '0' else ' ')
            && sp.alt == ('#' in h.flags)
            && sp.precision == -1
  {
    FlagsAreASet(FRESH, h.flags);
  }

  lemma PrecisionOnly(p: Precision, sp: Specs, args: seq<Arg>, next: int)
    requires PrecisionMeaning(p, 0, sp, args, next).PrecisionIs? && sp.precision == -1
    ensures var sp' := PrecisionMeaning(p, 0, sp, args, next).specs;
            sp' == sp.(precision := sp'.precision) && (sp'.precision >= 0 <==> !p.PrecisionAbsent?)
  {
  }

  /**
   The specs under which an argument is written: zeros pad only numbers that are not left-aligned,
   and no integers with a precision; '-' or a negative '*' width aligns to the left; '+' beats ' ';
   '#' is dropped for an integer zero.
   */
  lemma FlagRules(c: ConvText, args: seq<Arg>, next: int)
    requires ValidConv(c) && ConvMeaning(c, args, next).Means?
    ensures var v, flags, w := ConvMeaning(c, args, next).value, c.header.flags, c.header.width;
            v.arg < |args| &&
            var arg, sp := args[v.arg], v.specs;
            var left := '-' in flags || (w.WidthStar? && StarNegative(args, next));
            && (sp.fill == '0' || sp.fill == ' ')
            && (sp.fill == '0' <==>
                  '0' in flags && Arithmetic(arg) && !left && !(arg.Int? && !c.precision.PrecisionAbsent?))
            && sp.align == (if left then Left else if sp.fill == '0' then Numeric else Right)
            && sp.sign == (if '+' in flags then Plus else if ' ' in flags then Space else NoSign)
            && (sp.alt <==> '#' in flags && arg != Int(0))
  {
    HeaderFlags(c.header, args, next);
    var Header(index, _, sp1, next1) := HeaderMeaning(c.header, 0, args, next);
    PrecisionOnly(c.precision, sp1, args, next1);
    NormalizedFlags(PrecisionMeaning(c.precision, 0, sp1, args, next1).specs,
                    args[ConvMeaning(c, args, next).value.arg]);
  }

  function Stars(c: ConvText): nat {
    (if c.header.width.WidthStar? then 1 else 0) + (if c.precision.PrecisionStar? then 1 else 0)
  }

  lemma HeaderDraws(h: HeaderText, args: seq<Arg>, next: int)
    requires next >= -1 && HeaderMeaning(h, 0, args, next).Header?
    ensures var Header(index, _, sp, next1) := HeaderMeaning(h, 0, args, next);
            && index == (if h.index == 0 then -1 else h.index) && sp.precision == -1
            && next1 == next + (if h.width.WidthStar? then 1 else 0)
            && (h.width.WidthOf? ==> sp.width == h.width.n)
            && (h.width.WidthAbsent? ==> sp.width == 0)
            && (h.width.WidthStar? ==>
                  0 <= next < |args| && args[next].Int? &&
                  sp.width == if args[next].v < 0 then -args[next].v else args[next].v)
  {
    FlagsAreASet(FRESH, h.flags);
  }

  /**
   Which arguments a conversion draws: the width's, the precision's and then its own, one after
   the other; or the one with its index, and then nothing may be drawn in turn before or after.
   */
  lemma ArgumentsDrawn(c: ConvText, args: seq<Arg>, next: int)
    requires ValidConv(c) && next >= -1 && ConvMeaning(c, args, next).Means?
    ensures var Means(v, next') := ConvMeaning(c, args, next);
            && v.arg < |args|
            && v.length == c.length && v.ty == (if args[v.arg].Int? && c.ty in "iu" then 'd' else c.ty)
            && (c.header.index == 0 ==> next >= 0 && v.arg == next + Stars(c) && next' == v.arg + 1)
            && (c.header.index > 0 ==> next <= 0 && Stars(c) == 0 && v.arg == c.header.index - 1 && next' == -1)
            && (c.header.width.WidthOf? ==> v.specs.width == c.header.width.n)
            && (c.header.width.WidthAbsent? ==> v.specs.width == 0)
            && (c.header.width.WidthStar? ==>
                  args[next].Int? && v.specs.width == if args[next].v < 0 then -args[next].v else args[next].v)
            && (c.precision.PrecisionOf? ==> v.specs.precision == c.precision.n)
            && (c.precision.PrecisionEmpty? ==> v.specs.precision == 0)
            && (c.precision.PrecisionAbsent? ==> v.specs.precision == -1)
            && (c.precision.PrecisionStar? ==>
                  var k := next + Stars(c) - 1;
                  k < |args| && args[k].Int? && v.specs.precision == if args[k].v < 0 then 0 else args[k].v)
  {
    HeaderDraws(c.header, args, next);
  }

  // ------------------------------------------------------------------ reading a printed conversion

  lemma PrecisionRead(s: string, it: nat, p: Precision, end: nat, sp: Specs, args: seq<Arg>, next: int)
    requires Stands(s, it, PrintPrecision(p)) && end == it + |PrintPrecision(p)|
    requires EndsHeader(At(s, end)) && At(s, end) != '.' && (p.PrecisionOf? ==> p.n <= INT_MAX)
    ensures it <= |s| && ParsePrecision(s, it, sp, args, next) == PrecisionMeaning(p, end, sp, args, next)
  {
    match p {
      case PrecisionAbsent =>
      case PrecisionEmpty => assert s[it + 0] == "."[0];
      case PrecisionStar => assert s[it + 0] == ".*"[0] && s[it + 1] == ".*"[1];
      case PrecisionOf(n) =>
        StandsSplit(s, it, ".", Render(n));
        assert s[it + 0] == "."[0];
        NumberRead(s, it + 1, n, end);
    }
  }

  lemma LengthRead(s: string, it: nat, c: ConvText)
    requires 0 < it && Stands(s, it, PrintEnd(c)) && IsTypeLetter(c.ty)
    ensures var end := it + |PrintLength(c.length)|;
            it <= end < |s| && ParseLength(s, it) == (c.length, end) && s[end] == c.ty
    ensures EndsHeader(At(s, it)) && At(s, it) != '.'
  {
    var l := PrintLength(c.length);
    StandsSplit(s, it, l, [c.ty]);
    assert s[it + |l| + 0] == [c.ty][0];
    if |l| > 0 {
      assert s[it + 0] == l[0];
      if |l| > 1 {
        assert s[it + 1] == l[1];
      }
    }
  }

  lemma EndOfHeader(s: string, it: nat, c: ConvText)
    requires 0 < it && Stands(s, it, PrintPrecision(c.precision) + PrintEnd(c)) && IsTypeLetter(c.ty)
    ensures EndsHeader(At(s, it))
  {
    var p := PrintPrecision(c.precision);
    StandsSplit(s, it, p, PrintEnd(c));
    LengthRead(s, it + |p|, c);
    if p != "" {
      assert s[it + 0] == p[0];
    }
  }

  lemma ValueRead(s: string, it: nat, c: ConvText, sp: Specs, index: int, args: seq<Arg>, next: int)
    requires 0 < it && Stands(s, it, PrintEnd(c)) && IsTypeLetter(c.ty)
    ensures it <= |s|
    ensures ParseValue(s, it, sp, index, args, next) == ValueMeaning(c, sp, index, args, next).At(it + |PrintEnd(c)|)
  {
    LengthRead(s, it, c);
  }

  lemma PreciseRead(s: string, it: nat, c: ConvText, sp: Specs, index: int, args: seq<Arg>, next: int)
    requires 0 < it && Stands(s, it, PrintPrecision(c.precision) + PrintEnd(c)) && ValidConv(c)
    ensures it <= |s|
    ensures ParsePrecise(s, it, sp, index, args, next) ==
              PreciseMeaning(c, sp, index, args, next).At(it + |PrintPrecision(c.precision) + PrintEnd(c)|)
  {
    var p := PrintPrecision(c.precision);
    var it2 := it + |p|;
    StandsSplit(s, it, p, PrintEnd(c));
    LengthRead(s, it2, c);
    PrecisionRead(s, it, c.precision, it2, sp, args, next);
    PrecisionElsewhere(c.precision, it2, sp, args, next);
    match PrecisionMeaning(c.precision, it2, sp, args, next) {
      case NotPrecise(e) =>
      case PrecisionIs(_, sp2, next2) => ValueRead(s, it2, c, sp2, index, args, next2);
    }
  }

  /** A printed conversion is parsed to what it means. */
  lemma ConvRead(s: string, it: nat, c: ConvText, args: seq<Arg>, next: int)
    requires 0 < it && Stands(s, it, PrintConv(c)) && ValidConv(c)
    ensures it <= |s|
    ensures ParseConversion(s, it, args, next) == ConvMeaning(c, args, next).At(it + |PrintConv(c)|)
  {
    var h := PrintHeader(c.header);
    var it1 := it + |h|;
    StandsSplit(s, it, h, PrintPrecision(c.precision) + PrintEnd(c));
    EndOfHeader(s, it1, c);
    PrintThenParseHeader(c.header, s, it, args, next);
    HeaderElsewhere(c.header, it1, args, next);
    match HeaderMeaning(c.header, it1, args, next) {
      case NoHeader(e) =>
      case Header(index, _, sp, next1) => PreciseRead(s, it1, c, sp, index, args, next1);
    }
  }

  lemma HeaderElsewhere(h: HeaderText, it: nat, args: seq<Arg>, next: int)
    ensures var m := HeaderMeaning(h, it, args, next);
            if m.NoHeader? then HeaderMeaning(h, 0, args, next) == m
            else m.index != 0 && m.it == it && HeaderMeaning(h, 0, args, next) == m.(it := 0)
  {
  }

  lemma PrecisionElsewhere(p: Precision, it: nat, sp: Specs, args: seq<Arg>, next: int)
    ensures var m := PrecisionMeaning(p, it, sp, args, next);
            if m.NotPrecise? then PrecisionMeaning(p, 0, sp, args, next) == m
            else m.it == it && PrecisionMeaning(p, 0, sp, args, next) == m.(it := 0)
  {
  }

  lemma FirstOfHeader(h: HeaderText)
    requires ValidHeader(h) && PrintHeader(h) != ""
    ensures PrintHeader(h)[0] != '%'
  {
    var t := h.flags + PrintWidth(h.width);
    ValidFlags(h.flags);
    if h.index > 0 {
      RenderThenValue(h.index);
      assert PrintHeader(h)[0] == Render(h.index)[0];
    } else if h.flags != "" {
      assert PrintHeader(h)[0] == h.flags[0];
    } else if h.width.WidthOf? {
      RenderThenValue(h.width.n);
      assert PrintHeader(h) == Render(h.width.n);
    }
  }

  /** A printed conversion does not begin with '%', so it is not taken for a literal one. */
  lemma FirstOfConv(s: string, it: nat, c: ConvText)
    requires 0 < it && Stands(s, it, PrintConv(c)) && ValidConv(c)
    ensures it <= |s| && At(s, it) != '%'
  {
    var h, p := PrintHeader(c.header), PrintPrecision(c.precision);
    StandsSplit(s, it, h, p + PrintEnd(c));
    if h != "" {
      FirstOfHeader(c.header);
      assert s[it + 0] == h[0];
    } else {
      FirstOfEnd(s, it, c);
    }
  }

  lemma FirstOfEnd(s: string, it: nat, c: ConvText)
    requires 0 < it && Stands(s, it, PrintPrecision(c.precision) + PrintEnd(c)) && IsTypeLetter(c.ty)
    ensures it < |s| && s[it] != '%'
  {
    var p := PrintPrecision(c.precision);
    StandsSplit(s, it, p, PrintEnd(c));
    if p != "" {
      assert s[it + 0] == p[0];
    } else {
      assert s[it + 0] == PrintEnd(c)[0];
    }
  }

  lemma ParserAgrees(s: string, args: seq<Arg>)
    ensures Agrees(s, Parser(s, args), Language(args))
  {
    forall c: ConvText, it: nat, next: int
      ensures AgreesOn(s, Parser(s, args), Language(args), c, it, next)
    {
      if 0 < it && ValidConv(c) && Stands(s, it, PrintConv(c)) {
        FirstOfConv(s, it, c);
        ConvRead(s, it, c, args, next);
      }
    }
  }

  /** Scanning a printed format gives its text and its conversions in order, errors included. */
  lemma PrintThenScan(items: seq<Item<ConvText>>, args: seq<Arg>)
    requires AllValid(Language(args), items)
    ensures var s := Print(Language(args), items);
            GoesOn(s, Parser(s, args)) && Replay(Scan(s, 0, 0, Parser(s, args), 0)) == Meaning(Language(args), items, 0)
  {
    var s := Print(Language(args), items);
    ParserGoesOn(s, args);
    ParserAgrees(s, args);
    ScanUndoesPrint(Parser(s, args), Language(args), items);
  }

  // ------------------------------------------------------------------ conversions without a type

  function CutOff(m: Interp, l: Length, end: nat): Conversion {
    if l == NoLength then m.At(end) else Unparsed(if m.Means? then InvalidFormat else m.e)
  }

  lemma CutOffLength(s: string, it: nat, l: Length)
    requires 0 < it && Stands(s, it, PrintLength(l)) && |s| == it + |PrintLength(l)|
    ensures ParseLength(s, it) == (l, if l == NoLength then |s| - 1 else |s|)
    ensures EndsHeader(At(s, it)) && At(s, it) != '.'
  {
    var t := PrintLength(l);
    if t != "" {
      assert s[it + 0] == t[0];
      if |t| > 1 {
        assert s[it + 1] == t[1];
      }
    }
  }

  lemma CutOffPrecise(s: string, it: nat, c: ConvText, sp: Specs, index: int, args: seq<Arg>, next: int)
    requires var t := PrintPrecision(c.precision) + PrintLength(c.length);
             0 < it && Stands(s, it, t) && |s| == it + |t|
    requires (c.precision.PrecisionOf? ==> c.precision.n <= INT_MAX) && c.ty == s[|s| - 1]
    ensures it <= |s|
    ensures ParsePrecise(s, it, sp, index, args, next) ==
              CutOff(PreciseMeaning(c, sp, index, args, next), c.length, |s|)
  {
    var it2 := it + |PrintPrecision(c.precision)|;
    StandsSplit(s, it, PrintPrecision(c.precision), PrintLength(c.length));
    CutOffLength(s, it2, c.length);
    PrecisionRead(s, it, c.precision, it2, sp, args, next);
    PrecisionElsewhere(c.precision, it2, sp, args, next);
  }

  lemma CutOffHeader(s: string, it: nat, p: Precision, l: Length)
    requires var t := PrintPrecision(p) + PrintLength(l);
             0 < it && Stands(s, it, t) && |s| == it + |t|
    ensures EndsHeader(At(s, it))
  {
    StandsSplit(s, it, PrintPrecision(p), PrintLength(l));
    CutOffLength(s, it + |PrintPrecision(p)|, l);
    if PrintPrecision(p) != "" {
      assert s[it + 0] == PrintPrecision(p)[0];
    }
  }

  lemma MeaningIsNoFormatError(c: ConvText, args: seq<Arg>, next: int)
    ensures ConvMeaning(c, args, next) != Fails(InvalidFormat)
  {
  }

  /**
   A conversion that the end of the string cuts off before its type: behind a length modifier it is
   an invalid format, unless drawing an argument failed before; but without one it is no error. The
   source then steps back and takes the last character it has read, the '%' itself if need be, for
   the type.
   */
  lemma CutOffConversion(s: string, it: nat, h: HeaderText, p: Precision, l: Length, args: seq<Arg>, next: int)
    requires 0 < it && ValidHeader(h) && (p.PrecisionOf? ==> p.n <= INT_MAX)
    requires var t := PrintHeader(h) + (PrintPrecision(p) + PrintLength(l));
             Stands(s, it, t) && |s| == it + |t|
    ensures var m := ConvMeaning(ConvText(h, p, l, s[|s| - 1]), args, next);
            && ParseConversion(s, it, args, next) == CutOff(m, l, |s|)
            && (ParseConversion(s, it, args, next) == Unparsed(InvalidFormat) <==> l != NoLength && m.Means?)
  {
    var c := ConvText(h, p, l, s[|s| - 1]);
    var it1 := it + |PrintHeader(h)|;
    StandsSplit(s, it, PrintHeader(h), PrintPrecision(p) + PrintLength(l));
    CutOffHeader(s, it1, p, l);
    PrintThenParseHeader(h, s, it, args, next);
    HeaderElsewhere(h, it1, args, next);
    MeaningIsNoFormatError(c, args, next);
    match HeaderMeaning(h, it1, args, next) {
      case NoHeader(e) =>
      case Header(index, _, sp, next1) => CutOffPrecise(s, it1, c, sp, index, args, next1);
    }
  }

  const BARE := HeaderText(0, "", WidthAbsent)

  lemma BareMeaning(l: Length, ty: char, arg: Arg)
    ensures ConvMeaning(ConvText(BARE, PrecisionAbsent, l, ty), [arg], 0) ==
              Means(Written(0, Normalize(FRESH, arg), l, TypeFor(arg, ty)), 1)
  {
    assert ApplyFlags(FRESH, "") == FRESH;
  }

  /** A '%' at the very end is its own type, but "%h" is refused. */
  lemma CutOffExamples(arg: Arg)
    ensures ParseConversion("%", 1, [arg], 0) == Parsed(Written(0, Normalize(FRESH, arg), NoLength, '%'), 1, 1)
    ensures ParseConversion("%h", 1, [arg], 0) == Unparsed(InvalidFormat)
  {
    assert PrintHeader(BARE) + (PrintPrecision(PrecisionAbsent) + PrintLength(NoLength)) == "";
    CutOffConversion("%", 1, BARE, PrecisionAbsent, NoLength, [arg], 0);
    BareMeaning(NoLength, '%', arg);
    assert PrintHeader(BARE) + (PrintPrecision(PrecisionAbsent) + PrintLength(LenH)) == "h";
    CutOffConversion("%h", 1, BARE, PrecisionAbsent, LenH, [arg], 0);
    BareMeaning(LenH, 'h', arg);
  }
}
