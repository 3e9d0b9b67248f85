/** Why printf conversions are refused (printf.h): their arguments, their numbers and the index zero. */
module PrintfFaults {
  import opened Decimal
  import opened PrintfFormat
  import opened PrintfLoop
  import opened PrintfScan

  datatype Fault = NoFault | Because(e: Error)

  // ------------------------------------------------------------------ arguments

  // The next argument in turn, when `next` have been drawn, or -1 once one was drawn by its index.
  function TurnFault(args: seq<Arg>, next: int): Fault {
    if next < 0 then Because(MixedIndexing) else if next >= |args| then Because(NoSuchArg) else NoFault
  }

  // The number for a '*' has to be an int.
  function StarFault(args: seq<Arg>, next: int, least: int, noNumber: Error): Fault {
    if TurnFault(args, next) != NoFault then TurnFault(args, next)
    else
      match args[next]
      case Int(v) => if least <= v <= 2147483647 then NoFault else Because(TooBig)
      case _ => Because(noNumber)
  }

  function ValueFault(index: nat, args: seq<Arg>, next: int): Fault {
    if index == 0 then TurnFault(args, next)
    else if next > 0 then Because(MixedIndexing)
    else if index > |args| then Because(NoSuchArg)
    else NoFault
  }

  function WidthFault(w: Width, args: seq<Arg>, next: int): Fault {
    if w.WidthStar? then StarFault(args, next, -2147483647, WidthNotInteger) else NoFault
  }

  /** What is first found wrong with the arguments of a conversion: the width's, the precision's, its own. */
  function ConvFault(c: ConvText, args: seq<Arg>, next: int): Fault {
    var next1 := if c.header.width.WidthStar? then next + 1 else next;
    var next2 := if c.precision.PrecisionStar? then next1 + 1 else next1;
    var atPrecision :=
      if c.precision.PrecisionStar? then StarFault(args, next1, -2147483648, PrecisionNotInteger) else NoFault;
    if WidthFault(c.header.width, args, next) != NoFault then WidthFault(c.header.width, args, next)
    else if atPrecision != NoFault then atPrecision
    else ValueFault(c.header.index, args, next2)
  }

  /** A conversion fails exactly for what is first found wrong with its arguments. */
  lemma FailsExactly(c: ConvText, args: seq<Arg>, next: int)
    requires next >= -1
    ensures match ConvMeaning(c, args, next)
            case Means(_, _) => ConvFault(c, args, next) == NoFault
            case Fails(e) => ConvFault(c, args, next) == Because(e)
  {
    HeaderFaults(c.header, args, next);
    match HeaderMeaning(c.header, 0, args, next) {
      case NoHeader(e) =>
      case Header(index, _, sp, next1) => PreciseFaults(c, sp, index, args, next1);
    }
  }

  lemma HeaderFaults(h: HeaderText, args: seq<Arg>, next: int)
    ensures match HeaderMeaning(h, 0, args, next)
            case NoHeader(e) => WidthFault(h.width, args, next) == Because(e)
            case Header(index, _, _, next1) =>
              && WidthFault(h.width, args, next) == NoFault
              && index == (if h.index == 0 then -1 else h.index)
              && next1 == if h.width.WidthStar? then next + 1 else next
  {
  }

  lemma PreciseFaults(c: ConvText, sp: Specs, index: int, args: seq<Arg>, next: int)
    requires next >= -1 && index == if c.header.index == 0 then -1 else c.header.index
    ensures var atPrecision :=
              if c.precision.PrecisionStar? then StarFault(args, next, -2147483648, PrecisionNotInteger) else NoFault;
            var next2 := if c.precision.PrecisionStar? then next + 1 else next;
            var fault := if atPrecision != NoFault then atPrecision else ValueFault(c.header.index, args, next2);
            match PreciseMeaning(c, sp, index, args, next)
            case Means(_, _) => fault == NoFault
            case Fails(e) => fault == Because(e)
  {
  }

  // ------------------------------------------------------------------ numbers

  /** A number that is too big for an int, at the beginning of a header: an index or a width. */
  lemma HeaderTooBig(s: string, it: nat, n: nat, specs: Specs, args: seq<Arg>, next: int)
    requires n > 2147483647 && Stands(s, it, Render(n)) && !IsDigit(At(s, it + |Render(n)|))
    ensures it <= |s| && ParseHeader(s, it, specs, args, next) == NoHeader(TooBig)
  {
    NumberRead(s, it, n, it + |Render(n)|);
  }

  /** The same behind flags, and in a precision. */
  lemma WidthTooBig(s: string, it: nat, flags: string, n: nat, specs: Specs, index: int, args: seq<Arg>, next: int)
    requires n > 2147483647 && OnlyFlags(flags) && Stands(s, it, flags) && Stands(s, it + |flags|, Render(n))
    requires !IsDigit(At(s, it + |flags| + |Render(n)|))
    ensures it <= |s| && FlagsAndWidth(s, it, specs, index, args, next) == NoHeader(TooBig)
  {
    var it1 := it + |flags|;
    ValidFlags(flags);
    StandsSlice(s, it, flags);
    NumberRead(s, it1, n, it1 + |Render(n)|);
    FlagsEndAt(s, it, it1);
  }

  lemma PrecisionTooBig(s: string, it: nat, n: nat, sp: Specs, args: seq<Arg>, next: int)
    requires n > 2147483647 && At(s, it) == '.' && it < |s|
    requires Stands(s, it + 1, Render(n)) && !IsDigit(At(s, it + 1 + |Render(n)|))
    ensures ParsePrecision(s, it, sp, args, next) == NotPrecise(TooBig)
  {
    NumberRead(s, it + 1, n, it + 1 + |Render(n)|);
  }

  // ------------------------------------------------------------------ the index zero

  lemma WidthFaults(index: int, sp: Specs, w: Width, it: nat, args: seq<Arg>, next: int)
    ensures match WithWidth(index, sp, w, it, args, next)
            case NoHeader(e) => WidthFault(w, args, next) == Because(e)
            case Header(i, _, _, _) => i == index && WidthFault(w, args, next) == NoFault
  {
  }

  lemma NoSuchIndex(s: string, it: nat, args: seq<Arg>, next: int)
    requires 0 < it <= |s| && (ParseHeader(s, it, FRESH, args, next).Header? ==>
                                 ParseHeader(s, it, FRESH, args, next).index == 0)
    ensures ParseConversion(s, it, args, next) ==
              match ParseHeader(s, it, FRESH, args, next)
              case NoHeader(e) => Unparsed(e)
              case Header(_, _, _, _) => Unparsed(NoSuchArg)
  {
  }

  /** "0$" is an index, but of no argument, whatever the flags and the width behind it are. */
  lemma IndexZeroRefused(s: string, it: nat, zeros: string, flags: string, w: Width, end: nat,
                         args: seq<Arg>, next: int)
    requires 0 < it && zeros != "" && AllZeros(zeros) && Stands(s, it, zeros) && At(s, it + |zeros|) == '$'
    requires it + |zeros| < |s| && OnlyFlags(flags) && Stands(s, it + |zeros| + 1, flags)
    requires WidthStands(s, it + |zeros| + 1 + |flags|, w, end)
    ensures it <= |s|
    ensures ParseConversion(s, it, args, next) ==
              match WidthFault(w, args, next)
              case NoFault => Unparsed(NoSuchArg)
              case Because(e) => Unparsed(e)
  {
    var mid := it + |zeros|;
    ValidFlags(flags);
    ZerosRun(s, it, zeros);
    FlagsBehindIndex(s, it, mid, 0, flags, w, end, args, next);
    WidthFaults(0, ApplyFlags(FRESH, flags), w, end, args, next);
    NoSuchIndex(s, it, args, next);
  }
}
