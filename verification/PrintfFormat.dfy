/**
  The printf format scanner of fmt (printf.h), after section 7.21.6.1 of ISO/IEC 9899:2011
  with the POSIX "n$" form: argument indices, flags, widths, precisions and lengths.
 */
module PrintfFormat {
  import opened Decimal

  datatype Align = Left | Right | Numeric

  datatype Sign = NoSign | Plus | Space

  datatype Specs = Specs(align: Align, sign: Sign, fill: char, alt: bool, width: int, precision: int)

  // The specs with which every conversion starts.
  const FRESH := Specs(Right, NoSign, ' ', false, 0, -1)

  datatype Arg = Int(v: int) | Float | NoNumber

  datatype Error = TooBig | WidthNotInteger | PrecisionNotInteger | NoSuchArg | MixedIndexing | InvalidFormat

  // Reading at the end of the string gives the terminating null character.
  function At(s: string, i: nat): char {
    if i < |s| then s[i] else '\0'
  }

  // ------------------------------------------------------------------ flags

  predicate IsFlag(c: char) {
    c == '-' || c == '+' || c == '0' || c == ' ' || c == '#'
  }

  predicate AllFlags(flags: string) {
    forall i :: 0 <= i < |flags| ==> IsFlag(flags[i])
  }

  function ApplyFlag(sp: Specs, c: char): Specs {
    match c
    case '-' => sp.(align := Left)
    case '+' => sp.(sign := Plus)
    case '0' => sp.(fill := '0')
    case ' ' => if sp.sign != Plus then sp.(sign := Space) else sp
    case '#' => sp.(alt := true)
    case _ => sp
  }

  function ApplyFlags(sp: Specs, flags: string): Specs {
    if flags == "" then sp else ApplyFlag(ApplyFlags(sp, flags[..|flags| - 1]), flags[|flags| - 1])
  }

  function FlagsEnd(s: string, it: nat): (end: nat)
    requires it <= |s|
    ensures it <= end <= |s| && forall i :: it <= i < end ==> IsFlag(s[i])
    ensures end < |s| ==> !IsFlag(s[end])
    decreases |s| - it
  {
    if it < |s| && IsFlag(s[it]) then FlagsEnd(s, it + 1) else it
  }

  method ParseFlags(s: string, specs0: Specs, it0: nat) returns (specs: Specs, it: nat)
    requires it0 <= |s|
    ensures it == FlagsEnd(s, it0) && specs == ApplyFlags(specs0, s[it0..it])
  {
    specs, it := specs0, it0;
    while it < |s|
      invariant it0 <= it <= |s| && FlagsEnd(s, it0) == FlagsEnd(s, it)
      invariant specs == ApplyFlags(specs0, s[it0..it])
    {
      if !IsFlag(s[it]) {
        return;
      }
      assert s[it0..it + 1] == s[it0..it] + [s[it]];
      specs := ApplyFlag(specs, s[it]);
      it := it + 1;
    }
  }

  /** The order and the repetition of flags do not matter, and '+' beats ' '. */
  lemma {:induction false} FlagsAreASet(sp: Specs, flags: string)
    ensures ApplyFlags(sp, flags) ==
              sp.(align := if '-' in flags then Left else sp.align,
                  sign := if '+' in flags || sp.sign == Plus then Plus else if ' ' in flags then Space else sp.sign,
                  fill := if '0' in flags then '0' else sp.fill,
                  alt := '#' in flags || sp.alt)
  {
    if flags != "" {
      var init := flags[..|flags| - 1];
      FlagsAreASet(sp, init);
      assert flags == init + [flags[|flags| - 1]];
    }
  }

  lemma {:induction false} FlagsConcat(sp: Specs, a: string, b: string)
    ensures ApplyFlags(sp, a + b) == ApplyFlags(ApplyFlags(sp, a), b)
  {
    FlagsAreASet(sp, a + b);
    FlagsAreASet(sp, a);
    FlagsAreASet(ApplyFlags(sp, a), b);
  }

  lemma {:induction false} FlagsEndAt(s: string, it: nat, end: nat)
    requires it <= end <= |s| && (forall i :: it <= i < end ==> IsFlag(s[i]))
    requires end < |s| ==> !IsFlag(s[end])
    ensures FlagsEnd(s, it) == end
    decreases end - it
  {
    if it < end {
      FlagsEndAt(s, it + 1, end);
    }
  }

  // ------------------------------------------------------------------ drawing arguments

  datatype Draw = Drawn(arg: Arg, id: nat, next: int) | NotDrawn(e: Error)

  // A negative index draws the next argument; drawing by index turns the counter off.
  function GetArg(args: seq<Arg>, next: int, index: int): Draw {
    if index < 0 then
      if next < 0 then NotDrawn(MixedIndexing)
      else if next >= |args| then NotDrawn(NoSuchArg)
      else Drawn(args[next], next, next + 1)
    else if next > 0 then NotDrawn(MixedIndexing)
    else if index == 0 || index > |args| then NotDrawn(NoSuchArg)
    else Drawn(args[index - 1], index - 1, -1)
  }

  datatype WidthResult = WidthIs(specs: Specs, next: int) | NoWidth(e: Error)

  // A negative width argument asks for left alignment.
  function WidthFromArg(sp: Specs, args: seq<Arg>, next: int): WidthResult {
    match GetArg(args, next, -1)
    case NotDrawn(e) => NoWidth(e)
    case Drawn(arg, _, next') =>
      if !arg.Int? then NoWidth(WidthNotInteger)
      else
        var width := if arg.v < 0 then -arg.v else arg.v;
        if width > INT_MAX then NoWidth(TooBig)
        else WidthIs(sp.(align := if arg.v < 0 then Left else sp.align, width := width), next')
  }

  // ------------------------------------------------------------------ the header of a conversion

  datatype Header = Header(index: int, it: nat, specs: Specs, next: int) | NoHeader(e: Error)

  function FlagsAndWidth(s: string, it: nat, specs: Specs, index: int, args: seq<Arg>, next: int): (h: Header)
    requires it <= |s|
    ensures h.Header? ==> it <= h.it <= |s|
  {
    var it1 := FlagsEnd(s, it);
    var sp := ApplyFlags(specs, s[it..it1]);
    if it1 < |s| && IsDigit(s[it1]) then
      var end := DigitsEnd(s, it1);
      var n := Value(s[it1..end]);
      if n > INT_MAX then NoHeader(TooBig) else Header(index, end, sp.(width := n), next)
    else if it1 < |s| && s[it1] == '*' then
      match WidthFromArg(sp, args, next)
      case NoWidth(e) => NoHeader(e)
      case WidthIs(sp', next') => Header(index, it1 + 1, sp', next')
    else Header(index, it1, sp, next)
  }

  function ParseHeader(s: string, it: nat, specs: Specs, args: seq<Arg>, next: int): (h: Header)
    requires it <= |s|
    ensures h.Header? ==> it <= h.it <= |s|
  {
    var c := At(s, it);
    if IsDigit(c) then
      var end := DigitsEnd(s, it);
      var n := Value(s[it..end]);
      if n > INT_MAX then NoHeader(TooBig)
      else if end < |s| && s[end] == '$' then FlagsAndWidth(s, end + 1, specs, n, args, next)
      else
        var sp := if c == '0' then specs.(fill := '0') else specs;
        if n != 0 then Header(-1, end, sp.(width := n), next)
        else FlagsAndWidth(s, end, sp, -1, args, next)
    else FlagsAndWidth(s, it, specs, -1, args, next)
  }

  // ------------------------------------------------------------------ printing a header

  datatype Width = WidthAbsent | WidthOf(n: nat) | WidthStar

  datatype HeaderText = HeaderText(index: nat, flags: string, width: Width)   // index 0: none

  // The flags of section 7.21.6.1.
  predicate OnlyFlags(flags: string) {
    forall i :: 0 <= i < |flags| ==>
      flags[i] == '-' || flags[i] == '+' || flags[i] == ' ' || flags[i] == '#' || flags[i] == '0'
  }

  predicate ValidHeader(h: HeaderText) {
    && h.index <= 2147483647
    && OnlyFlags(h.flags)
    && (h.width.WidthOf? ==> 0 < h.width.n <= 2147483647)
  }

  lemma ValidFlags(flags: string)
    requires OnlyFlags(flags)
    ensures AllFlags(flags)
  {
  }

  function PrintIndex(h: HeaderText): string {
    if h.index == 0 then "" else Render(h.index) + "$"
  }

  function PrintWidth(w: Width): string {
    match w
    case WidthAbsent => ""
    case WidthOf(n) => Render(n)
    case WidthStar => "*"
  }

  function PrintHeader(h: HeaderText): string {
    PrintIndex(h) + (h.flags + PrintWidth(h.width))
  }

  /** A character that cannot continue a header. */
  predicate EndsHeader(c: char) {
    !IsFlag(c) && !IsDigit(c) && c != '$' && c != '*'
  }

  function WithWidth(index: int, sp: Specs, w: Width, it: nat, args: seq<Arg>, next: int): Header {
    match w
    case WidthAbsent => Header(index, it, sp, next)
    case WidthOf(n) => Header(index, it, sp.(width := n), next)
    case WidthStar =>
      match WidthFromArg(sp, args, next)
      case NoWidth(e) => NoHeader(e)
      case WidthIs(sp', next') => Header(index, it, sp', next')
  }

  /** What the header means, read off its parts; `it` is where it ends. */
  function HeaderMeaning(h: HeaderText, it: nat, args: seq<Arg>, next: int): Header {
    WithWidth(if h.index == 0 then -1 else h.index, ApplyFlags(FRESH, h.flags), h.width, it, args, next)
  }

  /** `t` stands in the string from `it` on. */
  predicate Stands(s: string, it: nat, t: string) {
    it + |t| <= |s| && forall i :: 0 <= i < |t| ==> s[it + i] == t[i]
  }

  lemma StandsSplit(s: string, it: nat, a: string, b: string)
    requires Stands(s, it, a + b)
    ensures Stands(s, it, a) && Stands(s, it + |a|, b)
  {
    forall i | 0 <= i < |a| ensures s[it + i] == a[i] {
      assert (a + b)[i] == a[i];
    }
    forall i | 0 <= i < |b| ensures s[it + |a| + i] == b[i] {
      assert (a + b)[|a| + i] == b[i];
    }
  }

  lemma StandsSlice(s: string, it: nat, t: string)
    requires Stands(s, it, t)
    ensures s[it..it + |t|] == t
    ensures forall i :: it <= i < it + |t| ==> s[i] == t[i - it]
  {
    forall i | it <= i < it + |t| ensures s[i] == t[i - it] {
      assert s[it + (i - it)] == t[i - it];
    }
  }

  /** A number that stands in the string is read in full. */
  lemma NumberRead(s: string, it: nat, n: nat, end: nat)
    requires Stands(s, it, Render(n)) && end == it + |Render(n)| && !IsDigit(At(s, end))
    ensures it < end <= |s| && IsDigit(s[it]) && (s[it] == '0' <==> n == 0)
    ensures DigitsEnd(s, it) == end && s[it..end] == Render(n) && AllDigits(s[it..end]) && Value(s[it..end]) == n
  {
    RenderThenValue(n);
    StandsSlice(s, it, Render(n));
    DigitsEndAt(s, it, end);
    assert s[it] == Render(n)[0];
  }

  /** The width, or its absence, stands between `it` and `end`, and the header ends there. */
  predicate WidthStands(s: string, it: nat, w: Width, end: nat) {
    && Stands(s, it, PrintWidth(w)) && end == it + |PrintWidth(w)| && EndsHeader(At(s, end))
    && (w.WidthOf? ==> 0 < w.n <= INT_MAX)
  }

  lemma WidthRead(s: string, it: nat, w: Width, end: nat)
    requires WidthStands(s, it, w, end)
    ensures it <= end <= |s| && !IsFlag(At(s, it)) && At(s, it) != '$'
    ensures match w
            case WidthAbsent => it == end && !IsDigit(At(s, it)) && At(s, it) != '*'
            case WidthOf(n) =>
              IsDigit(At(s, it)) && DigitsEnd(s, it) == end && AllDigits(s[it..end]) && Value(s[it..end]) == n
            case WidthStar => it + 1 == end && At(s, it) == '*'
  {
    match w {
      case WidthAbsent =>
      case WidthOf(n) => NumberRead(s, it, n, end);
      case WidthStar => assert s[it + 0] == "*"[0];
    }
  }

  /** Flags followed by a width are read as such. */
  lemma FlagsAndWidthRead(s: string, it: nat, specs: Specs, index: int, flags: string, w: Width, end: nat,
                          args: seq<Arg>, next: int)
    requires Stands(s, it, flags) && AllFlags(flags) && WidthStands(s, it + |flags|, w, end)
    ensures it <= |s|
    ensures FlagsAndWidth(s, it, specs, index, args, next) ==
              WithWidth(index, ApplyFlags(specs, flags), w, end, args, next)
  {
    StandsSlice(s, it, flags);
    WidthRead(s, it + |flags|, w, end);
    FlagsEndAt(s, it, it + |flags|);
  }

  predicate AllZeros(zeros: string) {
    forall i :: 0 <= i < |zeros| ==> zeros[i] == '0'
  }

  function Zeros(flags: string): (k: nat)
    ensures k <= |flags| && AllZeros(flags[..k]) && (k < |flags| ==> flags[k] != '0')
  {
    if flags != "" && flags[0] == '0' then
      var k := Zeros(flags[1..]);
      assert flags[..k + 1] == ['0'] + flags[1..][..k];
      k + 1
    else 0
  }

  lemma ZeroFlags(sp: Specs, zeros: string)
    requires zeros != "" && AllZeros(zeros)
    ensures ApplyFlags(sp, zeros) == sp.(fill := '0')
  {
    FlagsAreASet(sp, zeros);
    assert zeros[0] == '0';
  }

  lemma ValueOfZeros(zeros: string)
    requires AllZeros(zeros)
    ensures AllDigits(zeros) && Value(zeros) == 0
  {
    PaddingIsIgnored(zeros, "");
    assert zeros + "" == zeros;
  }

  /** Zeros and then a number are read as that number. */
  lemma ZerosNumber(s: string, it: nat, zeros: string, n: nat, end: nat)
    requires zeros != "" && AllZeros(zeros) && Stands(s, it, zeros)
    requires Stands(s, it + |zeros|, Render(n)) && end == it + |zeros| + |Render(n)| && !IsDigit(At(s, end))
    ensures it <= end <= |s| && At(s, it) == '0' && DigitsEnd(s, it) == end
    ensures AllDigits(s[it..end]) && Value(s[it..end]) == n
  {
    RenderThenValue(n);
    StandsJoin(s, it, zeros, Render(n));
    StandsSlice(s, it, zeros + Render(n));
    PaddingIsIgnored(zeros, Render(n));
    DigitsEndAt(s, it, end);
    assert (zeros + Render(n))[0] == zeros[0];
  }

  lemma StandsJoin(s: string, it: nat, a: string, b: string)
    requires Stands(s, it, a) && Stands(s, it + |a|, b)
    ensures Stands(s, it, a + b)
  {
    forall i | 0 <= i < |a + b| ensures s[it + i] == (a + b)[i] {
      if i >= |a| {
        assert s[it + |a| + (i - |a|)] == b[i - |a|];
      }
    }
  }

  /** A header that begins with digits, other than an index. */
  lemma HeaderOnDigits(s: string, it: nat, end: nat, n: nat, args: seq<Arg>, next: int)
    requires it <= |s| && IsDigit(At(s, it)) && DigitsEnd(s, it) == end && Value(s[it..end]) == n
    requires n <= INT_MAX && At(s, end) != '$'
    ensures var sp := if At(s, it) == '0' then FRESH.(fill := '0') else FRESH;
            ParseHeader(s, it, FRESH, args, next) ==
              if n != 0 then Header(-1, end, sp.(width := n), next) else FlagsAndWidth(s, end, sp, -1, args, next)
  {
  }

  /** Zeros and then a width: one number is read, which is the width. */
  lemma ZerosAndWidth(s: string, it: nat, zeros: string, n: nat, end: nat, args: seq<Arg>, next: int)
    requires zeros != "" && AllZeros(zeros) && Stands(s, it, zeros)
    requires WidthStands(s, it + |zeros|, WidthOf(n), end)
    ensures ParseHeader(s, it, FRESH, args, next) ==
              WithWidth(-1, ApplyFlags(FRESH, zeros), WidthOf(n), end, args, next)
  {
    ZerosNumber(s, it, zeros, n, end);
    ZeroFlags(FRESH, zeros);
    HeaderOnDigits(s, it, end, n, args, next);
  }

  lemma ZerosRun(s: string, it: nat, zeros: string)
    requires zeros != "" && AllZeros(zeros) && Stands(s, it, zeros) && !IsDigit(At(s, it + |zeros|))
    ensures At(s, it) == '0' && DigitsEnd(s, it) == it + |zeros| && s[it..it + |zeros|] == zeros
    ensures AllDigits(zeros) && Value(zeros) == 0
  {
    StandsSlice(s, it, zeros);
    DigitsEndAt(s, it, it + |zeros|);
    ValueOfZeros(zeros);
  }

  lemma FlagsBehindZeros(s: string, mid: nat, zeros: string, others: string, w: Width, end: nat,
                         args: seq<Arg>, next: int)
    requires zeros != "" && AllZeros(zeros) && AllFlags(others)
    requires Stands(s, mid, others) && WidthStands(s, mid + |others|, w, end)
    ensures mid <= |s|
    ensures FlagsAndWidth(s, mid, FRESH.(fill := '0'), -1, args, next) ==
              WithWidth(-1, ApplyFlags(FRESH, zeros + others), w, end, args, next)
  {
    ZeroFlags(FRESH, zeros);
    FlagsConcat(FRESH, zeros, others);
    FlagsAndWidthRead(s, mid, FRESH.(fill := '0'), -1, others, w, end, args, next);
  }

  lemma NoMoreDigits(s: string, mid: nat, others: string, w: Width, end: nat)
    requires AllFlags(others) && (if others == "" then !w.WidthOf? else others[0] != '0')
    requires Stands(s, mid, others) && WidthStands(s, mid + |others|, w, end)
    ensures !IsDigit(At(s, mid)) && At(s, mid) != '$'
  {
    WidthRead(s, mid + |others|, w, end);
    if others != "" {
      assert s[mid + 0] == others[0];
    }
  }

  /** Zeros and then other flags, or no width in digits: the number read is zero, and the flags go on. */
  lemma ZerosAndMore(s: string, it: nat, zeros: string, others: string, w: Width, end: nat, args: seq<Arg>, next: int)
    requires zeros != "" && AllZeros(zeros) && Stands(s, it, zeros)
    requires AllFlags(others) && (if others == "" then !w.WidthOf? else others[0] != '0')
    requires Stands(s, it + |zeros|, others) && WidthStands(s, it + |zeros| + |others|, w, end)
    ensures ParseHeader(s, it, FRESH, args, next) ==
              WithWidth(-1, ApplyFlags(FRESH, zeros + others), w, end, args, next)
  {
    var mid := it + |zeros|;
    NoMoreDigits(s, mid, others, w, end);
    ZerosRun(s, it, zeros);
    FlagsBehindZeros(s, mid, zeros, others, w, end, args, next);
    HeaderOnDigits(s, it, mid, 0, args, next);
  }

  lemma ZerosFirst(flags: string) returns (zeros: string, others: string)
    requires AllFlags(flags) && flags != "" && flags[0] == '0'
    ensures flags == zeros + others && |zeros| + |others| == |flags|
    ensures zeros != "" && AllZeros(zeros) && AllFlags(others) && (others != "" ==> others[0] != '0')
  {
    var k := Zeros(flags);
    zeros, others := flags[..k], flags[k..];
  }

  /** Zero flags are read on the integer path, together with the digits of a width behind them. */
  lemma ZerosRead(s: string, it: nat, flags: string, w: Width, end: nat, args: seq<Arg>, next: int)
    requires Stands(s, it, flags) && AllFlags(flags) && WidthStands(s, it + |flags|, w, end)
    requires flags != "" && flags[0] == '0'
    ensures ParseHeader(s, it, FRESH, args, next) == WithWidth(-1, ApplyFlags(FRESH, flags), w, end, args, next)
  {
    var zeros, others := ZerosFirst(flags);
    StandsSplit(s, it, zeros, others);
    if others == "" && w.WidthOf? {
      assert flags == zeros;
      ZerosAndWidth(s, it, zeros, w.n, end, args, next);
    } else {
      ZerosAndMore(s, it, zeros, others, w, end, args, next);
    }
  }

  lemma IndexRead(s: string, it: nat, n: nat, end: nat)
    requires 0 < n && Stands(s, it, Render(n)) && end == it + |Render(n)| && At(s, end) == '$'
    ensures it < end < |s| && IsDigit(At(s, it)) && DigitsEnd(s, it) == end && Value(s[it..end]) == n
  {
    NumberRead(s, it, n, end);
  }

  lemma HeaderIsIndexed(s: string, it: nat, mid: nat, n: nat, args: seq<Arg>, next: int)
    requires it < mid < |s| && IsDigit(At(s, it)) && DigitsEnd(s, it) == mid && s[mid] == '$'
    requires Value(s[it..mid]) == n <= INT_MAX
    ensures ParseHeader(s, it, FRESH, args, next) == FlagsAndWidth(s, mid + 1, FRESH, n, args, next)
  {
  }

  lemma FlagsBehindIndex(s: string, it: nat, mid: nat, n: nat, flags: string, w: Width, end: nat,
                         args: seq<Arg>, next: int)
    requires it < mid < |s| && IsDigit(At(s, it)) && DigitsEnd(s, it) == mid && s[mid] == '$'
    requires Value(s[it..mid]) == n <= INT_MAX && AllFlags(flags)
    requires Stands(s, mid + 1, flags) && WidthStands(s, mid + 1 + |flags|, w, end)
    ensures ParseHeader(s, it, FRESH, args, next) == WithWidth(n, ApplyFlags(FRESH, flags), w, end, args, next)
  {
    HeaderIsIndexed(s, it, mid, n, args, next);
    FlagsAndWidthRead(s, mid + 1, FRESH, n, flags, w, end, args, next);
  }

  lemma HeaderWithIndex(h: HeaderText, s: string, it: nat, mid: nat, end: nat, args: seq<Arg>, next: int)
    requires 0 < h.index <= INT_MAX && AllFlags(h.flags)
    requires Stands(s, it, Render(h.index)) && mid == it + |Render(h.index)| && At(s, mid) == '$' && mid < |s|
    requires Stands(s, mid + 1, h.flags) && WidthStands(s, mid + 1 + |h.flags|, h.width, end)
    ensures ParseHeader(s, it, FRESH, args, next) == HeaderMeaning(h, end, args, next)
  {
    IndexRead(s, it, h.index, mid);
    FlagsBehindIndex(s, it, mid, h.index, h.flags, h.width, end, args, next);
  }

  lemma HeaderWithout(h: HeaderText, s: string, it: nat, end: nat, args: seq<Arg>, next: int)
    requires h.index == 0 && AllFlags(h.flags)
    requires Stands(s, it, h.flags) && WidthStands(s, it + |h.flags|, h.width, end)
    ensures ParseHeader(s, it, FRESH, args, next) == HeaderMeaning(h, end, args, next)
  {
    if h.flags != "" && h.flags[0] == '0' {
      ZerosRead(s, it, h.flags, h.width, end, args, next);
    } else {
      WidthRead(s, it + |h.flags|, h.width, end);
      if h.flags == "" && h.width.WidthOf? {
        NumberRead(s, it, h.width.n, end);
      } else {
        if h.flags != "" {
          assert s[it + 0] == h.flags[0];
        }
        FlagsAndWidthRead(s, it, FRESH, -1, h.flags, h.width, end, args, next);
      }
    }
  }

  /**
    Parsing a printed header returns its index, its width, and specs that depend only on the
    set of its flags, although a leading '0' goes through the integer path.
   */
  lemma PrintThenParseHeader(h: HeaderText, s: string, it: nat, args: seq<Arg>, next: int)
    requires ValidHeader(h) && Stands(s, it, PrintHeader(h)) && EndsHeader(At(s, it + |PrintHeader(h)|))
    ensures ParseHeader(s, it, FRESH, args, next) == HeaderMeaning(h, it + |PrintHeader(h)|, args, next)
  {
    var end := it + |PrintHeader(h)|;
    var it1 := it + |PrintIndex(h)|;
    ValidFlags(h.flags);
    StandsSplit(s, it, PrintIndex(h), h.flags + PrintWidth(h.width));
    StandsSplit(s, it1, h.flags, PrintWidth(h.width));
    if h.index > 0 {
      StandsSplit(s, it, Render(h.index), "$");
      assert s[it1 - 1 + 0] == "$"[0];
      HeaderWithIndex(h, s, it, it1 - 1, end, args, next);
    } else {
      HeaderWithout(h, s, it, end, args, next);
    }
  }
}
