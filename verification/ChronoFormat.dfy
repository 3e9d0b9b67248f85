/**
  The chrono format parser of fmt (chrono.h). It is run twice over a duration's format
  spec: while parsing the format string with a handler that refuses dates, and while
  formatting with one that refuses nothing.
 */
module ChronoFormat {

  datatype NumericSystem = Standard | Alternative

  datatype Directive =
    | AbbrWeekday | FullWeekday | Dec0Weekday(ns: NumericSystem) | Dec1Weekday(ns: NumericSystem)
    | AbbrMonth | FullMonth
    | Hour24(ns: NumericSystem) | Hour12(ns: NumericSystem) | Minute(ns: NumericSystem) | Second(ns: NumericSystem)
    | DateTime(ns: NumericSystem) | LocDate(ns: NumericSystem) | LocTime(ns: NumericSystem)
    | UsDate | IsoDate | Time12 | Time24 | IsoTime | AmPm
    | DurationValue | DurationUnit | UtcOffset | TzName

  /** The calls a handler receives. */
  datatype Event = OnText(text: string) | On(d: Directive)

  datatype Decoded = Emits(e: Event) | AlternativeE | AlternativeO | Unknown

  function Decode(c: char): Decoded {
    match c
    case '%' => Emits(OnText("%"))
    case 'n' => Emits(OnText("\n"))
    case 't' => Emits(OnText("\t"))
    case 'a' => Emits(On(AbbrWeekday))
    case 'A' => Emits(On(FullWeekday))
    case 'w' => Emits(On(Dec0Weekday(Standard)))
    case 'u' => Emits(On(Dec1Weekday(Standard)))
    case 'b' => Emits(On(AbbrMonth))
    case 'B' => Emits(On(FullMonth))
    case 'H' => Emits(On(Hour24(Standard)))
    case 'I' => Emits(On(Hour12(Standard)))
    case 'M' => Emits(On(Minute(Standard)))
    case 'S' => Emits(On(Second(Standard)))
    case 'c' => Emits(On(DateTime(Standard)))
    case 'x' => Emits(On(LocDate(Standard)))
    case 'X' => Emits(On(LocTime(Standard)))
    case 'D' => Emits(On(UsDate))
    case 'F' => Emits(On(IsoDate))
    case 'r' => Emits(On(Time12))
    case 'R' => Emits(On(Time24))
    case 'T' => Emits(On(IsoTime))
    case 'p' => Emits(On(AmPm))
    case 'Q' => Emits(On(DurationValue))
    case 'q' => Emits(On(DurationUnit))
    case 'z' => Emits(On(UtcOffset))
    case 'Z' => Emits(On(TzName))
    case 'E' => AlternativeE
    case 'O' => AlternativeO
    case _ => Unknown
  }

  function DecodeE(c: char): Decoded {
    match c
    case 'c' => Emits(On(DateTime(Alternative)))
    case 'x' => Emits(On(LocDate(Alternative)))
    case 'X' => Emits(On(LocTime(Alternative)))
    case _ => Unknown
  }

  function DecodeO(c: char): Decoded {
    match c
    case 'w' => Emits(On(Dec0Weekday(Alternative)))
    case 'u' => Emits(On(Dec1Weekday(Alternative)))
    case 'H' => Emits(On(Hour24(Alternative)))
    case 'I' => Emits(On(Hour12(Alternative)))
    case 'M' => Emits(On(Minute(Alternative)))
    case 'S' => Emits(On(Second(Alternative)))
    case _ => Unknown
  }

  // ------------------------------------------------------------------ handlers

  datatype Outcome = Stopped(pos: nat) | InvalidFormat | Refused(d: Directive)

  /** A handler that throws on the directives it refuses and records the other calls. */
  class Handler {
    const refuses: Directive -> bool
    var log: seq<Event>

    constructor (refuses: Directive -> bool)
      ensures this.refuses == refuses && log == []
    {
      this.refuses := refuses;
      log := [];
    }

    method Handle(e: Event) returns (threw: bool)
      modifies this
      ensures threw == (e.On? && refuses(e.d))
      ensures log == if threw then old(log) else old(log) + [e]
    {
      threw := e.On? && refuses(e.d);
      if !threw {
        log := log + [e];
      }
    }
  }

  // Durations carry no date, weekday or timezone.
  predicate NeedsDate(d: Directive) {
    match d
    case Hour24(_) => false
    case Hour12(_) => false
    case Minute(_) => false
    case Second(_) => false
    case Time12 => false
    case Time24 => false
    case IsoTime => false
    case AmPm => false
    case DurationValue => false
    case DurationUnit => false
    case _ => true
  }

  predicate NoneRefused(d: Directive) {
    false
  }

  // ------------------------------------------------------------------ what the parser reports

  /** The calls the text asks for, and where the parser stops (or that it throws). */
  datatype Trace = Trace(events: seq<Event>, end: Outcome) {
    function After(first: seq<Event>): Trace {
      Trace(first + events, end)
    }
  }

  datatype Taken = Took(e: Event, next: nat) | Bad

  function DirectiveAt(s: string, pos: nat): (t: Taken)
    requires pos < |s|
    ensures t.Took? ==> pos < t.next <= |s|
  {
    if pos + 1 == |s| then Bad
    else
      match Decode(s[pos + 1])
      case Emits(e) => Took(e, pos + 2)
      case AlternativeE => Alternate(s, pos + 2, DecodeE)
      case AlternativeO => Alternate(s, pos + 2, DecodeO)
      case Unknown => Bad
  }

  function Alternate(s: string, pos: nat, decode: char -> Decoded): (t: Taken)
    requires pos <= |s|
    ensures t.Took? ==> t.next == pos + 1 <= |s|
  {
    if pos == |s| then Bad
    else if decode(s[pos]).Emits? then Took(decode(s[pos]).e, pos + 1)
    else Bad
  }

  function TextBetween(s: string, begin: nat, end: nat): seq<Event>
    requires begin <= end <= |s|
  {
    if begin == end then [] else [OnText(s[begin..end])]
  }

  function Scan(s: string, begin: nat, pos: nat): (t: Trace)
    requires begin <= pos <= |s|
    ensures t.end.InvalidFormat? || (t.end.Stopped? && pos <= t.end.pos <= |s|)
    decreases |s| - pos
  {
    var pending := TextBetween(s, begin, pos);
    if pos == |s| || s[pos] == '}' then Trace(pending, Stopped(pos))
    else if s[pos] != '%' then Scan(s, begin, pos + 1)
    else
      match DirectiveAt(s, pos)
      case Bad => Trace(pending, InvalidFormat)
      case Took(e, next) => Scan(s, next, next).After(pending + [e])
  }

  /** A handler is never given an empty text. */
  lemma {:induction false} NoEmptyText(s: string, begin: nat, pos: nat)
    requires begin <= pos <= |s|
    ensures OnText("") !in Scan(s, begin, pos).events
    decreases |s| - pos
  {
    if pos < |s| && s[pos] != '}' {
      if s[pos] != '%' {
        NoEmptyText(s, begin, pos + 1);
      } else if DirectiveAt(s, pos).Took? {
        NoEmptyText(s, DirectiveAt(s, pos).next, DirectiveAt(s, pos).next);
      }
    }
  }

  /** The calls a handler sees before the first one it throws on. */
  function Delivered(es: seq<Event>, refuses: Directive -> bool): seq<Event> {
    if es == [] || (es[0].On? && refuses(es[0].d)) then []
    else [es[0]] + Delivered(es[1..], refuses)
  }

  function OutcomeFor(t: Trace, refuses: Directive -> bool): Outcome {
    var k := |Delivered(t.events, refuses)|;
    DeliveredIsPrefix(t.events, refuses);
    if k < |t.events| && t.events[k].On? then Refused(t.events[k].d) else t.end
  }

  lemma {:induction false} DeliveredIsPrefix(es: seq<Event>, refuses: Directive -> bool)
    ensures Delivered(es, refuses) <= es
    ensures |Delivered(es, refuses)| < |es| ==>
              es[|Delivered(es, refuses)|].On? && refuses(es[|Delivered(es, refuses)|].d)
    ensures forall e :: e in Delivered(es, refuses) && e.On? ==> !refuses(e.d)
  {
    if es != [] && !(es[0].On? && refuses(es[0].d)) {
      DeliveredIsPrefix(es[1..], refuses);
    }
  }

  /** What is delivered of two lists: all of the first and what comes of the second, or a part of the first. */
  lemma {:induction false} DeliveredAppend(a: seq<Event>, b: seq<Event>, refuses: Directive -> bool)
    ensures Delivered(a + b, refuses) ==
              if Delivered(a, refuses) == a then a + Delivered(b, refuses) else Delivered(a, refuses)
  {
    if a == [] {
      assert a + b == b;
    } else {
      var rest := a[1..];
      assert (a + b)[0] == a[0] && (a + b)[1..] == rest + b;
      if !(a[0].On? && refuses(a[0].d)) {
        DeliveredAppend(rest, b, refuses);
        HeadCancels(a[0], Delivered(rest, refuses), rest);
        HeadAssociates(a[0], rest, Delivered(b, refuses));
      }
    }
  }

  lemma HeadCancels(e: Event, a: seq<Event>, b: seq<Event>)
    ensures [e] + a == [e] + b <==> a == b
  {
    if [e] + a == [e] + b {
      assert a == ([e] + a)[1..] == ([e] + b)[1..];
    }
  }

  lemma HeadAssociates(e: Event, a: seq<Event>, b: seq<Event>)
    ensures [e] + (a + b) == ([e] + a) + b
  {
  }

  /** The calls made so far account for the text before `begin`, and none was refused. */
  predicate Progress(s: string, begin: nat, pos: nat, done: seq<Event>, refuses: Directive -> bool) {
    && begin <= pos <= |s|
    && Scan(s, 0, 0) == Scan(s, begin, pos).After(done)
    && Delivered(done, refuses) == done
  }

  lemma PendingDelivered(s: string, begin: nat, pos: nat, done: seq<Event>, refuses: Directive -> bool)
    requires begin <= pos <= |s| && Delivered(done, refuses) == done
    ensures Delivered(done + TextBetween(s, begin, pos), refuses) == done + TextBetween(s, begin, pos)
  {
    DeliveredAppend(done, TextBetween(s, begin, pos), refuses);
  }

  lemma AfterTwice(t: Trace, a: seq<Event>, b: seq<Event>)
    ensures t.After(b).After(a) == t.After(a + b)
  {
    assert a + (b + t.events) == (a + b) + t.events;
  }

  lemma ProgressAtDirective(s: string, begin: nat, pos: nat, done: seq<Event>, refuses: Directive -> bool)
    requires Progress(s, begin, pos, done, refuses) && pos < |s| && s[pos] == '%'
    ensures var d1 := done + TextBetween(s, begin, pos);
            var t := DirectiveAt(s, pos);
            && (t.Bad? ==> Scan(s, 0, 0) == Trace(d1, InvalidFormat))
            && (t.Took? ==> Scan(s, 0, 0) == Scan(s, t.next, t.next).After(d1 + [t.e]))
  {
    var pending, t := TextBetween(s, begin, pos), DirectiveAt(s, pos);
    if t.Took? {
      AfterTwice(Scan(s, t.next, t.next), done, pending + [t.e]);
      assert done + (pending + [t.e]) == (done + pending) + [t.e];
    }
  }

  lemma RefusedHere(all: seq<Event>, d1: seq<Event>, e: Event, rest: seq<Event>, refuses: Directive -> bool)
    requires all == (d1 + [e]) + rest && Delivered(d1, refuses) == d1
    ensures e.On? && refuses(e.d) ==> Delivered(all, refuses) == d1 && all[|d1|] == e
    ensures !(e.On? && refuses(e.d)) ==> Delivered(d1 + [e], refuses) == d1 + [e]
  {
    DeliveredAppend(d1, [e], refuses);
    DeliveredAppend(d1 + [e], rest, refuses);
    assert d1 + [] == d1;
  }

  /** Reports the text since the last directive, if there is any. */
  method FlushText(s: string, begin: nat, ptr: nat, h: Handler)
    requires begin <= ptr <= |s|
    modifies h
    ensures h.log == old(h.log) + TextBetween(s, begin, ptr)
  {
    if begin != ptr {
      var _ := h.Handle(OnText(s[begin..ptr]));
    }
  }

  lemma EndOfParse(s: string, begin: nat, pos: nat, done: seq<Event>, refuses: Directive -> bool)
    requires Progress(s, begin, pos, done, refuses) && (pos == |s| || s[pos] == '}')
    ensures Delivered(Scan(s, 0, 0).events, refuses) == done + TextBetween(s, begin, pos)
    ensures OutcomeFor(Scan(s, 0, 0), refuses) == Stopped(pos)
  {
    PendingDelivered(s, begin, pos, done, refuses);
  }

  lemma BadDirective(s: string, begin: nat, pos: nat, done: seq<Event>, refuses: Directive -> bool)
    requires Progress(s, begin, pos, done, refuses)
    requires pos < |s| && s[pos] == '%' && DirectiveAt(s, pos).Bad?
    ensures Delivered(Scan(s, 0, 0).events, refuses) == done + TextBetween(s, begin, pos)
    ensures OutcomeFor(Scan(s, 0, 0), refuses) == InvalidFormat
  {
    PendingDelivered(s, begin, pos, done, refuses);
    ProgressAtDirective(s, begin, pos, done, refuses);
  }

  lemma GoodDirective(s: string, begin: nat, pos: nat, done: seq<Event>, refuses: Directive -> bool)
    requires Progress(s, begin, pos, done, refuses)
    requires pos < |s| && s[pos] == '%' && DirectiveAt(s, pos).Took?
    ensures var Took(e, next) := DirectiveAt(s, pos);
            var d1 := done + TextBetween(s, begin, pos);
            if e.On? && refuses(e.d)
            then Delivered(Scan(s, 0, 0).events, refuses) == d1 && OutcomeFor(Scan(s, 0, 0), refuses) == Refused(e.d)
            else Progress(s, next, next, d1 + [e], refuses)
  {
    PendingDelivered(s, begin, pos, done, refuses);
    ProgressAtDirective(s, begin, pos, done, refuses);
    var Took(e, next) := DirectiveAt(s, pos);
    RefusedHere(Scan(s, 0, 0).events, done + TextBetween(s, begin, pos), e, Scan(s, next, next).events, refuses);
  }

  lemma PlainCharacter(s: string, begin: nat, pos: nat, done: seq<Event>, refuses: Directive -> bool)
    requires Progress(s, begin, pos, done, refuses) && pos < |s| && s[pos] != '%' && s[pos] != '}'
    ensures Progress(s, begin, pos + 1, done, refuses)
  {
  }

  /** The parser loop over a handler, as in the source. */
  method ParseChronoFormat(s: string, h: Handler) returns (outcome: Outcome)
    modifies h
    ensures h.log == old(h.log) + Delivered(Scan(s, 0, 0).events, h.refuses)
    ensures outcome == OutcomeFor(Scan(s, 0, 0), h.refuses)
  {
    var begin: nat, ptr: nat := 0, 0;
    ghost var done: seq<Event> := [];
    while ptr < |s|
      invariant Progress(s, begin, ptr, done, h.refuses)
      invariant h.log == old(h.log) + done
    {
      var c := s[ptr];
      if c == '}' {
        break;
      }
      if c != '%' {
        PlainCharacter(s, begin, ptr, done, h.refuses);
        ptr := ptr + 1;
        continue;
      }
      ghost var flushed := done + TextBetween(s, begin, ptr);
      FlushText(s, begin, ptr, h);
      assert h.log == old(h.log) + flushed;
      var taken := DirectiveAt(s, ptr);
      if taken.Bad? {
        BadDirective(s, begin, ptr, done, h.refuses);
        return InvalidFormat;
      }
      GoodDirective(s, begin, ptr, done, h.refuses);
      var threw := h.Handle(taken.e);
      if threw {
        return Refused(taken.e.d);
      }
      done := flushed + [taken.e];
      assert h.log == old(h.log) + done;
      ptr := taken.next;
      begin := ptr;
    }
    EndOfParse(s, begin, ptr, done, h.refuses);
    FlushText(s, begin, ptr, h);
    outcome := Stopped(ptr);
  }

  // ------------------------------------------------------------------ checking, then formatting

  /** The parser stops before the end of a string exactly as it would at the end. */
  lemma {:induction false} ScanOfPrefix(s: string, begin: nat, pos: nat)
    requires begin <= pos <= |s| && Scan(s, begin, pos).end.Stopped?
    ensures var e := Scan(s, begin, pos).end.pos;
            Scan(s[..e], begin, pos) == Scan(s, begin, pos)
    decreases |s| - pos
  {
    var e := Scan(s, begin, pos).end.pos;
    assert forall i, j :: 0 <= i <= j <= e ==> s[..e][i..j] == s[i..j];
    if pos == |s| || s[pos] == '}' {
    } else if s[pos] != '%' {
      ScanOfPrefix(s, begin, pos + 1);
    } else {
      ScanOfPrefix(s, DirectiveAt(s, pos).next, DirectiveAt(s, pos).next);
    }
  }

  /** The directives that ask for a time of day, or for the duration itself, by their letters. */
  predicate IsTime(d: Directive) {
    Letter(d) in "HIMSrRTpQq"
  }

  /** The first call that is for no time is the one refused. */
  function Judged(es: seq<Event>, end: Outcome): Outcome {
    if es == [] then end
    else if es[0].On? && !IsTime(es[0].d) then Refused(es[0].d)
    else Judged(es[1..], end)
  }

  lemma TimesNeedNoDate(d: Directive)
    ensures IsTime(d) <==> !NeedsDate(d)
  {
    assert "HIMSrRTpQq" == ['H', 'I', 'M', 'S', 'r', 'R', 'T', 'p', 'Q', 'q'];
  }

  lemma {:induction false} JudgedDelivered(es: seq<Event>, end: Outcome)
    ensures var k := |Delivered(es, NeedsDate)|;
            k <= |es| && Judged(es, end) == if k < |es| && es[k].On? then Refused(es[k].d) else end
  {
    if es != [] {
      if es[0].On? {
        TimesNeedNoDate(es[0].d);
      }
      JudgedDelivered(es[1..], end);
      assert Delivered(es, NeedsDate) == [] || |Delivered(es, NeedsDate)| == 1 + |Delivered(es[1..], NeedsDate)|;
    }
  }

  lemma JudgedByChecker(t: Trace)
    ensures OutcomeFor(t, NeedsDate) == Judged(t.events, t.end)
  {
    JudgedDelivered(t.events, t.end);
  }

  datatype Checked = Accepted(spec: string) | PrecisionNotAllowed | CheckFailed(why: Outcome)

  // `do_parse` after the optional alignment and width, for an integral representation.
  method Check(rest: string) returns (r: Checked)
    ensures rest == "" ==> r == Accepted("")
    ensures rest != "" && rest[0] == '.' ==> r == PrecisionNotAllowed
    ensures rest != "" && rest[0] != '.' ==>
              var o := Judged(Scan(rest, 0, 0).events, Scan(rest, 0, 0).end);
              (o.Stopped? ==> o.pos <= |rest|) &&
              r == if o.Stopped? then Accepted(rest[..o.pos]) else CheckFailed(o)
  {
    JudgedByChecker(Scan(rest, 0, 0));
    if rest == "" || rest[0] == '}' {
      return Accepted(rest[..0]);
    }
    if rest[0] == '.' {
      return PrecisionNotAllowed;
    }
    var h := new Handler(NeedsDate);
    var o := ParseChronoFormat(rest, h);
    if o.Stopped? {
      r := Accepted(rest[..o.pos]);
    } else {
      r := CheckFailed(o);
    }
  }

  predicate AcceptedBy(rest: string, spec: string) {
    var t := Scan(rest, 0, 0);
    t.end.Stopped? && Delivered(t.events, NeedsDate) == t.events && spec == rest[..t.end.pos]
  }

  lemma {:induction false} AllDelivered(es: seq<Event>, refuses: Directive -> bool)
    ensures Delivered(es, refuses) == es <==> forall e :: e in es && e.On? ==> !refuses(e.d)
  {
    if es != [] {
      AllDelivered(es[1..], refuses);
      assert es == [es[0]] + es[1..];
      if !(es[0].On? && refuses(es[0].d)) {
        assert Delivered(es, refuses)[1..] == Delivered(es[1..], refuses);
      }
    }
  }

  /** The checker accepts exactly the specs that parse and ask for no date. */
  lemma AcceptedExactly(rest: string)
    ensures var t, o := Scan(rest, 0, 0), OutcomeFor(Scan(rest, 0, 0), NeedsDate);
            && (o.Stopped? <==> t.end.Stopped? && forall e :: e in t.events && e.On? ==> IsTime(e.d))
            && (o.Stopped? ==> AcceptedBy(rest, rest[..o.pos]))
  {
    var es := Scan(rest, 0, 0).events;
    forall e | e in es && e.On? ensures IsTime(e.d) <==> !NeedsDate(e.d) {
      TimesNeedNoDate(e.d);
    }
    AllDelivered(es, NeedsDate);
    DeliveredIsPrefix(es, NeedsDate);
    assert |Delivered(es, NeedsDate)| == |es| ==> Delivered(es, NeedsDate) == es;
  }

  /**
    Over a spec the checker accepted, the formatting pass consumes all of it, throws no
    format error, makes the same calls, and none of them needs a date.
   */
  lemma CheckedThenFormatted(rest: string, spec: string)
    requires AcceptedBy(rest, spec)
    ensures OutcomeFor(Scan(spec, 0, 0), NoneRefused) == Stopped(|spec|)
    ensures Delivered(Scan(spec, 0, 0).events, NoneRefused) == Scan(rest, 0, 0).events
    ensures forall e :: e in Scan(spec, 0, 0).events && e.On? ==> IsTime(e.d)
  {
    forall e | e in Scan(spec, 0, 0).events && e.On? ensures IsTime(e.d) <==> !NeedsDate(e.d) {
      TimesNeedNoDate(e.d);
    }
    ScanOfPrefix(rest, 0, 0);
    DeliveredIsPrefix(Scan(rest, 0, 0).events, NeedsDate);
    DeliveredIsPrefix(Scan(spec, 0, 0).events, NoneRefused);
  }

  /** What formatting does with the range remembered: the default value and unit, or a second parse. */
  datatype Formatted = DefaultWritten | ParsedTo(end: Outcome)

  method FormatPass(rest: string, spec: string, h: Handler) returns (r: Formatted)
    requires AcceptedBy(rest, spec) && h.refuses == NoneRefused
    modifies h
    ensures r == if spec == "" then DefaultWritten else ParsedTo(Stopped(|spec|))
    ensures h.log == old(h.log) + Scan(rest, 0, 0).events
  {
    CheckedThenFormatted(rest, spec);
    if spec == "" || spec[0] == '}' {
      return DefaultWritten;
    }
    var end := ParseChronoFormat(spec, h);
    r := ParsedTo(end);
  }

  lemma TextIsConsumed(s: string, begin: nat, pos: nat)
    requires begin <= pos < |s| && s[pos] != '}' && Scan(s, begin, pos).end.Stopped?
    ensures Scan(s, begin, pos).end.pos > pos
  {
  }

  /** The default is written for no spec, and for one that a closing brace ends at once, but for no other. */
  lemma DefaultExactly(rest: string, spec: string)
    requires AcceptedBy(rest, spec)
    ensures spec == "" <==> rest == "" || rest[0] == '}'
  {
    if rest != "" && rest[0] != '}' {
      TextIsConsumed(rest, 0, 0);
    }
  }

  // ------------------------------------------------------------------ printing and parsing

  /** What a spec says, one literal character or directive at a time. */
  datatype Item = Lit(c: char) | Dir(d: Directive)

  function Letter(d: Directive): char {
    match d
    case AbbrWeekday => 'a'
    case FullWeekday => 'A'
    case Dec0Weekday(_) => 'w'
    case Dec1Weekday(_) => 'u'
    case AbbrMonth => 'b'
    case FullMonth => 'B'
    case Hour24(_) => 'H'
    case Hour12(_) => 'I'
    case Minute(_) => 'M'
    case Second(_) => 'S'
    case DateTime(_) => 'c'
    case LocDate(_) => 'x'
    case LocTime(_) => 'X'
    case UsDate => 'D'
    case IsoDate => 'F'
    case Time12 => 'r'
    case Time24 => 'R'
    case IsoTime => 'T'
    case AmPm => 'p'
    case DurationValue => 'Q'
    case DurationUnit => 'q'
    case UtcOffset => 'z'
    case TzName => 'Z'
  }

  datatype Modifier = NoModifier | ModifierE | ModifierO

  function ModifierOf(d: Directive): Modifier {
    match d
    case DateTime(Alternative) => ModifierE
    case LocDate(Alternative) => ModifierE
    case LocTime(Alternative) => ModifierE
    case Dec0Weekday(Alternative) => ModifierO
    case Dec1Weekday(Alternative) => ModifierO
    case Hour24(Alternative) => ModifierO
    case Hour12(Alternative) => ModifierO
    case Minute(Alternative) => ModifierO
    case Second(Alternative) => ModifierO
    case _ => NoModifier
  }

  function Code(m: Modifier, letter: char): string {
    match m
    case NoModifier => [letter]
    case ModifierE => ['E', letter]
    case ModifierO => ['O', letter]
  }

  function PrintItem(i: Item): (p: string)
    ensures p != ""
  {
    match i
    case Lit(c) => if c == '%' then "%%" else [c]
    case Dir(d) => ['%'] + Code(ModifierOf(d), Letter(d))
  }

  function Print(items: seq<Item>): string {
    if items == [] then "" else PrintItem(items[0]) + Print(items[1..])
  }

  function Lits(t: string): seq<Item> {
    seq(|t|, i requires 0 <= i < |t| => Lit(t[i]))
  }

  function ItemsOf(e: Event): seq<Item> {
    match e
    case OnText(t) => Lits(t)
    case On(d) => [Dir(d)]
  }

  /** The calls of a handler with all text run together. */
  function Replay(es: seq<Event>): seq<Item> {
    if es == [] then [] else ItemsOf(es[0]) + Replay(es[1..])
  }

  lemma {:induction false} ReplayAppend(a: seq<Event>, b: seq<Event>)
    ensures Replay(a + b) == Replay(a) + Replay(b)
  {
    if a == [] {
      assert a + b == b;
    } else {
      assert (a + b)[1..] == a[1..] + b;
      ReplayAppend(a[1..], b);
    }
  }

  lemma ReplayPending(s: string, begin: nat, end: nat)
    requires begin <= end <= |s|
    ensures Replay(TextBetween(s, begin, end)) == Lits(s[begin..end])
  {
    if begin < end {
      assert TextBetween(s, begin, end)[1..] == [];
    }
  }

  /** The letters and modifiers decode to the directive they stand for. */
  lemma Decodes(d: Directive)
    ensures ModifierOf(d).NoModifier? ==> Decode(Letter(d)) == Emits(On(d))
    ensures ModifierOf(d).ModifierE? ==> DecodeE(Letter(d)) == Emits(On(d))
    ensures ModifierOf(d).ModifierO? ==> DecodeO(Letter(d)) == Emits(On(d))
  {
  }

  lemma DirectiveRead(s: string, pos: nat, d: Directive, next: nat)
    requires pos < next <= |s| && s[pos..next] == ['%'] + Code(ModifierOf(d), Letter(d))
    ensures DirectiveAt(s, pos) == Took(On(d), next)
  {
    var t := s[pos..next];
    assert |t| == next - pos;
    assert s[pos + 1] == t[1];
    Decodes(d);
    if |t| == 3 {
      assert s[pos + 2] == t[2];
    }
  }

  lemma Split(s: string, pos: nat, d: string, rest: string)
    requires pos <= |s| && s[pos..] == d + rest && d != ""
    ensures pos + |d| <= |s| && s[pos..pos + |d|] == d && s[pos + |d|..] == rest && s[pos] == d[0]
  {
    assert s[pos..pos + |d|] == s[pos..][..|d|];
    assert s[pos + |d|..] == s[pos..][|d|..];
    assert s[pos] == s[pos..][0];
  }

  function EventOf(i: Item): Event {
    match i
    case Lit(c) => OnText([c])
    case Dir(d) => On(d)
  }

  /** How an item may be written: as it is printed, or "%n" and "%t" for the two characters. */
  predicate Spells(i: Item, form: string) {
    form == PrintItem(i) || (i == Lit('\n') && form == "%n") || (i == Lit('\t') && form == "%t")
  }

  predicate AllSpelled(items: seq<Item>, forms: seq<string>) {
    |forms| == |items| && forall k :: 0 <= k < |items| ==> Spells(items[k], forms[k])
  }

  function Join(forms: seq<string>): string {
    if forms == [] then "" else forms[0] + Join(forms[1..])
  }

  lemma ItemRead(s: string, pos: nat, i: Item, form: string, next: nat)
    requires pos < next <= |s| && s[pos..next] == form && Spells(i, form) && form[0] == '%'
    ensures s[pos] == '%' && DirectiveAt(s, pos) == Took(EventOf(i), next)
  {
    assert s[pos] == s[pos..next][0] && |s[pos..next]| == next - pos;
    if i.Lit? {
      assert s[pos + 1] == s[pos..next][1];
    } else {
      DirectiveRead(s, pos, i.d, next);
    }
  }

  lemma ParsePlain(s: string, begin: nat, pos: nat, i: Item, tail: seq<Item>)
    requires begin <= pos < |s| && i == Lit(s[pos]) && i.c != '%' && i.c != '}'
    requires Scan(s, begin, pos + 1).end == Stopped(|s|)
    requires Replay(Scan(s, begin, pos + 1).events) == Lits(s[begin..pos + 1]) + tail
    ensures Scan(s, begin, pos).end == Stopped(|s|)
    ensures Replay(Scan(s, begin, pos).events) == Lits(s[begin..pos]) + ([i] + tail)
  {
    assert Lits(s[begin..pos + 1]) == Lits(s[begin..pos]) + [i];
    assert (Lits(s[begin..pos]) + [i]) + tail == Lits(s[begin..pos]) + ([i] + tail);
  }

  lemma NextItem(s: string, pos: nat, items: seq<Item>, forms: seq<string>) returns (next: nat)
    requires pos <= |s| && s[pos..] == Join(forms) && AllSpelled(items, forms) && items != []
    ensures pos < next <= |s| && s[next..] == Join(forms[1..]) && s[pos] == forms[0][0]
    ensures s[pos] != '%' ==> next == pos + 1 && items[0] == Lit(s[pos])
    ensures s[pos] == '%' ==> DirectiveAt(s, pos) == Took(EventOf(items[0]), next)
  {
    var d := forms[0];
    assert Spells(items[0], d);
    next := pos + |d|;
    Split(s, pos, d, Join(forms[1..]));
    if s[pos] == '%' {
      ItemRead(s, pos, items[0], d, next);
    }
  }

  lemma {:induction false} ParseRest(s: string, begin: nat, pos: nat, items: seq<Item>, forms: seq<string>)
    requires begin <= pos <= |s| && s[pos..] == Join(forms) && AllSpelled(items, forms) && Lit('}') !in items
    ensures Scan(s, begin, pos).end == Stopped(|s|)
    ensures Replay(Scan(s, begin, pos).events) == Lits(s[begin..pos]) + items
    decreases |items|
  {
    if items == [] {
      ReplayPending(s, begin, pos);
      assert pos == |s| && Lits(s[begin..pos]) + items == Lits(s[begin..pos]);
    } else {
      var i, tail, others := items[0], items[1..], forms[1..];
      var next := NextItem(s, pos, items, forms);
      assert items == [i] + tail && i != Lit('}') && Lit('}') !in tail && AllSpelled(tail, others);
      if s[pos] != '%' {
        ParseRest(s, begin, next, tail, others);
        ParsePlain(s, begin, pos, i, tail);
      } else {
        ParseRest(s, next, next, tail, others);
        ParseItem(s, begin, pos, i, tail, next);
      }
    }
  }

  lemma ParseItem(s: string, begin: nat, pos: nat, i: Item, tail: seq<Item>, next: nat)
    requires begin <= pos < next <= |s| && s[pos] == '%' && DirectiveAt(s, pos) == Took(EventOf(i), next)
    requires Scan(s, next, next).end == Stopped(|s|)
    requires Replay(Scan(s, next, next).events) == Lits(s[next..next]) + tail
    ensures Scan(s, begin, pos).end == Stopped(|s|)
    ensures Replay(Scan(s, begin, pos).events) == Lits(s[begin..pos]) + ([i] + tail)
  {
    var pending, e, rest := TextBetween(s, begin, pos), EventOf(i), Scan(s, next, next).events;
    ReplayPending(s, begin, pos);
    assert Lits(s[next..next]) + tail == tail;
    ReplayItem(pending, i, rest);
    assert Scan(s, begin, pos).events == (pending + [e]) + rest;
  }

  lemma ReplayItem(pending: seq<Event>, i: Item, rest: seq<Event>)
    ensures Replay((pending + [EventOf(i)]) + rest) == Replay(pending) + ([i] + Replay(rest))
  {
    var e := EventOf(i);
    ReplayAppend(pending + [e], rest);
    ReplayAppend(pending, [e]);
    assert ItemsOf(e) == [i] && Replay([e]) == [i] + Replay([]);
    assert (Replay(pending) + [i]) + Replay(rest) == Replay(pending) + ([i] + Replay(rest));
  }

  /** Parsing a spec, however its items are written, replays them in order and consumes the whole of it. */
  lemma SpelledThenParsed(items: seq<Item>, forms: seq<string>)
    requires AllSpelled(items, forms) && Lit('}') !in items
    ensures Scan(Join(forms), 0, 0).end == Stopped(|Join(forms)|)
    ensures Replay(Scan(Join(forms), 0, 0).events) == items
  {
    ParseRest(Join(forms), 0, 0, items, forms);
    assert Lits("") + items == items;
  }

  lemma {:induction false} PrintJoins(items: seq<Item>) returns (forms: seq<string>)
    ensures AllSpelled(items, forms) && Join(forms) == Print(items)
  {
    if items == [] {
      forms := [];
    } else {
      var rest := PrintJoins(items[1..]);
      forms := [PrintItem(items[0])] + rest;
      assert forms[1..] == rest;
    }
  }

  /** Parsing a printed spec replays its directives in order with the text between them. */
  lemma PrintThenParse(items: seq<Item>)
    requires Lit('}') !in items
    ensures Scan(Print(items), 0, 0).end == Stopped(|Print(items)|)
    ensures Replay(Scan(Print(items), 0, 0).events) == items
  {
    var forms := PrintJoins(items);
    SpelledThenParsed(items, forms);
  }

  /** A closing brace ends the spec, whatever follows it; no printed item contains one unless it is that literal. */
  lemma CloseBraceStops(items: seq<Item>, more: string)
    requires Lit('}') !in items
    ensures Scan(Print(items) + ("}" + more), 0, 0) == Scan(Print(items), 0, 0)
  {
    PrintThenParse(items);
    ScanExtended(Print(items), "}" + more, 0, 0);
  }

  lemma {:induction false} ScanExtended(s: string, more: string, begin: nat, pos: nat)
    requires begin <= pos <= |s| && Scan(s, begin, pos).end == Stopped(|s|)
    requires more != "" && more[0] == '}'
    ensures Scan(s + more, begin, pos) == Scan(s, begin, pos)
    decreases |s| - pos
  {
    var t := s + more;
    assert forall i, j :: 0 <= i <= j <= |s| ==> t[i..j] == s[i..j];
    if pos == |s| {
      assert t[pos] == '}';
    } else if s[pos] == '}' {
    } else if s[pos] != '%' {
      ScanExtended(s, more, begin, pos + 1);
    } else {
      ScanExtended(s, more, DirectiveAt(s, pos).next, DirectiveAt(s, pos).next);
    }
  }

  // ------------------------------------------------------------------ printing what was parsed

  lemma DecodesBack(c: char)
    ensures Decode(c).Emits? && Decode(c).e.On? ==> ModifierOf(Decode(c).e.d).NoModifier? && Letter(Decode(c).e.d) == c
    ensures DecodeE(c).Emits? ==>
              DecodeE(c).e.On? && ModifierOf(DecodeE(c).e.d).ModifierE? && Letter(DecodeE(c).e.d) == c
    ensures DecodeO(c).Emits? ==>
              DecodeO(c).e.On? && ModifierOf(DecodeO(c).e.d).ModifierO? && Letter(DecodeO(c).e.d) == c
  {
  }

  /** "%n" and "%t" stand for single characters, which are printed as such. */
  predicate IsEscape(s: string, pos: nat) {
    pos + 1 < |s| && s[pos] == '%' && (s[pos + 1] == 'n' || s[pos + 1] == 't')
  }

  /** No directive from `pos` on is "%n" or "%t". */
  predicate NoEscapes(s: string, pos: nat)
    requires pos <= |s|
    decreases |s| - pos
  {
    if pos == |s| || s[pos] == '}' then true
    else if s[pos] != '%' then NoEscapes(s, pos + 1)
    else
      match DirectiveAt(s, pos)
      case Bad => true
      case Took(_, next) => !IsEscape(s, pos) && NoEscapes(s, next)
  }

  lemma {:induction false} PrintAppend(a: seq<Item>, b: seq<Item>)
    ensures Print(a + b) == Print(a) + Print(b)
  {
    if a == [] {
      assert a + b == b;
    } else {
      assert (a + b)[1..] == a[1..] + b;
      PrintAppend(a[1..], b);
    }
  }

  lemma {:induction false} PrintLits(t: string)
    requires '%' !in t
    ensures Print(Lits(t)) == t
  {
    if t != "" {
      assert Lits(t)[1..] == Lits(t[1..]);
      assert forall c :: c in t[1..] ==> c in t;
      PrintLits(t[1..]);
      assert t == [t[0]] + t[1..];
    }
  }

  lemma PrintOne(i: Item)
    ensures Print([i]) == PrintItem(i)
  {
    assert [i][1..] == [] && PrintItem(i) + "" == PrintItem(i);
  }

  // What the directive was decoded from.
  lemma DirectiveCode(s: string, pos: nat)
    requires pos < |s| && s[pos] == '%' && DirectiveAt(s, pos).Took? && DirectiveAt(s, pos).e.On?
    ensures var Took(e, next) := DirectiveAt(s, pos);
            s[pos..next] == ['%'] + Code(ModifierOf(e.d), Letter(e.d))
  {
    var Took(e, next) := DirectiveAt(s, pos);
    DecodesBack(s[pos + 1]);
    if next == pos + 2 {
      assert s[pos..next] == ['%', s[pos + 1]];
    } else {
      DecodesBack(s[pos + 2]);
      assert s[pos..next] == ['%', s[pos + 1], s[pos + 2]];
    }
  }

  lemma DirectiveText(s: string, pos: nat)
    requires pos < |s| && s[pos] == '%' && DirectiveAt(s, pos).Took? && DirectiveAt(s, pos).e.OnText?
    ensures var Took(e, next) := DirectiveAt(s, pos);
            && next == pos + 2 && |e.text| == 1
            && (!IsEscape(s, pos) ==> e.text == "%" && s[pos..next] == "%%")
            && (IsEscape(s, pos) ==> e.text[0] != '%')
  {
    DecodesBack(s[pos + 1]);
    if DirectiveAt(s, pos).next == pos + 3 {
      DecodesBack(s[pos + 2]);
    }
  }

  lemma DirectivePrints(s: string, pos: nat)
    requires pos < |s| && s[pos] == '%' && DirectiveAt(s, pos).Took?
    ensures var Took(e, next) := DirectiveAt(s, pos);
            && (!IsEscape(s, pos) ==> Print(ItemsOf(e)) == s[pos..next])
            && (IsEscape(s, pos) ==> next == pos + 2 && |Print(ItemsOf(e))| == 1)
  {
    match DirectiveAt(s, pos).e {
      case OnText(t) =>
        DirectiveText(s, pos);
        assert ItemsOf(OnText(t)) == [Lit(t[0])];
        PrintOne(Lit(t[0]));
      case On(d) =>
        DirectiveCode(s, pos);
        PrintOne(Dir(d));
    }
  }

  lemma PrintReplay(a: seq<Event>, b: seq<Event>)
    ensures Print(Replay(a + b)) == Print(Replay(a)) + Print(Replay(b))
  {
    ReplayAppend(a, b);
    PrintAppend(Replay(a), Replay(b));
  }

  lemma TextPrints(s: string, begin: nat, pos: nat)
    requires begin <= pos <= |s| && '%' !in s[begin..pos]
    ensures Print(Replay(TextBetween(s, begin, pos))) == s[begin..pos]
  {
    ReplayPending(s, begin, pos);
    PrintLits(s[begin..pos]);
  }

  lemma ReplayOne(e: Event)
    ensures Replay([e]) == ItemsOf(e)
  {
    assert [e][1..] == [];
  }

  lemma EventsPrint(s: string, begin: nat, pos: nat, e: Event, rest: seq<Event>)
    requires begin <= pos <= |s| && '%' !in s[begin..pos]
    ensures Print(Replay((TextBetween(s, begin, pos) + [e]) + rest)) ==
              s[begin..pos] + Print(ItemsOf(e)) + Print(Replay(rest))
  {
    PrintReplay(TextBetween(s, begin, pos) + [e], rest);
    PrintReplay(TextBetween(s, begin, pos), [e]);
    TextPrints(s, begin, pos);
    ReplayOne(e);
  }

  lemma ScanDirective(s: string, begin: nat, pos: nat)
    requires begin <= pos < |s| && s[pos] == '%' && Scan(s, begin, pos).end.Stopped?
    ensures DirectiveAt(s, pos).Took?
    ensures var Took(e, next) := DirectiveAt(s, pos);
            && Scan(s, begin, pos) == Scan(s, next, next).After(TextBetween(s, begin, pos) + [e])
            && (NoEscapes(s, pos) <==> !IsEscape(s, pos) && NoEscapes(s, next))
  {
  }

  // A text read in three parts, of which the last two may print shorter than they were read.
  lemma PartsPrint(s: string, begin: nat, pos: nat, next: nat, end: nat,
                   one: string, rest: string, plain: bool, plain': bool)
    requires begin <= pos <= next <= end <= |s|
    requires if plain then one == s[pos..next] else |one| < next - pos
    requires if plain' then rest == s[next..end] else |rest| < end - next
    ensures if plain && plain' then s[begin..pos] + one + rest == s[begin..end]
            else |s[begin..pos] + one + rest| < end - begin
  {
  }

  lemma {:induction false} ParsedPrints(s: string, begin: nat, pos: nat)
    requires begin <= pos <= |s| && '%' !in s[begin..pos] && Scan(s, begin, pos).end.Stopped?
    ensures var t := Scan(s, begin, pos);
            if NoEscapes(s, pos) then Print(Replay(t.events)) == s[begin..t.end.pos]
            else |Print(Replay(t.events))| < t.end.pos - begin
    decreases |s| - pos
  {
    if pos == |s| || s[pos] == '}' {
      ReplayPending(s, begin, pos);
      PrintLits(s[begin..pos]);
    } else if s[pos] != '%' {
      assert s[begin..pos + 1] == s[begin..pos] + [s[pos]];
      ParsedPrints(s, begin, pos + 1);
    } else {
      DirectiveStep(s, begin, pos);
    }
  }

  lemma {:induction false} DirectiveStep(s: string, begin: nat, pos: nat)
    requires begin <= pos < |s| && '%' !in s[begin..pos] && s[pos] == '%' && Scan(s, begin, pos).end.Stopped?
    ensures var t := Scan(s, begin, pos);
            if NoEscapes(s, pos) then Print(Replay(t.events)) == s[begin..t.end.pos]
            else |Print(Replay(t.events))| < t.end.pos - begin
    decreases |s| - pos, 0
  {
    ScanDirective(s, begin, pos);
    var Took(e, next) := DirectiveAt(s, pos);
    var rest := Scan(s, next, next);
    assert s[next..next] == "";
    ParsedPrints(s, next, next);
    DirectivePrints(s, pos);
    EventsPrint(s, begin, pos, e, rest.events);
    PartsPrint(s, begin, pos, next, rest.end.pos, Print(ItemsOf(e)), Print(Replay(rest.events)),
               !IsEscape(s, pos), NoEscapes(s, next));
  }

  /** What was parsed prints back as the text that was parsed, if and only if no directive in it is "%n" or "%t". */
  lemma ParseThenPrint(s: string)
    requires Scan(s, 0, 0).end.Stopped?
    ensures Print(Replay(Scan(s, 0, 0).events)) == s[..Scan(s, 0, 0).end.pos] <==> NoEscapes(s, 0)
  {
    assert s[0..0] == "";
    ParsedPrints(s, 0, 0);
    assert s[0..Scan(s, 0, 0).end.pos] == s[..Scan(s, 0, 0).end.pos];
  }

  // ------------------------------------------------------------------ checking what was printed

  /** The first item that asks for a date, if any. */
  predicate IsFirstDate(items: seq<Item>, k: nat) {
    k < |items| && items[k].Dir? && !IsTime(items[k].d) &&
    forall j :: 0 <= j < k && items[j].Dir? ==> IsTime(items[j].d)
  }

  predicate AllTimes(items: seq<Item>) {
    forall i :: i in items && i.Dir? ==> IsTime(i.d)
  }

  lemma {:induction false} JudgedTimes(es: seq<Event>, end: Outcome)
    requires AllTimes(Replay(es))
    ensures Judged(es, end) == end
  {
    if es != [] {
      var first, rest := ItemsOf(es[0]), Replay(es[1..]);
      assert forall i :: i in first || i in rest ==> i in first + rest;
      assert es[0].On? ==> first[0] == Dir(es[0].d);
      JudgedTimes(es[1..], end);
    }
  }

  lemma FirstDateIsIn(first: seq<Item>, rest: seq<Item>, k: nat)
    requires IsFirstDate(first + rest, k)
    ensures if k < |first| then IsFirstDate(first, k) else IsFirstDate(rest, k - |first|)
    ensures k >= |first| ==> AllTimes(first)
  {
    var all := first + rest;
    assert forall j :: 0 <= j < |first| ==> all[j] == first[j];
    assert forall j :: 0 <= j < |rest| ==> all[j + |first|] == rest[j];
  }

  lemma {:induction false} JudgedFirst(es: seq<Event>, end: Outcome, k: nat)
    requires IsFirstDate(Replay(es), k)
    ensures Judged(es, end) == Refused(Replay(es)[k].d)
  {
    var first, rest := ItemsOf(es[0]), Replay(es[1..]);
    FirstDateIsIn(first, rest, k);
    if k >= |first| {
      assert es[0].On? ==> first[0] == Dir(es[0].d);
      assert Replay(es)[k] == rest[k - |first|];
      JudgedFirst(es[1..], end, k - |first|);
    }
  }

  /**
    Checking a printed spec for a duration: it passes as a whole if all its directives ask for
    times, and otherwise the first that does not is refused.
   */
  lemma PrintThenCheck(items: seq<Item>)
    requires Lit('}') !in items
    ensures var o := OutcomeFor(Scan(Print(items), 0, 0), NeedsDate);
            && (o == Stopped(|Print(items)|) <==> forall i :: i in items && i.Dir? ==> Letter(i.d) in "HIMSrRTpQq")
            && forall k: nat :: IsFirstDate(items, k) ==> o == Refused(items[k].d)
  {
    var t := Scan(Print(items), 0, 0);
    PrintThenParse(items);
    JudgedByChecker(t);
    if AllTimes(items) {
      JudgedTimes(t.events, t.end);
    } else {
      var k := FirstDate(items);
      JudgedFirst(t.events, t.end, k);
    }
    forall k: nat | IsFirstDate(items, k) ensures Judged(t.events, t.end) == Refused(items[k].d) {
      JudgedFirst(t.events, t.end, k);
    }
  }

  lemma {:induction false} FirstDate(items: seq<Item>) returns (k: nat)
    requires exists i :: i in items && i.Dir? && !IsTime(i.d)
    ensures IsFirstDate(items, k)
  {
    if items[0].Dir? && !IsTime(items[0].d) {
      k := 0;
    } else {
      var i :| i in items && i.Dir? && !IsTime(i.d);
      assert items == [items[0]] + items[1..] && i in items[1..];
      var m := FirstDate(items[1..]);
      k := m + 1;
      assert forall j :: 0 < j < |items| ==> items[j] == items[1..][j - 1];
    }
  }
}
