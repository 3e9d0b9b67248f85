/**
  The scanning loop of printf formatting (printf.h), for any way of parsing and any way of
  printing a conversion that agree with each other.
 */
module PrintfLoop {
  import opened PrintfFormat

  datatype Length = NoLength | LenHH | LenH | LenL | LenLL | LenJ | LenZ | LenT | LenBigL

  /** Which argument is written, and under which specs. */
  datatype Written = Written(arg: nat, specs: Specs, length: Length, ty: char)

  datatype Conversion = Parsed(value: Written, it: nat, next: int) | Unparsed(e: Error)

  datatype Event = Text(t: string) | Shown(v: Written)

  datatype Scanned = Done(events: seq<Event>) | Failed(events: seq<Event>, e: Error) {
    function After(first: seq<Event>): Scanned {
      match this
      case Done(es) => Done(first + es)
      case Failed(es, e) => Failed(first + es, e)
    }
  }

  /** Parsing a conversion whose '%' has been read never goes back. */
  ghost predicate GoesOn(s: string, parse: (nat, int) -> Conversion) {
    forall it: nat, next: int ::
      0 < it <= |s| && parse(it, next).Parsed? ==> it <= parse(it, next).it <= |s|
  }

  function Scan(s: string, start: nat, it: nat, parse: (nat, int) -> Conversion, next: int): Scanned
    requires GoesOn(s, parse) && start <= it <= |s|
    decreases |s| - it
  {
    if it == |s| then Done([Text(s[start..it])])
    else if s[it] != '%' then Scan(s, start, it + 1, parse, next)
    else if At(s, it + 1) == '%' then Scan(s, it + 2, it + 2, parse, next).After([Text(s[start..it + 1])])
    else
      match parse(it + 1, next)
      case Unparsed(e) => Failed([Text(s[start..it])], e)
      case Parsed(v, it', next') => Scan(s, it', it', parse, next').After([Text(s[start..it]), Shown(v)])
  }

  /** The position of the next '%', or the end. */
  method FindPercent(s: string, from: nat) returns (it: nat)
    requires from <= |s|
    ensures from <= it <= |s| && (forall i :: from <= i < it ==> s[i] != '%') && (it < |s| ==> s[it] == '%')
  {
    it := from;
    while it < |s| && s[it] != '%'
      invariant from <= it <= |s| && forall i :: from <= i < it ==> s[i] != '%'
    {
      it := it + 1;
    }
  }

  lemma {:induction false} ScanSkips(s: string, start: nat, it: nat, end: nat, parse: (nat, int) -> Conversion,
                                     next: int)
    requires GoesOn(s, parse) && start <= it <= end <= |s| && forall i :: it <= i < end ==> s[i] != '%'
    ensures Scan(s, start, it, parse, next) == Scan(s, start, end, parse, next)
    decreases end - it
  {
    if it < end {
      ScanSkips(s, start, it + 1, end, parse, next);
    }
  }

  lemma AfterTwice(t: Scanned, a: seq<Event>, b: seq<Event>)
    ensures t.After(b).After(a) == t.After(a + b)
  {
    assert a + (b + t.events) == (a + b) + t.events;
  }

  method FormatLoop(s: string, parse: (nat, int) -> Conversion) returns (r: Scanned)
    requires GoesOn(s, parse)
    ensures r == Scan(s, 0, 0, parse, 0)
  {
    var out: seq<Event> := [];
    var start: nat, it: nat, next := 0, 0, 0;
    while it < |s|
      invariant start == it <= |s|
      invariant Scan(s, 0, 0, parse, 0) == Scan(s, start, it, parse, next).After(out)
      decreases |s| - it
    {
      var p := FindPercent(s, it);
      ScanSkips(s, start, it, p, parse, next);
      it := p;
      if it == |s| {
        break;
      }
      it := it + 1;
      if it < |s| && s[it] == '%' {
        AfterTwice(Scan(s, it + 1, it + 1, parse, next), out, [Text(s[start..it])]);
        out := out + [Text(s[start..it])];
        it := it + 1;
        start := it;
        continue;
      }
      var conversion := parse(it, next);
      if conversion.Unparsed? {
        return Failed(out + [Text(s[start..it - 1])], conversion.e);
      }
      var written := [Text(s[start..it - 1]), Shown(conversion.value)];
      AfterTwice(Scan(s, conversion.it, conversion.it, parse, conversion.next), out, written);
      out := out + written;
      it, next := conversion.it, conversion.next;
      start := it;
    }
    r := Done(out + [Text(s[start..it])]);
  }

  // ------------------------------------------------------------------ formats and their meaning

  datatype Item<C> = Lit(c: char) | Cv(conv: C)

  datatype Interp = Means(value: Written, next: int) | Fails(e: Error) {
    // The same outcome, as parsing reports it.
    function At(it: nat): Conversion {
      match this
      case Fails(e) => Unparsed(e)
      case Means(v, next') => Parsed(v, it, next')
    }
  }

  /** How conversions are written, and what each means when the next argument is known. */
  datatype Language<!C> = Language(text: C -> string, mean: (C, int) -> Interp, valid: C -> bool)

  function PrintItem<C>(lang: Language<C>, i: Item<C>): (t: string)
    ensures t != ""
  {
    match i
    case Lit(c) => if c == '%' then "%%" else [c]
    case Cv(conv) => "%" + lang.text(conv)
  }

  function Print<C>(lang: Language<C>, items: seq<Item<C>>): string {
    if |items| == 0 then "" else PrintItem(lang, items[0]) + Print(lang, items[1..])
  }

  datatype Atom = Ch(c: char) | Sh(v: Written)

  datatype Result = Whole(atoms: seq<Atom>) | Cut(atoms: seq<Atom>, e: Error) {
    function After(first: seq<Atom>): Result {
      match this
      case Whole(a) => Whole(first + a)
      case Cut(a, e) => Cut(first + a, e)
    }
  }

  /** The items one after the other, up to the first that fails. */
  function Meaning<C>(lang: Language<C>, items: seq<Item<C>>, next: int): Result {
    if |items| == 0 then Whole([])
    else
      match items[0]
      case Lit(c) => Meaning(lang, items[1..], next).After([Ch(c)])
      case Cv(conv) =>
        match lang.mean(conv, next)
        case Fails(e) => Cut([], e)
        case Means(v, next') => Meaning(lang, items[1..], next').After([Sh(v)])
  }

  function Chars(t: string): seq<Atom> {
    seq(|t|, i requires 0 <= i < |t| => Ch(t[i]))
  }

  function AtomsOf(es: seq<Event>): seq<Atom> {
    if es == [] then []
    else (if es[0].Text? then Chars(es[0].t) else [Sh(es[0].v)]) + AtomsOf(es[1..])
  }

  function Replay(r: Scanned): Result {
    match r
    case Done(es) => Whole(AtomsOf(es))
    case Failed(es, e) => Cut(AtomsOf(es), e)
  }

  predicate AgreesOn<C>(s: string, parse: (nat, int) -> Conversion, lang: Language<C>, c: C, it: nat, next: int) {
    0 < it && lang.valid(c) && Stands(s, it, lang.text(c)) ==>
      it <= |s| && At(s, it) != '%' && parse(it, next) == lang.mean(c, next).At(it + |lang.text(c)|)
  }

  /** Parsing undoes printing, one conversion at a time, and no conversion looks like "%%". */
  ghost predicate Agrees<C(!new)>(s: string, parse: (nat, int) -> Conversion, lang: Language<C>) {
    forall c: C, it: nat, next: int :: AgreesOn(s, parse, lang, c, it, next)
  }

  ghost predicate AllValid<C>(lang: Language<C>, items: seq<Item<C>>) {
    forall i :: i in items && i.Cv? ==> lang.valid(i.conv)
  }

  // ------------------------------------------------------------------ reading a printed format

  lemma {:induction false} AtomsAppend(a: seq<Event>, b: seq<Event>)
    ensures AtomsOf(a + b) == AtomsOf(a) + AtomsOf(b)
  {
    if a == [] {
      assert a + b == b;
    } else {
      assert (a + b)[1..] == a[1..] + b;
      AtomsAppend(a[1..], b);
    }
  }

  lemma ReplayAfter(r: Scanned, first: seq<Event>)
    ensures Replay(r.After(first)) == Replay(r).After(AtomsOf(first))
  {
    AtomsAppend(first, r.events);
  }

  lemma AtomsOfText(t: string)
    ensures AtomsOf([Text(t)]) == Chars(t)
  {
    assert [Text(t)][1..] == [];
  }

  lemma AtomsOfPair(t: string, v: Written)
    ensures AtomsOf([Text(t), Shown(v)]) == Chars(t) + [Sh(v)]
  {
    AtomsOfText(t);
    assert [Shown(v)][1..] == [] && AtomsOf([Shown(v)]) == [Sh(v)];
    AtomsAppend([Text(t)], [Shown(v)]);
    assert [Text(t), Shown(v)] == [Text(t)] + [Shown(v)];
  }

  lemma ResultAfterTwice(r: Result, a: seq<Atom>, b: seq<Atom>)
    ensures r.After(b).After(a) == r.After(a + b)
  {
    assert a + (b + r.atoms) == (a + b) + r.atoms;
  }

  lemma ResultAfterNothing(r: Result)
    ensures r.After([]) == r
  {
  }

  // Reading the items from `it` on, with the text since `start` not yet written.
  ghost predicate Reads<C(!new)>(s: string, start: nat, it: nat, parse: (nat, int) -> Conversion,
                                     lang: Language<C>, items: seq<Item<C>>, next: int)
    requires GoesOn(s, parse) && start <= it <= |s|
  {
    Replay(Scan(s, start, it, parse, next)) == Meaning(lang, items, next).After(Chars(s[start..it]))
  }

  lemma ReadsNothing<C(!new)>(s: string, start: nat, parse: (nat, int) -> Conversion, lang: Language<C>, next: int)
    requires GoesOn(s, parse) && start <= |s|
    ensures Reads(s, start, |s|, parse, lang, [], next)
  {
    AtomsOfText(s[start..]);
    assert s[start..] == s[start..|s|];
    assert Chars(s[start..]) + [] == Chars(s[start..]);
  }

  lemma ReadsLit<C(!new)>(s: string, start: nat, it: nat, parse: (nat, int) -> Conversion,
                              lang: Language<C>, items: seq<Item<C>>, next: int)
    requires GoesOn(s, parse) && start <= it < |s| && items != [] && items[0].Lit?
    requires Stands(s, it, PrintItem(lang, items[0]))
    requires var rest := it + |PrintItem(lang, items[0])|;
             rest <= |s| && Reads(s, if items[0].c == '%' then rest else start, rest, parse, lang, items[1..], next)
    ensures Reads(s, start, it, parse, lang, items, next)
  {
    var c, t, tail := items[0].c, PrintItem(lang, items[0]), items[1..];
    assert s[it + 0] == t[0];
    assert Chars(s[start..it + 1]) == Chars(s[start..it]) + [Ch(c)];
    ResultAfterTwice(Meaning(lang, tail, next), Chars(s[start..it]), [Ch(c)]);
    if c == '%' {
      assert s[it + 1] == t[1];
      PercentScanned(s, start, it, parse, next);
      assert Chars(s[it + 2..it + 2]) == [];
      ResultAfterNothing(Meaning(lang, tail, next));
    }
  }

  lemma PercentScanned(s: string, start: nat, it: nat, parse: (nat, int) -> Conversion, next: int)
    requires GoesOn(s, parse) && start <= it < it + 1 < |s| && s[it] == '%' && s[it + 1] == '%'
    ensures Replay(Scan(s, start, it, parse, next)) ==
              Replay(Scan(s, it + 2, it + 2, parse, next)).After(Chars(s[start..it + 1]))
  {
    AtomsOfText(s[start..it + 1]);
    ReplayAfter(Scan(s, it + 2, it + 2, parse, next), [Text(s[start..it + 1])]);
  }

  lemma ReadsConv<C(!new)>(s: string, start: nat, it: nat, parse: (nat, int) -> Conversion,
                               lang: Language<C>, items: seq<Item<C>>, next: int)
    requires GoesOn(s, parse) && start <= it < |s| && items != [] && items[0].Cv?
    requires s[it] == '%' && At(s, it + 1) != '%'
    requires var conv := items[0].conv;
             var rest := it + 1 + |lang.text(conv)|;
             && rest <= |s| && parse(it + 1, next) == lang.mean(conv, next).At(rest)
             && (lang.mean(conv, next).Means? ==>
                   Reads(s, rest, rest, parse, lang, items[1..], lang.mean(conv, next).next))
    ensures Reads(s, start, it, parse, lang, items, next)
  {
    var text, rest := s[start..it], it + 1 + |lang.text(items[0].conv)|;
    match lang.mean(items[0].conv, next) {
      case Fails(e) =>
        AtomsOfText(text);
        assert Chars(text) + [] == Chars(text);
      case Means(v, n) =>
        AtomsOfPair(text, v);
        ReplayAfter(Scan(s, rest, rest, parse, n), [Text(text), Shown(v)]);
        assert Chars(s[rest..rest]) == [];
        ResultAfterNothing(Meaning(lang, items[1..], n));
        ResultAfterTwice(Meaning(lang, items[1..], n), Chars(text), [Sh(v)]);
    }
  }

  lemma PrintSplits<C>(s: string, it: nat, lang: Language<C>, items: seq<Item<C>>)
    requires items != [] && Stands(s, it, Print(lang, items)) && it + |Print(lang, items)| == |s|
    ensures var rest := it + |PrintItem(lang, items[0])|;
            && it < rest <= |s| && Stands(s, it, PrintItem(lang, items[0]))
            && Stands(s, rest, Print(lang, items[1..])) && rest + |Print(lang, items[1..])| == |s|
  {
    StandsSplit(s, it, PrintItem(lang, items[0]), Print(lang, items[1..]));
  }

  lemma ConvIsParsed<C(!new)>(s: string, it: nat, parse: (nat, int) -> Conversion, lang: Language<C>, c: C, next: int)
    requires Agrees(s, parse, lang) && lang.valid(c) && Stands(s, it, PrintItem(lang, Cv(c)))
    ensures it < |s| && s[it] == '%' && At(s, it + 1) != '%'
    ensures parse(it + 1, next) == lang.mean(c, next).At(it + 1 + |lang.text(c)|)
  {
    StandsSplit(s, it, "%", lang.text(c));
    assert s[it + 0] == "%"[0];
    assert AgreesOn(s, parse, lang, c, it + 1, next);
  }

  lemma {:induction false} ReadsAll<C(!new)>(s: string, start: nat, it: nat, parse: (nat, int) -> Conversion,
                                             lang: Language<C>, items: seq<Item<C>>, next: int)
    requires GoesOn(s, parse) && Agrees(s, parse, lang) && AllValid(lang, items)
    requires start <= it <= |s| && Stands(s, it, Print(lang, items)) && it + |Print(lang, items)| == |s|
    ensures Reads(s, start, it, parse, lang, items, next)
    decreases |items|
  {
    if items == [] {
      ReadsNothing(s, start, parse, lang, next);
    } else {
      PrintSplits(s, it, lang, items);
      assert items[0] in items && AllValid(lang, items[1..]);
      var rest := it + |PrintItem(lang, items[0])|;
      if items[0].Lit? {
        ReadsAll(s, if items[0].c == '%' then rest else start, rest, parse, lang, items[1..], next);
        ReadsLit(s, start, it, parse, lang, items, next);
      } else {
        ConvIsParsed(s, it, parse, lang, items[0].conv, next);
        var m := lang.mean(items[0].conv, next);
        if m.Means? {
          ReadsAll(s, rest, rest, parse, lang, items[1..], m.next);
        }
        ReadsConv(s, start, it, parse, lang, items, next);
      }
    }
  }

  /** If parsing undoes printing on single conversions, then scanning undoes printing on whole formats. */
  lemma ScanUndoesPrint<C(!new)>(parse: (nat, int) -> Conversion, lang: Language<C>, items: seq<Item<C>>)
    requires var s := Print(lang, items); GoesOn(s, parse) && Agrees(s, parse, lang)
    requires AllValid(lang, items)
    ensures Replay(Scan(Print(lang, items), 0, 0, parse, 0)) == Meaning(lang, items, 0)
  {
    ReadsAll(Print(lang, items), 0, 0, parse, lang, items, 0);
    assert Chars(Print(lang, items)[0..0]) == [];
    ResultAfterNothing(Meaning(lang, items, 0));
  }
}
