/**
  What the fields of a compiled format string write, and why a string is refused: FormatCompile
  in terms of the strings and arguments themselves.
 */
module FormatFields {
  import opened Decimal
  import opened FormatCompile

  // ------------------------------------------------------------------ what the fields write

  predicate Bears(arg: Arg, x: string) {
    arg == Named(x, arg.text)
  }

  /** The first of the arguments with that name. */
  predicate IsFirst(args: seq<Arg>, i: nat, x: string) {
    i < |args| && Bears(args[i], x) && forall j :: 0 <= j < i ==> !Bears(args[j], x)
  }

  /** What a piece has to write when `k` automatic fields come before it. */
  ghost predicate Writes(p: Piece, k: nat, args: seq<Arg>, t: string) {
    match p
    case Chr(c) => t == [c]
    case Auto => k < |args| && t == args[k].text
    case Index(n) => n < |args| && t == args[n].text
    case Name(x) => exists i: nat :: IsFirst(args, i, x) && t == args[i].text
  }

  ghost predicate AllWrite(ps: seq<Piece>, k: nat, args: seq<Arg>, texts: seq<string>) {
    |texts| == |ps| && forall i :: 0 <= i < |ps| ==> Writes(ps[i], k + Autos(ps[..i]), args, texts[i])
  }

  function Flat(texts: seq<string>): string {
    if texts == [] then "" else texts[0] + Flat(texts[1..])
  }

  lemma {:induction false} FindsFirst(args: seq<Arg>, x: string, i: nat)
    requires IsFirst(args, i, x)
    ensures FindNamed(args, x) == Output(args[i].text, true)
  {
    if i > 0 {
      assert !Bears(args[0], x);
      forall j | 0 <= j < i - 1 ensures !Bears(args[1..][j], x) {
        assert !Bears(args[j + 1], x);
      }
      FindsFirst(args[1..], x, i - 1);
    }
  }

  lemma {:induction false} FindsNone(args: seq<Arg>, x: string)
    requires forall arg :: arg in args ==> !Bears(arg, x)
    ensures FindNamed(args, x) == Output("", false)
  {
    if args != [] {
      assert args[0] in args;
      FindsNone(args[1..], x);
    }
  }

  lemma OneWrites(p: Piece, ps: seq<Piece>, k: nat, args: seq<Arg>, t: string)
    requires Writes(p, k, args, t)
    ensures Meaning([p] + ps, k, args) == Output(t, true).Then(Meaning(ps, if p.Auto? then k + 1 else k, args))
  {
    assert ([p] + ps)[1..] == ps;
    if p.Name? {
      var i: nat :| IsFirst(args, i, p.x) && t == args[i].text;
      FindsFirst(args, p.x, i);
    }
  }

  lemma AllWriteRest(p: Piece, ps: seq<Piece>, k: nat, args: seq<Arg>, texts: seq<string>)
    requires texts != [] && AllWrite([p] + ps, k, args, texts)
    ensures Writes(p, k, args, texts[0]) && AllWrite(ps, if p.Auto? then k + 1 else k, args, texts[1..])
  {
    var all := [p] + ps;
    assert all[..0] == [] && Writes(all[0], k + Autos(all[..0]), args, texts[0]);
    forall i | 0 <= i < |ps|
      ensures Writes(ps[i], (if p.Auto? then k + 1 else k) + Autos(ps[..i]), args, texts[1..][i])
    {
      assert all[..i + 1] == [p] + ps[..i] && ([p] + ps[..i])[1..] == ps[..i];
      assert Writes(all[i + 1], k + Autos(all[..i + 1]), args, texts[i + 1]);
    }
  }

  lemma ThenTwice(a: string, b: string, m: Output)
    ensures Output(a, true).Then(Output(b, true).Then(m)) == Output(a + b, true).Then(m)
  {
    assert a + (b + m.text) == (a + b) + m.text;
  }

  // The pieces in `ps` write the texts; `rest` follows them.
  lemma {:induction false} MeaningWrites(ps: seq<Piece>, rest: seq<Piece>, k: nat, args: seq<Arg>, texts: seq<string>)
    requires AllWrite(ps, k, args, texts)
    ensures Meaning(ps + rest, k, args) == Output(Flat(texts), true).Then(Meaning(rest, k + Autos(ps), args))
  {
    if ps == [] {
      assert ps + rest == rest;
      assert "" + Meaning(rest, k, args).text == Meaning(rest, k, args).text;
    } else {
      var p, tail := ps[0], ps[1..];
      var k' := if p.Auto? then k + 1 else k;
      assert ps == [p] + tail && ps + rest == [p] + (tail + rest);
      AllWriteRest(p, tail, k, args, texts);
      OneWrites(p, tail + rest, k, args, texts[0]);
      MeaningWrites(tail, rest, k', args, texts[1..]);
      assert k' + Autos(tail) == k + Autos(ps);
      ThenTwice(texts[0], Flat(texts[1..]), Meaning(rest, k + Autos(ps), args));
    }
  }

  /**
    Formatting a compiled string writes its pieces one after the other: characters as they are, the
    k-th automatic field as argument k, an indexed field as that argument, and a named one as the
    first argument with that name.
   */
  lemma FieldsWriteArguments(ps: seq<Piece>, args: seq<Arg>, texts: seq<string>)
    requires Valid(ps) && Numbered(ps, |args|) && AllWrite(ps, 0, args, texts)
    ensures Compile(Print(ps), |args|).Tree?
    ensures Format(Compile(Print(ps), |args|).node, args) == Output(Flat(texts), true)
  {
    PrintCompileFormat(ps, args);
    MeaningWrites(ps, [], 0, args, texts);
    assert ps + [] == ps && Flat(texts) + "" == Flat(texts);
  }

  /** It stops without more output at the first name that no argument bears. */
  lemma StopsAtMissingName(ps: seq<Piece>, x: string, rest: seq<Piece>, args: seq<Arg>, texts: seq<string>)
    requires var all := ps + ([Name(x)] + rest); Valid(all) && Numbered(all, |args|)
    requires AllWrite(ps, 0, args, texts) && forall arg :: arg in args ==> !Bears(arg, x)
    ensures var all := ps + ([Name(x)] + rest);
            Compile(Print(all), |args|).Tree? &&
            Format(Compile(Print(all), |args|).node, args) == Output(Flat(texts), false)
  {
    var tail := [Name(x)] + rest;
    PrintCompileFormat(ps + tail, args);
    MeaningWrites(ps, tail, 0, args, texts);
    FindsNone(args, x);
    assert Flat(texts) + "" == Flat(texts);
  }

  lemma OnePiece(p: Piece, args: seq<Arg>, t: string)
    requires ValidPiece(p) && Numbered([p], |args|) && Writes(p, 0, args, t)
    ensures Compile(Print([p]), |args|).Tree? && Format(Compile(Print([p]), |args|).node, args) == Output(t, true)
  {
    assert [p][..0] == [] && AllWrite([p], 0, args, [t]);
    FieldsWriteArguments([p], args, [t]);
    assert Flat([t]) == t + "" == t;
  }

  lemma PrintOne(p: Piece)
    ensures Print([p]) == PrintPiece(p)
  {
    assert [p][1..] == [] && PrintPiece(p) + "" == PrintPiece(p);
  }

  // One piece compiles iff its argument is there.
  lemma OneFieldCompiles(p: Piece, nargs: nat)
    requires ValidPiece(p) && !p.Chr?
    ensures Compile(PrintPiece(p), nargs).Tree? <==>
              match p
              case Auto => nargs > 0
              case Index(n) => n < nargs
              case _ => true
  {
    PrintOne(p);
    var args := seq(nargs, _ => Plain(""));
    PrintCompileFormat([p], args);
    assert [p][1..] == [] && Autos([p]) == if p.Auto? then 1 else 0;
    assert p in [p] && forall q :: q in [p] ==> q == p;
  }

  lemma NameFound(x: string, args: seq<Arg>, i: nat)
    requires IsName(x) && IsFirst(args, i, x)
    ensures Compile("{" + x + "}", |args|).Tree?
    ensures Format(Compile("{" + x + "}", |args|).node, args) == Output(args[i].text, true)
  {
    PrintOne(Name(x));
    OnePiece(Name(x), args, args[i].text);
  }

  lemma NameMissing(x: string, args: seq<Arg>)
    requires IsName(x) && forall arg :: arg in args ==> !Bears(arg, x)
    ensures Compile("{" + x + "}", |args|).Tree?
    ensures Format(Compile("{" + x + "}", |args|).node, args) == Output("", false)
  {
    PrintOne(Name(x));
    assert [] + ([Name(x)] + []) == [Name(x)];
    StopsAtMissingName([], x, [], args, []);
  }

  /** One named field writes the first argument with that name, and fails iff there is none. */
  lemma NamedFieldExactly(x: string, args: seq<Arg>)
    requires IsName(x)
    ensures Compile("{" + x + "}", |args|).Tree?
    ensures Format(Compile("{" + x + "}", |args|).node, args).ok <==> exists arg :: arg in args && Bears(arg, x)
    ensures forall i: nat :: IsFirst(args, i, x) ==>
              Format(Compile("{" + x + "}", |args|).node, args) == Output(args[i].text, true)
  {
    OneFieldCompiles(Name(x), |args|);
    forall i: nat | IsFirst(args, i, x)
      ensures Format(Compile("{" + x + "}", |args|).node, args) == Output(args[i].text, true)
    {
      NameFound(x, args, i);
    }
    if i: nat :| i < |args| && Bears(args[i], x) {
      var first := FirstBearing(args, x, i);
      NameFound(x, args, first);
    } else {
      NameMissing(x, args);
    }
  }

  lemma {:induction false} FirstBearing(args: seq<Arg>, x: string, i: nat) returns (first: nat)
    requires i < |args| && Bears(args[i], x)
    ensures IsFirst(args, first, x)
  {
    if j: nat :| j < i && Bears(args[j], x) {
      first := FirstBearing(args, x, j);
    } else {
      first := i;
    }
  }

  /** One indexed field writes that argument, and there is no such tree without it. */
  lemma IndexedFieldExactly(n: nat, args: seq<Arg>)
    ensures Compile("{" + Render(n) + "}", |args|).Tree? <==> n < |args| && n <= 2147483647
    ensures n < |args| && n <= 2147483647 ==>
              Format(Compile("{" + Render(n) + "}", |args|).node, args) == Output(args[n].text, true)
  {
    var s := "{" + Render(n) + "}";
    if n <= 2147483647 {
      PrintOne(Index(n));
      PrintCompileFormat([Index(n)], args);
      assert Index(n) in [Index(n)];
      if n < |args| {
        OnePiece(Index(n), args, args[n].text);
      }
    } else {
      TooLong(s, n);
    }
  }

  lemma TooLong(s: string, n: nat)
    requires n > 2147483647 && s == "{" + Render(n) + "}"
    ensures ParseArgId(s, 1) == NoArgId && forall nargs :: !Compile(s, nargs).Tree?
  {
    RenderThenValue(n);
    var end := |s| - 1;
    assert s[1..end] == Render(n);
    assert forall i :: 1 <= i < end ==> s[i] == Render(n)[i - 1];
    DigitsEndAt(s, 1, end);
  }

  // ------------------------------------------------------------------ what is a field

  /** Exactly these texts between braces are fields: nothing, a number without padding, and a name. */
  lemma FieldTextsExactly(x: string, nargs: nat)
    requires '{' !in x && '}' !in x
    ensures Compile("{" + x + "}", nargs).Tree? <==>
              || (x == "" && nargs > 0)
              || (exists n :: 0 <= n < nargs && n <= 2147483647 && x == Render(n))
              || (x != "" && !('0' <= x[0] <= '9') &&
                  forall c :: c in x ==> 'a' <= c <= 'z' || 'A' <= c <= 'Z' || c == '_' || '0' <= c <= '9')
  {
    var s := "{" + x + "}";
    assert forall i :: 0 <= i < |x| ==> x[i] in x;
    if x == "" {
      PrintOne(Auto);
      assert s == "{}";
      OneFieldCompiles(Auto, nargs);
    } else {
      FieldText(x, nargs);
    }
  }

  // What the one field of a string that compiles is read as.
  lemma FieldIs(x: string, nargs: nat)
    requires x != "" && '{' !in x && '}' !in x && Compile("{" + x + "}", nargs).Tree?
    ensures IsName(x) || exists n :: 0 <= n <= INT_MAX && x == Render(n)
  {
    var s := "{" + x + "}";
    assert s[1] == x[0] && s[1] != '{' && s[1] != '}';
    var id := ParseArgId(s, 1);
    ArgIdText(s, 1);
    assert !id.NoArgId?;
    assert id.end < |s| && s[id.end] == '}';
    assert forall i :: 1 <= i < |s| - 1 ==> s[i] == x[i - 1] && x[i - 1] in x;
    assert s[1..|s| - 1] == x;
  }

  lemma FieldText(x: string, nargs: nat)
    requires x != "" && '{' !in x && '}' !in x
    ensures Compile("{" + x + "}", nargs).Tree? <==>
              IsName(x) || exists n :: 0 <= n < nargs && n <= INT_MAX && x == Render(n)
  {
    if IsName(x) {
      OneFieldCompiles(Name(x), nargs);
    } else if n: nat :| n <= INT_MAX && x == Render(n) {
      OneFieldCompiles(Index(n), nargs);
      assert PrintPiece(Index(n)) == "{" + x + "}";
      if m: nat :| m < nargs && m <= INT_MAX && x == Render(m) {
        RenderInjective(m, n);
      }
    } else if Compile("{" + x + "}", nargs).Tree? {
      FieldIs(x, nargs);
    }
  }

  // ------------------------------------------------------------------ why a string is refused

  /** The compiler's counter behind the pieces: off once one of them has an index. */
  function CounterAfter(ps: seq<Piece>, id: int): int {
    if ps == [] then id
    else CounterAfter(ps[1..], if ps[0].Auto? then id + 1 else if ps[0].Index? then MANUAL_INDEXING else id)
  }

  lemma {:induction false} CounterExactly(ps: seq<Piece>, id: int, nargs: nat)
    requires id >= MANUAL_INDEXING && NumberedFrom(ps, id, nargs)
    ensures CounterAfter(ps, id) == if exists p :: p in ps && p.Index? then -1 else id + Autos(ps)
  {
    if ps != [] {
      var p, rest := ps[0], ps[1..];
      assert ps == [p] + rest;
      FieldOrText(p, rest, id, nargs);
      CounterExactly(rest, CounterAfter([p], id), nargs);
      assert forall q :: q in ps <==> q == p || q in rest;
      AutosBound(rest);
    }
  }

  lemma FieldOrText(p: Piece, rest: seq<Piece>, id: int, nargs: nat)
    requires id >= MANUAL_INDEXING && NumberedFrom([p] + rest, id, nargs)
    ensures CounterAfter([p], id) >= MANUAL_INDEXING && NumberedFrom(rest, CounterAfter([p], id), nargs)
    ensures p.Auto? ==> 0 <= id < nargs
    ensures p.Index? ==> id <= 0 && p.n < nargs
  {
    FieldNumbered(p, rest, id, nargs);
    assert [p][1..] == [];
    if p.Chr? {
      assert Chars([p.c]) == [p];
      CharsNumbered([p.c], rest, id, nargs);
    }
  }

  // A piece that compiles hands on what becomes of the string behind it.
  lemma PieceThenRefused(s: string, pos: nat, p: Piece, next: nat, id: int, nargs: nat)
    requires ValidPiece(p) && pos < next < |s| && s[pos..next] == PrintPiece(p)
    requires (p.Auto? ==> 0 <= id < nargs) && (p.Index? ==> -1 <= id <= 0 && p.n < nargs)
    requires var id' := CounterAfter([p], id); !CompileAt(s, next, id', nargs).Tree?
    ensures CompileAt(s, pos, id, nargs) == CompileAt(s, next, CounterAfter([p], id), nargs)
  {
    assert [p][1..] == [] && CounterAfter([], id) == id;
    ReadPrintedPiece(s, pos, p, next);
    assert s[pos..next][0] == s[pos];
    if p.Chr? && p.c != '{' && p.c != '}' {
      assert next == pos + 1;
    }
  }

  /** Behind pieces that are in order the compiler goes on with the counter that they leave. */
  lemma {:induction false} RefusedBehind(s: string, pos: nat, ps: seq<Piece>, end: nat, id: int, nargs: nat)
    requires Valid(ps) && id >= MANUAL_INDEXING && NumberedFrom(ps, id, nargs)
    requires pos <= end < |s| && s[pos..end] == Print(ps) && !CompileAt(s, end, CounterAfter(ps, id), nargs).Tree?
    ensures CompileAt(s, pos, id, nargs) == CompileAt(s, end, CounterAfter(ps, id), nargs)
    decreases |ps|
  {
    if ps != [] {
      var p, rest := ps[0], ps[1..];
      assert ps == [p] + rest;
      assert s[..end][pos..] == Print(ps);
      var next := PrintSplits(s[..end], pos, ps);
      assert s[pos..next] == s[..end][pos..next] && s[next..end] == s[..end][next..];
      FieldOrText(p, rest, id, nargs);
      assert [p][1..] == [];
      RefusedBehind(s, next, rest, end, CounterAfter([p], id), nargs);
      PieceThenRefused(s, pos, p, next, id, nargs);
    }
  }

  // Pieces in order and then `t`: if `t` is refused there, so is the string, and for that reason.
  lemma DecidedBehind(ps: seq<Piece>, t: string, nargs: nat)
    requires Valid(ps) && Numbered(ps, nargs) && t != ""
    ensures var s, end := Print(ps) + t, |Print(ps)|;
            var id := if exists p :: p in ps && p.Index? then -1 else Autos(ps);
            && s[end..] == t && (forall i :: 0 <= i < |t| ==> s[end + i] == t[i])
            && (!CompileAt(s, end, id, nargs).Tree? ==> Compile(s, nargs) == CompileAt(s, end, id, nargs))
  {
    var s, end := Print(ps) + t, |Print(ps)|;
    assert s[0..end] == Print(ps);
    AutosBound(ps);
    CounterExactly(ps, 0, nargs);
    if !CompileAt(s, end, CounterAfter(ps, 0), nargs).Tree? {
      RefusedBehind(s, 0, ps, end, 0, nargs);
    }
  }

  lemma LastBrace(s: string, pos: nat, id: int, nargs: nat)
    requires pos + 1 == |s| && (s[pos] == '{' || s[pos] == '}')
    ensures CompileAt(s, pos, id, nargs) == Rejected(if s[pos] == '{' then UnmatchedOpen else UnmatchedClose)
  {
  }

  predicate BeginsNoField(c: char) {
    !('0' <= c <= '9' || 'a' <= c <= 'z' || 'A' <= c <= 'Z' || c == '_' || c == '{' || c == '}' || c == ':')
  }

  lemma NoField(s: string, pos: nat, id: int, nargs: nat)
    requires pos + 1 < |s| && s[pos] == '{' && BeginsNoField(s[pos + 1])
    ensures CompileAt(s, pos, id, nargs) == Rejected(BadArgId)
  {
  }

  /** A brace that is the last character. */
  lemma LastBraceRefused(ps: seq<Piece>, nargs: nat)
    requires Valid(ps) && Numbered(ps, nargs)
    ensures Compile(Print(ps) + "{", nargs) == Rejected(UnmatchedOpen)
    ensures Compile(Print(ps) + "}", nargs) == Rejected(UnmatchedClose)
  {
    var id := if exists p :: p in ps && p.Index? then -1 else Autos(ps);
    DecidedBehind(ps, "{", nargs);
    LastBrace(Print(ps) + "{", |Print(ps)|, id, nargs);
    DecidedBehind(ps, "}", nargs);
    LastBrace(Print(ps) + "}", |Print(ps)|, id, nargs);
  }

  /** A brace in front of what begins no argument id. */
  lemma NoFieldRefused(ps: seq<Piece>, c: char, rest: string, nargs: nat)
    requires Valid(ps) && Numbered(ps, nargs) && BeginsNoField(c)
    ensures Compile(Print(ps) + (['{', c] + rest), nargs) == Rejected(BadArgId)
  {
    var t := ['{', c] + rest;
    DecidedBehind(ps, t, nargs);
    assert t[0] == '{' && t[1] == c;
    NoField(Print(ps) + t, |Print(ps)|, if exists p :: p in ps && p.Index? then -1 else Autos(ps), nargs);
  }

  lemma NameAt(s: string, pos: nat, x: string, rest: string)
    requires pos <= |s| && s[pos..] == x + rest && IsName(x) && (rest != "" ==> !IsNameChar(rest[0]))
    ensures var end := pos + |x|;
            && pos < end <= |s| && IsNameStart(s[pos]) && ParseArgId(s, pos) == ByName(x, end)
            && (end < |s| <==> rest != "") && (rest != "" ==> s[end] == rest[0])
  {
    var end := pos + |x|;
    assert forall i :: 0 <= i < |x| ==> s[pos + i] == s[pos..][i] == x[i];
    assert rest != "" ==> s[end] == s[pos..][|x|] == rest[0];
    assert s[pos..end] == x && s[pos] == x[0];
    NameEndAt(s, pos, end);
  }

  // A field whose text begins with a letter or digit is decided by its argument id.
  lemma IdDecides(ps: seq<Piece>, body: string, nargs: nat)
    requires Valid(ps) && Numbered(ps, nargs) && body != "" && IsNameChar(body[0])
    ensures var s, pos := Print(ps) + ("{" + body), |Print(ps)|;
            var id := if exists p :: p in ps && p.Index? then -1 else Autos(ps);
            && s[pos + 1..] == body && s[pos] == '{' && s[pos + 1] == body[0]
            && (!CompileAt(s, pos, id, nargs).Tree? ==> Compile(s, nargs) == CompileAt(s, pos, id, nargs))
  {
    var t := "{" + body;
    DecidedBehind(ps, t, nargs);
    assert t[1..] == body && (Print(ps) + t)[|Print(ps)| + 1..] == t[1..];
  }

  lemma BadName(s: string, pos: nat, x: string, rest: string, id: int, nargs: nat)
    requires pos < |s| && s[pos] == '{' && s[pos + 1..] == x + rest && IsName(x)
    requires rest == "" || (!IsNameChar(rest[0]) && rest[0] != '}')
    ensures CompileAt(s, pos, id, nargs) ==
              if rest != "" && rest[0] == ':' then UnknownFormat else Rejected(MissingClose)
  {
    NameAt(s, pos + 1, x, rest);
  }

  /** A name that is not closed, and a name with a spec, whose type only its argument would tell. */
  lemma NameRefused(ps: seq<Piece>, x: string, rest: string, nargs: nat)
    requires Valid(ps) && Numbered(ps, nargs) && IsName(x)
    requires rest == "" || (!IsNameChar(rest[0]) && rest[0] != '}')
    ensures Compile(Print(ps) + ("{" + (x + rest)), nargs) ==
              if rest != "" && rest[0] == ':' then UnknownFormat else Rejected(MissingClose)
  {
    IdDecides(ps, x + rest, nargs);
    BadName(Print(ps) + ("{" + (x + rest)), |Print(ps)|, x, rest,
            if exists p :: p in ps && p.Index? then -1 else Autos(ps), nargs);
  }

  /** An automatic field behind an indexed one, or without an argument, or with a spec. */
  lemma AutomaticRefused(ps: seq<Piece>, c: char, rest: string, nargs: nat)
    requires Valid(ps) && Numbered(ps, nargs) && (c == '}' || c == ':')
    ensures var result := Compile(Print(ps) + (['{', c] + rest), nargs);
            && ((exists p :: p in ps && p.Index?) ==> result == Rejected(MixedIndexing))
            && ((forall p :: p in ps ==> !p.Index?) && Autos(ps) == nargs ==> result == Rejected(NoSuchArg))
            && ((forall p :: p in ps ==> !p.Index?) && Autos(ps) < nargs && c == ':' ==> result == NeedsSpecs)
  {
    var t := ['{', c] + rest;
    DecidedBehind(ps, t, nargs);
    assert t[0] == '{' && t[1] == c;
  }

  // How an index fares when the counter stands at `id`; `None` if its field compiles.
  function IndexFault(n: nat, rest: string, id: int, nargs: nat): Fault {
    if rest == "" || (rest[0] != '}' && rest[0] != ':') || n > 2147483647 then Because(Rejected(BadArgId))
    else if id > 0 then Because(Rejected(MixedIndexing))
    else if n >= nargs then Because(Rejected(NoSuchArg))
    else if rest[0] == ':' then Because(NeedsSpecs)
    else None
  }

  datatype Fault = Because(why: Compiled) | None

  lemma BadIndex(s: string, pos: nat, n: nat, rest: string, id: int, nargs: nat)
    requires pos < |s| && s[pos] == '{' && s[pos + 1..] == Render(n) + rest && (rest != "" ==> !IsDigit(rest[0]))
    requires id >= -1 && IndexFault(n, rest, id, nargs).Because?
    ensures CompileAt(s, pos, id, nargs) == IndexFault(n, rest, id, nargs).why
    ensures !CompileAt(s, pos, id, nargs).Tree?
  {
    NumberAt(s, pos + 1, n, rest);
  }

  /** An index behind an automatic field, or without an argument, or with a spec, or not closed. */
  lemma IndexRefused(ps: seq<Piece>, n: nat, rest: string, nargs: nat)
    requires Valid(ps) && Numbered(ps, nargs) && (rest != "" ==> !IsDigit(rest[0]))
    ensures var result := Compile(Print(ps) + ("{" + (Render(n) + rest)), nargs);
            if rest == "" || (rest[0] != '}' && rest[0] != ':') || n > 2147483647 then result == Rejected(BadArgId)
            else if Auto in ps then result == Rejected(MixedIndexing)
            else if n >= nargs then result == Rejected(NoSuchArg)
            else rest[0] == ':' ==> result == NeedsSpecs
  {
    var id := if exists p :: p in ps && p.Index? then -1 else Autos(ps);
    RenderThenValue(n);
    IdDecides(ps, Render(n) + rest, nargs);
    AutosBound(ps);
    if IndexFault(n, rest, id, nargs).Because? {
      BadIndex(Print(ps) + ("{" + (Render(n) + rest)), |Print(ps)|, n, rest, id, nargs);
    }
  }

  lemma NumberAt(s: string, pos: nat, n: nat, rest: string)
    requires pos <= |s| && s[pos..] == Render(n) + rest && (rest != "" ==> !IsDigit(rest[0]))
    ensures var end := pos + |Render(n)|;
            && pos < end <= |s| && IsDigit(s[pos]) && (end < |s| <==> rest != "") && (rest != "" ==> s[end] == rest[0])
            && ParseArgId(s, pos) == if n > INT_MAX || rest == "" || (rest[0] != '}' && rest[0] != ':') then NoArgId
                                     else ByIndex(n, end)
  {
    var d := Render(n);
    var end := pos + |d|;
    RenderThenValue(n);
    assert forall i :: 0 <= i < |d| ==> s[pos + i] == s[pos..][i] == d[i];
    assert rest != "" ==> s[end] == s[pos..][|d|] == rest[0];
    assert s[pos..end] == d;
    assert s[pos] == d[0];
    DigitsEndAt(s, pos, end);
  }
}
