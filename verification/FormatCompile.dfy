/**
  The compile-time format-string compiler of fmt (compile.h): a string becomes a tree
  of nodes, and running the tree must mean what the string means.

  An argument is modelled by the text that writing it produces. Field specs (':') are
  parsed by format.h and not part of this model; a string that needs one compiles
  to `NeedsSpecs` here.
 */
module FormatCompile {
  import opened Decimal

  datatype Arg = Plain(text: string) | Named(name: string, text: string)

  // ------------------------------------------------------------------ compiled trees

  datatype Node =
    | Text(data: string)
    | CodeUnit(value: char)
    | Field(index: nat)
    | NamedField(name: string)
    | Concat(lhs: Node, rhs: Node)

  /** What formatting wrote, and whether it ended without throwing. */
  datatype Output = Output(text: string, ok: bool) {
    function Then(next: Output): Output {
      if ok then Output(text + next.text, next.ok) else this
    }
  }

  // Reading past the arguments is refused when compiling, see `CompilesExactly`.
  function Lookup(args: seq<Arg>, n: nat): Output {
    if n < |args| then Output(args[n].text, true) else Output("", false)
  }

  /** The first argument carrying the name is the one written. */
  function FindNamed(args: seq<Arg>, name: string): Output {
    if args == [] then Output("", false)
    else if args[0].Named? && args[0].name == name then Output(args[0].text, true)
    else FindNamed(args[1..], name)
  }

  function Format(node: Node, args: seq<Arg>): Output {
    match node
    case Text(data) => Output(data, true)
    case CodeUnit(c) => Output([c], true)
    case Field(n) => Lookup(args, n)
    case NamedField(name) => FindNamed(args, name)
    case Concat(l, r) => Format(l, args).Then(Format(r, args))
  }

  /** Every indexed field of the tree reads an argument that exists. */
  predicate InRange(node: Node, nargs: nat) {
    match node
    case Field(n) => n < nargs
    case Concat(l, r) => InRange(l, nargs) && InRange(r, nargs)
    case _ => true
  }

  // ------------------------------------------------------------------ the compiler

  datatype Error = UnmatchedOpen | UnmatchedClose | BadArgId | MissingClose | MixedIndexing | NoSuchArg

  datatype Compiled = Tree(node: Node) | UnknownFormat | NeedsSpecs | Rejected(error: Error)

  const MANUAL_INDEXING := -1

  predicate IsNameStart(c: char) {
    'a' <= c <= 'z' || 'A' <= c <= 'Z' || c == '_'
  }

  predicate IsNameChar(c: char) {
    IsNameStart(c) || IsDigit(c)
  }

  predicate IsName(x: string) {
    x != "" && IsNameStart(x[0]) && forall i :: 0 <= i < |x| ==> IsNameChar(x[i])
  }

  function NameEnd(s: string, pos: nat): (end: nat)
    requires pos <= |s|
    ensures pos <= end <= |s| && (forall i :: pos <= i < end ==> IsNameChar(s[i]))
    ensures end < |s| ==> !IsNameChar(s[end])
    decreases |s| - pos
  {
    if pos < |s| && IsNameChar(s[pos]) then NameEnd(s, pos + 1) else pos
  }

  datatype ArgId = ByIndex(n: nat, end: nat) | ByName(name: string, end: nat) | NoArgId

  // The argument-id grammar of replacement fields: "0", a number without padding, or a name.
  function ParseArgId(s: string, pos: nat): (id: ArgId)
    requires pos < |s|
    ensures id.ByIndex? ==> pos < id.end < |s| && (s[id.end] == '}' || s[id.end] == ':')
    ensures id.ByName? ==> pos < id.end <= |s|
  {
    var c := s[pos];
    if IsDigit(c) then
      var end := if c == '0' then pos + 1 else DigitsEnd(s, pos);
      assert c == '0' ==> s[pos..end] == "0";
      var n := Value(s[pos..end]);
      if n > INT_MAX || end == |s| || (s[end] != '}' && s[end] != ':') then NoArgId
      else ByIndex(n, end)
    else if IsNameStart(c) then
      var end := NameEnd(s, pos);
      ByName(s[pos..end], end)
    else NoArgId
  }

  /** An argument id is the number or name whose text it spans. */
  lemma ArgIdText(s: string, pos: nat)
    requires pos < |s|
    ensures var id := ParseArgId(s, pos);
            && (id.ByIndex? ==> id.n <= INT_MAX && Render(id.n) == s[pos..id.end])
            && (id.ByName? ==> IsName(id.name) && id.name == s[pos..id.end])
  {
    if IsDigit(s[pos]) {
      var end := if s[pos] == '0' then pos + 1 else DigitsEnd(s, pos);
      assert s[pos] == '0' ==> s[pos..end] == "0";
      assert s[pos..end][0] == s[pos];
      ValueThenRender(s[pos..end]);
    }
  }

  function ParseText(s: string, pos: nat): (end: nat)
    requires pos <= |s|
    ensures pos <= end <= |s|
    ensures forall i :: pos <= i < end ==> s[i] != '{' && s[i] != '}'
    ensures end < |s| ==> s[end] == '{' || s[end] == '}'
    decreases |s| - pos
  {
    if pos < |s| && s[pos] != '{' && s[pos] != '}' then ParseText(s, pos + 1) else pos
  }

  method ScanText(s: string, pos: nat) returns (end: nat)
    requires pos <= |s|
    ensures end == ParseText(s, pos)
  {
    end := pos;
    while end < |s|
      invariant pos <= end <= |s| && ParseText(s, pos) == ParseText(s, end)
    {
      if s[end] == '{' || s[end] == '}' {
        break;
      }
      end := end + 1;
    }
  }

  function ParseTail(head: Node, s: string, pos: nat, id: int, nargs: nat): Compiled
    requires pos <= |s|
    decreases |s| - pos, 1
  {
    if pos == |s| then Tree(head)
    else
      var tail := CompileAt(s, pos, id, nargs);
      if tail.Tree? then Tree(Concat(head, tail.node)) else tail
  }

  function CompileAt(s: string, pos: nat, id: int, nargs: nat): Compiled
    requires pos < |s|
    decreases |s| - pos, 0
  {
    if s[pos] == '{' then
      if pos + 1 == |s| then Rejected(UnmatchedOpen)
      else if s[pos + 1] == '{' then ParseTail(Text(s[pos..pos + 1]), s, pos + 2, id, nargs)
      else if s[pos + 1] == '}' || s[pos + 1] == ':' then
        if id == MANUAL_INDEXING then Rejected(MixedIndexing)
        else if id < 0 || id >= nargs then Rejected(NoSuchArg)
        else if s[pos + 1] == '}' then ParseTail(Field(id), s, pos + 2, id + 1, nargs)
        else NeedsSpecs
      else
        match ParseArgId(s, pos + 1)
        case NoArgId => Rejected(BadArgId)
        case ByIndex(n, end) =>
          if id != MANUAL_INDEXING && id != 0 then Rejected(MixedIndexing)
          else if n >= nargs then Rejected(NoSuchArg)
          else if s[end] == '}' then ParseTail(Field(n), s, end + 1, MANUAL_INDEXING, nargs)
          else NeedsSpecs
        case ByName(name, end) =>
          if end == |s| || (s[end] != '}' && s[end] != ':') then Rejected(MissingClose)
          else if s[end] == '}' then ParseTail(NamedField(name), s, end + 1, id, nargs)
          else UnknownFormat
    else if s[pos] == '}' then
      if pos + 1 == |s| then Rejected(UnmatchedClose)
      else ParseTail(Text(s[pos..pos + 1]), s, pos + 2, id, nargs)  // the next character is not looked at
    else
      var end := ParseText(s, pos + 1);
      if end - pos > 1 then ParseTail(Text(s[pos..end]), s, end, id, nargs)
      else ParseTail(CodeUnit(s[pos]), s, end, id, nargs)
  }

  function Compile(s: string, nargs: nat): Compiled {
    if s == "" then Tree(Text("")) else CompileAt(s, 0, 0, nargs)
  }

  // ------------------------------------------------------------------ what a format string means

  /** The pieces of a spec-free format string: literal characters and three kinds of field. */
  datatype Piece = Chr(c: char) | Auto | Index(n: nat) | Name(x: string)

  predicate ValidPiece(p: Piece) {
    match p
    case Index(n) => n <= INT_MAX
    case Name(x) => IsName(x)
    case _ => true
  }

  predicate Valid(ps: seq<Piece>) {
    forall p :: p in ps ==> ValidPiece(p)
  }

  function PrintPiece(p: Piece): string {
    match p
    case Chr(c) => if c == '{' || c == '}' then [c, c] else [c]
    case Auto => "{}"
    case Index(n) => "{" + Render(n) + "}"
    case Name(x) => "{" + x + "}"
  }

  function Print(ps: seq<Piece>): string {
    if ps == [] then "" else PrintPiece(ps[0]) + Print(ps[1..])
  }

  function Autos(ps: seq<Piece>): nat {
    if ps == [] then 0 else (if ps[0].Auto? then 1 else 0) + Autos(ps[1..])
  }

  /** Formatting the pieces left to right; `k` automatic fields came before them. */
  function Meaning(ps: seq<Piece>, k: nat, args: seq<Arg>): Output {
    if ps == [] then Output("", true)
    else
      match ps[0]
      case Chr(c) => Output([c], true).Then(Meaning(ps[1..], k, args))
      case Auto => Lookup(args, k).Then(Meaning(ps[1..], k + 1, args))
      case Index(n) => Lookup(args, n).Then(Meaning(ps[1..], k, args))
      case Name(x) => FindNamed(args, x).Then(Meaning(ps[1..], k, args))
  }

  /** Automatic and explicit numbering are not mixed and every field has its argument. */
  predicate Numbered(ps: seq<Piece>, nargs: nat) {
    && (Auto in ps ==> forall p :: p in ps ==> !p.Index?)
    && Autos(ps) <= nargs
    && forall p :: p in ps && p.Index? ==> p.n < nargs
  }

  /** `Numbered` in the middle of a string, where the compiler's counter stands at `id`. */
  predicate NumberedFrom(ps: seq<Piece>, id: int, nargs: nat) {
    && Numbered(ps, nargs)
    && (Auto in ps ==> id >= 0 && id + Autos(ps) <= nargs)
    && ((exists p :: p in ps && p.Index?) ==> id <= 0)
  }

  /**
    A reader of format strings, one piece at a time. With `doubled` it reads the documented
    grammar, in which a literal brace is always doubled; without it, the second of two
    closing braces may be any character, which is skipped.
   */
  datatype Lexed = Pieces(ps: seq<Piece>) | Malformed {
    function After(head: seq<Piece>): Lexed {
      if Pieces? then Pieces(head + ps) else this
    }
  }

  function Lex(s: string, pos: nat, doubled: bool): Lexed
    requires pos <= |s|
    decreases |s| - pos
  {
    if pos == |s| then Pieces([])
    else
      match FirstPiece(s, pos, doubled)
      case Stuck => Malformed
      case Took(p, next) => Lex(s, next, doubled).After([p])
  }

  datatype Step = Took(p: Piece, next: nat) | Stuck

  function FirstPiece(s: string, pos: nat, doubled: bool): (step: Step)
    requires pos < |s|
    ensures step.Took? ==> pos < step.next <= |s|
  {
    if s[pos] == '{' then
      if pos + 1 == |s| then Stuck
      else if s[pos + 1] == '{' then Took(Chr('{'), pos + 2)
      else if s[pos + 1] == '}' then Took(Auto, pos + 2)
      else
        match ParseArgId(s, pos + 1)
        case NoArgId => Stuck
        case ByIndex(n, end) => if s[end] == '}' then Took(Index(n), end + 1) else Stuck
        case ByName(x, end) => if end < |s| && s[end] == '}' then Took(Name(x), end + 1) else Stuck
    else if s[pos] == '}' then
      if pos + 1 < |s| && (s[pos + 1] == '}' || !doubled) then Took(Chr('}'), pos + 2) else Stuck
    else Took(Chr(s[pos]), pos + 1)
  }

  // ------------------------------------------------------------------ reading undoes printing

  lemma PrintCons(p: Piece, ps: seq<Piece>)
    ensures Print([p] + ps) == PrintPiece(p) + Print(ps)
  {
    assert ([p] + ps)[1..] == ps;
  }

  lemma BracesAround(s: string, pos: nat, end: nat)
    requires pos < end < |s| && s[pos] == '{' && s[end] == '}'
    ensures s[pos..end + 1] == "{" + s[pos + 1..end] + "}"
  {
  }

  lemma FieldPiecePrints(s: string, pos: nat)
    requires pos + 1 < |s| && s[pos] == '{' && s[pos + 1] != '{' && s[pos + 1] != '}' && FirstPiece(s, pos, true).Took?
    ensures var step := FirstPiece(s, pos, true);
            ValidPiece(step.p) && PrintPiece(step.p) == s[pos..step.next]
  {
    ArgIdText(s, pos + 1);
    BracesAround(s, pos, ParseArgId(s, pos + 1).end);
  }

  lemma FirstPiecePrints(s: string, pos: nat)
    requires pos < |s| && FirstPiece(s, pos, true).Took?
    ensures var step := FirstPiece(s, pos, true);
            ValidPiece(step.p) && PrintPiece(step.p) == s[pos..step.next]
  {
    if s[pos] == '{' && s[pos + 1] != '{' && s[pos + 1] != '}' {
      FieldPiecePrints(s, pos);
    }
  }

  /** What was read prints back as the very string that was read. */
  lemma {:induction false} LexThenPrint(s: string, pos: nat)
    requires pos <= |s| && Lex(s, pos, true).Pieces?
    ensures Valid(Lex(s, pos, true).ps) && Print(Lex(s, pos, true).ps) == s[pos..]
    decreases |s| - pos
  {
    if pos < |s| {
      var Took(p, next) := FirstPiece(s, pos, true);
      var rest := Lex(s, next, true).ps;
      assert Lex(s, pos, true).ps == [p] + rest;
      FirstPiecePrints(s, pos);
      LexThenPrint(s, next);
      PrintCons(p, rest);
      assert s[pos..next] + s[next..] == s[pos..];
    }
  }

  lemma ArgIdOfIndex(s: string, pos: nat, n: nat)
    requires n <= INT_MAX
    requires var d := Render(n); pos + |d| < |s| && s[pos..pos + |d|] == d && s[pos + |d|] == '}'
    ensures ParseArgId(s, pos) == ByIndex(n, pos + |Render(n)|)
  {
    var d := Render(n);
    RenderThenValue(n);
    assert d[0] == s[pos];
    assert forall i :: pos <= i < pos + |d| ==> s[i] == d[i - pos];
    DigitsEndAt(s, pos, pos + |d|);
  }

  lemma {:induction false} NameEndAt(s: string, pos: nat, end: nat)
    requires pos <= end <= |s| && (forall i :: pos <= i < end ==> IsNameChar(s[i]))
    requires end < |s| ==> !IsNameChar(s[end])
    ensures NameEnd(s, pos) == end
    decreases end - pos
  {
    if pos < end {
      NameEndAt(s, pos + 1, end);
    }
  }

  lemma ArgIdOfName(s: string, pos: nat, x: string)
    requires IsName(x) && pos + |x| < |s| && s[pos..pos + |x|] == x && s[pos + |x|] == '}'
    ensures ParseArgId(s, pos) == ByName(x, pos + |x|)
  {
    assert x[0] == s[pos];
    assert forall i :: pos <= i < pos + |x| ==> s[i] == x[i - pos];
    NameEndAt(s, pos, pos + |x|);
  }

  lemma ReadIndex(s: string, pos: nat, n: nat, next: nat)
    requires n <= INT_MAX && pos < next <= |s| && s[pos..next] == "{" + Render(n) + "}"
    ensures FirstPiece(s, pos, true) == Took(Index(n), next)
  {
    RenderThenValue(n);
    FieldAt(s, pos, Render(n), next);
    ArgIdOfIndex(s, pos + 1, n);
  }

  lemma ReadName(s: string, pos: nat, x: string, next: nat)
    requires IsName(x) && pos < next <= |s| && s[pos..next] == "{" + x + "}"
    ensures FirstPiece(s, pos, true) == Took(Name(x), next)
  {
    FieldAt(s, pos, x, next);
    ArgIdOfName(s, pos + 1, x);
  }

  lemma FieldAt(s: string, pos: nat, body: string, next: nat)
    requires body != "" && pos < next <= |s| && s[pos..next] == "{" + body + "}"
    ensures next == pos + |body| + 2 && s[pos] == '{' && s[pos + 1] == body[0] && s[next - 1] == '}'
    ensures s[pos + 1..pos + 1 + |body|] == body
  {
    var d := "{" + body + "}";
    assert |s[pos..next]| == |d|;
    assert forall i :: 0 <= i < |d| ==> s[pos + i] == s[pos..next][i] == d[i];
    forall i | 0 <= i < |body| ensures s[pos + 1 + i] == body[i] {
      assert d[i + 1] == body[i];
    }
  }

  /** The reader takes one printed piece at a time. */
  lemma ReadPrintedPiece(s: string, pos: nat, p: Piece, next: nat)
    requires ValidPiece(p) && pos < next <= |s| && s[pos..next] == PrintPiece(p)
    ensures FirstPiece(s, pos, true) == Took(p, next)
  {
    assert |s[pos..next]| == next - pos && s[pos..next][0] == s[pos];
    match p {
      case Index(n) => ReadIndex(s, pos, n, next);
      case Name(x) => ReadName(s, pos, x, next);
      case Auto => assert s[pos + 1] == s[pos..next][1];
      case Chr(c) => assert next == pos + 2 ==> s[pos + 1] == s[pos..next][1];
    }
  }

  lemma PrintSplits(s: string, pos: nat, ps: seq<Piece>) returns (next: nat)
    requires ps != [] && pos <= |s| && s[pos..] == Print(ps)
    ensures pos < next <= |s| && s[pos..next] == PrintPiece(ps[0]) && s[next..] == Print(ps[1..])
  {
    var d, rest := PrintPiece(ps[0]), Print(ps[1..]);
    assert |d| > 0;
    next := pos + |d|;
    assert s[pos..next] == s[pos..][..|d|] == d;
    assert s[next..] == s[pos..][|d|..] == rest;
  }

  /** Every list of valid pieces is read back from its printed form. */
  lemma {:induction false} PrintThenLex(s: string, pos: nat, ps: seq<Piece>)
    requires Valid(ps) && pos <= |s| && s[pos..] == Print(ps)
    ensures Lex(s, pos, true) == Pieces(ps)
    decreases |ps|
  {
    if ps != [] {
      var next := PrintSplits(s, pos, ps);
      PrintThenLex(s, next, ps[1..]);
      ReadPrintedPiece(s, pos, ps[0], next);
      assert [ps[0]] + ps[1..] == ps;
    }
  }

  // ------------------------------------------------------------------ compiling preserves meaning

  function Chars(t: string): seq<Piece> {
    seq(|t|, i requires 0 <= i < |t| => Chr(t[i]))
  }

  /** A run of text is read one character at a time. */
  lemma {:induction false} LexRun(s: string, pos: nat, end: nat)
    requires pos <= end <= |s| && forall i :: pos <= i < end ==> s[i] != '{' && s[i] != '}'
    ensures Lex(s, pos, false) == Lex(s, end, false).After(Chars(s[pos..end]))
    decreases end - pos
  {
    if pos < end {
      LexRun(s, pos + 1, end);
      assert Chars(s[pos..end]) == [Chr(s[pos])] + Chars(s[pos + 1..end]);
      if Lex(s, end, false).Pieces? {
        assert [Chr(s[pos])] + (Chars(s[pos + 1..end]) + Lex(s, end, false).ps)
            == Chars(s[pos..end]) + Lex(s, end, false).ps;
      }
    } else if Lex(s, end, false).Pieces? {
      assert Chars(s[pos..end]) + Lex(s, end, false).ps == Lex(s, end, false).ps;
    }
  }

  lemma {:induction false} CharsMeaning(t: string, ps: seq<Piece>, k: nat, args: seq<Arg>)
    ensures Meaning(Chars(t) + ps, k, args) == Output(t, true).Then(Meaning(ps, k, args))
    ensures Autos(Chars(t) + ps) == Autos(ps)
  {
    if t == "" {
      assert Chars(t) + ps == ps;
    } else {
      assert Chars(t) + ps == [Chr(t[0])] + (Chars(t[1..]) + ps);
      CharsMeaning(t[1..], ps, k, args);
      assert [t[0]] + (t[1..] + Meaning(ps, k, args).text) == t + Meaning(ps, k, args).text;
    }
  }

  /** Literal text in front of the pieces does not touch their numbering. */
  lemma CharsNumbered(t: string, ps: seq<Piece>, id: int, nargs: nat)
    ensures NumberedFrom(Chars(t) + ps, id, nargs) <==> NumberedFrom(ps, id, nargs)
  {
    CharsMeaning(t, ps, 0, []);
    var all := Chars(t) + ps;
    assert forall p :: p in all <==> p in Chars(t) || p in ps;
    assert forall p :: p in Chars(t) ==> p.Chr?;
  }

  lemma {:induction false} AutosBound(ps: seq<Piece>)
    ensures Auto in ps <==> Autos(ps) > 0
  {
    if ps != [] {
      AutosBound(ps[1..]);
      assert ps == [ps[0]] + ps[1..];
    }
  }

  /** How one field in front of the pieces moves the counter. */
  lemma FieldNumbered(p: Piece, ps: seq<Piece>, id: int, nargs: nat)
    requires id >= MANUAL_INDEXING
    ensures p.Auto? ==> (NumberedFrom([p] + ps, id, nargs) <==>
                         0 <= id < nargs && NumberedFrom(ps, id + 1, nargs))
    ensures p.Index? ==> (NumberedFrom([p] + ps, id, nargs) <==>
                          id <= 0 && p.n < nargs && NumberedFrom(ps, MANUAL_INDEXING, nargs))
    ensures p.Name? ==> (NumberedFrom([p] + ps, id, nargs) <==> NumberedFrom(ps, id, nargs))
  {
    var all := [p] + ps;
    assert all[1..] == ps && all[0] == p;
    AutosBound(all);
    AutosBound(ps);
    assert forall q :: q in all <==> q == p || q in ps;
    if p.Auto? {
      assert Auto in all;
    } else if p.Index? {
      assert p in all;
      assert exists q :: q in all && q.Index?;
    }
  }

  function Counter(id: int): nat {
    if id < 0 then 0 else id
  }

  /** The tree from here on compiles exactly when the pieces are numbered, and means them. */
  ghost predicate Faithful(c: Compiled, ps: seq<Piece>, id: int, args: seq<Arg>) {
    && (c.Tree? <==> NumberedFrom(ps, id, |args|))
    && (c.Tree? ==> Format(c.node, args) == Meaning(ps, Counter(id), args) && InRange(c.node, |args|))
  }

  lemma {:induction false} TailFaithful(head: Node, s: string, pos: nat, id: int, args: seq<Arg>)
    requires pos <= |s| && id >= MANUAL_INDEXING && Lex(s, pos, false).Pieces?
    ensures var c := ParseTail(head, s, pos, id, |args|);
            var ps := Lex(s, pos, false).ps;
            && (c.Tree? <==> NumberedFrom(ps, id, |args|))
            && (c.Tree? ==> Format(c.node, args) == Format(head, args).Then(Meaning(ps, Counter(id), args)))
            && (c.Tree? && InRange(head, |args|) ==> InRange(c.node, |args|))
    decreases |s| - pos, 2
  {
    if pos == |s| {
      var out := Format(head, args);
      assert out.text + "" == out.text;
    } else {
      CompileFaithful(s, pos, id, args);
    }
  }

  lemma {:induction false} CompileFaithful(s: string, pos: nat, id: int, args: seq<Arg>)
    requires pos < |s| && id >= MANUAL_INDEXING && Lex(s, pos, false).Pieces?
    ensures Faithful(CompileAt(s, pos, id, |args|), Lex(s, pos, false).ps, id, args)
    decreases |s| - pos, 1
  {
    if s[pos] != '{' && s[pos] != '}' {
      TextFaithful(s, pos, id, args);
    } else if s[pos] == '}' || s[pos + 1] == '{' {
      BraceFaithful(s, pos, id, args);
    } else if s[pos + 1] == '}' {
      AutoFaithful(s, pos, id, args);
    } else {
      ArgIdFaithful(s, pos, id, args);
    }
  }

  lemma {:induction false} TextFaithful(s: string, pos: nat, id: int, args: seq<Arg>)
    requires pos < |s| && id >= MANUAL_INDEXING && Lex(s, pos, false).Pieces?
    requires s[pos] != '{' && s[pos] != '}'
    ensures Faithful(CompileAt(s, pos, id, |args|), Lex(s, pos, false).ps, id, args)
    decreases |s| - pos, 0
  {
    var end := ParseText(s, pos + 1);
    LexRun(s, pos, end);
    var t, rest := s[pos..end], Lex(s, end, false).ps;
    CharsMeaning(t, rest, Counter(id), args);
    CharsNumbered(t, rest, id, |args|);
    assert end - pos == 1 ==> t == [s[pos]];
    TailFaithful(if end - pos > 1 then Text(t) else CodeUnit(s[pos]), s, end, id, args);
  }

  lemma {:induction false} BraceFaithful(s: string, pos: nat, id: int, args: seq<Arg>)
    requires pos < |s| && id >= MANUAL_INDEXING && Lex(s, pos, false).Pieces?
    requires s[pos] == '}' || (s[pos] == '{' && pos + 1 < |s| && s[pos + 1] == '{')
    ensures Faithful(CompileAt(s, pos, id, |args|), Lex(s, pos, false).ps, id, args)
    decreases |s| - pos, 0
  {
    var t, rest := s[pos..pos + 1], Lex(s, pos + 2, false).ps;
    assert Chars(t) == [Chr(s[pos])];
    CharsMeaning(t, rest, Counter(id), args);
    CharsNumbered(t, rest, id, |args|);
    TailFaithful(Text(t), s, pos + 2, id, args);
  }

  /** A field in front of faithfully compiled pieces. */
  lemma FieldThenTail(head: Node, p: Piece, rest: seq<Piece>, c: Compiled, id: int, next: int, args: seq<Arg>)
    requires id >= MANUAL_INDEXING && next >= MANUAL_INDEXING && !p.Chr?
    requires p.Auto? ==> 0 <= id < |args| && head == Field(id) && next == id + 1
    requires p.Index? ==> head == Field(p.n) && next == MANUAL_INDEXING && id <= 0 && p.n < |args|
    requires p.Name? ==> head == NamedField(p.x) && next == id
    requires c.Tree? <==> NumberedFrom(rest, next, |args|)
    requires c.Tree? ==> Format(c.node, args) == Format(head, args).Then(Meaning(rest, Counter(next), args))
    requires c.Tree? ==> InRange(c.node, |args|)
    ensures Faithful(c, [p] + rest, id, args)
  {
    var ps := [p] + rest;
    assert ps[1..] == rest && ps[0] == p;
    FieldNumbered(p, rest, id, |args|);
  }

  lemma {:induction false} AutoFaithful(s: string, pos: nat, id: int, args: seq<Arg>)
    requires pos + 1 < |s| && id >= MANUAL_INDEXING && Lex(s, pos, false).Pieces?
    requires s[pos] == '{' && s[pos + 1] == '}'
    ensures Faithful(CompileAt(s, pos, id, |args|), Lex(s, pos, false).ps, id, args)
    decreases |s| - pos, 0
  {
    var rest := Lex(s, pos + 2, false).ps;
    if 0 <= id < |args| {
      TailFaithful(Field(id), s, pos + 2, id + 1, args);
      FieldThenTail(Field(id), Auto, rest, ParseTail(Field(id), s, pos + 2, id + 1, |args|), id, id + 1, args);
    } else {
      FieldNumbered(Auto, rest, id, |args|);
    }
  }

  lemma {:induction false} ArgIdFaithful(s: string, pos: nat, id: int, args: seq<Arg>)
    requires pos + 1 < |s| && id >= MANUAL_INDEXING && Lex(s, pos, false).Pieces?
    requires s[pos] == '{' && s[pos + 1] != '{' && s[pos + 1] != '}'
    ensures Faithful(CompileAt(s, pos, id, |args|), Lex(s, pos, false).ps, id, args)
    decreases |s| - pos, 0
  {
    var Took(p, next) := FirstPiece(s, pos, false);
    if p.Index? && (id > 0 || p.n >= |args|) {
      FieldNumbered(p, Lex(s, next, false).ps, id, |args|);
    } else {
      ArgFieldFaithful(p, s, next, id, args);
    }
  }

  lemma {:induction false} ArgFieldFaithful(p: Piece, s: string, next: nat, id: int, args: seq<Arg>)
    requires next <= |s| && id >= MANUAL_INDEXING && Lex(s, next, false).Pieces?
    requires p.Name? || (p.Index? && id <= 0 && p.n < |args|)
    ensures var head := if p.Index? then Field(p.n) else NamedField(p.x);
            var id' := if p.Index? then MANUAL_INDEXING else id;
            Faithful(ParseTail(head, s, next, id', |args|), [p] + Lex(s, next, false).ps, id, args)
    decreases |s| - next, 3
  {
    var head := if p.Index? then Field(p.n) else NamedField(p.x);
    var id' := if p.Index? then MANUAL_INDEXING else id;
    TailFaithful(head, s, next, id', args);
    FieldThenTail(head, p, Lex(s, next, false).ps, ParseTail(head, s, next, id', |args|), id, id', args);
  }

  // A brace that compiles is a piece, and what follows it compiles from some state of the counter.
  lemma BraceIsPiece(s: string, pos: nat, id: int, nargs: nat) returns (id': int)
    requires pos < |s| && (s[pos] == '{' || s[pos] == '}') && CompileAt(s, pos, id, nargs).Tree?
    ensures var step := FirstPiece(s, pos, false);
            step.Took? && (step.next < |s| ==> CompileAt(s, step.next, id', nargs).Tree?)
  {
    if s[pos] == '}' || s[pos + 1] == '{' {
      id' := id;
    } else if s[pos + 1] == '}' {
      id' := id + 1;
    } else {
      id' := if ParseArgId(s, pos + 1).ByIndex? then MANUAL_INDEXING else id;
    }
  }

  /** Nothing compiles but what the reader reads. */
  lemma {:induction false} CompiledIsRead(s: string, pos: nat, id: int, nargs: nat)
    requires pos < |s| && CompileAt(s, pos, id, nargs).Tree?
    ensures Lex(s, pos, false).Pieces?
    decreases |s| - pos
  {
    if s[pos] != '{' && s[pos] != '}' {
      var end := ParseText(s, pos + 1);
      LexRun(s, pos, end);
      if end < |s| { CompiledIsRead(s, end, id, nargs); }
    } else {
      var id' := BraceIsPiece(s, pos, id, nargs);
      var next := FirstPiece(s, pos, false).next;
      if next < |s| { CompiledIsRead(s, next, id', nargs); }
    }
  }

  /** Exactly which strings compile, and that the tree means what was read. */
  lemma CompilesExactly(s: string, args: seq<Arg>)
    ensures Compile(s, |args|).Tree? <==>
              Lex(s, 0, false).Pieces? && Numbered(Lex(s, 0, false).ps, |args|)
    ensures Compile(s, |args|).Tree? ==>
              var tree := Compile(s, |args|).node;
              InRange(tree, |args|) && Format(tree, args) == Meaning(Lex(s, 0, false).ps, 0, args)
  {
    if s != "" {
      if Compile(s, |args|).Tree? {
        CompiledIsRead(s, 0, 0, |args|);
      }
      if Lex(s, 0, false).Pieces? {
        CompileFaithful(s, 0, 0, args);
        AutosBound(Lex(s, 0, false).ps);
      }
    }
  }

  /** Reading with braces doubled is reading, wherever it succeeds. */
  lemma {:induction false} DoubledIsRead(s: string, pos: nat)
    requires pos <= |s| && Lex(s, pos, true).Pieces?
    ensures Lex(s, pos, false) == Lex(s, pos, true)
    decreases |s| - pos
  {
    if pos < |s| {
      DoubledIsRead(s, FirstPiece(s, pos, true).next);
    }
  }

  /**
    Printing any pieces, compiling the string and running the tree formats the pieces: it
    compiles exactly when automatic and explicit numbering are not mixed and every field has
    its argument, and then the k-th automatic field reads argument k.
   */
  lemma PrintCompileFormat(ps: seq<Piece>, args: seq<Arg>)
    requires Valid(ps)
    ensures Compile(Print(ps), |args|).Tree? <==> Numbered(ps, |args|)
    ensures Numbered(ps, |args|) ==>
              var tree := Compile(Print(ps), |args|).node;
              InRange(tree, |args|) && Format(tree, args) == Meaning(ps, 0, args)
  {
    PrintThenLex(Print(ps), 0, ps);
    DoubledIsRead(Print(ps), 0);
    CompilesExactly(Print(ps), args);
  }

  /** The shortcut for the string "{}" writes what the compiled string writes. */
  lemma ShortcutAgrees(args: seq<Arg>)
    requires args != []
    ensures Compile("{}", |args|).Tree?
    ensures Format(Compile("{}", |args|).node, args) == Output(args[0].text, true)
  {
    assert Print([Auto]) == "{}" + Print([]);
    PrintCompileFormat([Auto], args);
    assert Meaning([Auto], 0, args).text == args[0].text + "";
  }

  // ------------------------------------------------------------------ closing braces

  /** Outside fields, every closing brace is followed by another one. */
  predicate ClosesDoubled(s: string, pos: nat)
    decreases |s| - pos
  {
    if pos >= |s| then true
    else if s[pos] == '}' then pos + 1 < |s| && s[pos + 1] == '}' && ClosesDoubled(s, pos + 2)
    else if s[pos] == '{' && pos + 1 < |s| && s[pos + 1] != '{' then ClosesDoubled(s, FieldClose(s, pos + 1) + 1)
    else if s[pos] == '{' then ClosesDoubled(s, pos + 2)
    else ClosesDoubled(s, pos + 1)
  }

  function FieldClose(s: string, pos: nat): (end: nat)
    ensures pos <= end
    decreases |s| - pos
  {
    if pos < |s| && s[pos] != '}' then FieldClose(s, pos + 1) else pos
  }

  lemma {:induction false} FieldCloseAt(s: string, pos: nat, end: nat)
    requires pos <= end < |s| && s[end] == '}' && forall i :: pos <= i < end ==> s[i] != '}'
    ensures FieldClose(s, pos) == end
    decreases end - pos
  {
    if pos < end {
      FieldCloseAt(s, pos + 1, end);
    }
  }

  // One piece further: both ways of reading take the same piece unless a lone brace closes here.
  lemma DoubledStep(s: string, pos: nat)
    requires pos < |s| && FirstPiece(s, pos, false).Took?
    ensures var next := FirstPiece(s, pos, false).next;
            var doubled := s[pos] == '}' ==> s[pos + 1] == '}';
            && FirstPiece(s, pos, true) == (if doubled then FirstPiece(s, pos, false) else Stuck)
            && (ClosesDoubled(s, pos) <==> doubled && ClosesDoubled(s, next))
  {
    if s[pos] == '{' && s[pos + 1] != '{' {
      var next := FirstPiece(s, pos, false).next;
      assert IsFieldBody(s, pos + 1, next - 1) by {
        if s[pos + 1] != '}' { FieldBody(s, pos + 1); }
      }
      FieldCloseAt(s, pos + 1, next - 1);
    }
  }

  lemma {:induction false} ReadDoubledIff(s: string, pos: nat)
    requires pos <= |s| && Lex(s, pos, false).Pieces?
    ensures Lex(s, pos, true).Pieces? <==> ClosesDoubled(s, pos)
    decreases |s| - pos
  {
    if pos < |s| {
      DoubledStep(s, pos);
      ReadDoubledIff(s, FirstPiece(s, pos, false).next);
    }
  }

  predicate IsFieldBody(s: string, pos: nat, end: nat) {
    pos <= end <= |s| && forall i :: pos <= i < end ==> s[i] != '}'
  }

  lemma FieldBody(s: string, pos: nat)
    requires pos < |s| && !ParseArgId(s, pos).NoArgId?
    ensures IsFieldBody(s, pos, ParseArgId(s, pos).end)
  {
    ArgIdText(s, pos);
    match ParseArgId(s, pos) {
      case ByIndex(n, end) =>
        RenderThenValue(n);
        assert forall i :: pos <= i < end ==> s[i] == Render(n)[i - pos];
      case ByName(x, end) =>
        assert forall i :: pos <= i < end ==> s[i] == x[i - pos];
    }
  }

  /** A string that compiles is the print of the pieces it formats iff its closing braces are doubled. */
  lemma FaithfulIffClosesDoubled(s: string, args: seq<Arg>)
    requires Compile(s, |args|).Tree?
    ensures ClosesDoubled(s, 0) <==>
              exists ps :: Valid(ps) && Print(ps) == s
                        && Format(Compile(s, |args|).node, args) == Meaning(ps, 0, args)
  {
    CompilesExactly(s, args);
    ReadDoubledIff(s, 0);
    if ClosesDoubled(s, 0) {
      DoubledIsRead(s, 0);
      LexThenPrint(s, 0);
      assert s[0..] == s;
      assert Print(Lex(s, 0, true).ps) == s;
    }
    forall ps | Valid(ps) && Print(ps) == s ensures ClosesDoubled(s, 0) {
      PrintThenLex(s, 0, ps);
    }
  }

  /** After a lone closing brace one character of the string is lost without an error. */
  lemma LoneCloseLosesACharacter()
    ensures Compile("}x", 0).Tree? && Format(Compile("}x", 0).node, []) == Output("}", true)
    ensures !ClosesDoubled("}x", 0)
  {
    assert "}x"[0..1] == "}";
    assert ParseTail(Text("}"), "}x", 2, 0, 0) == Tree(Text("}"));
  }
}
