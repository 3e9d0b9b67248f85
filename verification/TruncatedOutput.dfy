/**
  Truncated formatting of a compiled tree (compile.h): the two truncating iterators, and
  `format_to_n` over each of them. Both refine full formatting: they store a prefix of it
  and count all of it.
 */
module TruncatedOutput {
  import opened FormatCompile

  /** The part of `t` that fits into `room` characters. */
  function Fit(t: string, room: int): string {
    if room <= 0 then "" else if room < |t| then t[..room] else t
  }

  lemma FitConcat(a: string, b: string, room: int)
    ensures Fit(a + b, room) == Fit(a, room) + Fit(b, room - |a|)
  {
    if 0 < room < |a| {
      assert (a + b)[..room] == a[..room];
    } else if |a| <= room < |a| + |b| {
      assert (a + b)[..room] == a + b[..room - |a|];
    }
  }

  lemma FitStep(t: string, i: nat, room: int)
    requires i < |t|
    ensures Fit(t[..i + 1], room) == Fit(t[..i], room) + (if i < room then [t[i]] else "")
  {
    assert t[..i + 1] == t[..i] + [t[i]];
    FitConcat(t[..i], [t[i]], room);
  }

  /** The iterator over an output iterator without a value type, such as a back inserter. */
  class TruncatingAppender {
    var out: string
    const limit: nat
    var count: nat

    constructor (base: string, limit: nat)
      ensures out == base && this.limit == limit && count == 0
    {
      this.out := base;
      this.limit := limit;
      this.count := 0;
    }

    method Assign(c: char)
      modifies this
      ensures count == old(count) + 1
      ensures out == old(out) + (if old(count) < limit then [c] else "")
    {
      var k := count;
      count := count + 1;
      if k < limit {
        out := out + [c];
      }
    }

    method Write(t: string)
      modifies this
      ensures count == old(count) + |t|
      ensures out == old(out) + Fit(t, limit - old(count))
    {
      for i := 0 to |t|
        invariant count == old(count) + i
        invariant out == old(out) + Fit(t[..i], limit - old(count))
      {
        FitStep(t, i, limit - old(count));
        Assign(t[i]);
      }
      assert t[..|t|] == t;
    }

    /** Runs the tree over this iterator; `ok` is false when a named argument was missing. */
    method FormatNode(node: Node, args: seq<Arg>) returns (ok: bool)
      modifies this
      ensures ok == Format(node, args).ok
      ensures count == old(count) + |Format(node, args).text|
      ensures out == old(out) + Fit(Format(node, args).text, limit - old(count))
      decreases node
    {
      match node {
        case Text(data) => Write(data); ok := true;
        case CodeUnit(c) => Write([c]); ok := true;
        case Field(n) => Write(Lookup(args, n).text); ok := Lookup(args, n).ok;
        case NamedField(x) => Write(FindNamed(args, x).text); ok := FindNamed(args, x).ok;
        case Concat(l, r) =>
          ok := FormatNode(l, args);
          if ok {
            FitConcat(Format(l, args).text, Format(r, args).text, limit - old(count));
            ghost var mid := out;
            ok := FormatNode(r, args);
            assert out == mid + Fit(Format(r, args).text, limit - old(count) - |Format(l, args).text|);
          }
      }
    }
  }

  // Two writes one after the other are one write of both texts.
  lemma WritesAppend(b0: string, p0: nat, b1: string, p1: nat, b2: string, p2: nat, t: string, u: string)
    requires |b0| == |b1| == |b2| && p0 <= |b0| && p1 == p0 + |t| <= |b0| && p2 == p1 + |u| <= |b0|
    requires b1[..p1] == b0[..p0] + t && b1[p1..] == b0[p1..]
    requires b2[..p2] == b1[..p1] + u && b2[p2..] == b1[p2..]
    ensures b2[..p2] == b0[..p0] + (t + u) && b2[p2..] == b0[p2..]
  {
    assert b2[p2..] == b1[p1..][p2 - p1..] == b0[p1..][p2 - p1..];
  }

  /** The iterator over a pointer: characters past the limit go to a scratch cell. */
  class TruncatingPointer {
    const buffer: array<char>
    var pos: nat
    const limit: nat
    var count: nat
    var blackhole: char

    // The caller provides room for what will be stored of the text.
    predicate HasRoomFor(t: string)
      reads this
    {
      pos + |Fit(t, limit - count)| <= buffer.Length
    }

    constructor (buffer: array<char>, start: nat, limit: nat)
      ensures this.buffer == buffer && pos == start && this.limit == limit && count == 0
    {
      this.buffer := buffer;
      this.pos := start;
      this.limit := limit;
      this.count := 0;
      this.blackhole := '\0';
    }

    /** The dereference of the iterator, assigned. */
    method Store(c: char)
      requires count < limit ==> pos < buffer.Length
      modifies `blackhole, buffer
      ensures buffer[..] == if count < limit then old(buffer[..])[pos := c] else old(buffer[..])
    {
      if count < limit {
        buffer[pos] := c;
      } else {
        blackhole := c;
      }
    }

    method Advance()
      modifies `pos, `count
      ensures count == old(count) + 1
      ensures pos == if old(count) < limit then old(pos) + 1 else old(pos)
    {
      var k := count;
      count := count + 1;
      if k < limit {
        pos := pos + 1;
      }
    }

    method Write(t: string)
      requires HasRoomFor(t)
      modifies this, buffer
      ensures count == old(count) + |t|
      ensures pos == old(pos) + |Fit(t, limit - old(count))| <= buffer.Length
      ensures buffer[..pos] == old(buffer[..pos]) + Fit(t, limit - old(count))
      ensures buffer[pos..] == old(buffer[..])[pos..]
    {
      assert buffer[..pos] == old(buffer[..pos]) + "";
      for i := 0 to |t|
        invariant count == old(count) + i
        invariant pos == old(pos) + |Fit(t[..i], limit - old(count))| <= buffer.Length
        invariant buffer[..pos] == old(buffer[..pos]) + Fit(t[..i], limit - old(count))
        invariant buffer[pos..] == old(buffer[..])[pos..]
      {
        FitStep(t, i, limit - old(count));
        ghost var before, from := buffer[..], pos;
        Store(t[i]);
        Advance();
        WritesAppend(old(buffer[..]), old(pos), before, from, buffer[..], pos,
                     Fit(t[..i], limit - old(count)), if count - 1 < limit then [t[i]] else "");
      }
      assert t[..|t|] == t;
    }

    method FormatNode(node: Node, args: seq<Arg>) returns (ok: bool)
      requires HasRoomFor(Format(node, args).text)
      modifies this, buffer
      ensures ok == Format(node, args).ok
      ensures count == old(count) + |Format(node, args).text|
      ensures pos == old(pos) + |Fit(Format(node, args).text, limit - old(count))| <= buffer.Length
      ensures buffer[..pos] == old(buffer[..pos]) + Fit(Format(node, args).text, limit - old(count))
      ensures buffer[pos..] == old(buffer[..])[pos..]
      decreases node
    {
      match node {
        case Text(data) => Write(data); ok := true;
        case CodeUnit(c) => Write([c]); ok := true;
        case Field(n) => Write(Lookup(args, n).text); ok := Lookup(args, n).ok;
        case NamedField(x) => Write(FindNamed(args, x).text); ok := FindNamed(args, x).ok;
        case Concat(l, r) =>
          ok := FormatNode(l, args);
          if ok {
            FitConcat(Format(l, args).text, Format(r, args).text, limit - old(count));
            ghost var mid, midPos := buffer[..], pos;
            ok := FormatNode(r, args);
            WritesAppend(old(buffer[..]), old(pos), mid, midPos, buffer[..], pos,
                         Fit(Format(l, args).text, limit - old(count)),
                         Fit(Format(r, args).text, limit - old(count) - |Format(l, args).text|));
          }
      }
    }
  }

  /** `format_to_n` to a back inserter: the first n characters, and the size of all of them. */
  method FormatToN(base: string, n: nat, node: Node, args: seq<Arg>)
    returns (out: string, size: nat, ok: bool)
    ensures var full := Format(node, args);
            ok == full.ok && size == |full.text|
            && out == base + full.text[..if n < |full.text| then n else |full.text|]
  {
    var it := new TruncatingAppender(base, n);
    ok := it.FormatNode(node, args);
    out, size := it.out, it.count;
  }

  /** `format_to_n` into a buffer: nothing outside the stored characters is touched. */
  method FormatToBuffer(buffer: array<char>, start: nat, n: nat, node: Node, args: seq<Arg>)
    returns (end: nat, size: nat, ok: bool)
    requires start + |Fit(Format(node, args).text, n)| <= buffer.Length
    modifies buffer
    ensures var full := Format(node, args);
            ok == full.ok && size == |full.text|
            && end == start + (if n < |full.text| then n else |full.text|)
    ensures start <= end <= buffer.Length
    ensures buffer[..] == old(buffer[..start]) + Format(node, args).text[..end - start] + old(buffer[..])[end..]
  {
    var it := new TruncatingPointer(buffer, start, n);
    ok := it.FormatNode(node, args);
    end, size := it.pos, it.count;
    assert buffer[..] == buffer[..end] + buffer[end..];
  }

  /** `formatted_size` only counts; a missing named argument ends the run. */
  function CountingRun(node: Node, args: seq<Arg>, count: nat): (nat, bool) {
    match node
    case Text(data) => (count + |data|, true)
    case CodeUnit(_) => (count + 1, true)
    case Field(n) => (count + |Lookup(args, n).text|, Lookup(args, n).ok)
    case NamedField(x) => (count + |FindNamed(args, x).text|, FindNamed(args, x).ok)
    case Concat(l, r) =>
      var (k, ok) := CountingRun(l, args, count);
      if ok then CountingRun(r, args, k) else (k, false)
  }

  lemma {:induction false} SizeIsLengthOfText(node: Node, args: seq<Arg>, count: nat)
    ensures CountingRun(node, args, count) == (count + |Format(node, args).text|, Format(node, args).ok)
  {
    match node {
      case Concat(l, r) =>
        SizeIsLengthOfText(l, args, count);
        SizeIsLengthOfText(r, args, count + |Format(l, args).text|);
      case _ =>
    }
  }
}
