/** The dynamic argument store of fmt (args.h): a vector of arguments over a list of copies. */
module ArgStore {
  // ------------------------------------------------------------------ what was pushed

  /** An argument as the caller gives it: a value, or a reference to an object of the caller's. */
  datatype Given<T> = Value(v: T) | Reference(cell: Cell<T>)

  datatype Name = Unnamed | Named(text: string)

  datatype Pushed<T> = Pushed(name: Name, given: Given<T>)

  /** The positions of the named arguments, in order. */
  ghost function NamedIds<T>(given: seq<Pushed<T>>): (ids: seq<nat>)
    ensures forall k :: 0 <= k < |ids| ==> ids[k] < |given|
  {
    if given == [] then []
    else
      var last := |given| - 1;
      NamedIds(given[..last]) + if given[last].name.Named? then [last] else []
  }

  lemma NamedIdsPush<T>(given: seq<Pushed<T>>, p: Pushed<T>)
    ensures NamedIds(given + [p]) == NamedIds(given) + if p.name.Named? then [|given|] else []
  {
    assert (given + [p])[..|given|] == given;
  }

  /** One entry for each named argument, and they are in the order of pushing. */
  lemma {:induction false} NamedIdsExact<T>(given: seq<Pushed<T>>)
    ensures forall i :: 0 <= i < |given| ==> (i in NamedIds(given) <==> given[i].name.Named?)
    ensures forall j, k :: 0 <= j < k < |NamedIds(given)| ==> NamedIds(given)[j] < NamedIds(given)[k]
  {
    if given != [] {
      NamedIdsExact(given[..|given| - 1]);
    }
  }

  // ------------------------------------------------------------------ the heap

  /** An object of the caller's, passed by reference. */
  class Cell<T> {
    var value: T

    constructor (v: T)
      ensures value == v
    {
      value := v;
    }
  }

  datatype Content<T> = NameCopy(text: string) | ValueCopy(v: T)

  class Node<T> {
    var content: Content<T>
    var next: Node?<T>

    constructor (c: Content<T>, n: Node?<T>)
      ensures content == c && next == n
    {
      content, next := c, n;
    }
  }

  ghost function Before<T>(nodes: seq<Node<T>>, i: nat): Node?<T>
    requires i <= |nodes|
  {
    if i == 0 then null else nodes[i - 1]
  }

  datatype Info<T> = Info(name: Node<T>, id: nat)

  /** An element of the vector: slot 0 may be a view of the named arguments' buffer. */
  datatype Slot<T> =
    | Inline(v: T)
    | Stored(n: Node<T>)
    | External(cell: Cell<T>)
    | NamedArgs(buffer: array<Info<T>>, size: nat)

  // ------------------------------------------------------------------ what the vectors say

  // The nodes of the list and what is in them.
  type Copies<T> = map<Node<T>, Content<T>>

  /** A slot holds the argument given: in place, in a node of the store, or by reference. */
  ghost predicate Holds<T>(copies: Copies<T>, s: Slot<T>, g: Given<T>) {
    match s
    case Inline(v) => g == Value(v)
    case Stored(n) => n in copies && copies[n].ValueCopy? && g == Value(copies[n].v)
    case External(c) => g == Reference(c)
    case NamedArgs(_, _) => false
  }

  ghost predicate HoldsAll<T>(copies: Copies<T>, args: seq<Slot<T>>, given: seq<Pushed<T>>) {
    |args| == |given| && forall i :: 0 <= i < |given| ==> Holds(copies, args[i], given[i].given)
  }

  /** An entry names the argument at its position, with a copy of its name. */
  ghost predicate Names<T>(copies: Copies<T>, info: Info<T>, id: nat, given: seq<Pushed<T>>) {
    && info.id == id < |given| && info.name in copies
    && given[id].name.Named? && copies[info.name] == NameCopy(given[id].name.text)
  }

  ghost predicate NamesAll<T>(copies: Copies<T>, infos: seq<Info<T>>, given: seq<Pushed<T>>) {
    && |infos| == |NamedIds(given)|
    && forall k :: 0 <= k < |infos| ==> Names(copies, infos[k], NamedIds(given)[k], given)
  }

  lemma HoldsAllPush<T>(copies: Copies<T>, args: seq<Slot<T>>, given: seq<Pushed<T>>, s: Slot<T>, p: Pushed<T>)
    requires HoldsAll(copies, args, given) && Holds(copies, s, p.given)
    ensures HoldsAll(copies, args + [s], given + [p])
  {
  }

  lemma NamesAllUnnamed<T>(copies: Copies<T>, infos: seq<Info<T>>, given: seq<Pushed<T>>, p: Pushed<T>)
    requires NamesAll(copies, infos, given) && p.name.Unnamed?
    ensures NamesAll(copies, infos, given + [p])
  {
    NamedIdsPush(given, p);
    forall k | 0 <= k < |infos| ensures Names(copies, infos[k], NamedIds(given + [p])[k], given + [p]) {
      assert Names(copies, infos[k], NamedIds(given)[k], given);
    }
  }

  lemma NamesAllNamed<T>(copies: Copies<T>, infos: seq<Info<T>>, given: seq<Pushed<T>>, info: Info<T>, p: Pushed<T>)
    requires NamesAll(copies, infos, given) && p.name.Named?
    requires info.id == |given| && info.name in copies && copies[info.name] == NameCopy(p.name.text)
    ensures NamesAll(copies, infos + [info], given + [p])
  {
    NamedIdsPush(given, p);
    forall k | 0 <= k < |infos| + 1
      ensures Names(copies, (infos + [info])[k], NamedIds(given + [p])[k], given + [p])
    {
      if k < |infos| {
        assert Names(copies, infos[k], NamedIds(given)[k], given);
      }
    }
  }

  function ArgsOf<T>(data: seq<Slot<T>>, named: nat): seq<Slot<T>> {
    if named == 0 || |data| == 0 then data else data[1..]
  }

  /** The vectors say what was pushed, and slot 0 views the names' buffer if there are any. */
  ghost predicate Consistent<T>(copies: Copies<T>, data: seq<Slot<T>>, buffer: array<Info<T>>, infos: seq<Info<T>>,
                                given: seq<Pushed<T>>) {
    && (infos != [] ==> data != [] && data[0] == NamedArgs(buffer, |infos|))
    && HoldsAll(copies, ArgsOf(data, |infos|), given)
    && NamesAll(copies, infos, given)
  }

  lemma ConsistentWithMore<T>(copies: Copies<T>, n: Node<T>, c: Content<T>, data: seq<Slot<T>>, buffer: array<Info<T>>,
                              infos: seq<Info<T>>, given: seq<Pushed<T>>)
    requires n !in copies && Consistent(copies, data, buffer, infos, given)
    ensures Consistent(copies[n := c], data, buffer, infos, given)
  {
    forall k | 0 <= k < |infos| ensures Names(copies[n := c], infos[k], NamedIds(given)[k], given) {
      assert Names(copies, infos[k], NamedIds(given)[k], given);
    }
  }

  lemma ConsistentUnnamed<T>(copies: Copies<T>, data: seq<Slot<T>>, buffer: array<Info<T>>, infos: seq<Info<T>>,
                             given: seq<Pushed<T>>, s: Slot<T>, g: Given<T>)
    requires Consistent(copies, data, buffer, infos, given) && Holds(copies, s, g)
    ensures Consistent(copies, data + [s], buffer, infos, given + [Pushed(Unnamed, g)])
  {
    HoldsAllPush(copies, ArgsOf(data, |infos|), given, s, Pushed(Unnamed, g));
    NamesAllUnnamed(copies, infos, given, Pushed(Unnamed, g));
    assert ArgsOf(data + [s], |infos|) == ArgsOf(data, |infos|) + [s];
  }

  // The vector after a named argument: slot 0 is there and views the new buffer.
  function DataNamed<T>(data: seq<Slot<T>>, named: nat, buffer: array<Info<T>>, s: Slot<T>): seq<Slot<T>> {
    [NamedArgs(buffer, named + 1)] + ArgsOf(data, named) + [s]
  }

  lemma ConsistentNamed<T>(copies: Copies<T>, data: seq<Slot<T>>, buffer: array<Info<T>>, infos: seq<Info<T>>,
                           given: seq<Pushed<T>>, s: Slot<T>, info: Info<T>, p: Pushed<T>, buffer': array<Info<T>>)
    requires Consistent(copies, data, buffer, infos, given) && Holds(copies, s, p.given) && p.name.Named?
    requires info.id == |given| && info.name in copies && copies[info.name] == NameCopy(p.name.text)
    ensures Consistent(copies, DataNamed(data, |infos|, buffer', s), buffer', infos + [info], given + [p])
  {
    HoldsAllPush(copies, ArgsOf(data, |infos|), given, s, p);
    NamesAllNamed(copies, infos, given, info, p);
    assert DataNamed(data, |infos|, buffer', s)[1..] == ArgsOf(data, |infos|) + [s];
  }

  ghost predicate LinkedAt<T>(nodes: seq<Node<T>>, copies: Copies<T>, i: nat)
    requires i < |nodes|
    reads nodes
  {
    nodes[i] in copies && nodes[i].next == Before(nodes, i) && nodes[i].content == copies[nodes[i]]
  }

  /** The list from `head` on is made of `nodes`, which still hold what was put in them. */
  ghost predicate Linked<T>(head: Node?<T>, nodes: seq<Node<T>>, copies: Copies<T>)
    reads nodes
  {
    && (forall n :: n in copies ==> n in nodes)
    && head == Before(nodes, |nodes|)
    && forall i :: 0 <= i < |nodes| ==> LinkedAt(nodes, copies, i)
  }

  lemma LinkedWithMore<T>(head: Node?<T>, nodes: seq<Node<T>>, copies: Copies<T>, n: Node<T>)
    requires Linked(head, nodes, copies) && n !in nodes && n.next == head
    ensures Linked(n, nodes + [n], copies[n := n.content])
  {
    var nodes', copies' := nodes + [n], copies[n := n.content];
    forall i | 0 <= i < |nodes'| ensures LinkedAt(nodes', copies', i) {
      assert Before(nodes', i) == Before(nodes, i);
      if i < |nodes| {
        assert LinkedAt(nodes, copies, i) && nodes'[i] == nodes[i] && nodes[i] in nodes;
      } else {
        assert nodes'[i] == n;
      }
    }
    forall m | m in copies' ensures m in nodes' {
      assert nodes'[|nodes|] == n;
      if m != n {
        var i :| 0 <= i < |nodes| && nodes[i] == m;
        assert nodes'[i] == m;
      }
    }
  }

  lemma CopyIsThere<T>(head: Node?<T>, nodes: seq<Node<T>>, copies: Copies<T>, n: Node<T>)
    requires Linked(head, nodes, copies) && n in copies
    ensures n.content == copies[n]
  {
    var i :| 0 <= i < |nodes| && nodes[i] == n;
    assert LinkedAt(nodes, copies, i);
  }

  datatype Op<T> =
    | PushValue(v: T, copy: bool)
    | PushReference(c: Cell<T>)
    | PushNamed(name: string, g: Given<T>, copyIt: bool)
    | ClearAll

  function GivenAfter<T>(given: seq<Pushed<T>>, op: Op<T>): seq<Pushed<T>> {
    match op
    case PushValue(v, _) => given + [Pushed(Unnamed, Value(v))]
    case PushReference(c) => given + [Pushed(Unnamed, Reference(c))]
    case PushNamed(name, g, _) => given + [Pushed(Named(name), g)]
    case ClearAll => []
  }

  /** What formatting gets from a slot when it looks, through the heap. */
  ghost predicate Shows<T>(s: Slot<T>, g: Given<T>)
    reads if s.Stored? then {s.n} else {}
  {
    match s
    case Inline(v) => g == Value(v)
    case Stored(n) => n.content.ValueCopy? && g == Value(n.content.v)
    case External(c) => g == Reference(c)
    case NamedArgs(_, _) => false
  }

  class Store<T> {
    var data: seq<Slot<T>>
    var infos: array<Info<T>>   // the buffer of the vector of names; its first `infoCount` are in use
    var infoCount: nat
    var head: Node?<T>

    ghost var given: seq<Pushed<T>>   // what was pushed since the last clear
    ghost var nodes: seq<Node<T>>     // the list at `head`, last node first
    ghost var copies: Copies<T>       // what was put in each node

    ghost predicate Valid()
      reads this, infos, nodes
    {
      && Linked(head, nodes, copies)
      && infoCount <= infos.Length && Consistent(copies, data, infos, infos[..infoCount], given)
    }

    constructor ()
      ensures Valid() && given == [] && nodes == [] && fresh(infos)
    {
      data, infoCount, head := [], 0, null;
      infos := new Info<T>[0];
      given, nodes, copies := [], [], map[];
    }

    // A copy goes to the front of the list; the nodes already there are left alone.
    method PushNode(c: Content<T>) returns (n: Node<T>)
      requires Valid()
      modifies this`head, this`nodes, this`copies
      ensures Valid() && fresh(n) && nodes == old(nodes) + [n] && copies == old(copies)[n := c]
    {
      n := new Node(c, head);
      LinkedWithMore(head, nodes, copies, n);
      ConsistentWithMore(copies, n, c, data, infos, infos[..infoCount], given);
      head := n;
      nodes := nodes + [n];
      copies := copies[n := c];
    }

    method Emplace(s: Slot<T>, ghost g: Given<T>)
      requires Valid() && Holds(copies, s, g)
      modifies this`data, this`given
      ensures Valid() && given == old(given) + [Pushed(Unnamed, g)]
    {
      ConsistentUnnamed(copies, data, infos, infos[..infoCount], given, s, g);
      data := data + [s];
      given := given + [Pushed(Unnamed, g)];
    }

    // Vector growth: a full buffer is copied to one twice as long.
    method AppendInfo(info: Info<T>)
      requires infoCount <= infos.Length
      modifies this`infos, this`infoCount, infos
      ensures infoCount == old(infoCount) + 1 <= infos.Length && (infos == old(infos) || fresh(infos))
      ensures infos[..infoCount] == old(infos[..infoCount]) + [info]
    {
      if infoCount == infos.Length {
        var grown := new Info<T>[2 * infos.Length + 1](_ => info);
        for k := 0 to infoCount
          modifies grown
          invariant grown[..k] == infos[..k]
          invariant infos[..infoCount] == old(infos[..infoCount])
        {
          grown[k] := infos[k];
        }
        infos := grown;
      }
      infos[infoCount] := info;
      infoCount := infoCount + 1;
    }

    /** The first named argument shifts the vector by one; slot 0 always views the current buffer. */
    method PlaceNamed(name: Node<T>, s: Slot<T>)
      requires infoCount <= infos.Length && (infoCount > 0 ==> |data| > 0)
      modifies this`data, this`infos, this`infoCount, infos
      ensures infoCount <= infos.Length && (infos == old(infos) || fresh(infos))
      ensures infos[..infoCount] == old(infos[..infoCount]) + [Info(name, |old(ArgsOf(data, infoCount))|)]
      ensures data == DataNamed(old(data), old(infoCount), infos, s)
    {
      if infoCount == 0 {
        data := [NamedArgs(infos, 0)] + data;
      }
      data := data + [s];
      AppendInfo(Info(name, |data| - 2));
      data := data[0 := NamedArgs(infos, infoCount)];
    }

    method EmplaceNamed(name: Node<T>, s: Slot<T>, ghost g: Given<T>)
      requires Valid() && Holds(copies, s, g) && name in copies && copies[name].NameCopy?
      modifies this`data, this`given, this`infos, this`infoCount, infos
      ensures Valid() && given == old(given) + [Pushed(Named(copies[name].text), g)]
      ensures infos == old(infos) || fresh(infos)
    {
      ghost var data0, infos0, buffer0 := data, infos[..infoCount], infos;
      ghost var p := Pushed(Named(copies[name].text), g);
      PlaceNamed(name, s);
      ConsistentNamed(copies, data0, buffer0, infos0, given, s, Info(name, |given|), p, infos);
      given := given + [p];
    }

    // ---------------------------------------------------------------- the operations

    // A value is copied to a node if its type needs that; a reference never is.
    method MakeSlot(g: Given<T>, copy: bool) returns (slot: Slot<T>)
      requires Valid()
      modifies this`head, this`nodes, this`copies
      ensures Valid() && Holds(copies, slot, g)
      ensures g.Value? ==> (slot.Stored? <==> copy)
      ensures forall n :: n in old(copies) ==> n in copies && copies[n] == old(copies)[n]
      ensures old(nodes) <= nodes && forall n :: n in nodes ==> n in old(nodes) || fresh(n)
    {
      match g {
        case Reference(cell) => slot := External(cell);
        case Value(v) =>
          if copy {
            var n := PushNode(ValueCopy(v));
            slot := Stored(n);
          } else {
            slot := Inline(v);
          }
      }
    }

    /** `push_back` of a value. */
    method PushBack(v: T, copy: bool)
      requires Valid()
      modifies this`data, this`given, this`head, this`nodes, this`copies
      ensures Valid() && given == old(given) + [Pushed(Unnamed, Value(v))]
      ensures old(nodes) <= nodes && forall n :: n in nodes ==> n in old(nodes) || fresh(n)
    {
      var slot := MakeSlot(Value(v), copy);
      Emplace(slot, Value(v));
    }

    method PushBackReference(cell: Cell<T>)
      requires Valid()
      modifies this`data, this`given
      ensures Valid() && given == old(given) + [Pushed(Unnamed, Reference(cell))]
    {
      Emplace(External(cell), Reference(cell));
    }

    /** `push_back` of a named argument: the name is always copied. */
    method PushBackNamed(name: string, g: Given<T>, copy: bool)
      requires Valid()
      modifies this, infos
      ensures Valid() && given == old(given) + [Pushed(Named(name), g)]
      ensures infos == old(infos) || fresh(infos)
      ensures old(nodes) <= nodes && forall n :: n in nodes ==> n in old(nodes) || fresh(n)
    {
      var nameNode := PushNode(NameCopy(name));
      var slot := MakeSlot(g, copy);
      EmplaceNamed(nameNode, slot, g);
    }

    method Clear()
      requires Valid()
      modifies this
      ensures Valid() && given == [] && nodes == [] && infos == old(infos)
    {
      data, infoCount, head := [], 0, null;
      given, nodes, copies := [], [], map[];
    }

    method Apply(op: Op<T>)
      requires Valid()
      modifies this, infos
      ensures Valid() && given == GivenAfter(old(given), op)
      ensures infos == old(infos) || fresh(infos)
      ensures forall n :: n in old(nodes) ==> n.content == old(n.content) && n.next == old(n.next)
      ensures !op.ClearAll? ==> forall n :: n in old(nodes) ==> n in nodes
    {
      match op {
        case PushValue(v, copy) => PushBack(v, copy);
        case PushReference(c) => PushBackReference(c);
        case PushNamed(name, g, copy) => PushBackNamed(name, g, copy);
        case ClearAll => Clear();
      }
    }

    /** The arguments as formatting sees them: the i-th is the i-th pushed since the last clear. */
    method Data() returns (args: seq<Slot<T>>)
      requires Valid()
      ensures |args| == |given| && forall i :: 0 <= i < |given| ==> Shows(args[i], given[i].given)
    {
      assert HoldsAll(copies, ArgsOf(data, infoCount), given);
      forall i | 0 <= i < |given| ensures Shows(ArgsOf(data, infoCount)[i], given[i].given) {
        var s := ArgsOf(data, infoCount)[i];
        if s.Stored? {
          CopyIsThere(head, nodes, copies, s.n);
        }
      }
      args := if infoCount == 0 then data else data[1..];
    }

    /** The size and the flag encoded by `get_types`: with names around, slot 0 is counted too. */
    method GetTypes() returns (size: nat, named: bool)
      requires Valid()
      ensures named <==> exists i :: 0 <= i < |given| && given[i].name.Named?
      ensures size == |given| + if named then 1 else 0
    {
      NamedIdsExact(given);
      size, named := |data|, infoCount != 0;
      assert named ==> infos[..infoCount] != [] && given[NamedIds(given)[0]].name.Named? by {
        if named {
          assert NamedIds(given)[0] in NamedIds(given);
        }
      }
    }

    /** The named arguments' view: entry k names the k-th named argument and holds its position. */
    method NamedView() returns (entries: seq<(string, nat)>)
      requires Valid()
      ensures |entries| == |NamedIds(given)|
      ensures forall k :: 0 <= k < |entries| ==>
                var id := NamedIds(given)[k];
                entries[k] == (given[id].name.text, id)
    {
      entries := [];
      if infoCount > 0 {
        var view := data[0];
        for k := 0 to view.size
          invariant |entries| == k
          invariant forall j :: 0 <= j < k ==>
                      var id := NamedIds(given)[j];
                      entries[j] == (given[id].name.text, id)
        {
          assert Names(copies, infos[..infoCount][k], NamedIds(given)[k], given);
          CopyIsThere(head, nodes, copies, infos[k].name);
          entries := entries + [(view.buffer[k].name.content.text, view.buffer[k].id)];
        }
      }
    }
  }

  // ------------------------------------------------------------------ whole runs

  /** What was pushed since the last clear of a run. */
  function SinceClear<T>(ops: seq<Op<T>>): seq<Pushed<T>> {
    if |ops| == 0 then [] else GivenAfter(SinceClear(ops[..|ops| - 1]), ops[|ops| - 1])
  }

  lemma SinceClearNext<T>(ops: seq<Op<T>>, k: nat)
    requires k < |ops|
    ensures SinceClear(ops[..k + 1]) == GivenAfter(SinceClear(ops[..k]), ops[k])
  {
    assert ops[..k + 1][..k] == ops[..k];
  }

  /** The argument that an operation pushes is unnamed unless it is pushed under a name. */
  ghost predicate Pushes<T>(op: Op<T>, p: Pushed<T>) {
    match p.name
    case Unnamed => if p.given.Value? then op.PushValue? && op.v == p.given.v
                    else op.PushReference? && op.c == p.given.cell
    case Named(text) => op.PushNamed? && op.name == text && op.g == p.given
  }

  /** What a run denotes, by its operations: one argument for each of those behind the last clear, in order. */
  lemma {:induction false} SinceClearExactly<T>(ops: seq<Op<T>>, start: nat)
    requires start <= |ops| && (start == 0 || ops[start - 1].ClearAll?)
    requires forall k :: start <= k < |ops| ==> !ops[k].ClearAll?
    ensures |SinceClear(ops)| == |ops| - start
    ensures forall i :: 0 <= i < |ops| - start ==> Pushes(ops[start + i], SinceClear(ops)[i])
  {
    if start < |ops| {
      SinceClearExactly(ops[..|ops| - 1], start);
    }
  }

  /** After any run, the store denotes exactly what was pushed since the last clear. */
  method RunAll<T>(ops: seq<Op<T>>) returns (store: Store<T>)
    ensures fresh(store) && store.Valid() && store.given == SinceClear(ops)
  {
    store := new Store<T>();
    for k := 0 to |ops|
      invariant fresh(store) && fresh(store.infos)
      invariant store.Valid() && store.given == SinceClear(ops[..k])
    {
      SinceClearNext(ops, k);
      store.Apply(ops[k]);
    }
    assert ops[..|ops|] == ops;
  }
}
