/** The object cache of D++ (cache.h) and the queue of objects waiting to be deleted. */
module Cache {
  /** An object derived from `managed`: the id is given for good. */
  class Managed {
    const id: nat

    constructor (id: nat)
      ensures this.id == id
    {
      this.id := id;
    }
  }

  /** The cached objects by id, and the objects queued for deletion with the time at which they were. */
  datatype State = State(live: map<nat, Managed>, queue: map<Managed, int>)

  datatype Op = Store(o: Managed?, now: int) | Remove(o: Managed?, now: int) | Rehash | Collect(victim: Managed)

  function Next(s: State, op: Op): State {
    match op
    case Store(o, now) =>
      if o == null then s
      else if o.id !in s.live then s.(live := s.live[o.id := o])
      else if o != s.live[o.id] then State(s.live[o.id := o], s.queue[s.live[o.id] := now])
      else s
    case Remove(o, now) =>
      if o == null || o.id !in s.live then s
      else State(s.live - {o.id}, s.queue[o := now])
    case Rehash => s
    case Collect(victim) => s.(queue := s.queue - {victim})   // deletes it, if it is queued
  }

  // ------------------------------------------------------------------ many caches

  /** Any number of caches over the one queue; a cache that nothing was stored in is empty. */
  datatype World = World(caches: map<nat, map<nat, Managed>>, queue: map<Managed, int>)

  datatype Call = Call(cache: nat, op: Op)

  function CacheOf(w: World, k: nat): map<nat, Managed> {
    if k in w.caches then w.caches[k] else map[]
  }

  /** One call changes its cache and the queue as it would without the other caches. */
  function NextIn(w: World, call: Call): World {
    var s := Next(State(CacheOf(w, call.cache), w.queue), call.op);
    World(w.caches[call.cache := s.live], s.queue)
  }

  function After(calls: seq<Call>): World {
    if |calls| == 0 then World(map[], map[]) else NextIn(After(calls[..|calls| - 1]), calls[|calls| - 1])
  }

  // ------------------------------------------------------------------ a plain map

  /** What a plain map from ids to objects would hold for cache k: the queue and other caches play no part. */
  function Plain(calls: seq<Call>, k: nat): map<nat, Managed> {
    if |calls| == 0 then map[]
    else
      var m, last := Plain(calls[..|calls| - 1], k), calls[|calls| - 1];
      if last.cache != k then m
      else
        match last.op
        case Store(o, _) => if o == null then m else m[o.id := o]
        case Remove(o, _) => if o == null then m else m - {o.id}
        case _ => m
  }

  /** Every cache is its plain map in every run, and every key is the id of its object. */
  lemma {:induction false} RefinesPlainMap(calls: seq<Call>, k: nat)
    ensures CacheOf(After(calls), k) == Plain(calls, k)
    ensures forall id :: id in Plain(calls, k) ==> Plain(calls, k)[id].id == id
  {
    if calls != [] {
      RefinesPlainMap(calls[..|calls| - 1], k);
    }
  }

  // ------------------------------------------------------------------ who owns what

  function OwnedNext(w: World, owned: set<Managed>, call: Call): set<Managed> {
    match call.op
    case Store(o, _) => if o == null then owned else owned + {o}
    case Collect(victim) => if victim in w.queue then owned - {victim} else owned
    case _ => owned
  }

  /** The objects handed over to the caches and not yet deleted. */
  function Owned(calls: seq<Call>): set<Managed> {
    if |calls| == 0 then {}
    else OwnedNext(After(calls[..|calls| - 1]), Owned(calls[..|calls| - 1]), calls[|calls| - 1])
  }

  predicate LiveIn(w: World, k: nat, o: Managed) {
    o.id in CacheOf(w, k) && CacheOf(w, k)[o.id] == o
  }

  ghost predicate LiveSomewhere(w: World, o: Managed) {
    exists k :: LiveIn(w, k, o)
  }

  predicate KeysOk(w: World, owned: set<Managed>, k: nat) {
    forall id :: id in CacheOf(w, k) ==> CacheOf(w, k)[id].id == id && CacheOf(w, k)[id] in owned
  }

  /** Every owned object is live in one cache or queued, never both, and nothing else is. */
  ghost predicate Conserved(w: World, owned: set<Managed>) {
    && (forall k :: KeysOk(w, owned, k))
    && (forall o :: o in w.queue ==> o in owned)
    && (forall o :: o in owned ==> (LiveSomewhere(w, o) <==> o !in w.queue))
    && (forall o, j, k :: o in owned && LiveIn(w, j, o) && LiveIn(w, k, o) ==> j == k)
  }

  /**
   What the caller has to see to: nothing is stored that waits in the queue or is live in another
   cache, and what is removed is the cached object itself, or nothing is cached under its id.
   */
  ghost predicate Safe(w: World, call: Call) {
    match call.op
    case Store(o, _) => o == null || (o !in w.queue && forall j :: LiveIn(w, j, o) ==> j == call.cache)
    case Remove(o, _) => o == null || o.id !in CacheOf(w, call.cache) || LiveIn(w, call.cache, o)
    case _ => true
  }

  // How one call moves the objects between the caches.
  lemma LiveNext(w: World, call: Call, k: nat, o: Managed)
    ensures k != call.cache ==> (LiveIn(NextIn(w, call), k, o) <==> LiveIn(w, k, o))
    ensures k == call.cache ==>
              (LiveIn(NextIn(w, call), k, o) <==>
                match call.op
                case Store(p, _) => o == p || (LiveIn(w, k, o) && (p == null || p.id != o.id))
                case Remove(p, _) => LiveIn(w, k, o) && (p == null || p.id != o.id)
                case _ => LiveIn(w, k, o))
  {
  }

  // An object is live under its own id only.
  lemma EntryIsLive(w: World, owned: set<Managed>, k: nat, id: nat)
    requires Conserved(w, owned) && id in CacheOf(w, k)
    ensures LiveIn(w, k, CacheOf(w, k)[id]) && CacheOf(w, k)[id] in owned && CacheOf(w, k)[id] !in w.queue
    ensures CacheOf(w, k)[id].id == id
  {
    assert KeysOk(w, owned, k);
    assert LiveIn(w, k, CacheOf(w, k)[id]);
    assert LiveSomewhere(w, CacheOf(w, k)[id]);
  }

  lemma KeysKept(w: World, owned: set<Managed>, call: Call, owned': set<Managed>, k: nat)
    requires KeysOk(w, owned, k) && owned <= owned' && (call.op.Store? && call.op.o != null ==> call.op.o in owned')
    ensures KeysOk(NextIn(w, call), owned', k)
  {
    var c, c' := CacheOf(w, k), CacheOf(NextIn(w, call), k);
    forall id | id in c' ensures c'[id].id == id && c'[id] in owned' {
      assert id !in c || c'[id] != c[id] ==> call.op.Store? && c'[id] == call.op.o;
    }
  }

  lemma SafeStore(w: World, owned: set<Managed>, k: nat, o: Managed, now: int)
    requires Conserved(w, owned) && Safe(w, Call(k, Store(o, now)))
    ensures Conserved(NextIn(w, Call(k, Store(o, now))), owned + {o})
  {
    var call := Call(k, Store(o, now));
    var w', owned' := NextIn(w, call), owned + {o};
    forall j: nat ensures KeysOk(w', owned', j) {
      KeysKept(w, owned, call, owned', j);
    }
    if o.id in CacheOf(w, k) {
      EntryIsLive(w, owned, k, o.id);
    }
    forall p | p in owned' ensures LiveSomewhere(w', p) <==> p !in w'.queue {
      if p == o {
        LiveNext(w, call, k, o);
        assert LiveIn(w', k, o);
      } else {
        if j: nat :| LiveIn(w, j, p) {
          LiveNext(w, call, j, p);
          assert (j == k && p.id == o.id) || LiveIn(w', j, p);
        }
        if j: nat :| LiveIn(w', j, p) {
          LiveNext(w, call, j, p);
          assert LiveIn(w, j, p);
        }
      }
    }
    forall p, i, j | p in owned' && LiveIn(w', i, p) && LiveIn(w', j, p) ensures i == j {
      LiveNext(w, call, i, p);
      LiveNext(w, call, j, p);
    }
  }

  lemma SafeRemove(w: World, owned: set<Managed>, k: nat, o: Managed, now: int)
    requires Conserved(w, owned) && LiveIn(w, k, o)
    ensures Conserved(NextIn(w, Call(k, Remove(o, now))), owned)
  {
    var call := Call(k, Remove(o, now));
    var w' := NextIn(w, call);
    forall j: nat ensures KeysOk(w', owned, j) {
      KeysKept(w, owned, call, owned, j);
    }
    EntryIsLive(w, owned, k, o.id);
    forall p | p in owned ensures LiveSomewhere(w', p) <==> p !in w'.queue {
      if j: nat :| LiveIn(w, j, p) {
        LiveNext(w, call, j, p);
        assert p == o || LiveIn(w', j, p);
      }
      if j: nat :| LiveIn(w', j, p) {
        LiveNext(w, call, j, p);
        assert LiveIn(w, j, p);
      }
    }
    forall p, i, j | p in owned && LiveIn(w', i, p) && LiveIn(w', j, p) ensures i == j {
      LiveNext(w, call, i, p);
      LiveNext(w, call, j, p);
    }
  }

  // Calls that move no object: at most they delete a queued one.
  lemma OthersConserve(w: World, owned: set<Managed>, w': World, owned': set<Managed>)
    requires Conserved(w, owned) && forall k :: CacheOf(w', k) == CacheOf(w, k)
    requires (w'.queue == w.queue && owned' == owned) ||
             exists o :: o in w.queue && w'.queue == w.queue - {o} && owned' == owned - {o}
    ensures Conserved(w', owned')
  {
    forall k: nat ensures KeysOk(w', owned', k) {
      assert KeysOk(w, owned, k);
      forall id | id in CacheOf(w, k) ensures CacheOf(w', k)[id] in owned' {
        EntryIsLive(w, owned, k, id);
      }
    }
    forall p | p in owned' ensures LiveSomewhere(w', p) <==> LiveSomewhere(w, p) {
      if j: nat :| LiveIn(w, j, p) {
        assert LiveIn(w', j, p);
      }
      if j: nat :| LiveIn(w', j, p) {
        assert LiveIn(w, j, p);
      }
    }
    forall p, i, j | p in owned' && LiveIn(w', i, p) && LiveIn(w', j, p) ensures i == j {
      assert LiveIn(w, i, p) && LiveIn(w, j, p);
    }
  }

  lemma SafeConserves(w: World, owned: set<Managed>, call: Call)
    requires Conserved(w, owned) && Safe(w, call)
    ensures Conserved(NextIn(w, call), OwnedNext(w, owned, call))
  {
    var k, w', owned' := call.cache, NextIn(w, call), OwnedNext(w, owned, call);
    match call.op {
      case Store(o, now) =>
        if o == null {
          OthersConserve(w, owned, w', owned');
        } else {
          SafeStore(w, owned, k, o, now);
        }
      case Remove(o, now) =>
        if o == null || o.id !in CacheOf(w, k) {
          OthersConserve(w, owned, w', owned');
        } else {
          SafeRemove(w, owned, k, o, now);
        }
      case Rehash => OthersConserve(w, owned, w', owned');
      case Collect(victim) =>
        if victim !in w.queue {
          assert w.queue - {victim} == w.queue;
        }
        OthersConserve(w, owned, w', owned');
    }
  }

  // `remove` queues the pointer it was passed, and drops whatever object has its id.
  lemma UnsafeLoses(w: World, owned: set<Managed>, call: Call)
    requires Conserved(w, owned) && !Safe(w, call)
    ensures !Conserved(NextIn(w, call), OwnedNext(w, owned, call))
  {
    var k, w', owned' := call.cache, NextIn(w, call), OwnedNext(w, owned, call);
    match call.op {
      case Store(o, _) =>
        LiveNext(w, call, k, o);
        assert o in owned' && LiveIn(w', k, o) && LiveSomewhere(w', o);
        if o in w.queue {
          assert o in w'.queue;
        } else {
          var j: nat :| LiveIn(w, j, o) && j != k;
          LiveNext(w, call, j, o);
        }
      case Remove(o, _) =>
        var lost := CacheOf(w, k)[o.id];
        EntryIsLive(w, owned, k, o.id);
        forall j: nat ensures !LiveIn(w', j, lost) {
          LiveNext(w, call, j, lost);
        }
        assert lost in owned' && lost !in w'.queue && !LiveSomewhere(w', lost);
    }
  }

  ghost predicate AllSafe(calls: seq<Call>) {
    forall i :: 0 <= i < |calls| ==> Safe(After(calls[..i]), calls[i])
  }

  ghost predicate AlwaysConserved(calls: seq<Call>) {
    forall i :: 0 <= i <= |calls| ==> Conserved(After(calls[..i]), Owned(calls[..i]))
  }

  lemma Step(calls: seq<Call>, i: nat)
    requires i < |calls|
    ensures After(calls[..i + 1]) == NextIn(After(calls[..i]), calls[i])
    ensures Owned(calls[..i + 1]) == OwnedNext(After(calls[..i]), Owned(calls[..i]), calls[i])
  {
    assert calls[..i + 1][..i] == calls[..i];
  }

  lemma {:induction false} ConservedUpTo(calls: seq<Call>, i: nat)
    requires AllSafe(calls) && i <= |calls|
    ensures Conserved(After(calls[..i]), Owned(calls[..i]))
  {
    if i > 0 {
      ConservedUpTo(calls, i - 1);
      Step(calls, i - 1);
      SafeConserves(After(calls[..i - 1]), Owned(calls[..i - 1]), calls[i - 1]);
    }
  }

  /** No object is lost, queued while live or live twice, at any point of a run, exactly when every call is safe. */
  lemma ConservedExactly(calls: seq<Call>)
    ensures AlwaysConserved(calls) <==> AllSafe(calls)
  {
    if AllSafe(calls) {
      forall i | 0 <= i <= |calls| ensures Conserved(After(calls[..i]), Owned(calls[..i])) {
        ConservedUpTo(calls, i);
      }
    }
    if AlwaysConserved(calls) {
      forall i | 0 <= i < |calls| ensures Safe(After(calls[..i]), calls[i]) {
        Step(calls, i);
        assert Conserved(After(calls[..i]), Owned(calls[..i]));
        assert Conserved(After(calls[..i + 1]), Owned(calls[..i + 1]));
        if !Safe(After(calls[..i]), calls[i]) {
          UnsafeLoses(After(calls[..i]), Owned(calls[..i]), calls[i]);
        }
      }
    }
  }

  /**
    Exactly which objects a call queues, and since when they wait: the one replaced or removed, since
    the time of the call, and the others as before.
   */
  lemma QueuedExactly(w: World, call: Call, o: Managed)
    ensures var w' := NextIn(w, call);
            var cached := CacheOf(w, call.cache);
            match call.op
            case Store(p, now) =>
              if p != null && p.id in cached && cached[p.id] == o && o != p
              then o in w'.queue && w'.queue[o] == now else SameInQueue(w, w', o)
            case Remove(p, now) =>
              if p == o && o.id in cached then o in w'.queue && w'.queue[o] == now else SameInQueue(w, w', o)
            case Rehash => SameInQueue(w, w', o)
            case Collect(victim) => if victim == o then o !in w'.queue else SameInQueue(w, w', o)
  {
  }

  predicate SameInQueue(w: World, w': World, o: Managed) {
    (o in w'.queue <==> o in w.queue) && (o in w.queue ==> w'.queue[o] == w.queue[o])
  }

  /** Storing an object under the id of another one queues that one from then on. */
  lemma ReplacingATwin(cached: Managed, twin: Managed, t0: int, t1: int)
    requires cached != twin && cached.id == twin.id
    ensures var calls := [Call(0, Store(cached, t0)), Call(0, Store(twin, t1))];
            && CacheOf(After(calls), 0) == map[twin.id := twin] && After(calls).queue == map[cached := t1]
            && Owned(calls) == {cached, twin} && AlwaysConserved(calls)
  {
    var calls := [Call(0, Store(cached, t0)), Call(0, Store(twin, t1))];
    assert calls[..0] == [] && calls[..1] == [Call(0, Store(cached, t0))];
    assert calls[..2] == calls;
    Step(calls, 0);
    Step(calls, 1);
    ConservedExactly(calls);
    assert CacheOf(After(calls[..1]), 0) == map[cached.id := cached];
    forall i | 0 <= i < |calls| ensures Safe(After(calls[..i]), calls[i]) {
      if i == 1 {
        assert forall j: nat :: !LiveIn(After(calls[..1]), j, twin);
      }
    }
  }

  /** Removing another object with the same id drops the cached one and queues the other. */
  lemma RemovingATwin(cached: Managed, twin: Managed, t0: int, t1: int)
    requires cached != twin && cached.id == twin.id
    ensures var calls := [Call(0, Store(cached, t0)), Call(0, Remove(twin, t1))];
            && CacheOf(After(calls), 0) == map[] && After(calls).queue == map[twin := t1]
            && Owned(calls) == {cached} && !AlwaysConserved(calls)
  {
    var calls := [Call(0, Store(cached, t0)), Call(0, Remove(twin, t1))];
    assert calls[..0] == [] && calls[..1] == [Call(0, Store(cached, t0))];
    assert calls[..2] == calls;
    Step(calls, 0);
    Step(calls, 1);
    ConservedExactly(calls);
    assert !Safe(After(calls[..1]), calls[1]);
  }

  // ------------------------------------------------------------------ the objects

  class Table {
    var entries: map<nat, Managed>

    constructor ()
      ensures entries == map[]
    {
      entries := map[];
    }
  }

  class DeletionQueue {
    var entries: map<Managed, int>
  }

  class ObjectCache {
    var cacheMap: Table
    const deletionQueue: DeletionQueue   // shared by all caches

    function Contents(): State
      reads this, cacheMap, deletionQueue
    {
      State(cacheMap.entries, deletionQueue.entries)
    }

    constructor (queue: DeletionQueue)
      ensures deletionQueue == queue && fresh(cacheMap) && Contents() == State(map[], queue.entries)
    {
      deletionQueue := queue;
      cacheMap := new Table();
    }

    method StoreObject(o: Managed?, now: int)
      modifies cacheMap, deletionQueue
      ensures Contents() == Next(old(Contents()), Store(o, now))
    {
      if o == null {
        return;
      }
      if o.id !in cacheMap.entries {
        cacheMap.entries := cacheMap.entries[o.id := o];
      } else if o != cacheMap.entries[o.id] {
        deletionQueue.entries := deletionQueue.entries[cacheMap.entries[o.id] := now];
        cacheMap.entries := cacheMap.entries[o.id := o];
      }
    }

    method RemoveObject(o: Managed?, now: int)
      modifies cacheMap, deletionQueue
      ensures Contents() == Next(old(Contents()), Remove(o, now))
    {
      if o == null {
        return;
      }
      if o.id in cacheMap.entries {
        cacheMap.entries := cacheMap.entries - {o.id};
        deletionQueue.entries := deletionQueue.entries[o := now];
      }
    }

    method Find(id: nat) returns (o: Managed?)
      ensures o != null <==> id in Contents().live
      ensures o != null ==> o == Contents().live[id]
    {
      o := if id in cacheMap.entries then cacheMap.entries[id] else null;
    }

    method Count() returns (n: nat)
      ensures n == |Contents().live|
    {
      n := |cacheMap.entries|;
    }

    /** The entries move to a new table. */
    method RehashTable()
      modifies this`cacheMap
      ensures fresh(cacheMap) && Contents() == Next(old(Contents()), Rehash)
    {
      cacheMap := CopyOf(cacheMap.entries);
    }
  }

  /** A new table with the given entries, inserted in whatever order they are met. */
  method CopyOf(entries: map<nat, Managed>) returns (table: Table)
    ensures fresh(table) && table.entries == entries
  {
    table := new Table();
    var left := entries.Keys;
    while left != {}
      invariant left <= entries.Keys && fresh(table)
      invariant forall id :: id in table.entries <==> id in entries && id !in left
      invariant forall id :: id in table.entries ==> table.entries[id] == entries[id]
      decreases |left|
    {
      var id :| id in left;
      table.entries := table.entries[id := entries[id]];
      left := left - {id};
    }
  }
}
