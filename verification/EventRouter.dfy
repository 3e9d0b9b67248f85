/** The router, the timers and the collectors of Collector as the objects that the source updates. */
module EventRouter {
  import opened Collector

  class CollectorObject<C> {
    var handle: nat
    var timer: nat
    var attached: bool
    var stored: seq<C>
    var triggered: bool
    var log: seq<seq<C>>

    function State(): Col<C>
      reads this
    {
      Col(handle, timer, attached, stored, triggered, log)
    }

    constructor (h: nat, t: nat)
      ensures State() == Col(h, t, true, [], false, [])
    {
      handle, timer, attached, stored, triggered, log := h, t, true, [], false, [];
    }

    // The `on_stop` of its timer; `completed` is the caller's, so a call of it is recorded.
    method OnStop()
      modifies this
      ensures State() == Complete(old(State()))
    {
      if !triggered {
        triggered := true;
        log := log + [stored];
      }
    }

    // The listener it attaches, given what its filter found.
    method Listen(found: Option<C>)
      modifies this
      ensures State() == Hear(old(State()), found)
    {
      if found.Some? {
        stored := stored + [found.value];
      }
    }
  }

  class Hub<!T, C> {
    const client: Client<T, C>
    var dispatch: map<nat, Listener>
    var nextHandle: nat
    var timers: map<nat, nat>
    var nextTimer: nat
    var members: seq<CollectorObject<C>>

    function World(): (s: World<C>)
      reads this, members
      ensures |s.cols| == |members| && forall i :: 0 <= i < |members| ==> s.cols[i] == members[i].State()
    {
      Collector.World(dispatch, nextHandle, timers, nextTimer,
                      seq(|members|, i requires 0 <= i < |members| reads this, members => members[i].State()))
    }

    ghost predicate Valid()
      reads this
    {
      forall i, j :: 0 <= i < j < |members| ==> members[i] != members[j]
    }

    constructor (client: Client<T, C>)
      ensures Valid() && World() == Start() && this.client == client
    {
      this.client := client;
      dispatch, nextHandle, timers, nextTimer, members := map[], 0, map[], 0, [];
    }

    method AttachListener(l: Listener) returns (h: nat)
      requires Valid()
      modifies this`dispatch, this`nextHandle
      ensures World() == Attach(old(World()), l) && h == old(nextHandle)
    {
      h := nextHandle;
      nextHandle := nextHandle + 1;
      dispatch := dispatch[h := l];
      assert World().cols == old(World()).cols;
    }

    method DetachListener(h: nat) returns (found: bool)
      requires Valid()
      modifies this`dispatch
      ensures World() == Detach(old(World()), h) && (found <==> h in old(dispatch))
    {
      found := h in dispatch;
      dispatch := dispatch - {h};
      assert World().cols == old(World()).cols;
    }

    method Stop(t: nat) returns (existed: bool)
      requires Valid() && NumbersOk(World())
      modifies this`timers, members
      ensures World() == StopTimer(old(World()), t) && (existed <==> t in old(timers))
      ensures forall i :: 0 <= i < |members| ==>
                members[i].handle == old(members[i].handle) && members[i].timer == old(members[i].timer)
    {
      existed := t in timers;
      if existed {
        var owner := timers[t];
        timers := timers - {t};
        members[owner].OnStop();
        assert World().cols == StopTimer(old(World()), t).cols;
      }
    }

    /** `call`: every listener in the order of the handles, until one has cancelled the event. */
    method Call(e: T)
      requires Valid() && NumbersOk(World())
      modifies members
      ensures World() == Deliver(client, old(World()), e, 0, false)
    {
      var cancelled := false;
      for h := 0 to nextHandle
        invariant NumbersOk(World())
        invariant Deliver(client, World(), e, h, cancelled) == Deliver(client, old(World()), e, 0, false)
      {
        if h in dispatch && !cancelled {
          ghost var s := World();
          if dispatch[h].Of? {
            var c := dispatch[h].c;
            members[c].Listen(client.filter(c, e));
          }
          assert World().cols == Notify(client, s, dispatch[h], e).cols;
          NotifyKeepsNumbers(client, s, dispatch[h], e);
          cancelled := client.cancels(dispatch[h], e);
        }
      }
    }

    method Construct()
      requires Valid()
      modifies this
      ensures Valid() && World() == NewCollector(old(World()))
    {
      var h := AttachListener(Of(|members|));
      var col := new CollectorObject<C>(h, nextTimer);
      timers := timers[nextTimer := |members|];
      nextTimer := nextTimer + 1;
      members := members + [col];
      assert World().cols == NewCollector(old(World())).cols;
    }

    method TimerTicks(c: nat)
      requires Valid() && NumbersOk(World()) && c < |members|
      modifies this, members
      ensures Valid() && members == old(members) && World() == Ticked(old(World()), c)
    {
      var existed := Stop(members[c].timer);
      var found := DetachListener(members[c].handle);
    }

    method CancelCollector(c: nat)
      requires Valid() && NumbersOk(World()) && c < |members|
      modifies this, members
      ensures Valid() && members == old(members) && World() == Cancelled(old(World()), c)
    {
      if members[c].attached {
        TimerTicks(c);   // the destructor stops and detaches as the timer does
        ghost var s := World();
        members[c].attached := false;
        assert World().cols == s.cols[c := s.cols[c].(attached := false)];
      }
    }
  }
}
