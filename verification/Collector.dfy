/**
  Event routers, timed listeners and collectors of D++ (cluster.h), many collectors on one router.
  Each call, tick and cancellation is one step; `stop_timer` runs `on_stop` iff the timer exists.
 */
module Collector {
  datatype Option<T> = None | Some(value: T)

  datatype Listener = Of(c: nat) | Other(k: nat)

  /** What is virtual or passed in: the filters, and whether a listener cancels an event. */
  datatype Client<!T, !C> = Client(filter: (nat, T) -> Option<C>, cancels: (Listener, T) -> bool)

  // `attached` says whether the pointer to the timed listener is set; `log` is the calls of `completed`.
  datatype Col<C> = Col(handle: nat, timer: nat, attached: bool, stored: seq<C>, triggered: bool, log: seq<seq<C>>)

  datatype World<C> = World(
    dispatch: map<nat, Listener>, nextHandle: nat, timers: map<nat, nat>, nextTimer: nat, cols: seq<Col<C>>)

  // ------------------------------------------------------------------ the operations

  function Attach<C>(s: World<C>, l: Listener): World<C> {
    s.(dispatch := s.dispatch[s.nextHandle := l], nextHandle := s.nextHandle + 1)
  }

  function Detach<C>(s: World<C>, h: nat): World<C> {
    s.(dispatch := s.dispatch - {h})
  }

  /** The collector's `on_stop`. */
  function Complete<C>(col: Col<C>): Col<C> {
    if col.triggered then col else col.(triggered := true, log := col.log + [col.stored])
  }

  function StopTimer<C>(s: World<C>, t: nat): World<C> {
    if t in s.timers && s.timers[t] < |s.cols| then
      s.(timers := s.timers - {t}, cols := s.cols[s.timers[t] := Complete(s.cols[s.timers[t]])])
    else s
  }

  function Hear<C>(col: Col<C>, found: Option<C>): Col<C> {
    if found.Some? then col.(stored := col.stored + [found.value]) else col
  }

  function Notify<T, C>(client: Client<T, C>, s: World<C>, l: Listener, e: T): World<C> {
    if l.Of? && l.c < |s.cols| then s.(cols := s.cols[l.c := Hear(s.cols[l.c], client.filter(l.c, e))]) else s
  }

  /** The rest of `call`, from handle `h` on: in the order of the handles, until one cancels. */
  function Deliver<T, C>(client: Client<T, C>, s: World<C>, e: T, h: nat, cancelled: bool): (s': World<C>)
    ensures s'.dispatch == s.dispatch && s'.nextHandle == s.nextHandle
    ensures s'.timers == s.timers && s'.nextTimer == s.nextTimer && |s'.cols| == |s.cols|
    decreases s.nextHandle - h
  {
    if h >= s.nextHandle then s
    else if h in s.dispatch && !cancelled then
      Deliver(client, Notify(client, s, s.dispatch[h], e), e, h + 1, client.cancels(s.dispatch[h], e))
    else Deliver(client, s, e, h + 1, cancelled)
  }

  function NewCollector<C>(s: World<C>): World<C> {
    var col := Col(s.nextHandle, s.nextTimer, true, [], false, []);
    var s1 := Attach(s, Of(|s.cols|));
    s1.(timers := s1.timers[s1.nextTimer := |s.cols|], nextTimer := s1.nextTimer + 1, cols := s1.cols + [col])
  }

  // The timer stops itself, and then the listener is detached.
  function Ticked<C>(s: World<C>, c: nat): World<C>
    requires c < |s.cols|
  {
    Detach(StopTimer(s, s.cols[c].timer), s.cols[c].handle)
  }

  function Cancelled<C>(s: World<C>, c: nat): World<C>
    requires c < |s.cols|
  {
    if !s.cols[c].attached then s
    else
      var s1 := Ticked(s, c);
      s1.(cols := s1.cols[c := s1.cols[c].(attached := false)])
  }

  // ------------------------------------------------------------------ events

  // Handles and timers are numbered across all routers, so others take numbers too.
  datatype Event<T> =
    | Create
    | Fire(e: T)
    | Tick(c: nat)
    | Cancel(c: nat)
    | Join(k: nat)
    | Leave(h: nat)
    | Elsewhere(handles: nat, timers: nat)

  /** Only a timer that exists ticks, and others detach only what is not a collector's. */
  predicate Enabled<T, C>(s: World<C>, ev: Event<T>) {
    match ev
    case Tick(c) => c < |s.cols| && s.cols[c].timer in s.timers
    case Cancel(c) => c < |s.cols|
    case Leave(h) => h in s.dispatch ==> s.dispatch[h].Other?
    case _ => true
  }

  function Next<T, C>(client: Client<T, C>, s: World<C>, ev: Event<T>): World<C>
    requires Enabled(s, ev)
  {
    match ev
    case Create => NewCollector(s)
    case Fire(e) => Deliver(client, s, e, 0, false)
    case Tick(c) => Ticked(s, c)
    case Cancel(c) => Cancelled(s, c)
    case Join(k) => Attach(s, Other(k))
    case Leave(h) => Detach(s, h)
    case Elsewhere(handles, timers) => s.(nextHandle := s.nextHandle + handles, nextTimer := s.nextTimer + timers)
  }

  // ------------------------------------------------------------------ the invariant

  predicate Live<C>(s: World<C>, c: nat)
    requires c < |s.cols|
  {
    var col := s.cols[c];
    && !col.triggered && col.log == [] && col.attached
    && col.handle in s.dispatch && s.dispatch[col.handle] == Of(c)
    && col.timer in s.timers && s.timers[col.timer] == c
  }

  predicate Over<C(==)>(s: World<C>, c: nat)
    requires c < |s.cols|
  {
    var col := s.cols[c];
    col.triggered && col.log == [col.stored] && col.handle !in s.dispatch && col.timer !in s.timers
  }

  predicate NumbersOk<C>(s: World<C>) {
    && (forall h :: h in s.dispatch ==>
          h < s.nextHandle && (s.dispatch[h].Of? ==> s.dispatch[h].c < |s.cols| && s.cols[s.dispatch[h].c].handle == h))
    && (forall t :: t in s.timers ==>
          t < s.nextTimer && s.timers[t] < |s.cols| && s.cols[s.timers[t]].timer == t)
    && forall c :: 0 <= c < |s.cols| ==> s.cols[c].handle < s.nextHandle && s.cols[c].timer < s.nextTimer
  }

  /** A collector is either attached, ticking and not completed, or none of these, and completed once. */
  predicate Inv<C(==)>(s: World<C>) {
    NumbersOk(s) && forall c :: 0 <= c < |s.cols| ==> Live(s, c) || Over(s, c)
  }

  function Start<C>(): World<C> {
    World(map[], 0, map[], 0, [])
  }

  // ------------------------------------------------------------------ delivery

  /** No listener from handle `from` up to `h` cancels the event. */
  predicate Passes<T, C>(client: Client<T, C>, s: World<C>, e: T, from: nat, h: nat) {
    forall g :: from <= g < h && g in s.dispatch ==> !client.cancels(s.dispatch[g], e)
  }

  predicate Reaches<T, C>(client: Client<T, C>, s: World<C>, e: T, h: nat) {
    h in s.dispatch && Passes(client, s, e, 0, h)
  }

  lemma PassesOn<T, C>(client: Client<T, C>, s: World<C>, s': World<C>, e: T, from: nat, h: nat)
    requires s'.dispatch == s.dispatch && from < h
    ensures Passes(client, s, e, from, h) <==>
              ((from in s.dispatch ==> !client.cancels(s.dispatch[from], e)) && Passes(client, s', e, from + 1, h))
  {
    if Passes(client, s', e, from + 1, h) && (from in s.dispatch ==> !client.cancels(s.dispatch[from], e)) {
      forall g | from <= g < h && g in s.dispatch ensures !client.cancels(s.dispatch[g], e) {
        if g != from {
          assert g in s'.dispatch;
        }
      }
    }
  }

  lemma NotifyOne<T, C>(client: Client<T, C>, s: World<C>, l: Listener, e: T, c: nat)
    requires c < |s.cols|
    ensures var s' := Notify(client, s, l, e);
            && |s'.cols| == |s.cols|
            && s'.cols[c] == if l == Of(c) then Hear(s.cols[c], client.filter(c, e)) else s.cols[c]
  {
  }

  lemma NotifyKeepsNumbers<T, C>(client: Client<T, C>, s: World<C>, l: Listener, e: T)
    requires NumbersOk(s)
    ensures NumbersOk(Notify(client, s, l, e))
  {
    var s' := Notify(client, s, l, e);
    forall c | 0 <= c < |s.cols| ensures s'.cols[c].handle == s.cols[c].handle && s'.cols[c].timer == s.cols[c].timer {
      NotifyOne(client, s, l, e, c);
    }
  }

  /** A collector hears an event iff no attached listener before it cancels it, and then once. */
  lemma {:induction false} DeliverOne<T, C>(client: Client<T, C>, s: World<C>, e: T, h: nat, cancelled: bool, c: nat)
    requires NumbersOk(s) && c < |s.cols|
    ensures var col := s.cols[c];
            Deliver(client, s, e, h, cancelled).cols[c] ==
              if col.handle in s.dispatch && s.dispatch[col.handle] == Of(c) && h <= col.handle && !cancelled &&
                 Passes(client, s, e, h, col.handle)
              then Hear(col, client.filter(c, e)) else col
    decreases s.nextHandle - h
  {
    var col := s.cols[c];
    if h < s.nextHandle {
      if h in s.dispatch && !cancelled {
        var s' := Notify(client, s, s.dispatch[h], e);
        NotifyOne(client, s, s.dispatch[h], e, c);
        NotifyKeepsNumbers(client, s, s.dispatch[h], e);
        DeliverOne(client, s', e, h + 1, client.cancels(s.dispatch[h], e), c);
        if h < col.handle {
          PassesOn(client, s, s', e, h, col.handle);
        }
      } else {
        DeliverOne(client, s, e, h + 1, cancelled, c);
        if h < col.handle {
          PassesOn(client, s, s, e, h, col.handle);
        }
      }
    }
  }

  // ------------------------------------------------------------------ every step keeps the invariant

  /** What delivering an event does to one collector, by what the invariant says of it. */
  lemma DeliverToOne<T, C>(client: Client<T, C>, s: World<C>, e: T, c: nat)
    requires Inv(s) && c < |s.cols|
    ensures var s' := Deliver(client, s, e, 0, false);
            && s'.cols[c] == (if Live(s, c) && Reaches(client, s, e, s.cols[c].handle)
                              then Hear(s.cols[c], client.filter(c, e)) else s.cols[c])
            && (Live(s, c) ==> Live(s', c)) && (Over(s, c) ==> Over(s', c))
            && s'.cols[c].handle == s.cols[c].handle && s'.cols[c].timer == s.cols[c].timer
  {
    DeliverOne(client, s, e, 0, false, c);
    assert Live(s, c) || Over(s, c);
  }

  lemma DeliverInv<T, C>(client: Client<T, C>, s: World<C>, e: T)
    requires Inv(s)
    ensures Inv(Deliver(client, s, e, 0, false))
    ensures forall c :: 0 <= c < |s.cols| ==>
              Deliver(client, s, e, 0, false).cols[c] ==
                if Live(s, c) && Reaches(client, s, e, s.cols[c].handle)
                then Hear(s.cols[c], client.filter(c, e)) else s.cols[c]
  {
    var s' := Deliver(client, s, e, 0, false);
    forall c | 0 <= c < |s.cols|
      ensures s'.cols[c] == if Live(s, c) && Reaches(client, s, e, s.cols[c].handle)
                            then Hear(s.cols[c], client.filter(c, e)) else s.cols[c]
      ensures s'.cols[c].handle == s.cols[c].handle && s'.cols[c].timer == s.cols[c].timer
      ensures Live(s', c) || Over(s', c)
    {
      DeliverToOne(client, s, e, c);
      assert Live(s, c) || Over(s, c);
    }
  }

  lemma TickedInv<C>(s: World<C>, c: nat)
    requires Inv(s) && c < |s.cols|
    ensures var s' := Ticked(s, c);
            && Inv(s') && Over(s', c) && |s'.cols| == |s.cols|
            && (forall d :: 0 <= d < |s.cols| && d != c ==> s'.cols[d] == s.cols[d] && (Live(s, d) <==> Live(s', d)))
            && s'.cols[c] == if Live(s, c) then Complete(s.cols[c]) else s.cols[c]
  {
    assert Live(s, c) || Over(s, c);
    var s' := Ticked(s, c);
    forall d | 0 <= d < |s.cols| && d != c
      ensures s'.cols[d] == s.cols[d] && (Live(s, d) ==> Live(s', d)) && (Over(s, d) ==> Over(s', d))
    {
      assert Live(s, d) || Over(s, d);
    }
  }

  lemma CreateInv<C>(s: World<C>)
    requires Inv(s)
    ensures var s' := NewCollector(s);
            && Inv(s') && |s'.cols| == |s.cols| + 1 && Live(s', |s.cols|) && s'.cols[|s.cols|].stored == []
            && forall d :: 0 <= d < |s.cols| ==> s'.cols[d] == s.cols[d] && (Live(s, d) <==> Live(s', d))
  {
    var s' := NewCollector(s);
    forall d | 0 <= d < |s.cols|
      ensures s'.cols[d] == s.cols[d] && (Live(s, d) ==> Live(s', d)) && (Over(s, d) ==> Over(s', d))
    {
      assert Live(s, d) || Over(s, d);
    }
  }

  lemma CancelledInv<C>(s: World<C>, c: nat)
    requires Inv(s) && c < |s.cols|
    ensures var s' := Cancelled(s, c);
            && Inv(s') && Over(s', c) && |s'.cols| == |s.cols|
            && (forall d :: 0 <= d < |s.cols| && d != c ==> s'.cols[d] == s.cols[d] && (Live(s, d) <==> Live(s', d)))
            && s'.cols[c].stored == s.cols[c].stored && s'.cols[c].handle == s.cols[c].handle
  {
    assert Live(s, c) || Over(s, c);
    TickedInv(s, c);
    var s1, s' := Ticked(s, c), Cancelled(s, c);
    if s.cols[c].attached {
      forall d | 0 <= d < |s.cols| && d != c
        ensures s'.cols[d] == s1.cols[d] && (Live(s1, d) <==> Live(s', d)) && (Over(s1, d) <==> Over(s', d))
      {
      }
    }
  }

  lemma OthersInv<T, C>(client: Client<T, C>, s: World<C>, ev: Event<T>)
    requires Inv(s) && Enabled(s, ev) && (ev.Join? || ev.Leave? || ev.Elsewhere?)
    ensures Inv(Next(client, s, ev)) && Next(client, s, ev).cols == s.cols
    ensures forall d :: 0 <= d < |s.cols| ==> (Live(s, d) <==> Live(Next(client, s, ev), d))
  {
    var s' := Next(client, s, ev);
    forall d | 0 <= d < |s.cols|
      ensures (Live(s, d) ==> Live(s', d)) && (Over(s, d) ==> Over(s', d))
    {
      assert Live(s, d) || Over(s, d);
    }
  }

  // ------------------------------------------------------------------ runs

  predicate Possible<T(==), C>(client: Client<T, C>, evs: seq<Event<T>>)
    decreases |evs|, 1
  {
    |evs| == 0 ||
    (Possible(client, evs[..|evs| - 1]) && Enabled(After(client, evs[..|evs| - 1]), evs[|evs| - 1]))
  }

  function After<T(==), C>(client: Client<T, C>, evs: seq<Event<T>>): World<C>
    requires Possible(client, evs)
    decreases |evs|, 2
  {
    if |evs| == 0 then Start()
    else Next(client, After(client, evs[..|evs| - 1]), evs[|evs| - 1])
  }

  function Creates<T>(evs: seq<Event<T>>): nat {
    if |evs| == 0 then 0 else Creates(evs[..|evs| - 1]) + if evs[|evs| - 1].Create? then 1 else 0
  }

  /** The collector's timer has ticked or it has been cancelled. */
  predicate Ended<T(==)>(evs: seq<Event<T>>, c: nat) {
    Event<T>.Tick(c) in evs || Event<T>.Cancel(c) in evs
  }

  /** What the run owes the collector: what its filter found in the events that got to it until its end. */
  function Collected<T(==), C>(client: Client<T, C>, evs: seq<Event<T>>, c: nat): seq<C>
    requires Possible(client, evs)
  {
    if |evs| == 0 then []
    else
      var init, last := evs[..|evs| - 1], evs[|evs| - 1];
      var s := After(client, init);
      Collected(client, init, c) +
      if last.Fire? && c < |s.cols| && !Ended(init, c) && Passes(client, s, last.e, 0, s.cols[c].handle) &&
         client.filter(c, last.e).Some?
      then [client.filter(c, last.e).value] else []
  }

  ghost predicate AsPromised<T, C>(client: Client<T, C>, evs: seq<Event<T>>, c: nat)
    requires Possible(client, evs)
  {
    var s := After(client, evs);
    if c < |s.cols| then
      && s.cols[c].stored == Collected(client, evs, c)
      && if Ended(evs, c) then Over(s, c) else Live(s, c)
    else Collected(client, evs, c) == [] && !Ended(evs, c)
  }

  lemma StepInv<T, C>(client: Client<T, C>, s: World<C>, ev: Event<T>)
    requires Inv(s) && Enabled(s, ev)
    ensures Inv(Next(client, s, ev))
    ensures |Next(client, s, ev).cols| == |s.cols| + if ev.Create? then 1 else 0
  {
    match ev {
      case Create => CreateInv(s);
      case Fire(e) => DeliverInv(client, s, e);
      case Tick(c) => TickedInv(s, c);
      case Cancel(c) => CancelledInv(s, c);
      case _ => OthersInv(client, s, ev);
    }
  }

  lemma {:induction false} RunInv<T, C>(client: Client<T, C>, evs: seq<Event<T>>)
    requires Possible(client, evs)
    ensures Inv(After(client, evs)) && |After(client, evs).cols| == Creates(evs)
  {
    if evs != [] {
      var init := evs[..|evs| - 1];
      RunInv(client, init);
      StepInv(client, After(client, init), evs[|evs| - 1]);
    }
  }

  // One event, seen from one collector: what it does to `stored`, and whether it is the end.
  lemma StepOne<T, C>(client: Client<T, C>, s: World<C>, ev: Event<T>, c: nat)
    requires Inv(s) && Enabled(s, ev) && c < |s.cols|
    ensures var s' := Next(client, s, ev);
            && c < |s'.cols|
            && (if ev == Tick(c) || ev == Cancel(c) then Over(s', c) else Live(s, c) ==> Live(s', c))
            && (Over(s, c) ==> Over(s', c))
            && s'.cols[c].stored == s.cols[c].stored +
                 if ev.Fire? && Live(s, c) && Passes(client, s, ev.e, 0, s.cols[c].handle) &&
                    client.filter(c, ev.e).Some?
                 then [client.filter(c, ev.e).value] else []
  {
    StepInv(client, s, ev);
    var s' := Next(client, s, ev);
    assert Live(s, c) || Over(s, c);
    assert Live(s', c) || Over(s', c);
    match ev {
      case Create => CreateInv(s);
      case Fire(e) => DeliverInv(client, s, e);
      case Tick(d) => TickedInv(s, d);
      case Cancel(d) => CancelledInv(s, d);
      case _ => OthersInv(client, s, ev);
    }
  }

  lemma EndedNext<T>(evs: seq<Event<T>>, c: nat)
    requires evs != []
    ensures var init, last := evs[..|evs| - 1], evs[|evs| - 1];
            Ended(evs, c) <==> Ended(init, c) || last == Tick(c) || last == Cancel(c)
  {
    assert evs == evs[..|evs| - 1] + [evs[|evs| - 1]];
  }

  lemma {:induction false} RunOne<T, C>(client: Client<T, C>, evs: seq<Event<T>>, c: nat)
    requires Possible(client, evs)
    ensures AsPromised(client, evs, c)
  {
    if evs != [] {
      var init, last := evs[..|evs| - 1], evs[|evs| - 1];
      var s := After(client, init);
      RunOne(client, init, c);
      RunInv(client, init);
      EndedNext(evs, c);
      StepInv(client, s, last);
      if c < |s.cols| {
        StepOne(client, s, last, c);
      } else if c < |After(client, evs).cols| {
        CreateInv(s);
      }
    }
  }

  /**
   After any run, every collector created has been completed iff its timer has ticked or it has been
   cancelled, and then exactly once, with exactly what it was owed up to that point.
   */
  lemma CompletesOnce<T, C>(client: Client<T, C>, evs: seq<Event<T>>, c: nat)
    requires Possible(client, evs) && c < Creates(evs)
    ensures var s := After(client, evs);
            && c < |s.cols|
            && s.cols[c].log == (if Ended(evs, c) then [Collected(client, evs, c)] else [])
            && (s.cols[c].handle in s.dispatch <==> !Ended(evs, c))
            && (s.cols[c].timer in s.timers <==> !Ended(evs, c))
  {
    RunOne(client, evs, c);
    RunInv(client, evs);
  }

  /** What comes after the end of a collector changes neither its list nor its one call of `completed`. */
  lemma {:induction false} NothingAfterTheEnd<T, C>(client: Client<T, C>, evs: seq<Event<T>>,
                                                    more: seq<Event<T>>, c: nat)
    requires Possible(client, evs + more) && c < Creates(evs) && Ended(evs, c)
    ensures Possible(client, evs) && Collected(client, evs + more, c) == Collected(client, evs, c)
    ensures c < Creates(evs + more)
    ensures Ended(evs + more, c)
  {
    if more == [] {
      assert evs + more == evs;
    } else {
      var all := evs + more;
      assert all[..|all| - 1] == evs + more[..|more| - 1];
      NothingAfterTheEnd(client, evs, more[..|more| - 1], c);
      EndedNext(all, c);
    }
  }

  /** The pending tick of a live collector can always come, so every collector can be completed. */
  lemma CanAlwaysEnd<T, C>(client: Client<T, C>, evs: seq<Event<T>>, c: nat)
    requires Possible(client, evs) && c < Creates(evs)
    ensures Possible(client, evs + [Event<T>.Tick(c)]) <==> !Ended(evs, c)
    ensures Possible(client, evs + [Event<T>.Cancel(c)])
  {
    CompletesOnce(client, evs, c);
    RunInv(client, evs);
    assert (evs + [Event<T>.Tick(c)])[..|evs|] == evs;
    assert (evs + [Event<T>.Cancel(c)])[..|evs|] == evs;
  }

  // ------------------------------------------------------------------ who listens

  /** Every run can go on with a new collector, an event or another listener, and with others numbering elsewhere. */
  lemma RunsGoOn<T, C>(client: Client<T, C>, evs: seq<Event<T>>, ev: Event<T>)
    requires Possible(client, evs) && !ev.Tick? && !ev.Cancel? && !ev.Leave?
    ensures Possible(client, evs + [ev])
  {
    assert (evs + [ev])[..|evs|] == evs;
  }

  /** Another listener that joins can leave again, and nothing is left of it but its number. */
  lemma JoinThenLeave<T, C>(client: Client<T, C>, s: World<C>, k: nat)
    requires Inv(s)
    ensures Enabled(s, Event<T>.Join(k)) && Enabled(Next(client, s, Event<T>.Join(k)), Event<T>.Leave(s.nextHandle))
    ensures Next(client, Next(client, s, Event<T>.Join(k)), Event<T>.Leave(s.nextHandle)) ==
              s.(nextHandle := s.nextHandle + 1)
  {
    assert s.nextHandle !in s.dispatch;
    assert s.dispatch[s.nextHandle := Other(k)] - {s.nextHandle} == s.dispatch;
  }

  /** Exactly which listeners are attached after an event, and that a new one gets the next handle. */
  lemma ListenersExactly<T, C>(client: Client<T, C>, s: World<C>, ev: Event<T>, h: nat)
    requires Inv(s) && Enabled(s, ev)
    ensures var s' := Next(client, s, ev);
            && (h in s'.dispatch <==>
                  match ev
                  case Create => h in s.dispatch || h == s.nextHandle
                  case Join(_) => h in s.dispatch || h == s.nextHandle
                  case Tick(c) => h in s.dispatch && h != s.cols[c].handle
                  case Cancel(c) => h in s.dispatch && h != s.cols[c].handle
                  case Leave(g) => h in s.dispatch && h != g
                  case _ => h in s.dispatch)
            && (h in s.dispatch && h in s'.dispatch ==> s'.dispatch[h] == s.dispatch[h])
            && (ev.Create? ==> s'.dispatch[s.nextHandle] == Of(|s.cols|))
            && (ev.Join? ==> s'.dispatch[s.nextHandle] == Other(ev.k))
    ensures Next(client, s, ev).nextTimer == s.nextTimer +
              match ev
              case Create => 1
              case Elsewhere(_, timers) => timers
              case _ => 0
    ensures Next(client, s, ev).nextHandle == s.nextHandle +
              match ev
              case Create => 1
              case Join(_) => 1
              case Elsewhere(handles, _) => handles
              case _ => 0
  {
    if ev.Cancel? {
      assert Live(s, ev.c) || Over(s, ev.c);
    }
    assert s.nextHandle !in s.dispatch;
  }

  /** Cancelling gives up the timed listener for good: a second call changes nothing, and neither does its tick. */
  lemma CancelTwice<T, C>(client: Client<T, C>, s: World<C>, c: nat)
    requires Inv(s) && c < |s.cols|
    ensures var s' := Next(client, s, Event<T>.Cancel(c));
            && |s'.cols| == |s.cols| && !s'.cols[c].attached && Inv(s')
            && Next(client, s', Event<T>.Cancel(c)) == s' && !Enabled(s', Event<T>.Tick(c))
            && Complete(s'.cols[c]) == s'.cols[c] && Complete(Complete(s.cols[c])) == Complete(s.cols[c])
  {
    CancelledInv(s, c);
  }
}
