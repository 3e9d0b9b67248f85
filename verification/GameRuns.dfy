/** Whole runs of the bot: any sequence of commands, button presses and callbacks. */
module GameRuns {
  import opened TicTacToe
  import opened GameList

  predicate Run(w: World, es: seq<Event>)
    decreases |es|
  {
    es == [] || (Possible(w, es[0]) && Run(Next(w, es[0]), es[1..]))
  }

  function After(w: World, es: seq<Event>): World
    requires Run(w, es)
    decreases |es|
  {
    if es == [] then w else After(Next(w, es[0]), es[1..])
  }

  const NOTHING := World([], [])

  lemma {:induction false} RunKeeps(w: World, es: seq<Event>)
    requires Inv(w) && DistinctMessages(w) && Run(w, es)
    ensures Inv(After(w, es)) && DistinctMessages(After(w, es))
    decreases |es|
  {
    if es != [] {
      NextKeeps(w, es[0]);
      RunKeeps(Next(w, es[0]), es[1..]);
    }
  }

  /** In every reachable state all identifiers ever minted have different button ids. */
  lemma IdentifiersNeverCollide(es: seq<Event>, i: nat, j: nat)
    requires Run(NOTHING, es)
    ensures var minted := After(NOTHING, es).minted;
            i < j < |minted| ==>
              minted[i].id != minted[j].id &&
              (IsButton(minted[i].id) && IsButton(minted[j].id) ==> Show(minted[i].id) != Show(minted[j].id))
  {
    RunKeeps(NOTHING, es);
    var w := After(NOTHING, es);
    if i < j < |w.minted| && IsButton(w.minted[i].id) && IsButton(w.minted[j].id) {
      MintedDistinct(w, i, j);
    }
  }

  // ------------------------------------------------------------------ an entry over a run

  /** What may happen to an entry: flags rise, a board is made once, an origin is set once. */
  predicate Rises(e: Entry, f: Entry) {
    && f.uid == e.uid && f.player1 == e.player1 && f.player2 == e.player2 && f.yes == e.yes && f.no == e.no
    && (e.confirmed1 ==> f.confirmed1) && (e.confirmed2 ==> f.confirmed2)
    && e.inits <= f.inits <= 1 && (e.inits == 1 ==> f.cells == e.cells)
    && (e.haveOrigin ==> f.haveOrigin && f.origin == e.origin)
  }

  predicate AllRise(w: World, w': World) {
    forall i, j :: 0 <= i < |w.entries| && 0 <= j < |w'.entries| && w.entries[i].uid == w'.entries[j].uid ==>
      Rises(w.entries[i], w'.entries[j])
  }

  predicate RiseInTurn(w: World, w': World) {
    |w'.entries| == |w.entries| && forall i :: 0 <= i < |w.entries| ==> Rises(w.entries[i], w'.entries[i])
  }

  /** Entries that keep their place, all of them risen. */
  lemma RiseInPlace(w: World, w': World)
    requires Inv(w) && |w.entries| <= |w'.entries|
    requires forall i :: 0 <= i < |w.entries| ==> Rises(w.entries[i], w'.entries[i])
    requires forall i :: |w.entries| <= i < |w'.entries| ==> w'.entries[i].uid > |w.minted|
    ensures AllRise(w, w')
  {
    forall i, j | 0 <= i < |w.entries| && 0 <= j < |w'.entries| && w.entries[i].uid == w'.entries[j].uid
      ensures Rises(w.entries[i], w'.entries[j])
    {
      assert EntryOk(w.minted, w.entries[i]);
      assert j < |w.entries|;
      assert w'.entries[j].uid == w.entries[j].uid;
    }
  }

  lemma PressedRises(w: World, t: nat, user: Player, custom: string)
    requires Inv(w) && t < |w.entries| && Named(w.entries[t], custom)
    ensures Rises(w.entries[t], Pressed(w, t, user, custom).entries[t])
  {
    assert EntryOk(w.minted, w.entries[t]);
  }

  lemma RiseNot(w: World)
    requires Inv(w)
    ensures RiseInTurn(w, w)
  {
    forall i | 0 <= i < |w.entries| ensures Rises(w.entries[i], w.entries[i]) {
      assert EntryOk(w.minted, w.entries[i]);
    }
  }

  lemma ConfirmRises(w: World, user: Player, custom: string)
    requires Inv(w)
    ensures RiseInTurn(w, Confirm(w, user, custom)) && |w.minted| <= |Confirm(w, user, custom).minted|
    ensures SameMessages(w, Confirm(w, user, custom))
  {
    RiseNot(w);
    if t :| 0 <= t < |w.entries| && Named(w.entries[t], custom) {
      ConfirmReaches(w, t, user, custom);
      PressedRises(w, t, user, custom);
      PressedElsewhere(w, t, user, custom);
    } else {
      NothingNamed(w, 0, user, custom);
    }
  }

  predicate SameMessages(w: World, w': World) {
    |w'.entries| == |w.entries| && forall i :: 0 <= i < |w.entries| ==> w'.entries[i].gameMsg == w.entries[i].gameMsg
  }

  lemma ClickRises(w: World, user: Player, msg: nat, custom: string)
    requires Inv(w) && DistinctMessages(w) && msg != 0 && user != 0
    ensures RiseInTurn(w, ClickOn(w, user, msg, custom)) && ClickOn(w, user, msg, custom).minted == w.minted
  {
    RiseNot(w);
    if t :| 0 <= t < |w.entries| && w.entries[t].gameMsg == msg {
      ClickExactly(w, t, user, msg, custom);
    } else {
      ClickNowhere(w, user, msg, custom);
    }
  }

  lemma PressRises(w: World, user: Player, msg: nat, custom: string)
    requires Inv(w) && DistinctMessages(w) && msg != 0 && user != 0
    ensures RiseInTurn(w, ButtonPress(w, user, msg, custom))
    ensures |w.minted| <= |ButtonPress(w, user, msg, custom).minted|
  {
    ConfirmKeeps(w, user, custom);
    ConfirmRises(w, user, custom);
    ClickRises(Confirm(w, user, custom), user, msg, custom);
  }

  lemma NextRises(w: World, e: Event)
    requires Inv(w) && DistinctMessages(w) && Possible(w, e)
    ensures AllRise(w, Next(w, e)) && |w.minted| <= |Next(w, e).minted|
  {
    RiseNot(w);
    match e {
      case Presses(user, msg, custom) => PressRises(w, user, msg, custom);
      case Remembers(msg, id) => OriginExactly(w, 0, msg, id);
      case Erases(t) => EraseRises(w, t);
      case _ =>
    }
    if !e.Erases? {
      RiseInPlace(w, Next(w, e));
    }
  }

  lemma EraseRises(w: World, t: nat)
    requires Inv(w) && t < |w.entries|
    ensures AllRise(w, w.(entries := w.entries[..t] + w.entries[t + 1..]))
  {
    var es := w.entries[..t] + w.entries[t + 1..];
    forall i, j | 0 <= i < |w.entries| && 0 <= j < |es| && w.entries[i].uid == es[j].uid
      ensures Rises(w.entries[i], es[j])
    {
      assert EntryOk(w.minted, w.entries[i]);
      var k := if j < t then j else j + 1;
      assert es[j] == w.entries[k] && k == i;
    }
  }

  predicate Listed(w: World, uid: nat) {
    exists i :: 0 <= i < |w.entries| && w.entries[i].uid == uid
  }

  predicate SameUids(es: seq<Entry>, fs: seq<Entry>) {
    |fs| == |es| && forall i :: 0 <= i < |es| ==> fs[i].uid == es[i].uid
  }

  lemma UidsKept(w: World, e: Event)
    requires Inv(w) && DistinctMessages(w) && Possible(w, e) && !e.Pushes? && !e.Erases?
    ensures SameUids(w.entries, Next(w, e).entries)
  {
    match e {
      case Presses(user, msg, custom) => PressRises(w, user, msg, custom);
      case Remembers(msg, id) => OriginExactly(w, 0, msg, id);
      case Deploys(t, msg) =>
    }
  }

  function Without(es: seq<Entry>, t: nat): seq<Entry>
    requires t < |es|
  {
    es[..t] + es[t + 1..]
  }

  lemma WithoutAt(es: seq<Entry>, t: nat)
    requires t < |es|
    ensures |Without(es, t)| == |es| - 1
    ensures forall i :: 0 <= i < |es| - 1 ==> Without(es, t)[i] == es[if i < t then i else i + 1]
  {
  }

  /** Erasing takes exactly that entry off the list; the others stay as they are, in their order. */
  lemma ErasedExactly(w: World, t: nat, uid: nat)
    requires Inv(w) && t < |w.entries|
    ensures var es := Next(w, Erases(t)).entries;
            && |es| == |w.entries| - 1
            && (Listed(Next(w, Erases(t)), uid) <==> Listed(w, uid) && uid != w.entries[t].uid)
            && forall i :: 0 <= i < |es| ==> es[i] == w.entries[if i < t then i else i + 1]
    ensures Next(w, Erases(t)).minted == w.minted
  {
    WithoutAt(w.entries, t);
    var w' := Next(w, Erases(t));
    assert w'.entries == Without(w.entries, t);
    if Listed(w, uid) && uid != w.entries[t].uid {
      var i :| 0 <= i < |w.entries| && w.entries[i].uid == uid;
      assert w'.entries[if i < t then i else i - 1] == w.entries[i];
    }
  }

  /** Whatever is on the list can be erased. */
  lemma {:induction false} ListCanBeEmptied(w: World)
    ensures exists es :: Run(w, es) && After(w, es).entries == [] && After(w, es).minted == w.minted
    decreases |w.entries|
  {
    if w.entries == [] {
      assert Run(w, []) && After(w, []) == w;
    } else {
      var w' := Next(w, Erases(0));
      assert |w'.entries| < |w.entries|;
      ListCanBeEmptied(w');
      var es :| Run(w', es) && After(w', es).entries == [] && After(w', es).minted == w'.minted;
      assert ([Erases(0)] + es)[1..] == es;
      assert Run(w, [Erases(0)] + es) && After(w, [Erases(0)] + es) == After(w', es);
    }
  }

  /** The message stored for a game is the one whose clicks reach it, and they reach no other. */
  lemma DeployedThenClicked(w: World, t: nat, msg: nat, user: Player, custom: string)
    requires Inv(w) && DistinctMessages(w) && Possible(w, Deploys(t, msg)) && user != 0
    ensures var w' := Next(w, Deploys(t, msg));
            && |w'.entries| == |w.entries|
            && ClickOn(w', user, msg, custom) == WithGame(w', t, Clicked(w'.entries[t], user, custom))
            && w'.entries[t].game == w.entries[t].game && w'.entries[t].uid == w.entries[t].uid
            && forall i :: 0 <= i < |w.entries| && i != t ==> w'.entries[i] == w.entries[i]
  {
    NextKeeps(w, Deploys(t, msg));
    ClickExactly(Next(w, Deploys(t, msg)), t, user, msg, custom);
  }

  /** The message remembered for an entry is the first that is, whatever comes later, and no other entry has it. */
  lemma RememberedOnce(w: World, i: nat, msg: nat, later: nat)
    requires Inv(w) && i < |w.entries|
    ensures var id := w.entries[i].uid;
            var w' := Next(w, Remembers(msg, id));
            && |w'.entries| == |w.entries| && Next(w', Remembers(later, id)) == w'
            && w'.entries[i].haveOrigin
            && w'.entries[i].origin == (if w.entries[i].haveOrigin then w.entries[i].origin else msg)
            && forall k :: 0 <= k < |w.entries| && k != i ==> w'.entries[k] == w.entries[k]
  {
    var id := w.entries[i].uid;
    OriginExactly(w, 0, msg, id);
    OriginOnce(w, msg, id, later);
  }

  /** An entry that is gone does not come back. */
  lemma GoneForGood(w: World, e: Event, uid: nat)
    requires Inv(w) && DistinctMessages(w) && Possible(w, e) && uid <= |w.minted| && !Listed(w, uid)
    ensures !Listed(Next(w, e), uid)
  {
    var fs := Next(w, e).entries;
    match e {
      case Erases(t) => WithoutAt(w.entries, t);
      case Pushes(p1, p2, o) =>
        assert fs == w.entries + [NewEntry(|w.minted| + 1, p1, p2, o)];
      case _ => UidsKept(w, e);
    }
  }

  lemma {:induction false} StaysGone(w: World, es: seq<Event>, uid: nat)
    requires Inv(w) && DistinctMessages(w) && Run(w, es) && uid <= |w.minted| && !Listed(w, uid)
    ensures !Listed(After(w, es), uid)
    decreases |es|
  {
    if es != [] {
      NextKeeps(w, es[0]);
      NextRises(w, es[0]);
      GoneForGood(w, es[0], uid);
      StaysGone(Next(w, es[0]), es[1..], uid);
    }
  }

  /**
    Over every run, whatever is pressed and clicked: the confirmations of an entry only rise,
    `init_game` runs at most once for it, and its origin, once set, stays.
   */
  lemma {:induction false} EntriesRise(w: World, es: seq<Event>)
    requires Inv(w) && DistinctMessages(w) && Run(w, es)
    ensures AllRise(w, After(w, es))
    decreases |es|
  {
    if es == [] {
      RiseInPlaceSelf(w);
    } else {
      var w1 := Next(w, es[0]);
      NextKeeps(w, es[0]);
      NextRises(w, es[0]);
      EntriesRise(w1, es[1..]);
      RiseTwice(w, w1, es[1..]);
    }
  }

  lemma RiseInPlaceSelf(w: World)
    requires Inv(w)
    ensures AllRise(w, w)
  {
    forall i | 0 <= i < |w.entries| ensures Rises(w.entries[i], w.entries[i]) {
      assert EntryOk(w.minted, w.entries[i]);
    }
    RiseInPlace(w, w);
  }

  lemma RiseTwice(w: World, w1: World, es: seq<Event>)
    requires Inv(w) && Inv(w1) && DistinctMessages(w1) && |w.minted| <= |w1.minted|
    requires Run(w1, es) && AllRise(w, w1) && AllRise(w1, After(w1, es))
    ensures AllRise(w, After(w1, es))
  {
    var w2 := After(w1, es);
    forall i, k | 0 <= i < |w.entries| && 0 <= k < |w2.entries| && w.entries[i].uid == w2.entries[k].uid
      ensures Rises(w.entries[i], w2.entries[k])
    {
      var uid := w.entries[i].uid;
      assert EntryOk(w.minted, w.entries[i]) && w2.entries[k].uid == uid;
      assert Listed(w2, uid);
      if !Listed(w1, uid) {
        StaysGone(w1, es, uid);
        assert false;
      } else {
        var j :| 0 <= j < |w1.entries| && w1.entries[j].uid == w.entries[i].uid;
        assert Rises(w.entries[i], w1.entries[j]) && Rises(w1.entries[j], w2.entries[k]);
      }
    }
  }

  // ------------------------------------------------------------------ the games

  ghost predicate GamesCorrect(w: World) {
    forall i :: 0 <= i < |w.entries| && w.entries[i].inits == 1 ==> Correct(w.entries[i].game)
  }

  // As the second handler finds the list: every started game in this message survives the click.
  predicate AllSpared(w: World, user: Player, msg: nat, custom: string) {
    forall t :: 0 <= t < |w.entries| && w.entries[t].inits == 1 && w.entries[t].gameMsg == msg ==>
      Spared(w.entries[t], user, custom)
  }

  /** The press is the "Yes" that starts the entry's game. */
  predicate StartsGame(w: World, t: nat, user: Player, custom: string)
    requires t < |w.entries|
  {
    var e := w.entries[t];
    var player := PlayerOf(e, user);
    && Reaches(w, 0, t, user) && e.inits == 0 && custom == Show(YesId(e.yes))
    && player != 0 && !Confirmed(e, player) && Confirmed(e, if player == 1 then 2 else 1)
  }

  /**
    Started games in the message of the press are spared, and if the press starts the game of its
    own message, it is not by player 1, whose turn it is then.
   */
  predicate HarmlessFor(w: World, t: nat, user: Player, msg: nat, custom: string)
    requires t < |w.entries|
  {
    var e := w.entries[t];
    e.gameMsg == msg ==>
      (e.inits == 1 ==> Spared(e, user, custom)) && (StartsGame(w, t, user, custom) ==> user != e.player1)
  }

  predicate Harmless(w: World, e: Event) {
    e.Presses? ==> forall t :: 0 <= t < |w.entries| ==> HarmlessFor(w, t, e.user, e.msg, e.custom)
  }

  predicate AllHarmless(w: World, es: seq<Event>)
    requires Run(w, es)
    decreases |es|
  {
    es == [] || (Harmless(w, es[0]) && AllHarmless(Next(w, es[0]), es[1..]))
  }

  ghost predicate AlwaysCorrect(w: World, es: seq<Event>)
    requires Run(w, es)
    decreases |es|
  {
    GamesCorrect(w) && (es == [] || AlwaysCorrect(Next(w, es[0]), es[1..]))
  }

  lemma ConfirmKeepsGames(w: World, user: Player, custom: string)
    requires Inv(w) && GamesCorrect(w)
    ensures GamesCorrect(Confirm(w, user, custom))
  {
    if t :| 0 <= t < |w.entries| && Named(w.entries[t], custom) {
      ConfirmReaches(w, t, user, custom);
      PressedElsewhere(w, t, user, custom);
      PressedGame(w, t, user, custom);
    } else {
      NothingNamed(w, 0, user, custom);
    }
  }

  lemma PressedGame(w: World, t: nat, user: Player, custom: string)
    requires Inv(w) && GamesCorrect(w) && t < |w.entries|
    ensures var e := Pressed(w, t, user, custom).entries[t];
            e.inits == 1 ==> Correct(e.game)
  {
    var e := w.entries[t];
    assert EntryOk(w.minted, e);
    StartCorrect(e.player1, e.player2);
    if e.inits == 0 {
      assert Start(e.player1, e.player2).(result := InProgress, turns := 0) == Start(e.player1, e.player2);
    }
  }

  // A new game is spared by the "Yes" that started it unless that came from player 1.
  lemma NewGameSpared(w: World, t: nat, user: Player, custom: string)
    requires Inv(w) && t < |w.entries| && Named(w.entries[t], custom) && w.entries[t].inits == 0
    ensures var f := Pressed(w, t, user, custom).entries[t];
            if PlayerOf(w.entries[t], user) != 0 && StartsGame(w, t, user, custom)
            then f.inits == 1 && (Spared(f, user, custom) <==> user != f.player1)
            else Reaches(w, 0, t, user) ==> f.inits == 0
    ensures Pressed(w, t, user, custom).entries[t].player1 == w.entries[t].player1
  {
    var e, f := w.entries[t], Pressed(w, t, user, custom).entries[t];
    assert EntryOk(w.minted, e);
    if StartsGame(w, t, user, custom) {
      YesOnNoCell(f, e.yes);
    } else {
      ButtonsDiffer(w, t, t, custom);
    }
  }

  lemma YesOnNoCell(e: Entry, yes: nat)
    ensures FindCell(e, Show(YesId(yes)), 0) == 9
  {
    var c := FindCell(e, Show(YesId(yes)), 0);
    if c < 9 {
      if c < |e.cells| {
        ShowParts(YesId(yes));
        ShowParts(CellId(c, e.cells[c]));
      } else {
        ShowParts(YesId(yes));
      }
    }
  }

  lemma BothConfirmed(w: World, t: nat, user: Player, custom: string)
    requires Inv(w) && t < |w.entries| && w.entries[t].inits == 1
    ensures Pressed(w, t, user, custom) == w
  {
    assert EntryOk(w.minted, w.entries[t]);
  }

  lemma HarmlessAt(w: World, t: nat, user: Player, msg: nat, custom: string)
    requires Inv(w) && t < |w.entries|
    ensures |Confirm(w, user, custom).entries| == |w.entries|
    ensures var f := Confirm(w, user, custom).entries[t];
            HarmlessFor(w, t, user, msg, custom) <==>
              (f.gameMsg == msg && f.inits == 1 ==> Spared(f, user, custom))
  {
    ConfirmRises(w, user, custom);
    if Named(w.entries[t], custom) {
      ConfirmReaches(w, t, user, custom);
      if w.entries[t].inits == 1 {
        BothConfirmed(w, t, user, custom);
      } else {
        assert EntryOk(w.minted, w.entries[t]);
        NewGameSpared(w, t, user, custom);
      }
    } else {
      ConfirmElsewhere(w, t, user, custom);
      assert !StartsGame(w, t, user, custom);
    }
  }

  lemma ConfirmElsewhere(w: World, t: nat, user: Player, custom: string)
    requires Inv(w) && t < |w.entries| && !Named(w.entries[t], custom)
    ensures |Confirm(w, user, custom).entries| == |w.entries| && Confirm(w, user, custom).entries[t] == w.entries[t]
  {
    if s: nat :| s < |w.entries| && Named(w.entries[s], custom) {
      ConfirmReaches(w, s, user, custom);
      PressedElsewhere(w, s, user, custom);
    } else {
      NothingNamed(w, 0, user, custom);
    }
  }

  /** What `Harmless` says of the list before the press is what the second handler needs of it. */
  lemma HarmlessBetween(w: World, user: Player, msg: nat, custom: string)
    requires Inv(w)
    ensures Harmless(w, Presses(user, msg, custom)) <==> AllSpared(Confirm(w, user, custom), user, msg, custom)
  {
    ConfirmRises(w, user, custom);
    var fs := Confirm(w, user, custom).entries;
    forall t | 0 <= t < |w.entries|
      ensures HarmlessFor(w, t, user, msg, custom) <==>
                (fs[t].gameMsg == msg && fs[t].inits == 1 ==> Spared(fs[t], user, custom))
    {
      HarmlessAt(w, t, user, msg, custom);
    }
  }

  lemma OneGameChanges(w: World, t: nat, g: Game)
    requires GamesCorrect(w) && t < |w.entries|
    ensures GamesCorrect(WithGame(w, t, g)) <==> (w.entries[t].inits == 1 ==> Correct(g))
  {
    var w' := WithGame(w, t, g);
    assert w'.entries[t].game == g && w'.entries[t].inits == w.entries[t].inits;
    assert forall i :: 0 <= i < |w.entries| && i != t ==> w'.entries[i] == w.entries[i];
  }

  lemma OneMessage(w: World, t: nat, user: Player, msg: nat, custom: string)
    requires DistinctMessages(w) && msg != 0 && t < |w.entries| && w.entries[t].gameMsg == msg
    ensures AllSpared(w, user, msg, custom) <==> (w.entries[t].inits == 1 ==> Spared(w.entries[t], user, custom))
  {
    assert forall i :: 0 <= i < |w.entries| && w.entries[i].gameMsg == msg ==> i == t;
  }

  lemma ClickKeepsGames(w: World, user: Player, msg: nat, custom: string)
    requires Inv(w) && DistinctMessages(w) && GamesCorrect(w) && msg != 0 && user != 0
    ensures GamesCorrect(ClickOn(w, user, msg, custom)) <==> AllSpared(w, user, msg, custom)
  {
    if t :| 0 <= t < |w.entries| && w.entries[t].gameMsg == msg {
      var e := w.entries[t];
      assert EntryOk(w.minted, e);
      ClickExactly(w, t, user, msg, custom);
      OneGameChanges(w, t, Clicked(e, user, custom));
      OneMessage(w, t, user, msg, custom);
      if e.inits == 1 {
        ClickCorrectExactly(e, user, custom);
      }
    } else {
      ClickNowhere(w, user, msg, custom);
    }
  }

  /** Exactly the harmless events keep all games correct. */
  lemma NextKeepsGames(w: World, e: Event)
    requires Inv(w) && DistinctMessages(w) && GamesCorrect(w) && Possible(w, e)
    ensures GamesCorrect(Next(w, e)) <==> Harmless(w, e)
  {
    match e {
      case Presses(user, msg, custom) =>
        ConfirmKeeps(w, user, custom);
        ConfirmKeepsGames(w, user, custom);
        ClickKeepsGames(Confirm(w, user, custom), user, msg, custom);
        HarmlessBetween(w, user, msg, custom);
      case Remembers(msg, id) => OriginExactly(w, 0, msg, id);
      case Erases(t) => WithoutAt(w.entries, t);
      case Pushes(p1, p2, o) => assert NewEntry(|w.minted| + 1, p1, p2, o).inits == 0;
      case Deploys(t, msg) =>
    }
  }

  /**
    Whatever is pressed over a run, all started games are correct games of tic-tac-toe at every
    point of it if and only if every press is harmless.
   */
  lemma {:induction false} GamesCorrectExactly(w: World, es: seq<Event>)
    requires Inv(w) && DistinctMessages(w) && GamesCorrect(w) && Run(w, es)
    ensures AlwaysCorrect(w, es) <==> AllHarmless(w, es)
    decreases |es|
  {
    if es != [] {
      NextKeeps(w, es[0]);
      NextKeepsGames(w, es[0]);
      if Harmless(w, es[0]) {
        GamesCorrectExactly(Next(w, es[0]), es[1..]);
      }
    }
  }

  // ------------------------------------------------------------------ enabled buttons

  /** The entry shows an enabled button of its board with this id in this message. */
  predicate ShowsButton(e: Entry, msg: nat, custom: string) {
    e.inits == 1 && e.gameMsg == msg && e.game.result != Won && e.game.result != Draw && FindCell(e, custom, 0) < 9
  }

  /** The press is in no game's message, as those of confirmation buttons are, or on an enabled cell. */
  predicate Honest(w: World, e: Event) {
    e.Presses? ==>
      || (forall t :: 0 <= t < |w.entries| ==> w.entries[t].gameMsg != e.msg)
      || (exists t :: 0 <= t < |w.entries| && ShowsButton(w.entries[t], e.msg, e.custom))
  }

  predicate AllHonest(w: World, es: seq<Event>)
    requires Run(w, es)
    decreases |es|
  {
    es == [] || (Honest(w, es[0]) && AllHonest(Next(w, es[0]), es[1..]))
  }

  lemma ShownSpares(w: World, t: nat, user: Player, msg: nat, custom: string)
    requires DistinctMessages(w) && GamesCorrect(w) && msg != 0
    requires t < |w.entries| && ShowsButton(w.entries[t], msg, custom)
    ensures AllSpared(w, user, msg, custom)
  {
    ResultKnown(w.entries[t].game);
    assert Spared(w.entries[t], user, custom);
    assert forall i :: 0 <= i < |w.entries| && w.entries[i].gameMsg == msg ==> i == t;
  }

  lemma ShownIsHarmless(w: World, t: nat, user: Player, msg: nat, custom: string)
    requires DistinctMessages(w) && GamesCorrect(w) && msg != 0
    requires t < |w.entries| && ShowsButton(w.entries[t], msg, custom)
    ensures Harmless(w, Presses(user, msg, custom))
  {
    ShownSpares(w, t, user, msg, custom);
    forall i | 0 <= i < |w.entries| ensures HarmlessFor(w, i, user, msg, custom) {
      if w.entries[i].gameMsg == msg {
        assert i == t;
      }
    }
  }

  lemma ElsewhereIsHarmless(w: World, user: Player, msg: nat, custom: string)
    requires forall t :: 0 <= t < |w.entries| ==> w.entries[t].gameMsg != msg
    ensures Harmless(w, Presses(user, msg, custom))
  {
  }

  lemma HonestIsHarmless(w: World, e: Event)
    requires Inv(w) && DistinctMessages(w) && GamesCorrect(w) && Possible(w, e) && Honest(w, e)
    ensures Harmless(w, e)
  {
    if e.Presses? {
      if t :| 0 <= t < |w.entries| && ShowsButton(w.entries[t], e.msg, e.custom) {
        ShownIsHarmless(w, t, e.user, e.msg, e.custom);
      } else {
        ElsewhereIsHarmless(w, e.user, e.msg, e.custom);
      }
    }
  }

  lemma ResultKnown(g: Game)
    requires Correct(g)
    ensures g.result == Won || g.result == Draw || g.result == InProgress
  {
  }

  /**
    Over every run in which only enabled buttons are pressed, every game that was started
    stays a correct game of tic-tac-toe, however many games are played at the same time.
   */
  lemma {:induction false} GamesStayCorrect(w: World, es: seq<Event>)
    requires Inv(w) && DistinctMessages(w) && GamesCorrect(w) && Run(w, es) && AllHonest(w, es)
    ensures GamesCorrect(After(w, es)) && AlwaysCorrect(w, es)
    decreases |es|
  {
    if es != [] {
      NextKeeps(w, es[0]);
      HonestIsHarmless(w, es[0]);
      NextKeepsGames(w, es[0]);
      GamesStayCorrect(Next(w, es[0]), es[1..]);
    }
  }

  // ------------------------------------------------------------------ a run in which a game is played

  ghost predicate HonestlyReached(w: World) {
    exists es :: Run(NOTHING, es) && AllHonest(NOTHING, es) && After(NOTHING, es) == w
  }

  lemma {:induction false} RunNext(w: World, es: seq<Event>, e: Event)
    requires Run(w, es) && AllHonest(w, es) && Possible(After(w, es), e) && Honest(After(w, es), e)
    ensures Run(w, es + [e]) && AllHonest(w, es + [e]) && After(w, es + [e]) == Next(After(w, es), e)
    decreases |es|
  {
    var all := es + [e];
    if es == [] {
      assert all[0] == e && all[1..] == [];
    } else {
      assert all[0] == es[0] && all[1..] == es[1..] + [e];
      RunNext(Next(w, es[0]), es[1..], e);
    }
  }

  lemma ReachedNext(w: World, e: Event)
    requires HonestlyReached(w) && Possible(w, e) && Honest(w, e)
    ensures HonestlyReached(Next(w, e))
  {
    var es :| Run(NOTHING, es) && AllHonest(NOTHING, es) && After(NOTHING, es) == w;
    RunNext(NOTHING, es, e);
  }

  // The only entry, of players 1 and 2: who has confirmed, whether the game is on, and its message.
  ghost predicate Stage(w: World, first: bool, second: bool, on: bool, msg: nat) {
    && HonestlyReached(w) && Inv(w) && DistinctMessages(w) && |w.entries| == 1
    && var e := w.entries[0];
       && e.player1 == 1 && e.player2 == 2 && e.confirmed1 == first && e.confirmed2 == second
       && e.inits == (if on then 1 else 0) && e.gameMsg == msg && (on ==> e.game == Start(1, 2))
  }

  lemma StagePushed(o: Order)
    ensures Stage(Push(NOTHING, 1, 2, o), false, false, false, 0)
  {
    assert Run(NOTHING, []) && AllHonest(NOTHING, []) && After(NOTHING, []) == NOTHING;
    PushKeeps(NOTHING, 1, 2, o);
    ReachedNext(NOTHING, Pushes(1, 2, o));
  }

  lemma PressedYes(w: World, user: Player)
    requires Inv(w) && |w.entries| == 1 && w.entries[0].inits == 0 && PlayerOf(w.entries[0], user) != 0
    requires !Confirmed(w.entries[0], PlayerOf(w.entries[0], user))
    ensures var w' := Confirm(w, user, Show(YesId(w.entries[0].yes)));
            && |w'.entries| == 1
            && var e, f := SetConfirmed(w.entries[0], PlayerOf(w.entries[0], user)), w'.entries[0];
               && f.player1 == e.player1 && f.player2 == e.player2 && f.gameMsg == e.gameMsg
               && f.confirmed1 == e.confirmed1 && f.confirmed2 == e.confirmed2
               && f.inits == (if e.confirmed1 && e.confirmed2 then 1 else 0)
               && (f.inits == 1 ==> f.game == Start(e.player1, e.player2))
  {
    assert EntryOk(w.minted, w.entries[0]);
    ConfirmReaches(w, 0, user, Show(YesId(w.entries[0].yes)));
  }

  // A "Yes" in the challenge's message, which is message 5.
  lemma StageYes(w: World, user: Player, first: bool, second: bool) returns (w': World)
    requires Stage(w, first, second, false, 0) && ((user == 1 && !first) || (user == 2 && !second))
    ensures Stage(w', first || user == 1, second || user == 2, (first || user == 1) && (second || user == 2), 0)
  {
    var yes := Show(YesId(w.entries[0].yes));
    PressedYes(w, user);
    ClickNowhere(Confirm(w, user, yes), user, 5, yes);
    w' := Next(w, Presses(user, 5, yes));
    NextKeeps(w, Presses(user, 5, yes));
    ReachedNext(w, Presses(user, 5, yes));
  }

  lemma StageDeployed(w: World) returns (w': World)
    requires Stage(w, true, true, true, 0)
    ensures Stage(w', true, true, true, 6)
  {
    w' := Next(w, Deploys(0, 6));
    NextKeeps(w, Deploys(0, 6));
    ReachedNext(w, Deploys(0, 6));
  }

  lemma StageClicked(w: World) returns (w': World)
    requires Stage(w, true, true, true, 6)
    ensures HonestlyReached(w') && |w'.entries| == 1 && w'.entries[0].inits == 1 && w'.entries[0].game.turns == 1
  {
    var e := w.entries[0];
    assert EntryOk(w.minted, e);
    var custom := CellName(e, 0);
    assert NamesCell(e, custom, 0) && FindCell(e, custom, 0) == 0 && ShowsButton(e, 6, custom);
    CellIsNoConfirmation(w, 1, CellId(0, e.cells[0]));
    ClickExactly(w, 0, 1, 6, custom);
    ClickedTakesTurn(e, 1, custom);
    w' := Next(w, Presses(1, 6, custom));
    ReachedNext(w, Presses(1, 6, custom));
  }

  /** Pressing enabled buttons only, a game can be confirmed, deployed and played. */
  lemma GamesArePlayed(o: Order)
    ensures exists w ::
              HonestlyReached(w) && |w.entries| == 1 && w.entries[0].inits == 1 && w.entries[0].game.turns == 1
  {
    StagePushed(o);
    var w1 := StageYes(Push(NOTHING, 1, 2, o), 1, false, false);
    var w2 := StageYes(w1, 2, true, false);
    var w3 := StageDeployed(w2);
    var w4 := StageClicked(w3);
  }

  // ------------------------------------------------------------------ a lost confirmation

  lemma LostBehindOthers(w: World, user: Player)
    requires Inv(w) && |w.entries| == 2 && user == w.entries[1].player1 && !w.entries[1].confirmed1
    requires PlayerOf(w.entries[0], user) == 0 && user != w.entries[1].player2
    ensures var yes := Show(YesId(w.entries[1].yes));
            Confirm(w, user, yes) == w && Pressed(w, 1, user, yes) != w
  {
    var yes := Show(YesId(w.entries[1].yes));
    ConfirmReaches(w, 1, user, yes);
    assert !Reaches(w, 0, 1, user);
    PressedEntry(w, 1, user, yes);
  }

  /** A "Yes" that is lost: the first entry of the list belongs to two other players. */
  lemma YesIsLost(o: Order)
    ensures var w := Push(Push(NOTHING, 1, 2, o), 3, 4, o);
            var yes := Show(YesId(w.entries[1].yes));
            Confirm(w, 3, yes) == w && Pressed(w, 1, 3, yes) != w
  {
    var w1 := Push(NOTHING, 1, 2, o);
    PushKeeps(NOTHING, 1, 2, o);
    PushKeeps(w1, 3, 4, o);
    LostBehindOthers(Push(w1, 3, 4, o), 3);
  }
}
