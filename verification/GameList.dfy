/**
  The global list of games (tictactoe.cpp) with its identifiers (uniqueid.hpp): pushing an
  entry, remembering its message, confirming a game and clicking on a board.
 */
module GameList {
  import opened Decimal
  import opened TicTacToe

  // ------------------------------------------------------------------ identifiers

  datatype Ident = Uid(n: nat) | YesId(n: nat) | NoId(n: nat) | CellId(pos: nat, n: nat)

  // The source names the cells of row i "i00", "i01" and "i02".
  function PosText(pos: nat): (t: string)
    ensures |t| == 3
  {
    if pos < 3 then ['0', '0', DigitChar(pos % 3)]
    else if pos < 6 then ['1', '0', DigitChar(pos % 3)]
    else ['2', '0', DigitChar(pos % 3)]
  }

  /** The button id of an identifier; a uid is a number and on no button. */
  function Show(id: Ident): string {
    match id
    case Uid(n) => Render(n)
    case YesId(n) => "confm_" + Render(n) + "_y"
    case NoId(n) => "confm_" + Render(n) + "_n"
    case CellId(pos, n) => "p_" + PosText(pos) + "_" + Render(n)
  }

  predicate IsButton(id: Ident) {
    !id.Uid? && (id.CellId? ==> id.pos < 9)
  }

  lemma ShowParts(id: Ident)
    requires IsButton(id)
    ensures Show(id)[0] == if id.CellId? then 'p' else 'c'
    ensures id.CellId? ==> |Show(id)| > 6 && Show(id)[2..5] == PosText(id.pos) && Show(id)[6..] == Render(id.n)
    ensures !id.CellId? ==>
              && |Show(id)| > 8 && Show(id)[6..|Show(id)| - 2] == Render(id.n)
              && Show(id)[|Show(id)| - 1] == if id.YesId? then 'y' else 'n'
  {
    RenderThenValue(id.n);
  }

  /** No two identifiers share a button id. */
  lemma ShowInjective(a: Ident, b: Ident)
    requires IsButton(a) && IsButton(b) && Show(a) == Show(b)
    ensures a == b
  {
    ShowParts(a);
    ShowParts(b);
    RenderInjective(a.n, b.n);
    if a.CellId? {
      assert PosText(a.pos)[0] == PosText(b.pos)[0] && PosText(a.pos)[2] == PosText(b.pos)[2];
      assert DigitValue(PosText(a.pos)[2]) == a.pos % 3 && DigitValue(PosText(b.pos)[2]) == b.pos % 3;
    }
  }

  /** What stands on the buttons; cell (i, k) of the board is named by i, a zero and k. */
  lemma ButtonTexts(n: nat, pos: nat)
    requires pos < 9
    ensures Show(YesId(n)) == "confm_" + Render(n) + "_y" && Show(NoId(n)) == "confm_" + Render(n) + "_n"
    ensures Show(CellId(pos, n)) ==
              "p_" + ["000", "001", "002", "100", "101", "102", "200", "201", "202"][pos] + "_" + Render(n)
  {
    DigitsInOrder(pos % 3);
  }

  // ------------------------------------------------------------------ the list

  // A `ttt` and its `confirm_button`. `inits` counts the runs of `init_game`; before the first
  // one the cells have no ids. The messages are represented by their ids, zero if not set.
  datatype Entry = Entry(
    uid: nat, player1: Player, player2: Player, yes: nat, no: nat,
    confirmed1: bool, confirmed2: bool, inits: nat, cells: seq<nat>, game: Game,
    gameMsg: nat, haveOrigin: bool, origin: nat)

  /** An identifier together with the entry it was made for. */
  datatype Minting = Minting(id: Ident, owner: nat)

  // The counter of `UniqueID` is the number of identifiers minted so far.
  datatype World = World(minted: seq<Minting>, entries: seq<Entry>)

  predicate Owns(minted: seq<Minting>, id: Ident, owner: nat) {
    0 < id.n <= |minted| && minted[id.n - 1] == Minting(id, owner)
  }

  predicate OwnsCells(minted: seq<Minting>, e: Entry) {
    |e.cells| == 9 && forall i :: 0 <= i < 9 ==> Owns(minted, CellId(i, e.cells[i]), e.uid)
  }

  predicate EntryOk(minted: seq<Minting>, e: Entry) {
    && e.player1 != e.player2
    && Owns(minted, Uid(e.uid), e.uid) && Owns(minted, YesId(e.yes), e.uid) && Owns(minted, NoId(e.no), e.uid)
    && e.inits <= 1 && Shaped(e.game) && e.game.player1 == e.player1 && e.game.player2 == e.player2
    && (e.inits == 0 ==> e.cells == [] && e.game == NewGame(e.player1, e.player2))
    && (e.inits == 1 ==> e.confirmed1 && e.confirmed2 && OwnsCells(minted, e))
  }

  predicate Numbered(minted: seq<Minting>) {
    forall k :: 0 <= k < |minted| ==> minted[k].id.n == k + 1
  }

  predicate EntriesOk(w: World) {
    forall i :: 0 <= i < |w.entries| ==> EntryOk(w.minted, w.entries[i])
  }

  predicate UidsDistinct(es: seq<Entry>) {
    forall i, j :: 0 <= i < j < |es| ==> es[i].uid != es[j].uid
  }

  /** Identifiers are numbered from 1 as they are minted, and every entry has its own. */
  predicate Inv(w: World) {
    Numbered(w.minted) && EntriesOk(w) && UidsDistinct(w.entries)
  }

  predicate DistinctMessages(w: World) {
    forall i, j :: 0 <= i < j < |w.entries| && w.entries[i].gameMsg != 0 ==>
      w.entries[i].gameMsg != w.entries[j].gameMsg
  }

  /** Whatever was minted at two different times has two different button ids. */
  lemma MintedDistinct(w: World, i: nat, j: nat)
    requires Inv(w) && i < j < |w.minted| && IsButton(w.minted[i].id) && IsButton(w.minted[j].id)
    ensures Show(w.minted[i].id) != Show(w.minted[j].id)
  {
    if Show(w.minted[i].id) == Show(w.minted[j].id) {
      ShowInjective(w.minted[i].id, w.minted[j].id);
    }
  }

  // ------------------------------------------------------------------ push_onto_list

  /** The order in which the constructor arguments are evaluated, which C++ leaves open. */
  datatype Order = Order(gameFirst: bool, yesFirst: bool)

  function UidUnder(next: nat, o: Order): nat { if o.gameFirst then next else next + 2 }

  function YesUnder(next: nat, o: Order): nat {
    (if o.gameFirst then next + 1 else next) + (if o.yesFirst then 0 else 1)
  }

  function NoUnder(next: nat, o: Order): nat {
    (if o.gameFirst then next + 1 else next) + (if o.yesFirst then 1 else 0)
  }

  function NewGame(p1: Player, p2: Player): Game {
    Game(p1, p2, 0, Idle, EmptyBoard(), InProgress, 0)
  }

  function NewEntry(next: nat, p1: Player, p2: Player, o: Order): Entry {
    Entry(UidUnder(next, o), p1, p2, YesUnder(next, o), NoUnder(next, o), false, false, 0, [],
          NewGame(p1, p2), 0, false, 0)
  }

  function ButtonMintings(e: Entry, yesFirst: bool): (ms: seq<Minting>)
    ensures |ms| == 2
  {
    if yesFirst then [Minting(YesId(e.yes), e.uid), Minting(NoId(e.no), e.uid)]
    else [Minting(NoId(e.no), e.uid), Minting(YesId(e.yes), e.uid)]
  }

  function EntryMintings(e: Entry, o: Order): (ms: seq<Minting>)
    ensures |ms| == 3
  {
    if o.gameFirst then [Minting(Uid(e.uid), e.uid)] + ButtonMintings(e, o.yesFirst)
    else ButtonMintings(e, o.yesFirst) + [Minting(Uid(e.uid), e.uid)]
  }

  function Push(w: World, p1: Player, p2: Player, o: Order): World {
    var e := NewEntry(|w.minted| + 1, p1, p2, o);
    World(w.minted + EntryMintings(e, o), w.entries + [e])
  }

  // ------------------------------------------------------------------ set_origin

  function SetOriginFrom(w: World, i: nat, msg: nat, id: nat): World
    decreases |w.entries| - i
  {
    if i >= |w.entries| then w
    else if w.entries[i].uid == id && !w.entries[i].haveOrigin then
      SetOriginFrom(w.(entries := w.entries[i := w.entries[i].(haveOrigin := true, origin := msg)]), i + 1, msg, id)
    else SetOriginFrom(w, i + 1, msg, id)
  }

  // ------------------------------------------------------------------ on_confirm_click

  /** How the body of a loop over the list ends. */
  datatype Loop = Continue(w: World) | Return(w: World)

  /** The loop over the entries from i on, which the body may leave for good. */
  function ForEach(w: World, i: nat, n: nat, body: (World, nat) -> Loop): World
    decreases n - i
  {
    if i >= n then w
    else
      match body(w, i)
      case Return(w') => w'
      case Continue(w') => ForEach(w', i + 1, n, body)
  }

  /** Entries the body does nothing to are passed, unless it gives up at one of them. */
  lemma {:induction false} ForEachPasses(w: World, i: nat, t: nat, n: nat, body: (World, nat) -> Loop)
    requires i <= t <= n && forall k :: i <= k < t ==> body(w, k) == Continue(w) || body(w, k) == Return(w)
    ensures ForEach(w, i, n, body) ==
              if forall k :: i <= k < t ==> body(w, k) == Continue(w) then ForEach(w, t, n, body) else w
    decreases t - i
  {
    if i < t {
      ForEachPasses(w, i + 1, t, n, body);
    }
  }

  function PlayerOf(e: Entry, user: Player): nat {
    if user == e.player2 then 2 else if user == e.player1 then 1 else 0
  }

  function Confirmed(e: Entry, player: nat): bool {
    if player == 1 then e.confirmed1 else e.confirmed2
  }

  function SetConfirmed(e: Entry, player: nat): Entry {
    if player == 1 then e.(confirmed1 := true) else e.(confirmed2 := true)
  }

  function CellMintings(next: nat, owner: nat): (ms: seq<Minting>)
    ensures |ms| == 9
  {
    seq(9, i requires 0 <= i < 9 => Minting(CellId(i, next + i), owner))
  }

  // `init_game`, which resets neither the result nor the number of turns.
  function InitGame(e: Entry, next: nat): Entry {
    e.(inits := e.inits + 1, cells := seq(9, i requires 0 <= i < 9 => next + i),
       game := Start(e.game.player1, e.game.player2).(result := e.game.result, turns := e.game.turns))
  }

  function PressYes(w: World, i: nat, player: nat): World
    requires i < |w.entries|
  {
    var e := SetConfirmed(w.entries[i], player);
    if Confirmed(e, if player == 1 then 2 else 1) then
      World(w.minted + CellMintings(|w.minted| + 1, e.uid), w.entries[i := InitGame(e, |w.minted| + 1)])
    else w.(entries := w.entries[i := e])
  }

  function PressNo(w: World, i: nat, player: nat): World
    requires i < |w.entries|
  {
    w.(entries := w.entries[i := SetConfirmed(w.entries[i], player)])
  }

  function ConfirmEntry(w: World, i: nat, user: Player, custom: string): Loop {
    if i >= |w.entries| then Continue(w)
    else
      var e := w.entries[i];
      var player := PlayerOf(e, user);
      if player == 0 then Return(w)
      else if custom == Show(YesId(e.yes)) && Confirmed(e, player) then Return(w)
      else
        var w' := if custom == Show(YesId(e.yes)) then PressYes(w, i, player) else w;
        if custom == Show(NoId(e.no)) && Confirmed(w'.entries[i], player) then Return(w')
        else Continue(if custom == Show(NoId(e.no)) then PressNo(w', i, player) else w')
  }

  function ConfirmBody(user: Player, custom: string): (World, nat) -> Loop {
    (w: World, i: nat) => ConfirmEntry(w, i, user, custom)
  }

  function Confirm(w: World, user: Player, custom: string): World {
    ForEach(w, 0, |w.entries|, ConfirmBody(user, custom))
  }

  // ------------------------------------------------------------------ on_ttt_interaction

  function CellName(e: Entry, c: nat): string {
    if c < |e.cells| then Show(CellId(c, e.cells[c])) else ""
  }

  datatype Hit = Hit(board: seq<Cell>, interrupted: bool)

  /** The double loop over the cells, from cell c on. */
  function HitFrom(e: Entry, h: Hit, c: nat, custom: string): (h': Hit)
    requires |h.board| == 9
    ensures |h'.board| == 9
    decreases 9 - c
  {
    if c >= 9 then h
    else if custom != CellName(e, c) then HitFrom(e, h, c + 1, custom)
    else if h.board[c].status != Idle then HitFrom(e, h.(interrupted := true), c + 1, custom)
    else HitFrom(e, h.(board := Place(h.board, c, e.game.mark)), c + 1, custom)
  }

  function ClickEntry(w: World, i: nat, user: Player, msg: nat, custom: string): Loop {
    if i >= |w.entries| || !Shaped(w.entries[i].game) then Continue(w)
    else
      var e := w.entries[i];
      if msg != e.gameMsg || user != e.game.turn then Continue(w)
      else
        var h := HitFrom(e, Hit(e.game.board, false), 0, custom);
        if h.interrupted then Return(w.(entries := w.entries[i := e.(game := e.game.(board := h.board))]))
        else Continue(w.(entries := w.entries[i := e.(game := SwapTurn(FetchWinner(e.game.(board := h.board))))]))
  }

  function ClickBody(user: Player, msg: nat, custom: string): (World, nat) -> Loop {
    (w: World, i: nat) => ClickEntry(w, i, user, msg, custom)
  }

  function ClickOn(w: World, user: Player, msg: nat, custom: string): World {
    ForEach(w, 0, |w.entries|, ClickBody(user, msg, custom))
  }

  // ------------------------------------------------------------------ pushing and remembering

  lemma OwnsLater(minted: seq<Minting>, more: seq<Minting>, id: Ident, owner: nat)
    requires Owns(minted, id, owner)
    ensures Owns(minted + more, id, owner)
  {
  }

  lemma EntryLater(minted: seq<Minting>, more: seq<Minting>, e: Entry)
    requires EntryOk(minted, e)
    ensures EntryOk(minted + more, e)
  {
    OwnsLater(minted, more, Uid(e.uid), e.uid);
    OwnsLater(minted, more, YesId(e.yes), e.uid);
    OwnsLater(minted, more, NoId(e.no), e.uid);
    if e.inits == 1 {
      forall i | 0 <= i < 9 ensures Owns(minted + more, CellId(i, e.cells[i]), e.uid) {
        OwnsLater(minted, more, CellId(i, e.cells[i]), e.uid);
      }
    }
  }

  lemma NewEntryOk(w: World, p1: Player, p2: Player, o: Order)
    requires Numbered(w.minted) && p1 != p2
    ensures EntryOk(Push(w, p1, p2, o).minted, NewEntry(|w.minted| + 1, p1, p2, o))
    ensures Numbered(Push(w, p1, p2, o).minted)
    ensures var w' := Push(w, p1, p2, o); w.minted <= w'.minted
  {
  }

  lemma PushKeeps(w: World, p1: Player, p2: Player, o: Order)
    requires Inv(w) && p1 != p2
    ensures Inv(Push(w, p1, p2, o)) && (DistinctMessages(w) ==> DistinctMessages(Push(w, p1, p2, o)))
    ensures var es := Push(w, p1, p2, o).entries;
            && |es| == |w.entries| + 1 && es[..|w.entries|] == w.entries
            && var e := es[|w.entries|];
               && e.player1 == p1 && e.player2 == p2 && !e.confirmed1 && !e.confirmed2 && e.inits == 0
               && e.gameMsg == 0 && !e.haveOrigin && forall i :: 0 <= i < |w.entries| ==> w.entries[i].uid != e.uid
  {
    var w', e := Push(w, p1, p2, o), NewEntry(|w.minted| + 1, p1, p2, o);
    NewEntryOk(w, p1, p2, o);
    EntriesLater(w, w'.minted);
    AppendDistinct(w, e);
    assert w'.entries == w.entries + [e];
    assert forall i :: 0 <= i < |w.entries| ==> w'.entries[i].uid != w'.entries[|w.entries|].uid;
    assert forall i :: 0 <= i < |w.entries| ==> w'.entries[i] == w.entries[i];
  }

  lemma EntriesLater(w: World, minted: seq<Minting>)
    requires EntriesOk(w) && w.minted <= minted
    ensures forall i :: 0 <= i < |w.entries| ==> EntryOk(minted, w.entries[i])
  {
    assert minted == w.minted + minted[|w.minted|..];
    forall i | 0 <= i < |w.entries| ensures EntryOk(minted, w.entries[i]) {
      EntryLater(w.minted, minted[|w.minted|..], w.entries[i]);
    }
  }

  lemma AppendDistinct(w: World, e: Entry)
    requires Inv(w) && e.uid > |w.minted|
    ensures UidsDistinct(w.entries + [e])
  {
    forall i | 0 <= i < |w.entries| ensures w.entries[i].uid <= |w.minted| {
      assert EntryOk(w.minted, w.entries[i]);
    }
  }

  function WithOrigin(e: Entry, msg: nat, id: nat): Entry {
    if e.uid == id && !e.haveOrigin then e.(haveOrigin := true, origin := msg) else e
  }

  /** `set_origin` changes the one entry with that uid, and that one only if it has no origin yet. */
  lemma {:induction false} OriginExactly(w: World, i: nat, msg: nat, id: nat)
    requires i <= |w.entries|
    ensures var w' := SetOriginFrom(w, i, msg, id);
            && w'.minted == w.minted && |w'.entries| == |w.entries|
            && forall j :: 0 <= j < |w.entries| ==>
                 w'.entries[j] == if j >= i then WithOrigin(w.entries[j], msg, id) else w.entries[j]
    decreases |w.entries| - i
  {
    if i < |w.entries| {
      var e := w.entries[i];
      if e.uid == id && !e.haveOrigin {
        OriginExactly(w.(entries := w.entries[i := e.(haveOrigin := true, origin := msg)]), i + 1, msg, id);
      } else {
        OriginExactly(w, i + 1, msg, id);
      }
    }
  }

  /** With distinct uids at most one entry changes, and a second call changes nothing. */
  lemma OriginOnce(w: World, msg: nat, id: nat, again: nat)
    requires Inv(w)
    ensures |SetOriginFrom(w, 0, msg, id).entries| == |w.entries|
    ensures forall i, j :: 0 <= i < j < |w.entries| ==>
              || SetOriginFrom(w, 0, msg, id).entries[i] == w.entries[i]
              || SetOriginFrom(w, 0, msg, id).entries[j] == w.entries[j]
    ensures SetOriginFrom(SetOriginFrom(w, 0, msg, id), 0, again, id) == SetOriginFrom(w, 0, msg, id)
  {
    OriginExactly(w, 0, msg, id);
    var w' := SetOriginFrom(w, 0, msg, id);
    OriginExactly(w', 0, again, id);
    assert SetOriginFrom(w', 0, again, id).entries == w'.entries;
  }

  // ------------------------------------------------------------------ confirming

  predicate Named(e: Entry, custom: string) {
    custom == Show(YesId(e.yes)) || custom == Show(NoId(e.no))
  }

  /** The button of at most one entry carries a given id, and "Yes" and "No" differ. */
  lemma ButtonsDiffer(w: World, i: nat, j: nat, custom: string)
    requires Inv(w) && i < |w.entries| && j < |w.entries|
    requires Named(w.entries[i], custom) && Named(w.entries[j], custom)
    ensures i == j
    ensures !(custom == Show(YesId(w.entries[i].yes)) && custom == Show(NoId(w.entries[i].no)))
  {
    var e, f := w.entries[i], w.entries[j];
    assert EntryOk(w.minted, e) && EntryOk(w.minted, f);
    var a := if custom == Show(YesId(e.yes)) then YesId(e.yes) else NoId(e.no);
    var b := if custom == Show(YesId(f.yes)) then YesId(f.yes) else NoId(f.no);
    ShowInjective(a, b);
    if custom == Show(YesId(e.yes)) && custom == Show(NoId(e.no)) {
      ShowInjective(YesId(e.yes), NoId(e.no));
    }
  }

  /** Everybody listed from entry i up to entry t has the user for a player. */
  predicate Reaches(w: World, i: nat, t: nat, user: Player) {
    forall k :: i <= k < t && k < |w.entries| ==> PlayerOf(w.entries[k], user) != 0
  }

  function Pressed(w: World, t: nat, user: Player, custom: string): World
    requires t < |w.entries|
  {
    var e := w.entries[t];
    if PlayerOf(e, user) == 0 || Confirmed(e, PlayerOf(e, user)) then w
    else if custom == Show(YesId(e.yes)) then PressYes(w, t, PlayerOf(e, user))
    else PressNo(w, t, PlayerOf(e, user))
  }

  lemma ConfirmPasses(w: World, i: nat, user: Player, custom: string)
    requires i < |w.entries| && !Named(w.entries[i], custom)
    ensures ConfirmBody(user, custom)(w, i) == if PlayerOf(w.entries[i], user) == 0 then Return(w) else Continue(w)
  {
  }

  lemma NothingNamed(w: World, i: nat, user: Player, custom: string)
    requires i <= |w.entries| && forall k :: i <= k < |w.entries| ==> !Named(w.entries[k], custom)
    ensures ForEach(w, i, |w.entries|, ConfirmBody(user, custom)) == w
  {
    forall k | i <= k < |w.entries|
      ensures ConfirmBody(user, custom)(w, k) == Continue(w) || ConfirmBody(user, custom)(w, k) == Return(w)
    {
      ConfirmPasses(w, k, user, custom);
    }
    ForEachPasses(w, i, |w.entries|, |w.entries|, ConfirmBody(user, custom));
  }

  lemma ConfirmThere(w: World, t: nat, user: Player, custom: string)
    requires Inv(w) && t < |w.entries| && Named(w.entries[t], custom)
    ensures var end := ConfirmBody(user, custom)(w, t);
            (end == Return(w) && Pressed(w, t, user, custom) == w) || end == Continue(Pressed(w, t, user, custom))
  {
    ButtonsDiffer(w, t, t, custom);
  }

  lemma NamedOnce(w: World, t: nat, user: Player, custom: string)
    requires Inv(w) && t < |w.entries| && Named(w.entries[t], custom)
    ensures forall k :: 0 <= k < |w.entries| && k != t ==> !Named(w.entries[k], custom)
    ensures forall k :: 0 <= k < |w.entries| && k != t ==>
              k < |Pressed(w, t, user, custom).entries| && !Named(Pressed(w, t, user, custom).entries[k], custom)
  {
    forall k | 0 <= k < |w.entries| && k != t ensures !Named(w.entries[k], custom) {
      if Named(w.entries[k], custom) {
        ButtonsDiffer(w, k, t, custom);
      }
    }
    PressedElsewhere(w, t, user, custom);
  }

  // A loop that gives up at the entries in `stops`, acts at entry t, and does nothing behind it.
  lemma ForEachActs(w: World, w': World, t: nat, n: nat, body: (World, nat) -> Loop, stops: nat -> bool)
    requires t < n && forall k: nat :: k < t ==> body(w, k) == if stops(k) then Return(w) else Continue(w)
    requires (body(w, t) == Return(w) && w' == w) || body(w, t) == Continue(w')
    requires ForEach(w', t + 1, n, body) == w'
    ensures ForEach(w, 0, n, body) == if exists k: nat :: k < t && stops(k) then w else w'
  {
    ForEachPasses(w, 0, t, n, body);
    if k: nat :| k < t && stops(k) {
      assert body(w, k) != Continue(w);
    }
  }

  lemma ConfirmBefore(w: World, t: nat, user: Player, custom: string)
    requires Inv(w) && t < |w.entries| && Named(w.entries[t], custom)
    ensures forall k: nat :: k < t ==>
              ConfirmBody(user, custom)(w, k) == if PlayerOf(w.entries[k], user) == 0 then Return(w) else Continue(w)
  {
    NamedOnce(w, t, user, custom);
    forall k: nat | k < t
      ensures ConfirmBody(user, custom)(w, k) == if PlayerOf(w.entries[k], user) == 0 then Return(w) else Continue(w)
    {
      ConfirmPasses(w, k, user, custom);
    }
  }

  lemma ConfirmBehind(w: World, w': World, t: nat, user: Player, custom: string)
    requires t < |w.entries| && |w'.entries| == |w.entries|
    requires forall k :: 0 <= k < |w.entries| && k != t ==>
               !Named(w.entries[k], custom) && w'.entries[k] == w.entries[k]
    ensures ForEach(w', t + 1, |w.entries|, ConfirmBody(user, custom)) == w'
  {
    NothingNamed(w', t + 1, user, custom);
  }

  /** The entry whose button was pressed reacts exactly if the handler reaches it. */
  lemma ConfirmReaches(w: World, t: nat, user: Player, custom: string)
    requires Inv(w) && t < |w.entries| && Named(w.entries[t], custom)
    ensures Confirm(w, user, custom) == if Reaches(w, 0, t, user) then Pressed(w, t, user, custom) else w
  {
    ConfirmBefore(w, t, user, custom);
    ConfirmThere(w, t, user, custom);
    NamedOnce(w, t, user, custom);
    PressedElsewhere(w, t, user, custom);
    ConfirmBehind(w, Pressed(w, t, user, custom), t, user, custom);
    var stops := (k: nat) => k < |w.entries| && PlayerOf(w.entries[k], user) == 0;
    ForEachActs(w, Pressed(w, t, user, custom), t, |w.entries|, ConfirmBody(user, custom), stops);
    if !Reaches(w, 0, t, user) {
      var k: nat :| k < t && PlayerOf(w.entries[k], user) == 0;
      assert stops(k);
    }
  }

  /**
    A press on the button of entry t does what it should if and only if the user is a player
    of every entry listed before t: at the first entry of other players the handler gives up.
   */
  lemma ConfirmExactly(w: World, t: nat, user: Player, custom: string)
    requires Inv(w) && t < |w.entries| && Named(w.entries[t], custom)
    ensures Confirm(w, user, custom) == Pressed(w, t, user, custom) <==>
              Pressed(w, t, user, custom) == w || Reaches(w, 0, t, user)
    ensures Confirm(w, user, custom) == w || Confirm(w, user, custom) == Pressed(w, t, user, custom)
  {
    ConfirmReaches(w, t, user, custom);
  }

  /** What a press does to its entry: flags rise, and a board appears on the second player's "Yes". */
  lemma PressedEntry(w: World, t: nat, user: Player, custom: string)
    requires Inv(w) && t < |w.entries| && Named(w.entries[t], custom)
    ensures var e, e' := w.entries[t], Pressed(w, t, user, custom).entries[t];
            && (e.confirmed1 ==> e'.confirmed1) && (e.confirmed2 ==> e'.confirmed2)
            && (user == e.player1 ==> e'.confirmed1 && e'.confirmed2 == e.confirmed2)
            && (user == e.player2 ==> e'.confirmed2 && e'.confirmed1 == e.confirmed1)
            && (user != e.player1 && user != e.player2 ==> e' == e)
            && (e'.inits != e.inits <==>
                  && custom == Show(YesId(e.yes)) && PlayerOf(e, user) != 0 && !Confirmed(e, PlayerOf(e, user))
                  && e'.confirmed1 && e'.confirmed2)
            && (e'.inits != e.inits ==> e.inits == 0 && e'.inits == 1)
    ensures forall k :: 0 <= k < |w.entries| && k != t ==> Pressed(w, t, user, custom).entries[k] == w.entries[k]
  {
    assert EntryOk(w.minted, w.entries[t]);
  }

  /** A repeated press by the same player changes nothing. */
  lemma RepeatedPress(w: World, t: nat, user: Player, custom: string)
    requires Inv(w) && t < |w.entries| && Named(w.entries[t], custom)
    requires PlayerOf(w.entries[t], user) != 0 && Confirmed(w.entries[t], PlayerOf(w.entries[t], user))
    ensures Confirm(w, user, custom) == w
  {
    ConfirmReaches(w, t, user, custom);
  }

  /** Declining does not prevent a game: only the second press decides, the first may be a "No". */
  lemma SecondPressDecides(w: World, t: nat, first: Player, second: Player, c1: string, c2: string)
    requires Inv(w) && t < |w.entries| && Named(w.entries[t], c1) && Named(w.entries[t], c2)
    requires var e := w.entries[t];
             !e.confirmed1 && !e.confirmed2 && {first, second} == {e.player1, e.player2}
    ensures var w1 := Pressed(w, t, first, c1);
            var w2 := Pressed(w1, t, second, c2);
            w2.entries[t].inits == 1 <==> c2 == Show(YesId(w.entries[t].yes))
  {
    var e := w.entries[t];
    assert EntryOk(w.minted, e);
    assert e.inits == 0;
    assert first in {e.player1, e.player2} && second in {e.player1, e.player2};
    assert e.player1 in {first, second} && e.player2 in {first, second};
  }

  lemma PressedKeeps(w: World, t: nat, user: Player, custom: string)
    requires Inv(w) && t < |w.entries| && Named(w.entries[t], custom)
    ensures Inv(Pressed(w, t, user, custom))
    ensures DistinctMessages(w) ==> DistinctMessages(Pressed(w, t, user, custom))
  {
    PressedOwn(w, t, user, custom);
    PressedElsewhere(w, t, user, custom);
    EntriesLater(w, Pressed(w, t, user, custom).minted);
  }

  lemma PressedElsewhere(w: World, t: nat, user: Player, custom: string)
    requires Inv(w) && t < |w.entries|
    ensures var w' := Pressed(w, t, user, custom);
            && w.minted <= w'.minted && Numbered(w'.minted)
            && |w'.entries| == |w.entries|
            && (forall i :: 0 <= i < |w.entries| && i != t ==> w'.entries[i] == w.entries[i])
            && w'.entries[t].uid == w.entries[t].uid && w'.entries[t].gameMsg == w.entries[t].gameMsg
  {
  }

  lemma NewCells(w: World, e: Entry)
    requires Numbered(w.minted)
    ensures OwnsCells(w.minted + CellMintings(|w.minted| + 1, e.uid), InitGame(e, |w.minted| + 1))
  {
    var more := CellMintings(|w.minted| + 1, e.uid);
    var e' := InitGame(e, |w.minted| + 1);
    forall i | 0 <= i < 9 ensures Owns(w.minted + more, CellId(i, e'.cells[i]), e.uid) {
      assert (w.minted + more)[|w.minted| + i] == more[i];
    }
  }

  lemma PressedOwn(w: World, t: nat, user: Player, custom: string)
    requires Inv(w) && t < |w.entries|
    ensures EntryOk(Pressed(w, t, user, custom).minted, Pressed(w, t, user, custom).entries[t])
  {
    var e := w.entries[t];
    assert EntryOk(w.minted, e);
    EntryLater(w.minted, CellMintings(|w.minted| + 1, e.uid), e);
    NewCells(w, e);
    NewCells(w, SetConfirmed(e, 1));
    NewCells(w, SetConfirmed(e, 2));
  }

  lemma ConfirmKeeps(w: World, user: Player, custom: string)
    requires Inv(w)
    ensures Inv(Confirm(w, user, custom))
    ensures DistinctMessages(w) ==> DistinctMessages(Confirm(w, user, custom))
  {
    if t :| 0 <= t < |w.entries| && Named(w.entries[t], custom) {
      ConfirmReaches(w, t, user, custom);
      PressedKeeps(w, t, user, custom);
    } else {
      NothingNamed(w, 0, user, custom);
    }
  }

  // ------------------------------------------------------------------ clicking on a board

  predicate NamesCell(e: Entry, custom: string, c: nat) {
    c < 9 && CellName(e, c) == custom
  }

  lemma CellsDiffer(minted: seq<Minting>, e: Entry, c: nat, d: nat)
    requires OwnsCells(minted, e) && c < 9 && d < 9 && CellName(e, c) == CellName(e, d)
    ensures c == d
  {
    ShowInjective(CellId(c, e.cells[c]), CellId(d, e.cells[d]));
  }

  lemma {:induction false} HitNone(e: Entry, h: Hit, c: nat, custom: string)
    requires |h.board| == 9 && forall k :: c <= k < 9 ==> !NamesCell(e, custom, k)
    ensures HitFrom(e, h, c, custom) == h
    decreases 9 - c
  {
    if c < 9 {
      assert !NamesCell(e, custom, c);
      HitNone(e, h, c + 1, custom);
    }
  }

  lemma {:induction false} HitSkips(e: Entry, h: Hit, c: nat, t: nat, custom: string)
    requires |h.board| == 9 && c <= t < 9 && forall k :: c <= k < t ==> !NamesCell(e, custom, k)
    ensures HitFrom(e, h, c, custom) == HitFrom(e, h, t, custom)
    decreases t - c
  {
    if c < t {
      assert !NamesCell(e, custom, c);
      HitSkips(e, h, c + 1, t, custom);
    }
  }

  /** The double loop finds the one cell with the clicked id. */
  lemma HitExactly(minted: seq<Minting>, e: Entry, custom: string, t: nat)
    requires OwnsCells(minted, e) && Shaped(e.game) && NamesCell(e, custom, t)
    ensures HitFrom(e, Hit(e.game.board, false), 0, custom) ==
              if e.game.board[t].status == Idle then Hit(Place(e.game.board, t, e.game.mark), false)
              else Hit(e.game.board, true)
  {
    forall k | 0 <= k < 9 && k != t ensures !NamesCell(e, custom, k) {
      if NamesCell(e, custom, k) {
        CellsDiffer(minted, e, k, t);
      }
    }
    var h := Hit(e.game.board, false);
    HitSkips(e, h, 0, t, custom);
    HitNone(e,
            if h.board[t].status == Idle then Hit(Place(h.board, t, e.game.mark), false) else h.(interrupted := true),
            t + 1, custom);
  }

  /** The first cell from c on with the clicked id, or 9. */
  function FindCell(e: Entry, custom: string, c: nat): (t: nat)
    requires c <= 9
    ensures c <= t <= 9 && (t < 9 ==> NamesCell(e, custom, t))
    ensures forall k :: c <= k < t ==> !NamesCell(e, custom, k)
    decreases 9 - c
  {
    if c < 9 && !NamesCell(e, custom, c) then FindCell(e, custom, c + 1) else c
  }

  /** What a click on the game's message does to the game. */
  function Clicked(e: Entry, user: Player, custom: string): Game
    requires Shaped(e.game)
  {
    var c := FindCell(e, custom, 0);
    if user != e.game.turn then e.game
    else if c == 9 then SwapTurn(FetchWinner(e.game))
    else if e.game.board[c].status == Idle then Press(e.game, c)
    else e.game
  }

  lemma HitMeans(minted: seq<Minting>, e: Entry, custom: string)
    requires OwnsCells(minted, e) && Shaped(e.game)
    ensures var c, h := FindCell(e, custom, 0), HitFrom(e, Hit(e.game.board, false), 0, custom);
            h == if c == 9 then Hit(e.game.board, false)
                 else if e.game.board[c].status == Idle then Hit(Place(e.game.board, c, e.game.mark), false)
                 else Hit(e.game.board, true)
  {
    var c := FindCell(e, custom, 0);
    if c < 9 {
      HitExactly(minted, e, custom, c);
    } else {
      HitNone(e, Hit(e.game.board, false), 0, custom);
    }
  }

  function WithGame(w: World, t: nat, g: Game): World
    requires t < |w.entries|
  {
    w.(entries := w.entries[t := w.entries[t].(game := g)])
  }

  lemma WithSameGame(w: World, t: nat, g: Game)
    requires t < |w.entries|
    ensures WithGame(w, t, g) == w <==> g == w.entries[t].game
  {
    var e := w.entries[t];
    assert WithGame(w, t, g).entries[t].game == g;
    assert e.(game := e.game) == e && w.entries[t := e] == w.entries;
  }

  lemma ClickThere(w: World, t: nat, user: Player, msg: nat, custom: string)
    requires Inv(w) && t < |w.entries| && w.entries[t].gameMsg == msg && user != 0
    ensures var w' := WithGame(w, t, Clicked(w.entries[t], user, custom));
            var end := ClickBody(user, msg, custom)(w, t);
            (end == Return(w') && w' == w) || end == Continue(w')
  {
    var e := w.entries[t];
    assert EntryOk(w.minted, e);
    WithSameGame(w, t, e.game);
    if user == e.game.turn {
      HitMeans(w.minted, e, custom);
      assert e.game.(board := e.game.board) == e.game;
    }
  }

  /** Only the entry with the clicked message is touched, and there at most one cell is marked. */
  lemma ClickExactly(w: World, t: nat, user: Player, msg: nat, custom: string)
    requires Inv(w) && DistinctMessages(w) && msg != 0 && user != 0
    requires t < |w.entries| && w.entries[t].gameMsg == msg
    ensures ClickOn(w, user, msg, custom) == WithGame(w, t, Clicked(w.entries[t], user, custom))
  {
    var n, body := |w.entries|, ClickBody(user, msg, custom);
    var w' := WithGame(w, t, Clicked(w.entries[t], user, custom));
    forall k | 0 <= k < t ensures body(w, k) == Continue(w) {
      assert w.entries[k].gameMsg != msg;
    }
    ForEachPasses(w, 0, t, n, body);
    ClickThere(w, t, user, msg, custom);
    forall k | t + 1 <= k < n ensures body(w', k) == Continue(w') {
      assert w'.entries[k] == w.entries[k] && w.entries[k].gameMsg != msg;
    }
    ForEachPasses(w', t + 1, n, n, body);
  }

  lemma ClickNowhere(w: World, user: Player, msg: nat, custom: string)
    requires forall k :: 0 <= k < |w.entries| ==> w.entries[k].gameMsg != msg
    ensures ClickOn(w, user, msg, custom) == w
  {
    var body := ClickBody(user, msg, custom);
    forall k | 0 <= k < |w.entries| ensures body(w, k) == Continue(w) {
    }
    ForEachPasses(w, 0, |w.entries|, |w.entries|, body);
  }

  lemma ClickedShape(e: Entry, user: Player, custom: string)
    requires Shaped(e.game)
    ensures var g := Clicked(e, user, custom);
            && Shaped(g) && g.player1 == e.game.player1 && g.player2 == e.game.player2
            && (g == e.game || g.turns == e.game.turns + 1)
  {
    var c := FindCell(e, custom, 0);
    WinnerFetched(e.game);
    if c < 9 {
      WinnerFetched(e.game.(board := Place(e.game.board, c, e.game.mark)));
    }
  }

  predicate OnTakenCell(e: Entry, custom: string)
    requires Shaped(e.game)
  {
    exists c :: 0 <= c < 9 && NamesCell(e, custom, c) && e.game.board[c].status != Idle
  }

  lemma TakesTurn(g: Game)
    requires Shaped(g)
    ensures SwapTurn(FetchWinner(g)).turns == g.turns + 1
  {
    WinnerFetched(g);
  }

  lemma ClickedTakesTurn(e: Entry, user: Player, custom: string)
    requires Shaped(e.game) && user == e.game.turn
    ensures var c := FindCell(e, custom, 0);
            if c < 9 && e.game.board[c].status != Idle then Clicked(e, user, custom) == e.game
            else Clicked(e, user, custom).turns == e.game.turns + 1
  {
    var c := FindCell(e, custom, 0);
    TakesTurn(e.game);
    if c < 9 {
      TakesTurn(e.game.(board := Place(e.game.board, c, e.game.mark)));
    }
  }

  lemma ClickedIgnored(minted: seq<Minting>, e: Entry, user: Player, custom: string)
    requires EntryOk(minted, e) && user != 0
    ensures Clicked(e, user, custom) == e.game <==> user != e.game.turn || OnTakenCell(e, custom)
  {
    if user == e.game.turn {
      assert OwnsCells(minted, e);
      var c := FindCell(e, custom, 0);
      ClickedTakesTurn(e, user, custom);
      forall d | 0 <= d < 9 && NamesCell(e, custom, d) ensures d == c {
        CellsDiffer(minted, e, c, d);
      }
    }
  }

  /**
    The handler does not ask whether the game is over: a click on its message leaves it alone
    only if it is not the user's turn or the cell is taken.
   */
  lemma ClickIgnoredExactly(w: World, t: nat, user: Player, msg: nat, custom: string)
    requires Inv(w) && DistinctMessages(w) && msg != 0 && user != 0
    requires t < |w.entries| && w.entries[t].gameMsg == msg && Shaped(w.entries[t].game)
    ensures ClickOn(w, user, msg, custom) == w <==>
              user != w.entries[t].game.turn || OnTakenCell(w.entries[t], custom)
  {
    ClickExactly(w, t, user, msg, custom);
    ClickedIgnored(w.minted, w.entries[t], user, custom);
    WithSameGame(w, t, Clicked(w.entries[t], user, custom));
  }

  /** A click whose id is on no cell still takes a turn, and the marks no longer match the turns. */
  lemma MissBreaksGame(g: Game)
    requires Correct(g)
    ensures !Correct(SwapTurn(FetchWinner(g)))
  {
    WinnerFetched(g);
    CountSame(FetchWinner(g).board, g.board, X);
    CountSame(FetchWinner(g).board, g.board, O);
  }

  /**
    A click that a correct game survives: it is not the user's turn, or the id is on a taken
    cell, or it is on a cell and the game is in progress.
   */
  predicate Spared(e: Entry, user: Player, custom: string) {
    var c := FindCell(e, custom, 0);
    && Shaped(e.game)
    && (user != e.game.turn || (c < 9 && (e.game.board[c].status != Idle || e.game.result == InProgress)))
  }

  /** A correct game, finished or not, stays correct under a click exactly if it survives it in this sense. */
  lemma ClickCorrectExactly(e: Entry, user: Player, custom: string)
    requires Correct(e.game)
    ensures Correct(Clicked(e, user, custom)) <==> Spared(e, user, custom)
  {
    var c := FindCell(e, custom, 0);
    MissBreaksGame(e.game);
    if c < 9 && e.game.board[c].status == Idle {
      if e.game.result == InProgress {
        PressCorrect(e.game, c);
      } else {
        FinishedBreaks(e.game, c);
      }
    }
  }

  /** So a finished game stays correct exactly under the clicks that leave it alone. */
  lemma FinishedCorrectExactly(e: Entry, user: Player, custom: string)
    requires Correct(e.game) && e.game.result != InProgress
    ensures Correct(Clicked(e, user, custom)) <==> Clicked(e, user, custom) == e.game
  {
    ClickCorrectExactly(e, user, custom);
    if user == e.game.turn {
      ClickedTakesTurn(e, user, custom);
    }
  }

  lemma WithGameKeeps(w: World, t: nat, g: Game)
    requires Inv(w) && DistinctMessages(w) && t < |w.entries|
    requires EntryOk(w.minted, w.entries[t].(game := g))
    ensures Inv(WithGame(w, t, g)) && DistinctMessages(WithGame(w, t, g))
  {
    var w' := WithGame(w, t, g);
    assert w'.entries[t] == w.entries[t].(game := g);
    forall i | 0 <= i < |w.entries|
      ensures EntryOk(w'.minted, w'.entries[i])
      ensures w'.entries[i].uid == w.entries[i].uid && w'.entries[i].gameMsg == w.entries[i].gameMsg
    {
      assert EntryOk(w.minted, w.entries[i]);
    }
  }

  lemma ClickKeeps(w: World, user: Player, msg: nat, custom: string)
    requires Inv(w) && DistinctMessages(w) && msg != 0 && user != 0
    ensures Inv(ClickOn(w, user, msg, custom)) && DistinctMessages(ClickOn(w, user, msg, custom))
  {
    if t :| 0 <= t < |w.entries| && w.entries[t].gameMsg == msg {
      var e := w.entries[t];
      assert EntryOk(w.minted, e);
      ClickExactly(w, t, user, msg, custom);
      ClickedShape(e, user, custom);
      ClickedNotStarted(w.minted, e, user, custom);
      WithGameKeeps(w, t, Clicked(e, user, custom));
    } else {
      ClickNowhere(w, user, msg, custom);
    }
  }

  // Before `init_game` it is nobody's turn.
  lemma ClickedNotStarted(minted: seq<Minting>, e: Entry, user: Player, custom: string)
    requires EntryOk(minted, e) && user != 0
    ensures e.inits == 0 ==> Clicked(e, user, custom) == e.game
  {
  }

  // ------------------------------------------------------------------ runs

  datatype Event =
    | Pushes(p1: Player, p2: Player, order: Order)
    | Remembers(msg: nat, id: nat)                     // the callback that calls set_origin
    | Presses(user: Player, msg: nat, custom: string)  // any button, in the message that shows it
    | Deploys(t: nat, msg: nat)                        // the callback that stores the game's message
    | Erases(t: nat)

  // Two players are different (main.cpp), users and messages have ids other than zero, and a
  // new message has an id of its own.
  predicate Possible(w: World, e: Event) {
    match e
    case Pushes(p1, p2, _) => p1 != p2
    case Deploys(t, msg) =>
      t < |w.entries| && msg != 0 && forall i :: 0 <= i < |w.entries| ==> w.entries[i].gameMsg != msg
    case Presses(user, msg, _) => user != 0 && msg != 0
    case Erases(t) => t < |w.entries|
    case _ => true
  }

  /** Every press of a button goes to both handlers, one after the other (main.cpp). */
  function ButtonPress(w: World, user: Player, msg: nat, custom: string): World {
    ClickOn(Confirm(w, user, custom), user, msg, custom)
  }

  function Next(w: World, e: Event): World
    requires Possible(w, e)
  {
    match e
    case Pushes(p1, p2, o) => Push(w, p1, p2, o)
    case Remembers(msg, id) => SetOriginFrom(w, 0, msg, id)
    case Presses(user, msg, custom) => ButtonPress(w, user, msg, custom)
    case Deploys(t, msg) => w.(entries := w.entries[t := w.entries[t].(gameMsg := msg)])
    case Erases(t) => w.(entries := w.entries[..t] + w.entries[t + 1..])
  }

  lemma ButtonPressKeeps(w: World, user: Player, msg: nat, custom: string)
    requires Inv(w) && DistinctMessages(w) && msg != 0 && user != 0
    ensures Inv(ButtonPress(w, user, msg, custom)) && DistinctMessages(ButtonPress(w, user, msg, custom))
  {
    ConfirmKeeps(w, user, custom);
    ClickKeeps(Confirm(w, user, custom), user, msg, custom);
  }

  /** A button of a board is no confirmation button: the first handler leaves the list alone. */
  lemma CellIsNoConfirmation(w: World, user: Player, id: Ident)
    requires Inv(w) && id.CellId? && id.pos < 9
    ensures Confirm(w, user, Show(id)) == w
  {
    forall k | 0 <= k < |w.entries| ensures !Named(w.entries[k], Show(id)) {
      var e := w.entries[k];
      if Show(id) == Show(YesId(e.yes)) {
        ShowInjective(id, YesId(e.yes));
      } else if Show(id) == Show(NoId(e.no)) {
        ShowInjective(id, NoId(e.no));
      }
    }
    NothingNamed(w, 0, user, Show(id));
  }

  lemma NextKeeps(w: World, e: Event)
    requires Inv(w) && DistinctMessages(w) && Possible(w, e)
    ensures Inv(Next(w, e)) && DistinctMessages(Next(w, e))
  {
    match e {
      case Pushes(p1, p2, o) => PushKeeps(w, p1, p2, o);
      case Remembers(msg, id) => OriginKeeps(w, msg, id);
      case Presses(user, msg, custom) => ButtonPressKeeps(w, user, msg, custom);
      case Deploys(t, msg) => assert EntryOk(w.minted, w.entries[t]);
      case Erases(t) => EraseKeeps(w, t);
    }
  }

  lemma OriginKeeps(w: World, msg: nat, id: nat)
    requires Inv(w) && DistinctMessages(w)
    ensures Inv(SetOriginFrom(w, 0, msg, id)) && DistinctMessages(SetOriginFrom(w, 0, msg, id))
  {
    OriginExactly(w, 0, msg, id);
    var w' := SetOriginFrom(w, 0, msg, id);
    forall i | 0 <= i < |w.entries|
      ensures EntryOk(w'.minted, w'.entries[i])
      ensures w'.entries[i].uid == w.entries[i].uid && w'.entries[i].gameMsg == w.entries[i].gameMsg
    {
      OriginKeepsEntry(w.minted, w.entries[i], msg, id);
    }
    OriginKeepsDistinct(w.entries, w'.entries);
  }

  lemma OriginKeepsEntry(minted: seq<Minting>, e: Entry, msg: nat, id: nat)
    requires EntryOk(minted, e)
    ensures EntryOk(minted, WithOrigin(e, msg, id))
  {
  }

  lemma OriginKeepsDistinct(es: seq<Entry>, fs: seq<Entry>)
    requires UidsDistinct(es) && |fs| == |es| && forall i :: 0 <= i < |es| ==> fs[i].uid == es[i].uid
    ensures UidsDistinct(fs)
  {
  }

  lemma EraseKeeps(w: World, t: nat)
    requires Inv(w) && DistinctMessages(w) && t < |w.entries|
    ensures var w' := w.(entries := w.entries[..t] + w.entries[t + 1..]);
            Inv(w') && DistinctMessages(w')
  {
    var es := w.entries[..t] + w.entries[t + 1..];
    forall i | 0 <= i < |es| ensures es[i] == w.entries[if i < t then i else i + 1] {
    }
  }
}
