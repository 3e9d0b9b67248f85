/** The functions of the bot that change the global list, proved against their specification. */
module Registry {
  import opened TicTacToe
  import opened GameList

  class Registry {
    var nextID: nat
    var list: seq<Entry>
    ghost var minted: seq<Minting>

    ghost function Abs(): World
      reads this
    {
      World(minted, list)
    }

    ghost predicate Valid()
      reads this
    {
      nextID == |minted| && Inv(Abs())
    }

    constructor ()
      ensures Valid() && Abs() == World([], [])
    {
      nextID, list, minted := 0, [], [];
    }

    /** The constructor of `UniqueID`; the minting says what the number is used for. */
    method NewId(ghost m: Minting) returns (n: nat)
      requires nextID == |minted|
      modifies `nextID, `minted
      ensures nextID == |minted| && n == nextID == old(nextID) + 1 && minted == old(minted) + [m]
    {
      nextID := nextID + 1;
      n := nextID;
      minted := minted + [m];
    }

    /** The two numbers of a `confirm_button`, drawn in either order. */
    method ConfirmButtonIds(ghost e: Entry, yesFirst: bool) returns (yes: nat, no: nat)
      requires nextID == |minted|
      modifies `nextID, `minted
      ensures nextID == |minted| && minted == old(minted) + ButtonMintings(e, yesFirst)
      ensures yes == old(nextID) + (if yesFirst then 1 else 2) && no == old(nextID) + (if yesFirst then 2 else 1)
    {
      if yesFirst {
        yes := NewId(Minting(YesId(e.yes), e.uid));
        no := NewId(Minting(NoId(e.no), e.uid));
      } else {
        no := NewId(Minting(NoId(e.no), e.uid));
        yes := NewId(Minting(YesId(e.yes), e.uid));
      }
    }

    /** The numbers of a new entry, in the order in which its parts are constructed. */
    method EntryIds(ghost e: Entry, o: Order) returns (uid: nat, yes: nat, no: nat)
      requires nextID == |minted|
      modifies `nextID, `minted
      ensures nextID == |minted| && minted == old(minted) + EntryMintings(e, o)
      ensures var next := old(nextID) + 1;
              uid == UidUnder(next, o) && yes == YesUnder(next, o) && no == NoUnder(next, o)
    {
      if o.gameFirst {
        uid := NewId(Minting(Uid(e.uid), e.uid));
        yes, no := ConfirmButtonIds(e, o.yesFirst);
      } else {
        yes, no := ConfirmButtonIds(e, o.yesFirst);
        uid := NewId(Minting(Uid(e.uid), e.uid));
      }
    }

    method PushOntoList(p1: Player, p2: Player, o: Order) returns (data: Entry)
      requires Valid() && p1 != p2
      modifies this
      ensures Valid() && Abs() == Push(old(Abs()), p1, p2, o) && list == old(list) + [data]
      ensures data.player1 == p1 && data.player2 == p2 && data.inits == 0 && data.gameMsg == 0
      ensures !data.confirmed1 && !data.confirmed2 && !data.haveOrigin
    {
      ghost var pushed := Push(Abs(), p1, p2, o);
      PushKeeps(Abs(), p1, p2, o);
      ghost var e := NewEntry(|minted| + 1, p1, p2, o);
      var uid, yes, no := EntryIds(e, o);
      data := Entry(uid, p1, p2, yes, no, false, false, 0, [], NewGame(p1, p2), 0, false, 0);
      list := list + [data];
      assert data == e && Abs() == pushed;
    }

    method SetOrigin(msg: nat, id: nat)
      requires Valid()
      modifies `list
      ensures Abs() == SetOriginFrom(old(Abs()), 0, msg, id)
    {
      var itr := 0;
      while itr < |list|
        invariant itr <= |list|
        invariant SetOriginFrom(old(Abs()), 0, msg, id) == SetOriginFrom(Abs(), itr, msg, id)
      {
        if id == list[itr].uid {
          if !list[itr].haveOrigin {
            list := list[itr := list[itr].(haveOrigin := true, origin := msg)];
          }
        }
        itr := itr + 1;
      }
    }

    method RunInitGame(i: nat)
      requires nextID == |minted| && i < |list|
      modifies this
      ensures nextID == |minted|
      ensures minted == old(minted) + CellMintings(|old(minted)| + 1, old(list)[i].uid)
      ensures list == old(list)[i := InitGame(old(list)[i], |old(minted)| + 1)]
    {
      ghost var more := CellMintings(|minted| + 1, list[i].uid);
      var cells: seq<nat> := [];
      for c := 0 to 9
        modifies `nextID, `minted
        invariant nextID == |minted| == |old(minted)| + c && minted == old(minted) + more[..c]
        invariant |cells| == c && forall k :: 0 <= k < c ==> cells[k] == |old(minted)| + 1 + k
      {
        var n := NewId(more[c]);
        cells := cells + [n];
      }
      assert more[..9] == more;
      var e := list[i];
      list := list[i := e.(inits := e.inits + 1, cells := cells,
                           game := Start(e.game.player1, e.game.player2)
                                   .(result := e.game.result, turns := e.game.turns))];
      assert cells == InitGame(e, |old(minted)| + 1).cells;
    }

    /** One round of the loop of the confirmation handler; `done` when it returns early. */
    method ConfirmOne(i: nat, user: Player, custom: string) returns (done: bool)
      requires nextID == |minted| && i < |list|
      modifies this
      ensures nextID == |minted| && |list| == |old(list)|
      ensures ConfirmEntry(old(Abs()), i, user, custom) == if done then Return(Abs()) else Continue(Abs())
    {
      var player := PlayerOf(list[i], user);
      if player == 0 {
        return true;
      }
      if custom == Show(YesId(list[i].yes)) {
        if Confirmed(list[i], player) {
          return true;
        }
        list := list[i := SetConfirmed(list[i], player)];
        if Confirmed(list[i], if player == 1 then 2 else 1) {
          RunInitGame(i);
          assert list == old(list)[i := InitGame(SetConfirmed(old(list)[i], player), |old(minted)| + 1)];
        }
      }
      if custom == Show(NoId(list[i].no)) {
        if Confirmed(list[i], player) {
          return true;
        }
        list := list[i := SetConfirmed(list[i], player)];
      }
      done := false;
    }

    method OnConfirmClick(user: Player, custom: string)
      requires Valid()
      modifies this
      ensures Valid() && Abs() == Confirm(old(Abs()), user, custom)
    {
      ConfirmKeeps(Abs(), user, custom);
      ghost var body := ConfirmBody(user, custom);
      var itr, n := 0, |list|;
      while itr < n
        invariant itr <= n == |list| && nextID == |minted|
        invariant Confirm(old(Abs()), user, custom) == ForEach(Abs(), itr, n, body)
      {
        var done := ConfirmOne(itr, user, custom);
        if done {
          return;
        }
        itr := itr + 1;
      }
    }

    /** The loops over the cells of one board. */
    method HitCells(e: Entry, custom: string) returns (board: seq<Cell>, interrupted: bool)
      requires Shaped(e.game)
      ensures HitFrom(e, Hit(e.game.board, false), 0, custom) == Hit(board, interrupted)
    {
      board, interrupted := e.game.board, false;
      for i := 0 to 3
        invariant |board| == 9
        invariant HitFrom(e, Hit(e.game.board, false), 0, custom) == HitFrom(e, Hit(board, interrupted), 3 * i, custom)
      {
        for k := 0 to 3
          invariant |board| == 9
          invariant HitFrom(e, Hit(e.game.board, false), 0, custom)
                 == HitFrom(e, Hit(board, interrupted), 3 * i + k, custom)
        {
          var c := 3 * i + k;
          if custom == CellName(e, c) {
            if board[c].status != Idle {
              interrupted := true;
            } else {
              board := Place(board, c, e.game.mark);
            }
          }
        }
      }
    }

    /** One round of the loop of the click handler; `done` when it returns early. */
    method ClickOne(i: nat, user: Player, msg: nat, custom: string) returns (done: bool)
      requires i < |list| && Shaped(list[i].game)
      modifies `list
      ensures ClickEntry(old(Abs()), i, user, msg, custom) == if done then Return(Abs()) else Continue(Abs())
      ensures |list| == |old(list)| && Shaped(list[i].game)
      ensures forall k :: 0 <= k < |list| && k != i ==> list[k] == old(list[k])
    {
      var e := list[i];
      if msg == e.gameMsg {
        if user == e.game.turn {
          var board, interrupted := HitCells(e, custom);
          if interrupted {
            list := list[i := e.(game := e.game.(board := board))];
            return true;
          }
          list := list[i := e.(game := SwapTurn(FetchWinner(e.game.(board := board))))];
          WinnerFetched(e.game.(board := board));
        }
      }
      done := false;
    }

    method ClickLoop(user: Player, msg: nat, custom: string)
      requires forall i :: 0 <= i < |list| ==> Shaped(list[i].game)
      modifies `list
      ensures Abs() == ClickOn(old(Abs()), user, msg, custom)
    {
      ghost var body := ClickBody(user, msg, custom);
      var itr, n := 0, |list|;
      while itr < n
        invariant itr <= n == |list| && forall i :: 0 <= i < n ==> Shaped(list[i].game)
        invariant ClickOn(old(Abs()), user, msg, custom) == ForEach(Abs(), itr, n, body)
      {
        var done := ClickOne(itr, user, msg, custom);
        if done {
          return;
        }
        itr := itr + 1;
      }
    }

    method OnTttInteraction(user: Player, msg: nat, custom: string)
      requires Valid()
      modifies `list
      ensures Abs() == ClickOn(old(Abs()), user, msg, custom)
      ensures user != 0 && msg != 0 && old(DistinctMessages(Abs())) ==> Valid()
    {
      if user != 0 && msg != 0 && DistinctMessages(Abs()) {
        ClickKeeps(Abs(), user, msg, custom);
      }
      forall i | 0 <= i < |list| ensures Shaped(list[i].game) {
        assert EntryOk(minted, list[i]);
      }
      ClickLoop(user, msg, custom);
    }

    /** What the bot does on every press of a button. */
    method OnButtonClick(user: Player, msg: nat, custom: string)
      requires Valid()
      modifies this
      ensures Abs() == ButtonPress(old(Abs()), user, msg, custom)
      ensures user != 0 && msg != 0 && old(DistinctMessages(Abs())) ==> Valid()
    {
      ConfirmKeeps(Abs(), user, custom);
      OnConfirmClick(user, custom);
      OnTttInteraction(user, msg, custom);
    }
  }
}
