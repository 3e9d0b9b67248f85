/** The tic-tac-toe game of the bot (tictactoe.cpp, tictactoe.hpp). */
module TicTacToe {

  type Player = nat

  datatype Mark = Idle | X | O

  datatype Result = InProgress | Expired | Draw | Won

  datatype Cell = Cell(status: Mark, won: bool)

  /** The state of a game; cell (i, k) of the board stands at index 3 * i + k. */
  datatype Game = Game(
    player1: Player, player2: Player, turn: Player, mark: Mark,
    board: seq<Cell>, result: Result, turns: nat)

  predicate Shaped(g: Game) {
    |g.board| == 9
  }

  // ------------------------------------------------------------------ lines

  datatype Line = Line(a: nat, b: nat, c: nat)

  const NLINES := 8

  // In the order in which the source looks at them.
  function LineAt(k: nat): (l: Line)
    requires k < NLINES
    ensures l.a < l.b < l.c < 9
  {
    if k == 0 then Line(0, 1, 2)
    else if k == 1 then Line(0, 3, 6)
    else if k == 2 then Line(3, 4, 5)
    else if k == 3 then Line(1, 4, 7)
    else if k == 4 then Line(6, 7, 8)
    else if k == 5 then Line(2, 5, 8)
    else if k == 6 then Line(0, 4, 8)
    else Line(2, 4, 6)
  }

  predicate On(c: nat, l: Line) {
    c == l.a || c == l.b || c == l.c
  }

  predicate Complete(board: seq<Cell>, l: Line)
    requires |board| == 9 && l.a < l.b < l.c < 9
  {
    board[l.a].status != Idle && board[l.a].status == board[l.b].status && board[l.b].status == board[l.c].status
  }

  predicate Done(board: seq<Cell>, k: nat)
    requires |board| == 9 && k < NLINES
  {
    Complete(board, LineAt(k))
  }

  predicate DoneThrough(board: seq<Cell>, k: nat, c: nat)
    requires |board| == 9 && k < NLINES
  {
    Done(board, k) && On(c, LineAt(k))
  }

  predicate SomeLine(board: seq<Cell>)
    requires |board| == 9
  {
    exists k :: 0 <= k < NLINES && Done(board, k)
  }

  /** The cell is on a complete line. */
  predicate Winning(board: seq<Cell>, c: nat)
    requires |board| == 9
  {
    exists k :: 0 <= k < NLINES && DoneThrough(board, k, c)
  }

  predicate ThreeAre(board: seq<Cell>, a: nat, b: nat, c: nat, m: Mark)
    requires |board| == 9 && a < 9 && b < 9 && c < 9
  {
    board[a].status == m && board[b].status == m && board[c].status == m
  }

  predicate RowIs(board: seq<Cell>, i: nat, m: Mark)
    requires |board| == 9 && i < 3
  {
    ThreeAre(board, 3 * i, 3 * i + 1, 3 * i + 2, m)
  }

  predicate ColumnIs(board: seq<Cell>, k: nat, m: Mark)
    requires |board| == 9 && k < 3
  {
    ThreeAre(board, k, 3 + k, 6 + k, m)
  }

  /** Somebody's marks fill a row, a column or a diagonal of the board. */
  predicate Fills(board: seq<Cell>, m: Mark)
    requires |board| == 9
  {
    || (exists i :: 0 <= i < 3 && RowIs(board, i, m))
    || (exists k :: 0 <= k < 3 && ColumnIs(board, k, m))
    || ThreeAre(board, 0, 4, 8, m) || ThreeAre(board, 2, 4, 6, m)
  }

  lemma LineOf(board: seq<Cell>, k: nat, m: Mark)
    requires |board| == 9 && k < NLINES && m != Idle && Done(board, k) && board[LineAt(k).a].status == m
    ensures Fills(board, m)
  {
    assert k % 2 == 0 && k < 6 ==> RowIs(board, k / 2, m);
    assert k % 2 == 1 && k < 6 ==> ColumnIs(board, k / 2, m);
  }

  lemma FilledLine(board: seq<Cell>, m: Mark)
    requires |board| == 9 && m != Idle && Fills(board, m)
    ensures SomeLine(board)
  {
    if i :| 0 <= i < 3 && RowIs(board, i, m) {
      assert Done(board, 2 * i);
    } else if k :| 0 <= k < 3 && ColumnIs(board, k, m) {
      assert Done(board, 2 * k + 1);
    } else {
      assert Done(board, 6) || Done(board, 7);
    }
  }

  /** The eight lines are the rows, the columns and the diagonals. */
  lemma LinesExactly(board: seq<Cell>)
    requires |board| == 9
    ensures SomeLine(board) <==> Fills(board, X) || Fills(board, O)
  {
    if k :| 0 <= k < NLINES && Done(board, k) {
      LineOf(board, k, board[LineAt(k).a].status);
    }
    if Fills(board, X) {
      FilledLine(board, X);
    }
    if Fills(board, O) {
      FilledLine(board, O);
    }
  }

  function SetWon(board: seq<Cell>, c: nat): (b: seq<Cell>)
    requires c < |board|
    ensures |b| == |board|
  {
    board[c := board[c].(won := true)]
  }

  function CheckLine(g: Game, l: Line): (g': Game)
    requires Shaped(g) && l.a < l.b < l.c < 9
    ensures Shaped(g')
  {
    if Complete(g.board, l) then
      g.(board := SetWon(SetWon(SetWon(g.board, l.a), l.b), l.c), result := Won)
    else g
  }

  function CheckLines(g: Game, n: nat): (g': Game)
    requires Shaped(g) && n <= NLINES
    ensures Shaped(g')
  {
    if n == 0 then g else CheckLine(CheckLines(g, n - 1), LineAt(n - 1))
  }

  function FetchWinner(g: Game): (g': Game)
    requires Shaped(g)
    ensures Shaped(g')
  {
    CheckLines(g, NLINES)
  }

  function SwapTurn(g: Game): (g': Game)
    ensures g'.board == g.board
  {
    var t := g.turns + 1;
    if t >= 9 && g.result != Won then g.(turns := t, result := Draw)
    else g.(turns := t,
            turn := if g.turn == g.player1 then g.player2 else g.player1,
            mark := if g.mark == X then O else X)
  }

  predicate SameMarks(b: seq<Cell>, c: seq<Cell>) {
    |b| == |c| && forall i :: 0 <= i < |b| ==> b[i].status == c[i].status
  }

  predicate SomeLineOf(board: seq<Cell>, n: nat)
    requires |board| == 9 && n <= NLINES
  {
    n > 0 && (Done(board, n - 1) || SomeLineOf(board, n - 1))
  }

  predicate WinningBy(board: seq<Cell>, c: nat, n: nat)
    requires |board| == 9 && n <= NLINES
  {
    n > 0 && (DoneThrough(board, n - 1, c) || WinningBy(board, c, n - 1))
  }

  // `upto(n)` says that `p` holds of some number below n.
  lemma {:induction false} UptoIsOne(p: nat -> bool, upto: nat -> bool, n: nat)
    requires !upto(0) && forall m: nat :: m < n ==> (upto(m + 1) <==> (p(m) || upto(m)))
    ensures upto(n) <==> exists k: nat :: k < n && p(k)
  {
    if n > 0 {
      UptoIsOne(p, upto, n - 1);
      assert upto(n - 1 + 1) <==> (p(n - 1) || upto(n - 1));
    }
  }

  lemma SomeLineIsOne(board: seq<Cell>, n: nat)
    requires |board| == 9 && n <= NLINES
    ensures SomeLineOf(board, n) <==> exists k :: 0 <= k < n && Done(board, k)
  {
    var p, upto := (k: nat) => k < NLINES && Done(board, k), (m: nat) => m <= NLINES && SomeLineOf(board, m);
    UptoIsOne(p, upto, n);
    assert forall k :: 0 <= k < n ==> (p(k) <==> Done(board, k));
  }

  lemma WinningByIsOne(board: seq<Cell>, c: nat, n: nat)
    requires |board| == 9 && n <= NLINES
    ensures WinningBy(board, c, n) <==>
              exists k :: 0 <= k < n && DoneThrough(board, k, c)
  {
    var p := (k: nat) => k < NLINES && DoneThrough(board, k, c);
    var upto := (m: nat) => m <= NLINES && WinningBy(board, c, m);
    UptoIsOne(p, upto, n);
    assert forall k :: 0 <= k < n ==> (p(k) <==> DoneThrough(board, k, c));
  }

  /** A game after looking at the first n lines. */
  ghost predicate LinesChecked(g: Game, g': Game, n: nat)
    requires Shaped(g) && n <= NLINES
  {
    && SameMarks(g'.board, g.board)
    && g' == g.(board := g'.board, result := if SomeLineOf(g.board, n) then Won else g.result)
    && forall c :: 0 <= c < 9 ==> (g'.board[c].won <==> (g.board[c].won || WinningBy(g.board, c, n)))
  }

  lemma OneMoreLine(g: Game, g1: Game, n: nat)
    requires Shaped(g) && n < NLINES && LinesChecked(g, g1, n)
    ensures LinesChecked(g, CheckLine(g1, LineAt(n)), n + 1)
  {
    CheckedLine(g1, LineAt(n));
    DoneBySameMarks(g1.board, g.board, n);
  }

  lemma {:induction false} CheckedUpTo(g: Game, n: nat, checked: (nat, Game) -> bool)
    requires Shaped(g) && n <= NLINES && checked(0, g)
    requires forall k: nat, g1 :: k < n && Shaped(g1) && checked(k, g1) ==> checked(k + 1, CheckLine(g1, LineAt(k)))
    ensures checked(n, CheckLines(g, n))
  {
    if n > 0 {
      CheckedUpTo(g, n - 1, checked);
      assert checked(n - 1 + 1, CheckLine(CheckLines(g, n - 1), LineAt(n - 1)));
    }
  }

  lemma CheckedLines(g: Game, n: nat)
    requires Shaped(g) && n <= NLINES
    ensures LinesChecked(g, CheckLines(g, n), n)
  {
    var checked := (k: nat, g1: Game) => k <= NLINES && LinesChecked(g, g1, k);
    forall k: nat, g1 | k < n && Shaped(g1) && checked(k, g1) ensures checked(k + 1, CheckLine(g1, LineAt(k))) {
      OneMoreLine(g, g1, k);
    }
    CheckedUpTo(g, n, checked);
  }

  /** Looking for the winner marks exactly the cells on complete lines. */
  lemma WinnerFetched(g: Game)
    requires Shaped(g)
    ensures var g' := FetchWinner(g);
            && SameMarks(g'.board, g.board)
            && g' == g.(board := g'.board, result := if SomeLine(g.board) then Won else g.result)
            && forall c :: 0 <= c < 9 ==> (g'.board[c].won <==> (g.board[c].won || Winning(g.board, c)))
  {
    CheckedLines(g, NLINES);
    SomeLineIsOne(g.board, NLINES);
    forall c | 0 <= c < 9 ensures WinningBy(g.board, c, NLINES) <==> Winning(g.board, c) {
      WinningByIsOne(g.board, c, NLINES);
    }
  }

  lemma CheckedLine(g: Game, l: Line)
    requires Shaped(g) && l.a < l.b < l.c < 9
    ensures var g' := CheckLine(g, l);
            && SameMarks(g'.board, g.board)
            && g' == g.(board := g'.board, result := if Complete(g.board, l) then Won else g.result)
            && forall c :: 0 <= c < 9 ==> (g'.board[c].won <==> (g.board[c].won || (Complete(g.board, l) && On(c, l))))
  {
  }

  // ------------------------------------------------------------------ counting marks

  function Count(board: seq<Cell>, m: Mark): nat {
    if board == [] then 0 else (if board[0].status == m then 1 else 0) + Count(board[1..], m)
  }

  lemma {:induction false} CountPlaced(board: seq<Cell>, c: nat, placed: Mark, m: Mark)
    requires c < |board| && board[c].status == Idle && placed != Idle
    ensures Count(Place(board, c, placed), m) ==
              Count(board, m) + (if m == placed then 1 else 0) - (if m == Idle then 1 else 0)
  {
    var after := Place(board, c, placed);
    if c == 0 {
      assert after[1..] == board[1..];
    } else {
      assert after[1..] == Place(board[1..], c - 1, placed);
      CountPlaced(board[1..], c - 1, placed, m);
    }
  }

  lemma {:induction false} CountSame(b: seq<Cell>, c: seq<Cell>, m: Mark)
    requires SameMarks(b, c)
    ensures Count(b, m) == Count(c, m)
  {
    if b != [] {
      CountSame(b[1..], c[1..], m);
    }
  }

  lemma {:induction false} CountAll(board: seq<Cell>)
    ensures Count(board, Idle) + Count(board, X) + Count(board, O) == |board|
  {
    if board != [] {
      CountAll(board[1..]);
    }
  }

  function Place(board: seq<Cell>, c: nat, m: Mark): (b: seq<Cell>)
    requires c < |board|
    ensures |b| == |board|
  {
    board[c := board[c].(status := m)]
  }

  // ------------------------------------------------------------------ games

  function EmptyBoard(): (b: seq<Cell>)
    ensures |b| == 9 && forall i :: 0 <= i < 9 ==> b[i] == Cell(Idle, false)
  {
    seq(9, _ => Cell(Idle, false))
  }

  /** A game after `init_game`. */
  function Start(p1: Player, p2: Player): Game {
    Game(p1, p2, p1, X, EmptyBoard(), InProgress, 0)
  }

  datatype Click = Click(user: Player, cell: nat)

  // The buttons of a won or drawn game are disabled.
  predicate Accepted(g: Game, click: Click)
    requires Shaped(g)
  {
    && g.result != Won && g.result != Draw
    && click.user == g.turn
    && click.cell < 9 && g.board[click.cell].status == Idle
  }

  function Press(g: Game, c: nat): (g': Game)
    requires Shaped(g) && c < 9
    ensures Shaped(g')
  {
    SwapTurn(FetchWinner(g.(board := Place(g.board, c, g.mark))))
  }

  predicate Playable(g: Game, clicks: seq<Click>)
    requires Shaped(g)
    decreases |clicks|
  {
    clicks == [] || (Accepted(g, clicks[0]) && Playable(Press(g, clicks[0].cell), clicks[1..]))
  }

  function Play(g: Game, clicks: seq<Click>): (g': Game)
    requires Shaped(g) && Playable(g, clicks)
    ensures Shaped(g')
    decreases |clicks|
  {
    if clicks == [] then g else Play(Press(g, clicks[0].cell), clicks[1..])
  }

  ghost predicate LinesAreLastMovers(g: Game)
    requires Shaped(g)
  {
    forall c :: 0 <= c < 9 && Winning(g.board, c) ==> g.board[c].status == if g.turns % 2 == 1 then X else O
  }

  /** What holds of a game after any run of accepted clicks. */
  ghost predicate Correct(g: Game) {
    && Shaped(g) && g.player1 != g.player2
    // the marks are the turns taken, and X moves first
    && Count(g.board, X) + Count(g.board, O) == g.turns <= 9
    && Count(g.board, X) - Count(g.board, O) == g.turns % 2
    // the result
    && (g.result == Won <==> SomeLine(g.board))
    && (g.result == Draw <==> g.turns == 9 && !SomeLine(g.board))
    && (g.result == InProgress <==> g.turns < 9 && !SomeLine(g.board))
    // the won cells are those on complete lines, and the lines are the last mover's
    && (forall c :: 0 <= c < 9 ==> (g.board[c].won <==> Winning(g.board, c)))
    && LinesAreLastMovers(g)
    // whose turn it is
    && (g.result == InProgress ==>
          && g.mark == (if g.turns % 2 == 0 then X else O)
          && g.turn == Mover(g.turns, g.player1, g.player2))
  }

  lemma {:induction false} CountEmpty(b: seq<Cell>, m: Mark)
    requires m != Idle && forall i :: 0 <= i < |b| ==> b[i].status == Idle
    ensures Count(b, m) == 0
  {
    if b != [] {
      CountEmpty(b[1..], m);
    }
  }

  lemma StartCorrect(p1: Player, p2: Player)
    requires p1 != p2
    ensures Correct(Start(p1, p2))
  {
    CountEmpty(EmptyBoard(), X);
    CountEmpty(EmptyBoard(), O);
  }

  lemma NewLinesGoThrough(board: seq<Cell>, c: nat, m: Mark, k: nat)
    requires |board| == 9 && c < 9 && k < NLINES && !SomeLine(board)
    requires Done(Place(board, c, m), k)
    ensures On(c, LineAt(k))
    ensures forall i: nat :: On(i, LineAt(k)) ==> i < 9 && Place(board, c, m)[i].status == m
  {
    var l := LineAt(k);
    assert !Done(board, k);
  }

  lemma FullBoard(board: seq<Cell>, c: nat)
    requires |board| == 9 && Count(board, X) + Count(board, O) == 9 && c < 9
    ensures board[c].status != Idle
  {
    CountAll(board);
    NoIdle(board, c);
  }

  lemma {:induction false} NoIdle(board: seq<Cell>, c: nat)
    requires Count(board, Idle) == 0 && c < |board|
    ensures board[c].status != Idle
  {
    if c > 0 {
      NoIdle(board[1..], c - 1);
    }
  }

  /** Placing a mark and looking for the winner. */
  lemma PlacedAndChecked(g: Game, c: nat)
    requires Correct(g) && g.result == InProgress && c < 9 && g.board[c].status == Idle
    ensures var placed := Place(g.board, c, g.mark);
            var w := FetchWinner(g.(board := placed));
            && SameMarks(w.board, placed) && w == g.(board := w.board, result := w.result)
            && (w.result == if SomeLine(placed) then Won else InProgress)
            && (forall i :: 0 <= i < 9 ==> (w.board[i].won <==> Winning(placed, i)))
            && (forall i :: 0 <= i < 9 && Winning(placed, i) ==> placed[i].status == g.mark)
  {
    var placed := Place(g.board, c, g.mark);
    WinnerFetched(g.(board := placed));
    forall i | 0 <= i < 9 ensures !Winning(g.board, i) && !placed[i].won {
      assert !g.board[i].won;
    }
    forall i | 0 <= i < 9 && Winning(placed, i) ensures placed[i].status == g.mark {
      var k :| 0 <= k < NLINES && DoneThrough(placed, k, i);
      NewLinesGoThrough(g.board, c, g.mark, k);
    }
  }

  lemma SameMarksSameLines(b: seq<Cell>, c: seq<Cell>)
    requires |b| == 9 && SameMarks(b, c)
    ensures SomeLine(b) <==> SomeLine(c)
    ensures forall i :: 0 <= i < 9 ==> (Winning(b, i) <==> Winning(c, i))
  {
    assert forall k :: 0 <= k < NLINES ==> (Done(b, k) <==> Done(c, k));
    assert forall k, i :: 0 <= k < NLINES && 0 <= i < 9 ==> (DoneThrough(b, k, i) <==> DoneThrough(c, k, i));
  }

  /** A game between looking for the winner and swapping the turn. */
  ghost predicate Moved(w: Game) {
    && Shaped(w) && w.player1 != w.player2
    && Count(w.board, X) + Count(w.board, O) == w.turns + 1 <= 9
    && Count(w.board, X) - Count(w.board, O) == (w.turns + 1) % 2
    && w.result == (if SomeLine(w.board) then Won else InProgress)
    && (forall c :: 0 <= c < 9 ==> (w.board[c].won <==> Winning(w.board, c)))
    && (forall c :: 0 <= c < 9 && Winning(w.board, c) ==> w.board[c].status == w.mark)
    && w.mark == (if w.turns % 2 == 0 then X else O)
    && w.turn == Mover(w.turns, w.player1, w.player2)
  }

  lemma SwapAfterMove(w: Game)
    requires Moved(w)
    ensures Correct(SwapTurn(w))
  {
    assert (w.turns + 1) % 2 == 1 - w.turns % 2;
  }

  lemma CountsAfter(board: seq<Cell>, after: seq<Cell>, c: nat, placed: Mark)
    requires c < |board| && board[c].status == Idle && placed != Idle && SameMarks(after, Place(board, c, placed))
    ensures Count(after, X) == Count(board, X) + (if placed == X then 1 else 0)
    ensures Count(after, O) == Count(board, O) + (if placed == O then 1 else 0)
  {
    CountPlaced(board, c, placed, X);
    CountPlaced(board, c, placed, O);
    CountSame(after, Place(board, c, placed), X);
    CountSame(after, Place(board, c, placed), O);
  }

  // The game after placing a mark and looking for the winner, whatever way it was found.
  lemma MovedBy(g: Game, c: nat, w: Game)
    requires Correct(g) && g.result == InProgress && c < 9 && g.board[c].status == Idle
    requires SameMarks(w.board, Place(g.board, c, g.mark)) && w == g.(board := w.board, result := w.result)
    requires w.result == if SomeLine(w.board) then Won else InProgress
    requires forall i :: 0 <= i < 9 ==> (w.board[i].won <==> Winning(w.board, i))
    requires forall i :: 0 <= i < 9 && Winning(w.board, i) ==> w.board[i].status == g.mark
    ensures Moved(w)
  {
    CountsAfter(g.board, w.board, c, g.mark);
  }

  lemma PressMoves(g: Game, c: nat)
    requires Correct(g) && g.result == InProgress && c < 9 && g.board[c].status == Idle
    ensures var w := FetchWinner(g.(board := Place(g.board, c, g.mark)));
            && Moved(w) && SameMarks(w.board, Place(g.board, c, g.mark))
            && w == g.(board := w.board, result := w.result)
  {
    var w := FetchWinner(g.(board := Place(g.board, c, g.mark)));
    PlacedAndChecked(g, c);
    SameMarksSameLines(w.board, Place(g.board, c, g.mark));
    MovedBy(g, c, w);
  }

  /** One accepted click keeps everything. */
  lemma PressCorrect(g: Game, c: nat)
    requires Correct(g) && g.result == InProgress && c < 9 && g.board[c].status == Idle
    ensures Correct(Press(g, c)) && Press(g, c).turns == g.turns + 1
    ensures Press(g, c).player1 == g.player1 && Press(g, c).player2 == g.player2
    ensures SameMarks(Press(g, c).board, Place(g.board, c, g.mark))
  {
    PressMoves(g, c);
    SwapAfterMove(FetchWinner(g.(board := Place(g.board, c, g.mark))));
  }

  predicate Alternating(clicks: seq<Click>, k: nat, p1: Player, p2: Player) {
    clicks == [] || (clicks[0].user == Mover(k, p1, p2) && Alternating(clicks[1..], k + 1, p1, p2))
  }

  function Mover(k: nat, p1: Player, p2: Player): Player {
    if k % 2 == 0 then p1 else p2
  }

  lemma AcceptedCorrect(g: Game, click: Click)
    requires Correct(g) && Accepted(g, click)
    ensures click.user == Mover(g.turns, g.player1, g.player2) && g.turns < 9
    ensures var g' := Press(g, click.cell);
            Correct(g') && g'.turns == g.turns + 1 && g'.player1 == g.player1 && g'.player2 == g.player2
  {
    PressCorrect(g, click.cell);
  }

  lemma {:induction false} RunCorrect(g: Game, clicks: seq<Click>)
    requires Correct(g) && Playable(g, clicks)
    ensures Correct(Play(g, clicks)) && Play(g, clicks).turns == g.turns + |clicks|
    ensures Alternating(clicks, g.turns, g.player1, g.player2)
    decreases |clicks|
  {
    if clicks != [] {
      AcceptedCorrect(g, clicks[0]);
      RunCorrect(Press(g, clicks[0].cell), clicks[1..]);
    }
  }

  /**
    Every run of accepted clicks keeps the game correct, takes at most nine clicks, and the
    two players click in turn, player 1 first.
   */
  lemma GameCorrect(p1: Player, p2: Player, clicks: seq<Click>)
    requires p1 != p2 && Playable(Start(p1, p2), clicks)
    ensures Correct(Play(Start(p1, p2), clicks)) && Play(Start(p1, p2), clicks).turns == |clicks|
    ensures |clicks| <= 9 && Alternating(clicks, 0, p1, p2)
  {
    var g := Start(p1, p2);
    StartCorrect(p1, p2);
    RunCorrect(g, clicks);
    AtMostNine(Play(g, clicks));
  }

  lemma AtMostNine(g: Game)
    requires Correct(g)
    ensures g.turns <= 9
  {
  }

  /** A finished game has an enabled button for nobody, and an unfinished one has one for the player to move. */
  lemma NeverStuck(g: Game)
    requires Correct(g)
    ensures g.result == InProgress <==> exists click :: Accepted(g, click)
  {
    if g.result == InProgress {
      CountAll(g.board);
      var c := FirstIdle(g.board);
      assert Accepted(g, Click(g.turn, c));
    }
  }

  function FirstIdle(board: seq<Cell>): (c: nat)
    requires Count(board, Idle) > 0
    ensures c < |board| && board[c].status == Idle
  {
    if board[0].status == Idle then 0 else FirstIdle(board[1..]) + 1
  }

  // ------------------------------------------------------------------ clicks on finished games

  lemma LineStays(board: seq<Cell>, c: nat, m: Mark, k: nat)
    requires |board| == 9 && c < 9 && k < NLINES && Done(board, k) && board[c].status == Idle
    ensures Done(Place(board, c, m), k) && !On(c, LineAt(k))
  {
  }

  // The marks on a complete line say who moved last.
  lemma LineOfLastMover(g: Game, k: nat)
    requires Shaped(g) && LinesAreLastMovers(g) && k < NLINES && Done(g.board, k)
    ensures g.board[LineAt(k).a].status == if g.turns % 2 == 1 then X else O
  {
    assert DoneThrough(g.board, k, LineAt(k).a);
    assert Winning(g.board, LineAt(k).a);
  }

  lemma PressedOnce(g: Game, c: nat)
    requires Shaped(g) && c < 9
    ensures var g' := Press(g, c);
            && SameMarks(g'.board, Place(g.board, c, g.mark)) && g'.turns == g.turns + 1
            && (g.turns < 8 ==> g'.turn == if g.turn == g.player1 then g.player2 else g.player1)
  {
    WinnerFetched(g.(board := Place(g.board, c, g.mark)));
  }

  lemma DoneBySameMarks(b: seq<Cell>, c: seq<Cell>, k: nat)
    requires |b| == 9 && SameMarks(b, c) && k < NLINES
    ensures Done(b, k) <==> Done(c, k)
  {
  }

  // Two moves by the player of a complete line.
  lemma MoveAfterLine(g: Game, g': Game, c: nat, m: Mark, k: nat)
    requires Shaped(g) && LinesAreLastMovers(g)
    requires c < 9 && g.board[c].status == Idle && k < NLINES && Done(g.board, k)
    requires SameMarks(g'.board, Place(g.board, c, m)) && g'.turns == g.turns + 1
    ensures !LinesAreLastMovers(g')
  {
    LineStays(g.board, c, m, k);
    DoneBySameMarks(g'.board, Place(g.board, c, m), k);
    LineOfLastMover(g, k);
    if LinesAreLastMovers(g') {
      LineOfLastMover(g', k);
    }
  }

  lemma NoLineNoIdle(g: Game, c: nat)
    requires Correct(g) && g.result != InProgress && c < 9 && g.board[c].status == Idle
    ensures SomeLine(g.board)
  {
    if !SomeLine(g.board) {
      FullBoard(g.board, c);
    }
  }

  /** A click on an idle cell of a finished game, which nothing in the handler stops, breaks the game. */
  lemma FinishedBreaks(g: Game, c: nat)
    requires Correct(g) && g.result != InProgress && c < 9 && g.board[c].status == Idle
    ensures !Correct(Press(g, c))
  {
    NoLineNoIdle(g, c);
    var k :| 0 <= k < NLINES && Done(g.board, k);
    PressedOnce(g, c);
    MoveAfterLine(g, Press(g, c), c, g.mark, k);
  }

  predicate MarksAre(board: seq<Cell>, marks: seq<Mark>) {
    |board| == |marks| && forall i :: 0 <= i < |board| ==> board[i].status == marks[i]
  }

  predicate LineIn(marks: seq<Mark>, k: nat)
    requires |marks| == 9 && k < NLINES
  {
    var l := LineAt(k);
    marks[l.a] != Idle && marks[l.a] == marks[l.b] && marks[l.b] == marks[l.c]
  }

  lemma LinesOfMarks(board: seq<Cell>, marks: seq<Mark>)
    requires |marks| == 9 && MarksAre(board, marks)
    ensures SomeLine(board) <==> exists k :: 0 <= k < NLINES && LineIn(marks, k)
  {
    assert forall k :: 0 <= k < NLINES ==> (LineIn(marks, k) <==> Done(board, k));
  }

  predicate NoLines(marks: seq<Mark>)
    requires |marks| == 9
  {
    forall k :: 0 <= k < NLINES ==> !LineIn(marks, k)
  }

  /** The clicks can be played, and the game then has these marks, and the turn that follows if it goes on. */
  ghost predicate PositionAfter(p1: Player, p2: Player, clicks: seq<Click>, marks: seq<Mark>) {
    && Playable(Start(p1, p2), clicks) && |clicks| < 9 && |marks| == 9
    && var g := Play(Start(p1, p2), clicks);
       && Correct(g) && g.player1 == p1 && g.player2 == p2 && g.turns == |clicks|
       && MarksAre(g.board, marks) && g.turn == Mover(|clicks|, p1, p2)
  }

  lemma StillOn(g: Game, c: nat, marks: seq<Mark>)
    requires Correct(g) && |marks| == 9 && MarksAre(g.board, marks) && NoLines(marks) && g.turns < 8
    requires c < 9 && marks[c] == Idle
    ensures g.result == InProgress && g.board[c].status == Idle && Accepted(g, Click(g.turn, c))
    ensures g.mark == (if g.turns % 2 == 0 then X else O) && g.turn == Mover(g.turns, g.player1, g.player2)
  {
    LinesOfMarks(g.board, marks);
  }

  lemma MarksAfter(board: seq<Cell>, after: seq<Cell>, marks: seq<Mark>, c: nat, m: Mark)
    requires MarksAre(board, marks) && c < |board| && SameMarks(after, Place(board, c, m))
    ensures MarksAre(after, marks[c := m])
  {
  }

  lemma MoveOn(g: Game, c: nat, marks: seq<Mark>)
    requires Correct(g) && |marks| == 9 && MarksAre(g.board, marks) && NoLines(marks) && g.turns < 8
    requires c < 9 && marks[c] == Idle
    ensures var g' := Press(g, c);
            && Correct(g') && g'.player1 == g.player1 && g'.player2 == g.player2 && g'.turns == g.turns + 1
            && MarksAre(g'.board, marks[c := if g.turns % 2 == 0 then X else O])
            && g'.turn == Mover(g.turns + 1, g.player1, g.player2)
  {
    StillOn(g, c, marks);
    PressCorrect(g, c);
    PressedOnce(g, c);
    MarksAfter(g.board, Press(g, c).board, marks, c, g.mark);
  }

  lemma {:induction false} PlayNext(g: Game, clicks: seq<Click>, click: Click)
    requires Shaped(g) && Playable(g, clicks) && Accepted(Play(g, clicks), click)
    ensures Playable(g, clicks + [click]) && Play(g, clicks + [click]) == Press(Play(g, clicks), click.cell)
    decreases |clicks|
  {
    var all := clicks + [click];
    if clicks == [] {
      assert all[1..] == [];
    } else {
      assert all[1..] == clicks[1..] + [click];
      PlayNext(Press(g, clicks[0].cell), clicks[1..], click);
    }
  }

  lemma PositionNext(p1: Player, p2: Player, clicks: seq<Click>, marks: seq<Mark>, c: nat)
    requires PositionAfter(p1, p2, clicks, marks) && NoLines(marks) && |clicks| < 8
    requires c < 9 && marks[c] == Idle
    ensures PositionAfter(p1, p2, clicks + [Click(Mover(|clicks|, p1, p2), c)],
                          marks[c := if |clicks| % 2 == 0 then X else O])
  {
    StillOn(Play(Start(p1, p2), clicks), c, marks);
    MoveOn(Play(Start(p1, p2), clicks), c, marks);
    PlayNext(Start(p1, p2), clicks, Click(Mover(|clicks|, p1, p2), c));
  }

  // Player 1 takes the first row while player 2 takes two cells of the second.
  function WinningRun(p1: Player, p2: Player): seq<Click> {
    [Click(p1, 0), Click(p2, 3), Click(p1, 1), Click(p2, 4), Click(p1, 2)]
  }

  predicate MovesOn(p1: Player, p2: Player, after: (seq<Click>, seq<Mark>) -> bool,
                    clicks: seq<Click>, marks: seq<Mark>, c: nat) {
    after(clicks, marks) && |marks| == 9 && NoLines(marks) && |clicks| < 8 && c < 9 && marks[c] == Idle ==>
      after(clicks + [Click(Mover(|clicks|, p1, p2), c)], marks[c := if |clicks| % 2 == 0 then X else O])
  }

  lemma Fill(p1: Player, p2: Player, after: (seq<Click>, seq<Mark>) -> bool, n: nat, marks: seq<Mark>, c: nat,
             marks': seq<Mark>)
    requires n < 5 && after(WinningRun(p1, p2)[..n], marks) && |marks| == 9 && NoLines(marks)
    requires c < 9 && marks[c] == Idle && WinningRun(p1, p2)[n] == Click(Mover(n, p1, p2), c)
    requires MovesOn(p1, p2, after, WinningRun(p1, p2)[..n], marks, c)
    requires marks' == marks[c := if n % 2 == 0 then X else O]
    ensures after(WinningRun(p1, p2)[..n + 1], marks')
  {
    var run := WinningRun(p1, p2);
    assert run[..n] + [run[n]] == run[..n + 1];
  }

  const NO_MARKS := [Idle, Idle, Idle, Idle, Idle, Idle, Idle, Idle, Idle]
  const ONE_MARK := [X, Idle, Idle, Idle, Idle, Idle, Idle, Idle, Idle]
  const TWO_MARKS := [X, Idle, Idle, O, Idle, Idle, Idle, Idle, Idle]
  const THREE_MARKS := [X, X, Idle, O, Idle, Idle, Idle, Idle, Idle]
  const FOUR_MARKS := [X, X, Idle, O, O, Idle, Idle, Idle, Idle]
  const FIVE_MARKS := [X, X, X, O, O, Idle, Idle, Idle, Idle]

  lemma NoLinesYet()
    ensures NoLines(NO_MARKS) && NoLines(ONE_MARK) && NoLines(TWO_MARKS) && NoLines(THREE_MARKS) && NoLines(FOUR_MARKS)
  {
  }

  lemma FiveMoves(p1: Player, p2: Player, after: (seq<Click>, seq<Mark>) -> bool)
    requires after([], NO_MARKS)
    requires forall clicks, marks, c :: MovesOn(p1, p2, after, clicks, marks, c)
    ensures after(WinningRun(p1, p2), FIVE_MARKS)
  {
    NoLinesYet();
    assert WinningRun(p1, p2)[..0] == [];
    Fill(p1, p2, after, 0, NO_MARKS, 0, ONE_MARK);
    Fill(p1, p2, after, 1, ONE_MARK, 3, TWO_MARKS);
    Fill(p1, p2, after, 2, TWO_MARKS, 1, THREE_MARKS);
    Fill(p1, p2, after, 3, THREE_MARKS, 4, FOUR_MARKS);
    Fill(p1, p2, after, 4, FOUR_MARKS, 2, FIVE_MARKS);
    assert WinningRun(p1, p2)[..5] == WinningRun(p1, p2);
  }

  lemma NewPosition(p1: Player, p2: Player)
    requires p1 != p2
    ensures PositionAfter(p1, p2, [], NO_MARKS)
  {
    StartCorrect(p1, p2);
    assert Play(Start(p1, p2), []) == Start(p1, p2);
  }

  lemma WonPosition(p1: Player, p2: Player)
    requires p1 != p2
    ensures PositionAfter(p1, p2, WinningRun(p1, p2), FIVE_MARKS)
  {
    NewPosition(p1, p2);
    var after := (clicks, marks) => PositionAfter(p1, p2, clicks, marks);
    forall clicks, marks, c: nat ensures MovesOn(p1, p2, after, clicks, marks, c) {
      if after(clicks, marks) && |marks| == 9 && NoLines(marks) && |clicks| < 8 && c < 9 && marks[c] == Idle {
        PositionNext(p1, p2, clicks, marks, c);
      }
    }
    assert after([], NO_MARKS);
    FiveMoves(p1, p2, after);
  }

  lemma LineOfFive(g: Game)
    requires Correct(g) && MarksAre(g.board, FIVE_MARKS)
    ensures g.result == Won && !Correct(Press(g, 8))
  {
    assert Done(g.board, 0);
    FinishedBreaks(g, 8);
  }

  /** Five accepted clicks win a game, and then the other player's click on an idle cell breaks it. */
  lemma WonGameBreaks(p1: Player, p2: Player)
    requires p1 != p2
    ensures Playable(Start(p1, p2), WinningRun(p1, p2))
    ensures var g := Play(Start(p1, p2), WinningRun(p1, p2));
            && Correct(g) && g.result == Won && g.turn == p2 && g.board[8].status == Idle
            && !Correct(Press(g, 8))
  {
    WonPosition(p1, p2);
    LineOfFive(Play(Start(p1, p2), WinningRun(p1, p2)));
  }

  // ------------------------------------------------------------------ the class

  lemma NextLine(g: Game, n: nat, l: Line)
    requires Shaped(g) && n < NLINES && l == LineAt(n)
    ensures CheckLines(g, n + 1) == CheckLine(CheckLines(g, n), l)
  {
  }

  lemma RowAndColumn(g: Game, i: nat)
    requires Shaped(g) && i < 3
    ensures CheckLines(g, 2 * i + 2) ==
              CheckLine(CheckLine(CheckLines(g, 2 * i), Line(3 * i, 3 * i + 1, 3 * i + 2)), Line(i, i + 3, i + 6))
  {
    NextLine(g, 2 * i, Line(3 * i, 3 * i + 1, 3 * i + 2));
    NextLine(g, 2 * i + 1, Line(i, i + 3, i + 6));
  }

  lemma Diagonals(g: Game)
    requires Shaped(g)
    ensures FetchWinner(g) == CheckLine(CheckLine(CheckLines(g, 6), Line(0, 4, 8)), Line(2, 4, 6))
  {
    NextLine(g, 6, Line(0, 4, 8));
    NextLine(g, 7, Line(2, 4, 6));
  }

  class Ttt {
    var turn: Player
    var mark: Mark
    const player1: Player
    const player2: Player
    var result: Result
    var turns: nat
    const board: array<Cell>

    predicate Valid() {
      board.Length == 9
    }

    function Abs(): Game
      reads this, board
    {
      Game(player1, player2, turn, mark, board[..], result, turns)
    }

    constructor (p1: Player, p2: Player)
      ensures Valid() && fresh(board)
      ensures player1 == p1 && player2 == p2 && result == InProgress && turns == 0
    {
      player1, player2 := p1, p2;
      turn, mark := 0, Idle;
      result, turns := InProgress, 0;
      board := new Cell[9](_ => Cell(Idle, false));
    }

    method InitGame()
      requires Valid()
      modifies this, board
      ensures result == old(result) && turns == old(turns)
      ensures Abs() == Start(player1, player2).(result := result, turns := turns)
    {
      turn, mark := player1, X;
      for i := 0 to 9
        modifies board
        invariant forall j :: 0 <= j < i ==> board[j] == Cell(Idle, false)
      {
        board[i] := Cell(Idle, false);
      }
      assert board[..] == EmptyBoard();
    }

    method Check(a: nat, b: nat, c: nat)
      requires Valid() && a < b < c < 9
      modifies board, `result
      ensures Abs() == CheckLine(old(Abs()), Line(a, b, c))
    {
      if board[a].status != Idle && board[a].status == board[b].status && board[b].status == board[c].status {
        board[a] := board[a].(won := true);
        board[b] := board[b].(won := true);
        board[c] := board[c].(won := true);
        result := Won;
      }
    }

    method CheckTwo(l: Line, m: Line)
      requires Valid() && l.a < l.b < l.c < 9 && m.a < m.b < m.c < 9
      modifies board, `result
      ensures Abs() == CheckLine(CheckLine(old(Abs()), l), m)
    {
      Check(l.a, l.b, l.c);
      Check(m.a, m.b, m.c);
    }

    method FindWinner()
      requires Valid()
      modifies board, `result
      ensures Abs() == FetchWinner(old(Abs()))
    {
      ghost var before := Abs();
      for i := 0 to 3
        invariant Abs() == CheckLines(before, 2 * i)
      {
        RowAndColumn(before, i);
        CheckTwo(Line(3 * i, 3 * i + 1, 3 * i + 2), Line(i, i + 3, i + 6));
      }
      Diagonals(before);
      CheckTwo(Line(0, 4, 8), Line(2, 4, 6));
    }

    method Swap()
      modifies `turn, `mark, `result, `turns
      ensures Abs() == SwapTurn(old(Abs()))
    {
      turns := turns + 1;
      if turns >= 9 && result != Won {
        result := Draw;
        return;
      }
      turn := if turn == player1 then player2 else player1;
      mark := if mark == X then O else X;
    }

    /** The part of the click handler that changes the game, for a click on an idle cell. */
    method TakeTurn(c: nat)
      requires Valid() && c < 9
      modifies this, board
      ensures Abs() == Press(old(Abs()), c)
    {
      board[c] := board[c].(status := mark);
      assert Abs() == old(Abs()).(board := Place(old(Abs()).board, c, old(mark)));
      FindWinner();
      Swap();
    }
  }
}
