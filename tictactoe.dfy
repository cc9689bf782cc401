/**
 * The tic-tac-toe endpoint: a board of nine cells "0", "X" or "O" in
 * row-major order. A request either resets the board, or clicks a cell
 * (the side to move is X when X and O are equally many), and then the
 * response is the winner, DRAW or the board.
 */
module TicTacToe {
  import opened Opt

  /** A cell of the stored board: "0" (empty), "X" or "O". */
  datatype Mark = Empty | X | O

  type Board = seq<Mark>

  /** The request parameters: `reset`, `click=index`, or neither. */
  datatype Request = Reset | Click(index: int) | View

  /** What the endpoint echoes. */
  datatype Response = Winner(mark: Mark) | Draw | State(board: Board)

  /** `"0,0,0,0,0,0,0,0,0"`. */
  function EmptyBoard(): (b: Board)
    ensures |b| == 9 && forall i :: 0 <= i < 9 ==> b[i] == Empty
  {
    seq(9, _ => Empty)
  }

  /** The number of cells holding m. */
  function CountOf(b: Board, m: Mark): nat
  {
    if b == [] then 0 else (if b[0] == m then 1 else 0) + CountOf(b[1..], m)
  }

  lemma {:induction false} CountOfAppend(a: Board, b: Board, m: Mark)
    ensures CountOf(a + b, m) == CountOf(a, m) + CountOf(b, m)
  {
    if a == [] {
      assert a + b == b;
    } else {
      CountOfAppend(a[1..], b, m);
      assert (a + b)[0] == a[0] && (a + b)[1..] == a[1..] + b;
    }
  }

  /** Writing m' over a cell holding m moves one from the count of m to the count of m'. */
  lemma {:induction false} CountOfUpdate(b: Board, i: int, v: Mark, m: Mark)
    requires 0 <= i < |b|
    ensures CountOf(b[i := v], m) == CountOf(b, m) - (if b[i] == m then 1 else 0) + (if v == m then 1 else 0)
  {
    if i > 0 {
      CountOfUpdate(b[1..], i - 1, v, m);
      assert b[i := v][1..] == b[1..][i - 1 := v];
    }
  }

  /** The side to move: X when the counts of X and O are equal, O otherwise. */
  function ToMove(b: Board): Mark
  {
    if CountOf(b, X) == CountOf(b, O) then X else O
  }

  /** The board after a click on cell index: an empty cell gets the side to move, any other click does nothing. */
  function AfterClick(b: Board, index: int): Board
    requires |b| == 9 && 0 <= index < 9
  {
    if b[index] == Empty then b[index := ToMove(b)] else b
  }

  /**
   * The `click` branch: the foreach counting X and O, then the write of
   * the side to move into an empty cell.
   */
  method ClickCell(board: Board, index: int) returns (board': Board)
    requires |board| == 9 && 0 <= index < 9
    ensures board' == AfterClick(board, index)
  {
    board' := board;
    if board[index] == Empty {
      var countX, countO := 0, 0;
      for i := 0 to |board|
        invariant countX == CountOf(board[..i], X) && countO == CountOf(board[..i], O)
      {
        CountOfAppend(board[..i], [board[i]], X);
        CountOfAppend(board[..i], [board[i]], O);
        assert board[..i + 1] == board[..i] + [board[i]];
        if board[i] == X {
          countX := countX + 1;
        }
        if board[i] == O {
          countO := countO + 1;
        }
      }
      assert board[..|board|] == board;
      if countX == countO {
        board' := board[index := X];
      } else {
        board' := board[index := O];
      }
    }
  }

  /** X has moved as often as O, or once more. */
  ghost predicate Alternating(b: Board)
  {
    CountOf(b, X) == CountOf(b, O) || CountOf(b, X) == CountOf(b, O) + 1
  }

  /** A click keeps the moves alternating, and changes at most the clicked cell. */
  lemma ClickAlternates(b: Board, index: int)
    requires |b| == 9 && 0 <= index < 9 && Alternating(b)
    ensures Alternating(AfterClick(b, index))
    ensures forall i :: 0 <= i < 9 && i != index ==> AfterClick(b, index)[i] == b[i]
  {
    if b[index] == Empty {
      CountOfUpdate(b, index, ToMove(b), X);
      CountOfUpdate(b, index, ToMove(b), O);
    }
  }

  /** A game: the board after the clicks, in order, from board b. */
  function Play(b: Board, clicks: seq<int>): (r: Board)
    requires |b| == 9 && forall k :: 0 <= k < |clicks| ==> 0 <= clicks[k] < 9
    ensures |r| == 9
    decreases |clicks|
  {
    if clicks == [] then b else Play(AfterClick(b, clicks[0]), clicks[1..])
  }

  /** From the reset board, every sequence of clicks leaves X equal to O or one ahead. */
  lemma {:induction false} PlayAlternates(b: Board, clicks: seq<int>)
    requires |b| == 9 && forall k :: 0 <= k < |clicks| ==> 0 <= clicks[k] < 9
    requires Alternating(b)
    ensures Alternating(Play(b, clicks))
    decreases |clicks|
  {
    if clicks != [] {
      ClickAlternates(b, clicks[0]);
      PlayAlternates(AfterClick(b, clicks[0]), clicks[1..]);
    }
  }

  lemma GamesAlternate(clicks: seq<int>)
    requires forall k :: 0 <= k < |clicks| ==> 0 <= clicks[k] < 9
    ensures Alternating(Play(EmptyBoard(), clicks))
  {
    assert CountOf(EmptyBoard(), X) == 0 && CountOf(EmptyBoard(), O) == 0 by {
      EmptyCounts(EmptyBoard());
    }
    PlayAlternates(EmptyBoard(), clicks);
  }

  lemma {:induction false} EmptyCounts(b: Board)
    requires forall i :: 0 <= i < |b| ==> b[i] == Empty
    ensures CountOf(b, X) == 0 && CountOf(b, O) == 0
  {
    if b != [] {
      EmptyCounts(b[1..]);
    }
  }

  /** The eight lines of `$lines`: three rows, three columns, two diagonals. */
  const Lines: seq<seq<int>> := [[0, 1, 2], [3, 4, 5], [6, 7, 8], [0, 3, 6], [1, 4, 7], [2, 5, 8], [0, 4, 8], [2, 4, 6]]

  /** Three equal cells that are not "0" on line k. */
  predicate LineWins(b: Board, k: int)
    requires |b| == 9 && 0 <= k < |Lines|
  {
    var l := Lines[k];
    b[l[0]] != Empty && b[l[0]] == b[l[1]] && b[l[1]] == b[l[2]]
  }

  /** The value of `$winner` after the first n lines: the mark of the last winning line among them. */
  function LastWinner(b: Board, n: int): Option<Mark>
    requires |b| == 9 && 0 <= n <= |Lines|
  {
    if n == 0 then None
    else if LineWins(b, n - 1) then Some(b[Lines[n - 1][0]])
    else LastWinner(b, n - 1)
  }

  /**
   * There is a winner exactly when some line wins, and then it is the mark
   * of a winning line that no later line overrides.
   */
  lemma {:induction false} LastWinnerSpec(b: Board, n: int)
    requires |b| == 9 && 0 <= n <= |Lines|
    ensures LastWinner(b, n).Some? <==> exists k :: 0 <= k < n && LineWins(b, k)
    ensures LastWinner(b, n).Some? ==>
      exists k :: 0 <= k < n && LineWins(b, k) && LastWinner(b, n).value == b[Lines[k][0]]
        && (forall k' :: k < k' < n ==> !LineWins(b, k'))
  {
    if n > 0 {
      LastWinnerSpec(b, n - 1);
    }
  }

  /** The `foreach ($lines as $line)` scan; `$winner` is "" until a line wins. */
  method FindWinner(b: Board) returns (winner: Option<Mark>)
    requires |b| == 9
    ensures winner == LastWinner(b, |Lines|)
  {
    winner := None;
    for k := 0 to |Lines|
      invariant winner == LastWinner(b, k)
    {
      var line := Lines[k];
      if b[line[0]] != Empty && b[line[0]] == b[line[1]] && b[line[1]] == b[line[2]] {
        winner := Some(b[line[0]]);
      }
    }
  }

  /** The response for a board: the winner if any, otherwise DRAW when no cell is "0", otherwise the board. */
  function Outcome(b: Board): (r: Response)
    requires |b| == 9
    ensures r.Winner? <==> exists k :: 0 <= k < |Lines| && LineWins(b, k)
    ensures r.Winner? ==> r.mark != Empty && LastWinner(b, |Lines|) == Some(r.mark)
    ensures r.Draw? <==> (forall k :: 0 <= k < |Lines| ==> !LineWins(b, k)) && Empty !in b
    ensures r.State? ==> r.board == b && Empty in b
  {
    LastWinnerSpec(b, |Lines|);
    match LastWinner(b, |Lines|)
    case Some(m) => Winner(m)
    case None => if Empty !in b then Draw else State(b)
  }

  /**
   * One request on the stored board: the new stored board and the
   * response. A reset answers with the empty board and skips the scan.
   */
  method Handle(stored: Board, request: Request) returns (board': Board, response: Response)
    requires |stored| == 9
    requires request.Click? ==> 0 <= request.index < 9
    ensures request.Reset? ==> board' == EmptyBoard() && response == State(EmptyBoard())
    ensures request.Click? ==> board' == AfterClick(stored, request.index) && response == Outcome(board')
    ensures request.View? ==> board' == stored && response == Outcome(stored)
  {
    if request.Reset? {
      return EmptyBoard(), State(EmptyBoard());
    }
    board' := stored;
    if request.Click? {
      board' := ClickCell(stored, request.index);
    }
    var winner := FindWinner(board');
    LastWinnerSpec(board', |Lines|);
    if winner.Some? {
      response := Winner(winner.value);
    } else if Empty !in board' {
      response := Draw;
    } else {
      response := State(board');
    }
  }
}
