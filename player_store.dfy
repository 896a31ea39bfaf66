// The decoding part of the player store (src/store/usePlayer.js): the
// per-cell status decoding and 6x5 board filling of returnBoard, and the
// game-status switch of getPlayerGameStatus. The contract reads those
// functions await are parameters here.

module PlayerStore {
  import opened Options

  /** The members of LetterState that returnBoard uses. */
  datatype LetterState = Absent | Present | Correct

  const REVEALED: string := "revealed"
  const UNREVEALED: string := "unrevealed"

  /** The board is m = 6 rows of n = 5 letters. */
  const ROWS: nat := 6
  const COLUMNS: nat := 5

  /** The { letter, state, revealed } object of one board cell. */
  datatype Cell = Cell(letter: string, state: LetterState, revealed: string)

  /** What getRowValues(i) answers: the row's letters, then their numeric statuses. */
  datatype RowValues = RowValues(letters: seq<string>, statuses: seq<int>)

  /** The if-chain of returnBoard on one letter and its status number. */
  function DecodeCell(letter: string, status: int): (c: Cell)
    ensures c.letter == letter
    ensures c.revealed == REVEALED <==> 1 <= status <= 3
    ensures c.revealed == UNREVEALED <==> !(1 <= status <= 3)
    ensures c.state == Absent <==> status == 0 || status == 1
    ensures c.state == Correct <==> status == 3
    ensures c.state == Present <==> status == 2 || status < 0 || 3 < status
  {
    if status == 0 then Cell(letter, Absent, UNREVEALED)
    else if status == 1 then Cell(letter, Absent, REVEALED)
    else if status == 2 then Cell(letter, Present, REVEALED)
    else if status == 3 then Cell(letter, Correct, REVEALED)
    else Cell(letter, Present, UNREVEALED)
  }

  /** The status number a decoded cell stands for; 4 for every status outside 0..3. */
  function StatusOf(c: Cell): int {
    match c.state
    case Absent => if c.revealed == REVEALED then 1 else 0
    case Present => if c.revealed == REVEALED then 2 else 4
    case Correct => 3
  }

  /** Decoding keeps statuses 0..3 apart and merges every other status into one cell. */
  lemma DecodeCellRoundTrip(letter: string, status: int)
    ensures StatusOf(DecodeCell(letter, status)) == if 0 <= status <= 3 then status else 4
    ensures DecodeCell(letter, StatusOf(DecodeCell(letter, status))) == DecodeCell(letter, status)
  {
  }

  /** The switch of getPlayerGameStatus. */
  function GameStatusName(code: int): (name: string)
    ensures name == "Active" <==> code == 0
    ensures name == "Winner" <==> code == 1
    ensures name == "Loser" <==> code == 2
    ensures name == "" <==> code != 0 && code != 1 && code != 2
  {
    if code == 0 then "Active"
    else if code == 1 then "Winner"
    else if code == 2 then "Loser"
    else ""
  }

  /** The game-status code a status name is shown for; None for "" and unknown names. */
  function GameStatusCode(name: string): (code: Option<int>)
    ensures code.Some? ==> GameStatusName(code.value) == name
  {
    if name == "Active" then Some(0)
    else if name == "Winner" then Some(1)
    else if name == "Loser" then Some(2)
    else None
  }

  lemma GameStatusRoundTrip(code: int)
    ensures GameStatusCode(GameStatusName(code)) == if 0 <= code <= 2 then Some(code) else None
  {
  }

  /** The store fields that returnBoard and getPlayerGameStatus assign. */
  class Player {
    var playerBoard: array2?<Cell>
    var playerGameStatus: string

    constructor ()
      ensures playerBoard == null && playerGameStatus == ""
    {
      playerBoard := null;
      playerGameStatus := "";
    }

    /** getPlayerGameStatus with gameStatus standing for the contract's answer. */
    method GetPlayerGameStatus(gameStatus: int) returns (code: int)
      modifies this
      ensures code == gameStatus
      ensures playerGameStatus == GameStatusName(gameStatus)
      ensures playerBoard == old(playerBoard)
    {
      if gameStatus == 0 {
        playerGameStatus := "Active";
      } else if gameStatus == 1 {
        playerGameStatus := "Winner";
      } else if gameStatus == 2 {
        playerGameStatus := "Loser";
      } else {
        playerGameStatus := "";
      }
      code := gameStatus;
    }

    /**
     * returnBoard: rows[i] stands for getRowValues(i) and gameStatus for the
     * answer getPlayerGameStatus awaits. Fills a fresh 6x5 board cell by cell.
     */
    method ReturnBoard(rows: seq<RowValues>, gameStatus: int)
      requires |rows| == ROWS
      requires forall i :: 0 <= i < |rows| ==>
        |rows[i].letters| >= COLUMNS && |rows[i].statuses| >= COLUMNS
      modifies this
      ensures playerBoard != null && fresh(playerBoard)
      ensures playerBoard.Length0 == ROWS && playerBoard.Length1 == COLUMNS
      ensures forall i, j :: 0 <= i < ROWS && 0 <= j < COLUMNS ==>
        playerBoard[i, j] == DecodeCell(rows[i].letters[j], rows[i].statuses[j])
      ensures playerGameStatus == GameStatusName(gameStatus)
    {
      var m := ROWS;
      var n := COLUMNS;
      var currentBoard := new Cell[m, n];
      for i := 0 to m
        invariant forall i', j :: 0 <= i' < i && 0 <= j < n ==>
          currentBoard[i', j] == DecodeCell(rows[i'].letters[j], rows[i'].statuses[j])
      {
        for j := 0 to n
          invariant forall i', j' :: 0 <= i' < i && 0 <= j' < n ==>
            currentBoard[i', j'] == DecodeCell(rows[i'].letters[j'], rows[i'].statuses[j'])
          invariant forall j' :: 0 <= j' < j ==>
            currentBoard[i, j'] == DecodeCell(rows[i].letters[j'], rows[i].statuses[j'])
        {
          var letter := rows[i].letters[j];
          var letterStatus := rows[i].statuses[j];
          currentBoard[i, j] := DecodeCell(letter, letterStatus);
        }
      }
      var _ := GetPlayerGameStatus(gameStatus);
      playerBoard := currentBoard;
    }
  }
}
