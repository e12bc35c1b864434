/** The tutorial context (frontend/src/context/TutorialContext.tsx): the
    tutorial's state and data, the strategy mode, and the player's in/out
    marks on the digits table. React's state slots are the fields of
    `TutorialSession`; a setter call is an assignment to its field. */
module TutorialContext {
  import opened Common
  import opened Digits
  import opened TutorialLogic

  datatype StrategyMode = Automatic | Manual

  datatype CellMark = MarkedIn | MarkedOut

  /** The action `markCell` receives: a mark to set, or `"undo"`. */
  datatype CellAction = SetMark(mark: CellMark) | UndoMark

  type CellKey = (int, int)

  /** The other mode: automatic becomes manual and manual automatic. */
  function Toggled(mode: StrategyMode): (m: StrategyMode)
    ensures m != mode
  {
    if mode == Automatic then Manual else Automatic
  }

  /** Toggling twice gives the mode back. */
  lemma ToggleTwice(mode: StrategyMode)
    ensures Toggled(Toggled(mode)) == mode
  {
  }

  /** `markCell` on the mark map: undo deletes the key, a mark is stored at
      it; every other key keeps its mark. */
  function MarkCellMap(marks: map<CellKey, CellMark>, row: int, col: int, action: CellAction): (m: map<CellKey, CellMark>)
    ensures action.UndoMark? ==> (row, col) !in m
    ensures action.SetMark? ==> (row, col) in m && m[(row, col)] == action.mark
    ensures forall k :: k != (row, col) ==> (k in m <==> k in marks) && (k in m ==> m[k] == marks[k])
  {
    match action
    case UndoMark => marks - {(row, col)}
    case SetMark(mark) => marks[(row, col) := mark]
  }

  /** The digit `markCell` hands to the registered callback: only for an
      out mark with a callback present, and only when the digits-table cell
      holds a digit. Row `row` must exist there, since the source reads
      `digitsTable[row][col]`; a column outside the row reads `undefined`. */
  function CallbackDigit(digitsTable: Grid<Cell>, callbackRegistered: bool, row: int, col: int, action: CellAction): (d: Option<int>)
    requires IsGrid(digitsTable)
    requires action == SetMark(MarkedOut) && callbackRegistered ==> 0 <= row < 4
    ensures d.Some? <==> action == SetMark(MarkedOut) && callbackRegistered && 0 <= col < 3 && digitsTable[row][col].Some?
    ensures d.Some? ==> digitsTable[row][col] == Some(d.value)
  {
    if action == SetMark(MarkedOut) && callbackRegistered && 0 <= col < 3 then digitsTable[row][col]
    else None
  }

  /** The digits table turn 1 builds from the first guess's digits. */
  function FirstGuessLayout(ds: seq<int>): (g: Grid<Cell>)
    requires LayoutFits(ds)
    ensures IsGrid(g)
    ensures forall j :: 0 <= j < 3 ==> g[0][j] == Some(ds[j])
    ensures g[1][0] == Some(ds[3]) && g[1][1] == Some(ds[4]) && g[1][2] == None
  {
    DigitsLayout(ds, RemoveDigits(ResetDigitsArray(), ds))
  }

  /** The tutorial after a scored guess: on turn 1 the digits table is
      first built from the guess's digits, then the turn's clues apply.
      `None` is the throw of `setTutorialDigitsFromInput` on a turn-1 guess
      whose digits do not fill the table; it happens before any state is
      set. */
  function UpdateFromGuess(state: TutorialState, data: TutorialData, guess: nat,
                           exactMatches: int, partialMatches: int, turn: int): (u: Option<TutorialUpdate>)
    requires state.WellShaped()
    ensures u.None? <==> turn == 1 && !LayoutFits(ToDigits(guess))
  {
    if turn == 1 && !LayoutFits(ToDigits(guess)) then None
    else
      var current := if turn == 1 then state.(digitsTable := FirstGuessLayout(ToDigits(guess))) else state;
      Some(ApplyClues(turn, exactMatches, partialMatches, current, data))
  }

  /** Turn 1 lays out the guess's digits and the digits it leaves, every
      digit in exactly one cell when the guess has five distinct digits;
      any other turn leaves the digits table as it was. The sum of the turn
      is stored and the clues follow `ApplyClues`. */
  lemma DigitsTableFromFirstGuess(state: TutorialState, data: TutorialData, guess: nat,
                                  exactMatches: int, partialMatches: int, turn: int)
    requires state.WellShaped()
    requires turn == 1 ==> LayoutFits(ToDigits(guess))
    ensures var u := UpdateFromGuess(state, data, guess, exactMatches, partialMatches, turn).value;
      var ds := ToDigits(guess);
      && (turn != 1 ==> u.state.digitsTable == state.digitsTable)
      && (turn == 1 ==> u.state.digitsTable == FirstGuessLayout(ds))
      && (turn == 1 && |ds| == 5 && Distinct(ds) ==>
            forall d :: multiset(FilledCells(u.state.digitsTable))[d] == if IsDigit(d) then 1 else 0)
      && u.data.sumOfCenteredDisplaced == data.sumOfCenteredDisplaced[turn - 1 := exactMatches + partialMatches]
  {
    if turn == 1 {
      var ds := ToDigits(guess);
      var current := state.(digitsTable := FirstGuessLayout(ds));
      var u := ApplyClues(turn, exactMatches, partialMatches, current, data);
      assert UpdateFromGuess(state, data, guess, exactMatches, partialMatches, turn) == Some(u);
      assert u.state.digitsTable == FirstGuessLayout(ds);
      if |ds| == 5 && Distinct(ds) {
        DigitsTablePartition(ds);
      }
    }
  }

  /** Every guess of five digits fills the table: turn 1 never throws on it. */
  lemma FiveDigitGuessFits(state: TutorialState, data: TutorialData, guess: nat,
                           exactMatches: int, partialMatches: int, turn: int)
    requires state.WellShaped() && |ToDigits(guess)| == 5
    ensures UpdateFromGuess(state, data, guess, exactMatches, partialMatches, turn).Some?
  {
    FiveDigitsLeaveFive(ToDigits(guess));
  }

  /** The number the game board submits for the text "02345" is 2345: its
      four digits do not fill the table, and turn 1 throws. */
  lemma FourDigitGuessThrows(state: TutorialState, data: TutorialData, exactMatches: int, partialMatches: int)
    requires state.WellShaped()
    ensures UpdateFromGuess(state, data, 2345, exactMatches, partialMatches, 1) == None
  {
    assert ToDigits(2345) == ToDigits(234) + [5];
    assert ToDigits(234) == ToDigits(23) + [4];
    assert ToDigits(23) == ToDigits(2) + [3];
  }

  /** What App.tsx passes to the tutorial's `setGameDigitMarkCallback`, a
      React state setter. A value is stored as it is; a function is called
      as an updater on the slot's previous value, and its result is stored.
      `holdsCallback` says whether what is stored is the game's marking
      function. */
  datatype SlotArgument =
    | StoreValue(holdsCallback: bool)
    | CallUpdater(returnsCallback: bool)

  /** Whether the callback slot holds a function after the setter runs. */
  function SetSlot(previous: bool, arg: SlotArgument): (held: bool)
    ensures arg.StoreValue? ==> held == arg.holdsCallback
    ensures arg.CallUpdater? ==> held == arg.returnsCallback
  {
    match arg
    case StoreValue(h) => h
    case CallUpdater(r) => r
  }

  /** App.tsx as written: `markAllOccurrencesOfDigit` itself is passed, so
      React calls it as an updater; with the previous slot value as its
      digit it takes its guard and returns nothing. */
  const ConnectAsWritten: SlotArgument := CallUpdater(false)

  /** The evident intent, `() => markAllOccurrencesOfDigit`: the updater
      returns the game's function, which the slot then holds. */
  const ConnectAsIntended: SlotArgument := CallUpdater(true)

  /** As written, the slot never holds the callback after App connects it,
      so an out mark on a digit cell never marks the game's digits. */
  lemma CallbackNeverFiresAsWritten(previous: bool, digitsTable: Grid<Cell>, row: int, col: int, action: CellAction)
    requires IsGrid(digitsTable)
    ensures !SetSlot(previous, ConnectAsWritten)
    ensures CallbackDigit(digitsTable, SetSlot(previous, ConnectAsWritten), row, col, action) == None
  {
  }

  /** Connected as intended, an out mark on a cell holding a digit hands
      that digit to the game's marking function. */
  lemma CallbackFiresWhenConnected(previous: bool, digitsTable: Grid<Cell>, row: int, col: int)
    requires IsGrid(digitsTable) && 0 <= row < 4 && 0 <= col < 3 && digitsTable[row][col].Some?
    ensures SetSlot(previous, ConnectAsIntended)
    ensures CallbackDigit(digitsTable, SetSlot(previous, ConnectAsIntended), row, col, SetMark(MarkedOut))
            == digitsTable[row][col]
  {
  }

  /** The tutorial provider's state. */
  class TutorialSession {
    var tutorialState: TutorialState
    var tutorialData: TutorialData
    var strategyMode: StrategyMode
    var cellMarks: map<CellKey, CellMark>
    /** Whether a game-digit callback is held (the slot is not `null`). */
    var callbackRegistered: bool

    predicate Valid()
      reads this
    {
      tutorialState.WellShaped()
    }

    /** The provider's initial state. */
    constructor ()
      ensures Valid()
      ensures tutorialState == InitializeTutorialState()
      ensures tutorialData == TutorialData(map[], 0)
      ensures strategyMode == Automatic && cellMarks == map[] && !callbackRegistered
    {
      tutorialState := InitializeTutorialState();
      tutorialData := TutorialData(map[], 0);
      strategyMode := Automatic;
      cellMarks := map[];
      callbackRegistered := false;
    }

    method ToggleStrategyMode()
      modifies this
      ensures strategyMode == Toggled(old(strategyMode))
      ensures tutorialState == old(tutorialState) && tutorialData == old(tutorialData)
      ensures cellMarks == old(cellMarks) && callbackRegistered == old(callbackRegistered)
    {
      strategyMode := if strategyMode == Automatic then Manual else Automatic;
    }

    /** `resetTutorial`: fresh grids, no sums, counter 0, no cell marks. */
    method ResetTutorial()
      modifies this
      ensures Valid()
      ensures tutorialState == InitializeTutorialState()
      ensures tutorialData == TutorialData(map[], 0)
      ensures cellMarks == map[]
      ensures strategyMode == old(strategyMode) && callbackRegistered == old(callbackRegistered)
    {
      tutorialState := InitializeTutorialState();
      tutorialData := TutorialData(map[], 0);
      cellMarks := map[];
    }

    /** `setGameDigitMarkCallback`: React's state setter for the slot. */
    method SetGameDigitMarkCallback(arg: SlotArgument)
      modifies this
      ensures callbackRegistered == SetSlot(old(callbackRegistered), arg)
      ensures tutorialState == old(tutorialState) && tutorialData == old(tutorialData)
      ensures strategyMode == old(strategyMode) && cellMarks == old(cellMarks)
    {
      match arg {
        case StoreValue(h) => callbackRegistered := h;
        case CallUpdater(r) => callbackRegistered := r;
      }
    }

    /** `updateTutorialFromGuess`. On turn 1 the guess's digits go into the
        table first; when they do not fill it the call throws before any
        state is set (`thrown`), and nothing changes. */
    method UpdateTutorialFromGuess(guess: nat, exactMatches: int, partialMatches: int, turn: int)
      returns (thrown: bool)
      requires Valid()
      modifies this
      ensures Valid()
      ensures var u := UpdateFromGuess(old(tutorialState), old(tutorialData), guess, exactMatches, partialMatches, turn);
        && (thrown <==> u.None?)
        && (u.None? ==> tutorialState == old(tutorialState) && tutorialData == old(tutorialData))
        && (u.Some? ==> TutorialUpdate(tutorialState, tutorialData) == u.value)
      ensures strategyMode == old(strategyMode) && cellMarks == old(cellMarks)
      ensures callbackRegistered == old(callbackRegistered)
    {
      var currentState := tutorialState;
      if turn == 1 {
        var guessDigits := ToDigits(guess);
        var laidOut := SetTutorialDigitsFromInput(guessDigits, tutorialState);
        if laidOut.None? {
          return true;
        }
        currentState := laidOut.value;
      }
      var update := SetTutorialClues(turn, exactMatches, partialMatches, currentState, tutorialData);
      tutorialState := update.state;
      tutorialData := update.data;
      thrown := false;
    }

    /** `markCell`: updates the mark map and returns the digit passed to
        the game-digit callback, if it is called. */
    method MarkCell(row: int, col: int, action: CellAction) returns (callbackDigit: Option<int>)
      requires Valid()
      requires action == SetMark(MarkedOut) && callbackRegistered ==> 0 <= row < 4
      modifies this
      ensures tutorialState == old(tutorialState) && tutorialData == old(tutorialData)
      ensures strategyMode == old(strategyMode) && callbackRegistered == old(callbackRegistered)
      ensures cellMarks == MarkCellMap(old(cellMarks), row, col, action)
      ensures callbackDigit == CallbackDigit(tutorialState.digitsTable, callbackRegistered, row, col, action)
    {
      var key := (row, col);
      callbackDigit := None;
      if action.UndoMark? {
        cellMarks := cellMarks - {key};
      } else {
        cellMarks := cellMarks[key := action.mark];
        if action.mark == MarkedOut && callbackRegistered {
          var digitValue := if 0 <= col < 3 then tutorialState.digitsTable[row][col] else None;
          if digitValue.Some? {
            callbackDigit := digitValue;
          }
        }
      }
    }

    /** `getCellMark`: the stored mark, or nothing when the key is absent. */
    function GetCellMark(row: int, col: int): (r: Option<CellMark>)
      reads this
      ensures r.Some? <==> (row, col) in cellMarks
      ensures r.Some? ==> r.value == cellMarks[(row, col)]
    {
      if (row, col) in cellMarks then Some(cellMarks[(row, col)]) else None
    }
  }
}
