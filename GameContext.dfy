/** The game context's digit marks (frontend/src/context/GameContext.tsx):
    the player marks a digit of a past guess as not in the secret, in it,
    or in position. The string key `"row-index"` is the pair
    `(row, index)`; two pairs of naturals give the same key text exactly
    when they are equal. */
module GameContext {
  import opened Common
  import opened GameLogic

  datatype DigitMark = NotIn | In | Position

  /** The action `markGameDigit` receives: a mark to set, or `"undo"`. */
  datatype MarkAction = Mark(mark: DigitMark) | Undo

  type Key = (int, int)

  /** `markGameDigit` on the mark map: undo deletes the key, any other
      action stores its mark there; every other key keeps its mark. */
  function MarkDigit(marks: map<Key, DigitMark>, row: int, index: int, action: MarkAction): (m: map<Key, DigitMark>)
    ensures action.Undo? ==> (row, index) !in m
    ensures action.Mark? ==> (row, index) in m && m[(row, index)] == action.mark
    ensures forall k :: k != (row, index) ==> (k in m <==> k in marks) && (k in m ==> m[k] == marks[k])
  {
    match action
    case Undo => marks - {(row, index)}
    case Mark(mark) => marks[(row, index) := mark]
  }

  /** `gameDigitMarks[key] || null`. */
  function LookupMark(marks: map<Key, DigitMark>, row: int, index: int): (r: Option<DigitMark>)
    ensures r.Some? <==> (row, index) in marks
    ensures r.Some? ==> r.value == marks[(row, index)]
  {
    if (row, index) in marks then Some(marks[(row, index)]) else None
  }

  /** Digit `index` of the guess in row `row` is `d`. */
  predicate Occurs(history: seq<HistoryEntry>, d: int, k: Key) {
    0 <= k.0 < |history| && 0 <= k.1 < |history[k.0].guess| && history[k.0].guess[k.1] == d
  }

  /** Every position in the history where digit `d` was guessed. */
  function Occurrences(history: seq<HistoryEntry>, d: int): (s: set<Key>)
    ensures forall k :: k in s <==> Occurs(history, d, k)
  {
    set r, i | 0 <= r < |history| && 0 <= i < |history[r].guess| && history[r].guess[i] == d :: (r, i)
  }

  /** The marks after marking every occurrence of `d` as not in the secret. */
  function MarkedNotIn(marks: map<Key, DigitMark>, history: seq<HistoryEntry>, d: int): (m: map<Key, DigitMark>)
    ensures forall k :: Occurs(history, d, k) ==> k in m && m[k] == NotIn
    ensures forall k :: !Occurs(history, d, k) ==> (k in m <==> k in marks) && (k in m ==> m[k] == marks[k])
  {
    map k | k in marks.Keys + Occurrences(history, d) :: if Occurs(history, d, k) then NotIn else marks[k]
  }

  /** Marking all occurrences twice marks the same keys as marking once. */
  lemma MarkedNotInIdempotent(marks: map<Key, DigitMark>, history: seq<HistoryEntry>, d: int)
    ensures MarkedNotIn(MarkedNotIn(marks, history, d), history, d) == MarkedNotIn(marks, history, d)
  {
    var once := MarkedNotIn(marks, history, d);
    var twice := MarkedNotIn(once, history, d);
    assert twice.Keys == once.Keys;
  }

  /** After `MarkDigit`, looking the key up gives back the mark, or nothing
      after an undo; marking and then undoing a key that held no mark
      restores the map. */
  lemma LookupAfterMark(marks: map<Key, DigitMark>, row: int, index: int, action: MarkAction)
    ensures LookupMark(MarkDigit(marks, row, index, action), row, index)
            == (match action case Undo => None case Mark(m) => Some(m))
    ensures (row, index) !in marks ==> MarkDigit(MarkDigit(marks, row, index, action), row, index, Undo) == marks
  {
    var m := MarkDigit(MarkDigit(marks, row, index, action), row, index, Undo);
    if (row, index) !in marks {
      assert m.Keys == marks.Keys;
    }
  }

  /** The mark map of the game context, with the history it marks. */
  class GameMarks {
    var gameHistory: seq<HistoryEntry>
    var isPlaying: bool
    var gameDigitMarks: map<Key, DigitMark>

    constructor ()
      ensures gameHistory == [] && !isPlaying && gameDigitMarks == map[]
    {
      gameHistory := [];
      isPlaying := false;
      gameDigitMarks := map[];
    }

    /** A scored guess appended to the history. */
    method RecordGuess(entry: HistoryEntry)
      modifies this
      ensures gameHistory == old(gameHistory) + [entry]
      ensures isPlaying == old(isPlaying) && gameDigitMarks == old(gameDigitMarks)
    {
      gameHistory := gameHistory + [entry];
    }

    /** `resetGame`: the game stops and every mark is cleared. Starting the
        next game goes through the server and is not part of this model. */
    method ResetGame()
      modifies this
      ensures !isPlaying && gameDigitMarks == map[]
      ensures gameHistory == old(gameHistory)
    {
      isPlaying := false;
      gameDigitMarks := map[];
    }

    method MarkGameDigit(rowIndex: int, digitIndex: int, action: MarkAction)
      modifies this
      ensures gameDigitMarks == MarkDigit(old(gameDigitMarks), rowIndex, digitIndex, action)
      ensures gameHistory == old(gameHistory) && isPlaying == old(isPlaying)
    {
      var key := (rowIndex, digitIndex);
      if action.Undo? {
        gameDigitMarks := gameDigitMarks - {key};
      } else {
        gameDigitMarks := gameDigitMarks[key := action.mark];
      }
    }

    function GetGameDigitMark(rowIndex: int, digitIndex: int): (r: Option<DigitMark>)
      reads this
      ensures r == LookupMark(gameDigitMarks, rowIndex, digitIndex)
    {
      if (rowIndex, digitIndex) in gameDigitMarks then Some(gameDigitMarks[(rowIndex, digitIndex)]) else None
    }

    /** `markAllOccurrencesOfDigit`: an empty digit or a mark other than
        not-in changes nothing; otherwise every position of the history
        holding the digit is marked not-in, walking rows and then digits. */
    method MarkAllOccurrencesOfDigit(digit: Option<int>, mark: DigitMark)
      modifies this
      ensures digit.None? || mark != NotIn ==> gameDigitMarks == old(gameDigitMarks)
      ensures digit.Some? && mark == NotIn ==>
        gameDigitMarks == MarkedNotIn(old(gameDigitMarks), gameHistory, digit.value)
      ensures gameHistory == old(gameHistory) && isPlaying == old(isPlaying)
    {
      if digit.None? || mark != NotIn {
        return;
      }
      var d := digit.value;
      var newMarks := gameDigitMarks;
      for rowIndex := 0 to |gameHistory|
        invariant forall k :: Occurs(gameHistory, d, k) && k.0 < rowIndex ==> k in newMarks && newMarks[k] == NotIn
        invariant forall k :: !(Occurs(gameHistory, d, k) && k.0 < rowIndex) ==>
          (k in newMarks <==> k in gameDigitMarks) && (k in newMarks ==> newMarks[k] == gameDigitMarks[k])
      {
        var guessDigits := gameHistory[rowIndex].guess;
        for digitIndex := 0 to |guessDigits|
          invariant forall k :: Occurs(gameHistory, d, k) && (k.0 < rowIndex || (k.0 == rowIndex && k.1 < digitIndex)) ==>
            k in newMarks && newMarks[k] == NotIn
          invariant forall k :: !(Occurs(gameHistory, d, k) && (k.0 < rowIndex || (k.0 == rowIndex && k.1 < digitIndex))) ==>
            (k in newMarks <==> k in gameDigitMarks) && (k in newMarks ==> newMarks[k] == gameDigitMarks[k])
        {
          if guessDigits[digitIndex] == d {
            newMarks := newMarks[(rowIndex, digitIndex) := mark];
          }
        }
      }
      var spec := MarkedNotIn(gameDigitMarks, gameHistory, d);
      assert newMarks.Keys == spec.Keys;
      gameDigitMarks := newMarks;
    }
  }
}
