/** The game board's guess input (frontend/src/components/GameBoard/GameBoard.tsx):
    the filter applied to every new value of the text field, and the checks
    made before a guess is submitted. The field's text is a `seq<char>`. */
module GameBoard {
  import opened Common
  import opened Digits

  /** The messages `handleInputChange` can set, in the order it tests them. */
  datatype InputError = NotOnlyDigits | FirstDigitZero | RepeatedDigit

  /** The field's text afterwards and the error shown (`None` for `""`). */
  datatype InputResult = InputResult(guess: seq<char>, error: Option<InputError>)

  predicate IsDigitChar(c: char) {
    '0' <= c <= '9'
  }

  /** `/^\d*$/`: every character is an ASCII digit (the empty text too). */
  predicate AllDigitChars(s: seq<char>) {
    forall i :: 0 <= i < |s| ==> IsDigitChar(s[i])
  }

  predicate DistinctChars(s: seq<char>) {
    forall i, j :: 0 <= i < j < |s| ==> s[i] != s[j]
  }

  /** A text the field can hold while typing: at most five distinct digits,
      the first of them not '0'. */
  predicate GoodGuess(s: seq<char>) {
    |s| <= 5 && AllDigitChars(s) && DistinctChars(s) && (|s| > 0 ==> s[0] != '0')
  }

  /** `handleInputChange`: non-digits, a lone "0" and a last character seen
      earlier are refused with an error; a value longer than five is
      ignored silently; anything else becomes the field's text. */
  function HandleInputChange(value: seq<char>, guess: seq<char>): (r: InputResult)
    ensures r.error == Some(NotOnlyDigits) <==> !AllDigitChars(value)
    ensures r.error == Some(FirstDigitZero) <==> AllDigitChars(value) && value == ['0']
    ensures r.error == Some(RepeatedDigit) <==>
      AllDigitChars(value) && value != ['0'] && |value| > 0 && value[|value| - 1] in value[..|value| - 1]
    ensures (AllDigitChars(value) && value != ['0'] && |value| <= 5
             && !(|value| > 0 && value[|value| - 1] in value[..|value| - 1]))
            ==> r == InputResult(value, None)
    ensures r.guess == value || r.guess == guess
    ensures r.error.Some? ==> r.guess == guess
    ensures |r.guess| <= 5 || r.guess == guess
  {
    if !AllDigitChars(value) then InputResult(guess, Some(NotOnlyDigits))
    else if |value| == 1 && value == ['0'] then InputResult(guess, Some(FirstDigitZero))
    else if |value| > 0 && value[|value| - 1] in value[..|value| - 1] then InputResult(guess, Some(RepeatedDigit))
    else if |value| > 5 then InputResult(guess, None)
    else InputResult(value, None)
  }

  /** Typing one more character onto a good text leaves a good text,
      whether the filter takes the new value or refuses it. */
  lemma AppendKeepsGood(guess: seq<char>, c: char)
    requires GoodGuess(guess)
    ensures GoodGuess(HandleInputChange(guess + [c], guess).guess)
  {
    var value := guess + [c];
    var r := HandleInputChange(value, guess);
    if r.guess == value && r.guess != guess {
      assert value[..|value| - 1] == guess;
      forall i, j | 0 <= i < j < |value| ensures value[i] != value[j] {
        if j == |value| - 1 {
          assert value[i] in guess;
        }
      }
    }
  }

  /** Deleting the last character of a good text leaves a good text, and
      the filter takes it. */
  lemma DeleteKeepsGood(guess: seq<char>)
    requires GoodGuess(guess) && |guess| > 0
    ensures HandleInputChange(guess[..|guess| - 1], guess).guess == guess[..|guess| - 1]
    ensures GoodGuess(guess[..|guess| - 1])
  {
    var value := guess[..|guess| - 1];
    if |value| > 0 {
      assert value[|value| - 1] == guess[|value| - 1];
      assert value[|value| - 1] !in value[..|value| - 1] by {
        forall i | 0 <= i < |value| - 1 ensures value[i] != value[|value| - 1] {
          assert value[i] == guess[i];
        }
      }
    }
  }

  /** One edit at the end of the field: a character appended, or the last
      one deleted. Edits elsewhere in the text are not of this kind (see
      `MidTextEditsPass`). */
  datatype Edit = Type(c: char) | Backspace

  /** The value the field reports after an edit of `text`. */
  function Edited(text: seq<char>, edit: Edit): seq<char> {
    match edit
    case Type(c) => text + [c]
    case Backspace => if text == [] then [] else text[..|text| - 1]
  }

  /** The field's text after a sequence of keyboard edits, from `start`. */
  function Typed(start: seq<char>, edits: seq<Edit>): seq<char>
    decreases |edits|
  {
    if edits == [] then start
    else Typed(HandleInputChange(Edited(start, edits[0]), start).guess, edits[1..])
  }

  /** From a good text, any sequence of characters appended at the end and
      deletions of the last character keeps the text good: distinct
      digits, no leading '0', at most five. */
  lemma {:induction false} TypingKeepsGood(start: seq<char>, edits: seq<Edit>)
    requires GoodGuess(start)
    ensures GoodGuess(Typed(start, edits))
    decreases |edits|
  {
    if edits != [] {
      match edits[0] {
        case Type(c) => AppendKeepsGood(start, c);
        case Backspace => if start != [] { DeleteKeepsGood(start); }
      }
      TypingKeepsGood(HandleInputChange(Edited(start, edits[0]), start).guess, edits[1..]);
    }
  }

  /** The filter tests only the last character for repeats and tests for a
      leading '0' only on a one-character value: a value pasted in one
      change passes with a repeated digit or a leading zero. */
  lemma PastedValuesPass()
    ensures HandleInputChange(['1', '1', '2', '3'], []) == InputResult(['1', '1', '2', '3'], None)
    ensures HandleInputChange(['0', '1', '2', '3', '4'], []) == InputResult(['0', '1', '2', '3', '4'], None)
  {
    assert ['1', '1', '2', '3'][..3] == ['1', '1', '2'];
    assert ['0', '1', '2', '3', '4'][..4] == ['0', '1', '2', '3'];
  }

  /** The same gaps are reached by editing inside the text: deleting the
      first character of "102" leaves "02", and inserting '2' into "123"
      gives "1223"; the filter takes both. */
  lemma MidTextEditsPass()
    ensures HandleInputChange(['0', '2'], ['1', '0', '2']) == InputResult(['0', '2'], None)
    ensures HandleInputChange(['1', '2', '2', '3'], ['1', '2', '3']) == InputResult(['1', '2', '2', '3'], None)
  {
    assert ['0', '2'][..1] == ['0'];
    assert ['1', '2', '2', '3'][..3] == ['1', '2', '2'];
  }

  // ---------------------------------------------------------------------
  // Submitting

  /** The digit values of a text of digits. */
  function CharDigits(s: seq<char>): (ds: seq<int>)
    requires AllDigitChars(s)
    ensures |ds| == |s| && AllDigits(ds)
    ensures forall i :: 0 <= i < |s| ==> ds[i] == (s[i] as int) - ('0' as int)
  {
    seq(|s|, i requires 0 <= i < |s| => (s[i] as int) - ('0' as int))
  }

  /** What `handleGuess` does with the field's text. */
  datatype Submission =
    | NotANumber
    | WrongLength
    | Submit(guessNumber: int, turn: int)

  /** `handleGuess`: `parseInt` of an empty text is NaN; a text of another
      length than five is refused; otherwise the parsed number is sent with
      turn |history| + 1. The field only holds text the filter took, so it
      is all digits. */
  function HandleGuess(guess: seq<char>, historyLength: nat): (r: Submission)
    requires AllDigitChars(guess)
    ensures r == NotANumber <==> |guess| == 0
    ensures r == WrongLength <==> 0 < |guess| != 5
    ensures r.Submit? <==> |guess| == 5
    ensures r.Submit? ==> r.turn == historyLength + 1 && r.guessNumber >= 0
  {
    if |guess| == 0 then NotANumber
    else if |guess| != 5 then WrongLength
    else Submit(FromDigits(CharDigits(guess)), historyLength + 1)
  }

  /** A good five-character text is submitted as a number whose decimal
      digits are exactly the typed digits: five of them, all distinct. */
  lemma SubmittedNumberHasTypedDigits(guess: seq<char>, historyLength: nat)
    requires GoodGuess(guess) && |guess| == 5
    ensures var r := HandleGuess(guess, historyLength);
      && r.Submit?
      && ToDigits(r.guessNumber) == CharDigits(guess)
      && |ToDigits(r.guessNumber)| == 5 && Distinct(ToDigits(r.guessNumber))
  {
    var ds := CharDigits(guess);
    assert ds[0] != 0;
    SplitAfterJoin(ds);
    forall i, j | 0 <= i < j < 5 ensures ds[i] != ds[j] {
      assert guess[i] != guess[j];
    }
  }

  /** Deleting the leading '1' of "10234" leaves "0234", which the filter takes. */
  lemma DeleteLeadingOne()
    ensures HandleInputChange(['0', '2', '3', '4'], ['1', '0', '2', '3', '4']) == InputResult(['0', '2', '3', '4'], None)
  {
    assert ['0', '2', '3', '4'][..3] == ['0', '2', '3'];
  }

  /** Typing '5' after "0234" gives "02345", which the filter takes. */
  lemma TypeFiveAfterZero()
    ensures HandleInputChange(['0', '2', '3', '4'] + ['5'], ['0', '2', '3', '4']) == InputResult(['0', '2', '3', '4', '5'], None)
  {
    assert ['0', '2', '3', '4'] + ['5'] == ['0', '2', '3', '4', '5'];
    assert ['0', '2', '3', '4', '5'][..4] == ['0', '2', '3', '4'];
  }

  /** `parseInt("02345")` is 2345. */
  lemma SubmitZeroLed()
    ensures HandleGuess(['0', '2', '3', '4', '5'], 0) == Submit(2345, 1)
  {
    var ds := CharDigits(['0', '2', '3', '4', '5']);
    assert ds == [0, 2, 3, 4, 5];
    assert ds[..4] == [0, 2, 3, 4] && [0, 2, 3, 4][..3] == [0, 2, 3];
    assert [0, 2, 3][..2] == [0, 2] && [0, 2][..1] == [0] && [0][..0] == [];
    assert FromDigits([0]) == 0;
    assert FromDigits([0, 2]) == 2;
    assert FromDigits([0, 2, 3]) == 23;
    assert FromDigits([0, 2, 3, 4]) == 234;
  }

  /** From the good text "10234", deleting the leading '1' and then typing
      '5' gives "02345", which is submitted as 2345: a number of four
      digits. */
  lemma KeyboardSubmitsFourDigits()
    ensures var t1 := HandleInputChange(['0', '2', '3', '4'], ['1', '0', '2', '3', '4']).guess;
      var t2 := HandleInputChange(t1 + ['5'], t1).guess;
      && GoodGuess(['1', '0', '2', '3', '4'])
      && t2 == ['0', '2', '3', '4', '5']
      && HandleGuess(t2, 0) == Submit(2345, 1)
  {
    DeleteLeadingOne();
    TypeFiveAfterZero();
    SubmitZeroLed();
  }
}
