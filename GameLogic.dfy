/** The server's game logic (BackEnd/gameLogic.js): drawing the secret,
    scoring a guess against it and validating a guess.

    A guess or a target is the digit sequence of its decimal text, the
    array `String(n).split("").map(Number)` the source compares. */
module GameLogic {
  import opened Common
  import opened Digits

  datatype MatchResult = MatchResult(exactMatches: int, partialMatches: int)

  /** One entry of a game history, on the server and in the client alike:
      the guess's digits and the clue it received. */
  datatype HistoryEntry = HistoryEntry(guess: seq<int>, exactMatches: int, partialMatches: int)

  /** The three reasons `validateGuess` gives, in the order it tests them. */
  datatype ValidationError = WrongLength | LeadingZero | RepeatedDigit

  datatype Validation = Valid | Invalid(error: ValidationError)

  /** A secret as the generator promises it: five distinct digits, the
      first of them not 0. */
  predicate IsSecret(ds: seq<int>) {
    |ds| == 5 && AllDigits(ds) && Distinct(ds) && ds[0] != 0
  }

  // ---------------------------------------------------------------------
  // Scoring

  /** Element `i` of a digit array as JavaScript reads it: past the end the
      read yields `undefined`, here `None`. */
  function At(s: seq<int>, i: int): Option<int> {
    if 0 <= i < |s| then Some(s[i]) else None
  }

  /** `guessDigits[i] === targetDigits[i]`; two `undefined` reads are equal. */
  predicate ExactAt(guess: seq<int>, target: seq<int>, i: int) {
    At(guess, i) == At(target, i)
  }

  /** `targetDigits.includes(guessDigits[i]) && guessDigits[i] !== targetDigits[i]`. */
  predicate PartialAt(guess: seq<int>, target: seq<int>, i: int) {
    && 0 <= i < |guess|
    && guess[i] in target
    && At(guess, i) != At(target, i)
  }

  /** The number of positions below `n` with an exact match. */
  function ExactCount(guess: seq<int>, target: seq<int>, n: nat): (r: nat)
    ensures r <= n
  {
    if n == 0 then 0
    else ExactCount(guess, target, n - 1) + (if ExactAt(guess, target, n - 1) then 1 else 0)
  }

  /** The number of positions below `n` with a partial match. */
  function PartialCount(guess: seq<int>, target: seq<int>, n: nat): (r: nat)
    ensures r <= n
  {
    if n == 0 then 0
    else PartialCount(guess, target, n - 1) + (if PartialAt(guess, target, n - 1) then 1 else 0)
  }

  /** The number of positions below `n` whose guess digit occurs in the target. */
  function PresentCount(guess: seq<int>, target: seq<int>, n: nat): (r: nat)
    ensures r <= n
  {
    if n == 0 then 0
    else PresentCount(guess, target, n - 1) + (if n - 1 < |guess| && guess[n - 1] in target then 1 else 0)
  }

  /** The clue for a guess: both counts range over the five positions. */
  function Score(guess: seq<int>, target: seq<int>): MatchResult {
    MatchResult(ExactCount(guess, target, 5), PartialCount(guess, target, 5))
  }

  /** Counts exact and partial matches with two counting loops. */
  method CheckGuess(guess: seq<int>, target: seq<int>) returns (r: MatchResult)
    ensures r == Score(guess, target)
    ensures 0 <= r.exactMatches <= 5 && 0 <= r.partialMatches <= 5
  {
    var exactMatches := 0;
    var partialMatches := 0;
    for i := 0 to 5
      invariant exactMatches == ExactCount(guess, target, i)
    {
      if At(guess, i) == At(target, i) {
        exactMatches := exactMatches + 1;
      }
    }
    for i := 0 to 5
      invariant partialMatches == PartialCount(guess, target, i)
    {
      if i < |guess| && guess[i] in target && At(guess, i) != At(target, i) {
        partialMatches := partialMatches + 1;
      }
    }
    r := MatchResult(exactMatches, partialMatches);
  }

  /** On five-digit guess and target, a position counts as exact or as
      partial (never both) exactly when its guess digit is in the target. */
  lemma {:induction false} ExactPlusPartial(guess: seq<int>, target: seq<int>, n: nat)
    requires n <= |guess| && n <= |target|
    ensures ExactCount(guess, target, n) + PartialCount(guess, target, n)
            == PresentCount(guess, target, n)
  {
    if n > 0 {
      ExactPlusPartial(guess, target, n - 1);
      var i := n - 1;
      assert At(guess, i) == Some(guess[i]) && At(target, i) == Some(target[i]);
      if guess[i] == target[i] {
        assert guess[i] in target;
      }
    }
  }

  /** The clue for five-digit sequences: each count is in [0,5], and
      exact plus partial is the number of guess digits found in the target. */
  lemma ScoreBounds(guess: seq<int>, target: seq<int>)
    requires |guess| == 5 && |target| == 5
    ensures var r := Score(guess, target);
      && 0 <= r.exactMatches <= 5 && 0 <= r.partialMatches <= 5
      && r.exactMatches + r.partialMatches == PresentCount(guess, target, 5)
      && r.exactMatches + r.partialMatches <= 5
  {
    ExactPlusPartial(guess, target, 5);
  }

  /** Every position matches itself exactly, so nothing is partial. */
  lemma {:induction false} SelfCounts(target: seq<int>, n: nat)
    ensures ExactCount(target, target, n) == n
    ensures PartialCount(target, target, n) == 0
  {
    if n > 0 {
      SelfCounts(target, n - 1);
    }
  }

  /** Guessing the target itself gives five exact and no partial matches. */
  lemma ScoreOfTarget(target: seq<int>)
    ensures Score(target, target) == MatchResult(5, 0)
  {
    SelfCounts(target, 5);
  }

  /** Five exact matches happen only when the guess equals the target. */
  lemma {:induction false} FiveExactMeansEqual(guess: seq<int>, target: seq<int>)
    requires |guess| == 5 && |target| == 5
    ensures Score(guess, target).exactMatches == 5 <==> guess == target
  {
    if guess == target {
      ScoreOfTarget(target);
    } else {
      var k :| 0 <= k < 5 && guess[k] != target[k];
      MissedPositionLowersCount(guess, target, 5, k);
    }
  }

  lemma {:induction false} MissedPositionLowersCount(guess: seq<int>, target: seq<int>, n: nat, k: nat)
    requires k < n <= |guess| && n <= |target| && guess[k] != target[k]
    ensures ExactCount(guess, target, n) < n
  {
    if k < n - 1 {
      MissedPositionLowersCount(guess, target, n - 1, k);
    } else {
      assert !ExactAt(guess, target, k);
    }
  }

  // ---------------------------------------------------------------------
  // Validation

  /** `validateGuess` on the digits of `String(guess)`: the length first,
      then a leading 0, then `new Set(digits).size !== 5`. */
  function ValidateGuess(guess: seq<int>): (r: Validation)
    ensures r == Invalid(WrongLength) <==> |guess| != 5
    ensures r == Invalid(LeadingZero) <==> |guess| == 5 && guess[0] == 0
    ensures r == Invalid(RepeatedDigit) <==> |guess| == 5 && guess[0] != 0 && !Distinct(guess)
    ensures r == Valid <==> |guess| == 5 && guess[0] != 0 && Distinct(guess)
  {
    ElementsSize(guess);
    if |guess| != 5 then Invalid(WrongLength)
    else if guess[0] == 0 then Invalid(LeadingZero)
    else if |Elements(guess)| != 5 then Invalid(RepeatedDigit)
    else Valid
  }

  /** A number's own decimal text of five digits never starts with 0, so
      the leading-zero rejection is reachable only for string inputs. */
  lemma NumberNeverLeadingZero(n: nat)
    requires |ToDigits(n)| == 5
    ensures ValidateGuess(ToDigits(n)) != Invalid(LeadingZero)
  {
  }

  /** A leading-zero rejection does occur for a string such as "01234". */
  lemma StringWithLeadingZero()
    ensures ValidateGuess([0, 1, 2, 3, 4]) == Invalid(LeadingZero)
  {
  }

  /** Every secret passes validation. */
  lemma SecretIsValid(ds: seq<int>)
    requires IsSecret(ds)
    ensures ValidateGuess(ds) == Valid
  {
  }

  // ---------------------------------------------------------------------
  // Generating the secret

  /** The rejection rule applied to one draw: 0 is refused as the first
      digit, a digit already chosen is refused. */
  function Accept(digits: seq<int>, digit: int): seq<int> {
    if |digits| == 0 && digit == 0 then digits
    else if digit in digits then digits
    else digits + [digit]
  }

  /** The digits the sampling loop holds after consuming `draws`, starting
      from `digits`; it stops drawing once it holds five. */
  function Collect(digits: seq<int>, draws: seq<int>): seq<int>
    decreases |draws|
  {
    if |digits| >= 5 || draws == [] then digits
    else Collect(Accept(digits, draws[0]), draws[1..])
  }

  /** The loop invariant of the sampling loop: distinct digits, at most five,
      the first not 0. */
  predicate SecretPrefix(digits: seq<int>) {
    |digits| <= 5 && AllDigits(digits) && Distinct(digits)
    && (|digits| > 0 ==> digits[0] != 0)
  }

  /** Rejection sampling over the stream of random digits `draws` (each
      `Math.floor(Math.random() * 10)`). The source loops until five digits
      are held; a finite stream may run out first, and then the result is
      `None`. A completed draw is joined and parsed into a number whose
      decimal text is exactly the digits drawn. */
  method GenerateRandomNumber(draws: seq<int>) returns (number: Option<int>)
    requires AllDigits(draws)
    ensures number.Some? <==> |Collect([], draws)| == 5
    ensures number.Some? ==> 0 <= number.value && ToDigits(number.value) == Collect([], draws)
    ensures number.Some? ==> IsSecret(ToDigits(number.value))
  {
    var digits: seq<int> := [];
    var k := 0;
    while |digits| < 5 && k < |draws|
      invariant 0 <= k <= |draws|
      invariant SecretPrefix(digits)
      invariant Collect(digits, draws[k..]) == Collect([], draws)
    {
      var digit := draws[k];
      assert draws[k..][1..] == draws[k + 1..];
      k := k + 1;
      if |digits| == 0 && digit == 0 {
        continue;
      }
      if digit !in digits {
        digits := digits + [digit];
      }
    }
    if |digits| == 5 {
      var n := FromDigits(digits);
      SplitAfterJoin(digits);
      number := Some(n);
    } else {
      assert draws[k..] == [];
      number := None;
    }
  }

  /** Everything the sampling loop can hold satisfies its invariant. */
  lemma {:induction false} CollectKeepsPrefix(digits: seq<int>, draws: seq<int>)
    requires SecretPrefix(digits) && AllDigits(draws)
    ensures SecretPrefix(Collect(digits, draws))
    decreases |draws|
  {
    if |digits| < 5 && draws != [] {
      CollectKeepsPrefix(Accept(digits, draws[0]), draws[1..]);
    }
  }
}
