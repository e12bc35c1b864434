/** The client-side copy of the game logic (frontend/src/utils/localGameLogic.ts).
    Its bodies repeat the server's line for line; each member here is
    proved against the server's specification functions, so the two
    copies agree on every input. */
module LocalGameLogic {
  import opened Common
  import opened Digits
  import opened GameLogic

  /** `checkLocalGuess`: the same two counting loops as the server's. */
  method CheckLocalGuess(guess: seq<int>, target: seq<int>) returns (r: MatchResult)
    ensures r == Score(guess, target)
    ensures 0 <= r.exactMatches <= 5 && 0 <= r.partialMatches <= 5
  {
    var exactMatches := 0;
    var partialMatches := 0;
    for i := 0 to 5
      invariant exactMatches == ExactCount(guess, target, i)
    {
      if At(guess, i) == At(target, i) {
        exactMatches := exactMatches + 1;
      }
    }
    for i := 0 to 5
      invariant partialMatches == PartialCount(guess, target, i)
    {
      if i < |guess| && guess[i] in target && At(guess, i) != At(target, i) {
        partialMatches := partialMatches + 1;
      }
    }
    r := MatchResult(exactMatches, partialMatches);
  }

  /** `validateLocalGuess`: the server's three rejections in the server's order. */
  function ValidateLocalGuess(guess: seq<int>): (r: Validation)
    ensures r == ValidateGuess(guess)
    ensures r == Valid <==> |guess| == 5 && guess[0] != 0 && Distinct(guess)
  {
    ElementsSize(guess);
    if |guess| != 5 then Invalid(WrongLength)
    else if guess[0] == 0 then Invalid(LeadingZero)
    else if |Elements(guess)| != 5 then Invalid(RepeatedDigit)
    else Valid
  }

  /** `generateLocalRandomNumber`: the same rejection sampling over a
      stream of random digits. */
  method GenerateLocalRandomNumber(draws: seq<int>) returns (number: Option<int>)
    requires AllDigits(draws)
    ensures number.Some? <==> |Collect([], draws)| == 5
    ensures number.Some? ==> 0 <= number.value && ToDigits(number.value) == Collect([], draws)
    ensures number.Some? ==> IsSecret(ToDigits(number.value))
  {
    var digits: seq<int> := [];
    var k := 0;
    while |digits| < 5 && k < |draws|
      invariant 0 <= k <= |draws|
      invariant SecretPrefix(digits)
      invariant Collect(digits, draws[k..]) == Collect([], draws)
    {
      var digit := draws[k];
      assert draws[k..][1..] == draws[k + 1..];
      k := k + 1;
      if |digits| == 0 && digit == 0 {
        continue;
      }
      if digit !in digits {
        digits := digits + [digit];
      }
    }
    if |digits| == 5 {
      var n := FromDigits(digits);
      SplitAfterJoin(digits);
      number := Some(n);
    } else {
      assert draws[k..] == [];
      number := None;
    }
  }
}
