/** The server's single game record (BackEnd/server.js): the `currentGame`
    object that `/api/game/new` replaces and `/api/game/guess` updates in
    place. HTTP routing, JSON bodies and status codes are not modelled;
    a handler's reply is the `GuessResponse` the method returns. */
module Server {
  import opened Common
  import opened Digits
  import opened GameLogic

  /** The record's contents as a value. */
  datatype GameRecord = GameRecord(
    targetNumber: Option<int>,
    isActive: bool,
    turnsRemaining: int,
    gameHistory: seq<HistoryEntry>)

  /** What the guess handler answers, in the order it decides. */
  datatype GuessResponse =
    | NoActiveGame
    | Rejected(error: ValidationError)
    | Won(result: MatchResult, turnsTaken: int, targetNumber: int)
    | Lost(result: MatchResult, targetNumber: int)
    | Continue(result: MatchResult, turnsRemaining: int)

  const MaxTurns := 10

  /** A number the generator can return: its decimal digits form a secret. */
  predicate IsSecretNumber(n: int) {
    n >= 0 && IsSecret(ToDigits(n))
  }

  /** The record before any game: no target, inactive, ten turns, no history. */
  function InitialRecord(): GameRecord {
    GameRecord(None, false, MaxTurns, [])
  }

  /** The record `/api/game/new` installs. */
  function NewRecord(target: int): GameRecord {
    GameRecord(Some(target), true, MaxTurns, [])
  }

  /** The record's invariant: every turn used is a history entry, turns
      never go below 0, and an active game has a turn left and a secret. */
  predicate Invariant(g: GameRecord) {
    && 0 <= g.turnsRemaining
    && g.turnsRemaining + |g.gameHistory| == MaxTurns
    && (g.targetNumber.Some? ==> IsSecretNumber(g.targetNumber.value))
    && (g.isActive ==> g.turnsRemaining > 0 && g.targetNumber.Some?)
  }

  /** The guess handler on a record: refuse when inactive, refuse an invalid
      guess, otherwise score it, use a turn, log it, and test the win before
      the loss. */
  function Respond(g: GameRecord, guess: seq<int>): (p: (GameRecord, GuessResponse))
    requires Invariant(g)
  {
    if !g.isActive then (g, NoActiveGame)
    else if ValidateGuess(guess).Invalid? then (g, Rejected(ValidateGuess(guess).error))
    else
      var target := g.targetNumber.value;
      var result := Score(guess, ToDigits(target));
      var h := g.gameHistory + [HistoryEntry(guess, result.exactMatches, result.partialMatches)];
      var t := g.turnsRemaining - 1;
      if result.exactMatches == 5 then (GameRecord(g.targetNumber, false, t, h), Won(result, |h|, target))
      else if t == 0 then (GameRecord(g.targetNumber, false, t, h), Lost(result, target))
      else (GameRecord(g.targetNumber, true, t, h), Continue(result, t))
  }

  /** The record after a sequence of guesses, and the replies, in order. */
  function Play(g: GameRecord, guesses: seq<seq<int>>): (p: (GameRecord, seq<GuessResponse>))
    requires Invariant(g)
    ensures Invariant(p.0) && |p.1| == |guesses|
    decreases |guesses|
  {
    if guesses == [] then (g, [])
    else
      var first := Respond(g, guesses[0]);
      RespondKeepsInvariant(g, guesses[0]);
      var rest := Play(first.0, guesses[1..]);
      (rest.0, [first.1] + rest.1)
  }

  /** `currentGame`, with the fields the handlers read and write. */
  class GameServer {
    var targetNumber: Option<int>
    var isActive: bool
    var turnsRemaining: int
    var gameHistory: seq<HistoryEntry>

    function Record(): GameRecord
      reads this
    {
      GameRecord(targetNumber, isActive, turnsRemaining, gameHistory)
    }

    predicate Valid()
      reads this
    {
      Invariant(Record())
    }

    /** The record the module starts with. */
    constructor ()
      ensures Valid()
      ensures Record() == InitialRecord()
    {
      targetNumber := None;
      isActive := false;
      turnsRemaining := MaxTurns;
      gameHistory := [];
    }

    /** `/api/game/new`: a fresh record around the number the generator
        drew, which `GenerateRandomNumber` proves to be a secret. */
    method NewGame(target: int)
      requires IsSecretNumber(target)
      modifies this
      ensures Valid()
      ensures Record() == NewRecord(target)
    {
      targetNumber := Some(target);
      isActive := true;
      turnsRemaining := MaxTurns;
      gameHistory := [];
    }

    /** `/api/game/guess`. */
    method Guess(guess: seq<int>) returns (response: GuessResponse)
      requires Valid()
      modifies this
      ensures Valid()
      ensures (Record(), response) == Respond(old(Record()), guess)
    {
      if !isActive {
        return NoActiveGame;
      }
      var validation := ValidateGuess(guess);
      if validation.Invalid? {
        return Rejected(validation.error);
      }
      var result := CheckGuess(guess, ToDigits(targetNumber.value));
      turnsRemaining := turnsRemaining - 1;
      gameHistory := gameHistory + [HistoryEntry(guess, result.exactMatches, result.partialMatches)];
      if result.exactMatches == 5 {
        isActive := false;
        return Won(result, |gameHistory|, targetNumber.value);
      }
      if turnsRemaining == 0 {
        isActive := false;
        return Lost(result, targetNumber.value);
      }
      response := Continue(result, turnsRemaining);
      RespondKeepsInvariant(old(Record()), guess);
    }
  }

  // ---------------------------------------------------------------------
  // Properties

  /** A new game holds the invariant: active, ten turns, empty history. */
  lemma NewRecordValid(target: int)
    requires IsSecretNumber(target)
    ensures Invariant(NewRecord(target))
    ensures NewRecord(target).turnsRemaining == 10 && NewRecord(target).gameHistory == []
  {
  }

  /** Every reply keeps the record's invariant. */
  lemma RespondKeepsInvariant(g: GameRecord, guess: seq<int>)
    requires Invariant(g)
    ensures Invariant(Respond(g, guess).0)
  {
  }

  /** A guess is refused exactly when the record is left as it was; an
      inactive game refuses every guess, an active one every invalid guess. */
  lemma RefusalChangesNothing(g: GameRecord, guess: seq<int>)
    requires Invariant(g)
    ensures var (g', response) := Respond(g, guess);
      && ((response.NoActiveGame? || response.Rejected?) <==> g' == g)
      && (response.NoActiveGame? <==> !g.isActive)
      && (response.Rejected? <==> g.isActive && ValidateGuess(guess) != Valid)
  {
    var (g', response) := Respond(g, guess);
    if !(response.NoActiveGame? || response.Rejected?) {
      assert |g'.gameHistory| == |g.gameHistory| + 1;
    }
  }

  /** An accepted guess uses exactly one turn and logs exactly one entry,
      holding the guess and its score against the secret's digits. */
  lemma AcceptedGuessUsesOneTurn(g: GameRecord, guess: seq<int>)
    requires Invariant(g) && g.isActive && ValidateGuess(guess) == Valid
    ensures var (g', response) := Respond(g, guess);
      var result := Score(guess, ToDigits(g.targetNumber.value));
      && g'.turnsRemaining == g.turnsRemaining - 1
      && g'.gameHistory == g.gameHistory + [HistoryEntry(guess, result.exactMatches, result.partialMatches)]
      && g'.targetNumber == g.targetNumber
      && response.result == result
  {
  }

  /** The game is won exactly when the guess is the secret; a win is
      reported even on the tenth guess, with `turnsTaken` the history's
      length, and afterwards no guess is accepted. */
  lemma WinOnSecret(g: GameRecord, guess: seq<int>)
    requires Invariant(g) && g.isActive && ValidateGuess(guess) == Valid
    ensures var (g', response) := Respond(g, guess);
      && (response.Won? <==> guess == ToDigits(g.targetNumber.value))
      && (response.Won? ==> response.turnsTaken == |g'.gameHistory| == MaxTurns - g'.turnsRemaining)
      && (response.Won? || response.Lost? <==> !g'.isActive)
      && (response.Lost? <==> guess != ToDigits(g.targetNumber.value) && g.turnsRemaining == 1)
  {
    FiveExactMeansEqual(guess, ToDigits(g.targetNumber.value));
  }

  /** Starting from any valid record, a sequence of guesses is accepted at
      most as many times as there are turns left: a game takes at most ten
      guesses. */
  lemma {:induction false} AtMostTurnsRemaining(g: GameRecord, guesses: seq<seq<int>>)
    requires Invariant(g)
    ensures |Play(g, guesses).0.gameHistory| - |g.gameHistory| <= g.turnsRemaining
    ensures |Play(g, guesses).0.gameHistory| <= MaxTurns
    decreases |guesses|
  {
    if guesses != [] {
      var first := Respond(g, guesses[0]);
      RespondKeepsInvariant(g, guesses[0]);
      AtMostTurnsRemaining(first.0, guesses[1..]);
    }
  }
}
