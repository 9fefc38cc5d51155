/** The FlagGame component: its seven state fields and the handlers that
    update them. Each handler's precondition on the stage says which
    rendering wires it up: the flag tiles and "Start Game" only in the
    select stage, "Submit" and Enter only while a flag is shown, "Play
    Again" only on the game-over screen. */
module Game {
  import opened Text
  import opened Selection
  import opened Catalog
  import opened Scoring

  datatype Stage = Select | Play

  /** score and missed are what the guesses made so far over round produce. */
  ghost predicate Scored(round: seq<Flag>, guesses: seq<string>, score: nat, missed: seq<Miss>)
  {
    |guesses| <= |round| &&
    score == CorrectCount(round, guesses) &&
    missed == Misses(round, guesses)
  }

  class FlagGame {
    /** `allFlags`, fixed when the component is created. */
    const catalog: seq<Flag>

    var stage: Stage
    var selectedFlags: seq<string>
    var missedFlags: seq<Miss>
    var currentIndex: nat
    var guess: string
    var feedback: string
    var score: nat

    /** The raw guesses submitted since the game started, in order. */
    ghost var guesses: seq<string>
    /** A submit has scheduled the advance callback, which has not yet run. */
    ghost var advancePending: bool

    /** The flags of this game: the derived `selectedFlagObjects`. */
    function Round(): seq<Flag>
      reads this`selectedFlags
    {
      SelectedFlagObjects(catalog, selectedFlags)
    }

    /** The game-over screen is shown. */
    predicate GameOver()
      reads this`stage, this`currentIndex, this`selectedFlags
    {
      stage == Play && currentIndex >= |Round()|
    }

    ghost predicate Valid()
      reads this
    {
      NoDup(Codes(catalog)) &&
      NoDup(selectedFlags) &&
      (forall c :: c in selectedFlags ==> c in Codes(catalog)) &&
      (stage == Select ==> missedFlags == [] && !advancePending) &&
      (stage == Play ==>
         |guesses| == currentIndex + (if advancePending then 1 else 0) &&
         Scored(Round(), guesses, score, missedFlags))
    }

    /** The initial values of the useState hooks. */
    constructor ()
      ensures Valid() && catalog == AllFlags
      ensures stage == Select && selectedFlags == [] && missedFlags == []
      ensures currentIndex == 0 && guess == "" && feedback == "" && score == 0
    {
      catalog := AllFlags;
      AllFlagsCodesDistinct();
      stage := Select;
      selectedFlags := [];
      missedFlags := [];
      currentIndex := 0;
      guess := "";
      feedback := "";
      score := 0;
      guesses := [];
      advancePending := false;
    }

    /** toggleFlag: a click on a catalog tile flips that code's membership. */
    method ToggleFlag(code: string)
      requires Valid() && stage == Select
      requires code in Codes(catalog)
      modifies this`selectedFlags
      ensures Valid()
      ensures selectedFlags == Toggle(old(selectedFlags), code)
    {
      ToggleKeepsDistinct(selectedFlags, code);
      selectedFlags := Toggle(selectedFlags, code);
    }

    /** startGame: refuses (only an alert) on an empty selection, otherwise
        enters the play stage with index, score, guess and feedback reset.
        The selection and the miss list are left as they are; the miss list
        is empty only because the select stage is entered with it empty. */
    method StartGame()
      requires Valid() && stage == Select
      modifies this`stage, this`currentIndex, this`score, this`guess, this`feedback, this`guesses
      ensures Valid()
      ensures old(selectedFlags) == [] ==> unchanged(this)
      ensures old(selectedFlags) != [] ==>
                stage == Play && currentIndex == 0 && score == 0 && guess == "" && feedback == "" &&
                missedFlags == [] && |Round()| == |selectedFlags| > 0
    {
      if selectedFlags == [] {
        return;
      }
      RoundMatchesSelection(catalog, selectedFlags);
      stage := Play;
      currentIndex := 0;
      score := 0;
      guess := "";
      feedback := "";
      guesses := [];
    }

    /** The text input's onChange: the pending guess, verbatim. */
    method SetGuess(text: string)
      modifies this`guess
      ensures guess == text
    {
      guess := text;
    }

    /** handleSubmit: judges the pending guess against the current flag,
        then either raises the score or appends one miss record, and
        schedules the advance callback. */
    method Submit()
      requires Valid() && stage == Play && currentIndex < |Round()| && !advancePending
      modifies this`score, this`feedback, this`missedFlags, this`guesses, this`advancePending
      ensures Valid() && advancePending
      ensures var flag := Round()[currentIndex];
              if IsCorrect(guess, flag.country) then
                score == old(score) + 1 && missedFlags == old(missedFlags) && feedback == CorrectFeedback
              else
                score == old(score) && feedback == IncorrectFeedback(flag.country) &&
                missedFlags == old(missedFlags) + [Miss(flag.code, flag.country, Trim(guess))]
    {
      var currentFlag := Round()[currentIndex];
      var normalizedGuess := ToLower(Trim(guess));
      var normalizedAnswer := ToLower(currentFlag.country);
      if normalizedGuess == normalizedAnswer {
        score := score + 1;
        feedback := CorrectFeedback;
      } else {
        feedback := IncorrectFeedback(currentFlag.country);
        missedFlags := missedFlags + [Miss(currentFlag.code, currentFlag.country, Trim(guess))];
      }
      ghost var before := guesses;
      guesses := guesses + [guess];
      assert guesses[..|guesses| - 1] == before;
      advancePending := true;
    }

    /** The setTimeout callback scheduled by Submit: clears feedback and
        guess and moves to the next flag. */
    method Advance()
      requires Valid() && advancePending
      modifies this`feedback, this`guess, this`currentIndex, this`advancePending
      ensures Valid() && !advancePending
      ensures feedback == "" && guess == "" && currentIndex == old(currentIndex) + 1
    {
      feedback := "";
      guess := "";
      currentIndex := currentIndex + 1;
      advancePending := false;
    }

    /** "Play Again": back to the select stage with the selection and the
        miss list emptied; score and index keep their values. */
    method PlayAgain()
      requires Valid() && GameOver()
      modifies this`stage, this`selectedFlags, this`missedFlags, this`guesses
      ensures Valid()
      ensures stage == Select && selectedFlags == [] && missedFlags == []
    {
      stage := Select;
      selectedFlags := [];
      missedFlags := [];
      guesses := [];
    }
  }

  /** While a game runs, every submitted flag is either in the score or in
      the miss list: score + |missedFlags| equals currentIndex between
      rounds, and the score never exceeds the number of flags. */
  lemma RunningTally(g: FlagGame)
    requires g.Valid() && g.stage == Play
    ensures g.score + |g.missedFlags| == g.currentIndex + (if g.advancePending then 1 else 0)
    ensures g.score <= |g.Round()|
  {
    Tally(g.Round(), g.guesses);
  }

  /** On the game-over screen the index stopped exactly at the end of the
      round, no advance is pending, and score + |missedFlags| is the number
      of flags played. */
  lemma FinalTally(g: FlagGame)
    requires g.Valid() && g.GameOver()
    ensures !g.advancePending && g.currentIndex == |g.Round()|
    ensures g.score + |g.missedFlags| == |g.Round()|
  {
    Tally(g.Round(), g.guesses);
  }

  /** The miss list reviewed at game over is empty exactly when every flag
      of the round was answered correctly. */
  lemma PerfectGame(g: FlagGame)
    requires g.Valid() && g.GameOver()
    ensures g.missedFlags == [] <==> g.score == |g.Round()|
    ensures g.missedFlags == [] <==> AllCorrect(g.Round(), g.guesses)
  {
    FinalTally(g);
    NoMissesIffAllCorrect(g.Round(), g.guesses);
  }

  /** One turn as the player sees it: type a guess, submit it, and let the
      feedback timer fire. The turn scores or records one miss, moves to
      the next flag, and keeps score + |missedFlags| == currentIndex. */
  method PlayTurn(g: FlagGame, text: string)
    requires g.Valid() && g.stage == Play && !g.advancePending && g.currentIndex < |g.Round()|
    modifies g
    ensures g.Valid() && g.stage == Play && !g.advancePending
    ensures g.selectedFlags == old(g.selectedFlags) && g.currentIndex == old(g.currentIndex) + 1
    ensures var flag := old(g.Round()[g.currentIndex]);
            if IsCorrect(text, flag.country) then
              g.score == old(g.score) + 1 && g.missedFlags == old(g.missedFlags)
            else
              g.score == old(g.score) && g.missedFlags == old(g.missedFlags) + [Miss(flag.code, flag.country, Trim(text))]
    ensures g.score + |g.missedFlags| == g.currentIndex <= |g.Round()|
  {
    g.SetGuess(text);
    g.Submit();
    g.Advance();
    RunningTally(g);
  }

  /** A fresh component in which Germany and then France are ticked and
      "Start Game" is pressed. Germany is ticked first, yet France is asked
      first: the round follows the catalog order. */
  method StartFranceGermany() returns (g: FlagGame)
    ensures fresh(g) && g.Valid() && !g.advancePending
    ensures g.stage == Play && g.currentIndex == 0 && g.score == 0 && g.missedFlags == []
    ensures g.Round() == [Flag("fr", "France"), Flag("de", "Germany")]
  {
    g := new FlagGame();
    assert Codes(AllFlags) == ["fr", "de", "bt", "sz"];
    g.ToggleFlag("de");
    g.ToggleFlag("fr");
    assert "fr"[0] != "de"[0];
    assert g.selectedFlags == ["de", "fr"];
    CatalogOrderRound();
    g.StartGame();
  }

  /** A whole game over France and Germany in which the first guess is
      right for France and the second wrong for Germany (for instance
      "France" and "italy", see ExactAnswerMatches and WrongCountryMisses):
      France is asked first, the final score is 1 and the only miss is
      Germany with the trimmed second guess. */
  method FranceGermanyGame(first: string, second: string) returns (finalScore: nat, missed: seq<Miss>, order: seq<string>)
    requires IsCorrect(first, "France")
    requires !IsCorrect(second, "Germany")
    ensures finalScore == 1
    ensures missed == [Miss("de", "Germany", Trim(second))]
    ensures order == ["fr", "de"]
  {
    var g := StartFranceGermany();
    order := Codes(g.Round());

    PlayTurn(g, first);
    assert g.score == 1 && g.missedFlags == [] && g.currentIndex == 1;
    PlayTurn(g, second);

    assert g.GameOver();
    finalScore, missed := g.score, g.missedFlags;
  }
}
