/** How one guess is judged, and the score and miss list that a sequence of
    submitted guesses produces over a round. */
module Scoring {
  import opened Text
  import opened Catalog

  /** A missed flag, kept for the review shown at game over. */
  datatype Miss = Miss(code: string, correct: string, guess: string)

  /** The comparison in handleSubmit: the guess is trimmed and lower-cased,
      the answer only lower-cased (it is not trimmed). */
  predicate IsCorrect(guess: string, answer: string)
  {
    ToLower(Trim(guess)) == ToLower(answer)
  }

  const CorrectFeedback: string := "✅ Correct!"

  function IncorrectFeedback(country: string): string
  {
    "❌ Incorrect. It was " + country + "."
  }

  /** The record appended for a wrong guess: the flag's code, its country,
      and the guess as trimmed (an empty string when left blank). */
  function MissFor(flag: Flag, guess: string): Miss
  {
    Miss(flag.code, flag.country, Trim(guess))
  }

  /** Number of guesses judged correct, guesses[i] being the guess for
      round[i]. */
  function CorrectCount(round: seq<Flag>, guesses: seq<string>): nat
    requires |guesses| <= |round|
  {
    if guesses == [] then 0
    else
      var k := |guesses| - 1;
      CorrectCount(round, guesses[..k]) + (if IsCorrect(guesses[k], round[k].country) then 1 else 0)
  }

  /** The miss records of the wrong guesses, in the order they were made. */
  function Misses(round: seq<Flag>, guesses: seq<string>): seq<Miss>
    requires |guesses| <= |round|
  {
    if guesses == [] then []
    else
      var k := |guesses| - 1;
      Misses(round, guesses[..k]) + (if IsCorrect(guesses[k], round[k].country) then [] else [MissFor(round[k], guesses[k])])
  }

  /** Every submitted guess is either counted in the score or recorded as a
      miss, never both: score + |misses| is the number of guesses. */
  lemma {:induction false} Tally(round: seq<Flag>, guesses: seq<string>)
    requires |guesses| <= |round|
    ensures CorrectCount(round, guesses) + |Misses(round, guesses)| == |guesses|
    ensures CorrectCount(round, guesses) <= |guesses|
  {
    if guesses != [] {
      Tally(round, guesses[..|guesses| - 1]);
    }
  }

  /** Every guess in guesses was right for its round entry. */
  predicate AllCorrect(round: seq<Flag>, guesses: seq<string>)
    requires |guesses| <= |round|
  {
    forall i :: 0 <= i < |guesses| ==> IsCorrect(guesses[i], round[i].country)
  }

  /** The miss list is empty exactly when every guess was right. */
  lemma {:induction false} NoMissesIffAllCorrect(round: seq<Flag>, guesses: seq<string>)
    requires |guesses| <= |round|
    ensures Misses(round, guesses) == [] <==> AllCorrect(round, guesses)
  {
    if guesses != [] {
      var k := |guesses| - 1;
      var before := guesses[..k];
      NoMissesIffAllCorrect(round, before);
      var hit := IsCorrect(guesses[k], round[k].country);
      assert |Misses(round, guesses)| == |Misses(round, before)| + (if hit then 0 else 1);
      if AllCorrect(round, guesses) {
        assert hit;
        forall i | 0 <= i < k ensures IsCorrect(before[i], round[i].country) {
          assert before[i] == guesses[i];
        }
      }
      if AllCorrect(round, before) && hit {
        forall i | 0 <= i < |guesses| ensures IsCorrect(guesses[i], round[i].country) {
          if i < k {
            assert before[i] == guesses[i];
          } else {
            assert i == k;
          }
        }
      }
    }
  }

  /** The i-th record of the miss list names a round entry answered wrongly,
      and the records appear in the order of their rounds. */
  lemma {:induction false} MissesAreWrongAnswers(round: seq<Flag>, guesses: seq<string>, m: Miss)
    requires |guesses| <= |round|
    requires m in Misses(round, guesses)
    ensures exists i :: 0 <= i < |guesses| && !IsCorrect(guesses[i], round[i].country) &&
                        m == MissFor(round[i], guesses[i])
  {
    var k := |guesses| - 1;
    var before := guesses[..k];
    if m in Misses(round, before) {
      MissesAreWrongAnswers(round, before, m);
      var i :| 0 <= i < |before| && !IsCorrect(before[i], round[i].country) && m == MissFor(round[i], before[i]);
      assert before[i] == guesses[i];
    } else {
      assert !IsCorrect(guesses[k], round[k].country) && m == MissFor(round[k], guesses[k]);
    }
  }

  /** A guess scores whenever, after dropping whitespace padding, it equals
      the answer up to the case of its letters. */
  lemma PaddedCaseVariantMatches(p: string, v: string, q: string, answer: string)
    requires AllSpace(p) && AllSpace(q) && Trimmed(v)
    requires ToLower(v) == ToLower(answer)
    ensures IsCorrect(p + v + q, answer)
  {
    TrimPadding(p, v, q);
  }

  /** Because the answer is not trimmed, an answer that starts with
      whitespace can never be matched, whatever the guess. */
  lemma UntrimmedAnswerNeverMatches(guess: string, answer: string)
    requires answer != [] && IsSpace(answer[0])
    ensures !IsCorrect(guess, answer)
  {
    var t := Trim(guess);
    TrimSpec(guess);
    ToLowerSpec(t);
    ToLowerSpec(answer);
    if t == [] {
      assert |ToLower(t)| == 0 < |ToLower(answer)|;
    } else {
      assert !IsSpace(ToLower(t)[0]) && IsSpace(ToLower(answer)[0]);
    }
  }

  /** "France" scores for France. */
  lemma ExactAnswerMatches()
    ensures IsCorrect("France", "France")
  {
  }

  /** " france " scores for France. */
  lemma PaddedLowerCaseMatches()
    ensures IsCorrect(" france ", "France")
  {
  }

  /** "FRANCE" scores for France. */
  lemma UpperCaseMatches()
    ensures IsCorrect("FRANCE", "France")
  {
  }

  /** "italy" does not score for Germany. */
  lemma WrongCountryMisses()
    ensures !IsCorrect("italy", "Germany")
    ensures Trim("italy") == "italy"
  {
  }

  /** A blank guess for Bhutan is a miss whose recorded guess is empty. */
  lemma BlankGuessMisses()
    ensures !IsCorrect("", "Bhutan")
    ensures MissFor(Flag("bt", "Bhutan"), "") == Miss("bt", "Bhutan", "")
  {
  }
}
