/** One game session: the secret answer, the mask shown to the player, the letters
    guessed so far and the remaining lives, with the evaluation of one guess and the
    loop that repeats it until the game is won or lost. */
module Hangman {
  import opened Wrappers
  import opened Text
  import opened Words

  /** `DEFAULT_MAX_LIVES` and `DEFAULT_TIME_LIMIT` (seconds per guess). */
  const DefaultMaxLives: int := 6
  const DefaultTimeLimit: int := 15

  /** The symbol shown for a letter not yet guessed. */
  const Placeholder: char := '_'

  /** The mutable part of a session, as a value. */
  datatype State = State(display: string, guessed: set<char>, lives: int)

  /** The mask invariant: the display has the answer's length and shows the answer's
      own character exactly where it is not a letter or has been guessed, and the
      placeholder everywhere else. */
  predicate Masked(answer: string, display: string, guessed: set<char>) {
    |display| == |answer| &&
    forall i :: 0 <= i < |answer| ==>
      display[i] == (if !IsAlpha(answer[i]) || answer[i] in guessed then answer[i] else Placeholder)
  }

  /** The guessed set holds only single lower-case letters. */
  predicate LowerLetters(guessed: set<char>) {
    forall c :: c in guessed ==> IsLowerLetter(c)
  }

  /** Every letter of the answer has been guessed. */
  predicate AllGuessed(answer: string, guessed: set<char>) {
    forall i :: 0 <= i < |answer| && IsAlpha(answer[i]) ==> answer[i] in guessed
  }

  /** `_init_display`: a placeholder for every letter, any other character as itself. */
  function InitDisplay(answer: string): (r: string)
    ensures |r| == |answer|
    ensures forall i :: 0 <= i < |answer| ==>
              r[i] == (if IsAlpha(answer[i]) then Placeholder else answer[i])
    ensures Masked(answer, r, {})
  {
    if answer == [] then []
    else [if IsAlpha(answer[0]) then Placeholder else answer[0]] + InitDisplay(answer[1..])
  }

  /** The display after `_update_display(letter)`: the letter written at every index
      where the answer has it. */
  function Reveal(display: string, answer: string, letter: char): (r: string)
    requires |answer| <= |display|
    ensures |r| == |display|
    ensures forall i :: 0 <= i < |answer| && answer[i] == letter ==> r[i] == letter
    ensures forall i :: 0 <= i < |display| && (i >= |answer| || answer[i] != letter) ==>
              r[i] == display[i]
  {
    seq(|display|, i requires 0 <= i < |display| =>
      if i < |answer| && answer[i] == letter then letter else display[i])
  }

  /** Revealing a letter keeps the mask invariant with that letter added to the
      guessed set, and shows it at every index where the answer has it. */
  lemma RevealMasked(answer: string, display: string, guessed: set<char>, letter: char)
    requires Masked(answer, display, guessed)
    ensures Masked(answer, Reveal(display, answer, letter), guessed + {letter})
    ensures forall i :: 0 <= i < |answer| && answer[i] == letter ==>
              Reveal(display, answer, letter)[i] == letter
    ensures forall i :: 0 <= i < |answer| && answer[i] != letter ==>
              Reveal(display, answer, letter)[i] == display[i]
  {
  }

  /** The two answers of the unit tests: "apple" masks to five placeholders and a
      guessed "p" shows both of its occurrences; in "unit test" the space is shown from
      the start and a guessed "t" shows all four occurrences. */
  lemma MaskExamples()
    ensures InitDisplay("apple") == "_____"
    ensures Reveal("_____", "apple", 'p') == "_pp__"
    ensures InitDisplay("unit test") == "____ ____"
    ensures Reveal("____ ____", "unit test", 't') == "___t t__t"
  {
    assert Reveal("_____", "apple", 'p')[..] == "_pp__";
    assert Reveal("____ ____", "unit test", 't')[..] == "___t t__t";
  }

  /** `is_won`: no placeholder is left. Under the mask invariant, and for an answer
      that itself holds no placeholder symbol, that is the case exactly when every
      letter of the answer has been guessed. */
  lemma {:induction false} WonIffAllGuessed(answer: string, display: string, guessed: set<char>)
    requires Masked(answer, display, guessed)
    requires Placeholder !in answer
    ensures Placeholder !in display <==> AllGuessed(answer, guessed)
  {
    if Placeholder !in display {
      forall i | 0 <= i < |answer| && IsAlpha(answer[i]) ensures answer[i] in guessed {
        assert display[i] != Placeholder;
      }
    } else {
      var j :| 0 <= j < |display| && display[j] == Placeholder;
      assert answer[j] != Placeholder;
      assert IsAlpha(answer[j]) && answer[j] !in guessed;
    }
  }

  /** What one line of input is, after `if not guess` and the lower-casing. */
  datatype Guess = NoGuess | Malformed | Letter(c: char)

  /** The tests at the top of the loop body: no input (timeout) or an empty line; after
      `guess.lower()`, anything but a single letter; or a single lower-case letter. */
  function Classify(input: Option<string>): (g: Guess)
    ensures g.NoGuess? <==> input.None? || input.value == ""
    ensures g.Letter? <==> input.Some? && |input.value| == 1 && IsAlpha(input.value[0])
    ensures g.Letter? ==> IsLowerLetter(g.c) && g.c == LowerChar(input.value[0])
  {
    if input.None? || input.value == "" then NoGuess
    else
      var guess := Lower(input.value);
      if |guess| != 1 || !IsAlpha(guess[0]) then Malformed
      else Letter(guess[0])
  }

  /** Which branch of the loop body ran, as the message it prints. */
  datatype Outcome = TimedOut | Invalid | Repeated(letter: char) | Correct(letter: char) | Wrong(letter: char)

  /** One iteration of the loop body of `play`, given what the timed read returned. */
  function Evaluate(answer: string, s: State, input: Option<string>): (r: (State, Outcome))
    requires |s.display| == |answer|
    // timeout or empty line: one life, nothing else
    ensures r.1 == TimedOut <==> input.None? || input.value == ""
    ensures r.1 == TimedOut ==> r.0 == s.(lives := s.lives - 1)
    // anything but a single letter: no change at all
    ensures r.1 == Invalid <==> Classify(input).Malformed?
    ensures r.1 == Invalid ==> r.0 == s
    // a letter already guessed: one life, nothing else
    ensures r.1.Repeated? ==> r.1.letter in s.guessed && r.0 == s.(lives := s.lives - 1)
    // a new letter in the answer: recorded, every occurrence revealed, no life lost
    ensures r.1.Correct? ==>
              r.1.letter !in s.guessed && r.1.letter in answer &&
              r.0 == State(Reveal(s.display, answer, r.1.letter), s.guessed + {r.1.letter}, s.lives)
    // a new letter not in the answer: recorded, one life, display unchanged
    ensures r.1.Wrong? ==>
              r.1.letter !in s.guessed && r.1.letter !in answer &&
              r.0 == State(s.display, s.guessed + {r.1.letter}, s.lives - 1)
    // the letter of a letter outcome is the lowered input
    ensures (r.1.Repeated? || r.1.Correct? || r.1.Wrong?) ==>
              Classify(input) == Letter(r.1.letter) && IsLowerLetter(r.1.letter)
    // what every outcome keeps
    ensures |r.0.display| == |answer|
    ensures s.lives - 1 <= r.0.lives <= s.lives
    ensures s.guessed <= r.0.guessed
    ensures Masked(answer, s.display, s.guessed) ==> Masked(answer, r.0.display, r.0.guessed)
    ensures LowerLetters(s.guessed) ==> LowerLetters(r.0.guessed)
  {
    match Classify(input)
    case NoGuess => (s.(lives := s.lives - 1), TimedOut)
    case Malformed => (s, Invalid)
    case Letter(c) =>
      if c in s.guessed then (s.(lives := s.lives - 1), Repeated(c))
      else if c in answer then
        assert Masked(answer, s.display, s.guessed) ==>
                 Masked(answer, Reveal(s.display, answer, c), s.guessed + {c}) by {
          if Masked(answer, s.display, s.guessed) {
            RevealMasked(answer, s.display, s.guessed, c);
          }
        }
        (State(Reveal(s.display, answer, c), s.guessed + {c}, s.lives), Correct(c))
      else (State(s.display, s.guessed + {c}, s.lives - 1), Wrong(c))
  }

  /** `is_lost() or is_won()`: the loop of `play` stops. */
  predicate Over(s: State) {
    s.lives <= 0 || Placeholder !in s.display
  }

  /** The loop of `play` over the inputs the timed reads return, in order: it stops
      when the game is lost or won, or when the inputs run out. The result is the final
      state and the number of inputs used. */
  function Run(answer: string, s: State, inputs: seq<Option<string>>): (r: (State, nat))
    requires |s.display| == |answer|
    ensures r.1 <= |inputs|
    ensures |r.0.display| == |answer|
    decreases |inputs|
  {
    if Over(s) || inputs == [] then (s, 0)
    else
      var next := Evaluate(answer, s, inputs[0]).0;
      var (final, used) := Run(answer, next, inputs[1..]);
      (final, used + 1)
  }

  /** The loop ends early only at a win or a loss, and once it is over nothing more is
      read. */
  lemma {:induction false} RunStopsWhenOver(answer: string, s: State, inputs: seq<Option<string>>)
    requires |s.display| == |answer|
    ensures var r := Run(answer, s, inputs);
            (r.1 < |inputs| ==> Over(r.0)) && (Over(s) ==> r == (s, 0))
    decreases |inputs|
  {
    if !Over(s) && inputs != [] {
      RunStopsWhenOver(answer, Evaluate(answer, s, inputs[0]).0, inputs[1..]);
    }
  }

  /** The loop keeps the mask invariant and the guessed set made of lower-case
      letters, never un-guesses a letter and never gives a life back. */
  lemma {:induction false} RunKeepsMask(answer: string, s: State, inputs: seq<Option<string>>)
    requires Masked(answer, s.display, s.guessed)
    ensures var r := Run(answer, s, inputs);
            Masked(answer, r.0.display, r.0.guessed) && s.guessed <= r.0.guessed && r.0.lives <= s.lives
    ensures LowerLetters(s.guessed) ==> LowerLetters(Run(answer, s, inputs).0.guessed)
    decreases |inputs|
  {
    if !Over(s) && inputs != [] {
      RunKeepsMask(answer, Evaluate(answer, s, inputs[0]).0, inputs[1..]);
    }
  }

  /** Because a step runs only while lives are positive and costs at most one, a game
      that starts with no negative lives never ends with negative lives. */
  lemma {:induction false} RunLivesFloor(answer: string, s: State, inputs: seq<Option<string>>)
    requires |s.display| == |answer|
    requires s.lives >= 0
    ensures Run(answer, s, inputs).0.lives >= 0
    decreases |inputs|
  {
    if !Over(s) && inputs != [] {
      RunLivesFloor(answer, Evaluate(answer, s, inputs[0]).0, inputs[1..]);
    }
  }

  /** The session of `HangmanGame`. The corpora and draws are the constructor's
      parameters; the answer is fixed once chosen. */
  class HangmanGame {
    const maxLives: int
    const mode: string
    const timeLimit: int
    const words: seq<string>
    const tokens: seq<string>
    const answer: string
    var display: string
    var guessed: set<char>
    var lives: int

    /** The mask invariant, over an answer that holds no placeholder symbol, with only
        lower-case letters guessed. */
    predicate Valid()
      reads this
    {
      Masked(answer, display, guessed) && Placeholder !in answer && LowerLetters(guessed)
    }

    function Current(): State
      reads this
    {
      State(display, guessed, lives)
    }

    /** `__init__`: choose the answer, no letter guessed, the full mask, all lives. */
    constructor (words: seq<string>, tokens: seq<string>, draws: Draws,
                 maxLives: int := DefaultMaxLives, mode: string := BasicMode,
                 timeLimit: int := DefaultTimeLimit)
      requires IsWordPool(words) && IsWordPool(tokens)
      requires forall w :: w in words ==> |w| <= MaxWordLength
      requires DrawsFit(mode, words, tokens, draws)
      requires ChooseWord(mode, words, tokens, draws).Success?
      ensures Valid()
      ensures answer == ChooseWord(mode, words, tokens, draws).value
      ensures mode == BasicMode ==> answer in words && |answer| <= MaxWordLength
      ensures display == InitDisplay(answer) && guessed == {} && lives == maxLives
      ensures this.maxLives == maxLives && this.mode == mode && this.timeLimit == timeLimit
      ensures this.words == words && this.tokens == tokens
    {
      this.maxLives := maxLives;
      this.lives := maxLives;
      this.mode := mode;
      this.timeLimit := timeLimit;
      this.words := words;
      this.tokens := tokens;
      var chosen := ChooseWord(mode, words, tokens, draws).value;
      this.answer := chosen;
      this.guessed := {};
      this.display := InitDisplay(chosen);
    }

    /** `is_won`: no placeholder left, which is exactly "every letter guessed". */
    predicate IsWon()
      reads this
      ensures Valid() ==> (IsWon() <==> AllGuessed(answer, guessed))
    {
      assert Valid() ==> (Placeholder !in display <==> AllGuessed(answer, guessed)) by {
        if Valid() {
          WonIffAllGuessed(answer, display, guessed);
        }
      }
      Placeholder !in display
    }

    /** `is_lost`: no lives left, so the loop of `play` reads no further input. */
    predicate IsLost()
      reads this
      ensures IsLost() && |display| == |answer| ==>
                forall inputs :: Run(answer, Current(), inputs) == (Current(), 0)
    {
      lives <= 0
    }

    /** `_update_display(letter)`: copy the display into a buffer, write the letter at
        every index where the answer has it, and store the buffer back. */
    method UpdateDisplay(letter: char)
      requires |display| == |answer|
      modifies this`display
      ensures display == Reveal(old(display), answer, letter)
    {
      var before := display;
      var cells := new char[|before|](i requires 0 <= i < |before| => before[i]);
      var i := 0;
      while i < |answer|
        invariant 0 <= i <= |answer|
        invariant forall k :: 0 <= k < i ==>
                    cells[k] == (if answer[k] == letter then letter else before[k])
        invariant forall k :: i <= k < cells.Length ==> cells[k] == before[k]
      {
        if answer[i] == letter {
          cells[i] := letter;
        }
        i := i + 1;
      }
      display := cells[..];
    }

    /** One iteration of the loop body of `play`, given the timed read's result. */
    method Step(input: Option<string>) returns (outcome: Outcome)
      requires Valid()
      modifies this`display, this`guessed, this`lives
      ensures Valid()
      ensures (Current(), outcome) == Evaluate(answer, old(Current()), input)
    {
      if input.None? || input.value == "" {
        lives := lives - 1;
        return TimedOut;
      }
      var guess := Lower(input.value);
      if |guess| != 1 || !IsAlpha(guess[0]) {
        return Invalid;
      }
      var c := guess[0];
      if c in guessed {
        lives := lives - 1;
        return Repeated(c);
      }
      guessed := guessed + {c};
      if c in answer {
        UpdateDisplay(c);
        outcome := Correct(c);
      } else {
        lives := lives - 1;
        outcome := Wrong(c);
      }
    }

    /** The loop of `play`: step while neither lost nor won, reading the next input;
        the model stops too when the inputs run out. */
    method Play(inputs: seq<Option<string>>) returns (used: nat)
      requires Valid()
      modifies this`display, this`guessed, this`lives
      ensures Valid()
      ensures (Current(), used) == Run(answer, old(Current()), inputs)
    {
      used := 0;
      while !IsLost() && !IsWon() && used < |inputs|
        invariant Valid()
        invariant used <= |inputs|
        invariant var rest := Run(answer, Current(), inputs[used..]);
                  (rest.0, used + rest.1) == Run(answer, old(Current()), inputs)
        decreases |inputs| - used
      {
        assert inputs[used..][1..] == inputs[used + 1..];
        var _ := Step(inputs[used]);
        used := used + 1;
      }
    }
  }
}
