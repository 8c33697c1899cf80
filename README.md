# Hangman session engine

A Dafny model of the game-session core of `HangmanGame`, a terminal hangman game.

The game picks a secret answer. In basic mode it is a single word of at most eight
letters. In any other mode it is a phrase of three to five corpus tokens joined by
spaces. The player sees a mask with `_` for every letter and every other character, such
as the space, as itself. Each round the player types a letter within a time limit:

- a timeout or an empty line costs a life;
- anything that is not a single letter is refused at no cost;
- a letter already tried costs a life;
- a new letter in the answer is revealed at every position;
- a new letter not in the answer costs a life.

The game is won when no `_` is left and lost when the lives reach zero.

Files:

- `wrappers.dfy`: `Option` and `Result`.
- `text.dfy`: ASCII `isalpha` and `lower`, `" ".join` and `split(" ")`, and the lemma that
  splitting a joined phrase gives back its tokens.
- `words.dfy`: the word-list filter of `load_word_lists` and `_choose_word`. The random
  draws arrive as a `Draws` value.
- `game.dfy`: the mask invariant, `_init_display`, the reveal step, one guess as a pure
  function (`Evaluate`), the loop as a pure function (`Run`), and the class
  `HangmanGame`. The class holds the same fields as the source and has the methods
  `UpdateDisplay`, `Step` (one loop body) and `Play` (the loop). Each method is proved
  equal to its pure function.

## Model

| member | source | states |
|---|---|---|
| `Text.LowerChar` | hangman1.py:172 | lowering keeps a character's alphabetic status, sends letters to lower-case letters and leaves every other character alone |
| `Text.Lower` | hangman1.py:172 | `str.lower` keeps the length and lowers each character in place |
| `Text.Join` | hangman1.py:72-75 | `" ".join` puts the first token at the front, and the length is the token lengths plus one separator per pair; the empty list joins to the empty string (that splitting gives the tokens back in order is `Text.SplitJoin`) |
| `Text.SplitJoin` | hangman1.py:72-75 | splitting a phrase joined with single spaces gives back its tokens, when there is at least one token and none contains a space |
| `Text.JoinLowerText` | hangman1.py:72-75 | a phrase joined from lower-case words holds only lower-case letters and spaces |
| `Words.Filter` | hangman1.py:38-42 | a word is in the result exactly when it is an alphabetic corpus word within the length limit, lowered; every kept word is a non-empty lower-case word; the result is no longer than the corpus (order and duplicates are stated by `Words.FilterAppend`) |
| `Words.FilterOne` | hangman1.py:38-42 | a single word is kept, lowered, exactly when it is alphabetic and within the limit |
| `Words.FilterAppend` | hangman1.py:38-42 | filtering a concatenation is the concatenation of the filtered parts, so the comprehension keeps order and duplicates |
| `Words.LoadWordLists` | hangman1.py:36-43 | the basic-mode list holds only lower-case words of at most eight letters, the token list only lower-case words, and every admissible corpus word appears lowered |
| `Words.Picked` | hangman1.py:72-74 | the repeated `random.choice` draws give one token per draw, each a member of the token pool |
| `Words.ChooseWord` | hangman1.py:67-75 | fails exactly when the mode's pool is empty; basic mode returns a member of the word pool; any other mode returns a phrase that splits into 3 to 5 tokens, each a member of the token pool; the answer is non-empty lower-case text |
| `Hangman.InitDisplay` | hangman1.py:77-79 | the mask has the answer's length, `_` at every letter and the answer's own character elsewhere, so it satisfies the mask invariant with nothing guessed |
| `Hangman.Reveal` | hangman1.py:81-87 | the display after `_update_display` keeps its length, shows the letter at every index where the answer has it, and is unchanged at every other index |
| `Hangman.RevealMasked` | hangman1.py:81-87 | writing a letter at every index where the answer has it keeps the mask invariant with that letter added to the guessed set, and leaves every other index unchanged |
| `Hangman.MaskExamples` | hangman1_test.py:19-31 | "apple" masks to `_____` and guessing `p` gives `_pp__`; "unit test" masks to `____ ____` and guessing `t` gives `___t t__t` |
| `Hangman.WonIffAllGuessed` | hangman1.py:89-91 | under the mask invariant, no `_` is left exactly when every letter of the answer has been guessed |
| `Hangman.Classify` | hangman1.py:167-175 | no input or an empty line is no guess; the input is a letter guess exactly when it is one alphabetic character, and the guess is that character lowered |
| `Hangman.Evaluate` | hangman1.py:165-189 | timeout or empty line: one life lost, nothing else changes; not a single letter: nothing changes; a repeated letter: one life lost, nothing else; a new letter in the answer: recorded and revealed everywhere, no life lost; a new letter not in the answer: recorded, one life lost, display unchanged; every outcome keeps the mask invariant, never removes a guessed letter and costs at most one life |
| `Hangman.Run` | hangman1.py:162-189 | the loop reads at most the inputs given and keeps the display the answer's length |
| `Hangman.RunStopsWhenOver` | hangman1.py:162 | the loop stops before the inputs run out only at a win or a loss, and a game that starts won or lost (for instance with no lives) reads nothing |
| `Hangman.RunKeepsMask` | hangman1.py:162-189 | the loop keeps the mask invariant and a guessed set of lower-case letters only, never removes a guessed letter and never gives a life back |
| `Hangman.RunLivesFloor` | hangman1.py:93-95 | because the loop steps only while lives are positive, lives that start at 0 or more never end below 0 |
| `Hangman.HangmanGame.constructor` | hangman1.py:54-65 | the answer is the chosen word (in basic mode a pool word of at most eight letters), nothing is guessed, the display is the initial mask, lives are the maximum (6 by default), and the mask invariant holds |
| `Hangman.HangmanGame.IsWon` | hangman1.py:89-91 | for a valid session, won exactly when every letter of the answer has been guessed |
| `Hangman.HangmanGame.IsLost` | hangman1.py:93-95 | a session with no lives left is over: the loop of `play` reads no further input and changes nothing |
| `Hangman.HangmanGame.UpdateDisplay` | hangman1.py:81-87 | the buffer loop leaves the display equal to the old display with the letter written at every index where the answer has it |
| `Hangman.HangmanGame.Step` | hangman1.py:165-189 | one loop body changes the display, guessed set and lives exactly as `Evaluate` does and returns its outcome, keeping the mask invariant and the guessed set made of lower-case letters |
| `Hangman.HangmanGame.Play` | hangman1.py:162-189 | the loop leaves the session in the state `Run` computes and reports how many inputs it used, keeping the mask invariant |

## Left out

- The corpus loading from NLTK and its download (hangman1.py:9-17, 46-47) is foreign-library and disk/network I/O. `LoadWordLists` takes the raw corpora as sequences.
- The platform-dependent imports and the timed input (`timed_input`, `_windows_timed_input`, `_posix_timed_input`, `_render_timer_line`, hangman1.py:19-28, 97-150) depend on wall-clock time, keyboard polling and terminal redraws. Their result reaches the model only as the `Option<string>` given to `Step` and `Play`. `None` is a timeout. A string is the line as already stripped by the reader.
- All printing in `play` and the `__main__` menu (hangman1.py:154-160, 163-164, 168-189 messages, 191-205) is terminal I/O. The `Outcome` that `Step` returns names which feedback message is printed.
- The randomness of `_choose_word` is replaced by the `Draws` parameter: a word index, a phrase length in 3..5 and one token index per phrase token, all in range. The distributions are not modelled.
- `IsAlpha`, `LowerChar` and `Lower` are ASCII only. Python's `str.isalpha` and `str.lower` also accept and lower non-ASCII letters, and some of those change length when lowered.
- `Text.Split` is `str.split(" ")`, while the unit test calls `split()`. The two agree on phrases of non-empty, space-free tokens, which is all `ChooseWord` builds.
- `Hangman.HangmanGame.Play` reads a finite sequence of inputs, so it also stops when that sequence is used up. The source keeps reading until the game is won or lost.
- The constructor requires lower-case word pools, with basic-mode words of at most eight letters, which is what `load_word_lists` produces. It also requires the mode's pool to be non-empty. With an empty pool the source's `random.choice` raises inside `__init__`; `ChooseWord` models that case as `Failure(NoCandidates)`.
- `time_limit` is stored but used only by the timed input, which is not modelled.
