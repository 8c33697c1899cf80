/** The word pools and the choice of the secret answer. The corpora themselves and the
    random generator are outside the model: the corpora arrive as sequences and every
    random draw as a parameter. */
module Words {
  import opened Wrappers
  import opened Text

  /** `MAX_WORD_LENGTH`: the longest single word used in basic mode. */
  const MaxWordLength: nat := 8

  /** The mode that picks a single word; any other mode builds a phrase. */
  const BasicMode: string := "basic"

  /** The range `random.randint(3, 5)` draws the number of phrase tokens from. */
  const MinPhraseTokens: nat := 3
  const MaxPhraseTokens: nat := 5

  /** Every entry is a non-empty lower-case word, as `load_word_lists` produces. */
  predicate IsWordPool(ws: seq<string>) {
    forall w :: w in ws ==> IsLowerWord(w)
  }

  /** The filter of one comprehension in `load_word_lists`: alphabetic, and no longer
      than `limit` when there is one. */
  predicate Admitted(w: string, limit: Option<nat>) {
    IsAlphaWord(w) && (limit.Some? ==> |w| <= limit.value)
  }

  /** `[w.lower() for w in raw if w.isalpha() and len(w) <= limit]`: keeps exactly the
      admitted words, lowered, in order. */
  function Filter(raw: seq<string>, limit: Option<nat>): (r: seq<string>)
    ensures |r| <= |raw|
    ensures IsWordPool(r)
    ensures forall w :: w in r && limit.Some? ==> |w| <= limit.value
    ensures forall v :: v in raw && Admitted(v, limit) ==> Lower(v) in r
    ensures forall w :: w in r ==> exists v :: v in raw && Admitted(v, limit) && Lower(v) == w
  {
    if raw == [] then []
    else
      var rest := Filter(raw[1..], limit);
      assert forall v :: v in raw[1..] ==> v in raw;
      if Admitted(raw[0], limit) then [Lower(raw[0])] + rest else rest
  }

  /** The comprehension handles one word at a time: a single word is kept, lowered,
      exactly when it is admitted. */
  lemma FilterOne(v: string, limit: Option<nat>)
    ensures Filter([v], limit) == if Admitted(v, limit) then [Lower(v)] else []
  {
    assert [v][1..] == [];
  }

  /** The comprehension keeps order and duplicates: filtering a concatenation is the
      concatenation of the filtered parts. */
  lemma {:induction false} FilterAppend(a: seq<string>, b: seq<string>, limit: Option<nat>)
    ensures Filter(a + b, limit) == Filter(a, limit) + Filter(b, limit)
    decreases |a|
  {
    if a == [] {
      assert a + b == b;
    } else {
      assert (a + b)[0] == a[0];
      assert (a + b)[1..] == a[1..] + b;
      FilterAppend(a[1..], b, limit);
    }
  }

  /** `load_word_lists`: the basic-mode words (at most eight letters) and the phrase
      tokens (any length) from the two raw corpora. */
  function LoadWordLists(rawWords: seq<string>, rawTokens: seq<string>): (r: (seq<string>, seq<string>))
    ensures IsWordPool(r.0) && IsWordPool(r.1)
    ensures forall w :: w in r.0 ==> |w| <= MaxWordLength
    ensures forall v :: v in rawWords && IsAlphaWord(v) && |v| <= MaxWordLength ==> Lower(v) in r.0
    ensures forall v :: v in rawTokens && IsAlphaWord(v) ==> Lower(v) in r.1
  {
    (Filter(rawWords, Some(MaxWordLength)), Filter(rawTokens, None))
  }

  /** The values the random generator supplies to `_choose_word`: the index of
      `random.choice` in basic mode; in phrase mode the `random.randint(3, 5)` count and
      one index per token. */
  datatype Draws = Draws(wordPick: nat, phraseLength: nat, tokenPicks: seq<nat>)

  /** The draws lie in the ranges the generator guarantees for these pools. */
  predicate DrawsFit(mode: string, words: seq<string>, tokens: seq<string>, d: Draws) {
    if mode == BasicMode then
      |words| > 0 ==> d.wordPick < |words|
    else
      MinPhraseTokens <= d.phraseLength <= MaxPhraseTokens &&
      |d.tokenPicks| == d.phraseLength &&
      (|tokens| > 0 ==> forall k :: 0 <= k < |d.tokenPicks| ==> d.tokenPicks[k] < |tokens|)
  }

  /** `random.choice` on an empty sequence raises; the game is never built then. */
  datatype ChoiceError = NoCandidates

  /** The tokens the phrase draws select, in order. */
  function Picked(tokens: seq<string>, picks: seq<nat>): (r: seq<string>)
    requires forall k :: 0 <= k < |picks| ==> picks[k] < |tokens|
    ensures |r| == |picks|
    ensures forall t :: t in r ==> t in tokens
  {
    seq(|picks|, k requires 0 <= k < |picks| => tokens[picks[k]])
  }

  /** `_choose_word`: one pool word in basic mode, otherwise 3 to 5 pool tokens joined
      by single spaces; the result is lowered. An empty pool for the mode raises. */
  function ChooseWord(mode: string, words: seq<string>, tokens: seq<string>, d: Draws): (r: Result<string, ChoiceError>)
    requires DrawsFit(mode, words, tokens, d)
    ensures r.Failure? <==> (if mode == BasicMode then |words| == 0 else |tokens| == 0)
    ensures r.Success? && mode == BasicMode && IsWordPool(words) ==> r.value in words
    ensures r.Success? && mode != BasicMode && IsWordPool(tokens) ==>
              var parts := Split(r.value);
              MinPhraseTokens <= |parts| <= MaxPhraseTokens &&
              forall t :: t in parts ==> t in tokens
    ensures r.Success? && (if mode == BasicMode then IsWordPool(words) else IsWordPool(tokens)) ==>
              IsLowerText(r.value) && |r.value| > 0
  {
    if mode == BasicMode then
      if |words| == 0 then Failure(NoCandidates)
      else
        var w := words[d.wordPick];
        if IsWordPool(words) then
          assert w in words;
          LowerOfLowerText(w);
          Success(Lower(w))
        else Success(Lower(w))
    else
      if |tokens| == 0 then Failure(NoCandidates)
      else
        var ts := Picked(tokens, d.tokenPicks);
        var phrase := Join(ts);
        if IsWordPool(tokens) then
          assert forall t :: t in ts ==> ' ' !in t by {
            forall t | t in ts ensures ' ' !in t {
              assert IsLowerWord(t);
            }
          }
          SplitJoin(ts);
          JoinLowerText(ts);
          LowerOfLowerText(phrase);
          assert |phrase| > 0 by { JoinNonEmpty(ts); }
          Success(Lower(phrase))
        else Success(Lower(phrase))
  }

  /** A phrase of non-empty words is not empty. */
  lemma JoinNonEmpty(ts: seq<string>)
    requires |ts| >= 1 && forall t :: t in ts ==> |t| > 0
    ensures |Join(ts)| > 0
  {
    assert ts[0] in ts;
  }
}
