/** The string operations the game relies on: `str.isalpha`, `str.lower`,
    `" ".join` and `str.split(" ")`, restricted to ASCII. */
module Text {

  /** `c.isalpha()` for an ASCII character. */
  predicate IsAlpha(c: char) {
    'a' <= c <= 'z' || 'A' <= c <= 'Z'
  }

  predicate IsLowerLetter(c: char) {
    'a' <= c <= 'z'
  }

  /** `w.isalpha()`: Python is false on the empty string. */
  predicate IsAlphaWord(w: string) {
    |w| > 0 && forall i :: 0 <= i < |w| ==> IsAlpha(w[i])
  }

  /** A non-empty word of lower-case letters only. */
  predicate IsLowerWord(w: string) {
    |w| > 0 && forall i :: 0 <= i < |w| ==> IsLowerLetter(w[i])
  }

  /** Every character is a lower-case letter or a space separator. */
  predicate IsLowerText(s: string) {
    forall i :: 0 <= i < |s| ==> IsLowerLetter(s[i]) || s[i] == ' '
  }

  /** `c.lower()`: upper-case letters become lower-case, nothing else changes. */
  function LowerChar(c: char): (r: char)
    ensures IsAlpha(r) == IsAlpha(c)
    ensures IsAlpha(c) ==> IsLowerLetter(r)
    ensures !('A' <= c <= 'Z') ==> r == c
  {
    if 'A' <= c <= 'Z' then (c as int - 'A' as int + 'a' as int) as char else c
  }

  /** `s.lower()`, character by character. */
  function Lower(s: string): (r: string)
    ensures |r| == |s|
    ensures forall i :: 0 <= i < |s| ==> r[i] == LowerChar(s[i])
  {
    if s == [] then [] else [LowerChar(s[0])] + Lower(s[1..])
  }

  /** Lowering changes nothing in text that is already lower-case. */
  lemma LowerOfLowerText(s: string)
    requires IsLowerText(s)
    ensures Lower(s) == s
  {
  }

  /** The number of characters in all tokens together. */
  function TotalLength(ts: seq<string>): nat
  {
    if ts == [] then 0 else |ts[0]| + TotalLength(ts[1..])
  }

  /** `" ".join(ts)`: the tokens' characters plus one separator between each pair, with
      the first token at the front. */
  function Join(ts: seq<string>): (r: string)
    ensures |ts| >= 1 ==> |r| == TotalLength(ts) + |ts| - 1 && ts[0] <= r
    ensures |ts| == 0 ==> r == ""
  {
    if |ts| == 0 then ""
    else if |ts| == 1 then ts[0]
    else ts[0] + " " + Join(ts[1..])
  }

  /** `s.split(" ")`: the pieces between single spaces, empty pieces included. */
  function Split(s: string): (r: seq<string>)
    ensures |r| >= 1
  {
    if s == [] then [""]
    else
      var rest := Split(s[1..]);
      if s[0] == ' ' then [""] + rest
      else [[s[0]] + rest[0]] + rest[1..]
  }

  /** A space-free prefix is glued onto the first piece. */
  lemma {:induction false} SplitPrefix(t: string, s: string)
    requires ' ' !in t
    ensures Split(t + s) == [t + Split(s)[0]] + Split(s)[1..]
  {
    if t != [] {
      assert (t + s)[1..] == t[1..] + s;
      SplitPrefix(t[1..], s);
      assert [t[0]] + (t[1..] + Split(s)[0]) == t + Split(s)[0];
    } else {
      assert t + s == s;
      assert t + Split(s)[0] == Split(s)[0];
      assert [Split(s)[0]] + Split(s)[1..] == Split(s);
    }
  }

  /** Splitting a joined phrase gives back its tokens, provided there is at least one
      token and no token contains the separator. */
  lemma {:induction false} SplitJoin(ts: seq<string>)
    requires |ts| >= 1
    requires forall t :: t in ts ==> ' ' !in t
    ensures Split(Join(ts)) == ts
  {
    if |ts| == 1 {
      SplitPrefix(ts[0], "");
      assert ts[0] + "" == ts[0];
    } else {
      var rest := Join(ts[1..]);
      assert ts[1] in ts;
      SplitJoin(ts[1..]);
      assert Split(" " + rest) == [""] + Split(rest) by {
        assert (" " + rest)[1..] == rest;
      }
      assert ts[0] + " " + rest == ts[0] + (" " + rest);
      SplitPrefix(ts[0], " " + rest);
      assert ts[0] + "" == ts[0];
      assert [ts[0]] + ts[1..] == ts;
    }
  }

  /** Joining lower-case words gives lower-case text. */
  lemma {:induction false} JoinLowerText(ts: seq<string>)
    requires forall t :: t in ts ==> IsLowerWord(t)
    ensures IsLowerText(Join(ts))
  {
    if |ts| == 1 {
      assert ts[0] in ts;
    } else if |ts| > 1 {
      assert ts[0] in ts;
      JoinLowerText(ts[1..]);
      var s := Join(ts);
      var rest := Join(ts[1..]);
      assert s == ts[0] + " " + rest;
      forall i | 0 <= i < |s| ensures IsLowerLetter(s[i]) || s[i] == ' ' {
        if i < |ts[0]| {
          assert s[i] == ts[0][i];
        } else if i > |ts[0]| {
          assert s[i] == rest[i - |ts[0]| - 1];
        }
      }
    }
  }
}
