/** The tokenizer used both to index programs and to read queries. */
module Tokenizer {
  import opened Util
  import opened Strings

  /**
   * `tokenizer`: split on the space char alone. Runs of spaces give empty
   * tokens, and no char is changed, so "Hello" and "hello" stay distinct.
   */
  function Tokenize(s: string): (tokens: seq<string>)
    ensures |tokens| == Count(s, ' ') + 1
    ensures forall i :: 0 <= i < |tokens| ==> ' ' !in tokens[i]
    ensures Join(tokens, ' ') == s
  {
    Split(s, ' ')
  }

  /** Tokens joined back with single spaces tokenize to themselves. */
  lemma TokenizeJoin(tokens: seq<string>)
    requires |tokens| >= 1
    requires forall i :: 0 <= i < |tokens| ==> ' ' !in tokens[i]
    ensures Tokenize(Join(tokens, ' ')) == tokens
  {
    SplitJoin(tokens, ' ');
  }

  /** Tokenizing an empty query gives one empty token, not none. */
  lemma TokenizeEmpty()
    ensures Tokenize("") == [""]
  {
  }

  /** Tokens are pieces of the input, so letter case reaches the index as typed. */
  lemma TokenizeKeepsCase(s: string, t: string)
    requires Tokenize(s) == Tokenize(t)
    ensures s == t
  {
  }
}
