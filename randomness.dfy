/** The two calls into Python's `random` module that the game makes. A random
    value is modelled as an arbitrary draw supplied from outside: a draw in
    the range is the value drawn, and a draw outside it stands for the first
    value of the range, so that every value of the range can be produced and
    no other. */
module Randomness {

  /** `random.randrange(start, stop)`: an integer in [start, stop). Python
      raises ValueError for an empty range; callers here never pass one. */
  function RandRange(start: int, stop: int, draw: int): (r: int)
    requires start < stop
    ensures start <= r < stop
  {
    if start <= draw < stop then draw else start
  }

  /** Every value of the range is the outcome of some draw: the value itself. */
  lemma RandRangeReaches(start: int, stop: int, v: int)
    requires start <= v < stop
    ensures exists draw :: RandRange(start, stop, draw) == v
  {
    assert RandRange(start, stop, v) == v;
  }

  /** `random.choice(s)`: one element of a non-empty sequence. */
  function Choice<T>(s: seq<T>, draw: int): (r: T)
    requires |s| > 0
    ensures r in s
  {
    if 0 <= draw < |s| then s[draw] else s[0]
  }

  /** Every element of the sequence is the outcome of some draw: its index. */
  lemma ChoiceReaches<T>(s: seq<T>, i: nat)
    requires i < |s|
    ensures exists draw :: Choice(s, draw) == s[i]
  {
    assert Choice(s, i) == s[i];
  }
}
