/** Two facts about sequence concatenation, stated once so that proofs can name them
    instead of asking the solver to rediscover them in a large context. */
module Seqs {
  lemma SeqAssoc<T>(a: seq<T>, b: seq<T>, c: seq<T>)
    ensures a + (b + c) == (a + b) + c
  {
  }

  lemma SeqCons<T>(s: seq<T>)
    requires s != []
    ensures s == [s[0]] + s[1..]
  {
  }
}
