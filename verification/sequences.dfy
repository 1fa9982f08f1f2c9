/** Two facts about sequences that the scanners over strings rely on when they unfold one
    step: splitting off the head of a concatenation, and cancelling a common head. */
module Sequences {
  /** A non-empty sequence in front of another is its head in front of the rest. */
  lemma ConsAppend<T>(a: seq<T>, b: seq<T>)
    requires a != []
    ensures a + b == [a[0]] + (a[1..] + b)
  {
  }

  /** Sequences with the same head are equal exactly when their tails are. */
  lemma ConsEqual<T>(c: T, a: seq<T>, b: seq<T>)
    ensures [c] + a == [c] + b <==> a == b
  {
    if [c] + a == [c] + b {
      assert a == ([c] + a)[1..];
    }
  }
}
