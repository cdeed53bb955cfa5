/** A fact about sequences that the codecs and the name conversions share. */
module Sequences {

  lemma AppendInjective<T>(a: seq<T>, b: seq<T>, d: seq<T>)
    ensures a + b == a + d <==> b == d
  {
    if a + b == a + d {
      assert b == (a + b)[|a|..] == (a + d)[|a|..] == d;
    }
  }
}
