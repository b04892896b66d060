/** Facts about sequences. */
module Sequences {
  lemma Chained<T>(s: seq<T>, t: seq<T>, u: seq<T>)
    ensures s + t + u == s + (t + u)
  {}
}
