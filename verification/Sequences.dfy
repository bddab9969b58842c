/** The values of a sequence as a set. */
module Sequences {

  ghost function Elements<T>(s: seq<T>): set<T> { set x | x in s }

  lemma ElementsOfAppend<T>(s: seq<T>, x: T)
    ensures Elements(s + [x]) == Elements(s) + {x}
  {
    forall y | y in Elements(s) + {x} ensures y in Elements(s + [x]) {
      if y == x { assert (s + [x])[|s|] == x; }
    }
  }
}
