/** Order and uniqueness notions on sequences, shared by the buffer and the delegate trace. */
module Seqs {

  /** No element occurs twice. */
  ghost predicate Distinct<T>(s: seq<T>)
  {
    forall i, j :: 0 <= i < j < |s| ==> s[i] != s[j]
  }

  /** Some occurrence of `a` comes strictly before some occurrence of `b`. */
  ghost predicate Before<T>(s: seq<T>, a: T, b: T)
  {
    exists i, j :: 0 <= i < j < |s| && s[i] == a && s[j] == b
  }

  /** Prepending elements keeps every ordering already present. */
  lemma BeforeAfterPrefix<T>(pre: seq<T>, s: seq<T>, a: T, b: T)
    requires Before(s, a, b)
    ensures Before(pre + s, a, b)
  {
    var i, j :| 0 <= i < j < |s| && s[i] == a && s[j] == b;
    assert (pre + s)[|pre| + i] == a && (pre + s)[|pre| + j] == b;
  }

  /** A head element comes before every element of the tail. */
  lemma BeforeFromHead<T>(x: T, s: seq<T>, b: T)
    requires b in s
    ensures Before([x] + s, x, b)
  {
    var j :| 0 <= j < |s| && s[j] == b;
    assert ([x] + s)[0] == x && ([x] + s)[j + 1] == b;
  }

  /** Appending an element other than `b` neither creates nor destroys an ordering ending in `b`. */
  lemma BeforeWithSuffix<T>(s: seq<T>, x: T, a: T, b: T)
    requires b != x
    ensures Before(s + [x], a, b) <==> Before(s, a, b)
  {
    if Before(s + [x], a, b) {
      var i, j :| 0 <= i < j < |s + [x]| && (s + [x])[i] == a && (s + [x])[j] == b;
      assert s[i] == a && s[j] == b;
    }
    if Before(s, a, b) {
      var i, j :| 0 <= i < j < |s| && s[i] == a && s[j] == b;
      assert (s + [x])[i] == a && (s + [x])[j] == b;
    }
  }
}
