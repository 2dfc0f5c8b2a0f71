/** Facts about sequences shared by the models. */
module Sequences {

  /** No element occurs twice. */
  ghost predicate NoDup<T>(s: seq<T>)
  {
    forall i, j :: 0 <= i < j < |s| ==> s[i] != s[j]
  }

  /** The set of the elements of a sequence. */
  ghost function Elements<T>(s: seq<T>): set<T>
  {
    set x | x in s
  }

  /** A sequence without repetitions has as many elements as its set. */
  lemma {:induction false} NoDupCardinality<T>(s: seq<T>)
    requires NoDup(s)
    ensures |Elements(s)| == |s|
  {
    if |s| > 0 {
      var t := s[..|s| - 1];
      NoDupCardinality(t);
      assert Elements(s) == Elements(t) + {s[|s| - 1]};
    }
  }

  /** The elements of a concatenation are those of its parts. */
  lemma ElementsAppend<T>(a: seq<T>, b: seq<T>)
    ensures Elements(a + b) == Elements(a) + Elements(b)
  {

  }

  /** The parts of a concatenation without repetitions share no element. */
  lemma NoDupAppendDisjoint<T>(a: seq<T>, b: seq<T>)
    requires NoDup(a + b)
    ensures Elements(a) !! Elements(b)
  {
    var c := a + b;
    forall i, j | 0 <= i < |a| && 0 <= j < |b| ensures a[i] != b[j] {
      assert c[i] == a[i] && c[|a| + j] == b[j];
    }
  }

  /** Dropping a prefix of the left part of a concatenation. */
  lemma DropAppend<T>(a: seq<T>, b: seq<T>, k: nat)
    requires k <= |a|
    ensures (a + b)[k..] == a[k..] + b
  {
  }
}
