/** Order-preserving sub-sequences, used to say that a list update keeps
    the relative order of the entries it retains or adds. */
module Subsequences {

  /** `a` can be obtained from `b` by deleting elements (greedy match from the front). */
  predicate IsSubsequence<X(==)>(a: seq<X>, b: seq<X>)
    decreases |b|
  {
    if a == [] then true
    else if b == [] then false
    else if a[0] == b[0] then IsSubsequence(a[1..], b[1..])
    else IsSubsequence(a, b[1..])
  }

  /** Appending to the larger sequence keeps a sub-sequence, and appending the
      same element to both keeps the relation. */
  lemma {:induction false} SubsequenceSnoc<X>(a: seq<X>, b: seq<X>, x: X)
    requires IsSubsequence(a, b)
    ensures IsSubsequence(a, b + [x])
    ensures IsSubsequence(a + [x], b + [x])
    decreases |b|
  {
    if b == [] {
      assert a == [];
      assert ([] + [x])[1..] == [];
    } else {
      var bx := b + [x];
      assert bx[0] == b[0] && bx[1..] == b[1..] + [x];
      if a == [] {
        SubsequenceSnoc(a, b[1..], x);
        assert [] + [x] == [x];
      } else {
        var ax := a + [x];
        assert ax[0] == a[0] && ax[1..] == a[1..] + [x];
        if a[0] == b[0] {
          SubsequenceSnoc(a[1..], b[1..], x);
        } else {
          SubsequenceSnoc(a, b[1..], x);
        }
      }
    }
  }

  /** A sub-sequence only holds elements of the larger sequence. */
  lemma {:induction false} SubsequenceMembers<X>(a: seq<X>, b: seq<X>)
    requires IsSubsequence(a, b)
    ensures |a| <= |b|
    ensures forall x :: x in a ==> x in b
    decreases |b|
  {
    if a != [] && b != [] {
      if a[0] == b[0] {
        SubsequenceMembers(a[1..], b[1..]);
        assert a == [a[0]] + a[1..];
      } else {
        SubsequenceMembers(a, b[1..]);
      }
    }
  }
}
