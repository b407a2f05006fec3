/** Facts about sequences and multisets that the renderings need: taking
    one element out, and mapping a function over two permutations of each
    other. */
module Seqs {

  /** Leaving out element j leaves out one occurrence of it. */
  lemma MultisetRemove<T>(ys: seq<T>, j: nat)
    requires j < |ys|
    ensures multiset(ys[..j] + ys[j + 1..]) == multiset(ys) - multiset{ys[j]}
  {
    assert ys == ys[..j] + [ys[j]] + ys[j + 1..];
  }

  /** Applies f to every element, keeping the order. */
  function MapSeq<A, B>(f: A -> B, s: seq<A>): seq<B>
  {
    seq(|s|, i requires 0 <= i < |s| => f(s[i]))
  }

  /** Mapping t is mapping t without element j, plus the image of
      element j. */
  lemma MapSeqRemove<A, B>(f: A -> B, t: seq<A>, j: nat)
    requires j < |t|
    ensures multiset(MapSeq(f, t)) == multiset(MapSeq(f, t[..j] + t[j + 1..])) + multiset{f(t[j])}
  {
    var m := MapSeq(f, t);
    assert m == m[..j] + [f(t[j])] + m[j + 1..];
    assert MapSeq(f, t[..j] + t[j + 1..]) == m[..j] + m[j + 1..];
  }

  /** A position at which x occurs in t. */
  lemma IndexOf<T>(t: seq<T>, x: T) returns (j: nat)
    requires x in multiset(t)
    ensures j < |t| && t[j] == x
  {
    j :| 0 <= j < |t| && t[j] == x;
  }

  /** Taking the first element out of s and one occurrence of it out of
      t keeps the two permutations of each other. */
  lemma PermutationRemove<T>(s: seq<T>, t: seq<T>, j: nat)
    requires multiset(s) == multiset(t) && s != [] && j < |t| && t[j] == s[0]
    ensures multiset(s[1..]) == multiset(t[..j] + t[j + 1..])
  {
    MultisetRemove(t, j);
    MultisetRemove(s, 0);
    assert s[..0] + s[1..] == s[1..];
  }

  /** Mapping two permutations of each other gives two permutations of
      each other. */
  lemma {:induction false} MapPermutation<A, B>(f: A -> B, s: seq<A>, t: seq<A>)
    requires multiset(s) == multiset(t)
    ensures multiset(MapSeq(f, s)) == multiset(MapSeq(f, t))
  {
    if s == [] {
      assert |t| == |multiset(t)| == 0;
    } else {
      var j := IndexOf(t, s[0]);
      var rest := t[..j] + t[j + 1..];
      PermutationRemove(s, t, j);
      MapPermutation(f, s[1..], rest);
      assert s[..0] + s[1..] == s[1..];
      MapSeqRemove(f, s, 0);
      MapSeqRemove(f, t, j);
    }
  }
}
