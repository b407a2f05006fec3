/** Go's strings.Join, which every Inspect that renders a list of
    parts uses, and the facts about it that the renderings rely on. */
module Strings {
  import opened Seqs

  /** strings.Join: the parts in order, with sep between each pair of
      neighbours; no parts give "", one part gives that part. */
  function Join(parts: seq<string>, sep: string): string
  {
    if |parts| == 0 then ""
    else if |parts| == 1 then parts[0]
    else parts[0] + sep + Join(parts[1..], sep)
  }

  /** The sum of the lengths of the parts. */
  function TotalLength(parts: seq<string>): nat
  {
    if parts == [] then 0 else |parts[0]| + TotalLength(parts[1..])
  }

  /** The position at which part k starts inside Join(parts, sep). */
  function Offset(parts: seq<string>, sep: string, k: nat): nat
    requires k <= |parts|
  {
    if k == 0 then 0 else |parts[0]| + |sep| + Offset(parts[1..], sep, k - 1)
  }

  /** A slice of the second half of a concatenation, located in the
      whole. */
  lemma SliceAfter(a: string, b: string, i: nat, j: nat)
    requires i <= j <= |b|
    ensures (a + b)[|a| + i..|a| + j] == b[i..j]
  {
  }

  /** A slice of the middle piece of a concatenation, located in the
      whole. */
  lemma SliceInMiddle(a: string, b: string, c: string, i: nat, j: nat)
    requires i <= j <= |b|
    ensures |a| + j <= |a + b + c|
    ensures (a + b + c)[|a| + i..|a| + j] == b[i..j]
  {
  }

  /** Joining two non-empty lists is joining each and putting one
      separator between the results. */
  lemma {:induction false} JoinAppend(xs: seq<string>, ys: seq<string>, sep: string)
    requires xs != [] && ys != []
    ensures Join(xs + ys, sep) == Join(xs, sep) + sep + Join(ys, sep)
  {
    assert (xs + ys)[1..] == xs[1..] + ys;
    if |xs| > 1 {
      JoinAppend(xs[1..], ys, sep);
    }
  }

  /** The joined text holds the parts and one separator between each
      pair of neighbours, and nothing else. */
  lemma {:induction false} JoinLength(parts: seq<string>, sep: string)
    requires parts != []
    ensures |Join(parts, sep)| == TotalLength(parts) + (|parts| - 1) * |sep|
  {
    if |parts| > 1 {
      JoinLength(parts[1..], sep);
    }
  }

  /** Part k sits at Offset(parts, sep, k) of the joined text. */
  lemma {:induction false} JoinAt(parts: seq<string>, sep: string, k: nat)
    requires k < |parts|
    ensures Offset(parts, sep, k) + |parts[k]| <= |Join(parts, sep)|
    ensures Join(parts, sep)[Offset(parts, sep, k)..Offset(parts, sep, k) + |parts[k]|] == parts[k]
  {
    var joined := Join(parts, sep);
    var at, len := Offset(parts, sep, k), |parts[k]|;
    if |parts| == 1 {
      assert joined[at..at + len] == joined[0..|joined|] == parts[k];
    } else {
      var rest := Join(parts[1..], sep);
      var head := parts[0] + sep;
      if k == 0 {
        assert joined == parts[0] + (sep + rest);
        assert joined[..len] == parts[0];
      } else {
        assert joined == head + rest;
        JoinAt(parts[1..], sep, k - 1);
        var o := Offset(parts[1..], sep, k - 1);
        assert at == |head| + o;
        assert parts[1..][k - 1] == parts[k];
        SliceAfter(head, rest, o, o + len);
      }
    }
  }

  /** When part k + 1 exists, a separator comes right after part k: the
      parts appear in their order, one separator apart. */
  lemma {:induction false} JoinSeparatorAt(parts: seq<string>, sep: string, k: nat)
    requires k + 1 < |parts|
    ensures Offset(parts, sep, k) + |parts[k]| + |sep| <= |Join(parts, sep)|
    ensures Join(parts, sep)[Offset(parts, sep, k) + |parts[k]|..Offset(parts, sep, k) + |parts[k]| + |sep|] == sep
  {
    var joined := Join(parts, sep);
    var at, len := Offset(parts, sep, k), |parts[k]|;
    var rest := Join(parts[1..], sep);
    var head := parts[0] + sep;
    if k == 0 {
      SliceInMiddle(parts[0], sep, rest, 0, |sep|);
    } else {
      assert joined == head + rest;
      JoinSeparatorAt(parts[1..], sep, k - 1);
      var o := Offset(parts[1..], sep, k - 1);
      assert at == |head| + o;
      assert parts[1..][k - 1] == parts[k];
      SliceAfter(head, rest, o + len, o + len + |sep|);
    }
  }

  lemma {:induction false} TotalLengthAppend(xs: seq<string>, ys: seq<string>)
    ensures TotalLength(xs + ys) == TotalLength(xs) + TotalLength(ys)
  {
    if xs != [] {
      assert (xs + ys)[1..] == xs[1..] + ys;
      TotalLengthAppend(xs[1..], ys);
    } else {
      assert xs + ys == ys;
    }
  }

  /** Taking part j out of a list takes its length out of the total. */
  lemma TotalLengthRemove(ys: seq<string>, j: nat)
    requires j < |ys|
    ensures TotalLength(ys) == TotalLength(ys[..j] + ys[j + 1..]) + |ys[j]|
  {
    assert ys == ys[..j] + ([ys[j]] + ys[j + 1..]);
    TotalLengthAppend(ys[..j], [ys[j]] + ys[j + 1..]);
    TotalLengthAppend(ys[..j], ys[j + 1..]);
    assert ([ys[j]] + ys[j + 1..])[1..] == ys[j + 1..];
  }

  /** Reordering the parts does not change their total length. */
  lemma {:induction false} TotalLengthPermutation(xs: seq<string>, ys: seq<string>)
    requires multiset(xs) == multiset(ys)
    ensures TotalLength(xs) == TotalLength(ys)
  {
    if xs == [] {
      assert |ys| == |multiset(ys)| == 0;
    } else {
      var j := IndexOf(ys, xs[0]);
      PermutationRemove(xs, ys, j);
      TotalLengthPermutation(xs[1..], ys[..j] + ys[j + 1..]);
      TotalLengthRemove(ys, j);
    }
  }

  /** Two lists whose parts have the same lengths, position by position,
      have the same total length. */
  lemma {:induction false} TotalLengthPointwise(xs: seq<string>, ys: seq<string>)
    requires |xs| == |ys|
    requires forall i | 0 <= i < |xs| :: |xs[i]| == |ys[i]|
    ensures TotalLength(xs) == TotalLength(ys)
  {
    if xs != [] {
      TotalLengthPointwise(xs[1..], ys[1..]);
    }
  }

  /** Joining parts of the same lengths, position by position, gives texts
      of the same length. */
  lemma JoinLengthPointwise(xs: seq<string>, ys: seq<string>, sep: string)
    requires |xs| == |ys|
    requires forall i | 0 <= i < |xs| :: |xs[i]| == |ys[i]|
    ensures |Join(xs, sep)| == |Join(ys, sep)|
  {
    if xs != [] {
      JoinLength(xs, sep);
      JoinLength(ys, sep);
      TotalLengthPointwise(xs, ys);
    }
  }

  /** The length of a join depends only on the multiset of the parts'
      lengths, not on their order. */
  lemma JoinLengthPermutation(xs: seq<string>, ys: seq<string>, sep: string)
    requires multiset(xs) == multiset(ys)
    ensures |Join(xs, sep)| == |Join(ys, sep)|
  {
    assert |xs| == |multiset(xs)| == |multiset(ys)| == |ys|;
    if xs != [] {
      JoinLength(xs, sep);
      JoinLength(ys, sep);
      TotalLengthPermutation(xs, ys);
    }
  }
}
