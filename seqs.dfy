/**
  Sequences of sequences: `Array.prototype.flat` followed by `join('')`, and
  the inverse cut of a flat sequence into consecutive segments of given
  lengths, which is how the transposition ciphers refill their rows and
  columns from a ciphertext.
 */
module Seqs {

  /** `parts.flat().join('')`: the parts one after the other. */
  function Flatten<T>(parts: seq<seq<T>>): seq<T>
  {
    if parts == [] then [] else parts[0] + Flatten(parts[1..])
  }

  function Lengths<T>(parts: seq<seq<T>>): (ls: seq<nat>)
    ensures |ls| == |parts| && forall q :: 0 <= q < |parts| ==> ls[q] == |parts[q]|
  {
    seq(|parts|, q requires 0 <= q < |parts| => |parts[q]|)
  }

  function Sum(ns: seq<nat>): nat
  {
    if ns == [] then 0 else ns[0] + Sum(ns[1..])
  }

  lemma {:induction false} SumConcat(a: seq<nat>, b: seq<nat>)
    ensures Sum(a + b) == Sum(a) + Sum(b)
    decreases |a|
  {
    if a != [] {
      assert (a + b)[1..] == a[1..] + b;
      SumConcat(a[1..], b);
    } else {
      assert a + b == b;
    }
  }

  /** The offset of part `q` is the sum of the lengths before it, and grows by that part's length. */
  lemma SumPrefixStep(ns: seq<nat>, q: nat)
    requires q < |ns|
    ensures Sum(ns[..q + 1]) == Sum(ns[..q]) + ns[q]
    ensures Sum(ns[..q]) + ns[q] <= Sum(ns)
  {
    assert ns[..q + 1] == ns[..q] + [ns[q]];
    SumConcat(ns[..q], [ns[q]]);
    assert Sum([ns[q]]) == ns[q] by {
      assert [ns[q]][1..] == [];
    }
    assert ns == ns[..q + 1] + ns[q + 1..];
    SumConcat(ns[..q + 1], ns[q + 1..]);
  }

  lemma {:induction false} FlattenConcat<T>(a: seq<seq<T>>, b: seq<seq<T>>)
    ensures Flatten(a + b) == Flatten(a) + Flatten(b)
    decreases |a|
  {
    if a != [] {
      assert (a + b)[1..] == a[1..] + b;
      FlattenConcat(a[1..], b);
    } else {
      assert a + b == b;
    }
  }

  /** The flat sequence is as long as all parts together, and holds exactly their elements. */
  lemma {:induction false} FlattenLength<T>(parts: seq<seq<T>>)
    ensures |Flatten(parts)| == Sum(Lengths(parts))
    decreases |parts|
  {
    if parts != [] {
      FlattenLength(parts[1..]);
      assert Lengths(parts)[1..] == Lengths(parts[1..]);
    }
  }

  /** Appending `x` to one part adds exactly `x` to the elements of the flat sequence. */
  lemma {:induction false} FlattenPush<T>(parts: seq<seq<T>>, q: nat, x: T)
    requires q < |parts|
    ensures multiset(Flatten(parts[q := parts[q] + [x]])) == multiset(Flatten(parts)) + multiset{x}
    ensures |Flatten(parts[q := parts[q] + [x]])| == |Flatten(parts)| + 1
    decreases q
  {
    var parts' := parts[q := parts[q] + [x]];
    if q == 0 {
      assert parts'[1..] == parts[1..];
    } else {
      assert parts'[1..] == parts[1..][q - 1 := parts[q] + [x]];
      FlattenPush(parts[1..], q - 1, x);
    }
  }

  /** Part `q` sits in the flat sequence at the sum of the lengths of the parts before it. */
  lemma FlattenAt<T>(parts: seq<seq<T>>, q: nat)
    requires q < |parts|
    ensures Sum(Lengths(parts)[..q]) + |parts[q]| <= |Flatten(parts)|
    ensures Flatten(parts)[Sum(Lengths(parts)[..q])..Sum(Lengths(parts)[..q]) + |parts[q]|] == parts[q]
  {
    assert parts == parts[..q] + ([parts[q]] + parts[q + 1..]);
    FlattenConcat(parts[..q], [parts[q]] + parts[q + 1..]);
    FlattenConcat([parts[q]], parts[q + 1..]);
    assert Flatten([parts[q]]) == parts[q] by {
      assert [parts[q]][1..] == [];
    }
    FlattenLength(parts[..q]);
    assert Lengths(parts[..q]) == Lengths(parts)[..q];
  }

  /**
    Cut `s` into consecutive segments of the given lengths: segment `q`
    starts where the segments before it end.
   */
  function Segments<T>(s: seq<T>, lens: seq<nat>): (parts: seq<seq<T>>)
    requires Sum(lens) <= |s|
    ensures |parts| == |lens|
  {
    seq(|lens|, q requires 0 <= q < |lens| =>
      SumPrefixStep(lens, q);
      s[Sum(lens[..q])..Sum(lens[..q]) + lens[q]])
  }

  /** Segment `q` runs from the end of the segments before it, for its own length. */
  lemma SegmentAt<T>(s: seq<T>, lens: seq<nat>, q: nat)
    requires Sum(lens) <= |s| && q < |lens|
    ensures Sum(lens[..q]) + lens[q] <= |s|
    ensures Segments(s, lens)[q] == s[Sum(lens[..q])..Sum(lens[..q]) + lens[q]]
  {
    SumPrefixStep(lens, q);
  }

  /** Concatenation regroups freely. */
  lemma AppendAssoc<T>(a: seq<T>, b: seq<T>, c: seq<T>)
    ensures (a + b) + c == a + (b + c)
  {
  }

  /** A non-empty prefix is the shorter prefix followed by its last element. */
  lemma PrefixSnoc<T>(s: seq<T>, i: nat)
    requires 0 < i <= |s|
    ensures s[..i] == s[..i - 1] + [s[i - 1]]
  {
  }

  /** Cutting a flat sequence by the lengths of its parts gives the parts back. */
  lemma SegmentsOfFlatten<T>(parts: seq<seq<T>>)
    ensures Sum(Lengths(parts)) == |Flatten(parts)|
    ensures Segments(Flatten(parts), Lengths(parts)) == parts
  {
    FlattenLength(parts);
    var cut := Segments(Flatten(parts), Lengths(parts));
    forall q | 0 <= q < |parts| ensures cut[q] == parts[q] {
      FlattenAt(parts, q);
    }
  }
}
