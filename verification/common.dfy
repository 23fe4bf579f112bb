/** Shared vocabulary: optional values, fixed-width unsigned integers and
    the wrapping arithmetic the engine's C++ code relies on. */
module Common {

  /** Stands in for a nullable pointer or a "not found" result. */
  datatype Option<+T> = None | Some(value: T)

  const TWO_8: nat := 0x100
  const TWO_32: nat := 0x1_0000_0000
  const TWO_64: nat := 0x1_0000_0000_0000_0000

  type byte = x: int | 0 <= x < TWO_8
  type u32 = x: int | 0 <= x < TWO_32
  type u64 = x: int | 0 <= x < TWO_64
  /** A C `int`. */
  type i32 = x: int | -0x8000_0000 <= x < 0x8000_0000

  /** `n` copies of `x`: a zero-filled buffer or counter array. */
  function Repeat<T>(x: T, n: nat): (r: seq<T>)
    ensures |r| == n && forall i :: 0 <= i < n ==> r[i] == x
  {
    seq(n, _ => x)
  }

  /** `uint64_t` addition: the sum wraps around modulo 2^64. */
  function Add64(a: u64, b: u64): (r: u64)
    ensures a + b < TWO_64 ==> r == a + b
    ensures a + b >= TWO_64 ==> r == a + b - TWO_64
  {
    (a + b) % TWO_64
  }

  /** Wrapping sum of a sequence of 64-bit values, folded from the left as
      `hash += value` does in a loop starting from 0. */
  function Sum64(s: seq<u64>): u64
  {
    if |s| == 0 then 0 else Add64(Sum64(s[..|s|-1]), s[|s|-1])
  }

  /** The sum modulo 2^64 equals the exact sum reduced once at the end. */
  lemma {:induction false} Sum64IsReducedSum(s: seq<u64>)
    ensures Sum64(s) == ExactSum(s) % TWO_64
  {
    if |s| > 0 {
      Sum64IsReducedSum(s[..|s|-1]);
      ExactSumSnoc(s[..|s|-1], s[|s|-1]);
      assert s[..|s|-1] + [s[|s|-1]] == s;
    }
  }

  /** The mathematical (unbounded) sum of a sequence. */
  function ExactSum(s: seq<int>): int
  {
    if |s| == 0 then 0 else s[0] + ExactSum(s[1..])
  }

  lemma {:induction false} ExactSumSnoc(s: seq<int>, x: int)
    ensures ExactSum(s + [x]) == ExactSum(s) + x
  {
    if |s| == 0 {
      assert s + [x] == [x];
    } else {
      assert (s + [x])[1..] == s[1..] + [x];
      ExactSumSnoc(s[1..], x);
    }
  }

  lemma {:induction false} ExactSumAppend(s: seq<int>, t: seq<int>)
    ensures ExactSum(s + t) == ExactSum(s) + ExactSum(t)
  {
    if |s| == 0 {
      assert s + t == t;
    } else {
      assert (s + t)[1..] == s[1..] + t;
      ExactSumAppend(s[1..], t);
    }
  }

  lemma ExactSumRemove(t: seq<int>, i: nat)
    requires i < |t|
    ensures ExactSum(t) == t[i] + ExactSum(t[..i] + t[i+1..])
  {
    assert t == t[..i] + t[i..];
    assert t[i..][1..] == t[i+1..];
    ExactSumAppend(t[..i], t[i..]);
    ExactSumAppend(t[..i], t[i+1..]);
  }

  lemma MultisetRemove<T>(t: seq<T>, i: nat)
    requires i < |t|
    ensures multiset(t[..i] + t[i+1..]) == multiset(t) - multiset{t[i]}
  {
    assert t == t[..i] + [t[i]] + t[i+1..];
  }

  /** Summation does not depend on the order of the summands. */
  lemma {:induction false} ExactSumPermutation(s: seq<int>, t: seq<int>)
    requires multiset(s) == multiset(t)
    ensures ExactSum(s) == ExactSum(t)
    decreases |s|
  {
    if |s| == 0 {
      assert |t| == |multiset(t)| == 0;
    } else {
      assert s[0] in multiset(t);
      var i :| 0 <= i < |t| && t[i] == s[0];
      PermutationTail(s, t, i);
      ExactSumPermutation(s[1..], t[..i] + t[i+1..]);
      ExactSumRemove(t, i);
    }
  }

  /** `f` applied to every element of `s`. */
  function MapSeq<A, B>(s: seq<A>, f: A -> B): (r: seq<B>)
    ensures |r| == |s| && forall i :: 0 <= i < |s| ==> r[i] == f(s[i])
  {
    seq(|s|, i requires 0 <= i < |s| => f(s[i]))
  }

  lemma MapSeqRemove<A, B>(t: seq<A>, i: nat, f: A -> B)
    requires i < |t|
    ensures MapSeq(t[..i] + t[i+1..], f) == MapSeq(t, f)[..i] + MapSeq(t, f)[i+1..]
  {
  }

  lemma MapSeqRemoveMultiset<A, B>(t: seq<A>, i: nat, f: A -> B)
    requires i < |t|
    ensures multiset(MapSeq(t[..i] + t[i+1..], f)) == multiset(MapSeq(t, f)) - multiset{f(t[i])}
    ensures f(t[i]) in multiset(MapSeq(t, f))
  {
    var mt := MapSeq(t, f);
    MapSeqRemove(t, i, f);
    MultisetRemove(mt, i);
    assert mt[i] in multiset(mt);
  }

  lemma PermutationTail<A>(s: seq<A>, t: seq<A>, i: nat)
    requires |s| > 0 && i < |t| && t[i] == s[0] && multiset(s) == multiset(t)
    ensures multiset(s[1..]) == multiset(t[..i] + t[i+1..])
  {
    MultisetRemove(t, i);
    assert s == [s[0]] + s[1..];
  }

  lemma MapSeqPermutationStep<A, B>(s: seq<A>, t: seq<A>, i: nat, f: A -> B)
    requires |s| > 0 && i < |t| && t[i] == s[0]
    requires multiset(MapSeq(s[1..], f)) == multiset(MapSeq(t[..i] + t[i+1..], f))
    ensures multiset(MapSeq(s, f)) == multiset(MapSeq(t, f))
  {
    MapSeqRemoveMultiset(t, i, f);
    MapSeqHead(s, f);
    var mt := multiset(MapSeq(t, f));
    assert mt == (mt - multiset{f(t[i])}) + multiset{f(t[i])};
  }

  lemma MapSeqHead<A, B>(s: seq<A>, f: A -> B)
    requires |s| > 0
    ensures multiset(MapSeq(s, f)) == multiset(MapSeq(s[1..], f)) + multiset{f(s[0])}
  {
    assert MapSeq(s, f) == [f(s[0])] + MapSeq(s[1..], f);
  }

  /** Mapping a permutation gives a permutation. */
  lemma {:induction false} MapSeqPermutation<A, B>(s: seq<A>, t: seq<A>, f: A -> B)
    requires multiset(s) == multiset(t)
    ensures multiset(MapSeq(s, f)) == multiset(MapSeq(t, f))
    decreases |s|
  {
    if |s| == 0 {
      assert |t| == |multiset(t)| == 0;
    } else {
      assert s[0] in multiset(t);
      var i :| 0 <= i < |t| && t[i] == s[0];
      PermutationTail(s, t, i);
      MapSeqPermutation(s[1..], t[..i] + t[i+1..], f);
      MapSeqPermutationStep(s, t, i, f);
    }
  }

  /** The wrapping sum does not depend on the order of the summands. */
  lemma Sum64Permutation(s: seq<u64>, t: seq<u64>)
    requires multiset(s) == multiset(t)
    ensures Sum64(s) == Sum64(t)
  {
    Sum64IsReducedSum(s);
    Sum64IsReducedSum(t);
    ExactSumPermutation(s, t);
  }

  /** The C `int` value of an `unsigned int`: values of 2^31 and above
      become negative. */
  function ToInt32(x: u32): (r: int)
    ensures -0x8000_0000 <= r < 0x8000_0000
    ensures r == x || r == x - TWO_32
  {
    if x < 0x8000_0000 then x else x - TWO_32
  }

  function Min(a: int, b: int): int
  {
    if a <= b then a else b
  }
}
