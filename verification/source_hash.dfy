/** `BinaryShaderCache::hashSources`: the identity of a shader's source
    text, a wrapping sum of one 64-bit hash per source string, each taken
    over a zero-padded copy so that bytes past the string never matter. */
module SourceHash {
  import opened Common

  /** One slot of the `strings`/`lengths` arrays: a possibly null pointer
      and the C `int` length given for it. */
  datatype Source = Source(text: Option<seq<byte>>, length: i32)

  /** `nctl::fasthash64` with the module's fixed seed, as an uninterpreted
      oracle: it receives every byte it may read (the string and its zero
      padding) and the string's length. */
  type Hasher = (seq<byte>, nat) -> u64

  /** A slot the loop hashes: non-null with a positive length. */
  predicate Hashed(s: Source)
  {
    s.text.Some? && s.length > 0
  }

  /** What the source demands of its caller: a hashed slot points at no
      fewer bytes than its length says. */
  predicate WellFormed(srcs: seq<Source>)
  {
    forall i :: 0 <= i < |srcs| && Hashed(srcs[i]) ==> srcs[i].length <= |srcs[i].text.value|
  }

  /** The length aligned to 64 bits plus the 7 bytes the hash may read after it. */
  function PaddedLength(length: nat): (p: nat)
    ensures p >= length + 8
    ensures p % 8 == 7
  {
    length + 8 - length % 8 + 7
  }

  /** A padded length computed in `unsigned int` never wraps for an `int` length. */
  lemma PaddedLengthFits(length: i32)
    requires length > 0
    ensures PaddedLength(length) < TWO_32
  {
  }

  /** The first `length` bytes of `text` followed by zero padding up to `PaddedLength(length)`. */
  function PaddedCopy(text: seq<byte>, length: nat): (b: seq<byte>)
    requires length <= |text|
    ensures |b| == PaddedLength(length)
    ensures b[..length] == text[..length]
    ensures forall j :: length <= j < |b| ==> b[j] == 0
  {
    text[..length] + Repeat<byte>(0, PaddedLength(length) - length)
  }

  /** The term one slot adds to the sum (a skipped slot adds nothing). */
  function Contribution(s: Source, h: Hasher): u64
  {
    if Hashed(s) && s.length <= |s.text.value| then h(PaddedCopy(s.text.value, s.length), s.length) else 0
  }

  function Contributions(srcs: seq<Source>, h: Hasher): (c: seq<u64>)
    ensures |c| == |srcs|
    ensures forall i :: 0 <= i < |srcs| ==> c[i] == Contribution(srcs[i], h)
  {
    MapSeq(srcs, s => Contribution(s, h))
  }

  /** The hash of a list of sources: the wrapping sum of the hashed slots' terms. */
  function HashOf(srcs: seq<Source>, h: Hasher): u64
    requires WellFormed(srcs)
  {
    Sum64(Contributions(srcs, h))
  }

  /** Two slots that hold the same logical content: both skipped, or both
      hashed with the same length and the same bytes up to that length. */
  predicate SameContent(a: Source, b: Source)
  {
    && Hashed(a) == Hashed(b)
    && (Hashed(a) ==> a.length == b.length
                      && a.length <= |a.text.value| && b.length <= |b.text.value|
                      && a.text.value[..a.length] == b.text.value[..b.length])
  }

  /** The hash depends only on the first `length` bytes of each hashed slot. */
  lemma HashIgnoresBytesPastLength(srcs: seq<Source>, other: seq<Source>, h: Hasher)
    requires WellFormed(srcs) && WellFormed(other) && |srcs| == |other|
    requires forall i :: 0 <= i < |srcs| ==> SameContent(srcs[i], other[i])
    ensures HashOf(srcs, h) == HashOf(other, h)
  {
    forall i | 0 <= i < |srcs| && Hashed(srcs[i])
      ensures Contribution(srcs[i], h) == Contribution(other[i], h)
    {
      var a := srcs[i].text.value;
      var b := other[i].text.value;
      var n := srcs[i].length as nat;
      assert PaddedCopy(a, n) == a[..n] + Repeat<byte>(0, PaddedLength(n) - n);
      assert PaddedCopy(a, n) == PaddedCopy(b, n);
    }
    assert Contributions(srcs, h) == Contributions(other, h);
  }

  /** The hash does not depend on the order of the sources. */
  lemma HashIgnoresOrder(srcs: seq<Source>, other: seq<Source>, h: Hasher)
    requires WellFormed(srcs) && WellFormed(other)
    requires multiset(srcs) == multiset(other)
    ensures HashOf(srcs, h) == HashOf(other, h)
  {
    ContributionsPermute(srcs, other, h);
    Sum64Permutation(Contributions(srcs, h), Contributions(other, h));
  }

  lemma ContributionsPermute(srcs: seq<Source>, other: seq<Source>, h: Hasher)
    requires multiset(srcs) == multiset(other)
    ensures multiset(Contributions(srcs, h)) == multiset(Contributions(other, h))
  {
    MapSeqPermutation(srcs, other, s => Contribution(s, h));
  }

  /** The loop of `hashSources`, with the module-level scratch buffer made
      explicit: each hashed slot is copied into the buffer (which first grows
      if it is shorter than the padded length, and never shrinks), the padding
      is zeroed and the hasher reads the buffer's first padded bytes. */
  method HashSources(srcs: seq<Source>, h: Hasher, buffer: seq<byte>)
    returns (hash: u64, buffer': seq<byte>)
    requires WellFormed(srcs)
    ensures hash == HashOf(srcs, h)
    ensures |buffer'| >= |buffer|
    ensures forall i :: 0 <= i < |srcs| && Hashed(srcs[i]) ==> |buffer'| >= PaddedLength(srcs[i].length)
  {
    hash := 0;
    buffer' := buffer;
    var i := 0;
    while i < |srcs|
      invariant 0 <= i <= |srcs|
      invariant hash == Sum64(Contributions(srcs, h)[..i])
      invariant |buffer'| >= |buffer|
      invariant forall j :: 0 <= j < i && Hashed(srcs[j]) ==> |buffer'| >= PaddedLength(srcs[j].length)
    {
      var term;
      term, buffer' := HashSlot(srcs[i], h, buffer');
      assert Contributions(srcs, h)[..i+1] == Contributions(srcs, h)[..i] + [term];
      hash := Add64(hash, term);
      i := i + 1;
    }
    assert Contributions(srcs, h)[..i] == Contributions(srcs, h);
  }

  /** One iteration of the `hashSources` loop: a hashed slot is copied into
      the scratch buffer, which grows first if it is too short, and the
      hasher reads the padded copy. */
  method HashSlot(src: Source, h: Hasher, buffer: seq<byte>) returns (term: u64, buffer': seq<byte>)
    requires Hashed(src) ==> src.length <= |src.text.value|
    ensures term == Contribution(src, h)
    ensures |buffer'| >= |buffer|
    ensures Hashed(src) ==> |buffer'| >= PaddedLength(src.length)
  {
    term, buffer' := 0, buffer;
    if src.text.Some? && src.length > 0 {
      var text := src.text.value;
      var length: nat := src.length;
      var paddedLength := PaddedLength(length);
      if |buffer'| < paddedLength {
        buffer' := Repeat<byte>(0, paddedLength);
      }
      buffer' := text[..length] + Repeat<byte>(0, paddedLength - length) + buffer'[paddedLength..];
      assert buffer'[..paddedLength] == PaddedCopy(text, length);
      term := h(buffer'[..paddedLength], length);
    }
  }

  /** `StaticString<N>::assign(s, capacity)`: at most `capacity` characters are kept. */
  function Truncate(s: seq<byte>, capacity: nat): (r: seq<byte>)
    ensures |r| == Min(|s|, capacity) && r == s[..|r|]
  {
    if |s| <= capacity then s else s[..capacity]
  }

  /** The platform hash computed in the cache's constructor: the wrapping
      sum of the hashes of the (truncated, zero-padded) renderer and version strings. */
  function PlatformHash(renderer: seq<byte>, version: seq<byte>, capacity: nat, h: Hasher): (r: u64)
    // only the first `capacity` bytes of each string are hashed, zero-padded
    ensures var nr, nv := Min(|renderer|, capacity), Min(|version|, capacity);
            r == Add64(h(PaddedCopy(renderer, nr), nr), h(PaddedCopy(version, nv), nv))
  {
    var r := Truncate(renderer, capacity);
    var v := Truncate(version, capacity);
    assert r[..|r|] == renderer[..|r|] && v[..|v|] == version[..|v|];
    Add64(h(PaddedCopy(r, |r|), |r|), h(PaddedCopy(v, |v|), |v|))
  }

  // ---------------------------------------------------------------------
  // The constructor's padding buffer

  /** The capacity of the `nctl::StaticString<512>` the constructor copies
      each identity string into before padding it. */
  const PlatformStringCapacity: nat := 512

  /** The constructor's zeroing loop over a buffer of `|buffer|` bytes whose
      first `length` bytes are the kept string: `None` when the loop writes
      past the end of the buffer. */
  function ZeroPadding(buffer: seq<byte>, length: nat): (r: Option<seq<byte>>)
    requires length <= |buffer|
    ensures r.Some? <==> PaddedLength(length) <= |buffer|
    ensures r.Some? ==> && |r.value| == |buffer|
                        && r.value[..PaddedLength(length)] == PaddedCopy(buffer, length)
                        && r.value[PaddedLength(length)..] == buffer[PaddedLength(length)..]
  {
    var p := PaddedLength(length);
    if p <= |buffer| then Some(buffer[..length] + Repeat<byte>(0, p - length) + buffer[p..]) else None
  }

  /** As written: the padding of a kept string fits the 512-byte buffer
      exactly when the string is shorter than 504 characters; from 504 on,
      the loop's last write lies past the end. */
  lemma PlatformPaddingOverruns(buffer: seq<byte>, length: nat)
    requires |buffer| == PlatformStringCapacity && length <= PlatformStringCapacity
    ensures ZeroPadding(buffer, length).None? <==> length >= 504
    ensures length >= 504 ==> PaddedLength(length) - 1 >= PlatformStringCapacity
  {
    var k := length / 8;
    assert length == 8 * k + length % 8;
    assert PaddedLength(length) == 8 * k + 15;
    if length >= 504 {
      assert k >= 63;
    } else {
      assert k <= 62;
    }
  }

  /** The buffer the padding needs: room for the longest kept string and
      the padding after it. */
  const PlatformBufferSize: nat := PaddedLength(PlatformStringCapacity)

  /** Corrected: in a buffer of `PlatformBufferSize` bytes the padding of
      every kept string fits, and the padded bytes the hasher reads are the
      string's own padded copy, whatever the buffer held before. So the
      constructor's hash is `PlatformHash`. */
  lemma PlatformPaddingFits(buffer: seq<byte>, s: seq<byte>, h: Hasher)
    requires |buffer| == PlatformBufferSize && |s| <= PlatformStringCapacity
    requires buffer[..|s|] == s
    ensures ZeroPadding(buffer, |s|).Some?
    ensures h(ZeroPadding(buffer, |s|).value[..PaddedLength(|s|)], |s|) == h(PaddedCopy(s, |s|), |s|)
  {
    var k := |s| / 8;
    assert |s| == 8 * k + |s| % 8;
    assert k <= 64;
    assert PaddedLength(|s|) <= PlatformBufferSize;
    assert PaddedCopy(buffer, |s|) == PaddedCopy(s, |s|);
  }

  /** For non-empty identity strings the platform hash is exactly what
      `hashSources` gives for the two truncated strings. */
  lemma PlatformHashIsSourceHash(renderer: seq<byte>, version: seq<byte>, capacity: nat, h: Hasher)
    requires 0 < capacity < 0x8000_0000
    requires |renderer| > 0 && |version| > 0
    ensures var r := Truncate(renderer, capacity);
            var v := Truncate(version, capacity);
            WellFormed([Source(Some(r), |r|), Source(Some(v), |v|)])
            && PlatformHash(renderer, version, capacity, h) == HashOf([Source(Some(r), |r|), Source(Some(v), |v|)], h)
  {
    var r := Truncate(renderer, capacity);
    var v := Truncate(version, capacity);
    var srcs := [Source(Some(r), |r|), Source(Some(v), |v|)];
    var c := Contributions(srcs, h);
    assert c[..1][..0] == [];
    assert c[..|c|-1] == c[..1];
    assert Sum64(c[..1]) == Add64(0, c[0]) == c[0];
    assert Sum64(c) == Add64(c[0], c[1]);
  }
}
