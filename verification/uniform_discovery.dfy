/** `GLShaderProgram::discoverUniforms`: the active uniforms are queried in
    chunks of at most 512 indices, and the indices of those outside every
    uniform block (block index -1) are collected into a fixed array of
    `MaxNumUniforms` entries.

    `maxNum` stands for `GLShaderProgram::MaxNumUniforms`, declared in a
    header that is not part of this model; `blockIndex[i]` is what
    `glGetActiveUniformsiv(GL_UNIFORM_BLOCK_INDEX)` reports for uniform `i`. */
module UniformDiscovery {
  import opened Common

  /** `NumIndices`: the size of one query chunk. */
  const ChunkSize: nat := 512

  // ---------------------------------------------------------------------
  // Reference definitions

  /** The indices of the uniforms outside every block, ascending. */
  function OutsideBlocks(blockIndex: seq<int>): (r: seq<nat>)
    ensures forall k :: 0 <= k < |r| ==> r[k] < |blockIndex| && blockIndex[r[k]] == -1
  {
    if |blockIndex| == 0 then []
    else
      var p := blockIndex[..|blockIndex|-1];
      var r := OutsideBlocks(p);
      assert forall k :: 0 <= k < |r| ==> blockIndex[r[k]] == p[r[k]];
      r + (if blockIndex[|blockIndex|-1] == -1 then [|blockIndex|-1] else [])
  }

  predicate StrictlyAscending(s: seq<nat>)
  {
    forall a, b :: 0 <= a < b < |s| ==> s[a] < s[b]
  }

  /** `OutsideBlocks` lists every uniform outside a block, each once, in
      ascending order. */
  lemma {:induction false} OutsideBlocksComplete(blockIndex: seq<int>)
    ensures StrictlyAscending(OutsideBlocks(blockIndex))
    ensures forall i :: 0 <= i < |blockIndex| && blockIndex[i] == -1 ==> i in OutsideBlocks(blockIndex)
  {
    if |blockIndex| > 0 {
      var p := blockIndex[..|blockIndex|-1];
      OutsideBlocksComplete(p);
      assert forall i :: 0 <= i < |p| ==> p[i] == blockIndex[i];
    }
  }

  lemma {:induction false} OutsideBlocksSnoc(blockIndex: seq<int>, x: int)
    ensures OutsideBlocks(blockIndex + [x]) == OutsideBlocks(blockIndex) + (if x == -1 then [|blockIndex|] else [])
  {
    assert (blockIndex + [x])[..|blockIndex|] == blockIndex;
  }

  lemma {:induction false} OutsideBlocksPrefix(blockIndex: seq<int>, n: nat)
    requires n <= |blockIndex|
    ensures OutsideBlocks(blockIndex[..n]) <= OutsideBlocks(blockIndex)
    decreases |blockIndex| - n
  {
    if n < |blockIndex| {
      OutsideBlocksPrefix(blockIndex, n + 1);
      assert blockIndex[..n+1] == blockIndex[..n] + [blockIndex[n]];
      OutsideBlocksSnoc(blockIndex[..n], blockIndex[n]);
    } else {
      assert blockIndex[..n] == blockIndex;
    }
  }

  /** The first `n` elements of `s`, or all of them. */
  function Take(s: seq<nat>, n: nat): (r: seq<nat>)
    ensures r <= s && |r| == Min(|s|, n)
  {
    if |s| <= n then s else s[..n]
  }

  lemma TakeSnoc(s: seq<nat>, t: seq<nat>, n: nat)
    requires |t| <= 1
    ensures Take(s + t, n) == if |Take(s, n)| < n then Take(s, n) + t else Take(s, n)
  {
  }

  lemma TakeSaturated(s: seq<nat>, t: seq<nat>, n: nat)
    requires s <= t && |Take(s, n)| == n
    ensures Take(t, n) == Take(s, n)
  {
  }

  // ---------------------------------------------------------------------
  // The loop as written

  /** One store `indices[position] = value`. */
  datatype Write = Write(position: nat, value: nat)

  /** Stores that fill `indices` from position 0 on, each with the index of
      a uniform outside blocks below `bound`, in ascending order. */
  predicate StoredInOrder(writes: seq<Write>, blockIndex: seq<int>, bound: nat)
  {
    && bound <= |blockIndex|
    && (forall k :: 0 <= k < |writes| ==>
          writes[k].position == k && writes[k].value < bound && blockIndex[writes[k].value] == -1)
    && (forall k :: 0 < k < |writes| ==> writes[k-1].value < writes[k].value)
  }

  /** The inner loop over one chunk. It leaves the chunk as soon as
      `maxNum` indices have been collected. */
  function InnerAsWritten(blockIndex: seq<int>, start: nat, step: nat, i: nat,
                          n: nat, maxNum: nat, writes: seq<Write>): (r: (nat, seq<Write>))
    requires 1 <= maxNum && start + step <= |blockIndex| && i <= step
    ensures r.0 >= n
    ensures StoredInOrder(writes, blockIndex, start + i) && |writes| == n ==>
              StoredInOrder(r.1, blockIndex, start + step) && |r.1| == r.0
    decreases step - i
  {
    if i == step then (n, writes)
    else
      var n', writes' := if blockIndex[start + i] == -1 then n + 1 else n,
                         if blockIndex[start + i] == -1 then writes + [Write(n, start + i)] else writes;
      if n' > maxNum - 1 then (n', writes')
      else InnerAsWritten(blockIndex, start, step, i + 1, n', maxNum, writes')
  }

  /** The outer loop; nothing stops it once the cap is reached, so every
      later chunk still enters the inner loop. */
  function OuterAsWritten(blockIndex: seq<int>, remaining: nat, n: nat, maxNum: nat,
                          writes: seq<Write>): (r: seq<Write>)
    requires 1 <= maxNum && remaining <= |blockIndex|
    ensures StoredInOrder(writes, blockIndex, |blockIndex| - remaining) && |writes| == n ==>
              StoredInOrder(r, blockIndex, |blockIndex|)
    decreases remaining
  {
    if remaining == 0 then writes
    else
      var step := if remaining > ChunkSize then ChunkSize else remaining;
      var start := |blockIndex| - remaining;
      var r := InnerAsWritten(blockIndex, start, step, 0, n, maxNum, writes);
      OuterAsWritten(blockIndex, remaining - step, r.0, maxNum, r.1)
  }

  /** Every store the code performs into `indices`, in order. */
  function DiscoverAsWritten(blockIndex: seq<int>, maxNum: nat): (r: seq<Write>)
    requires 1 <= maxNum
    ensures StoredInOrder(r, blockIndex, |blockIndex|)
  {
    OuterAsWritten(blockIndex, |blockIndex|, 0, maxNum, [])
  }

  /** With every uniform outside blocks, a chunk of at least `maxNum`
      uniforms collects exactly `maxNum` indices, at positions 0 .. maxNum-1. */
  lemma {:induction false} InnerFillsCap(blockIndex: seq<int>, step: nat, i: nat, maxNum: nat, writes: seq<Write>)
    requires 1 <= maxNum <= step <= |blockIndex| && i < maxNum
    requires forall k :: 0 <= k < |blockIndex| ==> blockIndex[k] == -1
    ensures InnerAsWritten(blockIndex, 0, step, i, i, maxNum, writes).0 == maxNum
    ensures InnerAsWritten(blockIndex, 0, step, i, i, maxNum, writes).1 ==
              writes + seq(maxNum - i, k requires 0 <= k < maxNum - i => Write(i + k, i + k))
    decreases maxNum - i
  {
    var w := writes + [Write(i, i)];
    if i + 1 <= maxNum - 1 {
      InnerFillsCap(blockIndex, step, i + 1, maxNum, w);
      assert w + seq(maxNum - (i + 1), k requires 0 <= k < maxNum - (i + 1) => Write(i + 1 + k, i + 1 + k))
          == writes + seq(maxNum - i, k requires 0 <= k < maxNum - i => Write(i + k, i + k));
    } else {
      assert w == writes + seq(maxNum - i, k requires 0 <= k < maxNum - i => Write(i + k, i + k));
    }
  }

  /** The store the cap does not prevent: with `maxNum <= 512` and 513
      uniforms all outside blocks, the first chunk fills `indices` and
      leaves its inner loop, the second chunk (the single uniform 512)
      stores at position `maxNum`, one past the end of the array. */
  lemma WriteOutOfBounds(maxNum: nat)
    requires 1 <= maxNum <= ChunkSize
    ensures var blockIndex := seq(ChunkSize + 1, _ => -1);
            var writes := DiscoverAsWritten(blockIndex, maxNum);
            |writes| == maxNum + 1 && writes[maxNum] == Write(maxNum, ChunkSize)
  {
    var blockIndex: seq<int> := seq(ChunkSize + 1, _ => -1);
    InnerFillsCap(blockIndex, ChunkSize, 0, maxNum, []);
    var first := InnerAsWritten(blockIndex, 0, ChunkSize, 0, 0, maxNum, []);
    assert first.0 == maxNum;
    var second := InnerAsWritten(blockIndex, ChunkSize, 1, 0, maxNum, maxNum, first.1);
    assert second.1 == first.1 + [Write(maxNum, ChunkSize)];
    assert OuterAsWritten(blockIndex, 1, maxNum, maxNum, first.1) == OuterAsWritten(blockIndex, 0, second.0, maxNum, second.1);
  }

  // ---------------------------------------------------------------------
  // The loop as intended

  /** The indices collected so far: the capped prefix of the uniforms
      outside blocks among the first `n`, still short of the cap. */
  predicate Collected(blockIndex: seq<int>, n: nat, indices: seq<nat>, maxNum: nat)
    requires n <= |blockIndex|
  {
    indices == Take(OutsideBlocks(blockIndex[..n]), maxNum) && |indices| < maxNum
  }

  /** The cap is reached: the indices are the final answer. */
  predicate Saturated(blockIndex: seq<int>, indices: seq<nat>, maxNum: nat)
  {
    indices == Take(OutsideBlocks(blockIndex), maxNum)
  }

  /** Examining uniform `j` extends the collected prefix by one step; once
      the cap is reached nothing later can change it. */
  lemma DiscoverStep(blockIndex: seq<int>, j: nat, indices: seq<nat>, maxNum: nat)
    requires j < |blockIndex| && Collected(blockIndex, j, indices, maxNum)
    ensures var next := indices + (if blockIndex[j] == -1 then [j] else []);
            if |next| >= maxNum then Saturated(blockIndex, next, maxNum)
            else Collected(blockIndex, j + 1, next, maxNum)
  {
    var p := blockIndex[..j];
    assert blockIndex[..j + 1] == p + [blockIndex[j]];
    OutsideBlocksSnoc(p, blockIndex[j]);
    TakeSnoc(OutsideBlocks(p), if blockIndex[j] == -1 then [j] else [], maxNum);
    OutsideBlocksPrefix(blockIndex, j + 1);
    var next := indices + (if blockIndex[j] == -1 then [j] else []);
    if |next| >= maxNum {
      TakeSaturated(OutsideBlocks(blockIndex[..j + 1]), OutsideBlocks(blockIndex), maxNum);
    }
  }

  /** The inner loop over the chunk `[start, start + step)`: it extends the
      collected prefix uniform by uniform and stops at the cap. */
  method ScanChunk(blockIndex: seq<int>, start: nat, step: nat, indices: seq<nat>, maxNum: nat)
    returns (indices': seq<nat>, full: bool)
    requires start + step <= |blockIndex| && Collected(blockIndex, start, indices, maxNum)
    ensures !full ==> Collected(blockIndex, start + step, indices', maxNum)
    ensures full ==> Saturated(blockIndex, indices', maxNum)
  {
    indices', full := indices, false;
    var i := 0;
    while i < step && !full
      invariant 0 <= i <= step
      invariant !full ==> Collected(blockIndex, start + i, indices', maxNum)
      invariant full ==> Saturated(blockIndex, indices', maxNum)
    {
      var j := start + i;
      DiscoverStep(blockIndex, j, indices', maxNum);
      if blockIndex[j] == -1 {
        indices' := indices' + [j];
      }
      if |indices'| >= maxNum {
        full := true;
      }
      i := i + 1;
    }
  }

  /** The chunked discovery with the cap leaving both loops: the first
      `maxNum` uniforms outside blocks, ascending, and never more than
      `maxNum` of them. */
  method DiscoverUniforms(blockIndex: seq<int>, maxNum: nat) returns (indices: seq<nat>)
    ensures indices == Take(OutsideBlocks(blockIndex), maxNum)
    ensures |indices| <= maxNum
    ensures StrictlyAscending(indices)
    ensures forall k :: 0 <= k < |indices| ==> indices[k] < |blockIndex| && blockIndex[indices[k]] == -1
  {
    var count := |blockIndex|;
    indices := [];
    var remaining := count;
    var full := maxNum == 0;
    while remaining > 0 && !full
      invariant 0 <= remaining <= count
      invariant !full ==> Collected(blockIndex, count - remaining, indices, maxNum)
      invariant full ==> Saturated(blockIndex, indices, maxNum)
      decreases remaining
    {
      var step := if remaining > ChunkSize then ChunkSize else remaining;
      indices, full := ScanChunk(blockIndex, count - remaining, step, indices, maxNum);
      remaining := remaining - step;
    }
    if !full {
      assert blockIndex[..count] == blockIndex;
    }
    OutsideBlocksComplete(blockIndex);
  }
}
