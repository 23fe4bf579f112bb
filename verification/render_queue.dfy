/** `RenderQueue`: commands collected during a frame, split into an opaque
    and a transparent list, sorted and issued by `draw`, together with the
    per-frame vertex and command counters.

    `RenderCommand::CommandType::COUNT` is not part of this model: the typed
    counters are sequences of one common length and a command's type must
    index them. */
module RenderQueue {
  import opened Common

  /** A `RenderCommand` as the queue sees it: an identity, the key
      `calculateSortKey` computed, its type, the vertex count of its
      geometry and whether its material is transparent. */
  datatype Command = Command(id: nat, sortKey: int, kind: nat, numVertices: nat, transparent: bool)

  datatype Queue = Queue(
    numVertices: nat,
    lastNumVertices: nat,
    lastNumCommands: nat,
    typedNumVertices: seq<nat>,
    typedNumCommands: seq<nat>,
    typedLastNumVertices: seq<nat>,
    typedLastNumCommands: seq<nat>,
    opaqueCommands: seq<Command>,
    transparentCommands: seq<Command>)

  /** The four typed counter arrays have the common length `COUNT`. */
  predicate WellFormed(q: Queue)
  {
    && |q.typedNumCommands| == |q.typedNumVertices|
    && |q.typedLastNumVertices| == |q.typedNumVertices|
    && |q.typedLastNumCommands| == |q.typedNumVertices|
  }

  /** The constructor: the typed "last" counters take whatever the live
      arrays held, which are then zeroed. */
  function NewQueue(typedVertices: seq<nat>, typedCommands: seq<nat>): (q: Queue)
    requires |typedCommands| == |typedVertices|
    ensures WellFormed(q) && Tallied(q)
    ensures q.numVertices == 0 && q.lastNumVertices == 0 && q.lastNumCommands == 0
    ensures q.typedLastNumVertices == typedVertices && q.typedLastNumCommands == typedCommands
    ensures q.opaqueCommands == [] && q.transparentCommands == []
  {
    Queue(0, 0, 0, Repeat<nat>(0, |typedVertices|), Repeat<nat>(0, |typedVertices|), typedVertices, typedCommands, [], [])
  }

  // ---------------------------------------------------------------------
  // Adding

  /** `addCommand`: the command goes to exactly one list, chosen by its
      material, and its vertices and itself are counted. */
  function AddCommand(q: Queue, c: Command): (r: Queue)
    requires WellFormed(q) && c.kind < |q.typedNumVertices|
    ensures WellFormed(r)
    ensures !c.transparent ==> r.opaqueCommands == q.opaqueCommands + [c] && r.transparentCommands == q.transparentCommands
    ensures c.transparent ==> r.transparentCommands == q.transparentCommands + [c] && r.opaqueCommands == q.opaqueCommands
    ensures r.numVertices == q.numVertices + c.numVertices
    ensures r.typedNumVertices == q.typedNumVertices[c.kind := q.typedNumVertices[c.kind] + c.numVertices]
    ensures r.typedNumCommands == q.typedNumCommands[c.kind := q.typedNumCommands[c.kind] + 1]
    ensures r.lastNumVertices == q.lastNumVertices && r.lastNumCommands == q.lastNumCommands
    ensures r.typedLastNumVertices == q.typedLastNumVertices && r.typedLastNumCommands == q.typedLastNumCommands
  {
    var counted := q.(
      typedNumVertices := q.typedNumVertices[c.kind := q.typedNumVertices[c.kind] + c.numVertices],
      typedNumCommands := q.typedNumCommands[c.kind := q.typedNumCommands[c.kind] + 1],
      numVertices := q.numVertices + c.numVertices);
    if !c.transparent then counted.(opaqueCommands := q.opaqueCommands + [c])
    else counted.(transparentCommands := q.transparentCommands + [c])
  }

  /** Total vertex count of a list. */
  function VertexSum(s: seq<Command>): nat
  {
    if |s| == 0 then 0 else VertexSum(s[..|s|-1]) + s[|s|-1].numVertices
  }

  /** Number of commands of type `t` in a list. */
  function TypedCount(s: seq<Command>, t: nat): nat
  {
    if |s| == 0 then 0 else TypedCount(s[..|s|-1], t) + (if s[|s|-1].kind == t then 1 else 0)
  }

  /** Vertex count of the commands of type `t` in a list. */
  function TypedVertices(s: seq<Command>, t: nat): nat
  {
    if |s| == 0 then 0 else TypedVertices(s[..|s|-1], t) + (if s[|s|-1].kind == t then s[|s|-1].numVertices else 0)
  }

  lemma AggregatesSnoc(s: seq<Command>, c: Command)
    ensures VertexSum(s + [c]) == VertexSum(s) + c.numVertices
    ensures forall t :: TypedCount(s + [c], t) == TypedCount(s, t) + (if c.kind == t then 1 else 0)
    ensures forall t :: TypedVertices(s + [c], t) == TypedVertices(s, t) + (if c.kind == t then c.numVertices else 0)
  {
    assert (s + [c])[..|s + [c]| - 1] == s;
  }

  /** The live counters describe exactly the commands queued since the last draw. */
  predicate Tallied(q: Queue)
  {
    && WellFormed(q)
    && q.numVertices == VertexSum(q.opaqueCommands) + VertexSum(q.transparentCommands)
    && (forall t :: 0 <= t < |q.typedNumVertices| ==>
          q.typedNumCommands[t] == TypedCount(q.opaqueCommands, t) + TypedCount(q.transparentCommands, t))
    && (forall t :: 0 <= t < |q.typedNumVertices| ==>
          q.typedNumVertices[t] == TypedVertices(q.opaqueCommands, t) + TypedVertices(q.transparentCommands, t))
  }

  lemma AddCommandKeepsTally(q: Queue, c: Command)
    requires Tallied(q) && c.kind < |q.typedNumVertices|
    ensures Tallied(AddCommand(q, c))
  {
    AggregatesSnoc(q.opaqueCommands, c);
    AggregatesSnoc(q.transparentCommands, c);
  }

  /** A frame's worth of `addCommand` calls. */
  function AddAll(q: Queue, cs: seq<Command>): (r: Queue)
    requires WellFormed(q) && forall i :: 0 <= i < |cs| ==> cs[i].kind < |q.typedNumVertices|
    ensures WellFormed(r) && |r.typedNumVertices| == |q.typedNumVertices|
    decreases |cs|
  {
    if |cs| == 0 then q else AddAll(AddCommand(q, cs[0]), cs[1..])
  }

  /** The queued commands are exactly those added, each in the list its
      material selects, and the counters keep up with them. */
  lemma {:induction false} AddAllQueues(q: Queue, cs: seq<Command>)
    requires Tallied(q) && forall i :: 0 <= i < |cs| ==> cs[i].kind < |q.typedNumVertices|
    ensures var r := AddAll(q, cs);
            && Tallied(r)
            && multiset(r.opaqueCommands + r.transparentCommands) == multiset(q.opaqueCommands + q.transparentCommands) + multiset(cs)
            && (forall i :: 0 <= i < |r.opaqueCommands| ==> !r.opaqueCommands[i].transparent || r.opaqueCommands[i] in q.opaqueCommands)
            && (forall i :: 0 <= i < |r.transparentCommands| ==> r.transparentCommands[i].transparent || r.transparentCommands[i] in q.transparentCommands)
  {
    AddAllTallied(q, cs);
    AddAllMultiset(q, cs);
    AddAllLists(q, cs);
  }

  lemma {:induction false} AddAllTallied(q: Queue, cs: seq<Command>)
    requires Tallied(q) && forall i :: 0 <= i < |cs| ==> cs[i].kind < |q.typedNumVertices|
    ensures Tallied(AddAll(q, cs))
    decreases |cs|
  {
    if |cs| > 0 {
      AddCommandKeepsTally(q, cs[0]);
      AddAllTallied(AddCommand(q, cs[0]), cs[1..]);
    }
  }

  lemma {:induction false} AddAllMultiset(q: Queue, cs: seq<Command>)
    requires WellFormed(q) && forall i :: 0 <= i < |cs| ==> cs[i].kind < |q.typedNumVertices|
    ensures var r := AddAll(q, cs);
            multiset(r.opaqueCommands + r.transparentCommands) == multiset(q.opaqueCommands + q.transparentCommands) + multiset(cs)
    decreases |cs|
  {
    if |cs| > 0 {
      var q1 := AddCommand(q, cs[0]);
      AddAllMultiset(q1, cs[1..]);
      assert cs == [cs[0]] + cs[1..];
      assert multiset(q1.opaqueCommands + q1.transparentCommands) == multiset(q.opaqueCommands + q.transparentCommands) + multiset{cs[0]};
    }
  }

  lemma {:induction false} AddAllLists(q: Queue, cs: seq<Command>)
    requires WellFormed(q) && forall i :: 0 <= i < |cs| ==> cs[i].kind < |q.typedNumVertices|
    ensures var r := AddAll(q, cs);
            && (forall i :: 0 <= i < |r.opaqueCommands| ==> !r.opaqueCommands[i].transparent || r.opaqueCommands[i] in q.opaqueCommands)
            && (forall i :: 0 <= i < |r.transparentCommands| ==> r.transparentCommands[i].transparent || r.transparentCommands[i] in q.transparentCommands)
    decreases |cs|
  {
    if |cs| > 0 {
      var q1 := AddCommand(q, cs[0]);
      AddAllLists(q1, cs[1..]);
      var r := AddAll(q, cs);
      assert r == AddAll(q1, cs[1..]);
      forall i | 0 <= i < |r.opaqueCommands| && r.opaqueCommands[i].transparent
        ensures r.opaqueCommands[i] in q.opaqueCommands
      {
        var k :| 0 <= k < |q1.opaqueCommands| && q1.opaqueCommands[k] == r.opaqueCommands[i];
        if k < |q.opaqueCommands| { assert q.opaqueCommands[k] == q1.opaqueCommands[k]; }
      }
      forall i | 0 <= i < |r.transparentCommands| && !r.transparentCommands[i].transparent
        ensures r.transparentCommands[i] in q.transparentCommands
      {
        var k :| 0 <= k < |q1.transparentCommands| && q1.transparentCommands[k] == r.transparentCommands[i];
        if k < |q.transparentCommands| { assert q.transparentCommands[k] == q1.transparentCommands[k]; }
      }
    } else {
      assert forall i :: 0 <= i < |q.opaqueCommands| ==> q.opaqueCommands[i] in q.opaqueCommands;
      assert forall i :: 0 <= i < |q.transparentCommands| ==> q.transparentCommands[i] in q.transparentCommands;
    }
  }

  // ---------------------------------------------------------------------
  // Sorting

  /** The key a list is sorted on in increasing order: the sort key for the
      transparent list, its negation for the opaque one. */
  function Rank(c: Command, descending: bool): int
  {
    if descending then -c.sortKey else c.sortKey
  }

  /** `descendingOrder` (opaque) and `ascendingOrder` (transparent): whether
      `a` has to be issued before `b`. */
  predicate Before(a: Command, b: Command, descending: bool)
  {
    if descending then a.sortKey > b.sortKey else a.sortKey < b.sortKey
  }

  lemma BeforeIsRank(a: Command, b: Command, descending: bool)
    ensures Before(a, b, descending) <==> Rank(a, descending) < Rank(b, descending)
  {
  }

  /** No command comes after one it should precede. */
  predicate SortedBy(s: seq<Command>, descending: bool)
  {
    forall i, j :: 0 <= i < j < |s| ==> Rank(s[i], descending) <= Rank(s[j], descending)
  }

  /** The lists `nctl::quicksort` may leave with the given comparator: the
      permutations of `s` in comparator order. Quicksort is not stable, so
      commands with equal keys may end up in any order. */
  predicate QuicksortResult(sorted: seq<Command>, s: seq<Command>, descending: bool)
  {
    |sorted| == |s| && SortedBy(sorted, descending) && multiset(sorted) == multiset(s)
  }

  function InsertSorted(x: Command, s: seq<Command>, descending: bool): (r: seq<Command>)
    ensures |r| == |s| + 1
    ensures multiset(r) == multiset(s) + multiset{x}
  {
    if |s| == 0 then [x]
    else if Rank(x, descending) <= Rank(s[0], descending) then [x] + s
    else
      assert s == [s[0]] + s[1..];
      [s[0]] + InsertSorted(x, s[1..], descending)
  }

  lemma {:induction false} InsertSortedKeepsOrder(x: Command, s: seq<Command>, descending: bool)
    requires SortedBy(s, descending)
    ensures SortedBy(InsertSorted(x, s, descending), descending)
  {
    if |s| > 0 && Rank(x, descending) > Rank(s[0], descending) {
      var rest := InsertSorted(x, s[1..], descending);
      InsertSortedKeepsOrder(x, s[1..], descending);
      forall j | 0 <= j < |rest|
        ensures Rank(s[0], descending) <= Rank(rest[j], descending)
      {
        assert rest[j] in multiset(rest);
        if rest[j] != x {
          assert rest[j] in s[1..];
        }
      }
      assert InsertSorted(x, s, descending) == [s[0]] + rest;
    }
  }

  /** A reference sort by insertion. It shows that every list has a
      `QuicksortResult`, and `SortedKeysDetermined` shows that every such
      result carries the same key sequence as this one. */
  function Sort(s: seq<Command>, descending: bool): (r: seq<Command>)
    ensures |r| == |s|
    ensures multiset(r) == multiset(s)
  {
    if |s| == 0 then []
    else
      assert s == [s[0]] + s[1..];
      InsertSorted(s[0], Sort(s[1..], descending), descending)
  }

  lemma {:induction false} SortSorts(s: seq<Command>, descending: bool)
    ensures QuicksortResult(Sort(s, descending), s, descending)
  {
    if |s| > 0 {
      SortSorts(s[1..], descending);
      InsertSortedKeepsOrder(s[0], Sort(s[1..], descending), descending);
    }
  }

  function Ranks(s: seq<Command>, descending: bool): (r: seq<int>)
    ensures |r| == |s| && forall i :: 0 <= i < |s| ==> r[i] == Rank(s[i], descending)
  {
    seq(|s|, i requires 0 <= i < |s| => Rank(s[i], descending))
  }

  function Keys(s: seq<Command>): (r: seq<int>)
    ensures |r| == |s| && forall i :: 0 <= i < |s| ==> r[i] == s[i].sortKey
  {
    seq(|s|, i requires 0 <= i < |s| => s[i].sortKey)
  }

  predicate Ascending(k: seq<int>)
  {
    forall i, j :: 0 <= i < j < |k| ==> k[i] <= k[j]
  }

  /** Two ascending arrangements of the same numbers are the same sequence. */
  lemma {:induction false} AscendingUnique(a: seq<int>, b: seq<int>)
    requires Ascending(a) && Ascending(b)
    requires multiset(a) == multiset(b)
    ensures a == b
    decreases |a|
  {
    assert |a| == |multiset(a)| && |b| == |multiset(b)|;
    if |a| > 0 {
      AscendingHeads(a, b);
      TailMultiset(a);
      TailMultiset(b);
      AscendingUnique(a[1..], b[1..]);
      assert a == [a[0]] + a[1..];
      assert b == [b[0]] + b[1..];
    }
  }

  /** Both arrangements start with the least of the numbers. */
  lemma AscendingHeads(a: seq<int>, b: seq<int>)
    requires Ascending(a) && Ascending(b) && multiset(a) == multiset(b) && |a| > 0
    ensures |b| > 0 && a[0] == b[0]
  {
    assert |a| == |multiset(a)| && |b| == |multiset(b)|;
    assert a[0] in multiset(b) && b[0] in multiset(a);
    var i :| 0 <= i < |b| && b[i] == a[0];
    var j :| 0 <= j < |a| && a[j] == b[0];
    assert b[0] <= b[i] && a[0] <= a[j];
  }

  lemma TailMultiset(a: seq<int>)
    requires |a| > 0
    ensures multiset(a[1..]) == multiset(a) - multiset{a[0]}
  {
    assert a == [a[0]] + a[1..];
  }

  lemma RanksOfPermutation(a: seq<Command>, b: seq<Command>, descending: bool)
    requires multiset(a) == multiset(b)
    ensures multiset(Ranks(a, descending)) == multiset(Ranks(b, descending))
  {
    var f := (c: Command) => Rank(c, descending);
    MapSeqPermutation(a, b, f);
    assert Ranks(a, descending) == MapSeq(a, f);
    assert Ranks(b, descending) == MapSeq(b, f);
  }

  /** Whatever order the unstable sort leaves equal keys in, the keys are
      issued in the same sequence as `Sort`'s. */
  lemma SortedKeysDetermined(s: seq<Command>, other: seq<Command>, descending: bool)
    requires QuicksortResult(other, s, descending)
    ensures Keys(other) == Keys(Sort(s, descending))
  {
    var mine := Sort(s, descending);
    SortSorts(s, descending);
    RanksOfPermutation(other, mine, descending);
    AscendingUnique(Ranks(other, descending), Ranks(mine, descending));
    forall i | 0 <= i < |other|
      ensures other[i].sortKey == mine[i].sortKey
    {
      assert Ranks(other, descending)[i] == Ranks(mine, descending)[i];
    }
  }

  // ---------------------------------------------------------------------
  // Drawing

  /** The two pieces of GL state `draw` touches. */
  datatype GlState = GlState(blend: bool, depthMask: bool)

  /** One `issue()` call and the GL state it ran under. */
  datatype Issued = Issued(command: Command, state: GlState)

  function IssueAll(cs: seq<Command>, state: GlState): (r: seq<Issued>)
    ensures |r| == |cs| && forall i :: 0 <= i < |cs| ==> r[i] == Issued(cs[i], state)
  {
    seq(|cs|, i requires 0 <= i < |cs| => Issued(cs[i], state))
  }

  function IssuedCommands(s: seq<Issued>): (r: seq<Command>)
    ensures |r| == |s| && forall i :: 0 <= i < |s| ==> r[i] == s[i].command
  {
    seq(|s|, i requires 0 <= i < |s| => s[i].command)
  }

  datatype DrawResult = DrawResult(queue: Queue, issued: seq<Issued>, state: GlState)

  /** `draw`: opaque commands front to back under the entry state, then
      transparent ones back to front with blending on and depth writes
      off; the counters become last frame's and both lists are emptied.
      `sortedOpaque` and `sortedTransparent` are the orders the two
      quicksort calls leave, which may be any `QuicksortResult` of the lists. */
  function Draw(q: Queue, entry: GlState, sortedOpaque: seq<Command>, sortedTransparent: seq<Command>): (r: DrawResult)
    requires WellFormed(q)
    requires QuicksortResult(sortedOpaque, q.opaqueCommands, true)
    requires QuicksortResult(sortedTransparent, q.transparentCommands, false)
    ensures |r.issued| == |q.opaqueCommands| + |q.transparentCommands|
    ensures forall i :: 0 <= i < |q.opaqueCommands| ==> r.issued[i] == Issued(sortedOpaque[i], entry)
    ensures forall i :: |q.opaqueCommands| <= i < |r.issued| ==>
              r.issued[i] == Issued(sortedTransparent[i - |q.opaqueCommands|], GlState(true, false))
    ensures r.state == GlState(false, true)
    ensures WellFormed(r.queue) && |r.queue.typedNumVertices| == |q.typedNumVertices|
    ensures r.queue.lastNumVertices == q.numVertices
    ensures r.queue.lastNumCommands == |q.opaqueCommands| + |q.transparentCommands|
    ensures r.queue.typedLastNumVertices == q.typedNumVertices && r.queue.typedLastNumCommands == q.typedNumCommands
    ensures r.queue.numVertices == 0 && r.queue.opaqueCommands == [] && r.queue.transparentCommands == []
    ensures forall t :: 0 <= t < |q.typedNumVertices| ==> r.queue.typedNumVertices[t] == 0 && r.queue.typedNumCommands[t] == 0
  {
    var issued := IssueFrame(sortedOpaque, sortedTransparent, entry);
    DrawResult(NextFrame(q), issued, GlState(false, true))
  }

  /** The issue calls of `draw`: the opaque list under the entry state, then
      the transparent list with blending on and depth writes off. */
  function IssueFrame(front: seq<Command>, back: seq<Command>, entry: GlState): (r: seq<Issued>)
    ensures |r| == |front| + |back|
    ensures forall i :: 0 <= i < |front| ==> r[i] == Issued(front[i], entry)
    ensures forall i :: |front| <= i < |r| ==> r[i] == Issued(back[i - |front|], GlState(true, false))
  {
    IssueAll(front, entry) + IssueAll(back, GlState(true, false))
  }

  /** The queue `draw` leaves: this frame's counters become last frame's,
      the live ones and both lists are emptied. */
  function NextFrame(q: Queue): (r: Queue)
    requires WellFormed(q)
    ensures WellFormed(r) && |r.typedNumVertices| == |q.typedNumVertices|
    ensures r.lastNumVertices == q.numVertices
    ensures r.lastNumCommands == |q.opaqueCommands| + |q.transparentCommands|
    ensures r.typedLastNumVertices == q.typedNumVertices && r.typedLastNumCommands == q.typedNumCommands
    ensures r.numVertices == 0 && r.opaqueCommands == [] && r.transparentCommands == []
    ensures forall t :: 0 <= t < |q.typedNumVertices| ==> r.typedNumVertices[t] == 0 && r.typedNumCommands[t] == 0
  {
    var count := |q.typedNumVertices|;
    Queue(0, q.numVertices, |q.opaqueCommands| + |q.transparentCommands|, Repeat<nat>(0, count), Repeat<nat>(0, count),
          q.typedNumVertices, q.typedNumCommands, [], [])
  }

  /** The opaque commands are issued first, by non-increasing key, and the
      transparent ones after them, by non-decreasing key; whichever order
      quicksort leaves equal keys in, the keys come in the same sequence as
      the reference sort's. */
  lemma DrawOrders(q: Queue, entry: GlState, sortedOpaque: seq<Command>, sortedTransparent: seq<Command>)
    requires WellFormed(q)
    requires QuicksortResult(sortedOpaque, q.opaqueCommands, true)
    requires QuicksortResult(sortedTransparent, q.transparentCommands, false)
    ensures var r := Draw(q, entry, sortedOpaque, sortedTransparent);
            var n := |q.opaqueCommands|;
            && QuicksortResult(IssuedCommands(r.issued[..n]), q.opaqueCommands, true)
            && QuicksortResult(IssuedCommands(r.issued[n..]), q.transparentCommands, false)
            && Keys(IssuedCommands(r.issued[..n])) == Keys(Sort(q.opaqueCommands, true))
            && Keys(IssuedCommands(r.issued[n..])) == Keys(Sort(q.transparentCommands, false))
  {
    var r := Draw(q, entry, sortedOpaque, sortedTransparent);
    var n := |q.opaqueCommands|;
    assert IssuedCommands(r.issued[..n]) == sortedOpaque;
    assert IssuedCommands(r.issued[n..]) == sortedTransparent;
    SortedKeysDetermined(q.opaqueCommands, sortedOpaque, true);
    SortedKeysDetermined(q.transparentCommands, sortedTransparent, false);
  }

  /** Every command queued since the last draw is issued exactly once, and
      the snapshot counts exactly those commands; the queue is ready for the
      next frame. */
  lemma DrawIssuesQueued(q: Queue, entry: GlState, sortedOpaque: seq<Command>, sortedTransparent: seq<Command>)
    requires Tallied(q)
    requires QuicksortResult(sortedOpaque, q.opaqueCommands, true)
    requires QuicksortResult(sortedTransparent, q.transparentCommands, false)
    ensures var r := Draw(q, entry, sortedOpaque, sortedTransparent);
            && multiset(IssuedCommands(r.issued)) == multiset(q.opaqueCommands + q.transparentCommands)
            && r.queue.lastNumVertices == VertexSum(q.opaqueCommands) + VertexSum(q.transparentCommands)
            && (forall t :: 0 <= t < |q.typedNumVertices| ==>
                  r.queue.typedLastNumCommands[t] == TypedCount(q.opaqueCommands, t) + TypedCount(q.transparentCommands, t))
            && Tallied(r.queue)
  {
    DrawIssuesAll(q, entry, sortedOpaque, sortedTransparent);
    DrawSnapshots(q, entry, sortedOpaque, sortedTransparent);
  }

  lemma DrawIssuesAll(q: Queue, entry: GlState, sortedOpaque: seq<Command>, sortedTransparent: seq<Command>)
    requires WellFormed(q)
    requires QuicksortResult(sortedOpaque, q.opaqueCommands, true)
    requires QuicksortResult(sortedTransparent, q.transparentCommands, false)
    ensures multiset(IssuedCommands(Draw(q, entry, sortedOpaque, sortedTransparent).issued)) == multiset(q.opaqueCommands + q.transparentCommands)
  {
    var r := Draw(q, entry, sortedOpaque, sortedTransparent);
    assert IssuedCommands(r.issued) == sortedOpaque + sortedTransparent;
    assert multiset(sortedOpaque + sortedTransparent) == multiset(sortedOpaque) + multiset(sortedTransparent);
    assert multiset(q.opaqueCommands + q.transparentCommands) == multiset(q.opaqueCommands) + multiset(q.transparentCommands);
  }

  lemma DrawSnapshots(q: Queue, entry: GlState, sortedOpaque: seq<Command>, sortedTransparent: seq<Command>)
    requires Tallied(q)
    requires QuicksortResult(sortedOpaque, q.opaqueCommands, true)
    requires QuicksortResult(sortedTransparent, q.transparentCommands, false)
    ensures var r := Draw(q, entry, sortedOpaque, sortedTransparent);
            && r.queue.lastNumVertices == VertexSum(q.opaqueCommands) + VertexSum(q.transparentCommands)
            && (forall t :: 0 <= t < |q.typedNumVertices| ==>
                  r.queue.typedLastNumCommands[t] == TypedCount(q.opaqueCommands, t) + TypedCount(q.transparentCommands, t))
            && Tallied(r.queue)
  {
    assert VertexSum([]) == 0;
    assert forall t :: TypedCount([], t) == 0 && TypedVertices([], t) == 0;
  }
}
