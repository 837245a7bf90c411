/** Cutting a payload into blocks: the send loops of handleAlgoRequest and
    handleFirmwareRequest, and the round trip through the assembler. */
module Transfer {
  import opened Bytes
  import opened Assembly

  function BlockOf(payload: seq<byte>, offset: nat, length: nat): Block
    requires offset + length <= |payload| < WORD
  {
    Block(offset, length, |payload|, payload[offset..offset + length])
  }

  /** The blocks are non-empty pieces of the payload, of at most `max` bytes, that
      follow each other from its start up to `end`. */
  predicate Sequence(payload: seq<byte>, bs: seq<Block>, end: nat, max: nat) {
    && (forall i :: 0 <= i < |bs| ==> Piece(payload, bs[i]) && bs[i].length <= max)
    && (forall i :: 0 < i < |bs| ==> Follows(bs, i))
    && (if bs == [] then end == 0 else bs[0].offset == 0 && End(bs[|bs|-1]) == end)
  }

  /** The data the blocks carry, in order. */
  function Carried(bs: seq<Block>): seq<byte>
    requires forall i :: 0 <= i < |bs| ==> WellFormed(bs[i])
    decreases |bs|
  {
    if bs == [] then []
    else
      var n := |bs| - 1;
      assert WellFormed(bs[n]);
      Carried(bs[..n]) + bs[n].data[..bs[n].length]
  }

  lemma SequenceSnoc(payload: seq<byte>, bs: seq<Block>, end: nat, length: nat, max: nat)
    requires Sequence(payload, bs, end, max) && |payload| < WORD
    requires 0 < length <= max && end + length <= |payload|
    ensures Sequence(payload, bs + [BlockOf(payload, end, length)], end + length, max)
  {
    var b := BlockOf(payload, end, length);
    var more := bs + [b];
    assert b.data[..b.length] == b.data;
    forall i | 0 < i < |more| ensures Follows(more, i) {
      if i < |bs| { assert Follows(bs, i); }
    }
  }

  lemma SequencePrefix(payload: seq<byte>, bs: seq<Block>, end: nat, max: nat)
    requires Sequence(payload, bs, end, max) && bs != []
    ensures Sequence(payload, bs[..|bs|-1], bs[|bs|-1].offset, max)
  {
    var n := |bs| - 1;
    if n > 0 {
      assert Follows(bs, n);
      forall i | 0 < i < n ensures Follows(bs[..n], i) { assert Follows(bs, i); }
    }
  }

  /** What the blocks carry is the payload up to where they end. */
  lemma {:induction false} SequenceCarries(payload: seq<byte>, bs: seq<Block>, end: nat, max: nat)
    requires Sequence(payload, bs, end, max)
    ensures end <= |payload|
    ensures forall i :: 0 <= i < |bs| ==> WellFormed(bs[i])
    ensures Carried(bs) == payload[..end]
    decreases |bs|
  {
    if bs != [] {
      var n := |bs| - 1;
      assert Piece(payload, bs[n]);
      SequencePrefix(payload, bs, end, max);
      SequenceCarries(payload, bs[..n], bs[n].offset, max);
      assert payload[..end] == payload[..bs[n].offset] + payload[bs[n].offset..end];
    }
  }

  /** The size of the chunk at `offset`. */
  function ChunkSize(payload: seq<byte>, offset: nat, max: nat): nat
    requires offset <= |payload|
  {
    if |payload| - offset < max then |payload| - offset else max
  }

  /** handleAlgoRequest's loop from `offset` on: blocks of `max` bytes and a rest. */
  function Chunks(payload: seq<byte>, offset: nat, max: nat): seq<Block>
    requires offset <= |payload| < WORD && 0 < max
    decreases |payload| - offset
  {
    if offset == |payload| then []
    else
      var size := ChunkSize(payload, offset, max);
      [BlockOf(payload, offset, size)] + Chunks(payload, offset + size, max)
  }

  /** The blocks so far and the chunks from `offset` on make up all the chunks. */
  predicate Progressed(payload: seq<byte>, before: seq<Block>, offset: nat, max: nat) {
    && offset <= |payload| < WORD && 0 < max
    && before + Chunks(payload, offset, max) == Chunks(payload, 0, max)
  }

  /** The block is as long as the limit and the payload let it be. */
  predicate Whole(payload: seq<byte>, b: Block, max: nat) {
    && b.offset < |payload| < WORD
    && b == BlockOf(payload, b.offset, ChunkSize(payload, b.offset, max))
  }

  predicate AllWhole(payload: seq<byte>, bs: seq<Block>, max: nat) {
    forall i :: 0 <= i < |bs| ==> Whole(payload, bs[i], max)
  }

  lemma ProgressedSnoc(payload: seq<byte>, bs: seq<Block>, offset: nat, max: nat)
    requires Progressed(payload, bs, offset, max) && offset < |payload|
    ensures var size := ChunkSize(payload, offset, max);
      Progressed(payload, bs + [BlockOf(payload, offset, size)], offset + size, max)
  {
  }

  /** A sequence of whole blocks is what the send loop makes. */
  lemma {:induction false} WholeBlocksAreChunks(payload: seq<byte>, bs: seq<Block>, end: nat, max: nat)
    requires Sequence(payload, bs, end, max) && AllWhole(payload, bs, max) && |payload| < WORD && 0 < max
    ensures Progressed(payload, bs, end, max)
    decreases |bs|
  {
    if bs == [] {
      assert [] + Chunks(payload, 0, max) == Chunks(payload, 0, max);
    } else {
      var n := |bs| - 1;
      assert Piece(payload, bs[n]) && Whole(payload, bs[n], max);
      SequencePrefix(payload, bs, end, max);
      WholeBlocksAreChunks(payload, bs[..n], bs[n].offset, max);
      ProgressedLast(payload, bs, max);
    }
  }

  lemma ProgressedLast(payload: seq<byte>, bs: seq<Block>, max: nat)
    requires |bs| > 0 && Whole(payload, bs[|bs|-1], max)
    requires Progressed(payload, bs[..|bs|-1], bs[|bs|-1].offset, max)
    ensures Progressed(payload, bs, End(bs[|bs|-1]), max)
  {
    var n := |bs| - 1;
    ChunkStep(payload, bs[..n], bs[n].offset, max);
    assert bs == bs[..n] + [bs[n]];
  }

  lemma ChunkStep(payload: seq<byte>, before: seq<Block>, offset: nat, max: nat)
    requires Progressed(payload, before, offset, max) && offset < |payload|
    ensures var size := if |payload| - offset < max then |payload| - offset else max;
      Progressed(payload, before + [BlockOf(payload, offset, size)], offset + size, max)
  {
    var size := if |payload| - offset < max then |payload| - offset else max;
    Regroup(before, BlockOf(payload, offset, size), Chunks(payload, offset + size, max));
  }

  lemma ProgressedPrefix(payload: seq<byte>, before: seq<Block>, offset: nat, max: nat)
    requires Progressed(payload, before, offset, max)
    ensures before <= Chunks(payload, 0, max)
    ensures offset == |payload| ==> before == Chunks(payload, 0, max)
  {
  }

  lemma {:induction false} ChunksContinue(payload: seq<byte>, before: seq<Block>, offset: nat, max: nat)
    requires offset <= |payload| < WORD && 0 < max && Sequence(payload, before, offset, max)
    ensures Sequence(payload, before + Chunks(payload, offset, max), |payload|, max)
    decreases |payload| - offset
  {
    if offset == |payload| {
      assert before + [] == before;
    } else {
      var size := ChunkSize(payload, offset, max);
      var b := BlockOf(payload, offset, size);
      SequenceSnoc(payload, before, offset, size, max);
      ChunksContinue(payload, before + [b], offset + size, max);
      Regroup(before, b, Chunks(payload, offset + size, max));
    }
  }

  lemma Regroup<T>(a: seq<T>, x: T, b: seq<T>)
    ensures a + ([x] + b) == a + [x] + b
  {
  }

  /** The send loop cuts every payload into non-empty contiguous blocks of at most
      `max` bytes whose data concatenates to it. */
  lemma ChunksCarryAll(payload: seq<byte>, max: nat)
    requires |payload| < WORD && 0 < max
    ensures var bs := Chunks(payload, 0, max);
      && Sequence(payload, bs, |payload|, max)
      && (forall i :: 0 <= i < |bs| ==> WellFormed(bs[i]))
      && Carried(bs) == payload
  {
    ChunksContinue(payload, [], 0, max);
    assert [] + Chunks(payload, 0, max) == Chunks(payload, 0, max);
    SequenceCarries(payload, Chunks(payload, 0, max), |payload|, max);
    assert payload[..|payload|] == payload;
  }

  /** The payload is a raw data set whose header matches its length. */
  predicate IsDataSet(l: Layout, payload: seq<byte>) {
    && l.headerSize <= |payload| < WORD
    && |payload| == MaxLength(l, payload[..l.headerSize])
  }

  lemma SequenceIsCut(l: Layout, payload: seq<byte>, bs: seq<Block>, max: nat)
    requires ValidLayout(l) && IsDataSet(l, payload) && Sequence(payload, bs, |payload|, max)
    requires bs != [] && l.headerSize <= bs[0].length
    ensures Cut(l, payload, bs)
  {
  }

  /** Send loop and assembler are inverse: a data set, cut by the loop with a first
      block that holds the header, is rebuilt with one completion, from any earlier
      state of the connection. */
  lemma ChunkAssembleRoundTrip(l: Layout, st: State, payload: seq<byte>, max: nat)
    requires ValidLayout(l) && Valid(l, st) && IsDataSet(l, payload) && l.headerSize <= max
    ensures var bs := Chunks(payload, 0, max);
      && Usable(bs)
      && Feed(l, st, bs) == State(None, 0, st.inserted + [Cells(payload)])
  {
    var bs := Chunks(payload, 0, max);
    ChunksCarryAll(payload, max);
    SequenceIsCut(l, payload, bs, max);
    if |bs| == 1 {
      SingleCutAssembles(l, st, payload, bs[0]);
      assert bs == [bs[0]];
    } else {
      LongerCutAssembles(l, st, payload, bs);
    }
  }

  lemma SingleCutAssembles(l: Layout, st: State, payload: seq<byte>, b: Block)
    requires ValidLayout(l) && Valid(l, st) && Cut(l, payload, [b])
    ensures Usable([b]) && Feed(l, st, [b]) == State(None, 0, st.inserted + [Cells(payload)])
  {
    SingleBlockRepeats(l, st, payload, b, 1);
    assert Repeat(b, 1) == [b] && Repeat(Cells(payload), 1) == [Cells(payload)];
  }

  lemma LongerCutAssembles(l: Layout, st: State, payload: seq<byte>, bs: seq<Block>)
    requires ValidLayout(l) && Valid(l, st) && Cut(l, payload, bs) && |bs| > 1
    ensures Usable(bs) && Feed(l, st, bs) == State(None, 0, st.inserted + [Cells(payload)])
  {
    var ks := Repeat(1, |bs|);
    OnceEach(bs, ks, |bs|);
    assert bs[..|bs|] == bs;
    StutterAssembles(l, st, payload, bs, ks);
  }

  lemma {:induction false} OnceEach<T>(xs: seq<T>, ks: seq<nat>, n: nat)
    requires |xs| == |ks| && n <= |xs| && forall i :: 0 <= i < |ks| ==> ks[i] == 1
    ensures Expand(xs, ks, n) == xs[..n]
  {
    if n > 0 {
      OnceEach(xs, ks, n - 1);
      assert Repeat(xs[n-1], 1) == [xs[n-1]];
    }
  }
}
