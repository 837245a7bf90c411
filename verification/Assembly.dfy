/** Reassembly of a raw data set from blocks: checkAssemblyBuffer and
    handleRawDataPushRequest of server.cpp. */
module Assembly {
  import opened Bytes

  /** A byte of heap memory: realloc leaves the bytes it adds undefined. */
  datatype Cell = Undefined | Byte(value: byte)

  /** MqsCldFile_t: `data` is the fixed payload area, of which `length` bytes count. */
  datatype Block = Block(offset: uint32, length: uint32, totalLength: uint32, data: seq<byte>)

  /** The sizes of MqsRawDataSet_t and MqsRawDataPoint_t, and where the header
      keeps its two counts. */
  datatype Layout = Layout(headerSize: nat, pointSize: nat,
                           baseCount: seq<byte> -> uint32, afterCount: seq<byte> -> uint32)

  /** rawDataSetAssemblyBuffer, maxAssemblyLength, and the data sets passed to
      mysqlInsertRawDataSet so far. */
  datatype State = State(buffer: Option<seq<Cell>>, maxLength: uint32, inserted: seq<seq<Cell>>)

  predicate ValidLayout(l: Layout) {
    0 < l.headerSize && 0 < l.pointSize
  }

  /** The length stays within the payload area. The source does not check it. */
  predicate WellFormed(b: Block) {
    b.length <= |b.data|
  }

  /** The payload area has room for a header. */
  predicate HoldsHeader(l: Layout, b: Block) {
    l.headerSize <= b.length ==> l.headerSize <= |b.data|
  }

  /** offset + length is computed without 32-bit wrap-around. */
  predicate NoWrap(b: Block) {
    b.offset + b.length < WORD
  }

  function Cells(s: seq<byte>): (r: seq<Cell>)
    ensures |r| == |s|
    ensures forall i :: 0 <= i < |s| ==> r[i] == Byte(s[i])
  {
    seq(|s|, i requires 0 <= i < |s| => Byte(s[i]))
  }

  /** The length the header's counts call for, in uint32_t arithmetic. */
  function MaxLength(l: Layout, header: seq<byte>): uint32 {
    Wrap(l.headerSize + Wrap(Wrap(l.baseCount(header) + l.afterCount(header)) * l.pointSize))
  }

  /** The comparison at the head of checkAssemblyBuffer. */
  predicate InRange(b: Block) {
    Wrap(b.offset + b.length) <= b.totalLength
  }

  /** A later block continues the transfer the first one announced. */
  predicate Continues(st: State, b: Block) {
    b.totalLength == st.maxLength
  }

  predicate Accepts(l: Layout, st: State, b: Block)
    requires HoldsHeader(l, b)
  {
    && InRange(b)
    && if b.offset == 0 then
         b.length >= l.headerSize && b.totalLength == MaxLength(l, b.data[..l.headerSize])
       else Continues(st, b)
  }

  function Realloc(before: Option<seq<Cell>>, n: nat): (r: seq<Cell>)
    ensures |r| == n
    ensures forall i :: 0 <= i < n ==>
      r[i] == if before.Some? && i < |before.value| then before.value[i] else Undefined
  {
    var o := if before.Some? then before.value else [];
    if |o| >= n then o[..n] else o + Repeat(Undefined, n - |o|)
  }

  /** The state checkAssemblyBuffer leaves when it accepts the block. */
  function Prepare(st: State, b: Block): State {
    if b.offset == 0 then
      st.(buffer := Some(Realloc(st.buffer, b.totalLength)), maxLength := b.totalLength)
    else st
  }

  function Write(buf: seq<Cell>, b: Block): (r: seq<Cell>)
    requires WellFormed(b) && b.offset + b.length <= |buf|
    ensures |r| == |buf|
    ensures forall i :: 0 <= i < |buf| ==>
      r[i] == if b.offset <= i < b.offset + b.length then Byte(b.data[i - b.offset]) else buf[i]
  {
    buf[..b.offset] + Cells(b.data[..b.length]) + buf[b.offset + b.length..]
  }

  predicate Valid(l: Layout, st: State) {
    && (st.buffer.None? <==> st.maxLength == 0)
    && (st.buffer.Some? ==> |st.buffer.value| == st.maxLength && l.headerSize <= st.maxLength)
    && (st.buffer.Some? ==> forall i :: 0 <= i < l.headerSize ==> st.buffer.value[i].Byte?)
  }

  /** The copy reads inside the payload area and writes inside the buffer. */
  predicate CopyFits(st: State, b: Block) {
    b.length <= |b.data| && st.buffer.Some? && b.offset + b.length <= |st.buffer.value|
  }

  /** For an accepted block that is so exactly when offset + length does not wrap and
      length stays within the payload area: the check sees to neither. */
  lemma AcceptedCopyFits(l: Layout, st: State, b: Block)
    requires Valid(l, st) && InRange(b) && (b.offset == 0 || Continues(st, b))
    ensures CopyFits(Prepare(st, b), b) <==> NoWrap(b) && WellFormed(b)
  {
    WrappedSum(b.offset, b.length);
  }

  /** What the block does is defined: it is rejected, or its copy fits. */
  predicate Safe(l: Layout, st: State, b: Block) {
    HoldsHeader(l, b) && (Accepts(l, st, b) ==> NoWrap(b) && WellFormed(b))
  }

  lemma WrappedSum(a: uint32, b: uint32)
    ensures Wrap(a + b) == if a + b < WORD then a + b else a + b - WORD
  {
  }

  /** handleRawDataPushRequest: a rejected block changes nothing, an accepted one
      is copied, and the one that reaches totalLength completes the data set. */
  function Step(l: Layout, st: State, b: Block): (r: State)
    requires ValidLayout(l) && Valid(l, st) && Safe(l, st, b)
    ensures Valid(l, r)
  {
    if !Accepts(l, st, b) then st
    else
      AcceptedCopyFits(l, st, b);
      var p := Prepare(st, b);
      var buf := Write(p.buffer.value, b);
      if b.offset + b.length == b.totalLength then State(None, 0, p.inserted + [buf])
      else p.(buffer := Some(buf))
  }

  /** A block passes the check exactly when its end, in 32 bits, is within the length it
      announces, and that is the length the counts in its own header call for, also in 32
      bits, if it is a first block, or else the length announced before. */
  lemma PassesCheckIff(l: Layout, st: State, b: Block)
    requires HoldsHeader(l, b)
    ensures Accepts(l, st, b) <==>
      && (b.offset + b.length) % 0x1_0000_0000 <= b.totalLength
      && if b.offset > 0 then b.totalLength == st.maxLength
         else
           && l.headerSize <= b.length
           && var header := b.data[..l.headerSize];
           var points := (l.baseCount(header) + l.afterCount(header)) % 0x1_0000_0000;
           b.totalLength == (l.headerSize + points * l.pointSize) % 0x1_0000_0000
  {
    if b.offset == 0 && l.headerSize <= b.length {
      var header := b.data[..l.headerSize];
      WrapTwice(l.headerSize, Wrap(l.baseCount(header) + l.afterCount(header)) * l.pointSize);
    }
  }

  lemma WrapTwice(a: nat, b: nat)
    ensures Wrap(a + Wrap(b)) == Wrap(a + b)
  {
    var q := b / WORD;
    assert a + b == a + Wrap(b) + q * WORD;
    WrapShift(a + Wrap(b), q);
  }

  lemma {:induction false} WrapShift(n: nat, q: nat)
    ensures Wrap(n + q * WORD) == Wrap(n)
    decreases q
  {
    if q > 0 {
      WrapShift(n, q - 1);
      WrapOnce(n + (q - 1) * WORD);
      assert n + q * WORD == n + (q - 1) * WORD + WORD;
    }
  }

  lemma WrapOnce(n: nat)
    ensures Wrap(n + WORD) == Wrap(n)
  {
  }

  /** One that does not pass leaves the buffer, maxAssemblyLength and the inserted sets alone. */
  lemma RejectedChangesNothing(l: Layout, st: State, b: Block)
    requires ValidLayout(l) && Valid(l, st) && HoldsHeader(l, b) && !Accepts(l, st, b)
    ensures Safe(l, st, b)
    ensures var t := Step(l, st, b);
      t.buffer == st.buffer && t.maxLength == st.maxLength && t.inserted == st.inserted
  {
  }

  predicate Usable(bs: seq<Block>) {
    forall i :: 0 <= i < |bs| ==> WellFormed(bs[i]) && NoWrap(bs[i])
  }

  /** A connection's assembler after a sequence of raw data push requests. */
  function Feed(l: Layout, st: State, bs: seq<Block>): (r: State)
    requires ValidLayout(l) && Valid(l, st) && Usable(bs)
    ensures Valid(l, r)
    decreases |bs|
  {
    if |bs| == 0 then st
    else
      var n := |bs| - 1;
      Step(l, Feed(l, st, bs[..n]), bs[n])
  }

  /** The same for any blocks; None once a copy has left its memory. */
  function Process(l: Layout, st: State, bs: seq<Block>): (r: Option<State>)
    requires ValidLayout(l) && Valid(l, st)
    ensures r.Some? ==> Valid(l, r.value)
    decreases |bs|
  {
    if |bs| == 0 then Some(st)
    else
      var n := |bs| - 1;
      var p := Process(l, st, bs[..n]);
      if p.Some? && Safe(l, p.value, bs[n]) then Some(Step(l, p.value, bs[n])) else None
  }

  /** What a block adds to the inserted sets: nothing, or a set of the announced length
      whose header was written. */
  lemma StepInserts(l: Layout, st: State, b: Block)
    requires ValidLayout(l) && Valid(l, st) && Safe(l, st, b)
    ensures var t := Step(l, st, b);
      t.inserted == st.inserted ||
      (|t.inserted| > 0 && t.inserted == st.inserted + [t.inserted[|t.inserted|-1]] &&
       HasHeader(l, t.inserted[|t.inserted|-1]) && |t.inserted[|t.inserted|-1]| == b.totalLength)
  {
    if Accepts(l, st, b) { AcceptedCopyFits(l, st, b); }
  }

  /** The blocks without those that are rejected where they stand. */
  function Kept(l: Layout, st: State, bs: seq<Block>): seq<Block>
    requires ValidLayout(l) && Valid(l, st)
    decreases |bs|
  {
    if |bs| == 0 then []
    else
      var n := |bs| - 1;
      var p := Process(l, st, bs[..n]);
      if p.Some? && HoldsHeader(l, bs[n]) && !Accepts(l, p.value, bs[n]) then Kept(l, st, bs[..n])
      else Kept(l, st, bs[..n]) + [bs[n]]
  }

  /** They may be left out of any sequence. */
  lemma {:induction false} RejectedMakeNoDifference(l: Layout, st: State, bs: seq<Block>)
    requires ValidLayout(l) && Valid(l, st)
    ensures Process(l, st, Kept(l, st, bs)) == Process(l, st, bs)
    decreases |bs|
  {
    if bs != [] {
      var n := |bs| - 1;
      RejectedMakeNoDifference(l, st, bs[..n]);
      var p := Process(l, st, bs[..n]);
      if p.Some? && HoldsHeader(l, bs[n]) && !Accepts(l, p.value, bs[n]) {
        RejectedChangesNothing(l, p.value, bs[n]);
      } else {
        assert (Kept(l, st, bs[..n]) + [bs[n]])[..|Kept(l, st, bs[..n])|] == Kept(l, st, bs[..n]);
      }
    }
  }

  /** The blocks that announce this length. */
  function Announcing(size: nat, bs: seq<Block>): (r: seq<Block>)
    ensures forall b :: b in r ==> b in bs && b.totalLength == size
    decreases |bs|
  {
    if bs == [] then []
    else
      var n := |bs| - 1;
      Announcing(size, bs[..n]) + if bs[n].totalLength == size then [bs[n]] else []
  }

  /** The set being assembled, if there is one, has this length. */
  predicate Assembling(size: nat, st: State) {
    st.maxLength == 0 || st.maxLength == size
  }

  lemma StepAssembling(l: Layout, s: State, size: nat, b: Block)
    requires ValidLayout(l) && Valid(l, s) && Assembling(size, s) && WellFormed(b) && NoWrap(b)
    requires b.totalLength == size || b.offset > 0
    ensures Assembling(size, Step(l, s, b))
    ensures b.totalLength != size ==> Step(l, s, b) == s
  {
    if b.totalLength != size {
      assert !Accepts(l, s, b);
      RejectedChangesNothing(l, s, b);
    }
  }

  /** Later blocks that announce another length are among them. */
  lemma {:induction false} OthersMakeNoDifference(l: Layout, st: State, size: nat, bs: seq<Block>)
    requires ValidLayout(l) && Valid(l, st) && Usable(bs) && Assembling(size, st)
    requires forall i :: 0 <= i < |bs| && bs[i].totalLength != size ==> bs[i].offset > 0
    ensures Usable(Announcing(size, bs))
    ensures Feed(l, st, bs) == Feed(l, st, Announcing(size, bs)) && Assembling(size, Feed(l, st, bs))
    decreases |bs|
  {
    if bs != [] {
      var n := |bs| - 1;
      OthersMakeNoDifference(l, st, size, bs[..n]);
      StepAssembling(l, Feed(l, st, bs[..n]), size, bs[n]);
      if bs[n].totalLength == size {
        FeedSnoc(l, st, Announcing(size, bs[..n]), bs[n]);
      } else {
        assert Announcing(size, bs[..n]) + [] == Announcing(size, bs[..n]);
      }
    }
  }

  /** Blocks that differ only in what is behind their length. */
  predicate Alike(a: Block, b: Block) {
    && a.offset == b.offset && a.length == b.length && a.totalLength == b.totalLength
    && WellFormed(a) && WellFormed(b) && a.data[..a.length] == b.data[..b.length]
  }

  predicate AllAlike(bs: seq<Block>, cs: seq<Block>) {
    |bs| == |cs| && forall i :: 0 <= i < |bs| ==> Alike(bs[i], cs[i])
  }

  lemma StepAlike(l: Layout, st: State, a: Block, b: Block)
    requires ValidLayout(l) && Valid(l, st) && Alike(a, b)
    ensures Safe(l, st, a) <==> Safe(l, st, b)
    ensures Safe(l, st, a) ==> Step(l, st, a) == Step(l, st, b)
  {
    if l.headerSize <= a.length {
      assert a.data[..a.length][..l.headerSize] == a.data[..l.headerSize];
      assert b.data[..b.length][..l.headerSize] == b.data[..l.headerSize];
    }
    if Safe(l, st, a) && Accepts(l, st, a) {
      AcceptedCopyFits(l, st, a);
      assert Cells(a.data[..a.length]) == Cells(b.data[..b.length]);
    }
  }

  lemma {:induction false} ProcessAlike(l: Layout, st: State, bs: seq<Block>, cs: seq<Block>)
    requires ValidLayout(l) && Valid(l, st) && AllAlike(bs, cs)
    ensures Process(l, st, bs) == Process(l, st, cs)
    decreases |bs|
  {
    if bs != [] {
      var n := |bs| - 1;
      ProcessAlike(l, st, bs[..n], cs[..n]);
      if Process(l, st, bs[..n]).Some? {
        StepAlike(l, Process(l, st, bs[..n]).value, bs[n], cs[n]);
      }
    }
  }

  lemma {:induction false} ProcessIsFeed(l: Layout, st: State, bs: seq<Block>)
    requires ValidLayout(l) && Valid(l, st) && Usable(bs)
    ensures Process(l, st, bs) == Some(Feed(l, st, bs))
    decreases |bs|
  {
    if bs != [] { ProcessIsFeed(l, st, bs[..|bs|-1]); }
  }

  lemma FeedSnoc(l: Layout, st: State, bs: seq<Block>, b: Block)
    requires ValidLayout(l) && Valid(l, st) && Usable(bs) && WellFormed(b) && NoWrap(b)
    ensures Usable(bs + [b]) && Feed(l, st, bs + [b]) == Step(l, Feed(l, st, bs), b)
  {
    assert (bs + [b])[..|bs|] == bs;
  }

  lemma {:induction false} FeedConcat(l: Layout, st: State, a: seq<Block>, b: seq<Block>)
    requires ValidLayout(l) && Valid(l, st) && Usable(a) && Usable(b)
    ensures Usable(a + b)
    ensures Feed(l, st, a + b) == Feed(l, Feed(l, st, a), b)
    decreases |b|
  {
    if b == [] {
      assert a + b == a;
    } else {
      var c, last := b[..|b|-1], b[|b|-1];
      FeedConcat(l, st, a, c);
      FeedSnoc(l, st, a + c, last);
      FeedSnoc(l, Feed(l, st, a), c, last);
      assert a + c + [last] == a + b && c + [last] == b;
    }
  }

  // ---------------------------------------------------------------------------
  // A cut transfer whose blocks stutter

  /** The blocks are a payload cut into contiguous non-empty pieces, the first of
      which holds the header whose counts agree with the payload's length. */
  predicate Cut(l: Layout, payload: seq<byte>, bs: seq<Block>) {
    && |bs| > 0
    && |payload| < WORD
    && (forall i :: 0 <= i < |bs| ==> Piece(payload, bs[i]))
    && bs[0].offset == 0
    && (forall i :: 0 < i < |bs| ==> Follows(bs, i))
    && End(bs[|bs|-1]) == |payload|
    && l.headerSize <= bs[0].length
    && |payload| == MaxLength(l, payload[..l.headerSize])
  }

  function End(b: Block): nat {
    b.offset + b.length
  }

  predicate Follows(bs: seq<Block>, i: nat)
    requires 0 < i < |bs|
  {
    bs[i].offset == End(bs[i-1])
  }

  predicate Piece(payload: seq<byte>, b: Block) {
    && WellFormed(b) && 0 < b.length && b.totalLength == |payload|
    && End(b) <= |payload|
    && b.data[..b.length] == payload[b.offset..End(b)]
  }

  predicate Fits(size: nat, bs: seq<Block>) {
    forall i :: 0 <= i < |bs| ==> WellFormed(bs[i]) && End(bs[i]) <= size
  }

  /** The buffer after those of the first `n` blocks that have a positive count
      were written, in order. */
  function Overlay(buf: seq<Cell>, bs: seq<Block>, ks: seq<nat>, n: nat): (r: seq<Cell>)
    requires |bs| == |ks| && n <= |bs| && Fits(|buf|, bs)
    ensures |r| == |buf|
  {
    if n == 0 then buf
    else
      var r := Overlay(buf, bs, ks, n - 1);
      if ks[n-1] > 0 then Write(r, bs[n-1]) else r
  }

  lemma {:induction false} ExpandUsable(bs: seq<Block>, ks: seq<nat>, n: nat)
    requires |bs| == |ks| && n <= |bs| && Usable(bs)
    ensures Usable(Expand(bs, ks, n))
  {
    if n > 0 {
      ExpandUsable(bs, ks, n - 1);
    }
  }

  lemma {:induction false} OffsetsGrow(l: Layout, payload: seq<byte>, bs: seq<Block>, i: nat, j: nat)
    requires Cut(l, payload, bs) && i < j < |bs|
    ensures End(bs[i]) <= bs[j].offset < End(bs[j])
    decreases j
  {
    assert Follows(bs, j) && Piece(payload, bs[j]);
    if i < j - 1 {
      OffsetsGrow(l, payload, bs, i, j - 1);
    }
  }

  /** Only the first block starts at 0 and only the last one ends the payload. */
  lemma CutEnds(l: Layout, payload: seq<byte>, bs: seq<Block>, i: nat)
    requires Cut(l, payload, bs) && i < |bs|
    ensures bs[i].offset == 0 <==> i == 0
    ensures End(bs[i]) == |payload| <==> i == |bs| - 1
  {
    assert Piece(payload, bs[0]) && Piece(payload, bs[i]);
    if 0 < i { OffsetsGrow(l, payload, bs, 0, i); }
    if i < |bs| - 1 { OffsetsGrow(l, payload, bs, i, |bs| - 1); }
  }

  /** Repeats of a block that does not complete the set write it once. */
  lemma {:induction false} RepeatMiddle(l: Layout, st: State, b: Block, k: nat)
    requires ValidLayout(l) && Valid(l, st) && WellFormed(b) && st.buffer.Some?
    requires End(b) < b.totalLength == st.maxLength
    requires b.offset == 0 ==> Accepts(l, st, b)
    ensures Usable(Repeat(b, k))
    ensures Feed(l, st, Repeat(b, k)) ==
            if k == 0 then st else st.(buffer := Some(Write(st.buffer.value, b)))
  {
    if k > 0 {
      RepeatMiddle(l, st, b, k - 1);
      assert Repeat(b, k)[..k-1] == Repeat(b, k - 1);
      StepMiddle(l, st, b);
      WriteTwice(st.buffer.value, b);
      if k > 1 {
        var w := Write(st.buffer.value, b);
        StepMiddle(l, st.(buffer := Some(w)), b);
      }
    }
  }

  lemma StepMiddle(l: Layout, st: State, b: Block)
    requires ValidLayout(l) && Valid(l, st) && WellFormed(b) && st.buffer.Some?
    requires End(b) < b.totalLength == st.maxLength
    requires b.offset == 0 ==> Accepts(l, st, b)
    ensures Step(l, st, b) == st.(buffer := Some(Write(st.buffer.value, b)))
    ensures Valid(l, Step(l, st, b))
  {
    var buf := st.buffer.value;
    assert Realloc(Some(buf), |buf|) == buf;
  }

  lemma WriteTwice(buf: seq<Cell>, b: Block)
    requires WellFormed(b) && End(b) <= |buf|
    ensures Write(Write(buf, b), b) == Write(buf, b)
  {
  }

  /** The final block completes the set once: its repeats meet maxLength == 0. */
  lemma {:induction false} RepeatFinal(l: Layout, st: State, b: Block, k: nat)
    requires ValidLayout(l) && Valid(l, st) && WellFormed(b) && st.buffer.Some?
    requires 0 < b.offset && End(b) == b.totalLength == st.maxLength
    ensures Usable(Repeat(b, k))
    ensures Feed(l, st, Repeat(b, k)) ==
            if k == 0 then st else State(None, 0, st.inserted + [Write(st.buffer.value, b)])
  {
    if k > 0 {
      RepeatFinal(l, st, b, k - 1);
      assert Repeat(b, k)[..k-1] == Repeat(b, k - 1);
    }
  }

  lemma CutUsable(l: Layout, payload: seq<byte>, bs: seq<Block>, ks: seq<nat>)
    requires Cut(l, payload, bs) && |bs| == |ks|
    ensures Usable(bs) && Fits(|payload|, bs) && Usable(Expand(bs, ks, |bs|))
  {
    forall i | 0 <= i < |bs| ensures WellFormed(bs[i]) && NoWrap(bs[i]) {
      assert Piece(payload, bs[i]);
    }
    ExpandUsable(bs, ks, |bs|);
  }

  /** The first `n` blocks of a longer cut, the first at least once, leave the
      overlay of their data on the reallocated buffer. */
  lemma {:induction false} FeedPrefix(l: Layout, st: State, payload: seq<byte>, bs: seq<Block>, ks: seq<nat>, n: nat)
    requires ValidLayout(l) && Valid(l, st) && Cut(l, payload, bs) && |bs| == |ks|
    requires 0 < n < |bs| && ks[0] > 0
    ensures Usable(Expand(bs, ks, n)) && Fits(|payload|, bs)
    ensures Feed(l, st, Expand(bs, ks, n)) ==
            State(Some(Overlay(Realloc(st.buffer, |payload|), bs, ks, n)), |payload|, st.inserted)
    decreases n
  {
    CutUsable(l, payload, bs, ks);
    ExpandUsable(bs, ks, n);
    if n == 1 {
      FirstBlock(l, st, payload, bs, ks[0]);
      assert Expand(bs, ks, 0) + Repeat(bs[0], ks[0]) == Repeat(bs[0], ks[0]);
    } else {
      FeedPrefix(l, st, payload, bs, ks, n - 1);
      MiddleBlock(l, payload, bs, n - 1);
      var s1 := Feed(l, st, Expand(bs, ks, n - 1));
      RepeatMiddle(l, s1, bs[n-1], ks[n-1]);
      FeedConcat(l, st, Expand(bs, ks, n - 1), Repeat(bs[n-1], ks[n-1]));
    }
  }

  lemma MiddleBlock(l: Layout, payload: seq<byte>, bs: seq<Block>, i: nat)
    requires Cut(l, payload, bs) && 0 < i < |bs| - 1
    ensures WellFormed(bs[i]) && 0 < bs[i].offset && End(bs[i]) < bs[i].totalLength == |payload|
  {
    assert Piece(payload, bs[i]);
    CutEnds(l, payload, bs, i);
  }

  lemma FirstBlock(l: Layout, st: State, payload: seq<byte>, bs: seq<Block>, k: nat)
    requires ValidLayout(l) && Valid(l, st) && Cut(l, payload, bs) && |bs| > 1 && k > 0
    ensures Usable(Repeat(bs[0], k))
    ensures Piece(payload, bs[0])
    ensures Feed(l, st, Repeat(bs[0], k)) ==
            State(Some(Write(Realloc(st.buffer, |payload|), bs[0])), |payload|, st.inserted)
  {
    var b := bs[0];
    assert Piece(payload, b);
    CutEnds(l, payload, bs, 0);
    HeaderInFirst(l, payload, b);
    var s1 := Step(l, st, b);
    assert Feed(l, st, [b]) == s1 by {
      assert [b][..0] == [];
    }
    RepeatMiddle(l, s1, b, k - 1);
    FeedConcat(l, st, [b], Repeat(b, k - 1));
    assert [b] + Repeat(b, k - 1) == Repeat(b, k);
    WriteTwice(Realloc(st.buffer, |payload|), b);
  }

  lemma HeaderInFirst(l: Layout, payload: seq<byte>, b: Block)
    requires Piece(payload, b) && b.offset == 0 && l.headerSize <= b.length
    ensures b.data[..l.headerSize] == payload[..l.headerSize]
  {
    assert b.data[..b.length][..l.headerSize] == b.data[..l.headerSize];
  }

  /** Two or more blocks, each stuttering: if the first and the last arrive, the
      set completes exactly once, whatever the assembler held before. */
  lemma CompletesOnce(l: Layout, st: State, payload: seq<byte>, bs: seq<Block>, ks: seq<nat>)
    requires ValidLayout(l) && Valid(l, st) && Cut(l, payload, bs) && |bs| == |ks|
    requires |bs| > 1 && ks[0] > 0 && ks[|ks|-1] > 0
    ensures Usable(Expand(bs, ks, |bs|)) && Fits(|payload|, bs)
    ensures Feed(l, st, Expand(bs, ks, |bs|)) ==
            State(None, 0, st.inserted + [Overlay(Realloc(st.buffer, |payload|), bs, ks, |bs|)])
  {
    var n := |bs| - 1;
    CutUsable(l, payload, bs, ks);
    FeedPrefix(l, st, payload, bs, ks, n);
    assert Piece(payload, bs[n]);
    CutEnds(l, payload, bs, n);
    var s1 := Feed(l, st, Expand(bs, ks, n));
    RepeatFinal(l, s1, bs[n], ks[n]);
    FeedConcat(l, st, Expand(bs, ks, n), Repeat(bs[n], ks[n]));
  }

  /** A block that was written shows the payload; one that was not leaves what
      was there. */
  lemma {:induction false} OverlayAt(l: Layout, payload: seq<byte>, bs: seq<Block>, ks: seq<nat>,
                                     buf: seq<Cell>, n: nat, i: nat, at: nat)
    requires Cut(l, payload, bs) && |bs| == |ks| && |buf| == |payload|
    requires i < n <= |bs| && bs[i].offset <= at < End(bs[i])
    ensures at < |payload| && Fits(|payload|, bs)
    ensures Overlay(buf, bs, ks, n)[at] == if ks[i] > 0 then Byte(payload[at]) else buf[at]
    decreases n
  {
    CutUsable(l, payload, bs, ks);
    if i < n - 1 {
      OffsetsGrow(l, payload, bs, i, n - 1);
      OverlayAt(l, payload, bs, ks, buf, n - 1, i, at);
    } else {
      OverlayBefore(l, payload, bs, ks, buf, i, at);
      PieceAt(payload, bs[i], at);
    }
  }

  lemma PieceAt(payload: seq<byte>, b: Block, at: nat)
    requires Piece(payload, b) && b.offset <= at < End(b)
    ensures b.data[at - b.offset] == payload[at]
  {
    assert b.data[..b.length][at - b.offset] == payload[b.offset..End(b)][at - b.offset];
  }

  lemma {:induction false} OverlayBefore(l: Layout, payload: seq<byte>, bs: seq<Block>, ks: seq<nat>,
                                         buf: seq<Cell>, n: nat, at: nat)
    requires Cut(l, payload, bs) && |bs| == |ks| && |buf| == |payload|
    requires n < |bs| && bs[n].offset <= at < |payload|
    ensures Fits(|payload|, bs)
    ensures Overlay(buf, bs, ks, n)[at] == buf[at]
    decreases n
  {
    CutUsable(l, payload, bs, ks);
    if n > 0 {
      OffsetsGrow(l, payload, bs, n - 1, n);
      OverlayBefore(l, payload, bs, ks, buf, n - 1, at);
    }
  }

  lemma {:induction false} BlockAt(l: Layout, payload: seq<byte>, bs: seq<Block>, n: nat, at: nat) returns (i: nat)
    requires Cut(l, payload, bs) && 0 < n <= |bs|
    requires at < End(bs[n-1])
    ensures i < n && bs[i].offset <= at < End(bs[i])
    decreases n
  {
    if bs[n-1].offset <= at {
      i := n - 1;
    } else {
      assert Follows(bs, n - 1);
      i := BlockAt(l, payload, bs, n - 1, at);
    }
  }

  predicate NoneMissing(ks: seq<nat>) {
    forall i :: 0 <= i < |ks| ==> ks[i] > 0
  }

  /** A stuttering link with no missing block: one insert, of the original bytes,
      from any earlier state of the connection. */
  lemma StutterAssembles(l: Layout, st: State, payload: seq<byte>, bs: seq<Block>, ks: seq<nat>)
    requires ValidLayout(l) && Valid(l, st) && Cut(l, payload, bs) && |bs| == |ks| && |bs| > 1
    requires NoneMissing(ks)
    ensures Usable(Expand(bs, ks, |bs|))
    ensures Feed(l, st, Expand(bs, ks, |bs|)) == State(None, 0, st.inserted + [Cells(payload)])
  {
    CompletesOnce(l, st, payload, bs, ks);
    OverlayIsPayload(l, payload, bs, ks, Realloc(st.buffer, |payload|));
  }

  lemma OverlayIsPayload(l: Layout, payload: seq<byte>, bs: seq<Block>, ks: seq<nat>, buf: seq<Cell>)
    requires Cut(l, payload, bs) && |bs| == |ks| && |buf| == |payload| && Fits(|payload|, bs)
    requires NoneMissing(ks)
    ensures Overlay(buf, bs, ks, |bs|) == Cells(payload)
  {
    var r := Overlay(buf, bs, ks, |bs|);
    forall at | 0 <= at < |payload| ensures r[at] == Byte(payload[at]) {
      OverlayShows(l, payload, bs, ks, buf, at);
    }
  }

  lemma OverlayShows(l: Layout, payload: seq<byte>, bs: seq<Block>, ks: seq<nat>, buf: seq<Cell>, at: nat)
    requires Cut(l, payload, bs) && |bs| == |ks| && |buf| == |payload| && Fits(|payload|, bs)
    requires NoneMissing(ks) && at < |payload|
    ensures Overlay(buf, bs, ks, |bs|)[at] == Byte(payload[at])
  {
    var i := BlockAt(l, payload, bs, |bs|, at);
    OverlayAt(l, payload, bs, ks, buf, |bs|, i, at);
  }

  /** A stuttering cut among other blocks, none of them a first one, still gives the one insert. */
  lemma CutAmongOthers(l: Layout, st: State, payload: seq<byte>, blocks: seq<Block>, ks: seq<nat>, bs: seq<Block>)
    requires ValidLayout(l) && Valid(l, st) && Assembling(|payload|, st) && Usable(bs)
    requires Cut(l, payload, blocks) && |blocks| == |ks| && |blocks| > 1 && NoneMissing(ks)
    requires forall i :: 0 <= i < |bs| && bs[i].totalLength != |payload| ==> bs[i].offset > 0
    requires Announcing(|payload|, bs) == Expand(blocks, ks, |blocks|)
    ensures Feed(l, st, bs) == State(None, 0, st.inserted + [Cells(payload)])
  {
    OthersMakeNoDifference(l, st, |payload|, bs);
    StutterAssembles(l, st, payload, blocks, ks);
  }

  const EMPTY: State := State(None, 0, [])

  /** On a new connection, with first and last block delivered: what is inserted
      is the payload if and only if no block in between is missing. The assembler
      itself does not notice a gap. */
  lemma InsertsPayloadIff(l: Layout, payload: seq<byte>, bs: seq<Block>, ks: seq<nat>)
    requires ValidLayout(l) && Cut(l, payload, bs) && |bs| == |ks|
    requires |bs| > 1 && ks[0] > 0 && ks[|ks|-1] > 0
    ensures Usable(Expand(bs, ks, |bs|))
    ensures Feed(l, EMPTY, Expand(bs, ks, |bs|)).inserted == [Cells(payload)] <==> NoneMissing(ks)
  {
    if NoneMissing(ks) {
      StutterAssembles(l, EMPTY, payload, bs, ks);
    } else {
      var i :| 0 <= i < |ks| && ks[i] == 0;
      MissingBlockShows(l, payload, bs, ks, i);
    }
  }

  lemma MissingBlockShows(l: Layout, payload: seq<byte>, bs: seq<Block>, ks: seq<nat>, i: nat)
    requires ValidLayout(l) && Cut(l, payload, bs) && |bs| == |ks|
    requires |bs| > 1 && ks[0] > 0 && ks[|ks|-1] > 0 && i < |ks| && ks[i] == 0
    ensures Usable(Expand(bs, ks, |bs|))
    ensures Feed(l, EMPTY, Expand(bs, ks, |bs|)).inserted != [Cells(payload)]
  {
    var buf := Realloc(None, |payload|);
    var at := bs[i].offset;
    assert Piece(payload, bs[i]);
    OverlayAt(l, payload, bs, ks, buf, |bs|, i, at);
    var r := Overlay(buf, bs, ks, |bs|);
    assert r[at] == Undefined && Cells(payload)[at] == Byte(payload[at]);
    CompletesOnce(l, EMPTY, payload, bs, ks);
    assert [r][0] != [Cells(payload)][0];
  }

  /** A payload that fits one block completes once per copy received: here the
      missing sequence numbers do show. */
  lemma {:induction false} SingleBlockRepeats(l: Layout, st: State, payload: seq<byte>, b: Block, k: nat)
    requires ValidLayout(l) && Valid(l, st) && Cut(l, payload, [b]) && k > 0
    ensures Usable(Repeat(b, k))
    ensures Feed(l, st, Repeat(b, k)) == State(None, 0, st.inserted + Repeat(Cells(payload), k))
  {
    assert Piece(payload, [b][0]);
    assert Repeat(b, k)[..k-1] == Repeat(b, k - 1);
    if k == 1 {
      SingleBlock(l, st, payload, b);
      assert Repeat(Cells(payload), 1) == [Cells(payload)];
    } else {
      SingleBlockRepeats(l, st, payload, b, k - 1);
      SingleBlock(l, Feed(l, st, Repeat(b, k - 1)), payload, b);
      assert Repeat(Cells(payload), k) == Repeat(Cells(payload), k - 1) + [Cells(payload)];
    }
  }

  lemma SingleBlock(l: Layout, st: State, payload: seq<byte>, b: Block)
    requires ValidLayout(l) && Valid(l, st) && Cut(l, payload, [b])
    ensures WellFormed(b) && NoWrap(b)
    ensures Step(l, st, b) == State(None, 0, st.inserted + [Cells(payload)])
  {
    assert Piece(payload, [b][0]);
    HeaderInFirst(l, payload, b);
    forall at | 0 <= at < |payload| ensures b.data[at] == payload[at] {
      PieceAt(payload, b, at);
    }
    assert Write(Realloc(st.buffer, |payload|), b) == Cells(payload);
  }

  // ---------------------------------------------------------------------------
  // The header's counts and the insert loops of mysqlConnectionPool.cpp

  function Raw(s: seq<Cell>): (r: seq<byte>)
    requires forall i :: 0 <= i < |s| ==> s[i].Byte?
    ensures |r| == |s|
    ensures forall i :: 0 <= i < |s| ==> r[i] == s[i].value
  {
    seq(|s|, i requires 0 <= i < |s| => s[i].value)
  }

  /** The set has a header whose bytes were all written. */
  predicate HasHeader(l: Layout, d: seq<Cell>) {
    l.headerSize <= |d| && forall i :: 0 <= i < l.headerSize ==> d[i].Byte?
  }

  function Header(l: Layout, d: seq<Cell>): (h: seq<byte>)
    requires HasHeader(l, d)
    ensures |h| == l.headerSize
  {
    Raw(d[..l.headerSize])
  }

  /** The header in memory still calls for the length that was allocated. */
  predicate CountsAgree(l: Layout, d: seq<Cell>) {
    HasHeader(l, d) && |d| == MaxLength(l, Header(l, d))
  }

  predicate AllCountsAgree(l: Layout, st: State) {
    && (st.buffer.Some? ==> CountsAgree(l, st.buffer.value))
    && (forall d :: d in st.inserted ==> CountsAgree(l, d))
  }

  /** The header once the block is written over it. */
  function Overlaid(header: seq<byte>, b: Block): (r: seq<byte>)
    requires WellFormed(b)
    ensures |r| == |header|
    ensures forall i :: 0 <= i < |r| ==>
      r[i] == if b.offset <= i < End(b) then b.data[i - b.offset] else header[i]
  {
    seq(|header|, i requires 0 <= i < |header| => if b.offset <= i < End(b) then b.data[i - b.offset] else header[i])
  }

  lemma OverlaidHeader(l: Layout, buf: seq<Cell>, b: Block)
    requires HasHeader(l, buf) && WellFormed(b) && End(b) <= |buf|
    ensures HasHeader(l, Write(buf, b))
    ensures Header(l, Write(buf, b)) == Overlaid(Header(l, buf), b)
  {
  }

  /** A later block that is accepted leaves counts that call for the same length. It does
      when it begins behind the header, but the check does not ask for that. */
  predicate KeepsCounts(l: Layout, st: State, b: Block) {
    b.offset > 0 && st.buffer.Some? && HasHeader(l, st.buffer.value) && WellFormed(b) && Accepts(l, st, b) ==>
      MaxLength(l, Overlaid(Header(l, st.buffer.value), b)) == st.maxLength
  }

  lemma SparedHeaderKeepsCounts(l: Layout, st: State, b: Block)
    requires AllCountsAgree(l, st) && Valid(l, st) && l.headerSize <= b.offset
    ensures KeepsCounts(l, st, b)
  {
    if st.buffer.Some? && WellFormed(b) {
      assert Overlaid(Header(l, st.buffer.value), b) == Header(l, st.buffer.value);
    }
  }

  /** After one block, the counts in memory and in all inserted sets still agree with
      the lengths exactly when the block keeps them. */
  lemma StepKeepsCountsIff(l: Layout, st: State, b: Block)
    requires ValidLayout(l) && Valid(l, st) && AllCountsAgree(l, st) && Safe(l, st, b)
    ensures AllCountsAgree(l, Step(l, st, b)) <==> KeepsCounts(l, st, b)
  {
    if Accepts(l, st, b) {
      AcceptedCopyFits(l, st, b);
      var p := Prepare(st, b).buffer.value;
      var buf := Write(p, b);
      if b.offset == 0 {
        assert buf[..l.headerSize] == Cells(b.data[..l.headerSize]);
        assert Header(l, buf) == b.data[..l.headerSize];
      } else {
        OverlaidHeader(l, p, b);
      }
      assert CountsAgree(l, buf) <==> KeepsCounts(l, st, b);
      assert forall d :: d in st.inserted + [buf] <==> d in st.inserted || d == buf;
    }
  }

  /** In all states of a run of blocks, the counts agree. */
  ghost predicate CountsThroughout(l: Layout, bs: seq<Block>)
    requires ValidLayout(l) && Usable(bs)
  {
    forall n :: 0 <= n <= |bs| ==> AllCountsAgree(l, Feed(l, EMPTY, bs[..n]))
  }

  predicate AllKeepCounts(l: Layout, bs: seq<Block>)
    requires ValidLayout(l) && Usable(bs)
  {
    forall n :: 0 <= n < |bs| ==> KeepsCounts(l, Feed(l, EMPTY, bs[..n]), bs[n])
  }

  /** The counts checked on the first block are the ones in memory later, up to the
      insert, exactly when each accepted block on the way keeps them. */
  lemma CountsSurviveIff(l: Layout, bs: seq<Block>)
    requires ValidLayout(l) && Usable(bs)
    ensures CountsThroughout(l, bs) <==> AllKeepCounts(l, bs)
  {
    if AllKeepCounts(l, bs) {
      forall n | 0 <= n <= |bs| ensures AllCountsAgree(l, Feed(l, EMPTY, bs[..n])) {
        CountsSurviveUpTo(l, bs, n);
      }
    } else {
      var n :| 0 <= n < |bs| && !KeepsCounts(l, Feed(l, EMPTY, bs[..n]), bs[n]);
      if AllCountsAgree(l, Feed(l, EMPTY, bs[..n])) {
        StepKeepsCountsIff(l, Feed(l, EMPTY, bs[..n]), bs[n]);
        FeedNext(l, bs, n);
      }
    }
  }

  lemma FeedNext(l: Layout, bs: seq<Block>, n: nat)
    requires ValidLayout(l) && Usable(bs) && n < |bs|
    ensures Feed(l, EMPTY, bs[..n+1]) == Step(l, Feed(l, EMPTY, bs[..n]), bs[n])
  {
    assert bs[..n+1][..n] == bs[..n];
  }

  lemma {:induction false} CountsSurviveUpTo(l: Layout, bs: seq<Block>, n: nat)
    requires ValidLayout(l) && Usable(bs) && AllKeepCounts(l, bs) && n <= |bs|
    ensures AllCountsAgree(l, Feed(l, EMPTY, bs[..n]))
    decreases n
  {
    if n > 0 {
      CountsSurviveUpTo(l, bs, n - 1);
      FeedNext(l, bs, n - 1);
      StepKeepsCountsIff(l, Feed(l, EMPTY, bs[..n-1]), bs[n-1]);
    }
  }

  /** One row of the raw data table: sweep id, position in the sweep, and the
      index into MqsRawDataSet_t::data it was read from. */
  datatype Row = Row(sweep: nat, position: uint32, point: uint32)

  function SweepRows(count: uint32, sweep: nat, dataOffset: uint32): (r: seq<Row>)
    ensures |r| == count
    ensures forall i :: 0 <= i < count ==> r[i] == Row(sweep, i, Wrap(dataOffset + i))
  {
    seq(count, i requires 0 <= i < count => Row(sweep, i, Wrap(dataOffset + i)))
  }

  method InsertRawDatapoints(dataCount: uint32, sweep: nat, dataOffset: uint32) returns (rows: seq<Row>)
    ensures rows == SweepRows(dataCount, sweep, dataOffset)
  {
    rows := [];
    var i: nat := 0;
    while i < dataCount
      invariant i <= dataCount && |rows| == i
      invariant forall j :: 0 <= j < i ==> rows[j] == Row(sweep, j, Wrap(dataOffset + j))
    {
      rows := rows + [Row(sweep, i, Wrap(dataOffset + i))];
      i := i + 1;
    }
  }

  /** How many data points the header calls for. */
  function Points(l: Layout, d: seq<Cell>): nat
    requires HasHeader(l, d)
  {
    l.baseCount(Header(l, d)) + l.afterCount(Header(l, d))
  }

  function DataSetRows(l: Layout, d: seq<Cell>, baseId: nat, afterId: nat): (rows: seq<Row>)
    requires HasHeader(l, d)
    ensures |rows| == Points(l, d)
    ensures forall i :: 0 <= i < |rows| ==> rows[i].point == Wrap(i)
    ensures var base := l.baseCount(Header(l, d));
      forall i :: 0 <= i < |rows| ==>
        rows[i].sweep == (if i < base then baseId else afterId) && rows[i].position == if i < base then i else i - base
  {
    var base := l.baseCount(Header(l, d));
    SweepRows(base, baseId, 0) + SweepRows(l.afterCount(Header(l, d)), afterId, base)
  }

  method MysqlInsertRawDataSet(l: Layout, d: seq<Cell>, baseId: nat, afterId: nat) returns (rows: seq<Row>)
    requires HasHeader(l, d)
    ensures rows == DataSetRows(l, d, baseId, afterId)
  {
    var header := Raw(d[..l.headerSize]);
    var base := InsertRawDatapoints(l.baseCount(header), baseId, 0);
    var after := InsertRawDatapoints(l.afterCount(header), afterId, l.baseCount(header));
    rows := base + after;
  }

  /** The data point with this index lies inside the set. */
  predicate PointInside(l: Layout, d: seq<Cell>, point: nat) {
    l.headerSize + (point + 1) * l.pointSize <= |d|
  }

  predicate ReadsInside(l: Layout, d: seq<Cell>, rows: seq<Row>) {
    forall i :: 0 <= i < |rows| ==> PointInside(l, d, rows[i].point)
  }

  /** Row i reads data point i, and the last data point ends where the buffer
      ends. */
  predicate SweepsWholeSet(l: Layout, d: seq<Cell>, rows: seq<Row>) {
    && (forall i :: 0 <= i < |rows| ==> rows[i].point == i)
    && l.headerSize + |rows| * l.pointSize == |d|
  }

  /** Whatever the counts in memory say when the set is inserted: every row reads a point
      of the set exactly when the points called for, counted without wrapping, fit. */
  lemma ReadsInsideIff(l: Layout, d: seq<Cell>, baseId: nat, afterId: nat)
    requires ValidLayout(l) && HasHeader(l, d) && |d| < WORD
    ensures ReadsInside(l, d, DataSetRows(l, d, baseId, afterId)) <==>
            l.headerSize + Points(l, d) * l.pointSize <= |d|
  {
    var rows, n := DataSetRows(l, d, baseId, afterId), Points(l, d);
    if l.headerSize + n * l.pointSize <= |d| {
      forall i | 0 <= i < n ensures PointInside(l, d, Wrap(i)) {
        PointFits(l.headerSize, n, l.pointSize, |d|, i);
      }
    } else {
      var last := LastPoint(l.headerSize, n, l.pointSize, |d|);
      assert rows[last].point == last;
    }
  }

  /** And the loops visit the whole set exactly when these points fill it. */
  lemma WholeSetIff(l: Layout, d: seq<Cell>, baseId: nat, afterId: nat)
    requires ValidLayout(l) && HasHeader(l, d) && |d| < WORD
    ensures SweepsWholeSet(l, d, DataSetRows(l, d, baseId, afterId)) <==>
            l.headerSize + Points(l, d) * l.pointSize == |d|
  {
    var n := Points(l, d);
    if l.headerSize + n * l.pointSize == |d| {
      forall i | 0 <= i < n ensures Wrap(i) == i {
        PointFits(l.headerSize, n, l.pointSize, |d|, i);
      }
    }
  }

  lemma PointFits(header: nat, n: nat, point: nat, size: nat, i: nat)
    requires 0 < point && header + n * point <= size < WORD && i < n
    ensures Wrap(i) == i && header + (i + 1) * point <= size
  {
    Product(n, point);
    WrapSmall(i);
    Times(i + 1, n, point);
  }

  /** A point that is called for and does not fit. */
  lemma LastPoint(header: nat, n: nat, point: nat, size: nat) returns (last: nat)
    requires 0 < point && header <= size < WORD && size < header + n * point
    ensures last < n && Wrap(last) == last && size < header + (last + 1) * point
  {
    assert n > 0;
    last := if n <= WORD then n - 1 else WORD - 1;
    WrapSmall(last);
    Product(last + 1, point);
  }

  lemma Times(a: nat, b: nat, c: nat)
    requires a <= b
    ensures a * c <= b * c
  {
  }

  /** The two insert loops visit every data point of the set once and in order,
      and nothing else, exactly when the length the counts call for fits 32 bits. */
  lemma SweepIff(l: Layout, d: seq<Cell>, baseId: nat, afterId: nat)
    requires ValidLayout(l) && CountsAgree(l, d)
    ensures SweepsWholeSet(l, d, DataSetRows(l, d, baseId, afterId)) <==>
            l.headerSize + Points(l, d) * l.pointSize < WORD
  {
    var n := Points(l, d);
    if l.headerSize + n * l.pointSize < WORD {
      CountsDoNotWrap(l.headerSize, n, l.pointSize);
      forall i | 0 <= i < n ensures Wrap(i) == i { WrapSmall(i); }
    }
  }

  // ---------------------------------------------------------------------------
  // Blocks that the check lets through

  /** A header of two bytes, one per count, and points of one byte. */
  const TINY: Layout := Layout(2, 1, (h: seq<byte>) => if |h| < 2 then 0 else h[0],
                                     (h: seq<byte>) => if |h| < 2 then 0 else h[1])

  /** What a first block announcing one base and one after-exposure point leaves. */
  function Announced(): State {
    State(Some([Byte(1), Byte(1), Undefined, Undefined]), 4, [])
  }

  lemma Announces()
    ensures Safe(TINY, EMPTY, Block(0, 2, 4, [1, 1]))
    ensures Step(TINY, EMPTY, Block(0, 2, 4, [1, 1])) == Announced()
  {
    var b := Block(0, 2, 4, [1, 1]);
    assert b.data[..2] == [1, 1];
    assert Realloc(None, 4) == [Undefined, Undefined, Undefined, Undefined];
    assert Write(Realloc(None, 4), b) == [Byte(1), Byte(1), Undefined, Undefined];
  }

  /** offset + length wraps to 1: accepted, and copied far behind the buffer. */
  lemma WrappingBlockAccepted()
    ensures var b := Block(0xFFFF_FFFF, 2, 4, [0, 0]);
      Valid(TINY, Announced()) && Accepts(TINY, Announced(), b) && !CopyFits(Prepare(Announced(), b), b)
  {
  }

  /** A length larger than the payload area: accepted, and read from behind it. */
  lemma OverlongBlockAccepted()
    ensures var b := Block(1, 3, 4, [0, 0]);
      Accepts(TINY, Announced(), b) && !CopyFits(Prepare(Announced(), b), b)
  {
  }

  lemma OverlapStep()
    ensures var b := Block(1, 3, 4, [200, 0, 0]);
      && Valid(TINY, Announced()) && Safe(TINY, Announced(), b)
      && Step(TINY, Announced(), b) == State(None, 0, [Cells([1, 200, 0, 0])])
  {
    var b := Block(1, 3, 4, [200, 0, 0]);
    var d := Cells([1, 200, 0, 0]);
    assert Accepts(TINY, Announced(), b);
    assert Write(Announced().buffer.value, b) == d;
  }

  /** The second block overwrites a count: the set that is inserted calls for 201
      points but holds two. */
  lemma OverlapBreaksCounts()
    ensures var bs := [Block(0, 2, 4, [1, 1]), Block(1, 3, 4, [200, 0, 0])];
      var d := Cells([1, 200, 0, 0]);
      && Usable(bs) && Feed(TINY, EMPTY, bs) == State(None, 0, [d])
      && HasHeader(TINY, d) && Points(TINY, d) == 201 && !CountsAgree(TINY, d)
  {
    var b1, b2 := Block(0, 2, 4, [1, 1]), Block(1, 3, 4, [200, 0, 0]);
    Announces();
    OverlapStep();
    FeedTwo(TINY, b1, b2);
    assert Header(TINY, Cells([1, 200, 0, 0])) == [1, 200];
  }

  /** The insert loops read outside that set. */
  lemma OverlapReadsOutside(baseId: nat, afterId: nat)
    ensures var d := Cells([1, 200, 0, 0]);
      HasHeader(TINY, d) && !ReadsInside(TINY, d, DataSetRows(TINY, d, baseId, afterId))
  {
    OverlapBreaksCounts();
    ReadsInsideIff(TINY, Cells([1, 200, 0, 0]), baseId, afterId);
  }

  lemma FeedTwo(l: Layout, b1: Block, b2: Block)
    requires ValidLayout(l) && WellFormed(b1) && NoWrap(b1) && WellFormed(b2) && NoWrap(b2)
    ensures Usable([b1, b2]) && Feed(l, EMPTY, [b1, b2]) == Step(l, Step(l, EMPTY, b1), b2)
  {
    FeedSnoc(l, EMPTY, [], b1);
    FeedSnoc(l, EMPTY, [b1], b2);
    assert [] + [b1] == [b1] && [b1] + [b2] == [b1, b2];
  }

  /** Points of two bytes, and a header of two bytes calling for 2^31 of them. */
  const HUGE: Layout := Layout(2, 2, (h: seq<byte>) => 0x8000_0000, (h: seq<byte>) => 0)

  /** Counts that wrap to a length of zero points are accepted and inserted. */
  lemma WrappingCountsAccepted(baseId: nat, afterId: nat)
    ensures var b := Block(0, 2, 2, [0, 0]);
      && Safe(HUGE, EMPTY, b)
      && var d := Cells([0, 0]);
      && Step(HUGE, EMPTY, b) == State(None, 0, [d]) && CountsAgree(HUGE, d)
      && !SweepsWholeSet(HUGE, d, DataSetRows(HUGE, d, baseId, afterId))
      && !ReadsInside(HUGE, d, DataSetRows(HUGE, d, baseId, afterId))
  {
    var b := Block(0, 2, 2, [0, 0]);
    var d := Cells([0, 0]);
    assert b.data[..2] == [0, 0];
    assert MaxLength(HUGE, [0, 0]) == 2;
    assert Write(Realloc(None, 2), b) == d;
    assert Header(HUGE, d) == [0, 0];
    SweepIff(HUGE, d, baseId, afterId);
    ReadsInsideIff(HUGE, d, baseId, afterId);
  }

  lemma CountsDoNotWrap(header: nat, count: nat, point: nat)
    requires 0 < point && header + count * point < WORD
    ensures count < WORD
    ensures Wrap(header + Wrap(Wrap(count) * point)) == header + count * point
  {
    Product(count, point);
    WrapSmall(count);
    WrapSmall(count * point);
    WrapSmall(header + count * point);
  }

  lemma Product(a: nat, b: nat)
    requires 0 < b
    ensures a <= a * b
  {
    assert a * b == a + a * (b - 1);
  }

  lemma WrapSmall(n: nat)
    requires n < WORD
    ensures Wrap(n) == n
  {
  }

  // ---------------------------------------------------------------------------
  // The buffer in place

  /** What became of a block. */
  datatype Outcome = Rejected | Stored | Completed | OutOfBounds

  /** The two variables a connection handler passes by reference, and what was
      inserted from them. */
  class AssemblyBuffer {
    const layout: Layout
    var buffer: array?<Cell>
    var maxAssemblyLength: uint32
    var inserted: seq<seq<Cell>>

    ghost function Now(): State
      reads this, buffer
    {
      State(if buffer == null then None else Some(buffer[..]), maxAssemblyLength, inserted)
    }

    ghost predicate Inv()
      reads this, buffer
    {
      ValidLayout(layout) && Valid(layout, Now())
    }

    constructor (l: Layout)
      requires ValidLayout(l)
      ensures Inv() && Now() == EMPTY && layout == l && buffer == null
    {
      layout := l;
      buffer := null;
      maxAssemblyLength := 0;
      inserted := [];
    }

    method CheckAssemblyBuffer(b: Block) returns (ok: bool)
      requires Inv() && HoldsHeader(layout, b)
      modifies this
      ensures ok == Accepts(layout, old(Now()), b)
      ensures Now() == if ok then Prepare(old(Now()), b) else old(Now())
      ensures !ok ==> buffer == old(buffer)
      ensures buffer == old(buffer) || fresh(buffer)
    {
      ok := false;
      if Wrap(b.offset + b.length) <= b.totalLength {
        if b.offset == 0 {
          if b.length >= layout.headerSize {
            var header := b.data[..layout.headerSize];
            var maxLength := MaxLength(layout, header);
            if b.totalLength == maxLength {
              ok := true;
              ReallocBuffer(maxLength);
              maxAssemblyLength := maxLength;
            }
          }
        } else if b.totalLength == maxAssemblyLength {
          ok := true;
        }
      }
    }

    /** realloc: a block of `n` bytes that keeps the old contents up to `n`. */
    method ReallocBuffer(n: nat)
      modifies this`buffer
      ensures fresh(buffer) && buffer != null
      ensures buffer[..] == Realloc(old(Now().buffer), n)
    {
      var before := if buffer == null then [] else buffer[..];
      ghost var want := Realloc(Now().buffer, n);
      var r := new Cell[n](i => if 0 <= i < |before| then before[i] else Undefined);
      assert r[..] == want;
      buffer := r;
    }

    /** Stops where the copy would leave its memory. */
    method HandleRawDataPushRequest(b: Block) returns (outcome: Outcome)
      requires Inv()
      modifies this, buffer
      ensures outcome.OutOfBounds? <==> !Safe(layout, old(Now()), b)
      ensures !outcome.OutOfBounds? ==> Inv() && Now() == Step(layout, old(Now()), b)
      ensures outcome.Rejected? <==> HoldsHeader(layout, b) && !Accepts(layout, old(Now()), b)
      ensures outcome.Rejected? ==>
        buffer == old(buffer) && maxAssemblyLength == old(maxAssemblyLength) && Now() == old(Now())
      ensures outcome.Stored? ==> buffer != null && maxAssemblyLength == b.totalLength
      ensures outcome.Completed? ==> buffer == null && maxAssemblyLength == 0
      ensures outcome.Completed? <==> |inserted| == |old(inserted)| + 1
      ensures !outcome.Completed? ==> inserted == old(inserted)
      ensures buffer == old(buffer) || buffer == null || fresh(buffer)
    {
      ghost var st := Now();
      if !HoldsHeader(layout, b) { return OutOfBounds; }
      var ok := CheckAssemblyBuffer(b);
      if !ok { return Rejected; }
      AcceptedCopyFits(layout, st, b);
      if b.length > |b.data| || buffer == null || b.offset + b.length > buffer.Length {
        return OutOfBounds;
      }
      ghost var before := buffer[..];
      CopyIn(b);
      assert buffer[..] == Write(before, b);
      outcome := Stored;
      if b.offset + b.length == b.totalLength {
        inserted := inserted + [buffer[..]];
        buffer := null;
        maxAssemblyLength := 0;
        outcome := Completed;
      }
    }

    method CopyIn(b: Block)
      requires buffer != null && WellFormed(b) && End(b) <= buffer.Length
      modifies buffer
      ensures buffer[..] == Write(old(buffer[..]), b)
    {
      forall i | 0 <= i < b.length {
        buffer[b.offset + i] := Byte(b.data[i]);
      }
    }
  }
}
