/** The link and the assembler together. */
module EndToEnd {
  import opened Bytes
  import Assembly
  import Protocol = LinkProtocol

  /** No frame is damaged in transit; losing frames is still allowed. (After a CRC
      mismatch readMessage returns a positive length with the message untouched,
      so the handler would run on a message nobody sent: see AmiLink.FirstDataFrame.) */
  predicate Undamaged(acts: seq<Protocol.Action>) {
    forall i :: 0 <= i < |acts| ==> !acts[i].CorruptData?
  }

  /** The send numbered `i` after `base` reported success, or its message was accepted
      all the same. */
  predicate Through(base: Protocol.Net, t: Protocol.Net, i: nat) {
    var send := base.sends + i;
    (send < |t.outcomes| && t.outcomes[send]) || send in t.log
  }

  /** After whatever the link carried `earlier`, which is over, `n` messages are pushed
      and all get through. Any frame and any ACK may be lost, be slow, or meet frames of
      the far end's own; but when a send begins no ACK is left over. */
  predicate Pushed(r: nat, earlier: seq<Protocol.Action>, acts: seq<Protocol.Action>, n: nat) {
    var base := Protocol.Run(r, Protocol.INITIAL, earlier);
    var t := Protocol.Run(r, base, acts);
    && base.sender.Idle? && Protocol.Settled(base)
    && Protocol.CleanStarts(r, base, acts) && Undamaged(acts)
    && t.sends == base.sends + n
    && forall i: nat :: i < n ==> Through(base, t, i)
  }

  /** What the receiver accepted of them, by number. */
  function Accepted(r: nat, earlier: seq<Protocol.Action>, acts: seq<Protocol.Action>): (log: seq<nat>) {
    var base := Protocol.Run(r, Protocol.INITIAL, earlier);
    var t := Protocol.Run(r, base, acts);
    if |base.log| <= |t.log| then Protocol.Since(base, t) else []
  }

  /** It is what a new link would have accepted, and misses nothing. */
  lemma AcceptedFromStart(r: nat, earlier: seq<Protocol.Action>, acts: seq<Protocol.Action>, n: nat)
    requires Pushed(r, earlier, acts, n)
    ensures var s := Protocol.Run(r, Protocol.INITIAL, acts);
      && s.sends == n && Accepted(r, earlier, acts) == s.log
      && forall i: nat :: i < n ==> Count(i, s.log) >= 1
  {
    var base := Protocol.Run(r, Protocol.INITIAL, earlier);
    var s := Protocol.Run(r, Protocol.INITIAL, acts);
    Protocol.AsGoodAsNew(r, base, acts);
    Protocol.SinceOver(base, s);
    Protocol.CleanFromStart(r, base, acts);
    Protocol.AlwaysOrdered(r, earlier);
    Protocol.LogPart(r, base);
    MissesNothing(r, base, acts, n);
  }

  lemma MissesNothing(r: nat, base: Protocol.Net, acts: seq<Protocol.Action>, n: nat)
    requires Protocol.Below(base.log, base.sends) && |base.outcomes| == base.sends
    requires Protocol.CleanStarts(r, Protocol.INITIAL, acts)
    requires var t := Protocol.Over(base, Protocol.Run(r, Protocol.INITIAL, acts));
      forall i: nat :: i < n ==> Through(base, t, i)
    ensures forall i: nat :: i < n ==> Count(i, Protocol.Run(r, Protocol.INITIAL, acts).log) >= 1
  {
    var s := Protocol.Run(r, Protocol.INITIAL, acts);
    Protocol.CleanSuccess(r, Protocol.INITIAL, acts);
    forall i: nat | i < n ensures Count(i, s.log) >= 1 {
      ThroughFromStart(base, s, i);
    }
  }

  lemma ThroughFromStart(base: Protocol.Net, s: Protocol.Net, i: nat)
    requires Protocol.Below(base.log, base.sends) && |base.outcomes| == base.sends
    requires Through(base, Protocol.Over(base, s), i)
    requires forall j: nat :: j < |s.outcomes| && s.outcomes[j] ==> Count(j, s.log) >= 1
    ensures Count(i, s.log) >= 1
  {
    var t := Protocol.Over(base, s);
    var n := base.sends + i;
    if n < |t.outcomes| && t.outcomes[n] {
      assert s.outcomes[i];
    } else {
      var k :| 0 <= k < |t.log| && t.log[k] == n;
      assert s.log[k - |base.log|] == i;
      Protocol.CountPresent(i, s.log);
    }
  }

  /** A raw data set is cut into two or more blocks and pushed over a link in any idle,
      settled state. If every push got through, then the receiving connection, whatever
      it held before, has inserted exactly one more data set, and it is the original. */
  lemma OneInsert(r: nat, earlier: seq<Protocol.Action>, acts: seq<Protocol.Action>,
                  l: Assembly.Layout, st: Assembly.State,
                  payload: seq<byte>, blocks: seq<Assembly.Block>)
    requires Assembly.ValidLayout(l) && Assembly.Valid(l, st)
    requires Assembly.Cut(l, payload, blocks) && |blocks| > 1
    requires Pushed(r, earlier, acts, |blocks|)
    ensures var log := Accepted(r, earlier, acts);
      && Protocol.Below(log, |blocks|)
      && var received := Protocol.Received(log, blocks);
      && Assembly.Usable(received)
      && Assembly.Feed(l, st, received) ==
           Assembly.State(None, 0, st.inserted + [Assembly.Cells(payload)])
  {
    var s := Protocol.Run(r, Protocol.INITIAL, acts);
    AcceptedFromStart(r, earlier, acts, |blocks|);
    Protocol.LogStutters(r, acts, blocks);
    Assembly.StutterAssembles(l, st, payload, blocks, Protocol.Copies(s.log, |blocks|));
  }

  /** Every data set inserted in any run of blocks has its header written, and the insert
      loops read inside it, or visit all of it, exactly when the header's counts, as they
      are by then, call for no more than it holds, or for just that. */
  lemma {:induction false} InsertedSetsSweep(l: Assembly.Layout, blocks: seq<Assembly.Block>, i: nat,
                                             baseId: nat, afterId: nat)
    requires Assembly.ValidLayout(l) && Assembly.Usable(blocks)
    requires i < |Assembly.Feed(l, Assembly.EMPTY, blocks).inserted|
    ensures var d := Assembly.Feed(l, Assembly.EMPTY, blocks).inserted[i];
      && Assembly.HasHeader(l, d)
      && var needed := l.headerSize + Assembly.Points(l, d) * l.pointSize;
      && (Assembly.ReadsInside(l, d, Assembly.DataSetRows(l, d, baseId, afterId)) <==> needed <= |d|)
      && (Assembly.SweepsWholeSet(l, d, Assembly.DataSetRows(l, d, baseId, afterId)) <==> needed == |d|)
  {
    InsertedHaveHeaders(l, blocks);
    var d := Assembly.Feed(l, Assembly.EMPTY, blocks).inserted[i];
    Assembly.ReadsInsideIff(l, d, baseId, afterId);
    Assembly.WholeSetIff(l, d, baseId, afterId);
  }

  lemma {:induction false} InsertedHaveHeaders(l: Assembly.Layout, blocks: seq<Assembly.Block>)
    requires Assembly.ValidLayout(l) && Assembly.Usable(blocks)
    ensures forall d :: d in Assembly.Feed(l, Assembly.EMPTY, blocks).inserted ==>
      Assembly.HasHeader(l, d) && |d| < WORD
    decreases |blocks|
  {
    if blocks != [] {
      var n := |blocks| - 1;
      InsertedHaveHeaders(l, blocks[..n]);
      Assembly.StepInserts(l, Assembly.Feed(l, Assembly.EMPTY, blocks[..n]), blocks[n]);
    }
  }

  /** A pushed data set whose counts do not wrap ends up in the table point by point:
      link, assembler and insert loops together. */
  lemma EveryPointInserted(r: nat, earlier: seq<Protocol.Action>, acts: seq<Protocol.Action>,
                  l: Assembly.Layout, st: Assembly.State,
                           payload: seq<byte>, blocks: seq<Assembly.Block>, baseId: nat, afterId: nat)
    requires Assembly.ValidLayout(l) && Assembly.Valid(l, st)
    requires Assembly.Cut(l, payload, blocks) && |blocks| > 1
    requires Pushed(r, earlier, acts, |blocks|)
    requires var header := payload[..l.headerSize];
      l.headerSize + (l.baseCount(header) + l.afterCount(header)) * l.pointSize < WORD
    ensures var log := Accepted(r, earlier, acts);
      && Protocol.Below(log, |blocks|) && Assembly.Usable(Protocol.Received(log, blocks))
      && var t := Assembly.Feed(l, st, Protocol.Received(log, blocks));
      && |t.inserted| == |st.inserted| + 1
      && var d := t.inserted[|st.inserted|];
      && Assembly.CountsAgree(l, d)
      && Assembly.SweepsWholeSet(l, d, Assembly.DataSetRows(l, d, baseId, afterId))
  {
    OneInsert(r, earlier, acts, l, st, payload, blocks);
    PayloadSweeps(l, payload, baseId, afterId);
  }

  lemma PayloadSweeps(l: Assembly.Layout, payload: seq<byte>, baseId: nat, afterId: nat)
    requires Assembly.ValidLayout(l) && l.headerSize <= |payload|
    requires var header := payload[..l.headerSize];
      && |payload| == Assembly.MaxLength(l, header)
      && l.headerSize + (l.baseCount(header) + l.afterCount(header)) * l.pointSize < WORD
    ensures var d := Assembly.Cells(payload);
      Assembly.CountsAgree(l, d) && Assembly.SweepsWholeSet(l, d, Assembly.DataSetRows(l, d, baseId, afterId))
  {
    var d := Assembly.Cells(payload);
    assert Assembly.Header(l, d) == payload[..l.headerSize];
    Assembly.SweepIff(l, d, baseId, afterId);
  }
}
