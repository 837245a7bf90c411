/** The byte-level ends of Dialogue behave like the two-channel
    system of LinkProtocol; so what holds for the latter holds down to the bytes. */
module Refinement {
  import opened Bytes
  import opened AmiLink
  import opened Dialogue
  import Protocol = LinkProtocol
  import Assembly
  import EndToEnd
  import Server

  /** What one attempt amounts to in the two-channel system. */
  function AttemptActions(dataLost: bool, ackLost: bool): seq<Protocol.Action> {
    if dataLost then [Protocol.Transmit, Protocol.LoseData(0), Protocol.Timeout]
    else if ackLost then [Protocol.Transmit, Protocol.Deliver] + [Protocol.LoseReply(0), Protocol.Timeout]
    else [Protocol.Transmit, Protocol.Deliver, Protocol.ReadReply]
  }

  /** Frames are lost, but none is damaged or late, and the far end sends none of its own. */
  predicate Plain(r: nat, s: Protocol.Net, acts: seq<Protocol.Action>) {
    Protocol.Prompt(r, s, acts) && EndToEnd.Undamaged(acts) && Protocol.Interject !in acts
  }

  lemma PlainConcat(r: nat, s: Protocol.Net, a: seq<Protocol.Action>, b: seq<Protocol.Action>)
    requires Plain(r, s, a) && Plain(r, Protocol.Run(r, s, a), b)
    ensures Plain(r, s, a + b)
  {
    Protocol.PromptConcat(r, s, a, b);
  }

  /** From a settled state at the head of the retry loop. */
  predicate AtHead(s: Protocol.Net, retry: nat) {
    s.sender.Ready? && s.sender.attempts == retry && Protocol.Settled(s)
  }

  lemma RunThree(r: nat, s: Protocol.Net, a: Protocol.Action, b: Protocol.Action, c: Protocol.Action)
    ensures Protocol.Run(r, s, [a, b, c]) == Protocol.Next(r, Protocol.Next(r, Protocol.Next(r, s, a), b), c)
    ensures !a.Timeout? && !b.Timeout? && !c.Timeout? ==> Protocol.Prompt(r, s, [a, b, c])
    ensures !a.Timeout? && !b.Timeout? && Protocol.Settled(Protocol.Next(r, Protocol.Next(r, s, a), b)) ==>
            Protocol.Prompt(r, s, [a, b, c])
  {
    Protocol.RunTwo(r, s, a, b);
    assert [a, b, c][..2] == [a, b];
    assert [a, b][..1] == [a] && [a][..0] == [];
    assert Protocol.Prompt(r, s, [a]) <==> (a.Timeout? ==> Protocol.Settled(s));
  }

  lemma AttemptRefines(r: nat, s: Protocol.Net, retry: nat, dataLost: bool, ackLost: bool)
    requires AtHead(s, retry)
    ensures var acts := AttemptActions(dataLost, ackLost);
      var t := Protocol.Run(r, s, acts);
      && Protocol.Prompt(r, s, acts) && Protocol.Settled(t) && t.sends == s.sends
      && t.log == s.log + (if dataLost then [] else [s.sender.send])
      && (if !dataLost && !ackLost then t.sender.Idle? && t.outcomes == s.outcomes + [true]
          else if retry + 1 < r then t.sender == Protocol.Ready(s.sender.send, retry + 1) && t.outcomes == s.outcomes
          else t.sender.Idle? && t.outcomes == s.outcomes + [false])
  {
    if dataLost {
      RunThree(r, s, Protocol.Transmit, Protocol.LoseData(0), Protocol.Timeout);
    } else if ackLost {
      LostAck(r, s, retry);
    } else {
      RunThree(r, s, Protocol.Transmit, Protocol.Deliver, Protocol.ReadReply);
    }
  }

  lemma LostAck(r: nat, s: Protocol.Net, retry: nat)
    requires AtHead(s, retry)
    ensures var acts := AttemptActions(false, true);
      var t := Protocol.Run(r, s, acts);
      && Protocol.Prompt(r, s, acts) && Protocol.Settled(t) && t.sends == s.sends
      && t.log == s.log + [s.sender.send] && t.acksLost == s.acksLost + 1
      && (if retry + 1 < r then t.sender == Protocol.Ready(s.sender.send, retry + 1) && t.outcomes == s.outcomes
          else t.sender.Idle? && t.outcomes == s.outcomes + [false])
  {
    var a, b := [Protocol.Transmit, Protocol.Deliver], [Protocol.LoseReply(0), Protocol.Timeout];
    Protocol.RunTwo(r, s, Protocol.Transmit, Protocol.Deliver);
    var s1 := Protocol.Run(r, s, a);
    Protocol.RunTwo(r, s1, Protocol.LoseReply(0), Protocol.Timeout);
    Protocol.RunConcat(r, s, a, b);
    assert a[..1] == [Protocol.Transmit] && b[..1] == [Protocol.LoseReply(0)];
    assert [Protocol.Transmit][..0] == [] && [Protocol.LoseReply(0)][..0] == [];
    assert Protocol.Prompt(r, s, [Protocol.Transmit]) && Protocol.Prompt(r, s1, [Protocol.LoseReply(0)]);
    assert Protocol.Run(r, s1, [Protocol.LoseReply(0)]) == Protocol.LoseReplyAt(s1, 0);
    assert Protocol.Prompt(r, s, a) && Protocol.Prompt(r, s1, b);
    Protocol.PromptConcat(r, s, a, b);
  }

  /** An attempt whose frame is damaged and NACKed: nothing is accepted, and the sender goes
      on while it may. */
  lemma DamagedRefines(r: nat, s: Protocol.Net, retry: nat)
    requires AtHead(s, retry)
    ensures var acts := [Protocol.Transmit, Protocol.CorruptData(0)] + [Protocol.Deliver, Protocol.ReadReply];
      Protocol.Run(r, s, acts) ==
        if retry + 1 < r then s.(sender := Protocol.Ready(s.sender.send, retry + 1))
        else s.(sender := Protocol.Idle, outcomes := s.outcomes + [false])
  {
    var a, b := [Protocol.Transmit, Protocol.CorruptData(0)], [Protocol.Deliver, Protocol.ReadReply];
    Protocol.RunTwo(r, s, Protocol.Transmit, Protocol.CorruptData(0));
    var s1 := Protocol.Run(r, s, a);
    assert s1.data == [Protocol.Frame(s.sender.send, false)];
    Protocol.RunTwo(r, s1, Protocol.Deliver, Protocol.ReadReply);
    Protocol.RunConcat(r, s, a, b);
  }

  /** The attempts that are left, as the loss counters have them, are a run of the
      two-channel system in which nothing is damaged and nothing is late. */
  lemma {:induction false} TriesRefine(r: nat, s: Protocol.Net, retry: nat, k: int, run: nat, k': int, run': nat)
    returns (acts: seq<Protocol.Action>)
    requires AtHead(s, retry) && retry < r
    ensures Plain(r, s, acts)
    ensures Sent(s, Protocol.Run(r, s, acts), Tries(k, run, k', run', r - retry))
    decreases r - retry
  {
    var ackLost := Inject(k, run).0;
    var dataLost := Inject(k', run').0;
    acts := AttemptActions(dataLost, ackLost);
    AttemptRefines(r, s, retry, dataLost, ackLost);
    if (ackLost || dataLost) && retry + 1 < r {
      var t := Protocol.Run(r, s, acts);
      var rest := TriesRefine(r, t, retry + 1, k, Inject(k, run).1, k', Inject(k', run').1);
      PlainConcat(r, s, acts, rest);
      Protocol.RunConcat(r, s, acts, rest);
      acts := acts + rest;
    }
  }

  /** The current send is over, with the tally's result and copies. */
  predicate Sent(s: Protocol.Net, t: Protocol.Net, tally: Tally)
    requires !s.sender.Idle?
  {
    && t.sender.Idle? && Protocol.Settled(t) && t.sends == s.sends
    && t.outcomes == s.outcomes + [tally.returned]
    && t.log == s.log + Repeat(s.sender.send, tally.copies)
  }

  // ---------------------------------------------------------------------------
  // Many messages over one connection

  /** One end pushes messages to the other. `interval` is the receiver's loss interval,
      `buffer` what its message variable holds before a read, and `reply` what its handler
      answers to the last message. */
  datatype Push = Push(wire: Wire, interval: int, snd: Conn, rcv: Conn,
                       msgs: seq<seq<byte>>, buffer: seq<byte>, reply: seq<byte>)

  ghost predicate Ends(w: Wire, snd: Conn, rcv: Conn) {
    Readable(w) && 0 < w.timeout && Perfect(snd) && Perfect(rcv)
  }

  predicate Fits(m: seq<byte>, p: Push) {
    0 < |m| <= |p.buffer|
  }

  ghost predicate Sendable(p: Push) {
    && Ends(p.wire, p.snd, p.rcv) && IsMessage(p.wire, p.buffer) && 0 < p.wire.retryMax
    && (forall i :: 0 <= i < |p.msgs| ==> Fits(p.msgs[i], p)) && Fits(p.reply, p)
  }

  datatype Talk = Talk(results: seq<bool>, handled: seq<seq<byte>>, snd: Conn, rcv: Conn)

  /** The first `n` messages, each sent by linkSendRetry to the same receiver, whose
      handler answers none of them. */
  function Converse(p: Push, n: nat): (t: Talk)
    requires IsMessage(p.wire, p.buffer) && n <= |p.msgs|
    ensures |t.results| == n
  {
    if n == 0 then Talk([], [], p.snd, p.rcv)
    else
      var t := Converse(p, n - 1);
      var d := Duplex(p.wire, p.interval, t.snd, t.rcv, p.msgs[n-1], p.buffer);
      Talk(t.results + [d.dataSent == |p.msgs[n-1]|], t.handled + d.handled, d.snd, d.rcv)
  }

  /** After a run that stands for the first `n` messages. */
  predicate Tracks(s: Protocol.Net, t: Talk, msgs: seq<seq<byte>>, n: nat) {
    && s.sender.Idle? && Protocol.Settled(s) && s.sends == n && s.outcomes == t.results
    && Protocol.Below(s.log, n) && n <= |msgs| && t.handled == Protocol.Received(s.log, msgs)
  }

  lemma ReceivedRepeat(log: seq<nat>, i: nat, k: nat, msgs: seq<seq<byte>>)
    requires Protocol.Below(log, i) && i < |msgs|
    ensures Protocol.Below(log + Repeat(i, k), i + 1)
    ensures Protocol.Received(log + Repeat(i, k), msgs) == Protocol.Received(log, msgs) + Repeat(msgs[i], k)
  {
  }

  /** A whole conversation over bytes is one plain run from the start. */
  lemma {:induction false} ConversationRefines(p: Push, n: nat) returns (acts: seq<Protocol.Action>)
    requires Sendable(p) && n <= |p.msgs|
    ensures Plain(p.wire.retryMax, Protocol.INITIAL, acts)
    ensures var t := Converse(p, n);
      && Tracks(Protocol.Run(p.wire.retryMax, Protocol.INITIAL, acts), t, p.msgs, n)
      && Ends(p.wire, t.snd, t.rcv)
  {
    acts := [];
    if n > 0 {
      var r := p.wire.retryMax;
      acts := ConversationRefines(p, n - 1);
      var t := Converse(p, n - 1);
      var s := Protocol.Run(r, Protocol.INITIAL, acts);
      var m := p.msgs[n-1];
      assert Fits(m, p);
      DuplexOutcome(p.wire, p.interval, t.snd, t.rcv, m, p.buffer);
      acts := SendOne(r, acts, p.wire.lossInterval, t.snd.lossFreeRun, p.interval, t.rcv.lossFreeRun);
      var d := Duplex(p.wire, p.interval, t.snd, t.rcv, m, p.buffer);
      ReceivedRepeat(s.log, n - 1, |d.handled|, p.msgs);
    }
  }

  /** A further send, as the counters decide it, from where a run left off. */
  lemma SendOne(r: nat, acts: seq<Protocol.Action>, k: int, run: nat, k': int, run': nat)
    returns (more: seq<Protocol.Action>)
    requires r > 0 && Plain(r, Protocol.INITIAL, acts)
    requires var s := Protocol.Run(r, Protocol.INITIAL, acts); s.sender.Idle? && Protocol.Settled(s)
    ensures Plain(r, Protocol.INITIAL, more)
    ensures Sent(Begun(Protocol.Run(r, Protocol.INITIAL, acts)), Protocol.Run(r, Protocol.INITIAL, more),
                 Tries(k, run, k', run', r))
  {
    var begun := acts + [Protocol.StartSend];
    StartOne(r, acts);
    var rest := TriesRefine(r, Protocol.Run(r, Protocol.INITIAL, begun), 0, k, run, k', run');
    PlainConcat(r, Protocol.INITIAL, begun, rest);
    Protocol.RunConcat(r, Protocol.INITIAL, begun, rest);
    more := begun + rest;
  }

  function Begun(s: Protocol.Net): Protocol.Net {
    s.(sender := Protocol.Ready(s.sends, 0), sends := s.sends + 1)
  }

  lemma StartOne(r: nat, acts: seq<Protocol.Action>)
    requires r > 0 && Plain(r, Protocol.INITIAL, acts)
    requires var s := Protocol.Run(r, Protocol.INITIAL, acts); s.sender.Idle? && Protocol.Settled(s)
    ensures var begun := acts + [Protocol.StartSend];
      && Plain(r, Protocol.INITIAL, begun)
      && Protocol.Run(r, Protocol.INITIAL, begun) == Begun(Protocol.Run(r, Protocol.INITIAL, acts))
  {
    var begun := acts + [Protocol.StartSend];
    assert begun[..|acts|] == acts;
  }

  predicate InPhase(p: Push, snd: Conn, rcv: Conn) {
    snd.lossFreeRun < p.wire.lossInterval && rcv.lossFreeRun < p.interval
  }

  lemma {:induction false} TriesInPhase(k: nat, run: nat, k': nat, run': nat, attempts: nat)
    requires run < k && run' < k'
    ensures var t := Tries(k, run, k', run', attempts); t.run < k && t.run' < k'
    decreases attempts
  {
    if attempts > 0 {
      TriesInPhase(k, Inject(k, run).1, k', Inject(k', run').1, attempts - 1);
    }
  }

  /** The counters leave a gap from every phase. */
  ghost predicate AlwaysGap(p: Push) {
    && p.wire.lossInterval > 0 && p.interval > 0
    && AlwaysSucceeds(p.wire.lossInterval, p.interval, p.wire.retryMax)
  }

  /** Whatever was sent before, the next send of a message that is not answered succeeds
      too, while this is the receiver's only active connection: Dialogue.OthersDefeatRetries
      has what other connections can do. */
  lemma {:induction false} AllSucceed(p: Push, n: nat)
    requires Sendable(p) && n <= |p.msgs| && AlwaysGap(p) && InPhase(p, p.snd, p.rcv)
    ensures var t := Converse(p, n);
      && (forall i :: 0 <= i < n ==> t.results[i])
      && Ends(p.wire, t.snd, t.rcv) && InPhase(p, t.snd, t.rcv)
  {
    if n > 0 {
      AllSucceed(p, n - 1);
      var t := Converse(p, n - 1);
      assert Fits(p.msgs[n-1], p);
      NextSucceeds(p, t.snd, t.rcv, p.msgs[n-1]);
    }
  }

  lemma NextSucceeds(p: Push, snd: Conn, rcv: Conn, m: seq<byte>)
    requires Sendable(p) && Fits(m, p) && AlwaysGap(p) && Ends(p.wire, snd, rcv) && InPhase(p, snd, rcv)
    ensures var d := Duplex(p.wire, p.interval, snd, rcv, m, p.buffer);
      d.dataSent == |m| && Ends(p.wire, d.snd, d.rcv) && InPhase(p, d.snd, d.rcv)
  {
    var k, k', r := p.wire.lossInterval, p.interval, p.wire.retryMax;
    DuplexOutcome(p.wire, k', snd, rcv, m, p.buffer);
    TriesInPhase(k, snd.lossFreeRun, k', rcv.lossFreeRun, r);
    assert LockStep(k, snd.lossFreeRun, k', rcv.lossFreeRun, r);
  }

  // ---------------------------------------------------------------------------
  // An answer in the way

  /** An attempt while the far end waits for the acknowledgement of a message of its own:
      its readAck uses up the DATA frame, and this end's readAck uses up the message. */
  const CROSSED: seq<Protocol.Action> :=
    [Protocol.Interject, Protocol.Transmit] + [Protocol.LoseData(0), Protocol.ReadReply]

  lemma CrossedStep(r: nat, s: Protocol.Net, retry: nat)
    requires AtHead(s, retry)
    ensures Protocol.Run(r, s, CROSSED) ==
      if retry + 1 < r then s.(sender := Protocol.Ready(s.sender.send, retry + 1))
      else s.(sender := Protocol.Idle, outcomes := s.outcomes + [false])
  {
    Protocol.RunTwo(r, s, Protocol.Interject, Protocol.Transmit);
    var s1 := Protocol.Run(r, s, [Protocol.Interject, Protocol.Transmit]);
    Protocol.RunTwo(r, s1, Protocol.LoseData(0), Protocol.ReadReply);
    Protocol.RunConcat(r, s, [Protocol.Interject, Protocol.Transmit], [Protocol.LoseData(0), Protocol.ReadReply]);
  }

  lemma {:induction false} CrossedAttempts(r: nat, s: Protocol.Net, retry: nat) returns (acts: seq<Protocol.Action>)
    requires AtHead(s, retry) && retry < r
    ensures Protocol.Run(r, s, acts) == s.(sender := Protocol.Idle, outcomes := s.outcomes + [false])
    ensures EndToEnd.Undamaged(acts)
    decreases r - retry
  {
    acts := CROSSED;
    CrossedStep(r, s, retry);
    if retry + 1 < r {
      var t := Protocol.Run(r, s, CROSSED);
      var rest := CrossedAttempts(r, t, retry + 1);
      Protocol.RunConcat(r, s, CROSSED, rest);
      acts := CROSSED + rest;
    }
  }

  /** So if the first ACK of a message that is answered is lost, linkSendRetry may return 0
      whatever the retry limit, although the message was accepted and nothing else is lost. */
  lemma AnswerDrownsRetries(r: nat) returns (acts: seq<Protocol.Action>)
    requires r > 1
    ensures var t := Protocol.Run(r, Protocol.INITIAL, acts);
      t.sender.Idle? && Protocol.Settled(t) && t.outcomes == [false] && t.log == [0] && t.acksLost == 1
      && EndToEnd.Undamaged(acts)
  {
    var begun := [Protocol.StartSend];
    Protocol.RunOne(r, Protocol.INITIAL, Protocol.StartSend);
    var s := Protocol.Run(r, Protocol.INITIAL, begun);
    var first := AttemptActions(false, true);
    LostAck(r, s, 0);
    var t := Protocol.Run(r, s, first);
    var rest := CrossedAttempts(r, t, 1);
    Protocol.RunConcat(r, Protocol.INITIAL, begun, first);
    Protocol.RunConcat(r, Protocol.INITIAL, begun + first, rest);
    acts := begun + first + rest;
  }

  /** The attempts at a message that is answered, as the counters have them, are a run too:
      without damage, and with the outcome and copies of Dialogue.AnsweredOutcome. */
  lemma {:induction false} AnsweredRefines(r: nat, s: Protocol.Net, retry: nat, k: int, run: nat, k': int, run': nat)
    returns (acts: seq<Protocol.Action>)
    requires AtHead(s, retry) && retry < r
    ensures EndToEnd.Undamaged(acts)
    ensures Over(s, Protocol.Run(r, s, acts), FirstAckPasses(k, run, k', run', r - retry),
                 GetsThrough(k', run', r - retry))
    decreases r - retry
  {
    var ackLost := Inject(k, run).0;
    var dataLost := Inject(k', run').0;
    acts := AttemptActions(dataLost, ackLost);
    AttemptRefines(r, s, retry, dataLost, ackLost);
    var t := Protocol.Run(r, s, acts);
    if (dataLost || ackLost) && retry + 1 < r {
      var rest: seq<Protocol.Action>;
      if dataLost {
        rest := AnsweredRefines(r, t, retry + 1, k, Inject(k, run).1, k', Inject(k', run').1);
      } else {
        rest := CrossedAttempts(r, t, retry + 1);
      }
      Protocol.RunConcat(r, s, acts, rest);
      acts := acts + rest;
    }
  }

  /** The current send is over: what it returned, and whether it was accepted (once). */
  predicate Over(s: Protocol.Net, t: Protocol.Net, returned: bool, accepted: bool)
    requires !s.sender.Idle?
  {
    && t.sender.Idle? && Protocol.Settled(t) && t.sends == s.sends
    && t.outcomes == s.outcomes + [returned]
    && t.log == s.log + if accepted then [s.sender.send] else []
  }

  // ---------------------------------------------------------------------------
  // Down to the bytes

  /** Each message's block, as the handler reads it. */
  function Parsed(parse: seq<byte> -> Assembly.Block, msgs: seq<seq<byte>>): (blocks: seq<Assembly.Block>)
    ensures |blocks| == |msgs|
    ensures forall i :: 0 <= i < |msgs| ==> blocks[i] == parse(msgs[i])
  {
    seq(|msgs|, i requires 0 <= i < |msgs| => parse(msgs[i]))
  }

  /** The last message, which is answered, after the others, which are not. */
  function Last(p: Push): Both
    requires IsMessage(p.wire, p.buffer) && p.msgs != []
  {
    LastFrom(p, Converse(p, |p.msgs| - 1))
  }

  function LastFrom(p: Push, t: Talk): Both
    requires IsMessage(p.wire, p.buffer) && p.msgs != []
  {
    Answered(p.wire, p.interval, t.snd, t.rcv, p.msgs[|p.msgs|-1], p.buffer, p.reply)
  }

  /** What the handler is given for a data set: the last message may arrive `extra` more
      times, say over a sender that starts it again. */
  function Given(p: Push, extra: nat): seq<seq<byte>>
    requires IsMessage(p.wire, p.buffer) && p.msgs != []
  {
    var n := |p.msgs| - 1;
    Converse(p, n).handled + Last(p).handled + Repeat(p.msgs[n], extra)
  }

  /** How often each message of a conversation was handed over; at least once if it was
      sent with success. */
  lemma ConversationStutters(p: Push, n: nat) returns (ks: seq<nat>)
    requires Sendable(p) && n <= |p.msgs|
    ensures |ks| == n
    ensures Converse(p, n).handled == Expand(p.msgs[..n], ks, n)
    ensures forall i :: 0 <= i < n ==> ks[i] <= p.wire.retryMax && (Converse(p, n).results[i] ==> ks[i] > 0)
  {
    var r := p.wire.retryMax;
    var acts := ConversationRefines(p, n);
    var s := Protocol.Run(r, Protocol.INITIAL, acts);
    Protocol.PromptIsClean(r, Protocol.INITIAL, acts);
    Protocol.CleanSuccess(r, Protocol.INITIAL, acts);
    Protocol.LogStutters(r, acts, p.msgs[..n]);
    assert Protocol.Received(s.log, p.msgs[..n]) == Protocol.Received(s.log, p.msgs);
    ks := Protocol.Copies(s.log, n);
  }

  lemma {:induction false} ExpandPrefix<T>(xs: seq<T>, ks: seq<nat>, m: nat, n: nat)
    requires |xs| == |ks| && n <= m <= |xs|
    ensures Expand(xs[..m], ks[..m], n) == Expand(xs, ks, n)
    decreases n
  {
    if n > 0 { ExpandPrefix(xs, ks, m, n - 1); }
  }

  lemma {:induction false} ParsedExpand(parse: seq<byte> -> Assembly.Block, msgs: seq<seq<byte>>, ks: seq<nat>, n: nat)
    requires |msgs| == |ks| && n <= |ks|
    ensures Parsed(parse, Expand(msgs, ks, n)) == Expand(Parsed(parse, msgs), ks, n)
    decreases n
  {
    if n > 0 {
      ParsedExpand(parse, msgs, ks, n - 1);
      assert Parsed(parse, Repeat(msgs[n-1], ks[n-1])) == Repeat(Parsed(parse, msgs)[n-1], ks[n-1]);
    }
  }

  predicate AllTrue(results: seq<bool>) {
    forall i :: 0 <= i < |results| ==> results[i]
  }

  /** The messages before the last were sent with success, and the last one was handed over. */
  predicate Delivers(p: Push)
    requires IsMessage(p.wire, p.buffer) && p.msgs != []
  {
    AllTrue(Converse(p, |p.msgs| - 1).results) && Last(p).handled != []
  }

  /** Then every message was handed over, in order, some more than once. */
  lemma GivenStutters(p: Push, extra: nat) returns (ks: seq<nat>)
    requires Sendable(p) && p.msgs != [] && Delivers(p)
    ensures |ks| == |p.msgs| && Assembly.NoneMissing(ks)
    ensures Converse(p, |p.msgs| - 1).handled == Expand(p.msgs, ks, |p.msgs| - 1)
    ensures Given(p, extra) == Expand(p.msgs, ks, |p.msgs|)
  {
    var n := |p.msgs| - 1;
    var before := ConversationStutters(p, n);
    ks := before + [1 + extra];
    assert ks[..n] == before;
    ExpandPrefix(p.msgs, ks, n, n);
    StillEnds(p, n);
    LastOutcome(p, Converse(p, n));
    OneMore(Expand(p.msgs, ks, n), p.msgs[n], extra);
  }

  lemma OneMore<T>(xs: seq<T>, x: T, k: nat)
    ensures xs + [x] + Repeat(x, k) == xs + Repeat(x, 1 + k)
  {
  }

  /** The last message is handed over once, if at all, and reported as sent exactly when the
      ACK of its first copy comes through. */
  lemma LastOutcome(p: Push, t: Talk)
    requires Sendable(p) && p.msgs != [] && Ends(p.wire, t.snd, t.rcv)
    ensures var m := p.msgs[|p.msgs|-1];
      && LastFrom(p, t).handled == (if GetsThrough(p.interval, t.rcv.lossFreeRun, p.wire.retryMax) then [m] else [])
      && LastFrom(p, t).dataSent == (if LastAckPasses(p, t.snd, t.rcv) then |m| else 0)
  {
    assert Fits(p.msgs[|p.msgs|-1], p);
    AnsweredOutcome(p.wire, p.interval, t.snd, t.rcv, p.msgs[|p.msgs|-1], p.buffer, p.reply);
  }

  predicate LastAckPasses(p: Push, snd: Conn, rcv: Conn) {
    FirstAckPasses(p.wire.lossInterval, snd.lossFreeRun, p.interval, rcv.lossFreeRun, p.wire.retryMax)
  }

  lemma StillEnds(p: Push, n: nat)
    requires Sendable(p) && n <= |p.msgs|
    ensures Ends(p.wire, Converse(p, n).snd, Converse(p, n).rcv)
  {
    var acts := ConversationRefines(p, n);
  }

  /** From the bytes on the sockets to the assembler: up to the last message nothing is
      inserted, so nothing is answered; and when the last one has arrived, however often,
      the handler, whatever it held before, has inserted exactly the one data set. */
  lemma BytesOneInsert(p: Push, extra: nat, l: Assembly.Layout, st: Assembly.State, payload: seq<byte>,
                       parse: seq<byte> -> Assembly.Block)
    requires Sendable(p) && |p.msgs| > 1 && Delivers(p)
    requires Assembly.ValidLayout(l) && Assembly.Valid(l, st) && Assembly.Cut(l, payload, Parsed(parse, p.msgs))
    ensures var before := Parsed(parse, Converse(p, |p.msgs| - 1).handled);
      Assembly.Usable(before) && Assembly.Feed(l, st, before).inserted == st.inserted
    ensures var given := Parsed(parse, Given(p, extra));
      Assembly.Usable(given) && Assembly.Feed(l, st, given) == Inserted(st, payload)
  {
    var ks := GivenStutters(p, extra);
    ParsedExpand(parse, p.msgs, ks, |p.msgs| - 1);
    ParsedExpand(parse, p.msgs, ks, |p.msgs|);
    Assembly.FeedPrefix(l, st, payload, Parsed(parse, p.msgs), ks, |p.msgs| - 1);
    Assembly.StutterAssembles(l, st, payload, Parsed(parse, p.msgs), ks);
  }

  /** One more data set, and nothing being assembled. */
  function Inserted(st: Assembly.State, payload: seq<byte>): Assembly.State {
    Assembly.State(None, 0, st.inserted + [Assembly.Cells(payload)])
  }

  /** Both ends drop at most every third frame, and there are three attempts. */
  predicate MildLoss(p: Push) {
    p.wire.retryMax >= 3 && p.wire.lossInterval >= 3 && p.interval >= 3 && InPhase(p, p.snd, p.rcv)
  }

  /** Mild loss cannot keep a data set from being inserted exactly once. Every message but
      the last is reported as sent. */
  lemma InjectedLossOneInsert(p: Push, extra: nat, l: Assembly.Layout, st: Assembly.State, payload: seq<byte>,
                              parse: seq<byte> -> Assembly.Block)
    requires Sendable(p) && |p.msgs| > 1 && MildLoss(p)
    requires Assembly.ValidLayout(l) && Assembly.Valid(l, st) && Assembly.Cut(l, payload, Parsed(parse, p.msgs))
    ensures Delivers(p)
    ensures var given := Parsed(parse, Given(p, extra));
      Assembly.Usable(given) && Assembly.Feed(l, st, given) == Inserted(st, payload)
  {
    LockStepIff(p.wire.lossInterval, p.interval, p.wire.retryMax);
    AlwaysDelivers(p);
    BytesOneInsert(p, extra, l, st, payload, parse);
  }

  lemma AlwaysDelivers(p: Push)
    requires Sendable(p) && p.msgs != [] && AlwaysGap(p) && InPhase(p, p.snd, p.rcv)
    requires p.wire.retryMax >= 2 && p.interval >= 2
    ensures Delivers(p)
  {
    var n := |p.msgs| - 1;
    AllSucceed(p, n);
    var t := Converse(p, n);
    LastOutcome(p, t);
    assert GetsThrough(p.interval, t.rcv.lossFreeRun, p.wire.retryMax) by {
      HandedOverIff(p.interval, p.wire.retryMax);
    }
  }

  // ---------------------------------------------------------------------------
  // The handler loop

  /** A message buffer that holds the message, and anything behind it. */
  predicate Holds(buffer: seq<byte>, m: seq<byte>) {
    m <= buffer
  }

  /** In any buffer that holds one of these messages the handler finds a raw data push with
      the message's block; only the block's data up to its length count. */
  ghost predicate FindsBlocks(serve: (nat, seq<byte>) -> Server.Request, parse: seq<byte> -> Assembly.Block,
                              ms: seq<seq<byte>>) {
    forall i: nat, m, buffer :: m in ms && Holds(buffer, m) ==> FindsBlock(serve(i, buffer), parse(m))
  }

  predicate FindsBlock(r: Server.Request, b: Assembly.Block) {
    r.RawDataPush? && Assembly.Alike(r.block, b)
  }

  predicate AllHold(buffers: seq<seq<byte>>, ms: seq<seq<byte>>) {
    |buffers| == |ms| && forall j :: 0 <= j < |ms| ==> Holds(buffers[j], ms[j])
  }

  lemma {:induction false} PushesParsed(serve: (nat, seq<byte>) -> Server.Request, parse: seq<byte> -> Assembly.Block,
                                        buffers: seq<seq<byte>>, ms: seq<seq<byte>>, rs: seq<Server.Request>)
    requires FindsBlocks(serve, parse, ms) && AllHold(buffers, ms) && Server.Parses(serve, buffers, rs)
    ensures Assembly.AllAlike(Server.Pushes(rs), Parsed(parse, ms))
    decreases |ms|
  {
    if ms != [] {
      var n := |ms| - 1;
      assert forall m :: m in ms[..n] ==> m in ms;
      PushesParsed(serve, parse, buffers[..n], ms[..n], rs[..n]);
      assert Server.ParsedSometime(serve, buffers[n], rs[n]) && Holds(buffers[n], ms[n]);
      assert FindsBlock(rs[n], parse(ms[n]));
    }
  }

  lemma {:induction false} ExpandIn<T>(xs: seq<T>, ks: seq<nat>, n: nat)
    requires |xs| == |ks| && n <= |xs|
    ensures forall x :: x in Expand(xs, ks, n) ==> x in xs
  {
    if n > 0 { ExpandIn(xs, ks, n - 1); }
  }

  lemma BuffersHold(turns: seq<Server.Turn>)
    ensures AllHold(Server.Buffers(turns), Server.Received(turns))
  {
  }

  /** The same for the handler loop: if the messages it read from its socket are those the
      link gave it for this data set, whatever was behind them in its buffers, then what its
      requests make of the assembly is the one insert. (Server.Handler.ConnectionHandler says
      that its turns follow from the socket's bytes, that they parse, and that it leaves the
      assembly as its requests make it.) */
  lemma HandlerOneInsert(p: Push, extra: nat, l: Assembly.Layout, st: Assembly.State, payload: seq<byte>,
                         parse: seq<byte> -> Assembly.Block, serve: (nat, seq<byte>) -> Server.Request,
                         turns: seq<Server.Turn>)
    requires Sendable(p) && |p.msgs| > 1 && MildLoss(p)
    requires Assembly.ValidLayout(l) && Assembly.Valid(l, st) && Assembly.Cut(l, payload, Parsed(parse, p.msgs))
    requires FindsBlocks(serve, parse, p.msgs)
    requires Server.Received(turns) == Given(p, extra)
    requires Server.Parses(serve, Server.Buffers(turns), Server.Requests(turns))
    ensures Server.HandleAll(l, st, Server.Requests(turns)) == Some(Inserted(st, payload))
  {
    var given, rs := Given(p, extra), Server.Requests(turns);
    InjectedLossOneInsert(p, extra, l, st, payload, parse);
    var ks := GivenStutters(p, extra);
    ExpandIn(p.msgs, ks, |p.msgs|);
    BuffersHold(turns);
    PushesParsed(serve, parse, Server.Buffers(turns), given, rs);
    Server.OnlyPushesMatter(l, st, rs);
    Assembly.ProcessAlike(l, st, Server.Pushes(rs), Parsed(parse, given));
    Assembly.ProcessIsFeed(l, st, Parsed(parse, given));
  }
}
