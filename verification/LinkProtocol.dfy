/** The stop-and-wait link of amilink.cpp as two ends and two FIFO channels, over
    every interleaving of sending, loss, corruption, delivery and timeout.

    Messages are named by the number of the send that carries them. The number is
    history: the wire has no sequence numbers, and no step below looks at it. */
module LinkProtocol {
  import opened Bytes

  /** A DATA frame in flight; its CRC matches exactly when it is intact. */
  datatype Frame = Frame(send: nat, intact: bool)

  /** What may come back. Other is any frame that is neither an ACK nor a NACK: the far
      end also sends messages of its own. (While it waits for their acknowledgement its
      readAck uses up a DATA frame; that is LoseData(0).) */
  datatype Reply = Ack | Nack | Other

  /** Where linkSendRetry stands: `attempts` is its counter `retry`. */
  datatype Sender = Idle | Ready(send: nat, attempts: nat) | Awaiting(send: nat, attempts: nat)

  datatype Net = Net(
    sender: Sender,
    sends: nat,             // sends begun
    outcomes: seq<bool>,    // per finished send: did it return its length
    data: seq<Frame>,
    replies: seq<Reply>,
    log: seq<nat>,          // what readMessage copied out and acknowledged, in order
    acksSent: nat, acksRead: nat, acksLost: nat)

  datatype Action =
    | StartSend             // linkSendRetry is called
    | Transmit              // IPUtilSendData of one DATA frame
    | LoseData(i: nat)
    | CorruptData(i: nat)
    | Deliver               // readMessage at the other end
    | LoseReply(i: nat)
    | Interject             // the far end sends a frame of its own
    | ReadReply             // readAck gets a frame
    | Timeout               // readAck gives up

  const INITIAL: Net := Net(Idle, 0, [], [], [], [], 0, 0, 0)

  /** The loop head of linkSendRetry after an attempt that was not acknowledged. */
  function Unacknowledged(r: nat, s: Net): Net
    requires !s.sender.Idle?
  {
    if s.sender.attempts < r then s.(sender := Ready(s.sender.send, s.sender.attempts))
    else s.(sender := Idle, outcomes := s.outcomes + [false])
  }

  function Acknowledged(s: Net): Net {
    s.(sender := Idle, outcomes := s.outcomes + [true], acksRead := s.acksRead + 1)
  }

  function Start(r: nat, s: Net): Net
    requires s.sender.Idle?
  {
    Unacknowledged(r, s.(sender := Ready(s.sends, 0), sends := s.sends + 1))
  }

  function TransmitFrame(s: Net): Net
    requires s.sender.Ready?
  {
    s.(sender := Awaiting(s.sender.send, s.sender.attempts + 1),
       data := s.data + [Frame(s.sender.send, true)])
  }

  function Remove<T>(s: seq<T>, i: nat): (r: seq<T>)
    requires i < |s|
    ensures |r| == |s| - 1
  {
    s[..i] + s[i+1..]
  }

  function LoseReplyAt(s: Net, i: nat): Net
    requires i < |s.replies|
  {
    s.(replies := Remove(s.replies, i), acksLost := s.acksLost + if s.replies[i].Ack? then 1 else 0)
  }

  /** readMessage at the far end: an intact frame is copied out and ACKed, any
      other is NACKed. */
  function DeliverFrame(s: Net): Net
    requires s.data != []
  {
    var t := s.(data := Remove(s.data, 0));
    if s.data[0].intact then
      t.(log := s.log + [s.data[0].send], replies := s.replies + [Ack], acksSent := s.acksSent + 1)
    else
      t.(replies := s.replies + [Nack])
  }

  function Read(r: nat, s: Net): Net
    requires s.sender.Awaiting? && s.replies != []
  {
    var t := s.(replies := Remove(s.replies, 0));
    if s.replies[0].Ack? then Acknowledged(t) else Unacknowledged(r, t)
  }

  predicate Enabled(s: Net, a: Action) {
    match a
    case StartSend => s.sender.Idle?
    case Transmit => s.sender.Ready?
    case LoseData(i) => i < |s.data|
    case CorruptData(i) => i < |s.data|
    case Deliver => s.data != []
    case LoseReply(i) => i < |s.replies|
    case Interject => true
    case ReadReply => s.sender.Awaiting? && s.replies != []
    case Timeout => s.sender.Awaiting?
  }

  /** One step with MQS_CLD_RETRY_MAX == r; a step that is not enabled changes nothing. */
  function Next(r: nat, s: Net, a: Action): Net {
    if !Enabled(s, a) then s
    else match a
      case StartSend => Start(r, s)
      case Transmit => TransmitFrame(s)
      case LoseData(i) => s.(data := Remove(s.data, i))
      case CorruptData(i) => s.(data := s.data[i := s.data[i].(intact := false)])
      case Deliver => DeliverFrame(s)
      case LoseReply(i) => LoseReplyAt(s, i)
      case Interject => s.(replies := s.replies + [Other])
      case ReadReply => Read(r, s)
      case Timeout => Unacknowledged(r, s)
  }

  function Run(r: nat, s: Net, acts: seq<Action>): Net
    decreases |acts|
  {
    if acts == [] then s
    else Next(r, Run(r, s, acts[..|acts|-1]), acts[|acts|-1])
  }

  lemma {:induction false} RunConcat(r: nat, s: Net, a: seq<Action>, b: seq<Action>)
    ensures Run(r, s, a + b) == Run(r, Run(r, s, a), b)
    decreases |b|
  {
    if b == [] {
      assert a + b == a;
    } else {
      var n := |b| - 1;
      assert (a + b)[..|a| + n] == a + b[..n];
      RunConcat(r, s, a, b[..n]);
    }
  }

  // ---------------------------------------------------------------------------
  // Acknowledgement accounting

  lemma {:induction false} CountConcat<T>(x: T, a: seq<T>, b: seq<T>)
    ensures Count(x, a + b) == Count(x, a) + Count(x, b)
    decreases |b|
  {
    if b == [] {
      assert a + b == a;
    } else {
      var n := |b| - 1;
      assert (a + b)[..|a| + n] == a + b[..n];
      CountConcat(x, a, b[..n]);
    }
  }

  lemma {:induction false} CountRemove<T>(x: T, s: seq<T>, i: nat)
    requires i < |s|
    ensures Count(x, s) == Count(x, Remove(s, i)) + if s[i] == x then 1 else 0
    decreases |s|
  {
    var n := |s| - 1;
    if i == n {
      assert Remove(s, i) == s[..n];
    } else {
      CountRemove(x, s[..n], i);
      assert Remove(s, i) == Remove(s[..n], i) + [s[n]];
      CountSnoc(x, Remove(s[..n], i), s[n]);
    }
  }

  /** Sends are numbered in order, and all but the current one have an outcome. */
  predicate Numbered(s: Net) {
    if s.sender.Idle? then |s.outcomes| == s.sends
    else |s.outcomes| == s.sender.send == s.sends - 1
  }

  /** Every ACK stands for one accepted copy and is read, in flight or lost;
      every successful send read one. */
  predicate Accounts(s: Net) {
    && s.acksSent == |s.log|
    && s.acksRead + Count(Ack, s.replies) + s.acksLost == s.acksSent
    && Count(true, s.outcomes) == s.acksRead
  }

  lemma NumberedStep(r: nat, s: Net, a: Action)
    requires Numbered(s)
    ensures Numbered(Next(r, s, a))
  {
  }

  lemma AccountsStep(r: nat, s: Net, a: Action)
    requires Accounts(s)
    ensures Accounts(Next(r, s, a))
  {
    if Enabled(s, a) {
      if a.Deliver? {
        DeliverAccounts(s);
      } else if a.ReadReply? {
        ReadAccounts(r, s);
      } else if a.LoseReply? {
        CountRemove(Ack, s.replies, a.i);
      } else if a.Interject? {
        CountSnoc(Ack, s.replies, Other);
      } else {
        SenderAccounts(r, s, a);
      }
    }
  }

  lemma SenderAccounts(r: nat, s: Net, a: Action)
    requires Accounts(s) && Enabled(s, a)
    requires a.StartSend? || a.Transmit? || a.LoseData? || a.CorruptData? || a.Timeout?
    ensures Accounts(Next(r, s, a))
  {
    CountSnoc(true, s.outcomes, false);
  }

  lemma DeliverAccounts(s: Net)
    requires Accounts(s) && s.data != []
    ensures Accounts(DeliverFrame(s))
  {
    CountSnoc(Ack, s.replies, if s.data[0].intact then Ack else Nack);
  }

  lemma ReadAccounts(r: nat, s: Net)
    requires Accounts(s) && s.sender.Awaiting? && s.replies != []
    ensures Accounts(Read(r, s))
  {
    CountSnoc(true, s.outcomes, s.replies[0].Ack?);
    CountRemove(Ack, s.replies, 0);
  }

  /** Over any interleaving, timeouts and late ACKs included, sends that report
      success never outnumber the accepted copies. */
  lemma {:induction false} AckAccounting(r: nat, acts: seq<Action>)
    ensures var s := Run(r, INITIAL, acts);
      && s.acksRead + Count(Ack, s.replies) + s.acksLost == s.acksSent == |s.log|
      && Count(true, s.outcomes) == s.acksRead
      && Numbered(s)
    decreases |acts|
  {
    if acts != [] {
      var before := acts[..|acts|-1];
      AckAccounting(r, before);
      assert Accounts(Run(r, INITIAL, before));
      AccountsStep(r, Run(r, INITIAL, before), acts[|acts|-1]);
      NumberedStep(r, Run(r, INITIAL, before), acts[|acts|-1]);
    }
  }

  // ---------------------------------------------------------------------------
  // The receiver's log stutters but never reorders

  function Tags(data: seq<Frame>): (t: seq<nat>)
    ensures |t| == |data|
    ensures forall i :: 0 <= i < |data| ==> t[i] == data[i].send
  {
    seq(|data|, i requires 0 <= i < |data| => data[i].send)
  }

  /** What was accepted, followed by what is still in flight. */
  function Trail(s: Net): seq<nat> {
    s.log + Tags(s.data)
  }

  predicate Sorted(s: seq<nat>) {
    forall i, j :: 0 <= i < j < |s| ==> s[i] <= s[j]
  }

  predicate Below(s: seq<nat>, n: nat) {
    forall i :: 0 <= i < |s| ==> s[i] < n
  }

  /** How many copies of a send there may be so far. */
  function Allowed(r: nat, sender: Sender, send: nat): nat {
    if !sender.Idle? && sender.send == send then sender.attempts else r
  }

  ghost predicate Bounded(r: nat, s: Net) {
    && (!s.sender.Idle? ==> s.sender.attempts <= r)
    && (s.sender.Ready? ==> s.sender.attempts < r)
    && (forall i: nat :: Count(i, Trail(s)) <= Allowed(r, s.sender, i))
  }

  ghost predicate Ordered(r: nat, s: Net) {
    Numbered(s) && Sorted(Trail(s)) && Below(Trail(s), s.sends) && Bounded(r, s)
  }

  lemma {:induction false} CountAbsent(x: nat, s: seq<nat>)
    requires forall i :: 0 <= i < |s| ==> s[i] != x
    ensures Count(x, s) == 0
    decreases |s|
  {
    if s != [] { CountAbsent(x, s[..|s|-1]); }
  }

  /** What a step does to the trail: it adds the current send, loses one entry,
      or leaves it alone. */
  lemma TrailStep(r: nat, s: Net, a: Action)
    requires Enabled(s, a)
    ensures var t := Trail(Next(r, s, a));
      || t == Trail(s)
      || (a == Transmit && t == Trail(s) + [s.sender.send])
      || exists i :: 0 <= i < |Trail(s)| && t == Remove(Trail(s), i)
  {
    var t := Trail(Next(r, s, a));
    match a
    case Transmit => assert t == Trail(s) + [s.sender.send];
    case LoseData(i) => LoseDataTrail(s, i);
    case CorruptData(i) => assert t == Trail(s);
    case Deliver =>
      if s.data[0].intact { assert t == Trail(s); }
      else { LoseDataTrail(s, 0); }
    case _ =>
  }

  lemma LoseDataTrail(s: Net, i: nat)
    requires i < |s.data|
    ensures s.log + Tags(Remove(s.data, i)) == Remove(Trail(s), |s.log| + i)
  {
  }

  lemma OrderedStep(r: nat, s: Net, a: Action)
    requires Ordered(r, s)
    ensures Ordered(r, Next(r, s, a))
  {
    if Enabled(s, a) {
      NumberedStep(r, s, a);
      SortedStep(r, s, a);
      BoundedStep(r, s, a);
    }
  }

  lemma SortedStep(r: nat, s: Net, a: Action)
    requires Ordered(r, s) && Enabled(s, a)
    ensures var u := Next(r, s, a); Sorted(Trail(u)) && Below(Trail(u), u.sends)
  {
    TrailStep(r, s, a);
    SendsGrow(r, s, a);
    var t, u := Trail(s), Trail(Next(r, s, a));
    if u != t && a != Transmit {
      var i :| 0 <= i < |t| && u == Remove(t, i);
      RemoveSorted(t, i, s.sends);
    }
  }

  lemma SendsGrow(r: nat, s: Net, a: Action)
    ensures s.sends <= Next(r, s, a).sends
  {
  }

  lemma RemoveSorted(t: seq<nat>, i: nat, n: nat)
    requires Sorted(t) && Below(t, n) && i < |t|
    ensures Sorted(Remove(t, i)) && Below(Remove(t, i), n)
  {
  }

  lemma BoundedStep(r: nat, s: Net, a: Action)
    requires Ordered(r, s) && Enabled(s, a)
    ensures Bounded(r, Next(r, s, a))
  {
    var u := Next(r, s, a);
    forall x: nat ensures Count(x, Trail(u)) <= Allowed(r, u.sender, x) {
      assert Count(x, Trail(s)) <= Allowed(r, s.sender, x);
      if a == StartSend && x == s.sends {
        CountAbsent(x, Trail(s));
      }
      CountStep(r, s, a, x);
    }
  }

  lemma CountStep(r: nat, s: Net, a: Action, x: nat)
    requires Enabled(s, a)
    ensures Count(x, Trail(Next(r, s, a))) <=
            Count(x, Trail(s)) + if a == Transmit && x == s.sender.send then 1 else 0
  {
    var t := Trail(Next(r, s, a));
    TrailStep(r, s, a);
    if a == Transmit {
      assert t == Trail(s) + [s.sender.send];
      CountSnoc(x, Trail(s), s.sender.send);
    } else if t != Trail(s) {
      var i :| 0 <= i < |Trail(s)| && t == Remove(Trail(s), i);
      CountRemove(x, Trail(s), i);
    }
  }

  lemma {:induction false} AlwaysOrdered(r: nat, acts: seq<Action>)
    ensures Ordered(r, Run(r, INITIAL, acts))
    decreases |acts|
  {
    if acts == [] {
      assert Trail(INITIAL) == [];
    } else {
      AlwaysOrdered(r, acts[..|acts|-1]);
      OrderedStep(r, Run(r, INITIAL, acts[..|acts|-1]), acts[|acts|-1]);
    }
  }

  /** How often each of the first `n` sends was accepted. */
  function Copies(log: seq<nat>, n: nat): (ks: seq<nat>)
    ensures |ks| == n
    ensures forall i: nat :: i < n ==> ks[i] == Count(i, log)
  {
    seq(n, (i: nat) => Count(i, log))
  }

  /** The messages themselves, in the order they were copied out. */
  function Received<T>(log: seq<nat>, msgs: seq<T>): (ms: seq<T>)
    requires Below(log, |msgs|)
    ensures |ms| == |log|
    ensures forall i :: 0 <= i < |log| ==> ms[i] == msgs[log[i]]
  {
    seq(|log|, i requires 0 <= i < |log| => msgs[log[i]])
  }

  /** One more copy of the last element that has any. */
  lemma {:induction false} ExpandOneMore<T>(xs: seq<T>, ks: seq<nat>, x: nat, n: nat)
    requires |xs| == |ks| && x < |xs| && n <= |xs|
    requires forall j :: x < j < |ks| ==> ks[j] == 0
    ensures Expand(xs, ks[x := ks[x] + 1], n) == Expand(xs, ks, n) + if x < n then [xs[x]] else []
  {
    if n > 0 {
      ExpandOneMore(xs, ks, x, n - 1);
      if x == n - 1 {
        assert Repeat(xs[x], ks[x] + 1) == Repeat(xs[x], ks[x]) + [xs[x]];
      } else if x < n - 1 {
        assert Repeat(xs[n-1], 0) == [];
      }
    }
  }

  lemma {:induction false} ExpandNothing<T>(xs: seq<T>, ks: seq<nat>, n: nat)
    requires |xs| == |ks| && n <= |xs| && forall i :: 0 <= i < |ks| ==> ks[i] == 0
    ensures Expand(xs, ks, n) == []
  {
    if n > 0 { ExpandNothing(xs, ks, n - 1); }
  }

  lemma CopiesSnoc(l: seq<nat>, x: nat, n: nat)
    requires x < n
    ensures Copies(l + [x], n) == Copies(l, n)[x := Copies(l, n)[x] + 1]
  {
    forall i: nat | i < n ensures Count(i, l + [x]) == Count(i, l) + if i == x then 1 else 0 {
      CountSnoc(i, l, x);
    }
  }

  lemma NoneAbove(l: seq<nat>, x: nat, n: nat)
    requires forall i :: 0 <= i < |l| ==> l[i] <= x
    ensures forall j :: x < j < n ==> Copies(l, n)[j] == 0
  {
    forall j: nat | x < j < n ensures Count(j, l) == 0 {
      CountAbsent(j, l);
    }
  }

  /** A log in send order is each message repeated as often as it was accepted. */
  lemma {:induction false} SortedLogExpands<T>(log: seq<nat>, msgs: seq<T>)
    requires Sorted(log) && Below(log, |msgs|)
    ensures Received(log, msgs) == Expand(msgs, Copies(log, |msgs|), |msgs|)
    decreases |log|
  {
    if log == [] {
      ExpandNothing(msgs, Copies(log, |msgs|), |msgs|);
    } else {
      var l, x := log[..|log|-1], log[|log|-1];
      SortedLogExpands(l, msgs);
      ReceivedSnoc(l, x, msgs);
      ExpandSnoc(l, x, msgs);
      assert log == l + [x];
    }
  }

  lemma ExpandSnoc<T>(l: seq<nat>, x: nat, msgs: seq<T>)
    requires x < |msgs| && forall i :: 0 <= i < |l| ==> l[i] <= x
    ensures Expand(msgs, Copies(l + [x], |msgs|), |msgs|) == Expand(msgs, Copies(l, |msgs|), |msgs|) + [msgs[x]]
  {
    var n := |msgs|;
    var ks, more := Copies(l, n), Copies(l + [x], n);
    assert more == ks[x := ks[x] + 1] by { CopiesSnoc(l, x, n); }
    assert forall j :: x < j < n ==> ks[j] == 0 by { NoneAbove(l, x, n); }
    ExpandOneMore(msgs, ks, x, n);
  }

  lemma ReceivedSnoc<T>(l: seq<nat>, x: nat, msgs: seq<T>)
    requires Below(l, |msgs|) && x < |msgs|
    ensures Received(l + [x], msgs) == Received(l, msgs) + [msgs[x]]
  {
  }

  /** Under every schedule of loss, corruption, delay and timeout: the receiver
      accepts m1^k1 m2^k2 ..., in send order, with no ki above the retry limit. */
  lemma LogStutters<T>(r: nat, acts: seq<Action>, msgs: seq<T>)
    requires Run(r, INITIAL, acts).sends == |msgs|
    ensures var s := Run(r, INITIAL, acts);
      && Below(s.log, |msgs|)
      && Received(s.log, msgs) == Expand(msgs, Copies(s.log, |msgs|), |msgs|)
      && forall i :: 0 <= i < |msgs| ==> Copies(s.log, |msgs|)[i] <= r
  {
    AlwaysOrdered(r, acts);
    var s := Run(r, INITIAL, acts);
    LogPart(r, s);
    SortedLogExpands(s.log, msgs);
  }

  lemma LogPart(r: nat, s: Net)
    requires Ordered(r, s)
    ensures Sorted(s.log) && Below(s.log, s.sends)
    ensures forall i: nat :: Count(i, s.log) <= r
  {
    assert forall i :: 0 <= i < |s.log| ==> s.log[i] == Trail(s)[i];
    forall i: nat ensures Count(i, s.log) <= r {
      CountConcat(i, s.log, Tags(s.data));
      assert Count(i, Trail(s)) <= Allowed(r, s.sender, i);
    }
  }

  // ---------------------------------------------------------------------------
  // A channel that drops but does not delay

  predicate Settled(s: Net) {
    s.data == [] && s.replies == []
  }

  /** The sender gives up waiting only when nothing is left in flight. */
  predicate Prompt(r: nat, s: Net, acts: seq<Action>)
    decreases |acts|
  {
    acts == [] ||
    var before := acts[..|acts|-1];
    Prompt(r, s, before) && (acts[|acts|-1].Timeout? ==> Settled(Run(r, s, before)))
  }

  lemma {:induction false} PromptConcat(r: nat, s: Net, a: seq<Action>, b: seq<Action>)
    requires Prompt(r, s, a) && Prompt(r, Run(r, s, a), b)
    ensures Prompt(r, s, a + b)
    decreases |b|
  {
    if b == [] {
      assert a + b == a;
    } else {
      var n := |b| - 1;
      assert (a + b)[..|a| + n] == a + b[..n];
      PromptConcat(r, s, a, b[..n]);
      RunConcat(r, s, a, b[..n]);
    }
  }

  /** Stop and wait: one frame at a time. */
  predicate InStep(s: Net) {
    if s.sender.Awaiting? then |s.data| + |s.replies| <= 1 else Settled(s)
  }

  /** If nothing is late and the far end sends nothing of its own, then every send
      starts clean. */
  lemma {:induction false} PromptIsClean(r: nat, s: Net, acts: seq<Action>)
    requires Settled(s) && Prompt(r, s, acts) && Interject !in acts
    ensures InStep(Run(r, s, acts)) && CleanStarts(r, s, acts)
    decreases |acts|
  {
    if acts != [] {
      assert forall a :: a in acts[..|acts|-1] ==> a in acts;
      assert acts[|acts|-1] in acts;
      PromptIsClean(r, s, acts[..|acts|-1]);
    } else {
      assert InStep(s);
    }
  }

  // ---------------------------------------------------------------------------
  // Sends that start clean

  /** An ACK for an earlier send is in flight, or a frame that will cause one. */
  predicate StaleAck(s: Net) {
    Ack in s.replies || exists i :: 0 <= i < |s.data| && s.data[i].intact
  }

  /** Whenever a send begins, no ACK is left over from an earlier one. Frames may be
      lost, damaged or late, and the far end may send frames of its own. */
  predicate CleanStarts(r: nat, s: Net, acts: seq<Action>)
    decreases |acts|
  {
    acts == [] ||
    var before := acts[..|acts|-1];
    CleanStarts(r, s, before) &&
    (acts[|acts|-1].StartSend? && Run(r, s, before).sender.Idle? ==> !StaleAck(Run(r, s, before)))
  }

  /** From send number `n` on: every ACK is the current send's, and whoever reported
      success was accepted. */
  predicate OwnAcks(n: nat, s: Net) {
    && Numbered(s) && n <= s.sends
    && (!s.sender.Idle? ==>
          && n <= s.sender.send
          && (forall i :: 0 <= i < |s.data| && s.data[i].intact ==> s.data[i].send == s.sender.send)
          && (Ack in s.replies ==> s.sender.send in s.log))
    && (forall i: nat :: n <= i < |s.outcomes| && s.outcomes[i] ==> i in s.log)
  }

  lemma OwnAcksStep(r: nat, n: nat, s: Net, a: Action)
    requires OwnAcks(n, s) && (a.StartSend? && s.sender.Idle? ==> !StaleAck(s))
    ensures OwnAcks(n, Next(r, s, a))
  {
    if Enabled(s, a) {
      var t := Next(r, s, a);
      NumberedStep(r, s, a);
      assert forall x :: x in s.log ==> x in t.log;
      match a
      case Deliver => DeliverOwn(n, s);
      case ReadReply => assert s.replies[0] in s.replies;
      case _ =>
    }
  }

  lemma DeliverOwn(n: nat, s: Net)
    requires OwnAcks(n, s) && s.data != []
    ensures OwnAcks(n, DeliverFrame(s))
  {
    var t := DeliverFrame(s);
    assert forall x :: x in s.log ==> x in t.log;
    assert s.data[0].intact ==> t.log[|s.log|] == s.data[0].send;
  }

  /** In a run from an idle state whose sends start clean, a send that reports success
      was accepted at least once. */
  lemma {:induction false} CleanSuccess(r: nat, s: Net, acts: seq<Action>)
    requires Numbered(s) && s.sender.Idle? && CleanStarts(r, s, acts)
    ensures var t := Run(r, s, acts);
      OwnAcks(s.sends, t) &&
      forall i: nat :: s.sends <= i < |t.outcomes| && t.outcomes[i] ==> Count(i, t.log) >= 1
    decreases |acts|
  {
    var t := Run(r, s, acts);
    if acts != [] {
      CleanSuccess(r, s, acts[..|acts|-1]);
      OwnAcksStep(r, s.sends, Run(r, s, acts[..|acts|-1]), acts[|acts|-1]);
    }
    forall i: nat | s.sends <= i < |t.outcomes| && t.outcomes[i] ensures Count(i, t.log) >= 1 {
      CountPresent(i, t.log);
    }
  }

  lemma CountPresent(x: nat, s: seq<nat>)
    requires x in s
    ensures Count(x, s) >= 1
  {
    var i :| 0 <= i < |s| && s[i] == x;
    CountRemove(x, s, i);
  }

  // ---------------------------------------------------------------------------
  // When "success" means "delivered"

  /** The run is one call of linkSendRetry from `s` that reports success although
      its message was not accepted. */
  predicate Misled(r: nat, s: Net, acts: seq<Action>) {
    var t := Run(r, s, acts);
    && OneSend(acts)
    && |t.outcomes| > |s.outcomes| && t.outcomes[|s.outcomes|]
    && s.sends !in t.log
  }

  predicate OneSend(acts: seq<Action>) {
    acts != [] && acts[0].StartSend? && forall i :: 0 < i < |acts| ==> !acts[i].StartSend?
  }

  lemma {:induction false} OneSendIsClean(r: nat, s: Net, acts: seq<Action>)
    requires OneSend(acts) && !StaleAck(s)
    ensures CleanStarts(r, s, acts)
    decreases |acts|
  {
    if |acts| > 1 {
      OneSendIsClean(r, s, acts[..|acts|-1]);
    } else {
      assert acts[..|acts|-1] == [];
    }
  }

  lemma {:induction false} LoseReplies(r: nat, s: Net, k: nat)
    requires k <= |s.replies|
    ensures var t := Run(r, s, Repeat(LoseReply(0), k));
      t == s.(replies := s.replies[k..], acksLost := t.acksLost)
  {
    if k > 0 {
      LoseReplies(r, s, k - 1);
      assert Repeat(LoseReply(0), k)[..k-1] == Repeat(LoseReply(0), k - 1);
    }
  }

  lemma {:induction false} LoseFrames(r: nat, s: Net, k: nat)
    requires k <= |s.data|
    ensures Run(r, s, Repeat(LoseData(0), k)) == s.(data := s.data[k..])
  {
    if k > 0 {
      LoseFrames(r, s, k - 1);
      assert Repeat(LoseData(0), k)[..k-1] == Repeat(LoseData(0), k - 1);
    }
  }

  lemma RunTwo(r: nat, s: Net, a: Action, b: Action)
    ensures Run(r, s, [a, b]) == Next(r, Next(r, s, a), b)
  {
    assert [a, b][..1] == [a] && [a][..0] == [];
    assert Run(r, s, [a]) == Next(r, s, a);
  }

  lemma RunOne(r: nat, s: Net, a: Action)
    ensures Run(r, s, [a]) == Next(r, s, a)
  {
    assert [a][..0] == [];
  }

  /** From a state that awaits a reply, with an ACK in flight: lose what is before it. */
  lemma ReadAckAt(r: nat, s: Net, j: nat) returns (acts: seq<Action>)
    requires s.sender.Awaiting? && j < |s.replies| && s.replies[j] == Ack
    ensures forall i :: 0 <= i < |acts| ==> !acts[i].StartSend?
    ensures var t := Run(r, s, acts); t.log == s.log && t.outcomes == s.outcomes + [true]
  {
    var lost := Repeat(LoseReply(0), j);
    LoseReplies(r, s, j);
    RunOne(r, Run(r, s, lost), ReadReply);
    RunConcat(r, s, lost, [ReadReply]);
    acts := lost + [ReadReply];
  }

  /** The same when the ACK is still to be caused by the intact frame `j`. */
  lemma DeliverAndReadAck(r: nat, s: Net, j: nat) returns (acts: seq<Action>)
    requires s.sender.Awaiting? && j < |s.data| && s.data[j].intact
    ensures forall i :: 0 <= i < |acts| ==> !acts[i].StartSend?
    ensures var t := Run(r, s, acts); t.log == s.log + [s.data[j].send] && t.outcomes == s.outcomes + [true]
  {
    var lost := Repeat(LoseData(0), j);
    LoseFrames(r, s, j);
    var s1 := Run(r, s, lost);
    var s2 := Next(r, s1, Deliver);
    RunOne(r, s1, Deliver);
    var rest := ReadAckAt(r, s2, |s.replies|);
    RunConcat(r, s, lost, [Deliver]);
    RunConcat(r, s, lost + [Deliver], rest);
    acts := lost + [Deliver] + rest;
  }

  /** A stale ACK can be taken for this send's: it is enough that the frames and
      replies before it, and this send's own frame, are lost or slow. */
  lemma Misleading(r: nat, s: Net) returns (acts: seq<Action>)
    requires Ordered(r, s) && s.sender.Idle? && r > 0 && StaleAck(s)
    ensures Misled(r, s, acts)
  {
    var begin := [StartSend, Transmit];
    RunTwo(r, s, StartSend, Transmit);
    var s1 := Run(r, s, begin);
    LogPart(r, s);
    var rest: seq<Action>;
    if Ack in s.replies {
      var j :| 0 <= j < |s.replies| && s.replies[j] == Ack;
      rest := ReadAckAt(r, s1, j);
    } else {
      var j :| 0 <= j < |s.data| && s.data[j].intact;
      assert s.data[j].send == Trail(s)[|s.log| + j];
      rest := DeliverAndReadAck(r, s1, j);
    }
    RunConcat(r, s, begin, rest);
    acts := begin + rest;
  }

  /** "Returned its length" means "was accepted", under every continuation, exactly
      when no ACK can be left over from an earlier send. */
  lemma SuccessMeansDeliveredIff(r: nat, s: Net)
    requires Ordered(r, s) && s.sender.Idle? && r > 0
    ensures (forall acts :: !Misled(r, s, acts)) <==> !StaleAck(s)
  {
    if StaleAck(s) {
      var acts := Misleading(r, s);
    } else {
      forall acts ensures !Misled(r, s, acts) {
        if OneSend(acts) {
          OneSendIsClean(r, s, acts);
          CleanSuccess(r, s, acts);
        }
      }
    }
  }

  /** Such an idle state is reachable: the sender gives up on a frame that is slow. */
  lemma StaleAckReached()
    ensures var s := Run(1, INITIAL, [StartSend, Transmit] + [Timeout]);
      s.sender.Idle? && StaleAck(s) && s.outcomes == [false]
  {
    RunTwo(1, INITIAL, StartSend, Transmit);
    var s := Run(1, INITIAL, [StartSend, Transmit]);
    RunOne(1, s, Timeout);
    RunConcat(1, INITIAL, [StartSend, Transmit], [Timeout]);
    assert Next(1, s, Timeout).data[0].intact;
  }

  // ---------------------------------------------------------------------------
  // A settled link is as good as new

  function Shift(n: nat, sender: Sender): Sender {
    match sender
    case Idle => Idle
    case Ready(send, attempts) => Ready(n + send, attempts)
    case Awaiting(send, attempts) => Awaiting(n + send, attempts)
  }

  function ShiftFrames(n: nat, data: seq<Frame>): (d: seq<Frame>)
    ensures |d| == |data|
    ensures forall i :: 0 <= i < |data| ==> d[i] == Frame(n + data[i].send, data[i].intact)
  {
    seq(|data|, i requires 0 <= i < |data| => Frame(n + data[i].send, data[i].intact))
  }

  function ShiftLog(n: nat, log: seq<nat>): (d: seq<nat>)
    ensures |d| == |log|
    ensures forall i :: 0 <= i < |log| ==> d[i] == n + log[i]
  {
    seq(|log|, i requires 0 <= i < |log| => n + log[i])
  }

  /** The state `s` of a link that had come to `base` before. */
  function Over(base: Net, s: Net): Net {
    Net(Shift(base.sends, s.sender), base.sends + s.sends, base.outcomes + s.outcomes,
        ShiftFrames(base.sends, s.data), s.replies, base.log + ShiftLog(base.sends, s.log),
        base.acksSent + s.acksSent, base.acksRead + s.acksRead, base.acksLost + s.acksLost)
  }

  lemma OverUnacknowledged(r: nat, base: Net, s: Net)
    requires !s.sender.Idle?
    ensures Unacknowledged(r, Over(base, s)) == Over(base, Unacknowledged(r, s))
  {
    assert base.outcomes + s.outcomes + [false] == base.outcomes + (s.outcomes + [false]);
  }

  lemma OverDeliver(base: Net, s: Net)
    requires s.data != []
    ensures DeliverFrame(Over(base, s)) == Over(base, DeliverFrame(s))
  {
    var t := DeliverFrame(s);
    assert ShiftFrames(base.sends, t.data) == Remove(ShiftFrames(base.sends, s.data), 0);
    if s.data[0].intact {
      assert base.log + ShiftLog(base.sends, t.log) ==
             base.log + ShiftLog(base.sends, s.log) + [base.sends + s.data[0].send];
    }
  }

  lemma OverRead(r: nat, base: Net, s: Net)
    requires s.sender.Awaiting? && s.replies != []
    ensures Read(r, Over(base, s)) == Over(base, Read(r, s))
  {
    var t := s.(replies := Remove(s.replies, 0));
    if s.replies[0].Ack? {
      assert base.outcomes + s.outcomes + [true] == base.outcomes + (s.outcomes + [true]);
    } else {
      OverUnacknowledged(r, base, t);
    }
  }

  lemma OverStep(r: nat, base: Net, s: Net, a: Action)
    ensures Next(r, Over(base, s), a) == Over(base, Next(r, s, a))
  {
    if Enabled(s, a) {
      match a
      case StartSend => OverUnacknowledged(r, base, s.(sender := Ready(s.sends, 0), sends := s.sends + 1));
      case Transmit => OverTransmit(base, s);
      case LoseData(i) =>
        assert ShiftFrames(base.sends, Remove(s.data, i)) == Remove(ShiftFrames(base.sends, s.data), i);
      case CorruptData(i) => OverCorrupt(r, base, s, i);
      case Deliver => OverDeliver(base, s);
      case LoseReply(i) =>
      case Interject =>
      case ReadReply => OverRead(r, base, s);
      case Timeout => OverUnacknowledged(r, base, s);
    }
  }

  lemma OverTransmit(base: Net, s: Net)
    requires s.sender.Ready?
    ensures TransmitFrame(Over(base, s)) == Over(base, TransmitFrame(s))
  {
    assert ShiftFrames(base.sends, s.data + [Frame(s.sender.send, true)]) ==
           ShiftFrames(base.sends, s.data) + [Frame(base.sends + s.sender.send, true)];
  }

  lemma OverCorrupt(r: nat, base: Net, s: Net, i: nat)
    requires i < |s.data|
    ensures Next(r, Over(base, s), CorruptData(i)) == Over(base, Next(r, s, CorruptData(i)))
  {
    var bad := s.data[i].(intact := false);
    assert ShiftFrames(base.sends, s.data[i := bad]) ==
           ShiftFrames(base.sends, s.data)[i := Frame(base.sends + s.data[i].send, false)];
  }

  /** A run from an idle, settled state is a run from the start, on top of it. */
  lemma {:induction false} AsGoodAsNew(r: nat, base: Net, acts: seq<Action>)
    requires base.sender.Idle? && Settled(base)
    ensures Run(r, base, acts) == Over(base, Run(r, INITIAL, acts))
    decreases |acts|
  {
    if acts == [] {
      assert ShiftLog(base.sends, []) == [] && ShiftFrames(base.sends, []) == [];
      assert base.log + [] == base.log && base.outcomes + [] == base.outcomes;
    } else {
      AsGoodAsNew(r, base, acts[..|acts|-1]);
      OverStep(r, base, Run(r, INITIAL, acts[..|acts|-1]), acts[|acts|-1]);
    }
  }

  lemma {:induction false} CleanFromStart(r: nat, base: Net, acts: seq<Action>)
    requires base.sender.Idle? && Settled(base)
    ensures CleanStarts(r, base, acts) <==> CleanStarts(r, INITIAL, acts)
    decreases |acts|
  {
    if acts != [] {
      var before := acts[..|acts|-1];
      CleanFromStart(r, base, before);
      AsGoodAsNew(r, base, before);
      OverStale(base, Run(r, INITIAL, before));
    }
  }

  lemma OverStale(base: Net, s: Net)
    ensures StaleAck(Over(base, s)) <==> StaleAck(s)
  {
    var d := Over(base, s).data;
    assert forall i :: 0 <= i < |d| ==> d[i].intact == s.data[i].intact;
    if j :| 0 <= j < |s.data| && s.data[j].intact { assert d[j].intact; }
  }

  /** What was accepted after `base`, numbered from there. */
  function Since(base: Net, t: Net): (log: seq<nat>)
    requires |base.log| <= |t.log|
  {
    seq(|t.log| - |base.log|, i requires 0 <= i < |t.log| - |base.log| =>
      if base.sends <= t.log[|base.log| + i] then t.log[|base.log| + i] - base.sends else 0)
  }

  lemma SinceOver(base: Net, s: Net)
    ensures Since(base, Over(base, s)) == s.log
  {
  }
}
