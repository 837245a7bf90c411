/** Two ends of AmiLink in lock-step: each gets exactly the bytes the other one sends, and
    the only loss is what their injectors drop. */
module Dialogue {
  import opened Bytes
  import opened Slip
  import opened Socket
  import opened AmiLink

  /** The bytes, one poll each. */
  function Delivered(bytes: seq<byte>): (polls: seq<Poll>)
    ensures |polls| == |bytes|
  {
    seq(|bytes|, i requires 0 <= i < |bytes| => Got(bytes[i]))
  }

  lemma {:induction false} DeliveredArrives(bytes: seq<byte>)
    ensures Arrived(Delivered(bytes)) == bytes && Idle(Delivered(bytes)) == 0
    decreases |bytes|
  {
    if bytes != [] {
      assert Delivered(bytes)[1..] == Delivered(bytes[1..]);
      DeliveredArrives(bytes[1..]);
    }
  }

  /** A heartbeat's bytes, as they come, are a heartbeat. */
  lemma HeartbeatArrives(w: Wire)
    requires Readable(w) && 0 < w.timeout
    ensures Heartbeats(w, [Delivered(Encode(Control(w, HEARTBEAT)))])
  {
    DeliveredArrives(Encode(Control(w, HEARTBEAT)));
  }

  /** One attempt of both ends: each gets exactly the bytes the other one sent. `k'` is
      the receiver's loss interval. */
  function DuplexAttempt(w: Wire, k': int, snd: Conn, rcv: Conn, m: seq<byte>, message: seq<byte>): (r: Both)
    requires IsMessage(w, message)
  {
    var sent := Transmit(snd, DataFrame(w, m)).outbox[|snd.outbox|..];
    var (length, copy, r) := MessageRead(w.(lossInterval := k'), rcv.(inbox := Delivered(sent)), message);
    var answer := r.outbox[|rcv.outbox|..];
    var (n, s) := SendData(w, snd.(inbox := Delivered(answer)), m);
    Both(n, if 0 < length <= |copy| then [copy[..length]] else [], s, r)
  }

  /** What the sender returns, the messages the receiver's handler is given (its buffer up
      to the length that was read), and both ends afterwards. */
  datatype Both = Both(dataSent: nat, handled: seq<seq<byte>>, snd: Conn, rcv: Conn)

  /** The retry loop around a turn that sends `size` bytes when it succeeds. */
  function Retried(turn: (Conn, Conn) -> Both, r: nat, size: nat, snd: Conn, rcv: Conn, retry: nat, dataSent: nat): Both
    decreases r - retry
  {
    if retry < r && size != dataSent then
      var b := turn(snd, rcv);
      var c := Retried(turn, r, size, b.snd, b.rcv, retry + 1, b.dataSent);
      c.(handled := b.handled + c.handled)
    else Both(dataSent, [], snd, rcv)
  }

  /** linkSendRetry against a receiver that stays in readMessage: its handler does not
      answer this message. */
  function Duplex(w: Wire, k': int, snd: Conn, rcv: Conn, m: seq<byte>, message: seq<byte>): Both
    requires IsMessage(w, message)
  {
    Retried((s, t) => DuplexAttempt(w, k', s, t, m, message), w.retryMax, |m|, snd, rcv, 0, 0)
  }

  predicate Perfect(c: Conn) {
    c.outcomes == []
  }

  lemma FrameDelivered(w: Wire, c: Conn, f: seq<byte>)
    requires |f| <= w.maxFrame && 0 < w.timeout && !IsHeartbeat(w, f)
    requires c.inbox == Delivered(Encode(f))
    ensures NextFrame(w, c.inbox) == (f, [])
  {
    DeliveredArrives(Encode(f));
    ReadsBack(c.inbox, [], f, w.maxFrame, w.timeout);
    assert c.inbox + [] == c.inbox;
  }

  lemma ReceiverAttempt(w: Wire, rcv: Conn, m: seq<byte>, message: seq<byte>)
    requires Readable(w) && IsMessage(w, message) && |m| <= |message| && 0 < w.timeout && Perfect(rcv)
    requires rcv.inbox == Delivered(Encode(DataFrame(w, m)))
    ensures var (length, copy, r) := MessageRead(w, rcv, message);
      var (lost, run) := Inject(w.lossInterval, rcv.lossFreeRun);
      && r == Conn([], [], rcv.outbox + (if lost then [] else Encode(Control(w, ACK))), run)
      && length == (if lost then 0 else |m|) && (!lost ==> copy[..|m|] == m)
  {
    DataFrameReads(w, m);
    FrameDelivered(w, rcv, DataFrame(w, m));
    var answer := Encode(Control(w, ACK));
    assert answer[..|answer|] == answer;
  }

  lemma SenderAttempt(w: Wire, snd: Conn, m: seq<byte>, answered: bool)
    requires Readable(w) && |m| > 0 && 0 < w.timeout && Perfect(snd)
    requires snd.inbox == if answered then Delivered(Encode(Control(w, ACK))) else []
    ensures var (n, s) := SendData(w, snd, m);
      var (lost, run) := Inject(w.lossInterval, snd.lossFreeRun);
      && n == (if answered && !lost then |m| else 0)
      && s == Conn([], [], snd.outbox + Encode(DataFrame(w, m)), run)
  {
    var bytes := Encode(DataFrame(w, m));
    assert bytes[..|bytes|] == bytes;
    HeaderAlone(w, ACK);
    if answered {
      FrameDelivered(w, Transmit(snd, DataFrame(w, m)), Control(w, ACK));
    }
  }

  /** An attempt succeeds when neither injector fires, hands over the message when the
      receiver's does not, and shows each injector one frame. */
  lemma AttemptOutcome(w: Wire, k': int, snd: Conn, rcv: Conn, m: seq<byte>, message: seq<byte>)
    requires Readable(w) && IsMessage(w, message) && 0 < |m| <= |message| && 0 < w.timeout
    requires Perfect(snd) && Perfect(rcv)
    ensures var b := DuplexAttempt(w, k', snd, rcv, m, message);
      var (ackLost, run) := Inject(w.lossInterval, snd.lossFreeRun);
      var (dataLost, run') := Inject(k', rcv.lossFreeRun);
      && b.dataSent == (if !ackLost && !dataLost then |m| else 0)
      && b.handled == (if dataLost then [] else [m])
      && b.snd.lossFreeRun == run && b.rcv.lossFreeRun == run'
      && Perfect(b.snd) && Perfect(b.rcv)
  {
    var bytes := Encode(DataFrame(w, m));
    var sent := Transmit(snd, DataFrame(w, m)).outbox[|snd.outbox|..];
    assert sent == bytes by { assert bytes[..|bytes|] == bytes; }
    var w' := w.(lossInterval := k');
    SameFrames(w, w', m);
    ReceiverAttempt(w', rcv.(inbox := Delivered(sent)), m, message);
    var r := MessageRead(w', rcv.(inbox := Delivered(sent)), message).2;
    var heard := !Inject(k', rcv.lossFreeRun).0;
    assert r.outbox[|rcv.outbox|..] == if heard then Encode(Control(w, ACK)) else [];
    SenderAttempt(w, snd.(inbox := Delivered(r.outbox[|rcv.outbox|..])), m, heard);
  }

  /** An attempt whose DATA frame arrives as another one, `came`. */
  function DamagedAttempt(w: Wire, k': int, snd: Conn, rcv: Conn, m: seq<byte>,
                          message: seq<byte>, came: seq<byte>): Both
    requires IsMessage(w, message)
  {
    var (length, copy, r) := MessageRead(w.(lossInterval := k'), rcv.(inbox := Delivered(Encode(came))), message);
    var answer := r.outbox[|rcv.outbox|..];
    var (n, s) := SendData(w, snd.(inbox := Delivered(answer)), m);
    Both(n, if 0 < length <= |copy| then [copy[..length]] else [], s, r)
  }

  /** If its CRC is not that of its data, the receiver NACKs it and the sender does not take
      that for success, whatever the injectors do. But unless its injector fires, the receiver's
      handler is called all the same, with what the buffer held before. */
  lemma DamagedFails(w: Wire, k': int, snd: Conn, rcv: Conn, m: seq<byte>, message: seq<byte>, crc: Crc16, d: seq<byte>)
    requires Readable(w) && IsMessage(w, message) && 0 < |m| && 0 < w.timeout
    requires Perfect(snd) && Perfect(rcv) && 0 < |d| <= |message| && crc != w.crc16(d)
    ensures var b := DamagedAttempt(w, k', snd, rcv, m, message, w.header(crc, DATA) + d);
      var (ignored, run') := Inject(k', rcv.lossFreeRun);
      && b.dataSent == 0 && b.handled == (if ignored then [] else [message[..|d|]])
      && b.rcv.outbox == rcv.outbox + (if ignored then [] else Encode(w.header(w.seed, NACK)))
      && b.snd.lossFreeRun == Inject(w.lossInterval, snd.lossFreeRun).1 && b.rcv.lossFreeRun == run'
      && Perfect(b.snd) && Perfect(b.rcv)
  {
    var w' := w.(lossInterval := k');
    SameFrames(w, w', m);
    DamagedReceiver(w', rcv.(inbox := Delivered(Encode(w.header(crc, DATA) + d))), message, crc, d);
    if Inject(k', rcv.lossFreeRun).0 {
      SenderAttempt(w, snd.(inbox := []), m, false);
    } else {
      NackedSender(w, snd.(inbox := Delivered(Encode(w.header(w.seed, NACK)))), m);
    }
  }

  lemma DamagedReceiver(w: Wire, rcv: Conn, message: seq<byte>, crc: Crc16, d: seq<byte>)
    requires Readable(w) && IsMessage(w, message) && 0 < w.timeout && Perfect(rcv)
    requires 0 < |d| <= |message| && crc != w.crc16(d) && rcv.inbox == Delivered(Encode(w.header(crc, DATA) + d))
    ensures var (ignored, run) := Inject(w.lossInterval, rcv.lossFreeRun);
      MessageRead(w, rcv, message) ==
        (if ignored then 0 else |d|, message,
         Conn([], [], rcv.outbox + (if ignored then [] else Encode(w.header(w.seed, NACK))), run))
  {
    FrameComing(w, rcv, crc, DATA, d);
    MessageMeans(w, rcv, message, ([], rcv.inbox, []), crc, DATA, d);
    assert rcv.outbox + [] == rcv.outbox;
  }

  lemma NackedSender(w: Wire, snd: Conn, m: seq<byte>)
    requires Readable(w) && |m| > 0 && 0 < w.timeout && Perfect(snd)
    requires snd.inbox == Delivered(Encode(w.header(w.seed, NACK)))
    ensures SendData(w, snd, m) ==
      (0, Conn([], [], snd.outbox + Encode(DataFrame(w, m)), Inject(w.lossInterval, snd.lossFreeRun).1))
  {
    var bytes := Encode(DataFrame(w, m));
    assert bytes[..|bytes|] == bytes;
    assert w.header(w.seed, NACK) + [] == w.header(w.seed, NACK);
    FrameComing(w, snd, w.seed, NACK, []);
    AckMeans(w, snd, m, ([], snd.inbox, []), w.seed, NACK, []);
  }

  lemma FrameComing(w: Wire, c: Conn, crc: Crc16, k: Cmd, d: seq<byte>)
    requires Readable(w) && !k.Other? && w.headerSize + |d| <= w.maxFrame && !(k == HEARTBEAT && d == [])
    requires 0 < w.timeout && c.inbox == Delivered(Encode(w.header(crc, k) + d))
    ensures BringsFrame(w, c, ([], c.inbox, []), crc, k, d)
  {
    DeliveredArrives(Encode(w.header(crc, k) + d));
    assert Flatten([]) + (c.inbox + []) == c.inbox;
  }

  lemma SameFrames(w: Wire, w': Wire, m: seq<byte>)
    requires Readable(w) && w' == w.(lossInterval := w'.lossInterval)
    ensures Readable(w') && DataFrame(w, m) == DataFrame(w', m) && Control(w, ACK) == Control(w', ACK)
  {
  }

  /** What the two loss counters make of the attempts that are left. */
  datatype Tally = Tally(returned: bool, copies: nat, run: nat, run': nat)

  function Tries(k: int, run: nat, k': int, run': nat, attempts: nat): (t: Tally)
    ensures t.returned <==> LockStep(k, run, k', run', attempts)
    decreases attempts
  {
    if attempts == 0 then Tally(false, 0, run, run')
    else
      var (ackLost, next) := Inject(k, run);
      var (dataLost, next') := Inject(k', run');
      if !ackLost && !dataLost then Tally(true, 1, next, next')
      else
        var t := Tries(k, next, k', next', attempts - 1);
        t.(copies := t.copies + if dataLost then 0 else 1)
  }

  /** A send of `m` that hands it over each time a copy comes through. */
  predicate Meets(m: seq<byte>, d: Both, t: Tally) {
    && d.dataSent == (if t.returned then |m| else 0)
    && d.handled == Repeat(m, t.copies)
    && d.snd.lossFreeRun == t.run && d.rcv.lossFreeRun == t.run'
    && Perfect(d.snd) && Perfect(d.rcv)
  }

  /** Every turn comes out as the counters have it. */
  ghost predicate Decided(turn: (Conn, Conn) -> Both, k: int, k': int, m: seq<byte>) {
    forall snd, rcv :: Perfect(snd) && Perfect(rcv) ==>
      Meets(m, turn(snd, rcv), Tries(k, snd.lossFreeRun, k', rcv.lossFreeRun, 1))
  }

  lemma {:induction false} RetriedOutcome(turn: (Conn, Conn) -> Both, r: nat, k: int, k': int, m: seq<byte>,
                                          snd: Conn, rcv: Conn, retry: nat)
    requires Decided(turn, k, k', m) && |m| > 0
    requires Perfect(snd) && Perfect(rcv) && retry <= r
    ensures Meets(m, Retried(turn, r, |m|, snd, rcv, retry, 0),
                  Tries(k, snd.lossFreeRun, k', rcv.lossFreeRun, r - retry))
    decreases r - retry
  {
    if retry < r {
      var b := turn(snd, rcv);
      var c := Retried(turn, r, |m|, b.snd, b.rcv, retry + 1, b.dataSent);
      var one := Tries(k, snd.lossFreeRun, k', rcv.lossFreeRun, 1);
      assert Meets(m, b, one);
      if b.dataSent == 0 {
        RetriedOutcome(turn, r, k, k', m, b.snd, b.rcv, retry + 1);
        var t := Tries(k, b.snd.lossFreeRun, k', b.rcv.lossFreeRun, r - retry - 1);
        MoreCopies(m, b, c, t, one.copies);
      } else {
        assert c == Both(|m|, [], b.snd, b.rcv);
        assert b.handled + c.handled == b.handled;
      }
    }
  }

  lemma MoreCopies(m: seq<byte>, b: Both, c: Both, t: Tally, copies: nat)
    requires Meets(m, c, t) && b.handled == Repeat(m, copies)
    ensures Meets(m, c.(handled := b.handled + c.handled), t.(copies := t.copies + copies))
  {
  }

  lemma DuplexDecided(w: Wire, k': int, m: seq<byte>, message: seq<byte>)
    requires Readable(w) && IsMessage(w, message) && 0 < |m| <= |message| && 0 < w.timeout
    ensures Decided((s, t) => DuplexAttempt(w, k', s, t, m, message), w.lossInterval, k', m)
  {
    forall s, t | Perfect(s) && Perfect(t)
      ensures Meets(m, DuplexAttempt(w, k', s, t, m, message),
                    Tries(w.lossInterval, s.lossFreeRun, k', t.lossFreeRun, 1))
    {
      AttemptOutcome(w, k', s, t, m, message);
    }
  }

  /** linkSendRetry for a message that is not answered, with injected loss at both ends
      and no other: it returns the length exactly when the counters leave a gap, and hands
      the message over as often as they let a DATA frame through. */
  lemma DuplexOutcome(w: Wire, k': int, snd: Conn, rcv: Conn, m: seq<byte>, message: seq<byte>)
    requires Readable(w) && IsMessage(w, message) && 0 < |m| <= |message| && 0 < w.timeout
    requires Perfect(snd) && Perfect(rcv)
    ensures var t := Tries(w.lossInterval, snd.lossFreeRun, k', rcv.lossFreeRun, w.retryMax);
      Meets(m, Duplex(w, k', snd, rcv, m, message), t) &&
      (t.returned <==> LockStep(w.lossInterval, snd.lossFreeRun, k', rcv.lossFreeRun, w.retryMax))
  {
    DuplexDecided(w, k', m, message);
    RetriedOutcome((s, t) => DuplexAttempt(w, k', s, t, m, message), w.retryMax, w.lossInterval, k', m, snd, rcv, 0);
  }

  // ---------------------------------------------------------------------------
  // A message that is answered

  /** An attempt while the other end is in linkSendRetry too, for its answer: each readAck
      meets the DATA frame of the other end. */
  function CrossedAttempt(w: Wire, k': int, snd: Conn, rcv: Conn, m: seq<byte>, reply: seq<byte>): Both {
    var sent := Transmit(snd, DataFrame(w, m)).outbox[|snd.outbox|..];
    var answer := Transmit(rcv, DataFrame(w, reply)).outbox[|rcv.outbox|..];
    var (n, s) := SendData(w, snd.(inbox := Delivered(answer)), m);
    var (_, r) := SendData(w.(lossInterval := k'), rcv.(inbox := Delivered(sent)), reply);
    Both(n, [], s, r)
  }

  lemma MeetsData(w: Wire, snd: Conn, m: seq<byte>, other: seq<byte>)
    requires Readable(w) && 0 < w.timeout && Perfect(snd)
    requires m != [] && 0 < |other| <= w.maxFrame - w.headerSize
    requires snd.inbox == Delivered(Encode(DataFrame(w, other)))
    ensures SendData(w, snd, m) ==
      (0, Conn([], [], snd.outbox + Encode(DataFrame(w, m)), Inject(w.lossInterval, snd.lossFreeRun).1))
  {
    var bytes := Encode(DataFrame(w, m));
    assert bytes[..|bytes|] == bytes;
    DataFrameReads(w, other);
    FrameDelivered(w, Transmit(snd, DataFrame(w, m)), DataFrame(w, other));
  }

  /** Neither end takes the other's message for an acknowledgement. */
  lemma CrossedFails(w: Wire, k': int, snd: Conn, rcv: Conn, m: seq<byte>, reply: seq<byte>)
    requires Readable(w) && 0 < w.timeout && Perfect(snd) && Perfect(rcv)
    requires 0 < |m| <= w.maxFrame - w.headerSize && 0 < |reply| <= w.maxFrame - w.headerSize
    ensures var b := CrossedAttempt(w, k', snd, rcv, m, reply);
      && b.dataSent == 0 && b.handled == [] && Perfect(b.snd) && Perfect(b.rcv)
      && b.snd.lossFreeRun == Inject(w.lossInterval, snd.lossFreeRun).1
      && b.rcv.lossFreeRun == Inject(k', rcv.lossFreeRun).1
  {
    var sent, answer := Encode(DataFrame(w, m)), Encode(DataFrame(w, reply));
    assert sent[..|sent|] == sent && answer[..|answer|] == answer;
    var w' := w.(lossInterval := k');
    SameFrames(w, w', m);
    SameFrames(w, w', reply);
    MeetsData(w, snd.(inbox := Delivered(answer)), m, reply);
    MeetsData(w', rcv.(inbox := Delivered(sent)), reply, m);
  }

  /** The retry loop of a message whose handler answers: once it was handed over the other
      end is `answering`, and goes on with that for at least as many attempts as are left. */
  function AnsweredBy(turn: (Conn, Conn) -> Both, cross: (Conn, Conn) -> Both, r: nat, size: nat,
                      snd: Conn, rcv: Conn, retry: nat, dataSent: nat, answering: bool): Both
    decreases r - retry
  {
    if retry < r && size != dataSent then
      var b := if answering then cross(snd, rcv) else turn(snd, rcv);
      var c := AnsweredBy(turn, cross, r, size, b.snd, b.rcv, retry + 1, b.dataSent, answering || b.handled != []);
      c.(handled := b.handled + c.handled)
    else Both(dataSent, [], snd, rcv)
  }

  /** linkSendRetry for a message whose handler answers with `reply` when it gets it. */
  function Answered(w: Wire, k': int, snd: Conn, rcv: Conn, m: seq<byte>, message: seq<byte>, reply: seq<byte>): Both
    requires IsMessage(w, message)
  {
    AnsweredBy((s, t) => DuplexAttempt(w, k', s, t, m, message), (s, t) => CrossedAttempt(w, k', s, t, m, reply),
               w.retryMax, |m|, snd, rcv, 0, 0, false)
  }

  /** Whether the first attempt whose DATA frame passes the receiver's counter also has its
      ACK passed by the sender's. */
  function FirstAckPasses(k: int, run: nat, k': int, run': nat, attempts: nat): bool
    decreases attempts
  {
    attempts > 0 &&
    var (ackLost, next) := Inject(k, run);
    var (dataLost, next') := Inject(k', run');
    if dataLost then FirstAckPasses(k, next, k', next', attempts - 1) else !ackLost
  }

  ghost predicate Fails(cross: (Conn, Conn) -> Both) {
    forall snd, rcv :: Perfect(snd) && Perfect(rcv) ==>
      var b := cross(snd, rcv);
      b.dataSent == 0 && b.handled == [] && Perfect(b.snd) && Perfect(b.rcv)
  }

  lemma {:induction false} AnsweringFails(turn: (Conn, Conn) -> Both, cross: (Conn, Conn) -> Both, r: nat, size: nat,
                                          snd: Conn, rcv: Conn, retry: nat)
    requires Fails(cross) && size > 0 && Perfect(snd) && Perfect(rcv) && retry <= r
    ensures var d := AnsweredBy(turn, cross, r, size, snd, rcv, retry, 0, true);
      d.dataSent == 0 && d.handled == []
    decreases r - retry
  {
    if retry < r {
      var b := cross(snd, rcv);
      assert b.dataSent == 0 && Perfect(b.snd) && Perfect(b.rcv) && b.handled == [];
      AnsweringFails(turn, cross, r, size, b.snd, b.rcv, retry + 1);
    }
  }

  lemma {:induction false} AnsweredByOutcome(turn: (Conn, Conn) -> Both, cross: (Conn, Conn) -> Both, r: nat,
                                             k: int, k': int, m: seq<byte>, snd: Conn, rcv: Conn, retry: nat)
    requires Decided(turn, k, k', m) && Fails(cross) && |m| > 0
    requires Perfect(snd) && Perfect(rcv) && retry <= r
    ensures var d := AnsweredBy(turn, cross, r, |m|, snd, rcv, retry, 0, false);
      && d.dataSent == (if FirstAckPasses(k, snd.lossFreeRun, k', rcv.lossFreeRun, r - retry) then |m| else 0)
      && d.handled == (if GetsThrough(k', rcv.lossFreeRun, r - retry) then [m] else [])
    decreases r - retry
  {
    if retry < r {
      var b := turn(snd, rcv);
      var dataLost := Inject(k', rcv.lossFreeRun).0;
      TurnAsCounted(turn, k, k', m, snd, rcv);
      if dataLost {
        AnsweredByOutcome(turn, cross, r, k, k', m, b.snd, b.rcv, retry + 1);
        var c := AnsweredBy(turn, cross, r, |m|, b.snd, b.rcv, retry + 1, 0, false);
        assert [] + c.handled == c.handled;
      } else {
        if b.dataSent == 0 { AnsweringFails(turn, cross, r, |m|, b.snd, b.rcv, retry + 1); }
        var c := AnsweredBy(turn, cross, r, |m|, b.snd, b.rcv, retry + 1, b.dataSent, true);
        assert c.handled == [] && c.dataSent == b.dataSent;
        assert [m] + [] == [m];
      }
    }
  }

  lemma TurnAsCounted(turn: (Conn, Conn) -> Both, k: int, k': int, m: seq<byte>, snd: Conn, rcv: Conn)
    requires Decided(turn, k, k', m) && Perfect(snd) && Perfect(rcv)
    ensures var b := turn(snd, rcv);
      var (ackLost, run) := Inject(k, snd.lossFreeRun);
      var (dataLost, run') := Inject(k', rcv.lossFreeRun);
      && b.dataSent == (if !ackLost && !dataLost then |m| else 0)
      && b.handled == (if dataLost then [] else [m])
      && Perfect(b.snd) && Perfect(b.rcv) && b.snd.lossFreeRun == run && b.rcv.lossFreeRun == run'
  {
    assert Meets(m, turn(snd, rcv), Tries(k, snd.lossFreeRun, k', rcv.lossFreeRun, 1));
    assert Repeat(m, 1) == [m] && Repeat(m, 0) == [];
  }

  /** An answered message is handed over, and then once, exactly when the receiver's counter
      lets a DATA frame through; and linkSendRetry returns its length exactly when the ACK
      of that first frame passes the sender's counter. If it does not, no further attempt
      can succeed. */
  lemma AnsweredOutcome(w: Wire, k': int, snd: Conn, rcv: Conn, m: seq<byte>, message: seq<byte>, reply: seq<byte>)
    requires Readable(w) && IsMessage(w, message) && 0 < |m| <= |message| && 0 < |reply| <= |message| && 0 < w.timeout
    requires Perfect(snd) && Perfect(rcv)
    ensures var d := Answered(w, k', snd, rcv, m, message, reply);
      && d.dataSent == (if FirstAckPasses(w.lossInterval, snd.lossFreeRun, k', rcv.lossFreeRun, w.retryMax)
                        then |m| else 0)
      && d.handled == (if GetsThrough(k', rcv.lossFreeRun, w.retryMax) then [m] else [])
  {
    DuplexDecided(w, k', m, message);
    CrossedAllFail(w, k', m, reply);
    AnsweredByOutcome((s, t) => DuplexAttempt(w, k', s, t, m, message), (s, t) => CrossedAttempt(w, k', s, t, m, reply),
                      w.retryMax, w.lossInterval, k', m, snd, rcv, 0);
  }

  lemma CrossedAllFail(w: Wire, k': int, m: seq<byte>, reply: seq<byte>)
    requires Readable(w) && 0 < w.timeout
    requires 0 < |m| <= w.maxFrame - w.headerSize && 0 < |reply| <= w.maxFrame - w.headerSize
    ensures Fails((s, t) => CrossedAttempt(w, k', s, t, m, reply))
  {
    forall s, t | Perfect(s) && Perfect(t)
      ensures var b := CrossedAttempt(w, k', s, t, m, reply);
        b.dataSent == 0 && b.handled == [] && Perfect(b.snd) && Perfect(b.rcv)
    {
      CrossedFails(w, k', s, t, m, reply);
    }
  }

  /** A DATA frame passes the receiver's counter within the attempts. */
  function GetsThrough(k': int, run': nat, attempts: nat): bool
    decreases attempts
  {
    attempts > 0 && (!Inject(k', run').0 || GetsThrough(k', Inject(k', run').1, attempts - 1))
  }

  /** One gets through from every phase of the receiver's counter exactly when it drops no
      two in a row and there are two attempts. */
  lemma HandedOverIff(k': nat, attempts: nat)
    requires k' > 0
    ensures (forall run': nat :: run' < k' ==> GetsThrough(k', run', attempts)) <==> k' >= 2 && attempts >= 2
  {
    if k' >= 2 && attempts >= 2 {
      forall run': nat | run' < k' ensures GetsThrough(k', run', attempts) {
        SecondGetsThrough(k', run', attempts);
      }
    } else {
      NoneGetsThrough(k', k' - 1, attempts);
    }
  }

  lemma SecondGetsThrough(k': nat, run': nat, attempts: nat)
    requires k' >= 2 && run' < k' && attempts >= 2
    ensures GetsThrough(k', run', attempts)
  {
    assert Inject(k', run').0 ==> GetsThrough(k', Inject(k', run').1, attempts - 1);
  }

  lemma {:induction false} NoneGetsThrough(k': nat, run': nat, attempts: nat)
    requires k' > 0 && run' == k' - 1 && (k' == 1 || attempts < 2)
    ensures !GetsThrough(k', run', attempts)
    decreases attempts
  {
    if attempts > 0 && k' == 1 {
      NoneGetsThrough(k', Inject(k', run').1, attempts - 1);
    }
  }

  ghost predicate FirstAckAlwaysPasses(k: int, k': nat, attempts: nat) {
    forall run: nat, run': nat :: (k > 0 ==> run < k) && run' < k' ==> FirstAckPasses(k, run, k', run', attempts)
  }

  /** So an answered message is reported as sent from every phase of the counters exactly
      when nothing is dropped at the sender, no two in a row at the receiver, and there are
      two attempts: with any loss at the sender no number of retries suffices. */
  lemma AnsweredAlwaysIff(k: int, k': nat, attempts: nat)
    requires k' > 0
    ensures FirstAckAlwaysPasses(k, k', attempts) <==> k <= 0 && k' >= 2 && attempts >= 2
  {
    if k > 0 {
      if k' >= 2 {
        assert !FirstAckPasses(k, k - 1, k', 0, attempts);
      } else {
        NeverPasses(k, k - 1, attempts);
      }
    } else if k' >= 2 && attempts >= 2 {
      forall run: nat, run': nat | run' < k' ensures FirstAckPasses(k, run, k', run', attempts) {
        SecondGetsThrough(k', run', attempts);
        LosslessSender(k, run, k', run', attempts);
      }
    } else {
      NoneGetsThrough(k', k' - 1, attempts);
      LosslessSender(k, 0, k', k' - 1, attempts);
      assert !FirstAckPasses(k, 0, k', k' - 1, attempts);
    }
  }

  lemma {:induction false} LosslessSender(k: int, run: nat, k': int, run': nat, attempts: nat)
    requires k <= 0
    ensures FirstAckPasses(k, run, k', run', attempts) == GetsThrough(k', run', attempts)
    decreases attempts
  {
    if attempts > 0 { LosslessSender(k, run, k', Inject(k', run').1, attempts - 1); }
  }

  lemma {:induction false} NeverPasses(k: int, run: nat, attempts: nat)
    ensures !FirstAckPasses(k, run, 1, 0, attempts)
    decreases attempts
  {
    if attempts > 0 { NeverPasses(k, Inject(k, run).1, attempts - 1); }
  }

  // ---------------------------------------------------------------------------
  // A counter that other connections share

  /** The counter after `n` frames read elsewhere: lossFreeRun is one static for the whole
      process. */
  function Elsewhere(interval: int, run: nat, n: nat): nat
    decreases n
  {
    if n == 0 then run else Elsewhere(interval, Inject(interval, run).1, n - 1)
  }

  lemma {:induction false} ElsewhereCounts(interval: nat, run: nat, n: nat)
    requires run + n < interval
    ensures Elsewhere(interval, run, n) == run + n
    decreases n
  {
    if n > 0 { ElsewhereCounts(interval, run + 1, n - 1); }
  }

  /** The retry loop when the receiver's process reads `others[i]` frames of other
      connections before attempt i. */
  function RetriedAmong(turn: (Conn, Conn) -> Both, k': int, size: nat, snd: Conn, rcv: Conn,
                        others: seq<nat>, dataSent: nat): Both
    decreases |others|
  {
    if others != [] && size != dataSent then
      var b := turn(snd, rcv.(lossFreeRun := Elsewhere(k', rcv.lossFreeRun, others[0])));
      var c := RetriedAmong(turn, k', size, b.snd, b.rcv, others[1..], b.dataSent);
      c.(handled := b.handled + c.handled)
    else Both(dataSent, [], snd, rcv)
  }

  function DuplexAmong(w: Wire, k': int, snd: Conn, rcv: Conn, m: seq<byte>, message: seq<byte>, others: seq<nat>): Both
    requires IsMessage(w, message)
  {
    RetriedAmong((s, t) => DuplexAttempt(w, k', s, t, m, message), k', |m|, snd, rcv, others, 0)
  }

  /** Reads elsewhere that bring the counter round before each of `n` attempts. */
  function Defeating(k': nat, run': nat, n: nat): (others: seq<nat>)
    requires run' < k'
    ensures |others| == n
    decreases n
  {
    if n == 0 then [] else [k' - 1 - run'] + Defeating(k', 0, n - 1)
  }

  /** What is proved about Duplex is for a receiver with one active connection: with others,
      whatever the limit and the receiver's interval, reads elsewhere can bring its counter
      round so that every DATA frame of this connection is dropped. */
  lemma OthersDefeatRetries(w: Wire, k': nat, snd: Conn, rcv: Conn, m: seq<byte>, message: seq<byte>)
    requires Readable(w) && IsMessage(w, message) && 0 < |m| <= |message| && 0 < w.timeout
    requires Perfect(snd) && Perfect(rcv) && rcv.lossFreeRun < k'
    ensures var d := DuplexAmong(w, k', snd, rcv, m, message, Defeating(k', rcv.lossFreeRun, w.retryMax));
      d.dataSent == 0 && d.handled == []
  {
    DuplexDecided(w, k', m, message);
    DropsEach((s, t) => DuplexAttempt(w, k', s, t, m, message), w.lossInterval, k', m, snd, rcv, w.retryMax);
  }

  lemma {:induction false} DropsEach(turn: (Conn, Conn) -> Both, k: int, k': nat, m: seq<byte>,
                                     snd: Conn, rcv: Conn, n: nat)
    requires Decided(turn, k, k', m) && m != [] && Perfect(snd) && Perfect(rcv) && rcv.lossFreeRun < k'
    ensures var d := RetriedAmong(turn, k', |m|, snd, rcv, Defeating(k', rcv.lossFreeRun, n), 0);
      d.dataSent == 0 && d.handled == []
    decreases n
  {
    if n > 0 {
      var first := k' - 1 - rcv.lossFreeRun;
      ElsewhereCounts(k', rcv.lossFreeRun, first);
      var at := rcv.(lossFreeRun := k' - 1);
      var b := turn(snd, at);
      TurnAsCounted(turn, k, k', m, snd, at);
      DropsEach(turn, k, k', m, b.snd, b.rcv, n - 1);
      AmongTurn(turn, k', |m|, snd, rcv, first, Defeating(k', 0, n - 1), b);
    }
  }

  lemma AmongTurn(turn: (Conn, Conn) -> Both, k': int, size: nat, snd: Conn, rcv: Conn,
                  first: nat, rest: seq<nat>, b: Both)
    requires b == turn(snd, rcv.(lossFreeRun := Elsewhere(k', rcv.lossFreeRun, first)))
    requires size > 0 && b.dataSent == 0 && b.handled == []
    ensures var c := RetriedAmong(turn, k', size, b.snd, b.rcv, rest, 0);
      var d := RetriedAmong(turn, k', size, snd, rcv, [first] + rest, 0);
      d.dataSent == c.dataSent && d.handled == c.handled
  {
    assert ([first] + rest)[1..] == rest;
  }

  /** Without reads elsewhere it is Duplex. */
  lemma {:induction false} AloneIsRetried(turn: (Conn, Conn) -> Both, k': int, size: nat, snd: Conn, rcv: Conn,
                                          r: nat, retry: nat, dataSent: nat)
    requires retry <= r
    ensures RetriedAmong(turn, k', size, snd, rcv, Repeat(0, r - retry), dataSent) ==
            Retried(turn, r, size, snd, rcv, retry, dataSent)
    decreases r - retry
  {
    if retry < r && size != dataSent {
      var b := turn(snd, rcv);
      assert Repeat<nat>(0, r - retry)[1..] == Repeat<nat>(0, r - retry - 1);
      assert rcv.(lossFreeRun := rcv.lossFreeRun) == rcv;
      AloneIsRetried(turn, k', size, b.snd, b.rcv, r, retry + 1, b.dataSent);
    }
  }
}
