/** The two ends of amilink.cpp over a byte socket: deframing, heartbeats, the loss
    injector, acknowledgement and bounded retry. */
module AmiLink {
  import opened Bytes
  import opened Slip
  import opened Socket

  /** Crc16_t */
  type Crc16 = n: nat | n < 0x1_0000

  datatype Cmd = DATA | ACK | NACK | HEARTBEAT | Other(code: nat)

  /** What the model leaves open about the wire: sizes, limits, the CRC, and where the
      header keeps its two fields. `lossInterval` is sLosePacketInterval. */
  datatype Format = Format(
    headerSize: nat, maxFrame: nat, retryMax: nat, timeout: nat, lossInterval: int, seed: Crc16,
    crc16: seq<byte> -> Crc16,
    header: (Crc16, Cmd) -> seq<byte>, crcOf: seq<byte> -> Crc16, cmdOf: seq<byte> -> Cmd)

  type Wire = w: Format | 0 < w.headerSize <= w.maxFrame
    witness Format(1, 1, 1, 1, 0, 0, (s: seq<byte>) => 0,
                   (c: Crc16, k: Cmd) => [0], (s: seq<byte>) => 0, (s: seq<byte>) => DATA)

  /** The headers that are sent have the header's size and read back, whatever follows
      them. */
  ghost predicate Readable(w: Wire) {
    && (forall c: Crc16, k: Cmd :: |w.header(c, k)| == w.headerSize)
    && (forall c: Crc16, k: Cmd, d: seq<byte> :: !k.Other? ==>
          w.crcOf(w.header(c, k) + d) == c && w.cmdOf(w.header(c, k) + d) == k)
  }

  function DataFrame(w: Wire, m: seq<byte>): seq<byte> {
    w.header(w.crc16(m), DATA) + m
  }

  /** ACK, NACK and HEARTBEAT frames are a bare header with the CRC's seed. */
  function Control(w: Wire, k: Cmd): seq<byte> {
    w.header(w.seed, k)
  }

  /** One end: what its socket will bring and accept, what it sent, and the static
      counter lossFreeRun. */
  datatype Conn = Conn(inbox: seq<Poll>, outcomes: seq<SendOutcome>, outbox: seq<byte>, lossFreeRun: nat)

  function Transmit(c: Conn, frame: seq<byte>): Conn {
    var (count, _, rest) := Progress(c.outcomes, |Encode(frame)|);
    c.(outcomes := rest, outbox := c.outbox + Encode(frame)[..count])
  }

  predicate IsHeartbeat(w: Wire, f: seq<byte>) {
    |f| == w.headerSize && w.cmdOf(f) == HEARTBEAT
  }

  /** The first frame that is not a heartbeat. */
  function NextFrame(w: Wire, polls: seq<Poll>): (r: (seq<byte>, seq<Poll>))
    ensures |r.0| <= w.maxFrame
    decreases |polls|
  {
    var (f, rest) := PhysicalFrame(polls, w.maxFrame, w.timeout);
    if IsHeartbeat(w, f) then NextFrame(w, rest) else (f, rest)
  }

  /** The loss injector: whether this frame is lost, and the counter after it. */
  function Inject(interval: int, run: nat): (bool, nat) {
    if interval <= 0 then (false, run)
    else if run + 1 >= interval then (true, 0)
    else (false, run + 1)
  }

  function FrameRead(w: Wire, c: Conn): (r: (seq<byte>, Conn))
    ensures |r.0| <= w.maxFrame
  {
    var (f, rest) := NextFrame(w, c.inbox);
    var (lost, run) := Inject(w.lossInterval, c.lossFreeRun);
    (if lost then [] else f, c.(inbox := rest, lossFreeRun := run))
  }

  function AckRead(w: Wire, c: Conn): (Cmd, Conn) {
    var (f, d) := FrameRead(w, c);
    (if |f| == w.headerSize && w.crcOf(f) == w.seed && w.cmdOf(f) == ACK then ACK else NACK, d)
  }

  /** linkSendData: one attempt. */
  function SendData(w: Wire, c: Conn, m: seq<byte>): (nat, Conn) {
    var (reply, d) := AckRead(w, Transmit(c, DataFrame(w, m)));
    (if reply == ACK then |m| else 0, d)
  }

  /** linkSendRetry from the head of its loop. */
  function SendRetry(w: Wire, c: Conn, m: seq<byte>, retry: nat, dataSent: nat): (nat, Conn)
    decreases w.retryMax - retry
  {
    if retry < w.retryMax && |m| != dataSent then
      var (n, d) := SendData(w, c, m);
      SendRetry(w, d, m, retry + 1, n)
    else (dataSent, c)
  }

  /** The frame carries data that passes its CRC. */
  predicate Intact(w: Wire, f: seq<byte>) {
    w.headerSize <= |f| && w.cmdOf(f) == DATA && w.crcOf(f) == w.crc16(f[w.headerSize..])
  }

  function CopyOver(payload: seq<byte>, message: seq<byte>): (r: seq<byte>)
    requires |payload| <= |message|
    ensures |r| == |message|
  {
    payload + message[|payload|..]
  }

  predicate IsMessage(w: Wire, message: seq<byte>) {
    |message| == w.maxFrame - w.headerSize
  }

  /** readMessage: the length it returns, the message, and the connection after. */
  function MessageRead(w: Wire, c: Conn, message: seq<byte>): (r: (nat, seq<byte>, Conn))
    requires IsMessage(w, message)
    ensures IsMessage(w, r.1)
  {
    var (f, d) := FrameRead(w, c);
    if w.headerSize <= |f| && w.cmdOf(f) == DATA then
      if Intact(w, f) then
        (|f| - w.headerSize, CopyOver(f[w.headerSize..], message), Transmit(d, Control(w, ACK)))
      else
        (|f| - w.headerSize, message, Transmit(d, Control(w, NACK)))
    else (0, message, d)
  }

  /** amilinkReadMessage from the head of its loop. */
  function ReadMessageRetry(w: Wire, c: Conn, message: seq<byte>, retry: nat, length: nat): (nat, seq<byte>, Conn)
    requires IsMessage(w, message)
    decreases w.retryMax - retry
  {
    if retry < w.retryMax && length == 0 then
      var (n, m, d) := MessageRead(w, c, message);
      ReadMessageRetry(w, d, m, retry + 1, n)
    else (length, message, c)
  }

  function Heartbeat(w: Wire, c: Conn): (bool, Conn) {
    var (count, failed, _) := Progress(c.outcomes, |Encode(Control(w, HEARTBEAT))|);
    (!failed && count == |Encode(Control(w, HEARTBEAT))|, Transmit(c, Control(w, HEARTBEAT)))
  }

  // ---------------------------------------------------------------------------
  // Heartbeats

  predicate Heartbeats(w: Wire, parts: seq<seq<Poll>>) {
    forall i :: 0 <= i < |parts| ==> Carries(parts[i], Control(w, HEARTBEAT), w.maxFrame, w.timeout)
  }

  /** Any number of heartbeats in front of a frame change nothing that readFrame
      returns. */
  lemma {:induction false} HeartbeatsAreTransparent(w: Wire, c: Conn, parts: seq<seq<Poll>>)
    requires Readable(w) && Heartbeats(w, parts)
    ensures FrameRead(w, c.(inbox := Flatten(parts) + c.inbox)) == FrameRead(w, c)
    decreases |parts|
  {
    if parts == [] {
      assert Flatten(parts) + c.inbox == c.inbox;
    } else {
      var rest := Flatten(parts[1..]) + c.inbox;
      assert Flatten(parts) + c.inbox == parts[0] + rest;
      ReadsBack(parts[0], rest, Control(w, HEARTBEAT), w.maxFrame, w.timeout);
      HeaderAlone(w, HEARTBEAT);
      HeartbeatsAreTransparent(w, c, parts[1..]);
    }
  }

  /** So they change nothing that readAck and readMessage do either. */
  lemma HeartbeatsChangeNothing(w: Wire, c: Conn, parts: seq<seq<Poll>>, message: seq<byte>)
    requires Readable(w) && Heartbeats(w, parts) && IsMessage(w, message)
    ensures var d := c.(inbox := Flatten(parts) + c.inbox);
      AckRead(w, d) == AckRead(w, c) && MessageRead(w, d, message) == MessageRead(w, c, message)
  {
    HeartbeatsAreTransparent(w, c, parts);
  }

  lemma HeaderAlone(w: Wire, k: Cmd)
    requires Readable(w) && !k.Other?
    ensures var f := Control(w, k); |f| == w.headerSize && w.crcOf(f) == w.seed && w.cmdOf(f) == k
  {
    assert w.header(w.seed, k) + [] == w.header(w.seed, k);
  }

  lemma DataFrameReads(w: Wire, m: seq<byte>)
    requires Readable(w)
    ensures var f := DataFrame(w, m);
      |f| == w.headerSize + |m| && Intact(w, f) && f[w.headerSize..] == m
  {
  }

  // ---------------------------------------------------------------------------
  // One exchange, byte by byte

  /** Nothing is lost at this step: the socket takes all that is sent, and the
      injector lets the next frame pass. */
  predicate Reliable(w: Wire, c: Conn) {
    c.outcomes == [] && !Inject(w.lossInterval, c.lossFreeRun).0
  }

  /** What arrives is some heartbeats and then, in time, exactly these bytes. */
  predicate Brings(w: Wire, polls: seq<Poll>, parts: seq<seq<Poll>>,
                   last: seq<Poll>, rest: seq<Poll>, bytes: seq<byte>) {
    && polls == Flatten(parts) + (last + rest) && Heartbeats(w, parts)
    && last != [] && last[|last|-1].Got? && Arrived(last) == bytes && Idle(last) * READSLEEP < w.timeout
  }

  lemma FrameBrought(w: Wire, c: Conn, parts: seq<seq<Poll>>, last: seq<Poll>, rest: seq<Poll>, f: seq<byte>)
    requires Readable(w) && Brings(w, c.inbox, parts, last, rest, Encode(f)) && |f| <= w.maxFrame
    requires !IsHeartbeat(w, f) && !Inject(w.lossInterval, c.lossFreeRun).0
    ensures FrameRead(w, c) == (f, c.(inbox := rest, lossFreeRun := Inject(w.lossInterval, c.lossFreeRun).1))
  {
    var d := c.(inbox := last + rest);
    HeartbeatsAreTransparent(w, d, parts);
    ReadsBack(last, rest, f, w.maxFrame, w.timeout);
  }

  /** If the bytes one end puts on the wire reach the other, in order, in time and
      among heartbeats, and the bytes of its answer come back the same way, then the
      receiver holds the message and the sender reports its length. */
  lemma Exchange(w: Wire, snd: Conn, rcv: Conn, m: seq<byte>, message: seq<byte>,
                 down: (seq<seq<Poll>>, seq<Poll>, seq<Poll>), up: (seq<seq<Poll>>, seq<Poll>, seq<Poll>))
    requires Readable(w) && IsMessage(w, message) && |m| <= |message|
    requires Reliable(w, snd) && Reliable(w, rcv)
    requires var sent := SendData(w, snd, m).1.outbox;
      snd.outbox <= sent && Brings(w, rcv.inbox, down.0, down.1, down.2, sent[|snd.outbox|..])
    requires var answered := MessageRead(w, rcv, message).2.outbox;
      rcv.outbox <= answered && Brings(w, snd.inbox, up.0, up.1, up.2, answered[|rcv.outbox|..])
    ensures MessageRead(w, rcv, message).0 == |m|
    ensures MessageRead(w, rcv, message).1 == CopyOver(m, message)
    ensures SendData(w, snd, m).0 == |m|
  {
    var frame := DataFrame(w, m);
    var bytes := Encode(frame);
    var s1 := Transmit(snd, frame);
    assert s1.outbox == snd.outbox + bytes by { assert bytes[..|bytes|] == bytes; }
    assert SendData(w, snd, m).1.outbox == s1.outbox;
    DataFrameReads(w, m);
    FrameBrought(w, rcv, down.0, down.1, down.2, frame);
    AnswerReachesBack(w, snd, rcv, m, message, up);
  }

  lemma AnswerReachesBack(w: Wire, snd: Conn, rcv: Conn, m: seq<byte>, message: seq<byte>,
                          up: (seq<seq<Poll>>, seq<Poll>, seq<Poll>))
    requires Readable(w) && IsMessage(w, message) && |m| <= |message|
    requires Reliable(w, snd) && Reliable(w, rcv)
    requires FrameRead(w, rcv).0 == DataFrame(w, m)
    requires var answered := MessageRead(w, rcv, message).2.outbox;
      rcv.outbox <= answered && Brings(w, snd.inbox, up.0, up.1, up.2, answered[|rcv.outbox|..])
    ensures SendData(w, snd, m).0 == |m|
  {
    DataFrameReads(w, m);
    HeaderAlone(w, ACK);
    var ack := Control(w, ACK);
    var answer := Encode(ack);
    assert MessageRead(w, rcv, message).2.outbox == rcv.outbox + answer by {
      assert answer[..|answer|] == answer;
    }
    FrameBrought(w, Transmit(snd, DataFrame(w, m)), up.0, up.1, up.2, ack);
  }

  /** What comes among heartbeats and in time is a frame with this header and data. */
  ghost predicate BringsFrame(w: Wire, c: Conn, came: (seq<seq<Poll>>, seq<Poll>, seq<Poll>),
                              crc: Crc16, k: Cmd, d: seq<byte>) {
    && Readable(w) && !k.Other? && w.headerSize + |d| <= w.maxFrame && !(k == HEARTBEAT && d == [])
    && Brings(w, c.inbox, came.0, came.1, came.2, Encode(w.header(crc, k) + d))
  }

  lemma FrameComes(w: Wire, c: Conn, came: (seq<seq<Poll>>, seq<Poll>, seq<Poll>), crc: Crc16, k: Cmd, d: seq<byte>)
    requires BringsFrame(w, c, came, crc, k, d)
    ensures var (lost, run) := Inject(w.lossInterval, c.lossFreeRun);
      FrameRead(w, c) == (if lost then [] else w.header(crc, k) + d, c.(inbox := came.2, lossFreeRun := run))
    ensures var f := w.header(crc, k) + d;
      |f| == w.headerSize + |d| && w.crcOf(f) == crc && w.cmdOf(f) == k && f[w.headerSize..] == d
  {
    var e := c.(inbox := came.1 + came.2);
    HeartbeatsAreTransparent(w, e, came.0);
    ReadsBack(came.1, came.2, w.header(crc, k) + d, w.maxFrame, w.timeout);
  }

  /** linkSendData succeeds exactly when the frame that comes is not dropped and is a bare
      header with the seed and CMD_ACK: not for a NACK, another CRC, or a frame with data. */
  lemma AckMeans(w: Wire, c: Conn, m: seq<byte>, came: (seq<seq<Poll>>, seq<Poll>, seq<Poll>),
                 crc: Crc16, k: Cmd, d: seq<byte>)
    requires BringsFrame(w, c, came, crc, k, d) && m != []
    ensures var (lost, run) := Inject(w.lossInterval, c.lossFreeRun);
      var (n, e) := SendData(w, c, m);
      && n == (if !lost && k == ACK && crc == w.seed && d == [] then |m| else 0)
      && e.inbox == came.2 && e.lossFreeRun == run
  {
    FrameComes(w, Transmit(c, DataFrame(w, m)), came, crc, k, d);
  }

  /** readMessage ignores a frame that is dropped or carries no CMD_DATA. It returns the length
      of the data of any other. If the CRC sent is that of the data, the data are in the message
      and an ACK is on the wire; if not, the message is as it was and a NACK is on the wire. */
  lemma MessageMeans(w: Wire, c: Conn, message: seq<byte>, came: (seq<seq<Poll>>, seq<Poll>, seq<Poll>),
                     crc: Crc16, k: Cmd, d: seq<byte>)
    requires BringsFrame(w, c, came, crc, k, d) && IsMessage(w, message) && c.outcomes == []
    ensures var (lost, run) := Inject(w.lossInterval, c.lossFreeRun);
      var (n, copy, e) := MessageRead(w, c, message);
      && e.inbox == came.2 && e.lossFreeRun == run && e.outcomes == []
      && if lost || k != DATA then n == 0 && copy == message && e.outbox == c.outbox
         else if crc == w.crc16(d) then
           n == |d| && copy == d + message[|d|..] && e.outbox == c.outbox + Encode(w.header(w.seed, ACK))
         else n == |d| && copy == message && e.outbox == c.outbox + Encode(w.header(w.seed, NACK))
  {
    FrameComes(w, c, came, crc, k, d);
    var answer := Encode(Control(w, if crc == w.crc16(d) then ACK else NACK));
    assert answer[..|answer|] == answer;
  }

  /** If the frame comes too late for the budget, nothing was acknowledged and nothing read. */
  lemma LateMeans(w: Wire, c: Conn, m: seq<byte>, message: seq<byte>, polls: seq<Poll>, rest: seq<Poll>)
    requires IsMessage(w, message) && m != [] && c.inbox == polls + rest
    requires UsesUpBudget(polls, START, 0, w.maxFrame, w.timeout)
    ensures SendData(w, c, m).0 == 0 && SendData(w, c, m).1.inbox == rest
    ensures var (n, copy, e) := MessageRead(w, c, message);
      n == 0 && copy == message && e.inbox == rest && e.outbox == c.outbox
  {
    TooLate(polls, rest, w.maxFrame, w.timeout);
  }

  /** amilinkHeartbeat is true exactly when a bare header with the seed and CMD_HEARTBEAT has
      gone out in full; and the far end's readFrame reads on behind one that arrives in time. */
  lemma HeartbeatMeans(w: Wire, c: Conn, far: Conn, polls: seq<Poll>)
    requires Readable(w) && Carries(polls, w.header(w.seed, HEARTBEAT), w.maxFrame, w.timeout)
    ensures var (ok, d) := Heartbeat(w, c);
      && (ok <==> d.outbox == c.outbox + Encode(w.header(w.seed, HEARTBEAT)))
      && FrameRead(w, far.(inbox := polls + far.inbox)) == FrameRead(w, far)
  {
    var bytes := Encode(Control(w, HEARTBEAT));
    var k := ProgressStops(c.outcomes, |bytes|);
    assert bytes[..|bytes|] == bytes;
    HeartbeatsAreTransparent(w, far, [polls]);
    assert Flatten([polls]) == polls + [] == polls;
  }

  // ---------------------------------------------------------------------------
  // Retry

  /** Transmissions of the same bytes, of which the socket took `counts[i]` in the i-th. */
  function Transmissions(bytes: seq<byte>, counts: seq<nat>): seq<byte>
    decreases |counts|
  {
    if counts == [] then []
    else (if counts[0] <= |bytes| then bytes[..counts[0]] else bytes) + Transmissions(bytes, counts[1..])
  }

  /** linkSendRetry puts the same frame on the wire again, each time as far as the socket
      takes it, until it is acknowledged or the limit is reached: it returns 0 only after
      exactly retryMax transmissions, and the length only after at least one. */
  lemma {:induction false} RetryShape(w: Wire, c: Conn, m: seq<byte>, retry: nat) returns (counts: seq<nat>)
    requires m != [] && retry <= w.retryMax
    ensures var (n, d) := SendRetry(w, c, m, retry, 0);
      var bytes := Encode(DataFrame(w, m));
      && d.outbox == c.outbox + Transmissions(bytes, counts)
      && (c.outcomes == [] ==> d.outcomes == [] && forall i :: 0 <= i < |counts| ==> counts[i] == |bytes|)
      && ((n == |m| && 1 <= |counts| <= w.retryMax - retry) || (n == 0 && |counts| == w.retryMax - retry))
    decreases w.retryMax - retry
  {
    if retry == w.retryMax {
      counts := [];
      assert c.outbox + [] == c.outbox;
    } else {
      var bytes := Encode(DataFrame(w, m));
      var count := Progress(c.outcomes, |bytes|).0;
      var (n, d) := SendData(w, c, m);
      assert d.outbox == c.outbox + bytes[..count];
      if n == |m| {
        counts := [count];
        assert Transmissions(bytes, [count]) == bytes[..count] + [] == bytes[..count];
      } else {
        var more := RetryShape(w, d, m, retry + 1);
        counts := [count] + more;
        assert counts[1..] == more;
        SplitOutbox(c.outbox, bytes[..count], Transmissions(bytes, more));
      }
    }
  }

  function AfterSends(w: Wire, c: Conn, m: seq<byte>, j: nat): Conn
    decreases j
  {
    if j == 0 then c else AfterSends(w, SendData(w, c, m).1, m, j - 1)
  }

  /** It stops at the first attempt that succeeds, and otherwise after the last one allowed. */
  lemma {:induction false} RetryStops(w: Wire, c: Conn, m: seq<byte>, retry: nat) returns (j: nat)
    requires m != [] && retry <= w.retryMax
    ensures j <= w.retryMax - retry
    ensures forall i: nat :: i < j ==> SendData(w, AfterSends(w, c, m, i), m).0 == 0
    ensures SendRetry(w, c, m, retry, 0) ==
      if j == w.retryMax - retry then (0, AfterSends(w, c, m, j)) else (|m|, AfterSends(w, c, m, j + 1))
    ensures j < w.retryMax - retry ==> SendData(w, AfterSends(w, c, m, j), m).0 == |m|
    decreases w.retryMax - retry
  {
    if retry == w.retryMax {
      j := 0;
    } else {
      var (n, d) := SendData(w, c, m);
      if n == |m| {
        j := 0;
        assert AfterSends(w, c, m, 1) == AfterSends(w, d, m, 0);
      } else {
        var k := RetryStops(w, d, m, retry + 1);
        j := k + 1;
        forall i: nat | i < j ensures SendData(w, AfterSends(w, c, m, i), m).0 == 0 {
          if i > 0 { assert AfterSends(w, c, m, i) == AfterSends(w, d, m, i - 1); }
        }
        assert AfterSends(w, c, m, j + 1) == AfterSends(w, d, m, k + 1);
      }
    }
  }

  lemma SplitOutbox(a: seq<byte>, b: seq<byte>, c: seq<byte>)
    ensures (a + b) + c == a + (b + c)
  {
  }

  // ---------------------------------------------------------------------------
  // A damaged frame

  /** The length readMessage returns for this frame. */
  function DataLength(w: Wire, f: seq<byte>): nat {
    if w.headerSize <= |f| && w.cmdOf(f) == DATA then |f| - w.headerSize else 0
  }

  /** The connection after a readMessage: it depends on the frames only. */
  function AfterRead(w: Wire, c: Conn): Conn {
    var (f, d) := FrameRead(w, c);
    if w.headerSize <= |f| && w.cmdOf(f) == DATA then Transmit(d, Control(w, if Intact(w, f) then ACK else NACK)) else d
  }

  function AfterReads(w: Wire, c: Conn, j: nat): Conn
    decreases j
  {
    if j == 0 then c else AfterReads(w, AfterRead(w, c), j - 1)
  }

  /** The frame the readMessage after `j` others works on. */
  function FrameAt(w: Wire, c: Conn, j: nat): seq<byte> {
    FrameRead(w, AfterReads(w, c, j)).0
  }

  /** amilinkReadMessage returns 0 when none of its reads finds data, and else the length
      of the first frame that carries some, which it leaves the connection behind. The
      message is that frame's payload only if its CRC matches: otherwise the frame was
      NACKed and the message is untouched, and the length is positive all the same. */
  lemma {:induction false} FirstDataFrame(w: Wire, c: Conn, message: seq<byte>, retry: nat) returns (j: nat)
    requires IsMessage(w, message) && retry <= w.retryMax
    ensures j <= w.retryMax - retry
    ensures forall i: nat :: i < j ==> DataLength(w, FrameAt(w, c, i)) == 0
    ensures var (n, m, d) := ReadMessageRetry(w, c, message, retry, 0);
      if j == w.retryMax - retry then n == 0 && m == message && d == AfterReads(w, c, j)
      else
        var f := FrameAt(w, c, j);
        && n == DataLength(w, f) > 0 && d == AfterReads(w, c, j + 1)
        && m == if Intact(w, f) then CopyOver(f[w.headerSize..], message) else message
    decreases w.retryMax - retry
  {
    if retry == w.retryMax {
      j := 0;
    } else {
      var (n, m, d) := MessageRead(w, c, message);
      assert d == AfterRead(w, c) && n == DataLength(w, FrameRead(w, c).0);
      if n > 0 {
        j := 0;
        ReadStops(w, d, m, retry + 1, n);
        assert AfterReads(w, c, 1) == AfterReads(w, d, 0) == d;
      } else {
        assert m == message;
        var k := FirstDataFrame(w, d, message, retry + 1);
        j := k + 1;
        forall i: nat | i < j ensures DataLength(w, FrameAt(w, c, i)) == 0 {
          if i > 0 { assert FrameAt(w, c, i) == FrameAt(w, d, i - 1); }
        }
        assert AfterReads(w, c, j) == AfterReads(w, d, k);
        assert AfterReads(w, c, j + 1) == AfterReads(w, d, k + 1);
      }
    }
  }

  lemma ReadStops(w: Wire, c: Conn, message: seq<byte>, retry: nat, length: nat)
    requires IsMessage(w, message) && length > 0
    ensures ReadMessageRetry(w, c, message, retry, length) == (length, message, c)
  {
  }

  // ---------------------------------------------------------------------------
  // Injected loss

  /** How many of the next `n` frames the injector drops. */
  function Losses(interval: int, run: nat, n: nat): nat
    decreases n
  {
    if n == 0 then 0
    else
      var (lost, next) := Inject(interval, run);
      (if lost then 1 else 0) + Losses(interval, next, n - 1)
  }

  lemma {:induction false} LossBounds(interval: nat, run: nat, n: nat)
    requires run < interval
    ensures interval * Losses(interval, run, n) <= run + n < interval * Losses(interval, run, n) + interval
    decreases n
  {
    if n > 0 {
      var (lost, next) := Inject(interval, run);
      LossBounds(interval, next, n - 1);
      var rest := Losses(interval, next, n - 1);
      assert interval * (1 + rest) == interval + interval * rest;
    }
  }

  /** With interval k, of n frames read from the start exactly n / k are dropped. */
  lemma LossRate(interval: nat, n: nat)
    requires interval > 0
    ensures Losses(interval, 0, n) == n / interval
  {
    LossBounds(interval, 0, n);
    QuotientUnique(n, interval, Losses(interval, 0, n));
  }

  lemma QuotientUnique(n: nat, k: nat, q: nat)
    requires k > 0 && k * q <= n < k * q + k
    ensures q == n / k
  {
    var p := n / k;
    assert k * p <= n < k * p + k;
    if p < q { Scale(k, p + 1, q); }
    if q < p { Scale(k, q + 1, p); }
  }

  lemma Scale(k: nat, a: nat, b: nat)
    requires a <= b
    ensures k * a <= k * b
  {
  }

  /** Both ends in lock-step, one readFrame each per attempt and no other loss: does
      linkSendRetry succeed within `attempts` attempts? */
  function LockStep(k: int, run: nat, k': int, run': nat, attempts: nat): bool
    decreases attempts
  {
    attempts > 0 &&
    var (dataLost, next) := Inject(k, run);
    var (ackLost, next') := Inject(k', run');
    (!dataLost && !ackLost) || LockStep(k, next, k', next', attempts - 1)
  }

  /** It succeeds from every phase of the two counters. */
  ghost predicate AlwaysSucceeds(k: nat, k': nat, attempts: nat) {
    forall run: nat, run': nat :: run < k && run' < k' ==> LockStep(k, run, k', run', attempts)
  }

  lemma {:induction false} MoreAttempts(k: nat, run: nat, k': nat, run': nat, few: nat, attempts: nat)
    requires few <= attempts && LockStep(k, run, k', run', few)
    ensures LockStep(k, run, k', run', attempts)
    decreases few
  {
    var next, next' := Inject(k, run).1, Inject(k', run').1;
    if Inject(k, run).0 || Inject(k', run').0 {
      MoreAttempts(k, next, k', next', few - 1, attempts - 1);
    }
  }

  lemma {:induction false} EveryFrameLost(k: nat, run: nat, k': nat, run': nat, attempts: nat)
    requires 0 < k && 0 < k' && (k == 1 || k' == 1) && run < k && run' < k'
    ensures !LockStep(k, run, k', run', attempts)
    decreases attempts
  {
    if attempts > 0 {
      EveryFrameLost(k, Inject(k, run).1, k', Inject(k', run').1, attempts - 1);
    }
  }

  lemma {:induction false} Alternating(run: nat, run': nat, attempts: nat)
    requires run < 2 && run' < 2 && run != run'
    ensures !LockStep(2, run, 2, run', attempts)
    decreases attempts
  {
    if attempts > 0 {
      Alternating(Inject(2, run).1, Inject(2, run').1, attempts - 1);
    }
  }

  lemma ThreeAttempts(k: nat, run: nat, k': nat, run': nat)
    requires k >= 3 && k' >= 3 && run < k && run' < k'
    ensures LockStep(k, run, k', run', 3)
  {
    var a, a' := Inject(k, run).1, Inject(k', run').1;
    var b, b' := Inject(k, a).1, Inject(k', a').1;
    assert LockStep(k, a, k', a', 2) || (Inject(k, run).0 == Inject(k', run').0 == false) by {
      assert LockStep(k, b, k', b', 1) <==> !Inject(k, b).0 && !Inject(k', b').0;
    }
  }

  lemma FourAttempts(k: nat, run: nat, k': nat, run': nat)
    requires (k == 2 && k' >= 3) || (k >= 3 && k' == 2)
    requires run < k && run' < k'
    ensures LockStep(k, run, k', run', 4)
  {
    var a, a' := Inject(k, run).1, Inject(k', run').1;
    var b, b' := Inject(k, a).1, Inject(k', a').1;
    var c, c' := Inject(k, b).1, Inject(k', b').1;
    assert LockStep(k, c, k', c', 1) <==> !Inject(k, c).0 && !Inject(k', c').0;
    assert LockStep(k, b, k', b', 2) <==> (!Inject(k, b).0 && !Inject(k', b').0) || LockStep(k, c, k', c', 1);
    assert LockStep(k, a, k', a', 3) <==> (!Inject(k, a).0 && !Inject(k', a').0) || LockStep(k, b, k', b', 2);
  }

  /** Whether injected loss can ever defeat the retries, for all intervals and limits. */
  lemma LockStepIff(k: nat, k': nat, attempts: nat)
    requires k > 0 && k' > 0
    ensures AlwaysSucceeds(k, k', attempts) <==>
      || (k >= 3 && k' >= 3 && attempts >= 3)
      || (((k == 2 && k' >= 3) || (k >= 3 && k' == 2)) && attempts >= 4)
  {
    if k == 1 || k' == 1 {
      EveryFrameLost(k, 0, k', 0, attempts);
    } else if k == 2 && k' == 2 {
      Alternating(0, 1, attempts);
    } else if k >= 3 && k' >= 3 && attempts >= 3 {
      forall run: nat, run': nat | run < k && run' < k' ensures LockStep(k, run, k', run', attempts) {
        ThreeAttempts(k, run, k', run');
        MoreAttempts(k, run, k', run', 3, attempts);
      }
    } else if (k == 2 || k' == 2) && attempts >= 4 {
      forall run: nat, run': nat | run < k && run' < k' ensures LockStep(k, run, k', run', attempts) {
        FourAttempts(k, run, k', run');
        MoreAttempts(k, run, k', run', 4, attempts);
      }
    } else {
      TooFew(k, k', attempts);
    }
  }

  lemma TooFew(k: nat, k': nat, attempts: nat)
    requires k >= 2 && k' >= 2 && (k >= 3 || k' >= 3)
    requires attempts <= 3 && (attempts == 3 ==> k == 2 || k' == 2)
    ensures !AlwaysSucceeds(k, k', attempts)
  {
    var run, run' := if k == 2 then 1 else k - 2, if k == 2 then k' - 2 else k' - 1;
    var a, a' := Inject(k, run).1, Inject(k', run').1;
    var b, b' := Inject(k, a).1, Inject(k', a').1;
    assert !LockStep(k, run, k', run', 3) || attempts < 3;
    assert !LockStep(k, b, k', b', 0);
    assert !LockStep(k, a, k', a', 1) && !LockStep(k, run, k', run', 2);
    assert !LockStep(k, run, k', run', attempts);
  }

  // ---------------------------------------------------------------------------
  // The link in place

  class Link {
    const wire: Wire
    const socket: Socket
    var lossFreeRun: nat

    constructor (w: Wire, s: Socket)
      ensures wire == w && socket == s && lossFreeRun == 0
    {
      wire, socket, lossFreeRun := w, s, 0;
    }

    ghost function Now(): Conn
      reads this, socket
    {
      Conn(socket.inbox, socket.outcomes, socket.outbox, lossFreeRun)
    }

    /** So far every send and receive happened under its own epoll interest. */
    ghost predicate Clean()
      reads socket
    {
      Disciplined(socket.io)
    }

    /** Slip_SlipCharToRawChars: the frame is decoded in place. */
    method SlipCharToRawChars(ch: byte, frame: array<byte>, rawLength: nat, normal: bool)
      returns (rawLength': nat, normal': bool, done: bool)
      requires rawLength <= frame.Length
      modifies frame
      ensures rawLength' <= frame.Length
      ensures (Decoder(frame[..rawLength'], normal'), done) ==
              Feed(Decoder(old(frame[..rawLength]), normal), ch, frame.Length)
    {
      rawLength', normal', done := rawLength, true, false;
      var b := ch;
      if normal {
        if ch == END { return rawLength, true, true; }
        if ch == ESC { return rawLength, false, false; }
      } else if ch == ESC_END {
        b := END;
      } else if ch == ESC_ESC {
        b := ESC;
      }
      if rawLength < frame.Length {
        ghost var before := frame[..rawLength];
        frame[rawLength] := b;
        rawLength' := rawLength + 1;
        assert frame[..rawLength'] == before + [b];
      }
    }

    method ReadPhysicalFrame(frame: array<byte>) returns (length: nat)
      requires frame.Length == wire.maxFrame && Clean() && socket.interest == EPOLLIN
      modifies socket`inbox, socket`io, frame
      ensures length <= frame.Length && Clean()
      ensures (frame[..length], socket.inbox) == PhysicalFrame(old(socket.inbox), wire.maxFrame, wire.timeout)
    {
      var rawLength: nat, timeoutCounter: nat := 0, 0;
      var slipNormal := true;
      ghost var whole := PhysicalFrame(socket.inbox, wire.maxFrame, wire.timeout);
      var ch := new byte[1];
      var done := false;
      while rawLength <= wire.maxFrame && timeoutCounter < wire.timeout && !done
        invariant rawLength <= frame.Length && Clean() && ch != frame && fresh(ch)
        invariant done ==> timeoutCounter < wire.timeout && whole == (frame[..rawLength], socket.inbox)
        invariant !done ==>
          whole == Scan(socket.inbox, Decoder(frame[..rawLength], slipNormal), timeoutCounter,
                        wire.maxFrame, wire.timeout)
        decreases if done then 0 else 1, |socket.inbox|, wire.timeout - timeoutCounter
      {
        ghost var polls := socket.inbox;
        var bytesRead := socket.IPUtilReceiveData(ch, 1);
        ReceiveOne(polls);
        if bytesRead < 1 {
          timeoutCounter := timeoutCounter + READSLEEP;
        } else {
          rawLength, slipNormal, done := SlipCharToRawChars(ch[0], frame, rawLength, slipNormal);
        }
      }
      length := if timeoutCounter < wire.timeout then rawLength else 0;
      assert frame[..0] == [];
    }

    method ReadFrame(frame: array<byte>) returns (length: nat)
      requires frame.Length == wire.maxFrame && Clean() && socket.interest == EPOLLIN
      modifies this`lossFreeRun, socket`inbox, socket`io, frame
      ensures length <= frame.Length && Clean()
      ensures (frame[..length], Now()) == FrameRead(wire, old(Now()))
    {
      ghost var c := Now();
      length := ReadPhysicalFrame(frame);
      while length == wire.headerSize && wire.cmdOf(frame[..length]) == HEARTBEAT
        invariant length <= frame.Length && Clean() && lossFreeRun == c.lossFreeRun
        invariant NextFrame(wire, c.inbox) ==
          if IsHeartbeat(wire, frame[..length]) then NextFrame(wire, socket.inbox) else (frame[..length], socket.inbox)
        decreases |socket.inbox| + if length == 0 then 0 else 1
      {
        length := ReadPhysicalFrame(frame);
      }
      if wire.lossInterval > 0 {
        lossFreeRun := lossFreeRun + 1;
        if lossFreeRun >= wire.lossInterval {
          length := 0;
          lossFreeRun := 0;
          assert frame[..length] == [];
        }
      }
    }

    method LinkSend(frame: seq<byte>)
      requires Clean() && socket.interest == EPOLLOUT
      modifies socket`outcomes, socket`outbox, socket`io
      ensures Clean() && Now() == Transmit(old(Now()), frame)
    {
      var n := socket.IPUtilSendData(Encode(frame));
    }

    method ReadAck() returns (acknowledged: Cmd)
      requires Clean() && socket.interest == EPOLLIN
      modifies this`lossFreeRun, socket`inbox, socket`io
      ensures Clean() && (acknowledged, Now()) == AckRead(wire, old(Now()))
    {
      acknowledged := NACK;
      var rawBuffer := new byte[wire.maxFrame];
      var rawLength := ReadFrame(rawBuffer);
      if rawLength == wire.headerSize {
        var header := rawBuffer[..rawLength];
        if wire.crcOf(header) == wire.seed && wire.cmdOf(header) == ACK {
          acknowledged := ACK;
        }
      }
    }

    /** Sends and waits; leaves the connection registered for EPOLLIN. */
    method LinkSendData(m: seq<byte>) returns (n: nat)
      requires Clean()
      modifies this`lossFreeRun, socket
      ensures Clean() && socket.interest == EPOLLIN
      ensures (n, Now()) == SendData(wire, old(Now()), m)
    {
      socket.ModifyEpollEvent(EPOLLOUT);
      LinkSend(DataFrame(wire, m));
      socket.ModifyEpollEvent(EPOLLIN);
      var acknowledged := ReadAck();
      n := if acknowledged == ACK then |m| else 0;
    }

    /** If it makes no attempt the registration stays as it was. */
    method LinkSendRetry(m: seq<byte>) returns (dataSent: nat)
      requires Clean()
      modifies this`lossFreeRun, socket
      ensures Clean() && (socket.interest == EPOLLIN || socket.interest == old(socket.interest))
      ensures (dataSent, Now()) == SendRetry(wire, old(Now()), m, 0, 0)
      ensures dataSent == 0 || dataSent == |m|
    {
      var retry := 0;
      dataSent := 0;
      while retry < wire.retryMax && |m| != dataSent
        invariant 0 <= retry <= wire.retryMax && Clean()
        invariant socket.interest == EPOLLIN || socket.interest == old(socket.interest)
        invariant dataSent == 0 || dataSent == |m|
        invariant SendRetry(wire, Now(), m, retry, dataSent) == SendRetry(wire, old(Now()), m, 0, 0)
      {
        retry := retry + 1;
        dataSent := LinkSendData(m);
      }
    }

    method ReadMessage(message: array<byte>) returns (messageLength: nat)
      requires Clean() && socket.interest == EPOLLIN && IsMessage(wire, message[..])
      modifies this`lossFreeRun, socket, message
      ensures Clean() && socket.interest == EPOLLIN
      ensures (messageLength, message[..], Now()) == MessageRead(wire, old(Now()), old(message[..]))
    {
      var rawBuffer := new byte[wire.maxFrame];
      var rawLength := ReadFrame(rawBuffer);
      messageLength := 0;
      if rawLength >= wire.headerSize {
        var f := rawBuffer[..rawLength];
        if wire.cmdOf(f) == DATA {
          messageLength := rawLength - wire.headerSize;
          var data := f[wire.headerSize..];
          var intact := wire.crcOf(f) == wire.crc16(data);
          if intact {
            CopyIn(message, data);
          }
          socket.ModifyEpollEvent(EPOLLOUT);
          LinkSend(Control(wire, if intact then ACK else NACK));
          socket.ModifyEpollEvent(EPOLLIN);
        }
      }
    }

    method CopyIn(message: array<byte>, data: seq<byte>)
      requires |data| <= message.Length
      modifies message
      ensures message[..] == CopyOver(data, old(message[..]))
    {
      forall i | 0 <= i < |data| {
        message[i] := data[i];
      }
    }

    method AmilinkReadMessage(message: array<byte>) returns (messageLength: nat)
      requires Clean() && socket.interest == EPOLLIN && IsMessage(wire, message[..])
      modifies this`lossFreeRun, socket, message
      ensures Clean() && socket.interest == EPOLLIN
      ensures (messageLength, message[..], Now()) == ReadMessageRetry(wire, old(Now()), old(message[..]), 0, 0)
    {
      var retry := 0;
      messageLength := 0;
      while retry < wire.retryMax && messageLength == 0
        invariant 0 <= retry <= wire.retryMax && Clean() && socket.interest == EPOLLIN
        invariant ReadMessageRetry(wire, Now(), message[..], retry, messageLength) ==
                  ReadMessageRetry(wire, old(Now()), old(message[..]), 0, 0)
      {
        retry := retry + 1;
        messageLength := ReadMessage(message);
      }
    }

    method AmilinkHeartbeat() returns (ok: bool)
      requires Clean()
      modifies socket
      ensures Clean() && socket.interest == EPOLLIN
      ensures (ok, Now()) == Heartbeat(wire, old(Now()))
    {
      var bytes := Encode(Control(wire, HEARTBEAT));
      socket.ModifyEpollEvent(EPOLLOUT);
      var sendLen := socket.IPUtilSendData(bytes);
      socket.ModifyEpollEvent(EPOLLIN);
      ok := sendLen == |bytes|;
    }
  }

  lemma ReceiveOne(polls: seq<Poll>)
    ensures var (got, failed, rest) := Receive(polls, 1);
      if polls == [] then got == [] && rest == []
      else rest == polls[1..] && got == if polls[0].Got? then [polls[0].b] else []
  {
    if polls != [] && polls[0].Got? {
      assert Receive(polls[1..], 0).0 == [];
    }
  }
}
