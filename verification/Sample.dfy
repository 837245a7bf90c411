/** A concrete wire, and a data set pushed over it: what the general theorems assume can be
    met, all at once. */
module Sample {
  import opened Bytes
  import opened AmiLink
  import opened Dialogue
  import opened Refinement
  import Assembly
  import Server

  function Code(k: Cmd): byte {
    match k
    case DATA => 0
    case ACK => 1
    case NACK => 2
    case HEARTBEAT => 3
    case Other(_) => 4
  }

  function Command(b: byte): Cmd {
    if b == 0 then DATA else if b == 1 then ACK else if b == 2 then NACK else if b == 3 then HEARTBEAT else Other(b)
  }

  /** Three bytes: the CRC, high byte first, and the command. */
  function Header(c: Crc16, k: Cmd): seq<byte> {
    [c / 256, c % 256, Code(k)]
  }

  function CrcOf(s: seq<byte>): Crc16 {
    if |s| < 2 then 0
    else
      var high: nat := s[0];
      256 * high + s[1]
  }

  function CmdOf(s: seq<byte>): Cmd {
    if |s| < 3 then Other(0) else Command(s[2])
  }

  /** Some checksum. */
  function Checksum(s: seq<byte>): Crc16
    decreases |s|
  {
    if s == [] then 7 else (31 * Checksum(s[..|s|-1]) + s[|s|-1]) % 0x1_0000
  }

  const WIRE: Wire := Format(3, 16, 3, 1000, 3, 7, Checksum, Header, CrcOf, CmdOf)

  /** The assumption on headers can be met. */
  lemma WireIsReadable()
    ensures Readable(WIRE)
  {
    forall c: Crc16, k: Cmd, d: seq<byte> | !k.Other?
      ensures WIRE.crcOf(WIRE.header(c, k) + d) == c && WIRE.cmdOf(WIRE.header(c, k) + d) == k
    {
      var f := Header(c, k) + d;
      assert f[0] == c / 256 && f[1] == c % 256 && f[2] == Code(k);
    }
  }

  /** Offset, length, total length and two bytes of data. */
  function Parse(m: seq<byte>): Assembly.Block {
    if |m| < 5 then Assembly.Block(0, 0, 0, []) else Assembly.Block(m[0], m[1], m[2], m[3..5])
  }

  function Serve(i: nat, buffer: seq<byte>): Server.Request {
    Server.RawDataPush(Parse(buffer), [0])
  }

  const MESSAGES: seq<seq<byte>> := [[0, 2, 4, 1, 1], [2, 2, 4, 9, 8]]
  const PAYLOAD: seq<byte> := [1, 1, 9, 8]
  const PUSH: Push := Push(WIRE, 3, Conn([], [], [], 0), Conn([], [], [], 0), MESSAGES, Repeat(0, 13), [0])

  lemma PushIsSendable()
    ensures Sendable(PUSH) && |PUSH.msgs| > 1 && MildLoss(PUSH)
  {
    WireIsReadable();
  }

  lemma PayloadIsCut()
    ensures Assembly.ValidLayout(Assembly.TINY) && Assembly.Valid(Assembly.TINY, Assembly.EMPTY)
    ensures Assembly.Cut(Assembly.TINY, PAYLOAD, Parsed(Parse, MESSAGES))
  {
    var b0, b1 := Assembly.Block(0, 2, 4, [1, 1]), Assembly.Block(2, 2, 4, [9, 8]);
    assert MESSAGES[0][3..5] == [1, 1] && MESSAGES[1][3..5] == [9, 8];
    var bs := Parsed(Parse, MESSAGES);
    assert bs == [b0, b1];
    assert PAYLOAD[0..2] == [1, 1] && PAYLOAD[2..4] == [9, 8] && PAYLOAD[..2] == [1, 1];
    assert b0.data[..2] == [1, 1] && b1.data[..2] == [9, 8];
    assert Assembly.Piece(PAYLOAD, b0) && Assembly.Piece(PAYLOAD, b1);
    assert Assembly.Follows(bs, 1);
  }

  lemma BlocksAreFound()
    ensures FindsBlocks(Serve, Parse, MESSAGES)
  {
    forall i: nat, m, buffer | m in MESSAGES && Holds(buffer, m)
      ensures FindsBlock(Serve(i, buffer), Parse(m))
    {
      assert |m| == 5;
      assert buffer[3..5] == m[3..5];
    }
  }

  /** So the theorems speak of this push, and of any other of these messages: however the
      handler's buffers end and the last message repeats, one set of four bytes is inserted. */
  lemma SampleInserts(p: Push, extra: nat, turns: seq<Server.Turn>)
    requires Sendable(p) && MildLoss(p) && p.msgs == MESSAGES
    requires Server.Received(turns) == Given(p, extra)
    requires Server.Parses(Serve, Server.Buffers(turns), Server.Requests(turns))
    ensures Assembly.ValidLayout(Assembly.TINY) && Assembly.Valid(Assembly.TINY, Assembly.EMPTY)
    ensures Server.HandleAll(Assembly.TINY, Assembly.EMPTY, Server.Requests(turns)) ==
            Some(Inserted(Assembly.EMPTY, PAYLOAD))
  {
    PayloadIsCut();
    BlocksAreFound();
    HandlerOneInsert(p, extra, Assembly.TINY, Assembly.EMPTY, PAYLOAD, Parse, Serve, turns);
  }
}
