/** SLIP framing (section "PROTOCOL" of RFC 1055) and readPhysicalFrame's loop over a
    non-blocking socket. */
module Slip {
  import opened Bytes

  const END: byte := 192
  const ESC: byte := 219
  const ESC_END: byte := 220
  const ESC_ESC: byte := 221

  function EncodeByte(b: byte): seq<byte> {
    if b == END then [ESC, ESC_END] else if b == ESC then [ESC, ESC_ESC] else [b]
  }

  function Body(frame: seq<byte>): seq<byte>
    decreases |frame|
  {
    if frame == [] then [] else EncodeByte(frame[0]) + Body(frame[1..])
  }

  function Encode(frame: seq<byte>): seq<byte> {
    Body(frame) + [END]
  }

  /** The two special bytes, and one that is not, as RFC 1055 has them on the wire. */
  lemma SpecialBytes()
    ensures Encode([0xC0, 0x01, 0xDB]) == [0xDB, 0xDC, 0x01, 0xDB, 0xDD, 0xC0]
  {
    var f: seq<byte> := [0xC0, 0x01, 0xDB];
    assert f[1..] == [0x01, 0xDB] && f[1..][1..] == [0xDB] && f[1..][1..][1..] == [];
  }

  lemma {:induction false} BodyLength(frame: seq<byte>)
    ensures |frame| <= |Body(frame)| <= 2 * |frame|
    decreases |frame|
  {
    if frame != [] { BodyLength(frame[1..]); }
  }

  lemma {:induction false} AllEscaped(n: nat)
    ensures |Body(Repeat(END, n))| == 2 * n
  {
    if n > 0 {
      assert Repeat(END, n)[1..] == Repeat(END, n - 1);
      AllEscaped(n - 1);
    }
  }

  /** A transmit buffer of 2 * size bytes holds the encoding of every frame of length
      n exactly when n < size. */
  lemma EncodingFitsIff(n: nat, size: nat)
    ensures (forall f: seq<byte> :: |f| == n ==> |Encode(f)| <= 2 * size) <==> n < size
  {
    if n < size {
      forall f: seq<byte> | |f| == n ensures |Encode(f)| <= 2 * size { BodyLength(f); }
    } else {
      AllEscaped(n);
      assert |Encode(Repeat(END, n))| == 2 * n + 1;
    }
  }

  /** The frame so far and `slipNormal`. */
  datatype Decoder = Decoder(raw: seq<byte>, normal: bool)

  const START: Decoder := Decoder([], true)

  function Store(d: Decoder, b: byte, max: nat): Decoder {
    Decoder(if |d.raw| < max then d.raw + [b] else d.raw, true)
  }

  /** One received byte; true when it ends the frame. */
  function Feed(d: Decoder, ch: byte, max: nat): (Decoder, bool) {
    if d.normal then
      if ch == END then (d, true)
      else if ch == ESC then (d.(normal := false), false)
      else (Store(d, ch, max), false)
    else
      (Store(d, if ch == ESC_END then END else if ch == ESC_ESC then ESC else ch, max), false)
  }

  /** Feeding `bs` ends no frame and leads to the result. */
  function FeedAll(d: Decoder, bs: seq<byte>, max: nat): Option<Decoder>
    decreases |bs|
  {
    if bs == [] then Some(d)
    else
      var (e, done) := Feed(d, bs[0], max);
      if done then None else FeedAll(e, bs[1..], max)
  }

  lemma {:induction false} FeedBody(frame: seq<byte>, before: seq<byte>, max: nat)
    requires |before| + |frame| <= max
    ensures FeedAll(Decoder(before, true), Body(frame), max) == Some(Decoder(before + frame, true))
    decreases |frame|
  {
    if frame == [] {
      assert before + frame == before;
    } else {
      var e, rest := EncodeByte(frame[0]), Body(frame[1..]);
      var next := Decoder(before + [frame[0]], true);
      FeedByte(frame[0], before, rest, max);
      FeedBody(frame[1..], before + [frame[0]], max);
      assert before + [frame[0]] + frame[1..] == before + frame;
    }
  }

  lemma FeedByte(b: byte, before: seq<byte>, rest: seq<byte>, max: nat)
    requires |before| < max
    ensures FeedAll(Decoder(before, true), EncodeByte(b) + rest, max) ==
            FeedAll(Decoder(before + [b], true), rest, max)
  {
    var bs := EncodeByte(b) + rest;
    if b == END || b == ESC {
      assert bs[1..][1..] == rest;
      assert FeedAll(Decoder(before, false), bs[1..], max) == FeedAll(Decoder(before + [b], true), rest, max);
    } else {
      assert bs[1..] == rest;
    }
  }

  // ---------------------------------------------------------------------------
  // Reading from a socket that may have nothing to give

  /** One recv of one byte. */
  datatype Poll = Got(b: byte) | WouldBlock | Closed | Failed

  const READSLEEP: nat := 20000

  /** The bytes among the polls, and how many polls gave none. */
  function Arrived(polls: seq<Poll>): seq<byte>
    decreases |polls|
  {
    if polls == [] then []
    else (if polls[0].Got? then [polls[0].b] else []) + Arrived(polls[1..])
  }

  function Idle(polls: seq<Poll>): nat
    decreases |polls|
  {
    if polls == [] then 0 else (if polls[0].Got? then 0 else 1) + Idle(polls[1..])
  }

  /** readPhysicalFrame from the middle of its loop: `waited` is timeoutCounter. The
      empty frame stands for its 0. After the last poll nothing ever arrives. */
  function Scan(polls: seq<Poll>, d: Decoder, waited: nat, max: nat, timeout: nat): (r: (seq<byte>, seq<Poll>))
    ensures |r.1| <= |polls| && (r.0 != [] ==> |r.1| < |polls|)
    ensures |d.raw| <= max ==> |r.0| <= max
    decreases |polls|
  {
    if waited >= timeout || polls == [] then ([], polls)
    else if polls[0].Got? then
      var (e, done) := Feed(d, polls[0].b, max);
      if done then (e.raw, polls[1..]) else Scan(polls[1..], e, waited, max, timeout)
    else Scan(polls[1..], d, waited + READSLEEP, max, timeout)
  }

  function PhysicalFrame(polls: seq<Poll>, max: nat, timeout: nat): (r: (seq<byte>, seq<Poll>))
    ensures |r.1| <= |polls| && (r.0 != [] ==> |r.1| < |polls|)
    ensures |r.0| <= max
  {
    Scan(polls, START, 0, max, timeout)
  }

  /** The polls carry the encoding of one frame, in time, and end with its last byte. */
  predicate Carries(polls: seq<Poll>, frame: seq<byte>, max: nat, timeout: nat) {
    && |frame| <= max
    && polls != [] && polls[|polls|-1].Got?
    && Arrived(polls) == Encode(frame)
    && Idle(polls) * READSLEEP < timeout
  }

  lemma {:induction false} ScanCarries(polls: seq<Poll>, rest: seq<Poll>, d: Decoder, waited: nat,
                                      bs: seq<byte>, frame: seq<byte>, max: nat, timeout: nat)
    requires polls != [] && polls[|polls|-1].Got?
    requires Arrived(polls) == bs + [END]
    requires FeedAll(d, bs, max) == Some(Decoder(frame, true))
    requires waited + Idle(polls) * READSLEEP < timeout
    ensures Scan(polls + rest, d, waited, max, timeout) == (frame, rest)
    decreases |polls|
  {
    var p := polls + rest;
    assert p[1..] == polls[1..] + rest;
    if !polls[0].Got? {
      ScanCarries(polls[1..], rest, d, waited + READSLEEP, bs, frame, max, timeout);
    } else {
      assert Arrived(polls)[0] == polls[0].b && Arrived(polls)[1..] == Arrived(polls[1..]);
      if bs == [] {
        NothingMore(polls);
      } else {
        assert (bs + [END])[1..] == bs[1..] + [END];
        assert Arrived(polls[1..]) != [];
        ScanCarries(polls[1..], rest, Feed(d, bs[0], max).0, waited, bs[1..], frame, max, timeout);
      }
    }
  }

  lemma NothingMore(polls: seq<Poll>)
    requires |polls| > 0 && polls[0].Got? && |Arrived(polls)| == 1 && polls[|polls|-1].Got?
    ensures |polls| == 1
  {
    if |polls| > 1 { LastArrives(polls[1..]); }
  }

  lemma {:induction false} LastArrives(polls: seq<Poll>)
    requires polls != [] && polls[|polls|-1].Got?
    ensures |Arrived(polls)| > 0
    decreases |polls|
  {
    if |polls| > 1 { LastArrives(polls[1..]); }
  }

  /** A frame delivered byte by byte, with idle polls anywhere before its end as long
      as they stay within the budget, is read back exactly, and nothing after it is
      touched. */
  lemma ReadsBack(polls: seq<Poll>, rest: seq<Poll>, frame: seq<byte>, max: nat, timeout: nat)
    requires Carries(polls, frame, max, timeout)
    ensures PhysicalFrame(polls + rest, max, timeout) == (frame, rest)
  {
    FeedBody(frame, [], max);
    assert [] + frame == frame;
    ScanCarries(polls, rest, START, 0, Body(frame), frame, max, timeout);
  }

  /** The bytes among the polls do not end a frame, and the last poll, which is idle, uses
      up the budget. */
  predicate UsesUpBudget(polls: seq<Poll>, d: Decoder, waited: nat, max: nat, timeout: nat) {
    && polls != [] && !polls[|polls|-1].Got?
    && FeedAll(d, Arrived(polls), max).Some?
    && waited + (Idle(polls) - 1) * READSLEEP < timeout <= waited + Idle(polls) * READSLEEP
  }

  lemma {:induction false} ScanTooLate(polls: seq<Poll>, rest: seq<Poll>, d: Decoder, waited: nat,
                                       max: nat, timeout: nat)
    requires UsesUpBudget(polls, d, waited, max, timeout)
    ensures Scan(polls + rest, d, waited, max, timeout) == ([], rest)
    decreases |polls|
  {
    var p := polls + rest;
    assert p[1..] == polls[1..] + rest;
    SomeIdle(polls);
    if polls[0].Got? {
      assert Arrived(polls)[0] == polls[0].b && Arrived(polls)[1..] == Arrived(polls[1..]);
      ScanTooLate(polls[1..], rest, Feed(d, polls[0].b, max).0, waited, max, timeout);
    } else if |polls| > 1 {
      SomeIdle(polls[1..]);
      assert Arrived(polls) == Arrived(polls[1..]);
      ScanTooLate(polls[1..], rest, d, waited + READSLEEP, max, timeout);
    }
  }

  lemma {:induction false} SomeIdle(polls: seq<Poll>)
    requires polls != [] && !polls[|polls|-1].Got?
    ensures Idle(polls) > 0
    decreases |polls|
  {
    if |polls| > 1 { SomeIdle(polls[1..]); }
  }

  /** A frame that has not ended when its idle polls are worth the budget is given up at that
      poll: the read returns 0, what came of the frame is gone, and what comes later is left
      for the next read. */
  lemma TooLate(polls: seq<Poll>, rest: seq<Poll>, max: nat, timeout: nat)
    requires UsesUpBudget(polls, START, 0, max, timeout)
    ensures PhysicalFrame(polls + rest, max, timeout) == ([], rest)
  {
    ScanTooLate(polls, rest, START, 0, max, timeout);
  }

  function Flatten(parts: seq<seq<Poll>>): seq<Poll>
    decreases |parts|
  {
    if parts == [] then [] else parts[0] + Flatten(parts[1..])
  }

  /** `n` successive reads. */
  function ReadMany(polls: seq<Poll>, n: nat, max: nat, timeout: nat): (seq<seq<byte>>, seq<Poll>)
    decreases n
  {
    if n == 0 then ([], polls)
    else
      var (f, rest) := PhysicalFrame(polls, max, timeout);
      var (fs, last) := ReadMany(rest, n - 1, max, timeout);
      ([f] + fs, last)
  }

  /** Any sequence of frames sent one after the other comes back as it was sent. */
  lemma {:induction false} FramingRoundTrip(parts: seq<seq<Poll>>, frames: seq<seq<byte>>, rest: seq<Poll>,
                                            max: nat, timeout: nat)
    requires |parts| == |frames|
    requires forall i :: 0 <= i < |parts| ==> Carries(parts[i], frames[i], max, timeout)
    ensures ReadMany(Flatten(parts) + rest, |frames|, max, timeout) == (frames, rest)
    decreases |parts|
  {
    if parts == [] {
      assert Flatten(parts) + rest == rest;
    } else {
      var after := Flatten(parts[1..]) + rest;
      assert Flatten(parts) + rest == parts[0] + after;
      ReadsBack(parts[0], after, frames[0], max, timeout);
      FramingRoundTrip(parts[1..], frames[1..], rest, max, timeout);
      assert [frames[0]] + frames[1..] == frames;
    }
  }
}
