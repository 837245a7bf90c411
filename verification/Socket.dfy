/** The partial-progress loops of iputil.c over a non-blocking socket, and the epoll
    interest under which each of them runs. */
module Socket {
  import opened Bytes
  import opened Slip

  /** What one send() does: take up to `n` bytes, report EAGAIN, or fail. */
  datatype SendOutcome = Took(n: nat) | Again | Broken

  /** The events a connection is registered for; it is always one of the two. */
  datatype Interest = EPOLLIN | EPOLLOUT

  datatype Io = Sent(under: Interest) | Received(under: Interest)

  /** Every send happened under EPOLLOUT and every receive under EPOLLIN. */
  predicate Disciplined(io: seq<Io>) {
    forall i :: 0 <= i < |io| ==> io[i] == Sent(EPOLLOUT) || io[i] == Received(EPOLLIN)
  }

  /** How far IPUtilSendData gets with `len` bytes, and whether it reports an error. */
  function Progress(outcomes: seq<SendOutcome>, len: nat): (r: (nat, bool, seq<SendOutcome>))
    ensures r.0 <= len
    decreases |outcomes|
  {
    if len == 0 then (0, false, outcomes)
    else if outcomes == [] then (len, false, [])
    else match outcomes[0]
      case Took(n) =>
        var now := if n < len then n else len;
        var (more, failed, rest) := Progress(outcomes[1..], len - now);
        (now + more, failed, rest)
      case Again => (0, false, outcomes[1..])
      case Broken => (0, true, outcomes[1..])
  }

  /** The bytes these sends took. */
  function Taken(outcomes: seq<SendOutcome>): nat
    decreases |outcomes|
  {
    if outcomes == [] then 0 else (if outcomes[0].Took? then outcomes[0].n else 0) + Taken(outcomes[1..])
  }

  /** After `k` sends it is done: it stops short exactly at an EAGAIN or an error, with the
      bytes taken before, and reports an error exactly then; otherwise the sends took all,
      and no send was made without need. */
  lemma {:induction false} ProgressStops(outcomes: seq<SendOutcome>, len: nat) returns (k: nat)
    ensures k <= |outcomes|
    ensures var (count, failed, rest) := Progress(outcomes, len);
      && rest == outcomes[k..]
      && (forall i :: 0 <= i < k - 1 ==> outcomes[i].Took?)
      && (count < len <==> k > 0 && !outcomes[k-1].Took?)
      && (failed <==> k > 0 && outcomes[k-1].Broken?)
      && (count < len ==> count == Taken(outcomes[..k-1]))
      && (count == len ==> len <= Taken(outcomes[..k]) || k == |outcomes|)
      && (k > 0 ==> Taken(outcomes[..k-1]) < len)
    decreases |outcomes|
  {
    if len == 0 || outcomes == [] {
      k := 0;
    } else if outcomes[0].Took? {
      var n := outcomes[0].n;
      var more := ProgressStops(outcomes[1..], len - if n < len then n else len);
      k := more + 1;
      assert forall i :: 0 < i < k ==> outcomes[i] == outcomes[1..][i-1];
      assert outcomes[..k][1..] == outcomes[1..][..more];
      if more > 0 { assert outcomes[..k-1][1..] == outcomes[1..][..more-1]; }
    } else {
      k := 1;
    }
  }

  /** What IPUtilReceiveData of at most `room` bytes reads, whether it reports an
      error, and what is left. */
  function Receive(polls: seq<Poll>, room: nat): (r: (seq<byte>, bool, seq<Poll>))
    ensures |r.0| <= room
    decreases room
  {
    if room == 0 || polls == [] then ([], false, polls)
    else match polls[0]
      case Got(b) =>
        var (more, failed, rest) := Receive(polls[1..], room - 1);
        ([b] + more, failed, rest)
      case Failed => ([], true, polls[1..])
      case _ => ([], false, polls[1..])
  }

  /** It reads the bytes of the first polls, and stops short exactly at a poll without one,
      which is the last it makes, or when there are no more; an error is a failed poll. */
  lemma {:induction false} ReceiveStops(polls: seq<Poll>, room: nat) returns (k: nat)
    ensures k <= |polls|
    ensures var (got, failed, rest) := Receive(polls, room);
      && rest == polls[k..]
      && (forall i :: 0 <= i < |got| ==> i < k && polls[i] == Got(got[i]))
      && (failed <==> k > 0 && polls[k-1].Failed?)
      && (if |got| == room then k == room
          else if k > 0 && !polls[k-1].Got? then k == |got| + 1
          else k == |got| == |polls|)
    decreases room
  {
    if room == 0 || polls == [] {
      k := 0;
    } else if polls[0].Got? {
      var more := ReceiveStops(polls[1..], room - 1);
      k := more + 1;
      assert forall i :: 0 < i < k ==> polls[i] == polls[1..][i-1];
      var (got, _, _) := Receive(polls, room);
      assert forall i :: 0 < i < |got| ==> got[i] == Receive(polls[1..], room - 1).0[i-1];
    } else {
      k := 1;
    }
  }

  /** No byte is lost or reordered between what arrived and what is left to arrive. */
  lemma {:induction false} ReceiveConserves(polls: seq<Poll>, room: nat)
    ensures var (got, _, rest) := Receive(polls, room);
      Arrived(polls) == got + Arrived(rest)
    decreases room
  {
    if room > 0 && polls != [] {
      if polls[0].Got? {
        ReceiveConserves(polls[1..], room - 1);
      }
    }
  }

  /** Two receives in a row read what one larger one would, if the first was full. */
  lemma {:induction false} ReceiveSplits(polls: seq<Poll>, a: nat, b: nat)
    requires |Receive(polls, a).0| == a
    ensures var (x, _, mid) := Receive(polls, a);
      var (y, failed, rest) := Receive(mid, b);
      Receive(polls, a + b) == (x + y, failed, rest)
    decreases a
  {
    if a > 0 {
      ReceiveSplits(polls[1..], a - 1, b);
      var x, y := Receive(polls[1..], a - 1).0, Receive(Receive(polls, a).2, b).0;
      assert [polls[0].b] + (x + y) == ([polls[0].b] + x) + y;
    } else {
      assert [] + Receive(polls, b).0 == Receive(polls, b).0;
    }
  }

  class Socket {
    var inbox: seq<Poll>
    var outcomes: seq<SendOutcome>
    var outbox: seq<byte>          // bytes the kernel accepted
    var interest: Interest
    ghost var io: seq<Io>

    constructor (inbox: seq<Poll>, outcomes: seq<SendOutcome>)
      ensures this.inbox == inbox && this.outcomes == outcomes && outbox == []
      ensures interest == EPOLLIN && io == []
    {
      this.inbox, this.outcomes, outbox := inbox, outcomes, [];
      interest, io := EPOLLIN, [];
    }

    method ModifyEpollEvent(i: Interest)
      modifies this`interest
      ensures interest == i
    {
      interest := i;
    }

    method IPUtilSendData(buffer: seq<byte>) returns (n: int)
      modifies this`outcomes, this`outbox, this`io
      ensures var (count, failed, rest) := Progress(old(outcomes), |buffer|);
        && outcomes == rest
        && outbox == old(outbox) + buffer[..count]
        && n == if failed then -1 else count
      ensures io == old(io) + [Sent(interest)]
    {
      io := io + [Sent(interest)];
      var totalSent := 0;
      assert buffer[..0] == [];
      while totalSent < |buffer|
        invariant 0 <= totalSent <= |buffer|
        invariant outbox == old(outbox) + buffer[..totalSent]
        invariant io == old(io) + [Sent(interest)]
        invariant var (count, failed, rest) := Progress(outcomes, |buffer| - totalSent);
          Progress(old(outcomes), |buffer|) == (totalSent + count, failed, rest)
        decreases |outcomes|, |buffer| - totalSent
      {
        var sendLen := |buffer| - totalSent;
        if outcomes != [] {
          var outcome := outcomes[0];
          outcomes := outcomes[1..];
          if outcome == Broken { return -1; }
          if outcome == Again { break; }
          if outcome.n < sendLen { sendLen := outcome.n; }
        }
        outbox := outbox + buffer[totalSent..totalSent + sendLen];
        assert buffer[..totalSent] + buffer[totalSent..totalSent + sendLen] == buffer[..totalSent + sendLen];
        totalSent := totalSent + sendLen;
      }
      n := totalSent;
    }

    method IPUtilReceiveData(buffer: array<byte>, maxlen: nat) returns (n: int)
      requires maxlen <= buffer.Length
      modifies this`inbox, this`io, buffer
      ensures var (got, failed, rest) := Receive(old(inbox), maxlen);
        && inbox == rest
        && buffer[..] == got + old(buffer[|got|..])
        && n == if failed then -1 else |got|
      ensures io == old(io) + [Received(interest)]
    {
      io := io + [Received(interest)];
      var totalBytesRead := 0;
      ghost var all := Receive(inbox, maxlen);
      while totalBytesRead < maxlen
        invariant 0 <= totalBytesRead <= maxlen && totalBytesRead <= |all.0|
        invariant forall i :: 0 <= i < totalBytesRead ==> buffer[i] == all.0[i]
        invariant forall i :: totalBytesRead <= i < buffer.Length ==> buffer[i] == old(buffer[i])
        invariant io == old(io) + [Received(interest)]
        invariant Receive(inbox, maxlen - totalBytesRead) == (all.0[totalBytesRead..], all.1, all.2)
      {
        if inbox == [] { break; }
        var poll := inbox[0];
        inbox := inbox[1..];
        if poll == Failed { return -1; }
        if poll == WouldBlock || poll == Closed { break; }
        ghost var more := Receive(inbox, maxlen - totalBytesRead - 1).0;
        assert all.0[totalBytesRead..] == [poll.b] + more;
        assert all.0[totalBytesRead] == poll.b && all.0[totalBytesRead + 1..] == more by {
          assert all.0[totalBytesRead..][1..] == all.0[totalBytesRead + 1..];
        }
        buffer[totalBytesRead] := poll.b;
        totalBytesRead := totalBytesRead + 1;
      }
      n := totalBytesRead;
    }
  }
}
