/** The per-connection part of server.cpp: the request handlers and the handler loop,
    over one link. */
module Server {
  import opened Bytes
  import opened Socket
  import opened AmiLink
  import opened Transfer
  import Assembly

  /** A file or text to send: its size fits the totalLength of a block. */
  type File = f: seq<byte> | |f| < WORD

  /** What `open`, `lseek` and the successive `read` calls of the firmware handler do. */
  datatype Firmware = CannotOpen | CannotSeek | Opened(content: File, readSizes: seq<nat>)

  /** A request with what its handler finds behind it: `reply` is the response it
      builds, `algo` the text to send unless preparing it throws. */
  datatype Request =
    | DataLogPush(reply: seq<byte>)
    | DeviceRegister(reply: seq<byte>)
    | FileRequest(filename: string, algo: Option<File>, firmware: Firmware)
    | Goodbye
    | RawDataPush(block: Assembly.Block, reply: seq<byte>)
    | RawDataRequired(reply: seq<byte>)
    | Version(reply: seq<byte>)
    | FetchTest(reply: seq<byte>)
    | UnknownTopic

  /** epoll_wait reports this connection, `active` while MAX_INACTIVITY has not passed,
      or something else. */
  datatype Event = Mine(active: bool) | NotMine

  /** What a request does to the assembly; None when a copy leaves its memory. */
  function Handle(l: Assembly.Layout, st: Assembly.State, r: Request): (t: Option<Assembly.State>)
    requires Assembly.ValidLayout(l) && Assembly.Valid(l, st)
    ensures t.Some? ==> Assembly.Valid(l, t.value)
  {
    if r.RawDataPush? then
      if Assembly.Safe(l, st, r.block) then Some(Assembly.Step(l, st, r.block)) else None
    else Some(st)
  }

  function HandleAll(l: Assembly.Layout, st: Assembly.State, rs: seq<Request>): (t: Option<Assembly.State>)
    requires Assembly.ValidLayout(l) && Assembly.Valid(l, st)
    ensures t.Some? ==> Assembly.Valid(l, t.value)
    decreases |rs|
  {
    if rs == [] then Some(st)
    else
      var before := HandleAll(l, st, rs[..|rs|-1]);
      if before.Some? then Handle(l, before.value, rs[|rs|-1]) else None
  }

  lemma HandleSnoc(l: Assembly.Layout, st: Assembly.State, rs: seq<Request>, r: Request)
    requires Assembly.ValidLayout(l) && Assembly.Valid(l, st)
    ensures HandleAll(l, st, rs + [r]) ==
      if HandleAll(l, st, rs).Some? then Handle(l, HandleAll(l, st, rs).value, r) else None
  {
    assert (rs + [r])[..|rs|] == rs;
  }

  /** The blocks of the raw data pushes among the requests. */
  function Pushes(rs: seq<Request>): seq<Assembly.Block>
    decreases |rs|
  {
    if rs == [] then []
    else Pushes(rs[..|rs|-1]) + if rs[|rs|-1].RawDataPush? then [rs[|rs|-1].block] else []
  }

  /** Requests of other topics in between make no difference to the assembly. */
  lemma {:induction false} OnlyPushesMatter(l: Assembly.Layout, st: Assembly.State, rs: seq<Request>)
    requires Assembly.ValidLayout(l) && Assembly.Valid(l, st)
    ensures HandleAll(l, st, rs) == Assembly.Process(l, st, Pushes(rs))
    decreases |rs|
  {
    if rs != [] {
      var before, r := rs[..|rs|-1], rs[|rs|-1];
      OnlyPushesMatter(l, st, before);
      if r.RawDataPush? {
        assert (Pushes(before) + [r.block])[..|Pushes(before)|] == Pushes(before);
      } else {
        assert Pushes(before) + [] == Pushes(before);
      }
    }
  }

  /** The messages were parsed into the requests. `parse` knows the number of the event,
      so equal messages may find different files. */
  ghost predicate Parses(parse: (nat, seq<byte>) -> Request, ms: seq<seq<byte>>, rs: seq<Request>) {
    |ms| == |rs| && forall j :: 0 <= j < |ms| ==> ParsedSometime(parse, ms[j], rs[j])
  }

  ghost predicate ParsedSometime(parse: (nat, seq<byte>) -> Request, m: seq<byte>, r: Request) {
    exists i: nat :: r == parse(i, m)
  }

  lemma ParsesSnoc(parse: (nat, seq<byte>) -> Request, ms: seq<seq<byte>>, rs: seq<Request>, i: nat, m: seq<byte>)
    requires Parses(parse, ms, rs)
    ensures Parses(parse, ms + [m], rs + [parse(i, m)])
  {
    assert ParsedSometime(parse, m, parse(i, m));
  }

  /** One end after linkSendRetry of each of the messages. */
  function SendAll(w: Wire, c: Conn, ms: seq<seq<byte>>): Conn
    decreases |ms|
  {
    if ms == [] then c else SendRetry(w, SendAll(w, c, ms[..|ms|-1]), ms[|ms|-1], 0, 0).1
  }

  /** What each of these linkSendRetry returned. */
  function SendResults(w: Wire, c: Conn, ms: seq<seq<byte>>): (rs: seq<nat>)
    ensures |rs| == |ms|
    decreases |ms|
  {
    if ms == [] then []
    else
      var before := ms[..|ms|-1];
      SendResults(w, c, before) + [SendRetry(w, SendAll(w, c, before), ms[|ms|-1], 0, 0).0]
  }

  predicate AllDelivered(rs: seq<nat>) {
    forall i :: 0 <= i < |rs| ==> rs[i] > 0
  }

  /** The last one failed, and no other. */
  predicate LastFailed(rs: seq<nat>) {
    rs != [] && rs[|rs|-1] == 0 && AllDelivered(rs[..|rs|-1])
  }

  lemma SendOneMore(w: Wire, c: Conn, ms: seq<seq<byte>>, m: seq<byte>)
    ensures SendAll(w, c, ms + [m]) == SendRetry(w, SendAll(w, c, ms), m, 0, 0).1
    ensures SendResults(w, c, ms + [m]) == SendResults(w, c, ms) + [SendRetry(w, SendAll(w, c, ms), m, 0, 0).0]
  {
    assert (ms + [m])[..|ms|] == ms;
  }

  lemma SendJust(w: Wire, c: Conn, m: seq<byte>)
    ensures SendAll(w, c, []) == c && SendAll(w, c, [m]) == SendRetry(w, c, m, 0, 0).1
  {
    SendOneMore(w, c, [], m);
    assert [] + [m] == [m];
  }

  // ---------------------------------------------------------------------------
  // Turns of the handler loop

  /** A message was read into a buffer, of which `length` bytes count, and its request
      handled; or nothing was read, and perhaps a heartbeat sent, and gone out; or the event was
      not for this connection. `before` is what the buffer held. */
  datatype Turn =
    | Served(before: seq<byte>, buffer: seq<byte>, length: nat, request: Request, sent: seq<seq<byte>>,
             defined: bool)
    | Silent(before: seq<byte>, beat: bool, alive: bool)
    | NotOurs

  /** The turn is what amilinkReadMessage makes of the socket. */
  predicate TurnFits(w: Wire, c: Conn, t: Turn) {
    match t
    case Served(before, buffer, length, _, _, _) =>
      && IsMessage(w, before) && 0 < length <= |buffer|
      && ReadMessageRetry(w, c, before, 0, 0).0 == length && ReadMessageRetry(w, c, before, 0, 0).1 == buffer
    case Silent(before, beat, alive) =>
      && IsMessage(w, before) && ReadMessageRetry(w, c, before, 0, 0).0 == 0
      && (alive <==> beat && Heartbeat(w, ReadMessageRetry(w, c, before, 0, 0).2).0)
    case NotOurs => true
  }

  function AfterTurn(w: Wire, c: Conn, t: Turn): Conn
    requires TurnFits(w, c, t)
  {
    match t
    case Served(before, _, _, _, sent, _) => SendAll(w, ReadMessageRetry(w, c, before, 0, 0).2, sent)
    case Silent(before, beat, _) =>
      var d := ReadMessageRetry(w, c, before, 0, 0).2;
      if beat then Heartbeat(w, d).1 else d
    case NotOurs => c
  }

  /** The handler loop goes on after this turn. */
  predicate GoesOn(t: Turn) {
    match t
    case Served(_, _, _, request, _, defined) => defined && !request.Goodbye?
    case Silent(_, _, alive) => alive
    case NotOurs => true
  }

  /** There is a turn for each event up to the first that ends the loop, or up to the last. */
  predicate LoopOver(events: seq<Event>, ts: seq<Turn>) {
    LoopSoFar(events, ts) && (|ts| < |events| ==> ts != [] && !GoesOn(ts[|ts|-1]))
  }

  predicate LoopSoFar(events: seq<Event>, ts: seq<Turn>) {
    && |ts| <= |events|
    && (forall i :: 0 <= i < |ts| ==> TurnOn(events[i], ts[i]))
    && (forall i :: 0 <= i < |ts| - 1 ==> GoesOn(ts[i]))
  }

  lemma LoopSnoc(events: seq<Event>, ts: seq<Turn>, t: Turn)
    requires LoopSoFar(events, ts) && |ts| < |events| && TurnOn(events[|ts|], t)
    requires ts == [] || GoesOn(ts[|ts|-1])
    ensures LoopSoFar(events, ts + [t])
  {
  }

  /** An event of this connection is read from, and a heartbeat is due while it is active. */
  predicate TurnOn(e: Event, t: Turn) {
    match e
    case Mine(active) => !t.NotOurs? && (t.Silent? ==> t.beat == active)
    case NotMine => t.NotOurs?
  }

  /** The connection after the turns; None if they do not follow from what the socket brings. */
  function AfterTurns(w: Wire, c: Conn, ts: seq<Turn>): Option<Conn>
    decreases |ts|
  {
    if ts == [] then Some(c)
    else
      var before := AfterTurns(w, c, ts[..|ts|-1]);
      if before.Some? && TurnFits(w, before.value, ts[|ts|-1])
      then Some(AfterTurn(w, before.value, ts[|ts|-1]))
      else None
  }

  function Served(ts: seq<Turn>): seq<Turn>
    decreases |ts|
  {
    if ts == [] then [] else Served(ts[..|ts|-1]) + if ts[|ts|-1].Served? then [ts[|ts|-1]] else []
  }

  lemma {:induction false} ServedAreServed(ts: seq<Turn>)
    ensures forall i :: 0 <= i < |Served(ts)| ==> Served(ts)[i].Served? && Served(ts)[i] in ts
    decreases |ts|
  {
    if ts != [] { ServedAreServed(ts[..|ts|-1]); }
  }

  /** The buffers the requests were found in, the messages they held, and the requests. */
  function Buffers(ts: seq<Turn>): (bs: seq<seq<byte>>)
    ensures |bs| == |Served(ts)|
    ensures forall i :: 0 <= i < |bs| ==> Served(ts)[i].Served? && bs[i] == Served(ts)[i].buffer
  {
    ServedAreServed(ts);
    seq(|Served(ts)|, i requires 0 <= i < |Served(ts)| => Served(ts)[i].buffer)
  }

  function Received(ts: seq<Turn>): (ms: seq<seq<byte>>)
    ensures |ms| == |Buffers(ts)|
    ensures forall i :: 0 <= i < |ms| ==> ms[i] <= Buffers(ts)[i]
  {
    ServedAreServed(ts);
    seq(|Served(ts)|, i requires 0 <= i < |Served(ts)| =>
      var t := Served(ts)[i]; if t.length <= |t.buffer| then t.buffer[..t.length] else t.buffer)
  }

  function Requests(ts: seq<Turn>): (rs: seq<Request>)
    ensures |rs| == |Served(ts)|
  {
    ServedAreServed(ts);
    seq(|Served(ts)|, i requires 0 <= i < |Served(ts)| => Served(ts)[i].request)
  }

  lemma TurnsSnoc(w: Wire, c: Conn, ts: seq<Turn>, t: Turn)
    ensures Served(ts + [t]) == Served(ts) + if t.Served? then [t] else []
    ensures Requests(ts + [t]) == Requests(ts) + if t.Served? then [t.request] else []
    ensures Buffers(ts + [t]) == Buffers(ts) + if t.Served? then [t.buffer] else []
    ensures AfterTurns(w, c, ts).Some? && TurnFits(w, AfterTurns(w, c, ts).value, t) ==>
      AfterTurns(w, c, ts + [t]) == Some(AfterTurn(w, AfterTurns(w, c, ts).value, t))
  {
    assert (ts + [t])[..|ts|] == ts;
  }

  predicate EndsWith(s: string, t: string) {
    |t| <= |s| && s[|s| - |t|..] == t
  }

  /** What read number `k` of the firmware loop brings: at most what the file still has, at
      most `max` bytes, and none means an error; after the last listed read the file gives all
      it can. */
  function ReadSize(readSizes: seq<nat>, k: nat, remain: nat, max: nat): nat {
    var most := if remain < max then remain else max;
    if |readSizes| <= k || most < readSizes[k] then most else readSizes[k]
  }

  class Handler {
    const link: Link
    const assembly: Assembly.AssemblyBuffer
    const payloadMax: nat
    const fileMessage: Assembly.Block -> seq<byte>  // a file response carrying the block
    const fileError: seq<byte>                      // the "zero" file response
    var responses: seq<seq<byte>>                   // history: what amilinkSendMessage was called with

    ghost predicate Valid()
      reads this, link, link.socket, assembly, assembly.buffer
    {
      payloadMax > 0 && Quiet() && assembly.Inv()
    }

    /** Between requests all traffic so far ran under its own interest, and the
        connection is registered for input. */
    ghost predicate Quiet()
      reads link, link.socket
    {
      link.Clean() && link.socket.interest == EPOLLIN
    }

    constructor (link: Link, assembly: Assembly.AssemblyBuffer, payloadMax: nat,
                 fileMessage: Assembly.Block -> seq<byte>, fileError: seq<byte>)
      requires payloadMax > 0 && link.Clean() && link.socket.interest == EPOLLIN && assembly.Inv()
      ensures Valid() && this.link == link && this.assembly == assembly && responses == []
    {
      this.link, this.assembly, this.payloadMax := link, assembly, payloadMax;
      this.fileMessage, this.fileError := fileMessage, fileError;
      responses := [];
    }

    /** Since the link was at `c`, with `before` sent by then, these messages were sent and
        nothing else happened to it. */
    ghost predicate SentSince(before: seq<seq<byte>>, c: Conn, ms: seq<seq<byte>>)
      reads this, link, link.socket
    {
      responses == before + ms && link.Now() == SendAll(link.wire, c, ms)
    }

    method Offer(reply: seq<byte>) returns (dataSent: nat)
      requires link.Clean()
      modifies this`responses, link, link.socket
      ensures link.Clean() && responses == old(responses) + [reply]
      ensures (dataSent, link.Now()) == SendRetry(link.wire, old(link.Now()), reply, 0, 0)
    {
      responses := responses + [reply];
      link.socket.ModifyEpollEvent(EPOLLOUT);
      dataSent := link.LinkSendRetry(reply);
    }

    /** EPOLLOUT, amilinkSendMessage, EPOLLIN: what every handler does to answer. */
    method Respond(reply: seq<byte>) returns (dataSent: nat)
      requires link.Clean()
      modifies this`responses, link, link.socket
      ensures Quiet() && responses == old(responses) + [reply]
      ensures (dataSent, link.Now()) == SendRetry(link.wire, old(link.Now()), reply, 0, 0)
    {
      dataSent := Offer(reply);
      link.socket.ModifyEpollEvent(EPOLLIN);
    }

    function Messages(bs: seq<Assembly.Block>): (ms: seq<seq<byte>>)
      ensures |ms| == |bs|
      ensures forall i :: 0 <= i < |bs| ==> ms[i] == fileMessage(bs[i])
    {
      seq(|bs|, i requires 0 <= i < |bs| => fileMessage(bs[i]))
    }

    /** The blocks of a file transfer and, unless all went well, the error response. */
    function Sending(offered: seq<Assembly.Block>, ok: bool): seq<seq<byte>> {
      Messages(offered) + if ok then [] else [fileError]
    }

    /** What linkSendRetry returned for each of the blocks, offered from connection `c` on. */
    function Results(c: Conn, offered: seq<Assembly.Block>): (rs: seq<nat>)
      ensures |rs| == |offered|
    {
      SendResults(link.wire, c, Messages(offered))
    }

    /** An .algo request is answered by all chunks of the text in order, each delivered; or by
        those up to the first that is not, and an error response. */
    predicate AlgoAnswer(c: Conn, algo: Option<File>, offered: seq<Assembly.Block>, ok: bool)
      requires payloadMax > 0
    {
      match algo
      case None => offered == [] && !ok
      case Some(text) =>
        && offered <= Chunks(text, 0, payloadMax)
        && if ok then offered == Chunks(text, 0, payloadMax) && AllDelivered(Results(c, offered))
           else LastFailed(Results(c, offered))
    }

    /** Block k is what read k brought. */
    predicate SizedByReads(content: File, readSizes: seq<nat>, offered: seq<Assembly.Block>) {
      forall k :: 0 <= k < |offered| ==>
        && offered[k].offset <= |content|
        && offered[k].length == ReadSize(readSizes, k, |content| - offered[k].offset, payloadMax)
    }

    /** A .dfu request is answered by contiguous pieces up to the end of the file, as they are
        read, each delivered; or by those up to the first that is not, or up to the first read
        that brings nothing, and an error response. */
    predicate FirmwareAnswer(c: Conn, firmware: Firmware, offered: seq<Assembly.Block>, end: nat, ok: bool) {
      if firmware.Opened? then
        && Sequence(firmware.content, offered, end, payloadMax) && end <= |firmware.content|
        && SizedByReads(firmware.content, firmware.readSizes, offered)
        && if ok then end == |firmware.content| && AllDelivered(Results(c, offered))
           else
             || LastFailed(Results(c, offered))
             || (AllDelivered(Results(c, offered)) && end < |firmware.content|
                 && ReadSize(firmware.readSizes, |offered|, |firmware.content| - end, payloadMax) == 0)
      else offered == [] && !ok
    }

    /** The blocks were sent since the link was at `c`, with these results. */
    ghost predicate OfferedSince(before: seq<seq<byte>>, c: Conn, offered: seq<Assembly.Block>, rs: seq<nat>)
      reads this, link, link.socket
    {
      SentSince(before, c, Messages(offered)) && rs == Results(c, offered)
    }

    lemma NothingOffered()
      ensures OfferedSince(responses, link.Now(), [], [])
    {
      assert responses + [] == responses;
    }

    /** The chunk loop of handleAlgoRequest: stops at the first chunk that is not
        delivered, and leaves the registration then as the send left it. */
    method SendChunks(text: File) returns (offered: seq<Assembly.Block>, end: nat, ok: bool, ghost rs: seq<nat>)
      requires Quiet() && payloadMax > 0
      modifies this`responses, link, link.socket
      ensures link.Clean() && (ok ==> Quiet())
      ensures OfferedSince(old(responses), old(link.Now()), offered, rs)
      ensures Progressed(text, offered, end, payloadMax)
      ensures if ok then end == |text| && AllDelivered(rs) else LastFailed(rs)
    {
      NothingOffered();
      offered, rs := [], [];
      ghost var before, c := responses, link.Now();
      var remain, offset: nat := |text|, 0;
      assert [] + Chunks(text, 0, payloadMax) == Chunks(text, 0, payloadMax);
      while remain > 0
        invariant remain == |text| - offset && Quiet() && Progressed(text, offered, offset, payloadMax)
        invariant OfferedSince(before, c, offered, rs) && AllDelivered(rs)
      {
        var chunkSize, dataSent;
        offered, chunkSize, dataSent, rs := OfferChunk(before, c, rs, text, offered, offset);
        remain := remain - chunkSize;
        offset := offset + chunkSize;
        if dataSent <= 0 {
          return offered, offset, false, rs;
        }
      }
      end, ok := offset, true;
    }

    /** One turn of that loop; back to EPOLLIN unless the chunk was not delivered. */
    method OfferChunk(ghost before: seq<seq<byte>>, ghost c: Conn, ghost rs: seq<nat>,
                      text: File, offered: seq<Assembly.Block>, offset: nat)
      returns (more: seq<Assembly.Block>, chunkSize: nat, dataSent: nat, ghost rs': seq<nat>)
      requires link.Clean() && offset < |text| && AllDelivered(rs)
      requires Progressed(text, offered, offset, payloadMax) && OfferedSince(before, c, offered, rs)
      modifies this`responses, link, link.socket
      ensures link.Clean() && (dataSent > 0 ==> Quiet()) && 0 < chunkSize <= |text| - offset
      ensures Progressed(text, more, offset + chunkSize, payloadMax) && OfferedSince(before, c, more, rs')
      ensures if dataSent > 0 then AllDelivered(rs') else LastFailed(rs')
    {
      var remain := |text| - offset;
      chunkSize := if remain < payloadMax then remain else payloadMax;
      ProgressedSnoc(text, offered, offset, payloadMax);
      more, dataSent, rs' := OfferBlock(before, c, rs, offered, BlockOf(text, offset, chunkSize));
      if dataSent > 0 {
        link.socket.ModifyEpollEvent(EPOLLIN);
      }
    }

    /** One block of a file: EPOLLOUT and amilinkSendMessage. */
    method OfferBlock(ghost before: seq<seq<byte>>, ghost c: Conn, ghost rs: seq<nat>,
                      offered: seq<Assembly.Block>, block: Assembly.Block)
      returns (more: seq<Assembly.Block>, dataSent: nat, ghost rs': seq<nat>)
      requires link.Clean() && OfferedSince(before, c, offered, rs)
      modifies this`responses, link, link.socket
      ensures link.Clean() && more == offered + [block] && OfferedSince(before, c, more, rs')
      ensures AllDelivered(rs) ==> if dataSent > 0 then AllDelivered(rs') else LastFailed(rs')
    {
      OfferOne(offered, block);
      SendOneMore(link.wire, c, Messages(offered), fileMessage(block));
      more := offered + [block];
      dataSent := Offer(fileMessage(block));
      rs' := rs + [dataSent];
      assert rs'[..|rs|] == rs;
    }

    method HandleAlgoRequest(algo: Option<File>) returns (offered: seq<Assembly.Block>, ok: bool)
      requires Quiet() && payloadMax > 0
      modifies this`responses, link, link.socket
      ensures Quiet()
      ensures SentSince(old(responses), old(link.Now()), Sending(offered, ok))
      ensures AlgoAnswer(old(link.Now()), algo, offered, ok)
    {
      offered, ok := [], false;
      if algo.Some? {
        var end;
        ghost var rs;
        offered, end, ok, rs := SendChunks(algo.value);
        ProgressedPrefix(algo.value, offered, end, payloadMax);
      }
      SendingAll(old(link.Now()), offered, ok);
      Conclude(ok);
    }

    /** The error response, unless all went well. */
    method Conclude(ok: bool)
      requires link.Clean() && (ok ==> Quiet())
      modifies this`responses, link, link.socket
      ensures Quiet() && responses == old(responses) + if ok then [] else [fileError]
      ensures link.Now() == if ok then old(link.Now()) else SendRetry(link.wire, old(link.Now()), fileError, 0, 0).1
    {
      if !ok {
        var sent := Respond(fileError);
      }
    }

    lemma SendingAll(c: Conn, offered: seq<Assembly.Block>, ok: bool)
      ensures var d := SendAll(link.wire, c, Messages(offered));
        SendAll(link.wire, c, Sending(offered, ok)) == if ok then d else SendRetry(link.wire, d, fileError, 0, 0).1
    {
      assert Messages(offered) + [] == Messages(offered);
      SendOneMore(link.wire, c, Messages(offered), fileError);
    }

    lemma OfferOne(offered: seq<Assembly.Block>, b: Assembly.Block)
      ensures Messages(offered + [b]) == Messages(offered) + [fileMessage(b)]
    {
    }

    /** What the read loop has offered when it stands at `offset`. */
    predicate ReadTo(content: File, readSizes: seq<nat>, offered: seq<Assembly.Block>, offset: nat) {
      && Sequence(content, offered, offset, payloadMax) && offset <= |content|
      && SizedByReads(content, readSizes, offered)
    }

    lemma ReadSnoc(content: File, readSizes: seq<nat>, offered: seq<Assembly.Block>, offset: nat)
      requires ReadTo(content, readSizes, offered, offset) && payloadMax > 0
      requires ReadSize(readSizes, |offered|, |content| - offset, payloadMax) > 0
      ensures var size := ReadSize(readSizes, |offered|, |content| - offset, payloadMax);
        ReadTo(content, readSizes, offered + [BlockOf(content, offset, size)], offset + size)
    {
      var size := ReadSize(readSizes, |offered|, |content| - offset, payloadMax);
      SequenceSnoc(content, offered, offset, size, payloadMax);
    }

    /** All is well, or the last send failed, or the next read brings nothing. */
    predicate ReadsStand(ok: bool, rs: seq<nat>, readSizes: seq<nat>, k: nat, remain: nat) {
      if ok then AllDelivered(rs)
      else LastFailed(rs) || (AllDelivered(rs) && remain > 0 && ReadSize(readSizes, k, remain, payloadMax) == 0)
    }

    /** The read loop of handleFirmwareRequest. The pieces follow each other from the
        start of the file whatever the sizes of the reads. */
    method SendReads(content: File, readSizes: seq<nat>) returns (offered: seq<Assembly.Block>, end: nat, ok: bool)
      requires Quiet() && payloadMax > 0
      modifies this`responses, link, link.socket
      ensures Quiet() && SentSince(old(responses), old(link.Now()), Messages(offered))
      ensures FirmwareAnswer(old(link.Now()), Opened(content, readSizes), offered, end, ok)
    {
      NothingOffered();
      offered, ok := [], true;
      ghost var before, c, rs: seq<nat> := responses, link.Now(), [];
      var remain, offset: nat := |content|, 0;
      while remain > 0 && ok
        invariant remain == |content| - offset && Quiet() && OfferedSince(before, c, offered, rs)
        invariant ReadTo(content, readSizes, offered, offset) && ReadsStand(ok, rs, readSizes, |offered|, remain)
        decreases ok, remain
      {
        var readSize := ReadSize(readSizes, |offered|, remain, payloadMax);
        if readSize > 0 {
          var dataSent;
          offered, dataSent, rs := OfferRead(before, c, rs, content, readSizes, offered, offset, readSize);
          remain := remain - readSize;
          offset := offset + readSize;
          ok := dataSent > 0;
        } else {
          ok := false;
        }
      }
      end := offset;
    }

    method OfferRead(ghost before: seq<seq<byte>>, ghost c: Conn, ghost rs: seq<nat>, content: File,
                     ghost readSizes: seq<nat>, offered: seq<Assembly.Block>, offset: nat, readSize: nat)
      returns (more: seq<Assembly.Block>, dataSent: nat, ghost rs': seq<nat>)
      requires Quiet() && payloadMax > 0 && AllDelivered(rs)
      requires ReadTo(content, readSizes, offered, offset) && OfferedSince(before, c, offered, rs)
      requires readSize == ReadSize(readSizes, |offered|, |content| - offset, payloadMax) > 0
      modifies this`responses, link, link.socket
      ensures Quiet() && ReadTo(content, readSizes, more, offset + readSize) && OfferedSince(before, c, more, rs')
      ensures if dataSent > 0 then AllDelivered(rs') else LastFailed(rs')
    {
      ReadSnoc(content, readSizes, offered, offset);
      more, dataSent, rs' := OfferBlock(before, c, rs, offered, BlockOf(content, offset, readSize));
      link.socket.ModifyEpollEvent(EPOLLIN);
    }

    /** An error of any kind ends the transfer with an error response. */
    method HandleFirmwareRequest(firmware: Firmware) returns (offered: seq<Assembly.Block>, end: nat, ok: bool)
      requires Quiet() && payloadMax > 0
      modifies this`responses, link, link.socket
      ensures Quiet()
      ensures SentSince(old(responses), old(link.Now()), Sending(offered, ok))
      ensures FirmwareAnswer(old(link.Now()), firmware, offered, end, ok)
    {
      if firmware.Opened? {
        offered, end, ok := SendReads(firmware.content, firmware.readSizes);
      } else {
        offered, end, ok := [], 0, false;
      }
      SendingAll(old(link.Now()), offered, ok);
      Conclude(ok);
    }

    /** What is sent in answer to a request, from connection `c` on. */
    ghost predicate Answer(c: Conn, r: Request, added: seq<seq<byte>>, completed: bool)
      requires payloadMax > 0
    {
      match r
      case Goodbye => added == []
      case UnknownTopic => added == []
      case FileRequest(filename, algo, firmware) =>
        if |filename| > 5 && EndsWith(filename, ".algo") then
          exists offered, ok :: AlgoAnswer(c, algo, offered, ok) && added == Sending(offered, ok)
        else if |filename| > 5 && EndsWith(filename, ".dfu") then
          exists offered, end, ok :: FirmwareAnswer(c, firmware, offered, end, ok) && added == Sending(offered, ok)
        else added == []
      case RawDataPush(_, reply) => added == if completed then [reply] else []
      case _ => added == [r.reply]
    }

    method HandleFileRequest(filename: string, algo: Option<File>, firmware: Firmware)
      returns (ghost added: seq<seq<byte>>)
      requires Quiet() && payloadMax > 0
      modifies this`responses, link, link.socket
      ensures Quiet() && SentSince(old(responses), old(link.Now()), added)
      ensures Answer(old(link.Now()), FileRequest(filename, algo, firmware), added, false)
    {
      added := [];
      if |filename| > 5 {
        if EndsWith(filename, ".algo") {
          var offered, ok := HandleAlgoRequest(algo);
          added := Sending(offered, ok);
        } else if EndsWith(filename, ".dfu") {
          var offered, end, ok := HandleFirmwareRequest(firmware);
          added := Sending(offered, ok);
        }
      }
    }

    /** Answers exactly the block that completes a data set. */
    method HandleRawDataPushRequest(block: Assembly.Block, reply: seq<byte>) returns (outcome: Assembly.Outcome)
      requires Valid()
      modifies this`responses, link, link.socket, assembly, assembly.buffer
      ensures Quiet() && (outcome.OutOfBounds? <==> !Assembly.Safe(assembly.layout, old(assembly.Now()), block))
      ensures !outcome.OutOfBounds? ==>
        Valid() && assembly.Now() == Assembly.Step(assembly.layout, old(assembly.Now()), block)
      ensures outcome.Completed? <==> |assembly.inserted| == |old(assembly.inserted)| + 1
      ensures !outcome.Completed? ==> assembly.inserted == old(assembly.inserted)
      ensures SentSince(old(responses), old(link.Now()), if outcome.Completed? then [reply] else [])
      ensures BufferOwned(old(assembly.buffer))
    {
      outcome := assembly.HandleRawDataPushRequest(block);
      SendJust(link.wire, old(link.Now()), reply);
      if outcome.Completed? {
        var sent := Respond(reply);
      }
    }

    twostate predicate BufferOwned(before: array?<Assembly.Cell>)
      reads assembly
    {
      assembly.buffer == before || assembly.buffer == null || fresh(assembly.buffer)
    }

    /** One request of any topic: `more` is false after a goodbye, and `defined` when a
        copy would have left its memory. */
    method HandleRequest(r: Request) returns (more: bool, defined: bool, ghost added: seq<seq<byte>>)
      requires Valid()
      modifies this`responses, link, link.socket, assembly, assembly.buffer
      ensures Quiet() && payloadMax > 0 && (more <==> !r.Goodbye?)
      ensures SentSince(old(responses), old(link.Now()), added)
      ensures Answer(old(link.Now()), r, added, |assembly.inserted| > |old(assembly.inserted)|)
      ensures defined <==> Handle(assembly.layout, old(assembly.Now()), r).Some?
      ensures defined ==> Valid() && Some(assembly.Now()) == Handle(assembly.layout, old(assembly.Now()), r)
      ensures BufferOwned(old(assembly.buffer))
    {
      more, defined, added := true, true, [];
      match r {
        case Goodbye => more := false;
        case UnknownTopic =>
        case FileRequest(filename, algo, firmware) =>
          added := HandleFileRequest(filename, algo, firmware);
        case RawDataPush(block, reply) =>
          var outcome := HandleRawDataPushRequest(block, reply);
          defined := !outcome.OutOfBounds?;
          added := if outcome.Completed? then [reply] else [];
        case _ =>
          SendJust(link.wire, old(link.Now()), r.reply);
          var sent := Respond(r.reply);
          added := [r.reply];
      }
    }

    /** One turn of the handler loop. */
    method OneEvent(i: nat, event: Event, parse: (nat, seq<byte>) -> Request)
      returns (more: bool, defined: bool, ghost turn: Turn)
      requires Valid()
      modifies this`responses, link, link.socket, assembly, assembly.buffer
      ensures Quiet() && (defined ==> Valid()) && BufferOwned(old(assembly.buffer))
      ensures TurnOn(event, turn) && (more && defined <==> GoesOn(turn))
      ensures TurnFits(link.wire, old(link.Now()), turn)
      ensures link.Now() == AfterTurn(link.wire, old(link.Now()), turn)
      ensures if turn.Served? then
          && turn.request == parse(i, turn.buffer)
          && Answer(ReadMessageRetry(link.wire, old(link.Now()), turn.before, 0, 0).2, turn.request, turn.sent,
                    |assembly.inserted| > |old(assembly.inserted)|)
          && turn.defined == defined
          && Handle(assembly.layout, old(assembly.Now()), turn.request) ==
             if defined then Some(assembly.Now()) else None
        else defined && assembly.Now() == old(assembly.Now())
    {
      more, defined, turn := true, true, NotOurs;
      if event.Mine? {
        var request := new byte[link.wire.maxFrame - link.wire.headerSize];
        ghost var before := request[..];
        ghost var c := link.Now();
        LengthFits(link.wire, c, before);
        var messageLength := link.AmilinkReadMessage(request);
        if messageLength > 0 {
          var r := parse(i, request[..]);
          ghost var buffer, added := request[..], [];
          more, defined, added := HandleRequest(r);
          turn := Turn.Served(before, buffer, messageLength, r, added, defined);
        } else {
          more := false;
          if event.active {
            more := link.AmilinkHeartbeat();
          }
          turn := Silent(before, event.active, more);
        }
      }
    }

    /** connectionHandler: over every sequence of events, requests, arriving bytes and
        socket outcomes, each send so far was under EPOLLOUT and each receive under
        EPOLLIN, the turns are what the socket brings, and the assembly is what the
        requests make of it. The loop ends with the events, or when it decides to, or where
        a copy would leave its memory. */
    method ConnectionHandler(events: seq<Event>, parse: (nat, seq<byte>) -> Request)
      returns (defined: bool, ghost turns: seq<Turn>)
      requires Valid()
      modifies this`responses, link, link.socket, assembly, assembly.buffer
      ensures Quiet() && (defined ==> Valid())
      ensures AfterTurns(link.wire, old(link.Now()), turns) == Some(link.Now())
      ensures LoopOver(events, turns) && Parses(parse, Buffers(turns), Requests(turns))
      ensures HandleAll(assembly.layout, old(assembly.Now()), Requests(turns)) ==
              if defined then Some(assembly.Now()) else None
    {
      var more := true;
      defined, turns := true, [];
      var i := 0;
      ghost var st, c := assembly.Now(), link.Now();
      while more && defined && i < |events|
        invariant |turns| == i <= |events| && Quiet() && (defined ==> Valid())
        invariant BufferOwned(old(assembly.buffer))
        invariant LoopSoFar(events, turns) && (more && defined <==> turns == [] || GoesOn(turns[|turns|-1]))
        invariant Stands(c, st, parse, turns, defined)
      {
        more, defined, turns := NextEvent(c, st, events, i, parse, turns);
        i := i + 1;
      }
    }

    /** Link and assembly are where the turns lead. */
    ghost predicate Stands(c: Conn, st: Assembly.State, parse: (nat, seq<byte>) -> Request,
                           turns: seq<Turn>, defined: bool)
      reads this, link, link.socket, assembly, assembly.buffer
    {
      && Assembly.ValidLayout(assembly.layout) && Assembly.Valid(assembly.layout, st)
      && Follows(link.wire, c, assembly.layout, st, parse, turns, link.Now(),
                 if defined then Some(assembly.Now()) else None)
    }

    method NextEvent(ghost c: Conn, ghost st: Assembly.State, events: seq<Event>, i: nat,
                     parse: (nat, seq<byte>) -> Request, ghost turns: seq<Turn>)
      returns (more: bool, defined: bool, ghost turns': seq<Turn>)
      requires Valid() && i == |turns| < |events| && LoopSoFar(events, turns)
      requires (turns == [] || GoesOn(turns[|turns|-1])) && Stands(c, st, parse, turns, true)
      modifies this`responses, link, link.socket, assembly, assembly.buffer
      ensures Quiet() && (defined ==> Valid()) && BufferOwned(old(assembly.buffer))
      ensures |turns'| == i + 1 && LoopSoFar(events, turns') && (more && defined <==> GoesOn(turns'[i]))
      ensures Stands(c, st, parse, turns', defined)
    {
      ghost var d, t, turn := link.Now(), assembly.Now(), NotOurs;
      more, defined, turn := OneEvent(i, events[i], parse);
      LoopSnoc(events, turns, turn);
      FollowsSnoc(link.wire, c, assembly.layout, st, parse, turns, d, t, i, turn,
                  if defined then Some(assembly.Now()) else None);
      turns' := turns + [turn];
    }
  }

  /** The turns lead from one connection to another, and their requests from one assembly to
      another. */
  ghost predicate Follows(w: Wire, c: Conn, l: Assembly.Layout, st: Assembly.State, parse: (nat, seq<byte>) -> Request,
                          turns: seq<Turn>, d: Conn, t: Option<Assembly.State>)
    requires Assembly.ValidLayout(l) && Assembly.Valid(l, st)
  {
    && AfterTurns(w, c, turns) == Some(d)
    && Parses(parse, Buffers(turns), Requests(turns))
    && HandleAll(l, st, Requests(turns)) == t
  }

  lemma FollowsSnoc(w: Wire, c: Conn, l: Assembly.Layout, st: Assembly.State, parse: (nat, seq<byte>) -> Request,
                    turns: seq<Turn>, d: Conn, t: Assembly.State, i: nat, turn: Turn, u: Option<Assembly.State>)
    requires Assembly.ValidLayout(l) && Assembly.Valid(l, st) && Assembly.Valid(l, t)
    requires Follows(w, c, l, st, parse, turns, d, Some(t)) && TurnFits(w, d, turn)
    requires if turn.Served? then turn.request == parse(i, turn.buffer) && u == Handle(l, t, turn.request)
             else u == Some(t)
    ensures Follows(w, c, l, st, parse, turns + [turn], AfterTurn(w, d, turn), u)
  {
    TurnsSnoc(w, c, turns, turn);
    if turn.Served? {
      HandleSnoc(l, st, Requests(turns), turn.request);
      ParsesSnoc(parse, Buffers(turns), Requests(turns), i, turn.buffer);
    } else {
      assert Requests(turns) + [] == Requests(turns) && Buffers(turns) + [] == Buffers(turns);
    }
  }

  lemma LengthFits(w: Wire, c: Conn, message: seq<byte>)
    requires IsMessage(w, message)
    ensures var (n, m, _) := ReadMessageRetry(w, c, message, 0, 0); n <= |m|
  {
    var j := FirstDataFrame(w, c, message, 0);
  }
}
