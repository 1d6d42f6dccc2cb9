/** One client connection: make_connection, read_request, write_headers,
    write_body, write_file, send_buf, recycle_connection and the cases of
    do_conn_state that concern a single connection. */
module Connections {
  import opened Text
  import opened Numbers
  import opened Range
  import opened Grammar
  import opened RequestParser
  import opened ParserExactness
  import opened Reader
  import opened Responses
  import opened Answers
  import opened Protocol

  /** What send answers. */
  datatype SendResult = Took(n: nat) | TryAgain | Refused

  const SEND_TRIES := 5
  const MAX_INTERRUPTIONS := 4

  class Connection {
    const fd: int
    const conf: Config   // of the server it belongs to
    var state: ConnState
    var req: Option<HttpRequest>
    var res: Option<Response>
    var readTries: nat
    var writeTries: nat
    var keepAlive: bool
    var lastActive: int

    // The socket: the bytes its peer will still take during this activation, and
    // all it has taken so far.
    var budget: nat
    var willing: bool   // no send or file operation fails
    var noise: nat      // sends that will be interrupted although there is room
    ghost var wire: string

    // All that was received; the finished exchanges; the request that was received
    // and the bytes that were sent since; what the current response was made of.
    ghost var heard: string
    ghost var log: seq<Served>
    ghost var pending: string
    ghost var tail: string
    ghost var seen: Option<Seen>

    ghost var spent: nat        // write-ready activations that ended in a partial write
    ghost var allowance: nat    // how many of those there can be at most

    /** make_connection. */
    constructor (fd: int, conf: Config, now: int)
      ensures this.fd == fd && this.conf == conf && state == Reading && lastActive == now
      ensures Persistent() && WireInv() && New(Snap())
    {
      this.fd, this.conf := fd, conf;
      state := Reading;
      req, res := None, None;
      readTries, writeTries := MAX_TRIES, MAX_TRIES;
      keepAlive := true;
      lastActive := now;
      budget, willing, noise := 0, false, 0;
      wire, heard, log, pending, tail := [], [], [], [], [];
      seen := None;
      spent, allowance := 0, 0;
    }

    // ----- Invariants -----

    /** The two directions of the connection. All that was ever received is the
        requests of the finished exchanges, in order, and what is there of one more;
        all that was ever sent is the answers to them, in order, and a part of the
        answer to that one. Once a request has asked for the connection to be closed,
        nothing follows its answer. */
    ghost predicate WireInv()
      reads this`wire, this`heard, this`log, this`pending, this`tail, this`req, this`res, this`seen
    {
      Wires() && HistoryRight(conf, log) && CurrentRight()
    }

    ghost predicate Wires()
      reads this`wire, this`heard, this`log, this`pending, this`tail
    {
      wire == Flat(log) + tail && heard == Asked(log) + pending
    }

    ghost predicate CurrentRight()
      reads this`pending, this`tail, this`req, this`res, this`seen, this`log
    {
      && (pending != [] || tail != [] ==> req.Some? && pending == req.value.buf && StaysOpen(log))
      && (res.None? ==> tail == [])
      && (res.Some? ==> Answering() && CutOff(IsHead(), res.value, tail))
    }

    /** The current response is the answer to the current request. */
    ghost predicate Answering()
      reads this`req, this`res, this`seen
    {
      && res.Some? && seen.Some? && HasRequest()
      && AnswerTo(conf, req.value.buf, seen.value, res.value)
    }

    ghost predicate HasRequest()
      reads this`req
    {
      && req.Some? && req.value.fields == Parsed(req.value.buf)
      && Essential(req.value.fields) && req.value.fields.verb.Some?
      && req.value.fields.path.Some? && NUL !in req.value.fields.path.value
    }

    /** The connection has read a request and will go on after the answer unless the
        request says not to. */
    ghost predicate Exchanging()
      reads this`log, this`req, this`keepAlive, this`pending
    {
      HasRequest() && StaysOpen(log) && keepAlive == !WantsClose(req.value.fields) && pending == req.value.buf
    }

    predicate IsHead()
      reads this`req
    {
      req.Some? && IsHeadRequest(req.value.fields)
    }

    ghost function Fuel(): nat
      reads this`res, this`writeTries
    {
      FuelOf(res, writeTries)
    }

    /** All of the connection but its socket. */
    ghost function Snap(): Snap
      reads this
    {
      Protocol.Snap(state, req, res, readTries, writeTries, keepAlive, lastActive, wire, heard, log, pending, tail,
                    seen, spent, allowance)
    }

    /** A response is being written. */
    ghost predicate InFlight()
      reads this`req, this`res, this`writeTries, this`tail, this`spent, this`allowance
    {
      && res.Some?
      && res.value.headSent <= |res.value.head|
      && spent + Fuel() <= allowance
      && allowance <= 6 * FileSize(res.value) + MAX_TRIES
      && Sent(IsHead(), res.value, tail)
    }

    /** The states a connection rests in between two sweeps. */
    ghost predicate Persistent()
      reads this`state, this`readTries, this`req, this`res, this`writeTries, this`keepAlive, this`log, this`pending, this`tail, this`spent, this`allowance
    {
      && readTries <= MAX_TRIES && writeTries <= MAX_TRIES
      && match state
         case Reading =>
           && StaysOpen(log) && keepAlive
           && res.None? && tail == [] && writeTries == MAX_TRIES
           && (req.None? ==> pending == [])
           && (req.Some? ==> pending == req.value.buf && |req.value.buf| < MAX_REQUEST_SIZE && req.value.fields == BLANK)
         case WritingHeaders =>
           && Exchanging()
           && (res.None? ==> tail == [] && writeTries == MAX_TRIES)
           && (res.Some? ==> InFlight() && OnlyHead(res.value, tail))
         case WritingBody =>
           && Exchanging() && !IsHead() && res.Some?
           && InFlight() && res.value.headSent == |res.value.head|
         case _ => false
    }

    lemma RestingBounded()
      requires Persistent() && WireInv()
      ensures Bounded(Snap())
    {
      hide Sent, OnlyHead, StaysOpen, Flat, HistoryRight, Answering, Parsed;
    }

    /** A state do_conn_state can be entered in. */
    ghost predicate Enterable()
      reads this`state, this`readTries, this`wire, this`heard, this`log, this`req, this`res, this`seen, this`writeTries, this`keepAlive, this`pending, this`tail, this`spent, this`allowance
    {
      && WireInv()
      && (state == Closing || Persistent()
          || (state == WritingFinished && readTries <= MAX_TRIES && writeTries <= MAX_TRIES
              && tail == [] && pending == [] && (keepAlive ==> StaysOpen(log))))
    }

    // ----- The socket -----

    /** Nothing fails, and send_buf has tries to spare for all interruptions. */
    predicate Calm()
      reads this`willing, this`noise
    {
      willing && noise <= MAX_INTERRUPTIONS
    }

    /** send. It takes what the budget allows and refuses once the budget is used up;
        unless the kernel is willing it may take nothing or fail at any time, and even
        then be interrupted. */
    method Send(buf: string) returns (r: SendResult)
      requires buf != []
      modifies this`budget, this`noise, this`wire, this`tail
      ensures r.Took? ==> r.n == 0 || r.n == Min(|buf|, old(budget))
      ensures noise <= old(noise)
      ensures willing && old(budget) == 0 ==> r == TryAgain
      ensures willing && old(budget) > 0 ==>
              r == Took(Min(|buf|, old(budget))) || (r == TryAgain && noise == old(noise) - 1)
      ensures var n := if r.Took? then r.n else 0;
              n <= |buf| && budget == old(budget) - n
              && wire == old(wire) + buf[..n] && tail == old(tail) + buf[..n]
    {
      r := *;
      if willing {
        if budget == 0 {
          r := TryAgain;
        } else if r.TryAgain? && noise > 0 {
          noise := noise - 1;
        } else {
          r := Took(1);
        }
      }
      if r.Took? {
        if r.n != 0 {
          r := Took(Min(|buf|, budget));
        }
        budget := budget - r.n;
        wire := wire + buf[..r.n];
        tail := tail + buf[..r.n];
      } else {
        assert wire + buf[..0] == wire && tail + buf[..0] == tail;
      }
    }

    /** send_buf. Every turn offers the buffer from its start again; that is
        correct because a short send leaves no budget for another. It gives up at the
        fifth interruption; up to four of them change nothing. */
    method SendBuf(buf: string) returns (sent: int, ghost k: nat)
      modifies this`budget, this`noise, this`wire, this`tail
      ensures k <= |buf| && budget == old(budget) - k
      ensures wire == old(wire) + buf[..k] && tail == old(tail) + buf[..k]
      ensures sent == -1 || sent == k
      ensures 0 < k < |buf| ==> budget == 0
      ensures old(Calm()) ==> sent == k == Min(|buf|, old(budget))
      ensures noise <= old(noise)
    {
      var nbytesSent: nat := 0;
      var try := SEND_TRIES;
      k := 0;
      assert wire == wire + buf[..0] && tail == tail + buf[..0];
      while nbytesSent < |buf|
        invariant k == nbytesSent <= |buf| && budget == old(budget) - k
        invariant wire == old(wire) + buf[..k] && tail == old(tail) + buf[..k]
        invariant 0 < k < |buf| ==> budget == 0
        invariant noise <= old(noise)
        invariant willing && k > 0 ==> k == Min(|buf|, old(budget))
        invariant willing && k == 0 && budget > 0 ==> try == SEND_TRIES - (old(noise) - noise)
        decreases |buf| - nbytesSent, try
      {
        var r := Send(buf);
        assert k > 0 ==> buf[..0] == [];
        match r
        case TryAgain =>
          try := try - 1;
          if try <= 0 { return nbytesSent, k; }
        case Refused =>
          return -1, k;
        case Took(n) =>
          if n == 0 { return nbytesSent, k; }
          nbytesSent := nbytesSent + n;
          k := nbytesSent;
      }
      return nbytesSent, k;
    }

    // ----- Reading -----

    /** read_request, given the answer of recv. */
    method ReadRequest(ev: RecvResult) returns (status: ReadStatus)
      requires req.Some? && Fits(ReadState(req.value.buf, readTries), ev)
      modifies this`req, this`readTries, this`heard, this`pending
      ensures req.Some? && req.value.fields == old(req.value.fields)
      ensures (ReadState(req.value.buf, readTries), status)
           == old(ReadStep(ReadState(req.value.buf, readTries), ev))
      ensures heard == old(heard) + BytesOf(ev) && pending == old(pending) + BytesOf(ev)
      ensures req.value.buf == old(req.value.buf) + BytesOf(ev)
    {
      heard, pending := heard + BytesOf(ev), pending + BytesOf(ev);
      match ev
      case Blocked =>
        if readTries == 0 { return FatalRead; }
        readTries := readTries - 1;
        return PartialRead;
      case Broken =>
        return PartialRead;
      case Data(bytes) =>
        req := Some(req.value.(buf := req.value.buf + bytes));
        if IsHttpEnd(req.value.buf) { return CompleteRead; }
        if |bytes| == 0 {
          return if |req.value.buf| == 0 then ClientClosed else CompleteRead;
        }
        if |req.value.buf| == MAX_REQUEST_SIZE { return TooBig; }
        return PartialRead;
    }

    // ----- Writing -----

    /** write_headers. k bytes of the rest of the head go out. */
    method WriteHeaders() returns (status: WriteStatus, ghost k: nat)
      requires res.Some? && res.value.headSent <= |res.value.head|
      modifies this`res, this`writeTries, this`budget, this`noise, this`wire, this`tail
      ensures res.Some? && old(res.value.headSent) + k <= |old(res.value.head)|
      ensures var x := old(res.value.head)[old(res.value.headSent)..old(res.value.headSent) + k];
              wire == old(wire) + x && tail == old(tail) + x
      ensures budget == old(budget) - k
      ensures old(Calm()) ==>
              status != FatalWrite && k == Min(|old(res.value.head)| - old(res.value.headSent), old(budget))
      ensures noise <= old(noise)
      ensures status == FatalWrite ==> res == old(res)
      ensures status != FatalWrite ==> res.value == old(res.value).(headSent := old(res.value.headSent) + k)
      ensures status == CompleteWrite <==>
              status != FatalWrite && old(res.value.headSent) + k == |res.value.head|
      ensures status == MaxTries ==> old(writeTries) == 0
      ensures status == PartialWrite ==> old(writeTries) > 0
      ensures writeTries == if status == PartialWrite then old(writeTries) - 1 else old(writeTries)
    {
      var sent;
      sent, k := SendBuf(res.value.head[res.value.headSent..]);
      if sent == -1 { return FatalWrite, k; }
      res := Some(res.value.(headSent := res.value.headSent + sent));
      if res.value.headSent < |res.value.head| {
        if writeTries == 0 { return MaxTries, k; }
        writeTries := writeTries - 1;
        return PartialWrite, k;
      }
      return CompleteWrite, k;
    }

    lemma PartOfPiece(body: string, from: int, offered: string, k: nat)
      requires k <= |offered|
      ensures 0 <= from && from + |offered| <= |body| && offered == body[from..from + |offered|] ==>
                offered[..k] == body[from..from + k]
    {
    }

    /** What write_body offers: n bytes from position from, whatever lies there. */
    method BytesAt(body: string, from: int, n: nat) returns (bytes: string)
      ensures |bytes| == n
      ensures 0 <= from && from + n <= |body| ==> bytes == body[from..from + n]
    {
      if 0 <= from && from + n <= |body| {
        bytes := body[from..from + n];
      } else {
        var outside: nat -> char := *;
        bytes := seq(n, i requires i >= 0 => outside(i));
      }
    }

    /** write_body. The bytes x go out; of a whole body they are its next ones. */
    method WriteBody() returns (status: WriteStatus, ghost x: string)
      requires res.Some?
      modifies this`res, this`writeTries, this`budget, this`noise, this`wire, this`tail
      ensures res.Some? && wire == old(wire) + x && tail == old(tail) + x
      ensures budget == old(budget) - |x|
      ensures old(Calm()) && old(res.value.body).Some? && Whole(old(res.value)) && old(res.value.bodySent) <= |old(res.value.body).value| ==>
              status != FatalWrite && |x| == Min(|old(res.value.body).value| - old(res.value.bodySent), old(budget))
      ensures old(res.value.body).None? ==>
              status == FatalWrite && x == [] && res == old(res) && writeTries == old(writeTries)
      ensures old(res.value.body).Some? && Whole(old(res.value)) && old(res.value.bodySent) <= |old(res.value.body).value| ==>
              var body, n := old(res.value.body).value, old(res.value.bodySent);
              n + |x| <= |body| && x == body[n..n + |x|]
              && (status == CompleteWrite <==> status != FatalWrite && n + |x| == |body|)
      ensures status == FatalWrite ==> res == old(res)
      ensures status != FatalWrite ==> res.value == old(res.value).(bodySent := old(res.value.bodySent) + |x|)
      ensures status == MaxTries ==> old(writeTries) == 0
      ensures status == PartialWrite ==> old(writeTries) > 0
      ensures writeTries == if status == PartialWrite then old(writeTries) - 1 else old(writeTries)
    {
      x := [];
      if res.value.body.None? { return FatalWrite, []; }
      var len := (res.value.rangeEnd + 1 - res.value.bodySent) % SIZE_T_LIMIT;
      var offered := BytesAt(res.value.body.value, res.value.rangeStart + res.value.bodySent, len);
      var sent;
      ghost var k;
      sent, k := SendBuf(offered);
      x := offered[..k];
      PartOfPiece(res.value.body.value, res.value.rangeStart + res.value.bodySent, offered, k);
      if sent == -1 { return FatalWrite, x; }
      res := Some(res.value.(bodySent := res.value.bodySent + sent));
      if res.value.rangeStart + res.value.bodySent < res.value.rangeEnd + 1 {
        if writeTries == 0 { return MaxTries, x; }
        writeTries := writeTries - 1;
        return PartialWrite, x;
      }
      return CompleteWrite, x;
    }

    /** fread of up to n bytes at pos, and ferror behind it: what the file still has, or
        fewer bytes and an error, which stays. */
    method Fread(disk: Disk, pos: nat, n: nat, failed: bool) returns (bytes: string, error: bool)
      ensures |bytes| <= n
      ensures bytes == [] || (pos + |bytes| <= |Readable(disk)| && bytes == Piece(Readable(disk), pos, |bytes|))
      ensures !error && disk.Regular? ==> |bytes| == Max(0, Min(n, |Readable(disk)| - pos))
      ensures failed ==> error
      ensures willing && disk.Regular? && !failed ==> !error
    {
      error := *;
      error := failed || (error && !willing) || (disk.Directory? && n > 0);
      var c := Readable(disk);
      bytes := if pos < |c| then c[pos..Min(pos + n, |c|)] else [];
      if error {
        var k: nat :| k <= |bytes|;
        bytes := bytes[..k];
      }
    }

    /** write_file. k bytes of the file go out from the offset on. A complete write of a
        file that is to be sent up to its last byte has reached the end of the file
        exactly when it did not start on that last byte and the socket had room for
        the rest. */
    method WriteFile() returns (status: WriteStatus, ghost k: nat)
      requires res.Some? && writeTries <= MAX_TRIES
      modifies this`res, this`writeTries, this`budget, this`noise, this`wire, this`tail
      ensures res.Some? && res.value == old(res.value).(offset := res.value.offset)
      ensures writeTries <= MAX_TRIES
      ensures Copied(old(res.value), res.value.offset, k, status)
      ensures var x := Piece(Readable(old(res.value.disk)), old(res.value.offset), k);
              wire == old(wire) + x && tail == old(tail) + x
      ensures budget == old(budget) - k
      ensures status == CompleteWrite && old(res.value.body).None? && FileCursor(old(res.value)) ==>
              Reached(old(res.value).(offset := res.value.offset), old(res.value.offset), old(budget))
      ensures status == CompleteWrite && old(res.value.body).None? && FileCursor(old(res.value)) && Whole(old(res.value)) ==>
              (res.value.offset == |Readable(old(res.value.disk))| <==>
               old(res.value.offset) != old(res.value.rangeEnd)
               && |Readable(old(res.value.disk))| - old(res.value.offset) <= old(budget))
      ensures old(Calm()) && Whole(old(res.value)) && old(res.value.body).None? && FileCursor(old(res.value)) ==>
              status != FatalWrite && k == Min(BodyRest(old(res.value)), old(budget))
              && (BodyRest(old(res.value)) <= old(budget) ==> status == CompleteWrite)
      ensures status == PartialWrite ==>
              if k > 0 then writeTries == MAX_TRIES - 1 else writeTries == old(writeTries) - 1
      ensures status == MaxTries ==> k == 0 && old(writeTries) == 0 && writeTries == 0
    {
      k := 0;
      PieceOfNone(Readable(res.value.disk), res.value.offset);
      if res.value.isNull { return FatalWrite, 0; }
      var off := res.value.offset;
      var nbytesLeft := (res.value.rangeEnd - off) % SIZE_T_LIMIT;
      var nbytesToRead := Min(FILE_BUF_LEN, nbytesLeft);
      var fopenOk: bool := *;
      if res.value.disk.Absent? || !(fopenOk || willing) { return FatalWrite, 0; }
      var fseekOk: bool := *;
      if off < 0 || (off != 0 && !(fseekOk || willing)) { return FatalWrite, 0; }
      status, k := CopyFile(nbytesToRead);
    }

    /** The loop of write_file. A complete write has sent all the rest of the file if
        there was room for it, else as much as there was room for, and misses less
        than one buffer; reading nothing at a time it sends nothing. */
    method CopyFile(nbytesToRead: nat) returns (status: WriteStatus, ghost k: nat)
      requires res.Some? && writeTries <= MAX_TRIES && 0 <= res.value.offset && !res.value.isNull
      requires nbytesToRead <= FILE_BUF_LEN
      modifies this`res, this`writeTries, this`budget, this`noise, this`wire, this`tail
      ensures res.Some? && res.value == old(res.value).(offset := res.value.offset)
      ensures writeTries <= MAX_TRIES
      ensures k > 0 ==> old(res.value.offset) + k <= |Readable(old(res.value.disk))| && nbytesToRead > 0
      ensures old(res.value.offset) <= res.value.offset <= old(res.value.offset) + k
      ensures status != FatalWrite ==> res.value.offset == old(res.value.offset) + k
      ensures status in {PartialWrite, MaxTries} ==> old(res.value.offset) + k < |Readable(old(res.value.disk))|
      ensures var x := Piece(Readable(old(res.value.disk)), old(res.value.offset), k);
              wire == old(wire) + x && tail == old(tail) + x
      ensures budget == old(budget) - k
      ensures status == CompleteWrite && old(res.value.disk).Regular? && nbytesToRead > 0
              && old(res.value.offset) <= |Readable(old(res.value.disk))| ==>
              var left := |Readable(old(res.value.disk))| - old(res.value.offset);
              k == Min(left, old(budget)) && left - k < FILE_BUF_LEN
      ensures old(Calm()) && old(res.value.disk).Regular? && old(res.value.offset) <= |Readable(old(res.value.disk))| ==>
              var left := if nbytesToRead == 0 then 0 else |Readable(old(res.value.disk))| - old(res.value.offset);
              status != FatalWrite && k == Min(left, old(budget)) && (left <= old(budget) ==> status == CompleteWrite)
      ensures status == PartialWrite ==>
              if k > 0 then writeTries == MAX_TRIES - 1 else writeTries == old(writeTries) - 1
      ensures status == MaxTries ==> k == 0 && old(writeTries) == 0 && writeTries == 0
    {
      hide Piece, Readable;
      var off := res.value.offset;
      var disk := res.value.disk;
      var pos: nat := off;
      ghost var c := Readable(disk);
      ghost var short := false;
      var error := false;
      k := 0;
      PieceOfNone(c, off);
      while true
        invariant res.Some? && res.value == old(res.value).(offset := off + k)
        invariant willing && disk.Regular? ==> !error
        invariant off <= pos && (pos > off ==> pos <= |c| && nbytesToRead > 0)
        invariant writeTries == if k > 0 then MAX_TRIES else old(writeTries)
        invariant budget == old(budget) - k && noise <= old(noise)
        invariant if short then budget == 0 && off + k < pos < off + k + nbytesToRead else off + k == pos
        invariant wire == old(wire) + Piece(c, off, k) && tail == old(tail) + Piece(c, off, k)
        decreases if pos <= |c| then |c| - pos else 0
      {
        var bytes;
        bytes, error := Fread(disk, pos, nbytesToRead, error);
        if |bytes| == 0 {
          if error { return FatalWrite, k; }
          return CompleteWrite, k;
        }
        var sent;
        ghost var j;
        sent, j := SendBuf(bytes);
        PieceThen(c, off, k, pos, bytes, j);
        k := k + j;
        if sent == -1 { return FatalWrite, k; }
        res := Some(res.value.(offset := res.value.offset + sent));
        if sent == 0 {
          if writeTries == 0 { return MaxTries, k; }
          writeTries := writeTries - 1;
          return PartialWrite, k;
        }
        writeTries := MAX_TRIES;
        pos := pos + |bytes|;
        short := j < |bytes|;
      }
    }

    // ----- do_conn_state, for one connection -----

    /** set_conn_state. */
    method SetState(pfd: PollFd, s: ConnState) returns (pfd': PollFd)
      modifies this`state
      ensures state == s
      ensures pfd' == pfd.(events := s.Wanted())
    {
      state := s;
      match s
      case Reading => pfd' := pfd.(events := POLLIN);
      case WritingHeaders => pfd' := pfd.(events := POLLOUT);
      case WritingBody => pfd' := pfd.(events := POLLOUT);
      case WritingFinished => pfd' := pfd.(events := NO_EVENTS);
      case Closing => pfd' := pfd.(events := NO_EVENTS);
    }

    /** recycle_connection. */
    method Recycle(pfd: PollFd, now: int) returns (pfd': PollFd)
      modifies this`req, this`res, this`readTries, this`writeTries, this`keepAlive, this`lastActive
      ensures req.None? && res.None? && readTries == MAX_TRIES && writeTries == MAX_TRIES
      ensures keepAlive && lastActive == now
      ensures pfd' == PollFd(pfd.fd, POLLIN, NO_EVENTS)
    {
      req, res := None, None;
      readTries, writeTries := MAX_TRIES, MAX_TRIES;
      keepAlive := true;
      lastActive := now;
      pfd' := PollFd(pfd.fd, POLLIN, NO_EVENTS);
    }

    /** The READING case. */
    method DoReading(pfd: PollFd, ev: RecvResult, now: int) returns (pfd': PollFd)
      requires state == Reading && Persistent() && WireInv() && pfd.revents.pollin
      requires Fits(ReadingState(Snap()), ev)
      modifies this`state, this`req, this`readTries, this`keepAlive, this`lastActive, this`heard, this`pending
      ensures WireInv() && (state == Closing || Persistent())
      ensures lastActive == now || lastActive == old(lastActive)
      ensures pfd' == pfd.(events := pfd'.events)
      ensures pfd'.events == if state == Reading then pfd.events else state.Wanted()
      ensures ReadOutcome(old(Snap()), Snap(), ev, now)
    {
      hide Parsed, ReadStep, WantsClose, InFlight, OnlyHead, Answering, HistoryRight, StaysOpen, Wires, CutOff,
        Exchanging, Essential;
      var status := ReadSome(ev);
      match status
      case PartialRead =>
        lastActive := now;
        pfd' := pfd;
      case CompleteRead =>
        pfd' := TakeRequest(pfd, now);
      case _ =>
        pfd' := SetState(pfd, Closing);
    }

    /** read_request, with the buffer allocated if there is none yet. */
    method ReadSome(ev: RecvResult) returns (status: ReadStatus)
      requires state == Reading && Persistent() && Wires()
      requires Fits(ReadingState(Snap()), ev)
      modifies this`req, this`readTries, this`heard, this`pending
      ensures req.Some? && req.value.fields == BLANK && pending == req.value.buf
      ensures (ReadState(req.value.buf, readTries), status) == ReadStep(ReadingState(old(Snap())), ev)
      ensures heard == old(heard) + BytesOf(ev) && Wires()
      ensures readTries <= MAX_TRIES && (status == PartialRead ==> |req.value.buf| < MAX_REQUEST_SIZE)
    {
      hide ReadStep, Wires, StaysOpen, Exchanging, InFlight, OnlyHead;
      if req.None? {
        req := Some(HttpRequest([], BLANK));
      }
      PartialLeavesSpace(ReadState(req.value.buf, readTries), ev);
      status := ReadRequest(ev);
      HeardMore(BytesOf(ev));
    }

    /** A complete read: the request is parsed, and answered or given up. */
    method TakeRequest(pfd: PollFd, now: int) returns (pfd': PollFd)
      requires state == Reading && req.Some? && pending == req.value.buf && StaysOpen(log) && keepAlive
      modifies this`state, this`req, this`keepAlive, this`lastActive
      ensures pfd' == pfd.(events := state.Wanted()) && lastActive == now
      ensures req == Some(HttpRequest(old(req).value.buf, Parsed(old(req).value.buf)))
      ensures var q := Parsed(req.value.buf);
              if Essential(q) then state == WritingHeaders && Exchanging() && keepAlive == !WantsClose(q)
              else state == Closing
    {
      hide Parsed, WantsClose;
      lastActive := now;
      var q := ParseHttpRequest(req.value.buf);
      ParseSetsEssentials(req.value.buf);
      req := Some(req.value.(fields := q));
      if q.error.Some? && (q.verb.None? || q.path.None? || q.host.None?) {
        pfd' := SetState(pfd, Closing);
        return;
      }
      if WantsClose(q) { keepAlive := false; }
      pfd' := SetState(pfd, WritingHeaders);
    }

    twostate lemma HeardMore(x: string)
      requires old(Wires()) && heard == old(heard) + x && pending == old(pending) + x
      requires unchanged(this`wire, this`log, this`tail)
      ensures Wires()
    {
    }

    /** The response is generated when the first write-ready activation finds none. */
    method BeginResponse(fs: FileSystem, unset: (int, int), now: int)
      requires ValidConfig(conf)
      requires state == WritingHeaders && Persistent() && WireInv() && res.None?
      modifies this`res, this`lastActive, this`seen, this`spent, this`allowance
      ensures res == Some(ResponseFor(conf, req.value.fields, fs, unset))
      ensures Snap() == old(Snap()).(res := res, seen := Some(Seen(fs, unset)), lastActive := now, spent := 0,
                                     allowance := allowance)
      ensures Persistent() && WireInv()
    {
      hide ResponseFor, ValidConfig, Exchanging, InFlight, Wires, HistoryRight, CutOff, Answering, HasRequest;
      RequestIsThere();
      lastActive := now;
      var r := MakeHttpResponse(conf, req.value.fields, fs, unset);
      res := Some(r);
      seen := Some(Seen(fs, unset));
      spent, allowance := 0, Fuel();
      hide Persistent;
      RestsWithResponse(fs, unset);
      AnswerStarts(fs, unset);
    }

    lemma RequestIsThere()
      requires Persistent() && state == WritingHeaders
      ensures CanAnswer(Snap()) && HasRequest() && NUL !in req.value.fields.path.value
    {
    }

    lemma RestsWithResponse(fs: FileSystem, unset: (int, int))
      requires state == WritingHeaders && Exchanging() && CanAnswer(Snap()) && tail == []
      requires readTries <= MAX_TRIES && writeTries <= MAX_TRIES
      requires res == Some(ResponseFor(conf, req.value.fields, fs, unset))
      requires spent == 0 && allowance == Fuel()
      ensures Persistent()
    {
      hide Exchanging, ResponseFor, BytesLeft, FileSize, Sent, OnlyHead;
      NewResponse(conf, req.value.fields, fs, unset);
      LeftBelowSize(res.value);
      NothingSent(IsHead(), res.value);
    }

    lemma AnswerStarts(fs: FileSystem, unset: (int, int))
      requires HasRequest() && tail == []
      requires res == Some(ResponseFor(conf, req.value.fields, fs, unset)) && seen == Some(Seen(fs, unset))
      ensures Answering() && CutOff(IsHead(), res.value, tail)
    {
      hide ResponseFor, CutOff, AnswerTo;
      AnswerBegins(conf, req.value.buf, seen.value);
      NothingCut(IsHead(), res.value);
    }

    /** The record of the current exchange. */
    ghost function Entry(start: int, room: int): Served
      requires req.Some? && res.Some? && seen.Some?
      reads this`req, this`res, this`seen, this`tail
    {
      Served(req.value.buf, seen.value, res.value, tail, start, room)
    }

    /** The current response is over. */
    ghost predicate MayFinish(start: int, room: int)
      reads this`req, this`res, this`seen, this`wire, this`heard, this`log, this`pending, this`tail, this`keepAlive
    {
      WireInv() && res.Some? && Exchanging() && AllSent(IsHead(), res.value, tail, start, room)
    }

    /** The exchange goes into the history. */
    ghost method Finish(start: int, room: int)
      requires MayFinish(start, room)
      modifies this`log, this`pending, this`tail
      ensures log == old(log) + [old(Entry(start, room))]
      ensures tail == [] && pending == [] && WireInv() && (keepAlive ==> StaysOpen(log))
    {
      hide AllSent, AnswerTo, WantsClose, Parsed, CutOff, HistoryRight, StaysOpen, Flat, Asked;
      ghost var f := Entry(start, room);
      HistoryGrows(conf, log, f);
      FlatGrows(log, f);
      log := log + [f];
      assert Flat(log) + [] == Flat(log) && Asked(log) + [] == Asked(log);
      tail, pending := [], [];
      NothingCut(IsHead(), res.value);
    }

    /** The WRITING_FINISHED case. */
    method DoWritingFinished(pfd: PollFd, now: int) returns (pfd': PollFd)
      requires state == WritingFinished && Enterable()
      modifies this`state, this`req, this`res, this`readTries, this`writeTries, this`keepAlive, this`lastActive
      ensures pfd'.fd == pfd.fd && pfd'.events == state.Wanted()
      ensures state == if old(keepAlive) then Reading else Closing
      ensures state == Reading ==> Persistent() && req.None? && readTries == MAX_TRIES && keepAlive && lastActive == now
      ensures WireInv() && (lastActive == now || lastActive == old(lastActive))
    {
      if keepAlive {
        pfd' := Recycle(pfd, now);
        pfd' := SetState(pfd', Reading);
      } else {
        pfd' := SetState(pfd, Closing);
      }
    }

    /** The cursors of a response do not change whose answer it is. */
    twostate lemma StillAnswering()
      requires old(Answering()) && res.Some? && SameResponse(res.value, old(res).value)
      requires unchanged(this`req, this`seen)
      ensures Answering()
    {
      AnswerMoves(conf, req.value.buf, seen.value, res.value, old(res).value);
    }

    lemma WhatIsPending()
      requires Exchanging()
      ensures req.Some? && pending == req.value.buf && StaysOpen(log)
    {
    }

    /** One call of write_body in the WRITING_BODY case. */
    method MemoryStep() returns (status: WriteStatus)
      requires state == WritingBody && Persistent() && WireInv() && res.value.body.Some?
      modifies this`res, this`writeTries, this`budget, this`noise, this`wire, this`tail
      ensures res.Some? && old(wire) <= wire && WireInv()
      ensures SameResponse(res.value, old(res.value))
      ensures status == PartialWrite ==>
              Persistent() && spent + 1 + Fuel() <= allowance && Fuel() < old(Fuel()) && OneTryLess(old(Snap()), Snap())
      ensures status == CompleteWrite ==> MayFinish(old(res.value.offset), old(budget))
      ensures old(Calm()) && Whole(old(res.value)) ==>
              status != FatalWrite && |wire| == |old(wire)| + Min(BodyRest(old(res.value)), old(budget))
              && (BodyRest(old(res.value)) <= old(budget) ==> status == CompleteWrite)
              && (status == CompleteWrite ==> BodyRest(old(res.value)) <= old(budget))
      ensures status == MaxTries ==> old(writeTries) == 0
      ensures readTries <= MAX_TRIES && writeTries <= MAX_TRIES
    {
      hide HasRequest, Exchanging, Answering, HistoryRight, Flat, Asked, Whole, Sent, CutOff, AllSent, Payload, FileSize, WantsClose, Parsed;
      ghost var before := res.value;
      ghost var x;
      WhatIsPending();
      SentSoFar(before, tail);
      status, x := WriteBody();
      SumThen(Flat(log), old(tail), x);
      PrefixOfSum(old(wire), x);
      NoFileBytes(before, res.value);
      BodyMoves(before, old(tail), x, before.offset, old(budget));
      StillAnswering();
    }

    /** One call of write_file in the WRITING_BODY case. */
    method FileStep() returns (status: WriteStatus)
      requires state == WritingBody && Persistent() && WireInv() && res.value.body.None?
      modifies this`res, this`writeTries, this`budget, this`noise, this`wire, this`tail
      ensures res.Some? && old(wire) <= wire && WireInv()
      ensures SameResponse(res.value, old(res.value))
      ensures status == PartialWrite ==>
              Persistent() && spent + 1 + Fuel() <= allowance && Fuel() < old(Fuel()) && OneTryLess(old(Snap()), Snap())
      ensures status == CompleteWrite ==> MayFinish(old(res.value.offset), old(budget))
      ensures old(Calm()) && Whole(old(res.value)) ==>
              status != FatalWrite && |wire| == |old(wire)| + Min(BodyRest(old(res.value)), old(budget))
              && (BodyRest(old(res.value)) <= old(budget) ==> status == CompleteWrite)
      ensures status == MaxTries ==> old(writeTries) == 0
      ensures readTries <= MAX_TRIES && writeTries <= MAX_TRIES
    {
      hide HasRequest, Exchanging, Answering, HistoryRight, Flat, Asked, Whole, Sent, CutOff, AllSent, Payload, BytesLeft, FileSize, Readable, Piece, Copied,
        WantsClose, Parsed, Reached, FileCursor;
      ghost var before := res.value;
      WhatIsPending();
      SentSoFar(before, tail);
      ghost var k;
      status, k := WriteFile();
      ghost var x := Piece(Readable(before.disk), before.offset, k);
      SumThen(Flat(log), old(tail), x);
      PrefixOfSum(old(wire), x);
      PieceLength(before, res.value.offset, k, status);
      FuelProgress(before, res.value.offset, k, status);
      FileMoves(before, old(tail), res.value.offset, k, status, old(budget));
      StillAnswering();
    }

    /** The call of write_headers in the WRITING_HEADERS case. */
    method HeadStep() returns (status: WriteStatus)
      requires state == WritingHeaders && Persistent() && WireInv() && res.Some?
      modifies this`res, this`writeTries, this`budget, this`noise, this`wire, this`tail
      ensures res.Some? && old(wire) <= wire && WireInv()
      ensures SameResponse(res.value, old(res.value)) && res.value.offset == old(res.value.offset)
      ensures status == PartialWrite ==>
              Persistent() && spent + 1 + Fuel() <= allowance && Fuel() < old(Fuel()) && OneTryLess(old(Snap()), Snap())
      ensures status == CompleteWrite ==>
              Persistent() && res.value.headSent == |res.value.head| && HeadWritten(old(Snap()), Snap(), old(res.value))
              && budget == old(budget) - (|old(res.value.head)| - old(res.value.headSent))
      ensures status == CompleteWrite && IsHead() ==> MayFinish(res.value.offset, budget)
      ensures var left := |old(res.value.head)| - old(res.value.headSent);
              old(Calm()) ==>
                status != FatalWrite && |wire| == |old(wire)| + Min(left, old(budget))
                && (status != CompleteWrite ==> old(budget) < left)
      ensures noise <= old(noise)
      ensures status == MaxTries ==> old(writeTries) == 0
      ensures readTries <= MAX_TRIES && writeTries <= MAX_TRIES
    {
      hide HasRequest, Exchanging, Answering, HistoryRight, Flat, Asked, Whole, Sent, OnlyHead, CutOff, AllSent, Payload, BytesLeft, FileSize,
        WantsClose, Parsed;
      ghost var before := res.value;
      WhatIsPending();
      ghost var k;
      status, k := WriteHeaders();
      ghost var x := before.head[before.headSent..before.headSent + k];
      SumThen(Flat(log), old(tail), x);
      PrefixOfSum(old(wire), x);
      HeadKeepsFuel(before, k);
      if status != FatalWrite {
        HeadMoves(IsHead(), before, old(tail), k, before.offset, budget);
      } else {
        HeadCut(IsHead(), before, old(tail), k);
      }
      StillAnswering();
    }

    /** The end of a response: do_conn_state goes on with WRITING_FINISHED. */
    method Conclude(pfd: PollFd, ev: RecvResult, fs: FileSystem, unset: (int, int), now: int,
                    ghost a: Snap, ghost before: Response, ghost room: int)
      returns (pfd': PollFd)
      requires ValidConfig(conf)
      requires state == WritingHeaders || state == WritingBody
      requires MayFinish(before.offset, room - (|before.head| - before.headSent))
      requires SameResponse(res.value, before) && readTries <= MAX_TRIES && writeTries <= MAX_TRIES
      requires Snap() == a.(res := res, writeTries := writeTries, wire := wire, tail := tail) && a.wire <= wire
      modifies this
      ensures pfd'.fd == pfd.fd && (state != Closing ==> pfd'.events == state.Wanted())
      ensures WireInv() && (state == Closing || Persistent())
      ensures WriteStep(a, Snap(), CompleteWrite, now, before, room) && wire == old(wire)
      decreases 5 - state.Number(), 0
    {
      hide WireInv, Persistent, ValidConfig, MayFinish, WriteStep, SameResponse, Enterable;
      ghost var f := RecordHere(before, room);
      pfd' := EndExchange(pfd, f.start, f.room);
      ghost var inner;
      pfd', inner := DoState(pfd', ev, fs, unset, now);
      FinishedStep(a, Snap(), now, f, before, room);
    }

    /** The record of the current exchange, whose response was before at first. */
    ghost function RecordHere(before: Response, room: int): (f: Served)
      requires MayFinish(before.offset, room - (|before.head| - before.headSent)) && SameResponse(res.value, before)
      reads this
      ensures req.Some? && f == Entry(f.start, f.room) && RecordOf(f, before, req.value.buf, room)
    {
      Entry(before.offset, room - (|before.head| - before.headSent))
    }

    /** The exchange is over, and so is the writing of its response. */
    method EndExchange(pfd: PollFd, ghost start: int, ghost room: int) returns (pfd': PollFd)
      requires MayFinish(start, room) && readTries <= MAX_TRIES && writeTries <= MAX_TRIES
      modifies this`state, this`log, this`pending, this`tail
      ensures log == old(log) + [old(Entry(start, room))]
      ensures state == WritingFinished && Enterable()
      ensures pfd' == pfd.(events := state.Wanted())
    {
      hide WireInv, StaysOpen;
      Finish(start, room);
      pfd' := SetState(pfd, WritingFinished);
    }

    /** One call of write_body or write_file. */
    method BodyStep() returns (status: WriteStatus)
      requires state == WritingBody && Persistent() && WireInv()
      modifies this`res, this`writeTries, this`budget, this`noise, this`wire, this`tail
      ensures res.Some? && old(wire) <= wire && WireInv()
      ensures old(res).Some? && SameResponse(res.value, old(res.value))
      ensures status == PartialWrite ==>
              Persistent() && spent + 1 + Fuel() <= allowance && Fuel() < old(Fuel()) && OneTryLess(old(Snap()), Snap())
      ensures status == CompleteWrite ==> MayFinish(old(res.value.offset), old(budget))
      ensures old(Calm()) && Whole(old(res.value)) ==>
              status != FatalWrite && |wire| == |old(wire)| + Min(BodyRest(old(res.value)), old(budget))
              && (BodyRest(old(res.value)) <= old(budget) ==> status == CompleteWrite)
              && (old(res.value).body.Some? && status == CompleteWrite ==> BodyRest(old(res.value)) <= old(budget))
      ensures status == MaxTries ==> old(writeTries) == 0
      ensures readTries <= MAX_TRIES && writeTries <= MAX_TRIES
    {
      HeadIsOut();
      hide Persistent, WireInv, FuelOf, MayFinish;
      if res.value.body.Some? {
        status := MemoryStep();
      } else {
        status := FileStep();
      }
    }

    /** The WRITING_BODY case. */
    method DoWritingBody(pfd: PollFd, ev: RecvResult, fs: FileSystem, unset: (int, int), now: int)
      returns (pfd': PollFd, ghost status: WriteStatus)
      requires ValidConfig(conf)
      requires state == WritingBody && Persistent() && WireInv() && pfd.revents.pollout && pfd.events == state.Wanted()
      modifies this
      ensures pfd'.fd == pfd.fd && (state != Closing ==> pfd'.events == state.Wanted())
      ensures WireInv() && (state == Closing || Persistent())
      ensures WriteStep(old(Snap()), Snap(), status, now, old(res.value), old(budget))
      ensures CalmStep(old(Calm()), old(IsHead()), old(Snap()), Snap(), status, old(res.value), old(budget))
      decreases 5 - state.Number(), 1
    {
      hide Persistent, HasRequest, InFlight, FuelOf, ValidConfig, MayFinish, SameResponse, AllSent, WireInv, WriteStep,
        Whole, BodyRest;
      HeadIsOut();
      NotHead();
      ghost var a, before, room, wasCalm := Snap(), res.value, budget, Calm();
      var last := BodyStep();
      status := last;
      match last
      case PartialWrite =>
        pfd' := pfd;
        CountPartial(a, before, now, room);
      case CompleteWrite =>
        pfd' := Conclude(pfd, ev, fs, unset, now, a, before, room);
      case _ =>
        pfd' := SetState(pfd, Closing);
        GivenUp(a, Snap(), status, now, before, room);
      CalmBody(wasCalm, a, Snap(), status, before, room);
    }

    lemma NotHead()
      requires state == WritingBody && Persistent()
      ensures !IsHead()
    {
    }

    /** The head is out: do_conn_state goes on with WRITING_FINISHED for a HEAD request,
        else with WRITING_BODY. Before the head was written the connection was as in a,
        with room for room bytes. */
    method GoOn(pfd: PollFd, ev: RecvResult, fs: FileSystem, unset: (int, int), now: int,
                ghost a: Snap, ghost before: Response, ghost room: int)
      returns (pfd': PollFd, ghost status: WriteStatus)
      requires ValidConfig(conf)
      requires state == WritingHeaders && Persistent() && WireInv() && pfd.revents.pollout
      requires res.Some? && res.value.headSent == |res.value.head| && a.state == WritingHeaders
      requires HeadWritten(a, Snap(), before) && budget == room - (|before.head| - before.headSent)
      requires IsHead() ==> MayFinish(before.offset, budget)
      modifies this
      ensures pfd'.fd == pfd.fd && (state != Closing ==> pfd'.events == state.Wanted())
      ensures WireInv() && (state == Closing || Persistent())
      ensures WriteStep(a, Snap(), status, now, before, room)
      ensures CalmStep(old(Calm()), old(IsHead()), a, Snap(), status, before, room)
      decreases 5 - state.Number(), 1
    {
      hide Sent, Exchanging, OnlyHead, HasRequest, FuelOf, ValidConfig, SameResponse, WireInv, WriteStep, MayFinish, CalmStep;
      ghost var room', wasCalm := budget, Calm();
      if IsHead() {
        status := CompleteWrite;
        pfd' := Conclude(pfd, ev, fs, unset, now, a, before, room);
        CalmHead(wasCalm, a, Snap(), before, room);
        return;
      }
      pfd' := SetState(pfd, WritingBody);
      hide InFlight;
      HeadIsOut();
      ghost var m := Snap();
      assert HeadWritten(a, m, before);
      pfd', status := DoState(pfd', ev, fs, unset, now);
      AfterHead(a, m, Snap(), before, status, now, room', room);
      CalmAfterHead(wasCalm, false, a, m, Snap(), before, status, now, room', room);
    }

    lemma HeadIsThere()
      requires state == WritingHeaders && Persistent()
      ensures req.Some?
    {
    }

    lemma HeadIsOut()
      requires state == WritingBody && Persistent()
      ensures req.Some? && res.Some? && res.value.headSent == |res.value.head| && HasRequest()
    {
    }

    /** One more partial write of the current response. */
    ghost method CountPartial(a: Snap, before: Response, now: int, room: int)
      requires Persistent() && WireInv() && res.Some? && spent + 1 + Fuel() <= allowance
      requires Snap() == a.(res := res, writeTries := writeTries, lastActive := lastActive, wire := wire, tail := tail)
      requires a.wire <= wire && a.res == Some(before) && SameResponse(res.value, before)
      requires lastActive == if state == WritingHeaders then now else a.lastActive
      requires Fuel() < FuelOf(a.res, a.writeTries) && OneTryLess(a, Snap()) && (state == WritingHeaders || state == WritingBody)
      modifies this`spent
      ensures Persistent() && WireInv()
      ensures WriteStep(a, Snap(), PartialWrite, now, before, room)
    {
      hide Wires, HistoryRight, CurrentRight, Exchanging, Sent, OnlyHead, StaysOpen, BytesLeft, FuelOf, WriteStep, SameResponse;
      spent := spent + 1;
      PartialStep(a, Snap(), now, before, room);
    }

    /** The WRITING_HEADERS case. */
    method DoWritingHeaders(pfd: PollFd, ev: RecvResult, fs: FileSystem, unset: (int, int), now: int)
      returns (pfd': PollFd, ghost status: WriteStatus)
      requires ValidConfig(conf)
      requires state == WritingHeaders && Persistent() && WireInv() && pfd.revents.pollout && pfd.events == state.Wanted()
      modifies this
      ensures pfd'.fd == pfd.fd && (state != Closing ==> pfd'.events == state.Wanted())
      ensures WireInv() && (state == Closing || Persistent())
      ensures CanAnswer(old(Snap()))
      ensures WriteStep(old(Snap()), Snap(), status, now, Current(conf, old(Snap()), fs, unset), old(budget))
      ensures CalmStep(old(Calm()), old(IsHead()), old(Snap()), Snap(), status, Current(conf, old(Snap()), fs, unset), old(budget))
      decreases 5 - state.Number(), 3
    {
      hide Flat, Asked, InFlight, HistoryRight, Fuel, ValidConfig, ResponseFor, MayFinish, Entry, RecordOf, SameResponse, WireInv;
      if res.None? {
        BeginResponse(fs, unset, now);
      }
      ghost var m := Snap();
      pfd', status := SendHeaders(pfd, ev, fs, unset, now);
      if old(res).None? {
        AfterBegin(old(Snap()), m, Snap(), m.res.value, status, now, old(budget));
      }
    }

    /** The rest of the WRITING_HEADERS case, with a response in place. */
    method SendHeaders(pfd: PollFd, ev: RecvResult, fs: FileSystem, unset: (int, int), now: int)
      returns (pfd': PollFd, ghost status: WriteStatus)
      requires ValidConfig(conf)
      requires state == WritingHeaders && Persistent() && WireInv() && pfd.revents.pollout && pfd.events == state.Wanted()
      requires res.Some?
      modifies this
      ensures pfd'.fd == pfd.fd && (state != Closing ==> pfd'.events == state.Wanted())
      ensures WireInv() && (state == Closing || Persistent())
      ensures WriteStep(old(Snap()), Snap(), status, now, old(res.value), old(budget))
      ensures CalmStep(old(Calm()), old(IsHead()), old(Snap()), Snap(), status, old(res.value), old(budget))
      decreases 5 - state.Number(), 2
    {
      hide Persistent, InFlight, FuelOf, ValidConfig, MayFinish, SameResponse, HasRequest, WireInv, WriteStep, HeadWritten,
        Whole, BodyRest;
      HeadIsThere();
      ghost var a, before, room, wasCalm := Snap(), res.value, budget, Calm();
      var last := HeadStep();
      status := last;
      if last == CompleteWrite {
        pfd', status := GoOn(pfd, ev, fs, unset, now, a, before, room);
      } else {
        pfd' := HeadStopped(pfd, last, now, a, before, room, wasCalm);
      }
    }

    /** Not all of the head is out: it will be tried again, or the connection is given
        up. */
    method HeadStopped(pfd: PollFd, last: WriteStatus, now: int, ghost a: Snap, ghost before: Response, ghost room: int,
                       ghost wasCalm: bool)
      returns (pfd': PollFd)
      requires last != CompleteWrite && state == WritingHeaders && WireInv() && pfd.events == state.Wanted()
      requires Snap() == a.(res := res, writeTries := writeTries, wire := wire, tail := tail) && a.wire <= wire
      requires a.res == Some(before) && res.Some? && SameResponse(res.value, before)
      requires last == PartialWrite ==>
               Persistent() && spent + 1 + Fuel() <= allowance && Fuel() < FuelOf(a.res, a.writeTries)
               && OneTryLess(a, Snap())
      requires last == MaxTries ==> a.writeTries == 0
      requires wasCalm ==> last != FatalWrite && room < |before.head| - before.headSent && |wire| == |a.wire| + room
      modifies this`lastActive, this`spent, this`state
      ensures pfd'.fd == pfd.fd && (state != Closing ==> pfd'.events == state.Wanted())
      ensures WireInv() && (state == Closing || Persistent())
      ensures WriteStep(a, Snap(), last, now, before, room)
      ensures CalmStep(wasCalm, IsHead(), a, Snap(), last, before, room)
    {
      hide Exchanging, InFlight, OnlyHead, StaysOpen, FuelOf, SameResponse, WireInv, WriteStep, Whole, BodyRest;
      if last == PartialWrite {
        lastActive := now;
        pfd' := pfd;
        CountPartial(a, before, now, room);
      } else {
        pfd' := SetState(pfd, Closing);
        GivenUp(a, Snap(), last, now, before, room);
      }
      CalmHeadCut(wasCalm, IsHead(), a, Snap(), last, before, room);
    }

    /** The kernel gets ready, and do_conn_state is called. */
    method Activate(pfd: PollFd, ev: RecvResult, room: nat, willing: bool, noise: nat,
                    fs: FileSystem, unset: (int, int), now: int)
      returns (pfd': PollFd, ghost act: Act)
      requires ValidConfig(conf) && Enterable()
      requires state != Closing ==> pfd.events == state.Wanted()
      requires state == Reading ==> Fits(ReadingState(Snap()), ev)
      modifies this
      ensures WireInv() && (state == Closing || (Persistent() && pfd'.events == state.Wanted()))
      ensures pfd'.fd == pfd.fd
      ensures lastActive == now || lastActive == old(lastActive)
      ensures Transition(conf, old(Snap()), Snap(), pfd.revents, act, fs, now)
      ensures act == Act(act.status, ev, room, willing && noise <= MAX_INTERRUPTIONS, unset)
    {
      hide WireInv, Persistent, Transition, ValidConfig;
      budget, this.willing, this.noise := room, willing, noise;
      ghost var status;
      pfd', status := DoState(pfd, ev, fs, unset, now);
      act := Act(status, ev, room, willing && noise <= MAX_INTERRUPTIONS, unset);
    }

    /** do_conn_state, up to the closing of the connection, which is the queue's. */
    method DoState(pfd: PollFd, ev: RecvResult, fs: FileSystem, unset: (int, int), now: int)
      returns (pfd': PollFd, ghost status: WriteStatus)
      requires ValidConfig(conf) && Enterable()
      requires state != Closing ==> pfd.events == state.Wanted()
      requires state == Reading ==> Fits(ReadingState(Snap()), ev)
      modifies this
      ensures WireInv() && (state == Closing || (Persistent() && pfd'.events == state.Wanted()))
      ensures pfd'.fd == pfd.fd
      ensures lastActive == now || lastActive == old(lastActive)
      ensures Transition(conf, old(Snap()), Snap(), pfd.revents, Act(status, ev, old(budget), old(Calm()), unset), fs, now)
      decreases 5 - state.Number(), 4
    {
      hide Flat, Asked, InFlight, HistoryRight, Fuel, ValidConfig, ReadStep, Parsed, WireInv;
      pfd', status := pfd, PartialWrite;
      match state
      case Reading =>
        if !pfd.revents.pollin { return; }
        pfd' := DoReading(pfd, ev, now);
      case WritingHeaders =>
        if !pfd.revents.pollout { return; }
        pfd', status := DoWritingHeaders(pfd, ev, fs, unset, now);
      case WritingBody =>
        if !pfd.revents.pollout { return; }
        pfd', status := DoWritingBody(pfd, ev, fs, unset, now);
      case WritingFinished =>
        pfd' := DoWritingFinished(pfd, now);
      case Closing =>
    }
  }

  lemma SumThen(a: string, b: string, c: string)
    ensures a + b + c == a + (b + c)
  {
  }

  lemma PrefixOfSum(s: string, t: string)
    ensures s <= s + t
  {
  }

  lemma NothingCut(isHead: bool, res: Response)
    ensures CutOff(isHead, res, [])
  {
  }

  lemma HeadKeepsFuel(before: Response, k: nat)
    ensures var after := before.(headSent := before.headSent + k);
            BytesLeft(after) == BytesLeft(before) && FileSize(after) == FileSize(before)
  {
  }

  lemma HeadCut(isHead: bool, before: Response, text: string, k: nat)
    requires before.headSent + k <= |before.head| && OnlyHead(before, text)
    ensures CutOff(isHead, before, text + before.head[before.headSent..before.headSent + k])
  {
    HeadMoves(isHead, before, text, k, 0, 0);
  }

  lemma NoFileBytes(before: Response, after: Response)
    requires before.body.Some? && after.body == before.body
    ensures BytesLeft(before) == BytesLeft(after) == 0 && FileSize(before) == FileSize(after)
  {
  }

  /** A whole body was not overrun, and the file cursor is in the file. */
  lemma SentSoFar(res: Response, text: string)
    requires res.headSent == |res.head| && Sent(false, res, text)
    ensures res.body.Some? && Whole(res) ==> res.bodySent <= |res.body.value|
    ensures res.body.None? ==> FileCursor(res)
  {
  }
}
