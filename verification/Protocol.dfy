/** The state machine of a connection as a relation: what one call of do_conn_state
    may make of a connection, and what follows for any number of calls. */
module Protocol {
  import opened Text
  import opened Numbers
  import opened Grammar
  import opened RequestParser
  import opened Reader
  import opened Responses
  import opened Answers

  // ----- poll -----

  datatype Events = Events(pollin: bool, pollout: bool)

  const NO_EVENTS := Events(false, false)
  const POLLIN := Events(true, false)
  const POLLOUT := Events(false, true)

  datatype PollFd = PollFd(fd: int, events: Events, revents: Events)

  // ----- States -----

  datatype ConnState = Reading | WritingHeaders | WritingBody | WritingFinished | Closing
  {
    function Number(): nat {
      match this
      case Reading => 1
      case WritingHeaders => 2
      case WritingBody => 3
      case WritingFinished => 4
      case Closing => 5
    }

    function Wanted(): Events {
      match this
      case Reading => POLLIN
      case WritingHeaders => POLLOUT
      case WritingBody => POLLOUT
      case _ => NO_EVENTS
    }
  }

  /** The bytes received so far and, once they are complete, the parsed fields. */
  datatype HttpRequest = HttpRequest(buf: string, fields: Request)

  /** All there is to know of a connection at one time, without its socket. */
  datatype Snap = Snap(
    state: ConnState,
    req: Option<HttpRequest>,
    res: Option<Response>,
    readTries: nat,
    writeTries: nat,
    keepAlive: bool,
    lastActive: int,
    wire: string,
    heard: string,
    log: seq<Served>,
    pending: string,
    tail: string,
    seen: Option<Seen>,
    spent: nat,
    allowance: nat)

  /** What one call of do_conn_state meets, beside poll's report: the answer of recv,
      the room in the socket, whether all is calm, and what stood in unset range fields;
      and how its last write ended, if there was one. It is calm when no send
      fails as long as there is room, at most four are interrupted, and fopen, fseeko and
      fread do their work on a file that is there. */
  datatype Act = Act(status: WriteStatus, ev: RecvResult, room: nat, calm: bool, unset: (int, int))

  /** A connection that has received nothing of a request yet. */
  predicate Fresh(a: Snap) {
    a.state == Reading && a.req.None? && a.readTries == MAX_TRIES
  }

  /** A connection of which nothing has been received and to which nothing was sent. */
  predicate New(a: Snap) {
    Fresh(a) && a.heard == [] && a.wire == [] && a.log == []
  }

  // ----- Steps -----

  function BytesOf(ev: RecvResult): string {
    if ev.Data? then ev.bytes else []
  }

  /** What is known of the request when recv is called. */
  function ReadingState(a: Snap): ReadState {
    ReadState(if a.req.None? then [] else a.req.value.buf, a.readTries)
  }

  /** A read, by how it ends. */
  ghost predicate ReadOutcome(a: Snap, b: Snap, ev: RecvResult, now: int) {
    var (s, status) := ReadStep(ReadingState(a), ev);
    && b.wire == a.wire && b.log == a.log && b.heard == a.heard + BytesOf(ev) && b.res == a.res
    && match status
       case PartialRead =>
         b.state == Reading && b.req == Some(HttpRequest(s.buf, BLANK)) && b.readTries == s.tries
         && b.keepAlive == a.keepAlive && b.lastActive == now
       case CompleteRead =>
         var q := Parsed(s.buf);
         b.state == (if Essential(q) then WritingHeaders else Closing)
         && b.req == Some(HttpRequest(s.buf, q)) && b.lastActive == now
         && (b.state == WritingHeaders ==> b.keepAlive == !WantsClose(q))
       case _ => b.state == Closing
  }

  /** File bytes left and write tries left, as one number that every partial write
      makes smaller. */
  function FuelOf(res: Option<Response>, tries: nat): nat {
    (if res.Some? then 6 * BytesLeft(res.value) else 0) + tries
  }

  /** The record of the response r to the request in buf, by a call that finds the
      socket with room for room bytes: write_file gets what the head leaves. */
  ghost predicate RecordOf(f: Served, r: Response, buf: string, room: int) {
    && SameResponse(f.res, r) && f.buf == buf
    && f.start == r.offset && f.room == room - (|r.head| - r.headSent)
  }

  /** A partial write takes one try, except that progress in a file gives all tries
      back. */
  ghost predicate OneTryLess(a: Snap, b: Snap) {
    && a.writeTries <= b.writeTries + 1
    && (b.state == WritingHeaders || (b.res.Some? && b.res.value.body.Some?) ==> a.writeTries == b.writeTries + 1)
  }

  /** What one write-ready call does to the response r, by the status of its last
      write; room is the budget it starts with. Progress in the head counts as activity,
      progress in the body does not. */
  ghost predicate WriteStep(a: Snap, b: Snap, status: WriteStatus, now: int, r: Response, room: int) {
    && a.wire <= b.wire && b.heard == a.heard
    && (b.lastActive == now || b.lastActive == a.lastActive)
    && match status
       case CompleteWrite =>
         && |b.log| == |a.log| + 1 && b.log[..|a.log|] == a.log
         && a.req.Some? && RecordOf(b.log[|a.log|], r, a.req.value.buf, room)
         && b.state == (if a.keepAlive then Reading else Closing) && (b.state == Reading ==> Fresh(b) && b.lastActive == now)
       case PartialWrite =>
         && b.log == a.log && (b.state == WritingHeaders || b.state == WritingBody)
         && b.lastActive == (if b.state == WritingHeaders || a.res.None? then now else a.lastActive)
         && a.state.Number() <= b.state.Number()
         && b.req == a.req && b.keepAlive == a.keepAlive && b.res.Some? && SameResponse(b.res.value, r)
         && b.spent == (if a.res.Some? then a.spent else 0) + 1 && OneTryLess(a, b)
         && (a.res.Some? ==>
              FuelOf(b.res, b.writeTries) < FuelOf(a.res, a.writeTries) && b.allowance == a.allowance && b.seen == a.seen)
       case FatalWrite => b.log == a.log && b.state == Closing
       case MaxTries => b.log == a.log && b.state == Closing && a.writeTries == 0
  }

  /** What a calm call sends: of any response the head, as far as there is room. Of a
      response to HEAD, and of a whole one, all the rest as far as there is room; if
      there is room for all the rest, the response is complete, and unless it is a file,
      only then. */
  ghost predicate CalmStep(calm: bool, isHead: bool, a: Snap, b: Snap, status: WriteStatus, r: Response, room: int) {
    calm ==>
    && |b.wire| >= |a.wire| + Min(room, |r.head| - r.headSent)
    && (isHead || Whole(r) ==>
         && status != FatalWrite
         && |b.wire| == |a.wire| + Min(room, Rest(isHead, r))
         && (Rest(isHead, r) <= room ==> status == CompleteWrite)
         && (isHead || r.body.Some? ==> (status == CompleteWrite ==> Rest(isHead, r) <= room)))
  }

  predicate CanAnswer(a: Snap) {
    a.req.Some? && a.req.value.fields.verb.Some? && a.req.value.fields.path.Some?
  }

  /** The response being sent, or the one that is about to be. */
  function Current(conf: Config, a: Snap, fs: FileSystem, unset: (int, int)): Response
    requires CanAnswer(a)
  {
    if a.res.Some? then a.res.value else ResponseFor(conf, a.req.value.fields, fs, unset)
  }

  ghost predicate WriteCall(a: Snap, b: Snap, act: Act, now: int, r: Response)
    requires a.req.Some?
  {
    && WriteStep(a, b, act.status, now, r, act.room)
    && CalmStep(act.calm, IsHeadRequest(a.req.value.fields), a, b, act.status, r, act.room)
  }

  /** What do_conn_state makes of a connection, by the state it is in and what poll
      reported. */
  ghost predicate Transition(conf: Config, a: Snap, b: Snap, revents: Events, act: Act, fs: FileSystem, now: int) {
    match a.state
    case Reading =>
      if revents.pollin then ReadOutcome(a, b, act.ev, now) else b == a
    case WritingHeaders =>
      if revents.pollout
      then CanAnswer(a) && WriteCall(a, b, act, now, Current(conf, a, fs, act.unset))
      else b == a
    case WritingBody =>
      if revents.pollout
      then CanAnswer(a) && WriteCall(a, b, act, now, Current(conf, a, fs, act.unset))
      else b == a
    case WritingFinished =>
      b.state == (if a.keepAlive then Reading else Closing) && (b.state == Reading ==> Fresh(b) && b.lastActive == now)
      && b.wire == a.wire && b.heard == a.heard && b.log == a.log
    case Closing => b == a
  }

  lemma ClosingStays(conf: Config, a: Snap, b: Snap, revents: Events, act: Act, fs: FileSystem, now: int)
    requires Transition(conf, a, b, revents, act, fs, now) && a.state == Closing
    ensures b == a
  {
  }

  // ----- The ways a write can end -----

  lemma PartialStep(a: Snap, b: Snap, now: int, r: Response, room: int)
    requires a.wire <= b.wire && a.res == Some(r) && b.res.Some? && SameResponse(b.res.value, r)
    requires b == a.(res := b.res, writeTries := b.writeTries, lastActive := b.lastActive, wire := b.wire, tail := b.tail,
                     spent := a.spent + 1)
    requires b.lastActive == if a.state == WritingHeaders then now else a.lastActive
    requires FuelOf(b.res, b.writeTries) < FuelOf(a.res, a.writeTries) && OneTryLess(a, b)
    requires a.state == WritingHeaders || a.state == WritingBody
    ensures WriteStep(a, b, PartialWrite, now, r, room)
  {
    hide FuelOf, SameResponse;
  }

  lemma GivenUp(a: Snap, b: Snap, status: WriteStatus, now: int, r: Response, room: int)
    requires a.wire <= b.wire && b.heard == a.heard && b.log == a.log && b.lastActive == a.lastActive && b.state == Closing
    requires status == FatalWrite || (status == MaxTries && a.writeTries == 0)
    ensures WriteStep(a, b, status, now, r, room)
  {
    hide FuelOf;
  }

  lemma FinishedStep(a: Snap, b: Snap, now: int, f: Served, r: Response, room: int)
    requires a.wire <= b.wire && b.heard == a.heard && a.req.Some? && b.log == a.log + [f]
    requires b.lastActive == now || b.lastActive == a.lastActive
    requires b.state == (if a.keepAlive then Reading else Closing) && (b.state == Reading ==> Fresh(b) && b.lastActive == now)
    requires RecordOf(f, r, a.req.value.buf, room)
    ensures WriteStep(a, b, CompleteWrite, now, r, room)
  {
    hide FuelOf;
  }

  // ----- Steps in two parts -----

  /** From a to b nothing happened but that the head of a's response r went out. */
  ghost predicate HeadWritten(a: Snap, b: Snap, r: Response) {
    && a.wire <= b.wire && a.res == Some(r) && b.res.Some?
    && SameResponse(b.res.value, r) && b.res.value.offset == r.offset
    && FuelOf(b.res, b.writeTries) == FuelOf(a.res, a.writeTries) && b.writeTries == a.writeTries
    && a.state.Number() <= b.state.Number()
    && b.res.value.bodySent == r.bodySent && b.res.value.head == r.head && |b.wire| == |a.wire| + (b.res.value.headSent - r.headSent)
    && a.(state := b.state, res := b.res, writeTries := b.writeTries, wire := b.wire, tail := b.tail) == b
  }

  lemma AfterHead(a: Snap, m: Snap, b: Snap, r: Response, status: WriteStatus, now: int, roomM: int, room: int)
    requires HeadWritten(a, m, r) && m.res.value.headSent == |m.res.value.head|
    requires roomM == room - (|r.head| - r.headSent)
    requires WriteStep(m, b, status, now, m.res.value, roomM)
    ensures WriteStep(a, b, status, now, r, room)
  {
    hide FuelOf;
  }

  lemma CalmAfterHead(calm: bool, isHead: bool, a: Snap, m: Snap, b: Snap, r: Response, status: WriteStatus, now: int, roomM: int, room: int)
    requires HeadWritten(a, m, r) && m.res.value.headSent == |m.res.value.head| && 0 <= roomM
    requires roomM == room - (|r.head| - r.headSent)
    requires CalmStep(calm, isHead, m, b, status, m.res.value, roomM) && WriteStep(m, b, status, now, m.res.value, roomM)
    ensures CalmStep(calm, isHead, a, b, status, r, room)
  {
    hide FuelOf;
  }

  lemma CalmHead(calm: bool, a: Snap, b: Snap, r: Response, room: int)
    requires |b.wire| == |a.wire| + |r.head| - r.headSent && |r.head| - r.headSent <= room
    ensures CalmStep(calm, true, a, b, CompleteWrite, r, room)
  {
  }

  /** Not even the head is out. */
  lemma CalmHeadCut(calm: bool, isHead: bool, a: Snap, b: Snap, status: WriteStatus, r: Response, room: int)
    requires status != CompleteWrite
    requires calm ==> status != FatalWrite && room < |r.head| - r.headSent && |b.wire| == |a.wire| + room
    ensures CalmStep(calm, isHead, a, b, status, r, room)
  {
    hide Whole;
  }

  /** The head is out, and of a whole payload what there is room for. */
  lemma CalmBody(calm: bool, a: Snap, b: Snap, status: WriteStatus, r: Response, room: int)
    requires r.headSent == |r.head| && |b.wire| >= |a.wire| && 0 <= room
    requires calm && Whole(r) ==>
               status != FatalWrite && |b.wire| == |a.wire| + Min(BodyRest(r), room)
               && (BodyRest(r) <= room ==> status == CompleteWrite)
               && (r.body.Some? && status == CompleteWrite ==> BodyRest(r) <= room)
    ensures CalmStep(calm, false, a, b, status, r, room)
  {
    hide Whole, BodyRest;
  }

  /** From a to m the response was generated. */
  lemma AfterBegin(a: Snap, m: Snap, b: Snap, r: Response, status: WriteStatus, now: int, room: int)
    requires a.res.None? && m == a.(res := Some(r), seen := m.seen, lastActive := now, spent := 0, allowance := m.allowance)
    requires WriteStep(m, b, status, now, r, room)
    ensures WriteStep(a, b, status, now, r, room)
  {
    hide FuelOf, SameResponse;
  }

  // ----- Runs -----

  /** One visit of the sweep to a connection: what it was and became, what poll had
      reported, what the call met, and the file system and the time. */
  datatype Visit = Visit(a: Snap, b: Snap, revents: Events, act: Act, fs: FileSystem, now: int)

  predicate TimedOut(conf: Config, v: Visit) {
    v.a.lastActive + conf.timeoutSecs <= v.now
  }

  /** A connection that timed out is closed as it is; any other one runs
      do_conn_state. */
  ghost predicate Visited(conf: Config, v: Visit) {
    if TimedOut(conf, v) then v.b == v.a.(state := Closing)
    else Transition(conf, v.a, v.b, v.revents, v.act, v.fs, v.now)
  }

  /** What time does: a connection that was last active the timeout ago, or longer, is
      closed as it is; one that was active since then, and of which poll reports
      nothing, stays as it is. */
  lemma TimeoutExactly(conf: Config, v: Visit)
    requires Visited(conf, v) && (v.a.state == Reading || v.a.state == WritingHeaders || v.a.state == WritingBody)
    ensures v.now - v.a.lastActive >= conf.timeoutSecs ==> v.b == v.a.(state := Closing)
    ensures v.now - v.a.lastActive < conf.timeoutSecs && v.revents == NO_EVENTS ==> v.b == v.a
  {
  }

  /** What a resting connection keeps: reading, it has no response; writing one, its
      partial writes so far and the fuel left are within an allowance that the size of
      the file bounds. */
  ghost predicate Bounded(a: Snap) {
    && (a.state == Reading ==> a.res.None?) && (a.res.None? ==> a.writeTries == MAX_TRIES)
    && (a.res.Some? ==>
         a.spent + FuelOf(a.res, a.writeTries) <= a.allowance <= 6 * FileSize(a.res.value) + MAX_TRIES)
    && Underway(a)
  }

  /** What was sent behind the answers of the finished exchanges is what the cursors of
      the current response say. */
  ghost predicate Underway(a: Snap) {
    && a.wire == Flat(a.log) + a.tail && (a.res.None? ==> a.tail == [])
    && (a.res.Some? ==>
         && a.req.Some? && a.res.value.headSent <= |a.res.value.head|
         && Sent(IsHeadRequest(a.req.value.fields), a.res.value, a.tail)
         && (a.state == WritingHeaders ==> OnlyHead(a.res.value, a.tail))
         && (a.state == WritingBody ==>
              a.res.value.headSent == |a.res.value.head| && !IsHeadRequest(a.req.value.fields)))
  }

  /** A visit finds a resting connection, treats it as it should, and leaves it resting
      or closed, with a right history. */
  ghost predicate VisitRight(conf: Config, v: Visit) {
    && Visited(conf, v) && Bounded(v.a) && (v.b.state != Closing ==> Bounded(v.b))
    && HistoryRight(conf, v.b.log)
  }

  /** Each visit finds the connection as the one before it left it. */
  ghost predicate Chained(conf: Config, vs: seq<Visit>) {
    && (forall i | 0 <= i < |vs| :: VisitRight(conf, vs[i]))
    && (forall i, j | 0 <= i && j == i + 1 && j < |vs| :: vs[j].a == vs[i].b)
  }

  /** The connection was writing, could write, and had not timed out. */
  ghost predicate WriteReady(conf: Config, v: Visit) {
    (v.a.state == WritingHeaders || v.a.state == WritingBody) && v.revents.pollout && !TimedOut(conf, v)
  }

  /** The visit ended the response: it is in the history, or the connection is over. */
  ghost predicate EndsResponse(v: Visit) {
    v.b.state == Closing || |v.b.log| == |v.a.log| + 1
  }

  /** How many of the visits were write-ready. */
  ghost function ReadyCount(conf: Config, vs: seq<Visit>): nat {
    if vs == [] then 0
    else ReadyCount(conf, vs[..|vs| - 1]) + (if WriteReady(conf, vs[|vs| - 1]) then 1 else 0)
  }

  /** Service ends: in any chain of visits, whether poll found the connection ready or
      not, one visit ends a response, or there are no more write-ready visits than six
      for each byte of the file of the current response, and five. */
  lemma ServiceEnds(conf: Config, vs: seq<Visit>)
    requires Chained(conf, vs)
    ensures (exists i :: 0 <= i < |vs| && EndsResponse(vs[i])) || ReadyCount(conf, vs) == 0
            || (vs[|vs| - 1].b.res.Some?
                && ReadyCount(conf, vs) <= 6 * FileSize(vs[|vs| - 1].b.res.value) + MAX_TRIES)
  {
    if vs != [] && forall i | 0 <= i < |vs| :: !EndsResponse(vs[i]) {
      AllUnfinished(conf, vs);
      assert VisitRight(conf, vs[|vs| - 1]) && !EndsResponse(vs[|vs| - 1]);
    }
  }

  /** As long as no response ends, every write-ready visit is counted in the current
      one. */
  lemma {:induction false} AllUnfinished(conf: Config, vs: seq<Visit>)
    requires Chained(conf, vs) && vs != [] && forall i | 0 <= i < |vs| :: !EndsResponse(vs[i])
    ensures var b := vs[|vs| - 1].b;
            ReadyCount(conf, vs) > 0 ==>
              b.res.Some? && (b.state == WritingHeaders || b.state == WritingBody) && ReadyCount(conf, vs) <= b.spent
    decreases |vs|
  {
    hide VisitRight, WriteReady, EndsResponse;
    var n := |vs| - 1;
    var v, init := vs[n], vs[..n];
    UnfinishedVisit(conf, v);
    if n > 0 {
      assert vs[n].a == vs[n - 1].b && init[n - 1] == vs[n - 1];
      ChainWithout(conf, vs);
      AllUnfinished(conf, init);
    } else {
      assert init == [];
    }
  }

  lemma UnfinishedVisit(conf: Config, v: Visit)
    requires VisitRight(conf, v) && !EndsResponse(v)
    ensures WriteReady(conf, v) ==>
              v.b.res.Some? && (v.b.state == WritingHeaders || v.b.state == WritingBody)
              && v.b.spent == (if v.a.res.Some? then v.a.spent else 0) + 1
    ensures !WriteReady(conf, v) && (v.a.state == WritingHeaders || v.a.state == WritingBody) ==> v.b == v.a
  {
    hide ReadOutcome, CalmStep, HistoryRight;
  }

  lemma ChainWithout(conf: Config, vs: seq<Visit>)
    requires Chained(conf, vs) && vs != []
    ensures Chained(conf, vs[..|vs| - 1])
  {
    hide VisitRight;
  }

  /** Nothing that was received, sent or recorded is ever taken back. */
  ghost predicate Grown(a: Snap, b: Snap) {
    a.wire <= b.wire && a.heard <= b.heard && a.log <= b.log
  }

  lemma VisitGrows(conf: Config, v: Visit)
    requires Visited(conf, v)
    ensures Grown(v.a, v.b)
  {
    hide ReadStep, FuelOf, Parsed;
  }

  /** Nor does any chain of visits take anything back. */
  lemma {:induction false} NothingTakenBack(conf: Config, vs: seq<Visit>, i: nat, j: nat)
    requires Chained(conf, vs) && i <= j < |vs|
    ensures Grown(vs[i].a, vs[j].b)
    decreases j
  {
    hide Visited, Bounded;
    assert VisitRight(conf, vs[j]);
    VisitGrows(conf, vs[j]);
    if i < j {
      NothingTakenBack(conf, vs, i, j - 1);
      assert vs[j].a == vs[j - 1].b;
    }
  }
}
