/** What the inputs of a run say of one connection: from what poll finds ready and recv
    delivers, turn by turn, to the answers in its history. */
module Runs {
  import opened Text
  import opened Numbers
  import opened Grammar
  import opened RequestParser
  import opened BrokenRequests
  import opened Reader
  import opened Links
  import opened Paths
  import opened Responses
  import opened Answers
  import opened Protocol
  import opened Connections
  import opened Stories
  import opened EndToEnd
  import opened LongAnswers

  // ----- The calls of a run -----

  /** A visit in a run, with the slot it took place in and the input of its turn. */
  datatype Call = Call(slot: nat, visit: Visit, input: RoundInput)

  function Visits(calls: seq<Call>): (vs: seq<Visit>) {
    seq(|calls|, i requires 0 <= i < |calls| => calls[i].visit)
  }

  /** The calls that the first n visits of a turn make to c. */
  function CallsIn(r: Round, input: RoundInput, c: Connection, n: nat): seq<Call>
    requires n <= |r.vs| == |r.visited|
  {
    if n == 0 then []
    else CallsIn(r, input, c, n - 1) + (if r.visited[n - 1] == c then [Call(n, r.vs[n - 1], input)] else [])
  }

  /** All calls to c in a run. */
  function CallsOf(rounds: seq<Round>, inputs: seq<RoundInput>, c: Connection): seq<Call>
    requires |rounds| == |inputs| && forall i | 0 <= i < |rounds| :: |rounds[i].vs| == |rounds[i].visited|
  {
    if rounds == [] then []
    else
      var n := |rounds| - 1;
      CallsOf(rounds[..n], inputs[..n], c) + CallsIn(rounds[n], inputs[n], c, |rounds[n].vs|)
  }

  /** A turn calls a connection once, in the slot it found it in, or not at all. */
  lemma CalledInItsSlot(conf: Config, maxFds: nat, r: Round, input: RoundInput, next: seq<Connection>, s: nat)
    requires RoundRight(conf, maxFds, r, input, next) && 1 <= s < |r.queue|
    ensures CallsIn(r, input, r.queue[s], |r.vs|) ==
            if !r.tookIn && s <= |r.queue| - |r.moved| - 1 then [Call(s, r.vs[s - 1], input)] else []
  {
    hide VisitOf;
    if !r.tookIn {
      assert forall k | 0 <= k < |r.visited| :: r.visited[k] == r.queue[k + 1];
      CallsSoFar(r, input, s, |r.vs|);
    }
  }

  lemma {:induction false} CallsSoFar(r: Round, input: RoundInput, s: nat, n: nat)
    requires n <= |r.vs| == |r.visited| < |r.queue| && 1 <= s < |r.queue|
    requires forall k | 0 <= k < |r.visited| :: r.visited[k] == r.queue[k + 1]
    requires forall i, j | 0 <= i < j < |r.queue| :: r.queue[i] != r.queue[j]
    ensures CallsIn(r, input, r.queue[s], n) == if s <= n then [Call(s, r.vs[s - 1], input)] else []
  {
    if n > 0 {
      CallsSoFar(r, input, s, n - 1);
      assert r.visited[n - 1] == r.queue[n];
    }
  }

  // ----- They are the story -----

  lemma {:induction false} VisitsJoin(a: seq<Episode>, b: seq<Episode>, c: Connection)
    ensures VisitsOf(a + b, c) == VisitsOf(a, c) + VisitsOf(b, c)
    decreases |b|
  {
    if b == [] {
      assert a + b == a;
    } else {
      var n := |b| - 1;
      VisitsJoin(a, b[..n], c);
      VisitsGrow(a + b[..n], b[n], c);
      assert a + b == (a + b[..n]) + [b[n]];
    }
  }

  lemma {:induction false} VisitsIn(r: Round, input: RoundInput, c: Connection, n: nat)
    requires n <= |r.vs| == |r.visited|
    ensures Visits(CallsIn(r, input, c, n)) == VisitsOf(Episodes(r.visited, r.vs)[..n], c)
  {
    if n > 0 {
      var es := Episodes(r.visited, r.vs);
      VisitsIn(r, input, c, n - 1);
      VisitsGrow(es[..n - 1], es[n - 1], c);
      assert es[..n] == es[..n - 1] + [es[n - 1]];
    }
  }

  lemma {:induction false} VisitsOfRun(rounds: seq<Round>, inputs: seq<RoundInput>, c: Connection)
    requires |rounds| == |inputs| && forall i | 0 <= i < |rounds| :: |rounds[i].vs| == |rounds[i].visited|
    ensures Visits(CallsOf(rounds, inputs, c)) == VisitsOf(AllEpisodes(rounds), c)
    decreases |rounds|
  {
    hide Episodes, VisitsOf, CallsIn;
    if rounds == [] {
      NoVisits([], c);
    } else {
      var n := |rounds| - 1;
      var r := rounds[n];
      VisitsOfRun(rounds[..n], inputs[..n], c);
      VisitsIn(r, inputs[n], c, |r.vs|);
      AllOf(r.visited, r.vs);
      VisitsJoin(AllEpisodes(rounds[..n]), Episodes(r.visited, r.vs), c);
    }
  }

  lemma AllOf(cs: seq<Connection>, vs: seq<Visit>)
    requires |cs| == |vs|
    ensures Episodes(cs, vs)[..|vs|] == Episodes(cs, vs)
  {
  }

  /** Each call finds the connection as the one before it left it, and meets what its
      turn's poll finds ready in its slot, of what the connection asked for. */
  ghost predicate InRun(conf: Config, calls: seq<Call>) {
    && Chained(conf, Visits(calls))
    && forall i | 0 <= i < |calls| :: VisitOf(conf, calls[i].visit, calls[i].slot, calls[i].input)
  }

  lemma {:induction false} CallsMeet(conf: Config, maxFds: nat, rounds: seq<Round>, inputs: seq<RoundInput>,
                                     first: seq<Connection>, last: seq<Connection>, c: Connection)
    requires RunRight(conf, maxFds, rounds, inputs, first, last)
    ensures |rounds| == |inputs| && forall i | 0 <= i < |rounds| :: |rounds[i].vs| == |rounds[i].visited|
    ensures forall call | call in CallsOf(rounds, inputs, c) :: VisitOf(conf, call.visit, call.slot, call.input)
    decreases |rounds|
  {
    hide VisitOf, CallsIn, RoundRight;
    if rounds != [] {
      var n := |rounds| - 1;
      CallsMeet(conf, maxFds, rounds[..n], inputs[..n], first, rounds[n].queue, c);
      CallsMeetIn(conf, maxFds, rounds[n], inputs[n], last, c);
      assert forall i | 0 <= i < n :: rounds[..n][i] == rounds[i];
    }
  }

  lemma CallsMeetIn(conf: Config, maxFds: nat, r: Round, input: RoundInput, next: seq<Connection>, c: Connection)
    requires RoundRight(conf, maxFds, r, input, next)
    ensures |r.vs| == |r.visited|
    ensures forall call | call in CallsIn(r, input, c, |r.vs|) :: VisitOf(conf, call.visit, call.slot, call.input)
  {
    hide VisitOf;
    CallsMeetUpTo(conf, r, input, c, |r.vs|);
  }

  lemma {:induction false} CallsMeetUpTo(conf: Config, r: Round, input: RoundInput, c: Connection, n: nat)
    requires n <= |r.vs| == |r.visited| && forall k | 0 <= k < |r.vs| :: VisitOf(conf, r.vs[k], k + 1, input)
    ensures forall call | call in CallsIn(r, input, c, n) :: VisitOf(conf, call.visit, call.slot, call.input)
  {
    hide VisitOf;
    if n > 0 { CallsMeetUpTo(conf, r, input, c, n - 1); }
  }

  /** The calls in a row that a run makes to one connection. */
  lemma CallsInRun(conf: Config, maxFds: nat, rounds: seq<Round>, inputs: seq<RoundInput>, first: seq<Connection>,
                   last: seq<Connection>, before: seq<Episode>, story: seq<Episode>, c: Connection, i: nat, j: nat)
    requires RunRight(conf, maxFds, rounds, inputs, first, last)
    requires StoryOf(rounds, before, story) && StoryRight(conf, story)
    requires i <= j <= |CallsOf(rounds, inputs, c)|
    ensures InRun(conf, CallsOf(rounds, inputs, c)[i..j])
  {
    hide VisitOf, VisitsOf, Chained, CallsOf, RunRight, StoryRight, Visits;
    CallsMeet(conf, maxFds, rounds, inputs, first, last, c);
    var calls, past := CallsOf(rounds, inputs, c), VisitsOf(before, c);
    VisitsOfRun(rounds, inputs, c);
    VisitsJoin(before, AllEpisodes(rounds), c);
    VisitsPart(calls, i, j);
    var vs := VisitsOf(story, c);
    StoryChained(conf, story, c, |past| + i, j - i);
    assert vs[|past| + i..|past| + j] == Visits(calls)[i..j];
    assert forall k | i <= k < j :: calls[i..j][k - i] == calls[k] && calls[k] in calls;
  }

  lemma VisitsPart(calls: seq<Call>, i: nat, j: nat)
    requires i <= j <= |calls|
    ensures |Visits(calls)| == |calls| && Visits(calls[i..j]) == Visits(calls)[i..j]
  {
  }

  // ----- What a call meets -----

  predicate Readable(call: Call) {
    call.input.ready(call.slot).pollin
  }

  predicate Writable(call: Call) {
    call.input.ready(call.slot).pollout
  }

  /** A connection that reads goes on exactly when its socket is readable, one that
      writes exactly when its socket is writable, as long as it has not timed out. */
  lemma CallMeets(conf: Config, call: Call)
    requires VisitOf(conf, call.visit, call.slot, call.input)
    requires call.input.now < call.visit.a.lastActive + conf.timeoutSecs
    ensures call.visit.a.state == Reading ==>
              (Readable(call) ==>
                 !Idle(conf, call.visit) && ReadOutcome(call.visit.a, call.visit.b, call.visit.act.ev, call.input.now))
              && (!Readable(call) ==> Idle(conf, call.visit) && call.visit.b == call.visit.a)
    ensures call.visit.a.state == WritingHeaders || call.visit.a.state == WritingBody ==>
              (Writable(call) ==> WriteReady(conf, call.visit) && !Idle(conf, call.visit))
              && (!Writable(call) ==> Idle(conf, call.visit) && call.visit.b == call.visit.a)
  {
    hide ReadOutcome, WriteCall, Bounded, HistoryRight;
  }

  /** Every visit v of a turn is to the connection of its slot k. When that has not timed
      out, it can write exactly if it is writing and poll finds slot k writable, and
      reads exactly if it is reading and poll finds slot k readable. */
  ghost predicate SlotMeets(conf: Config, r: Round, input: RoundInput, k: nat)
    requires 1 <= k <= |r.vs| == |r.visited| < |r.queue|
  {
    var v := r.vs[k - 1];
    && r.visited[k - 1] == r.queue[k]
    && (input.now < v.a.lastActive + conf.timeoutSecs ==>
         && (v.a.state == WritingHeaders || v.a.state == WritingBody ==> (WriteReady(conf, v) <==> input.ready(k).pollout))
         && (v.a.state == Reading ==>
              (!Idle(conf, v) <==> input.ready(k).pollin) && (v.revents.pollin <==> input.ready(k).pollin)))
  }

  lemma {:induction false} RunMeets(conf: Config, maxFds: nat, rounds: seq<Round>, inputs: seq<RoundInput>,
                                    first: seq<Connection>, last: seq<Connection>, i: nat, k: nat)
    requires RunRight(conf, maxFds, rounds, inputs, first, last) && i < |rounds| && 1 <= k <= |rounds[i].vs|
    ensures |rounds[i].vs| == |rounds[i].visited| < |rounds[i].queue| && SlotMeets(conf, rounds[i], inputs[i], k)
    decreases |rounds|
  {
    hide VisitOf, SlotMeets;
    var n := |rounds| - 1;
    if i < n {
      RunMeets(conf, maxFds, rounds[..n], inputs[..n], first, rounds[n].queue, i, k);
    } else {
      TurnMeets(conf, maxFds, rounds[n], inputs[n], last, k);
    }
  }

  lemma TurnMeets(conf: Config, maxFds: nat, r: Round, input: RoundInput, next: seq<Connection>, k: nat)
    requires RoundRight(conf, maxFds, r, input, next) && 1 <= k <= |r.vs|
    ensures |r.vs| == |r.visited| < |r.queue| && SlotMeets(conf, r, input, k)
  {
    hide VisitRight;
    assert r.visited[k - 1] == r.queue[1..][k - 1];
    assert VisitOf(conf, r.vs[k - 1], (k - 1) + 1, input);
  }

  // ----- An exchange, from the inputs alone -----

  /** What recv delivers to the calls that find the socket readable. */
  function Heard(calls: seq<Call>): seq<RecvResult> {
    if calls == [] then []
    else (if Readable(calls[0]) then [calls[0].visit.act.ev] else []) + Heard(calls[1..])
  }

  /** From the time since on, no call comes the timeout or more after the last one that
      found the socket readable. */
  predicate InTime(conf: Config, since: int, calls: seq<Call>)
    decreases |calls|
  {
    calls == [] ||
    var now := calls[0].input.now;
    now < since + conf.timeoutSecs && InTime(conf, if Readable(calls[0]) then now else since, calls[1..])
  }

  lemma RestInRun(conf: Config, calls: seq<Call>)
    requires InRun(conf, calls) && calls != []
    ensures InRun(conf, calls[1..]) && (|calls| > 1 ==> calls[1].visit.a == calls[0].visit.b)
  {
    hide VisitOf, VisitRight;
    assert Visits(calls[1..]) == Visits(calls)[1..];
    RestOfChain(conf, Visits(calls));
    if |calls| > 1 {
      assert Visits(calls)[1].a == Visits(calls)[0].b;
    }
  }

  lemma {:induction false} SomethingHeard(calls: seq<Call>)
    requires calls != [] && Readable(calls[|calls| - 1])
    ensures Heard(calls) != []
  {
    if |calls| > 1 {
      assert calls[1..][|calls| - 2] == calls[|calls| - 1];
      SomethingHeard(calls[1..]);
    }
  }

  /** A connection that reads receives what recv delivers whenever its socket is
      readable, until something other than a partial read comes of it. */
  lemma {:induction false} ReadsWhenReadable(conf: Config, calls: seq<Call>)
    requires InRun(conf, calls) && calls != [] && Readable(calls[|calls| - 1]) && Heard(calls) != []
    requires var a := calls[0].visit.a;
             a.state == Reading && InTime(conf, a.lastActive, calls)
             && ReadRun(ReadingState(a), Heard(calls)[..|Heard(calls)| - 1]).1 == PartialRead
    ensures Reads(conf, Visits(calls)) == Heard(calls)
    ensures forall i | 0 <= i < |calls| :: !TimedOut(conf, calls[i].visit)
    ensures var v := calls[|calls| - 1].visit; v.b.state != Closing ==> v.b.lastActive == v.now
    decreases |calls|
  {
    hide ReadStep, VisitRight, Parsed, Chained, Essential, WantsClose;
    var call, rest, evs := calls[0], calls[1..], Heard(calls);
    assert VisitOf(conf, call.visit, call.slot, call.input);
    CallMeets(conf, call);
    ReadsOfFirst(conf, calls);
    RestInRun(conf, calls);
    if rest != [] {
      assert rest[|rest| - 1] == calls[|calls| - 1];
      SomethingHeard(rest);
    }
    if Readable(call) {
      assert evs[0] == call.visit.act.ev && evs[1..] == Heard(rest);
      if rest != [] {
        FirstRead(ReadingState(call.visit.a), evs);
        ReadsWhenReadable(conf, rest);
      }
    } else {
      assert evs == Heard(rest);
      ReadsWhenReadable(conf, rest);
    }
  }

  lemma ReadsOfFirst(conf: Config, calls: seq<Call>)
    requires calls != []
    ensures Reads(conf, Visits(calls)) ==
            (if Idle(conf, calls[0].visit) then [] else [calls[0].visit.act.ev]) + Reads(conf, Visits(calls[1..]))
  {
    hide Idle;
    assert Visits(calls)[1..] == Visits(calls[1..]);
  }

  /** A peer that shuts down before the end of a request, in a run: what it has sent is
      answered exactly if it can be, as ShutDownAnswered says. */
  lemma ShutDownInRun(conf: Config, calls: seq<Call>, evs: seq<RecvResult>)
    requires InRun(conf, calls) && calls != [] && Readable(calls[|calls| - 1]) && Heard(calls) == evs + [Data("")]
    requires Fresh(calls[0].visit.a) && InTime(conf, calls[0].visit.a.lastActive, calls)
    requires NoEndShows("", evs) && |Received(evs)| < 4096 && BlockedReads(evs) <= 5
    ensures var b := calls[|calls| - 1].visit.b;
            && b.state == (if exists m :: Answerable(Received(evs), m) then WritingHeaders else Closing)
            && (b.state == WritingHeaders ==> b.req == Some(HttpRequest(Received(evs), Parsed(Received(evs)))))
  {
    hide Chained, VisitOf, NoEndShows, Answerable, Parsed, ReadRun, Readable, Received, BlockedReads, Reads, Heard;
    JustGathers(evs);
    assert (evs + [Data("")])[..|evs + [Data("")]| - 1] == evs;
    ReadsWhenReadable(conf, calls);
    assert forall i | 0 <= i < |Visits(calls)| :: Visits(calls)[i] == calls[i].visit;
    ShutDownAnswered(conf, Visits(calls), evs);
  }

  /** A connection about to answer waits for its socket to become writable, whether it
      is readable or not. */
  lemma {:induction false} WaitsToWrite(conf: Config, calls: seq<Call>)
    requires InRun(conf, calls) && calls != [] && calls[0].visit.a.state == WritingHeaders
    requires forall i | 0 <= i < |calls| ::
               !Writable(calls[i]) && calls[i].input.now < calls[0].visit.a.lastActive + conf.timeoutSecs
    ensures Reads(conf, Visits(calls)) == [] && calls[|calls| - 1].visit.b == calls[0].visit.a
    ensures forall i | 0 <= i < |calls| :: !TimedOut(conf, calls[i].visit)
    decreases |calls|
  {
    hide VisitRight, Chained, ReadOutcome;
    var call, rest := calls[0], calls[1..];
    assert VisitOf(conf, call.visit, call.slot, call.input);
    CallMeets(conf, call);
    ReadsOfFirst(conf, calls);
    RestInRun(conf, calls);
    if rest != [] { WaitsToWrite(conf, rest); }
  }

  /** One request and its answer: the calls that receive it, the last of them its end;
      calls that find the socket not writable; and the one that finds it writable. */
  datatype Exchange = Exchange(m: Message, reading: seq<Call>, waiting: seq<Call>, last: Call)

  function CallsFor(x: Exchange): seq<Call> {
    x.reading + x.waiting + [x.last]
  }

  /** The inputs deliver the message, in any pieces and with at most five blocked reads,
      and then a calm socket with room for n bytes, all in time. */
  ghost predicate Delivered(conf: Config, x: Exchange, n: nat) {
    x.reading != [] &&
    var end := x.reading[|x.reading| - 1];
    && Readable(end) && InTime(conf, x.reading[0].visit.a.lastActive, x.reading)
    && Chunks(Heard(x.reading)) && Received(Heard(x.reading)) == Print(x.m) && BlockedReads(Heard(x.reading)) <= 5
    && (forall i | 0 <= i < |x.waiting| ::
         !Writable(x.waiting[i]) && x.waiting[i].input.now < end.input.now + conf.timeoutSecs)
    && Writable(x.last) && x.last.input.now < end.input.now + conf.timeoutSecs
    && x.last.visit.act.calm && n <= x.last.visit.act.room
  }

  lemma PartOfRun(conf: Config, calls: seq<Call>, i: nat, j: nat)
    requires InRun(conf, calls) && i <= j <= |calls|
    ensures InRun(conf, calls[i..j])
  {
    hide VisitOf, VisitRight;
    VisitsPart(calls, i, j);
    PartOfChain(conf, Visits(calls), i, j - i);
  }

  lemma NextInRun(conf: Config, calls: seq<Call>, k: nat)
    requires InRun(conf, calls) && 0 < k < |calls|
    ensures calls[k].visit.a == calls[k - 1].visit.b && VisitOf(conf, calls[k].visit, calls[k].slot, calls[k].input)
  {
    hide VisitOf, VisitRight;
    assert Visits(calls)[k].a == Visits(calls)[k - 1].b;
  }

  /** The request arrives: the connection is about to answer it. */
  lemma ReadingDone(conf: Config, x: Exchange, n: nat)
    requires InRun(conf, x.reading) && Delivered(conf, x, n) && Fresh(x.reading[0].visit.a)
    requires WellFormed(x.m) && |Print(x.m)| <= MAX_REQUEST_SIZE
    ensures Reads(conf, Visits(x.reading)) == Heard(x.reading)
    ensures forall i | 0 <= i < |x.reading| :: !TimedOut(conf, x.reading[i].visit)
    ensures var end := x.reading[|x.reading| - 1];
            end.visit.b.state == WritingHeaders && end.visit.b.lastActive == end.input.now
  {
    hide VisitRight, Print, Chunks, ReadRun, WantsClose, Fields, Received, BlockedReads, Reads, ReadStep, Parsed, Essential;
    var evs := Heard(x.reading);
    ChunkingIndependence(x.m, evs);
    SomethingHeard(x.reading);
    ReadsWhenReadable(conf, x.reading);
    assert Print(x.m)[..0] == [] && Print(x.m)[0..] == Print(x.m);
    assert forall i | 0 <= i < |Visits(x.reading)| :: Visits(x.reading)[i] == x.reading[i].visit;
    RequestArrives(conf, Visits(x.reading), x.m, 0);
    assert VisitOf(conf, x.reading[|x.reading| - 1].visit, x.reading[|x.reading| - 1].slot, x.reading[|x.reading| - 1].input);
  }

  lemma {:induction false} ReadsJoin(conf: Config, a: seq<Visit>, b: seq<Visit>)
    ensures Reads(conf, a + b) == Reads(conf, a) + Reads(conf, b)
    decreases |a|
  {
    if a == [] {
      assert a + b == b;
    } else {
      ReadsJoin(conf, a[1..], b);
      assert (a + b)[1..] == a[1..] + b;
    }
  }

  /** From the inputs to the visits: if they find the slot of a fresh connection readable
      for all the pieces of a request, and then writable, the request is received and a
      calm visit follows that can answer it. */
  lemma ExchangeTakesPlace(conf: Config, x: Exchange, n: nat)
    requires InRun(conf, CallsFor(x)) && Delivered(conf, x, n) && Fresh(x.reading[0].visit.a)
    requires WellFormed(x.m) && |Print(x.m)| <= MAX_REQUEST_SIZE
    ensures SentCalmly(conf, Visits(x.reading + x.waiting), x.last.visit, x.m, n)
  {
    hide VisitRight, Print, Chunks, Chained, Received, BlockedReads, Reads, Heard;
    var calls, r, w := CallsFor(x), |x.reading|, |x.waiting|;
    PartsOf(x);
    PartOfRun(conf, calls, 0, r);
    PartOfRun(conf, calls, r, r + w);
    ReadingDone(conf, x, n);
    NextInRun(conf, calls, r);
    NextInRun(conf, calls, r + w);
    if x.waiting == [] {
      assert x.reading + x.waiting == x.reading;
    } else {
      WaitsToWrite(conf, x.waiting);
      ReadsJoin(conf, Visits(x.reading), Visits(x.waiting));
    }
    CallMeets(conf, x.last);
    assert Reads(conf, Visits(x.reading + x.waiting)) == Heard(x.reading);
    assert Visits(x.reading + x.waiting) != [] && Visits(x.reading + x.waiting)[0] == x.reading[0].visit;
    assert forall i | 0 <= i < r + w :: !TimedOut(conf, Visits(x.reading + x.waiting)[i]);
    assert Chained(conf, Visits(x.reading + x.waiting) + [x.last.visit]);
    assert x.last.visit.revents.pollout && !TimedOut(conf, x.last.visit);
  }

  lemma PartsOf(x: Exchange)
    ensures var calls, r, w := CallsFor(x), |x.reading|, |x.waiting|;
            && calls[0..r] == x.reading && calls[r..r + w] == x.waiting && |calls| == r + w + 1 && calls[r + w] == x.last
            && Visits(x.reading + x.waiting) == Visits(x.reading) + Visits(x.waiting)
            && Visits(calls) == Visits(x.reading + x.waiting) + [x.last.visit]
  {
  }

  // ----- Sessions -----

  ghost predicate CanServe(conf: Config, m: Message, fs: FileSystem) {
    var q := Fields(m);
    q.verb.Some? && q.path.Some? && Servable(conf, q, fs)
  }

  /** The room that the whole answer takes at most. */
  ghost function Size(conf: Config, m: Message, v: Visit): nat
    requires CanServe(conf, m, v.fs)
  {
    |ResponseFor(conf, Fields(m), v.fs, v.act.unset).head| + |Wanted(conf, Fields(m), v.fs)|
  }

  /** The inputs deliver a request without a Range header, for something that can be
      served, and then room for all the answer. */
  ghost predicate Asked(conf: Config, x: Exchange) {
    PlainRequest(x.m) && CanServe(conf, x.m, x.last.visit.fs) && Delivered(conf, x, Size(conf, x.m, x.last.visit))
  }

  /** The record of the exchange: exactly the bytes of the request, and exactly the head
      and the page or file. */
  ghost predicate RightlyAnswered(conf: Config, x: Exchange, f: Served) {
    CanServe(conf, x.m, x.last.visit.fs) && var q, v := Fields(x.m), x.last.visit;
    && f.buf == Print(x.m)
    && f.text == ResponseFor(conf, q, v.fs, v.act.unset).head + SentFor(conf, q, v.fs, v.act.unset)
  }

  /** From the history log on, the exchanges xs took place, in order, and nothing else. */
  ghost predicate AllAnswered(conf: Config, xs: seq<Exchange>, log: seq<Served>, log': seq<Served>) {
    && |log'| == |log| + |xs| && log <= log'
    && forall k | 0 <= k < |xs| :: RightlyAnswered(conf, xs[k], log'[|log| + k])
  }

  /** After its last request the connection is closed, if that asked for it, or fresh. */
  ghost predicate GoesOn(m: Message, b: Snap) {
    if AsksToClose(m.headers) then b.state == Closing else Fresh(b)
  }

  lemma ExchangeAnswered(conf: Config, x: Exchange)
    requires InRun(conf, CallsFor(x)) && Asked(conf, x) && Fresh(x.reading[0].visit.a)
    ensures AllAnswered(conf, [x], x.reading[0].visit.a.log, x.last.visit.b.log) && GoesOn(x.m, x.last.visit.b)
  {
    hide Fields, Print, Servable, ResponseFor, Wanted, SentFor, Chained, Chunks, InRun, WellFormed, AsksToClose;
    ExchangeTakesPlace(conf, x, Size(conf, x.m, x.last.visit));
    MessageAnswered(conf, Visits(x.reading + x.waiting), x.last.visit, x.m);
    assert x.last.visit.b.log[|x.reading[0].visit.a.log|..][0] == x.last.visit.b.log[|x.reading[0].visit.a.log|];
    if !AsksToClose(x.m.headers) {
      FreshAgain(conf, Visits(x.reading + x.waiting), x.last.visit, x.m, Size(conf, x.m, x.last.visit));
    }
  }

  /** Between two requests a connection is fresh. */
  lemma FreshAgain(conf: Config, vs: seq<Visit>, v: Visit, m: Message, n: nat)
    requires WellFormed(m) && |Print(m)| <= MAX_REQUEST_SIZE && SentCalmly(conf, vs, v, m, n)
    requires Fields(m).verb.Some? && Fields(m).path.Some? && v.b.state == Reading
    ensures Fresh(v.b)
  {
    hide Print, Fields, WellFormed, SentCalmly, CalmStep, Bounded, HistoryRight, Parsed;
    MessageArrives(conf, vs, v, m, n);
  }

  /** The calls of a session: one exchange after another. */
  function AllCalls(xs: seq<Exchange>): seq<Call> {
    if xs == [] then [] else AllCalls(xs[..|xs| - 1]) + CallsFor(xs[|xs| - 1])
  }

  /** Requests one after the other, none but the last asking to close. */
  ghost predicate Session(conf: Config, xs: seq<Exchange>) {
    && xs != [] && (forall k | 0 <= k < |xs| :: Asked(conf, xs[k]))
    && forall k | 0 <= k < |xs| - 1 :: !AsksToClose(xs[k].m.headers)
  }

  lemma Ends(xs: seq<Exchange>)
    requires xs != [] && forall k | 0 <= k < |xs| :: xs[k].reading != []
    ensures var calls := AllCalls(xs);
            calls != [] && calls[0] == xs[0].reading[0] && calls[|calls| - 1] == xs[|xs| - 1].last
    decreases |xs|
  {
    if |xs| > 1 { Ends(xs[..|xs| - 1]); }
  }

  /** All requests of a session are answered, in order. */
  lemma {:induction false} SessionAnswered(conf: Config, xs: seq<Exchange>)
    requires Session(conf, xs) && InRun(conf, AllCalls(xs)) && Fresh(xs[0].reading[0].visit.a)
    ensures var b := xs[|xs| - 1].last.visit.b;
            AllAnswered(conf, xs, xs[0].reading[0].visit.a.log, b.log) && GoesOn(xs[|xs| - 1].m, b)
    decreases |xs|
  {
    hide InRun, CanServe, Size, RightlyAnswered, AsksToClose, Delivered, PlainRequest;
    var n := |xs| - 1;
    var x, init := xs[n], xs[..n];
    SessionReads(conf, xs);
    LastExchange(conf, xs);
    if n > 0 {
      assert Session(conf, init);
      SessionAnswered(conf, init);
      assert GoesOn(xs[n - 1].m, xs[n - 1].last.visit.b);
    } else {
      assert [x] == xs;
    }
    ExchangeAnswered(conf, x);
    if n > 0 {
      AnsweredOn(conf, xs, xs[0].reading[0].visit.a.log, x.reading[0].visit.a.log, x.last.visit.b.log);
    }
  }

  lemma AnsweredOn(conf: Config, xs: seq<Exchange>, log: seq<Served>, log': seq<Served>, log'': seq<Served>)
    requires xs != [] && AllAnswered(conf, xs[..|xs| - 1], log, log') && AllAnswered(conf, [xs[|xs| - 1]], log', log'')
    ensures AllAnswered(conf, xs, log, log'')
  {
    hide RightlyAnswered;
    var init := xs[..|xs| - 1];
    assert forall k | 0 <= k < |init| :: init[k] == xs[k] && log''[|log| + k] == log'[|log| + k];
    assert [xs[|xs| - 1]][0] == xs[|xs| - 1] && RightlyAnswered(conf, [xs[|xs| - 1]][0], log''[|log'| + 0]);
  }

  lemma SessionReads(conf: Config, xs: seq<Exchange>)
    requires Session(conf, xs)
    ensures forall k | 0 <= k < |xs| :: xs[k].reading != []
  {
    hide CanServe, Size, PlainRequest, AsksToClose;
    assert forall k | 0 <= k < |xs| :: Asked(conf, xs[k]);
  }

  lemma RunInTwo(conf: Config, a: seq<Call>, b: seq<Call>)
    requires InRun(conf, a + b)
    ensures InRun(conf, a) && InRun(conf, b) && (a != [] && b != [] ==> b[0].visit.a == a[|a| - 1].visit.b)
  {
    hide InRun;
    PartOfRun(conf, a + b, 0, |a|);
    PartOfRun(conf, a + b, |a|, |a + b|);
    assert (a + b)[0..|a|] == a && (a + b)[|a|..|a + b|] == b;
    if a != [] && b != [] { NextInRun(conf, a + b, |a|); }
  }

  lemma CallsStart(x: Exchange)
    requires x.reading != []
    ensures CallsFor(x) != [] && CallsFor(x)[0] == x.reading[0]
  {
  }

  lemma LastExchange(conf: Config, xs: seq<Exchange>)
    requires xs != [] && InRun(conf, AllCalls(xs)) && forall k | 0 <= k < |xs| :: xs[k].reading != []
    ensures var n := |xs| - 1;
            && InRun(conf, AllCalls(xs[..n])) && InRun(conf, CallsFor(xs[n]))
            && (n > 0 ==> xs[n].reading[0].visit.a == xs[n - 1].last.visit.b)
  {
    hide InRun, CallsFor, AllCalls;
    var n := |xs| - 1;
    AndTheLast(xs);
    RunInTwo(conf, AllCalls(xs[..n]), CallsFor(xs[n]));
    CallsStart(xs[n]);
    if n > 0 {
      assert forall k | 0 <= k < n :: xs[..n][k].reading != [];
      Ends(xs[..n]);
      assert xs[..n][n - 1] == xs[n - 1];
    }
  }

  lemma AndTheLast(xs: seq<Exchange>)
    requires xs != []
    ensures AllCalls(xs) == AllCalls(xs[..|xs| - 1]) + CallsFor(xs[|xs| - 1])
  {
    hide CallsFor;
  }

  /** What a visit left in the history of a connection is there for good. */
  lemma StaysInHistory(conf: Config, story: seq<Episode>, c: Connection, k: nat, now: Snap)
    requires StoryRight(conf, story) && UpToDate(story, c, now) && k < |VisitsOf(story, c)|
    ensures VisitsOf(story, c)[k].b.log <= now.log
  {
    hide VisitsOf, Chained, VisitRight;
    var vs := VisitsOf(story, c);
    StoryChained(conf, story, c, 0, |vs|);
    assert vs[0..|vs|] == vs;
    if k + 1 < |vs| {
      NothingTakenBack(conf, vs, k + 1, |vs| - 1);
      NextVisit(conf, vs, k);
    }
  }

  lemma NextVisit(conf: Config, vs: seq<Visit>, k: nat)
    requires Chained(conf, vs) && k + 1 < |vs|
    ensures vs[k + 1].a == vs[k].b
  {
    hide VisitRight;
  }

  /** In any run of the server, whatever else goes on in it: when calls to a connection
      that finds it fresh make up a session, all its requests are answered in order, and
      the answers stay in the history of the connection. */
  lemma RunAnswers(conf: Config, maxFds: nat, rounds: seq<Round>, inputs: seq<RoundInput>, first: seq<Connection>,
                   last: seq<Connection>, before: seq<Episode>, story: seq<Episode>, c: Connection,
                   i: nat, j: nat, xs: seq<Exchange>, now: Snap)
    requires RunRight(conf, maxFds, rounds, inputs, first, last)
    requires StoryOf(rounds, before, story) && StoryRight(conf, story) && UpToDate(story, c, now)
    requires i <= j <= |CallsOf(rounds, inputs, c)| && CallsOf(rounds, inputs, c)[i..j] == AllCalls(xs)
    requires Session(conf, xs) && Fresh(xs[0].reading[0].visit.a)
    ensures var log := xs[0].reading[0].visit.a.log;
            |log| + |xs| <= |now.log| && AllAnswered(conf, xs, log, now.log[..|log| + |xs|])
  {
    hide CallsOf, StoryRight, InRun, RightlyAnswered, AllEpisodes, UpToDate, AllCalls, VisitsOf, Session;
    CallsInRun(conf, maxFds, rounds, inputs, first, last, before, story, c, i, j);
    SessionEnds(conf, xs);
    CallStays(conf, rounds, inputs, before, story, c, j - 1, now);
    assert CallsOf(rounds, inputs, c)[j - 1] == AllCalls(xs)[j - 1 - i];
    var log' := xs[|xs| - 1].last.visit.b.log;
    assert now.log[..|log'|] == log';
  }

  lemma SessionEnds(conf: Config, xs: seq<Exchange>)
    requires Session(conf, xs) && InRun(conf, AllCalls(xs)) && Fresh(xs[0].reading[0].visit.a)
    ensures var calls := AllCalls(xs);
            xs != [] && calls != [] && calls[|calls| - 1] == xs[|xs| - 1].last
            && AllAnswered(conf, xs, xs[0].reading[0].visit.a.log, xs[|xs| - 1].last.visit.b.log)
  {
    hide InRun, RightlyAnswered, AllCalls, AsksToClose, Asked;
    SessionReads(conf, xs);
    SessionAnswered(conf, xs);
    Ends(xs);
  }

  /** What a call left in the history of a connection is there for good. */
  lemma CallStays(conf: Config, rounds: seq<Round>, inputs: seq<RoundInput>, before: seq<Episode>, story: seq<Episode>,
                  c: Connection, k: nat, now: Snap)
    requires |rounds| == |inputs| && StoryOf(rounds, before, story) && StoryRight(conf, story) && UpToDate(story, c, now)
    requires k < |CallsOf(rounds, inputs, c)|
    ensures CallsOf(rounds, inputs, c)[k].visit.b.log <= now.log
  {
    hide CallsOf, StoryRight, AllEpisodes, UpToDate, VisitsOf;
    VisitOfCall(rounds, inputs, before, story, c, k);
    StaysInHistory(conf, story, c, |VisitsOf(before, c)| + k, now);
  }

  lemma VisitOfCall(rounds: seq<Round>, inputs: seq<RoundInput>, before: seq<Episode>, story: seq<Episode>,
                    c: Connection, k: nat)
    requires |rounds| == |inputs| && StoryOf(rounds, before, story) && k < |CallsOf(rounds, inputs, c)|
    ensures |VisitsOf(story, c)| == |VisitsOf(before, c)| + |CallsOf(rounds, inputs, c)|
    ensures VisitsOf(story, c)[|VisitsOf(before, c)| + k] == CallsOf(rounds, inputs, c)[k].visit
  {
    hide CallsOf, AllEpisodes, VisitsOf;
    VisitsOfRun(rounds, inputs, c);
    VisitsJoin(before, AllEpisodes(rounds), c);
  }

  /** The same for a connection that the run took in, from its first call on: its
      history begins with exactly these exchanges. */
  lemma NewClientAnswered(conf: Config, maxFds: nat, rounds: seq<Round>, inputs: seq<RoundInput>, first: seq<Connection>,
                          last: seq<Connection>, before: seq<Episode>, story: seq<Episode>, c: Connection,
                          j: nat, xs: seq<Exchange>, now: Snap)
    requires RunRight(conf, maxFds, rounds, inputs, first, last)
    requires StoryOf(rounds, before, story) && StoryRight(conf, story) && UpToDate(story, c, now)
    requires j <= |CallsOf(rounds, inputs, c)| && CallsOf(rounds, inputs, c)[0..j] == AllCalls(xs)
    requires Session(conf, xs) && VisitsOf(before, c) == []
    ensures |xs| <= |now.log| && AllAnswered(conf, xs, [], now.log[..|xs|])
  {
    hide CallsOf, InRun, RightlyAnswered, AllEpisodes, UpToDate, VisitsOf, AsksToClose, PlainRequest, CanServe,
      Size, Visits, Readable, Chunks, Chained;
    SessionReads(conf, xs);
    Ends(xs);
    assert CallsOf(rounds, inputs, c)[0] == AllCalls(xs)[0];
    VisitOfCall(rounds, inputs, before, story, c, 0);
    var k := SomeVisit(story, c);
    RunAnswers(conf, maxFds, rounds, inputs, first, last, before, story, c, 0, j, xs, now);
  }

  /** In any run: what the inputs deliver to a fresh connection is received, and what
      its last call left in the history stays there. */
  lemma RunDelivers(conf: Config, maxFds: nat, rounds: seq<Round>, inputs: seq<RoundInput>, first: seq<Connection>,
                    last: seq<Connection>, before: seq<Episode>, story: seq<Episode>, c: Connection,
                    i: nat, j: nat, x: Exchange, n: nat, now: Snap)
    requires RunRight(conf, maxFds, rounds, inputs, first, last)
    requires StoryOf(rounds, before, story) && StoryRight(conf, story) && UpToDate(story, c, now)
    requires i <= j <= |CallsOf(rounds, inputs, c)| && CallsOf(rounds, inputs, c)[i..j] == CallsFor(x)
    requires WellFormed(x.m) && |Print(x.m)| <= MAX_REQUEST_SIZE && Delivered(conf, x, n) && Fresh(x.reading[0].visit.a)
    ensures SentCalmly(conf, Visits(x.reading + x.waiting), x.last.visit, x.m, n)
    ensures Visits(x.reading + x.waiting)[0] == x.reading[0].visit && x.last.visit.fs == x.last.input.fs
    ensures x.last.visit.b.log <= now.log
  {
    hide CallsOf, InRun, AllEpisodes, UpToDate, VisitsOf, Readable, Chunks, Chained, SentCalmly, WellFormed, Print, VisitRight;
    CallsInRun(conf, maxFds, rounds, inputs, first, last, before, story, c, i, j);
    ExchangeTakesPlace(conf, x, n);
    PartsOf(x);
    assert CallsOf(rounds, inputs, c)[j - 1] == CallsFor(x)[j - 1 - i];
    CallStays(conf, rounds, inputs, before, story, c, j - 1, now);
    LastInRun(conf, CallsFor(x));
  }

  lemma LastInRun(conf: Config, calls: seq<Call>)
    requires InRun(conf, calls) && calls != []
    ensures calls[|calls| - 1].visit.fs == calls[|calls| - 1].input.fs
  {
    hide VisitRight, Chained;
  }

  /** In any run of the server: a GET for a link to a file, in any spelling, that poll and
      recv deliver to a fresh connection whose socket then has room, is answered by the
      head and the bytes of that very file, unless it has one byte. */
  lemma RunLinkAnswered(conf: Config, maxFds: nat, rounds: seq<Round>, inputs: seq<RoundInput>, first: seq<Connection>,
                        last: seq<Connection>, before: seq<Episode>, story: seq<Episode>, c: Connection,
                        i: nat, j: nat, x: Exchange, now: Snap, segs: seq<string>, size: nat)
    requires RunRight(conf, maxFds, rounds, inputs, first, last)
    requires StoryOf(rounds, before, story) && StoryRight(conf, story) && UpToDate(story, c, now)
    requires i <= j <= |CallsOf(rounds, inputs, c)| && CallsOf(rounds, inputs, c)[i..j] == CallsFor(x)
    requires Delivered(conf, x, |HeadFor(conf, x.m, x.last.visit)| + size) && Fresh(x.reading[0].visit.a)
    requires ValidConfig(conf) && segs != [] && AreSegments(segs) && size != 1
    requires PlainRequest(x.m) && SpellsPath(x.m.path, segs, false) && x.m.verb != "HEAD"
    requires var file, fs := PathOfLink(conf.servePath, segs, false), x.last.input.fs;
             fs.stat(file) == Found(false, size) && Matches(fs, file, size)
    ensures var k, file := |x.reading[0].visit.a.log|, PathOfLink(conf.servePath, segs, false);
            && k < |now.log| && now.log[k].buf == Print(x.m)
            && now.log[k].text == HeadFor(conf, x.m, x.last.visit) + x.last.input.fs.disk(file).contents
  {
    hide CallsOf, RunRight, StoryOf, StoryRight, UpToDate, SentCalmly, PathOfLink, SpellsPath, Fields, Print, WellFormed,
      RangeFree, Matches, HeadFor, CallsFor, Visits;
    RunDelivers(conf, maxFds, rounds, inputs, first, last, before, story, c, i, j, x,
                |HeadFor(conf, x.m, x.last.visit)| + size, now);
    LinkAnswered(conf, Visits(x.reading + x.waiting), x.last.visit, segs, x.m, size);
  }

  // ----- Long answers -----

  /** The room that the calls found that could write. */
  function WritableRoom(calls: seq<Call>): nat {
    if calls == [] then 0
    else WritableRoom(calls[..|calls| - 1])
         + (if Writable(calls[|calls| - 1]) then calls[|calls| - 1].visit.act.room else 0)
  }

  predicate OnTime(conf: Config, call: Call) {
    call.input.now < call.visit.a.lastActive + conf.timeoutSecs
  }

  /** Calls in time that find the socket calm, or not writable, and do not end the
      response. */
  ghost predicate Fills(conf: Config, calls: seq<Call>) {
    forall i | 0 <= i < |calls| ::
      OnTime(conf, calls[i]) && !EndsResponse(calls[i].visit) && (Writable(calls[i]) ==> calls[i].visit.act.calm)
  }

  ghost predicate IsWriting(a: Snap) {
    a.state == WritingHeaders || a.state == WritingBody
  }

  /** One more such call, to a connection that is writing. */
  lemma FillsOn(conf: Config, call: Call)
    requires VisitOf(conf, call.visit, call.slot, call.input) && IsWriting(call.visit.a) && Fills(conf, [call])
    ensures IsWriting(call.visit.b) && RoomIn(conf, call.visit) == if Writable(call) then call.visit.act.room else 0
    ensures Idle(conf, call.visit) || (WriteReady(conf, call.visit) && call.visit.act.calm)
  {
    hide VisitRight, ReadOutcome, EndsResponse;
    assert [call][0] == call;
    CallMeets(conf, call);
    UnfinishedVisit(conf, call.visit);
  }

  lemma {:induction false} FillsRooms(conf: Config, calls: seq<Call>)
    requires InRun(conf, calls) && calls != [] && IsWriting(calls[0].visit.a) && Fills(conf, calls)
    ensures Unfinished(conf, Visits(calls)) && Rooms(conf, Visits(calls)) == WritableRoom(calls)
    ensures IsWriting(calls[|calls| - 1].visit.b)
    decreases |calls|
  {
    hide VisitOf, Chained, EndsResponse, RoomIn, IsWriting, Writable, Idle, OnTime;
    var n := |calls| - 1;
    var call, init := calls[n], calls[..n];
    assert Visits(calls)[..n] == Visits(init) && Visits(calls)[n] == call.visit;
    if n > 0 {
      PartOfRun(conf, calls, 0, n);
      assert calls[0..n] == init;
      FillsRooms(conf, init);
      NextInRun(conf, calls, n);
    }
    assert [call][0] == call && VisitOf(conf, call.visit, call.slot, call.input);
    FillsOn(conf, call);
    forall i | 0 <= i < |Visits(calls)|
      ensures !EndsResponse(Visits(calls)[i])
              && (Idle(conf, Visits(calls)[i]) || (WriteReady(conf, Visits(calls)[i]) && Visits(calls)[i].act.calm))
    {
      assert !EndsResponse(calls[i].visit);
      if i < n { assert Visits(init)[i] == Visits(calls)[i]; }
    }
  }

  /** The same as ExchangeAnswered when the socket has less room: further calls, all
      calm, find as much room as the answer takes. Then all of it is sent, unless just
      the last byte of a file is left for the last call: that is never sent. */
  lemma LongExchangeAnswered(conf: Config, x: Exchange, more: seq<Call>, end: Call)
    requires PlainRequest(x.m) && CanServe(conf, x.m, x.last.visit.fs) && Delivered(conf, x, 0)
    requires InRun(conf, CallsFor(x) + more + [end]) && Fresh(x.reading[0].visit.a)
    requires Fills(conf, [x.last] + more) && Writable(end) && OnTime(conf, end) && end.visit.act.calm
    requires Size(conf, x.m, x.last.visit) <= WritableRoom([x.last] + more) + end.visit.act.room
    ensures var q, fs := Fields(x.m), x.last.visit.fs;
            var r, out := ResponseFor(conf, q, fs, x.last.visit.act.unset), WritableRoom([x.last] + more);
            AnsweredBy(Visits(x.reading + x.waiting), end.visit, x.m,
              r.head + PageSent(x.m.verb == "HEAD", r.body.None?, r.head, Wanted(conf, q, fs), out))
    ensures end.visit.b.state == if AsksToClose(x.m.headers) then Closing else Reading
  {
    hide InRun, Fields, Print, Servable, ResponseFor, Wanted, WellFormed, Chained, Fills, WritableRoom, Chunks, Reads, Received,
      BlockedReads, EndsResponse, Rooms, PageSent, AsksToClose, Unfinished, AnsweredBy, Visits;
    var rs, sending := x.reading + x.waiting, [x.last] + more;
    LongParts(conf, rs, x.last, more, end);
    ExchangeTakesPlace(conf, x, 0);
    MessageArrives(conf, Visits(rs), x.last.visit, x.m, 0);
    FillsRooms(conf, sending);
    assert VisitOf(conf, end.visit, end.slot, end.input);
    CallMeets(conf, end);
    LongMessageAnswered(conf, Visits(rs), Visits(sending), end.visit, x.m);
  }

  /** The parts of the calls of a long exchange. */
  lemma LongParts(conf: Config, rs: seq<Call>, first: Call, more: seq<Call>, end: Call)
    requires InRun(conf, rs + [first] + more + [end])
    ensures var sending := [first] + more;
            && InRun(conf, rs + [first]) && InRun(conf, sending) && end.visit.a == sending[|sending| - 1].visit.b
            && VisitOf(conf, end.visit, end.slot, end.input)
            && Chained(conf, Visits(rs) + (Visits(sending) + [end.visit]))
            && |Visits(sending)| == |sending| && Visits(sending)[0] == first.visit
  {
    hide InRun, VisitOf, Chained;
    var sending := [first] + more;
    var all := rs + [first] + more + [end];
    assert all == rs + [first] + (more + [end]) == rs + (sending + [end]);
    RunInTwo(conf, rs + [first], more + [end]);
    RunInTwo(conf, rs, sending + [end]);
    RunInTwo(conf, sending, [end]);
    OneInRun(conf, end);
    AllChained(conf, all);
    assert Visits(all) == Visits(rs) + (Visits(sending) + [end.visit]);
  }

  lemma OneInRun(conf: Config, call: Call)
    requires InRun(conf, [call])
    ensures VisitOf(conf, call.visit, call.slot, call.input)
  {
    hide VisitOf, Chained;
    assert [call][0] == call;
  }

  lemma AllChained(conf: Config, calls: seq<Call>)
    requires InRun(conf, calls)
    ensures Chained(conf, Visits(calls))
  {
    hide Chained, VisitOf;
  }
}
