/** From the bytes of a request to the bytes of its answer: chains of visits to one
    connection. */
module EndToEnd {
  import opened Text
  import opened Numbers
  import opened Range
  import opened Grammar
  import opened RequestParser
  import opened ParserExactness
  import opened BrokenRequests
  import opened Url
  import opened Reader
  import opened Links
  import opened Paths
  import opened Responses
  import opened Answers
  import opened Protocol

  // ----- The request arrives -----

  /** The connection had not timed out, and poll did not report what it waits for. */
  predicate Idle(conf: Config, v: Visit) {
    !TimedOut(conf, v) &&
    match v.a.state
    case Reading => !v.revents.pollin
    case WritingHeaders => !v.revents.pollout
    case WritingBody => !v.revents.pollout
    case _ => false
  }

  /** The answers of recv, one for each visit that is not idle. */
  function Reads(conf: Config, vs: seq<Visit>): seq<RecvResult> {
    if vs == [] then []
    else (if Idle(conf, vs[0]) then [] else [vs[0].act.ev]) + Reads(conf, vs[1..])
  }

  lemma {:induction false} AllIdle(conf: Config, vs: seq<Visit>)
    requires Chained(conf, vs) && vs != [] && Reads(conf, vs) == []
    ensures vs[|vs| - 1].b == vs[0].a
    decreases |vs|
  {
    hide ReadOutcome, WriteStep, CalmStep, HistoryRight, Bounded;
    assert VisitRight(conf, vs[0]) && Idle(conf, vs[0]);
    if |vs| > 1 {
      assert vs[1].a == vs[0].b;
      RestOfChain(conf, vs);
      AllIdle(conf, vs[1..]);
    }
  }

  /** One piece more of a printed request, or a read that fails. */
  lemma PieceArrives(m: Message, got: nat, tries: nat, evs: seq<RecvResult>) returns (got': nat)
    requires WellFormed(m) && |Print(m)| <= MAX_REQUEST_SIZE && BlockedReads(evs) <= tries
    requires Chunks(evs) && got <= |Print(m)| && Received(evs) == Print(m)[got..]
    ensures got <= got' <= |Print(m)|
    ensures var (s, status) := ReadStep(ReadState(Print(m)[..got], tries), evs[0]);
            s.buf == Print(m)[..got']
            && if |evs| == 1 then status == CompleteRead && s.buf == Print(m)
               else
                 && status == PartialRead && Chunks(evs[1..]) && Received(evs[1..]) == Print(m)[got'..]
                 && BlockedReads(evs[1..]) <= s.tries
  {
    hide Print, IsHttpEnd;
    var b, rest := Print(m), evs[1..];
    got' := got;
    if |evs| > 1 {
      assert rest[|rest| - 1] == evs[|evs| - 1];
      ReceivedSomething(rest);
    }
    if evs[0].Data? {
      got' := got + |evs[0].bytes|;
      assert evs[0].bytes + Received(rest) == b[got..];
      SplitTail(b, got, evs[0].bytes, Received(rest));
      EndExactly(m, got');
      assert b[..|b|] == b;
    }
  }

  /** A chain of visits that receives the pieces of a well-formed request, with idle
      visits anywhere in between and behind, and no more blocked reads than there are
      tries, ends with exactly that request parsed and about to be answered. */
  lemma {:induction false} RequestArrives(conf: Config, vs: seq<Visit>, m: Message, got: nat)
    requires WellFormed(m) && |Print(m)| <= MAX_REQUEST_SIZE && got <= |Print(m)|
    requires Chained(conf, vs) && Chunks(Reads(conf, vs)) && forall i | 0 <= i < |vs| :: !TimedOut(conf, vs[i])
    requires Received(Reads(conf, vs)) == Print(m)[got..] && vs != []
    requires vs[0].a.state == Reading && ReadingState(vs[0].a).buf == Print(m)[..got]
    requires BlockedReads(Reads(conf, vs)) <= vs[0].a.readTries
    ensures var a, b := vs[0].a, vs[|vs| - 1].b;
            b.state == WritingHeaders && b.req == Some(HttpRequest(Print(m), Fields(m)))
            && b.res == a.res && b.log == a.log && b.keepAlive == !WantsClose(Fields(m))
    decreases |vs|
  {
    hide Print, ReadStep, Fields, Parsed, WantsClose, Bounded, HistoryRight, WriteCall, Chunks;
    var v, rest := vs[0], vs[1..];
    assert VisitRight(conf, v) && !TimedOut(conf, v);
    RestOfChain(conf, vs);
    assert rest != [] ==> rest[0].a == v.b;
    SomeRead(conf, vs);
    if Idle(conf, v) {
      assert Reads(conf, vs) == Reads(conf, rest);
      RequestArrives(conf, rest, m, got);
    } else {
      assert Reads(conf, vs)[0] == v.act.ev && Reads(conf, vs)[1..] == Reads(conf, rest);
      var got' := PieceArrives(m, got, v.a.readTries, Reads(conf, vs));
      if Reads(conf, rest) == [] {
        ParsePrinted(Print(m), m);
        FieldsMeaning(m);
        if rest != [] { AllIdle(conf, rest); }
      } else {
        RequestArrives(conf, rest, m, got');
      }
    }
  }

  lemma SomeRead(conf: Config, vs: seq<Visit>)
    requires Chunks(Reads(conf, vs))
    ensures Reads(conf, vs) != []
  {
  }

  lemma RestOfChain(conf: Config, vs: seq<Visit>)
    requires Chained(conf, vs) && vs != []
    ensures Chained(conf, vs[1..])
  {
    hide VisitRight;
  }

  /** A chain of visits follows the run of its reads: as long as that is partial the
      connection gathers bytes; then it holds them as the request and answers them, if
      they can be answered; or it is closed. */
  lemma {:induction false} VisitsRead(conf: Config, vs: seq<Visit>)
    requires Chained(conf, vs) && vs != [] && forall i | 0 <= i < |vs| :: !TimedOut(conf, vs[i])
    requires vs[0].a.state == Reading && Reads(conf, vs) != []
    requires var evs := Reads(conf, vs);
             ReadRun(ReadingState(vs[0].a), evs[..|evs| - 1]).1 == PartialRead
    ensures var a, b, (s, status) := vs[0].a, vs[|vs| - 1].b, ReadRun(ReadingState(vs[0].a), Reads(conf, vs));
            && b.log == a.log && b.wire == a.wire
            && match status
               case PartialRead => b.state == Reading && ReadingState(b) == s
               case CompleteRead =>
                 b.req == Some(HttpRequest(s.buf, Parsed(s.buf))) && b.res == a.res
                 && b.state == (if Essential(Parsed(s.buf)) then WritingHeaders else Closing)
                 && (b.state == WritingHeaders ==> b.keepAlive == !WantsClose(Parsed(s.buf)))
               case _ => b.state == Closing
    decreases |vs|
  {
    hide ReadStep, Parsed, WantsClose, Essential, Bounded, HistoryRight, WriteCall;
    var v, rest, evs := vs[0], vs[1..], Reads(conf, vs);
    assert VisitRight(conf, v) && !TimedOut(conf, v);
    RestOfChain(conf, vs);
    assert rest != [] ==> rest[0].a == v.b;
    if Idle(conf, v) {
      assert evs == Reads(conf, rest);
      VisitsRead(conf, rest);
    } else {
      assert evs[0] == v.act.ev && evs[1..] == Reads(conf, rest);
      assert ReadOutcome(v.a, v.b, v.act.ev, v.now);
      if |evs| == 1 {
        OneRead(ReadingState(v.a), evs);
        if rest != [] { AllIdle(conf, rest); }
      } else {
        FirstRead(ReadingState(v.a), evs);
        assert ReadingState(v.b) == ReadStep(ReadingState(v.a), evs[0]).0;
        VisitsRead(conf, rest);
      }
    }
  }

  lemma OneRead(s: ReadState, evs: seq<RecvResult>)
    requires |evs| == 1
    ensures ReadRun(s, evs) == ReadStep(s, evs[0])
  {
    hide ReadStep;
    assert evs[1..] == [];
  }

  lemma FirstRead(s: ReadState, evs: seq<RecvResult>)
    requires |evs| > 1 && ReadRun(s, evs[..|evs| - 1]).1 == PartialRead
    ensures var (s', status) := ReadStep(s, evs[0]);
            status == PartialRead && ReadRun(s', evs[1..][..|evs[1..]| - 1]).1 == PartialRead
            && ReadRun(s, evs) == ReadRun(s', evs[1..])
  {
    hide ReadStep;
    var init := evs[..|evs| - 1];
    assert init[0] == evs[0] && init[1..] == evs[1..][..|evs[1..]| - 1];
  }

  /** The peer sends bytes in which no end of a request shows, and shuts down. What it
      sent is then answered exactly if it is a request line and header lines with
      something that is no line of a request behind them and a Host header among them. */
  lemma ShutDownAnswered(conf: Config, vs: seq<Visit>, evs: seq<RecvResult>)
    requires Chained(conf, vs) && vs != [] && forall i | 0 <= i < |vs| :: !TimedOut(conf, vs[i])
    requires Fresh(vs[0].a) && Reads(conf, vs) == evs + [Data("")]
    requires NoEndShows("", evs) && |Received(evs)| < 4096 && BlockedReads(evs) <= 5
    ensures var b := vs[|vs| - 1].b;
            && b.state == (if exists m :: Answerable(Received(evs), m) then WritingHeaders else Closing)
            && (b.state == WritingHeaders ==> b.req == Some(HttpRequest(Received(evs), Parsed(Received(evs)))))
            && b.log == vs[0].a.log && b.wire == vs[0].a.wire
  {
    hide Chained, Parsed, NoEndShows, Answerable, WantsClose, Essential, ReadRun;
    ShutDown(evs);
    Gathers(FRESH, evs, []);
    JustGathers(evs);
    assert (evs + [Data("")])[..|evs + [Data("")]| - 1] == evs;
    VisitsRead(conf, vs);
    AnsweredExactly(Received(evs));
    NothingAnswered();
  }

  lemma JustGathers(evs: seq<RecvResult>)
    requires NoEndShows("", evs) && |Received(evs)| < 4096 && BlockedReads(evs) <= 5
    ensures ReadRun(FRESH, evs).1 == PartialRead
  {
    hide NoEndShows;
    Gathers(FRESH, evs, []);
    assert evs + [] == evs;
  }

  /** 4096 bytes in which no end of a request shows end the connection. */
  lemma OverlongClosed(conf: Config, vs: seq<Visit>, evs: seq<RecvResult>, last: string)
    requires Chained(conf, vs) && vs != [] && forall i | 0 <= i < |vs| :: !TimedOut(conf, vs[i])
    requires Fresh(vs[0].a) && Reads(conf, vs) == evs + [Data(last)]
    requires NoEndShows("", evs) && BlockedReads(evs) <= 5 && last != ""
    requires |Received(evs) + last| == 4096 && !EndsInBlankLine(Received(evs) + last)
    ensures var b := vs[|vs| - 1].b; b.state == Closing && b.log == vs[0].a.log && b.wire == vs[0].a.wire
  {
    hide Chained, NoEndShows, ReadRun, EndsInBlankLine;
    TooManyBytes(evs, last);
    JustGathers(evs);
    assert (evs + [Data(last)])[..|evs + [Data(last)]| - 1] == evs;
    VisitsRead(conf, vs);
  }

  lemma NothingAnswered()
    ensures !exists m :: Answerable("", m)
  {
  }

  // ----- The answer goes out -----

  /** A calm write-ready visit with room for all the rest of a response to HEAD, or of a
      whole one, puts the exchange into the history. */
  lemma CalmVisitAnswers(conf: Config, v: Visit)
    requires VisitRight(conf, v) && WriteReady(conf, v) && v.act.calm && CanAnswer(v.a)
    requires var r, isHead := Current(conf, v.a, v.fs, v.act.unset), IsHeadRequest(v.a.req.value.fields);
             (isHead || Whole(r)) && Rest(isHead, r) <= v.act.room
    ensures |v.b.log| == |v.a.log| + 1 && v.b.log[..|v.a.log|] == v.a.log
    ensures v.b.state == if v.a.keepAlive then Reading else Closing
    ensures var f := v.b.log[|v.a.log|];
            ServedRight(conf, f)
            && RecordOf(f, Current(conf, v.a, v.fs, v.act.unset), v.a.req.value.buf, v.act.room)
  {
    hide ServedRight, Whole, Rest, ResponseFor, Bounded, RecordOf;
  }

  /** Nothing of a new whole response is out. */
  lemma WholeRest(r: Response)
    requires Whole(r) && r.headSent == 0 && r.bodySent == 0
    requires r.body.None? && r.disk.Regular? ==> r.offset == r.rangeStart
    ensures Rest(false, r) <= |r.head| + |Payload(r)| && Rest(true, r) == |r.head|
    ensures r.body.None? ==> r.offset == r.rangeStart
  {
  }

  /** What follows the head of a whole response: for HEAD, and for a range of one byte,
      nothing; else the page, or the file from the start of the range. */
  function SentOf(isHead: bool, r: Response): string {
    if isHead || (r.body.None? && r.rangeStart == r.rangeEnd) then [] else Payload(r)
  }

  /** A freshly parsed request whose response is whole is answered in full by one calm
      visit with enough room; the connection goes on unless it is to be closed. */
  lemma FreshWhole(conf: Config, v: Visit)
    requires VisitRight(conf, v) && WriteReady(conf, v) && v.act.calm && CanAnswer(v.a) && v.a.res.None?
    requires var q := v.a.req.value.fields;
             var r := ResponseFor(conf, q, v.fs, v.act.unset);
             q == Parsed(v.a.req.value.buf) && Whole(r) && |r.head| + |Payload(r)| <= v.act.room
    ensures |v.b.log| == |v.a.log| + 1 && v.b.log[..|v.a.log|] == v.a.log
    ensures v.b.state == if v.a.keepAlive then Reading else Closing
    ensures var f, q := v.b.log[|v.a.log|], v.a.req.value.fields;
            var r := ResponseFor(conf, q, v.fs, v.act.unset);
            f.buf == v.a.req.value.buf && f.text == r.head + SentOf(IsHeadRequest(q), r)
  {
    hide ResponseFor, Whole, Rest, Parsed, VisitRight, Payload, AllSent, SentOf;
    var q := v.a.req.value.fields;
    var r := ResponseFor(conf, q, v.fs, v.act.unset);
    NewResponse(conf, q, v.fs, v.act.unset);
    WholeRest(r);
    CalmVisitAnswers(conf, v);
    TextOf(IsHeadRequest(q), v.b.log[|v.a.log|], r, v.act.room);
  }

  lemma TextOf(isHead: bool, f: Served, r: Response, room: int)
    requires AllSent(isHead, f.res, f.text, f.start, f.room) && SameResponse(f.res, r) && Whole(r)
    requires r.headSent == 0 && (r.body.None? ==> r.offset == r.rangeStart)
    requires f.start == r.offset && f.room == room - |r.head| && |r.head| + |Payload(r)| <= room
    ensures f.text == r.head + SentOf(isHead, r)
  {
    assert r.head + [] == r.head;
    if !isHead && r.body.None? {
      FileWhole(f);
    }
  }

  /** How much of a page is sent for a request; of a file of one byte nothing is. */
  function SentFor(conf: Config, q: Request, fs: FileSystem, unset: (int, int)): string
    requires q.verb.Some? && q.path.Some? && Servable(conf, q, fs)
  {
    var page := Wanted(conf, q, fs);
    if IsHeadRequest(q) || (ResponseFor(conf, q, fs, unset).body.None? && |page| == 1) then [] else page
  }

  lemma SentForIsSent(conf: Config, q: Request, fs: FileSystem, unset: (int, int))
    requires q.verb.Some? && q.path.Some? && q.range == NO_RANGE && Servable(conf, q, fs)
    ensures var r := ResponseFor(conf, q, fs, unset);
            Whole(r) && Payload(r) == Wanted(conf, q, fs)
            && SentOf(IsHeadRequest(q), r) == SentFor(conf, q, fs, unset)
  {
    hide ResponseFor, Servable, Wanted;
    PayloadWanted(conf, q, fs, unset);
  }

  /** A freshly parsed request without a Range header, for something that can be served,
      is answered in full by one calm visit with enough room. */
  lemma FreshlyAnswered(conf: Config, v: Visit)
    requires VisitRight(conf, v) && WriteReady(conf, v) && v.act.calm && CanAnswer(v.a) && v.a.res.None?
    requires var q := v.a.req.value.fields;
             && q.range == NO_RANGE && Servable(conf, q, v.fs) && q == Parsed(v.a.req.value.buf)
             && |ResponseFor(conf, q, v.fs, v.act.unset).head| + |Wanted(conf, q, v.fs)| <= v.act.room
    ensures |v.b.log| == |v.a.log| + 1 && v.b.log[..|v.a.log|] == v.a.log
    ensures v.b.state == if v.a.keepAlive then Reading else Closing
    ensures var f, q := v.b.log[|v.a.log|], v.a.req.value.fields;
            f.buf == v.a.req.value.buf
            && f.text == ResponseFor(conf, q, v.fs, v.act.unset).head + SentFor(conf, q, v.fs, v.act.unset)
  {
    hide ResponseFor, Servable, Wanted, Whole, Parsed, VisitRight, Payload, SentOf, SentFor;
    SentForIsSent(conf, v.a.req.value.fields, v.fs, v.act.unset);
    FreshWhole(conf, v);
  }

  /** A GET with "bytes=a-" for a file is answered with the file from byte a on, unless
      that is its last byte; the head says so. */
  lemma RangeAnswered(conf: Config, v: Visit, a: nat, size: nat)
    requires VisitRight(conf, v) && WriteReady(conf, v) && v.act.calm && CanAnswer(v.a) && v.a.res.None?
    requires var q := v.a.req.value.fields;
             var path := RealPath(conf.servePath, q.path.value);
             && q == Parsed(v.a.req.value.buf) && q.range == Denoted(From(a)) && !IsHeadRequest(q)
             && v.fs.stat(path) == Found(false, size) && Matches(v.fs, path, size) && a <= size
             && |ResponseFor(conf, q, v.fs, v.act.unset).head| + size - a <= v.act.room
    ensures |v.b.log| == |v.a.log| + 1 && v.b.log[..|v.a.log|] == v.a.log
    ensures var f, path := v.b.log[|v.a.log|], RealPath(conf.servePath, v.a.req.value.fields.path.value);
            f.buf == v.a.req.value.buf
            && f.text == Join(FileHead(Denoted(From(a)), size, v.fs.lastMod(path), v.fs.mime(path)))
                         + (if a + 1 == size then [] else v.fs.disk(path).contents[a..])
  {
    hide Parsed, VisitRight, Join, FileHead, RealPath, Matches;
    var q := v.a.req.value.fields;
    var path := RealPath(conf.servePath, q.path.value);
    RangedResponse(conf, q, v.fs, v.act.unset, a, size);
    FreshWhole(conf, v);
  }

  lemma RangedResponse(conf: Config, q: Request, fs: FileSystem, unset: (int, int), a: nat, size: nat)
    requires q.verb.Some? && q.path.Some? && q.range == Denoted(From(a)) && a <= size
    requires var path := RealPath(conf.servePath, q.path.value);
             fs.stat(path) == Found(false, size) && Matches(fs, path, size)
    ensures var r, path := ResponseFor(conf, q, fs, unset), RealPath(conf.servePath, q.path.value);
            && r.head == Join(FileHead(Denoted(From(a)), size, fs.lastMod(path), fs.mime(path)))
            && Whole(r) && Payload(r) == fs.disk(path).contents[a..] && fs.disk(path).Regular? && |fs.disk(path).contents| == size
            && (!IsHeadRequest(q) ==> SentOf(IsHeadRequest(q), r) == if a + 1 == size then [] else fs.disk(path).contents[a..])
  {
    hide Join, FileHead, RealPath, Decoded;
  }

  /** The last Connection header says "close", in any letter case. */
  ghost predicate AsksToClose(hs: seq<Header>) {
    var c := LastValue(hs, "Connection");
    c.Some? && Lower(c.value) == "close"
  }

  /** The whole way: a connection without a request gets one, well-formed, without a
      Range header and of at most 4096 bytes, in any pieces and with at most five
      blocked reads, with idle visits anywhere; a calm visit with enough room follows. If
      there is something to serve, the exchange is then in the history: exactly the bytes
      of the request, and exactly the head and the page or file. The connection goes on to
      the next request unless this one asks for it to be closed. */
  lemma MessageAnswered(conf: Config, vs: seq<Visit>, v: Visit, m: Message)
    requires WellFormed(m) && |Print(m)| <= MAX_REQUEST_SIZE && RangeFree(m.headers)
    requires Chained(conf, vs + [v]) && Chunks(Reads(conf, vs)) && vs != [] && forall i | 0 <= i < |vs| :: !TimedOut(conf, vs[i])
    requires Received(Reads(conf, vs)) == Print(m) && BlockedReads(Reads(conf, vs)) <= MAX_TRIES
    requires Fresh(vs[0].a)
    requires v.revents.pollout && !TimedOut(conf, v) && v.act.calm
    requires var q := Fields(m);
             && q.verb.Some? && q.path.Some? && Servable(conf, q, v.fs)
             && |ResponseFor(conf, q, v.fs, v.act.unset).head| + |Wanted(conf, q, v.fs)| <= v.act.room
    ensures |v.b.log| == |vs[0].a.log| + 1 && v.b.log[..|vs[0].a.log|] == vs[0].a.log
    ensures v.b.state == if AsksToClose(m.headers) then Closing else Reading
    ensures var f, q := v.b.log[|vs[0].a.log|], Fields(m);
            f.buf == Print(m)
            && f.text == ResponseFor(conf, q, v.fs, v.act.unset).head + SentFor(conf, q, v.fs, v.act.unset)
  {
    hide Print, Fields, ResponseFor, Servable, Wanted, VisitRight, SentFor, Parsed;
    NoRangeHeader(m);
    FieldsMeaning(m);
    ParsePrinted(Print(m), m);
    LastOfChain(conf, vs, v);
    assert Print(m)[..0] == [] && Print(m)[0..] == Print(m);
    StartsAlone(conf, vs[0]);
    RequestArrives(conf, vs, m, 0);
    FreshlyAnswered(conf, v);
  }

  lemma LastOfChain(conf: Config, vs: seq<Visit>, v: Visit)
    requires Chained(conf, vs + [v]) && vs != []
    ensures Chained(conf, vs) && v.a == vs[|vs| - 1].b && VisitRight(conf, v) && VisitRight(conf, vs[0])
  {
    hide VisitRight;
    var all := vs + [v];
    assert forall i | 0 <= i < |vs| :: all[i] == vs[i];
    assert all[|vs|] == v;
    assert all[|vs| - 1] == vs[|vs| - 1];
  }

  lemma StartsAlone(conf: Config, v: Visit)
    requires VisitRight(conf, v) && v.a.state == Reading
    ensures v.a.res.None?
  {
  }

  // ----- Links -----

  /** The connection is fresh and receives exactly the message, in any pieces; a calm
      visit with room for n bytes follows. */
  ghost predicate SentCalmly(conf: Config, vs: seq<Visit>, v: Visit, m: Message, n: nat) {
    && Chained(conf, vs + [v]) && Chunks(Reads(conf, vs)) && vs != [] && (forall i | 0 <= i < |vs| :: !TimedOut(conf, vs[i]))
    && Received(Reads(conf, vs)) == Print(m) && BlockedReads(Reads(conf, vs)) <= MAX_TRIES
    && Fresh(vs[0].a) && v.revents.pollout && !TimedOut(conf, v) && v.act.calm && n <= v.act.room
  }

  /** The exchange of m is new in the history, and text was sent for it. */
  ghost predicate AnsweredBy(vs: seq<Visit>, v: Visit, m: Message, text: string) {
    vs != [] && var log := vs[0].a.log;
    && |v.b.log| == |log| + 1 && v.b.log[..|log|] == log
    && v.b.log[|log|].buf == Print(m) && v.b.log[|log|].text == text
  }

  /** A well-formed GET, or HEAD, without a Range header and of at most 4096 bytes. */
  ghost predicate PlainRequest(m: Message) {
    WellFormed(m) && |Print(m)| <= MAX_REQUEST_SIZE && RangeFree(m.headers)
  }

  lemma AnsweredCalmly(conf: Config, vs: seq<Visit>, v: Visit, m: Message)
    requires PlainRequest(m) && Fields(m).verb.Some? && Fields(m).path.Some? && Servable(conf, Fields(m), v.fs)
    requires var q := Fields(m);
             SentCalmly(conf, vs, v, m, |ResponseFor(conf, q, v.fs, v.act.unset).head| + |Wanted(conf, q, v.fs)|)
    ensures var q := Fields(m);
            AnsweredBy(vs, v, m, ResponseFor(conf, q, v.fs, v.act.unset).head + SentFor(conf, q, v.fs, v.act.unset))
  {
    hide Print, Fields, ResponseFor, Servable, Wanted, SentFor, Chained, Chunks;
    MessageAnswered(conf, vs, v, m);
  }

  /** A printed link is one of its spellings, and makes a well-formed request. */
  lemma PrintedLink(segs: seq<string>, dir: bool, m: Message)
    requires AreSegments(segs) && (segs != [] || dir)
    requires m.path == LinkPath(segs, dir) && WellFormed(m.(path := "/"))
    ensures WellFormed(m) && SpellsPath(m.path, segs, dir)
  {
    hide LinkPath;
    LinkIsPathText(segs, dir);
    LinkSpells(segs, dir);
    if segs == [] { RootLink(); } else { LinkNotEmpty(segs, dir); }
  }

  lemma RootLink()
    ensures LinkPath([], true) == "/"
  {
  }

  lemma LinkFields(conf: Config, segs: seq<string>, dir: bool, m: Message)
    requires ValidConfig(conf) && (segs != [] || dir) && AreSegments(segs)
    requires WellFormed(m) && SpellsPath(m.path, segs, dir)
    ensures Fields(m).verb == Some(m.verb) && Fields(m).path == Some(m.path)
    ensures Decoded(m.path) == PlainPath(segs, dir)
    ensures RealPath(conf.servePath, m.path) == PathOfLink(conf.servePath, segs, dir)
  {
    hide RealPath, PlainPath, Joined, SpellsPath, PathOfLink, Decoded;
    FieldsMeaning(m);
    SpelledLinkResolves(conf.servePath, m.path, segs, dir);
    CStrOfNulFree(m.path);
  }

  /** A request for a link to a file, in any spelling, wants that file's bytes. */
  lemma LinkWantsFile(conf: Config, segs: seq<string>, m: Message, fs: FileSystem, size: nat)
    requires ValidConfig(conf) && segs != [] && AreSegments(segs)
    requires WellFormed(m) && SpellsPath(m.path, segs, false)
    requires var file := PathOfLink(conf.servePath, segs, false);
             fs.stat(file) == Found(false, size) && Matches(fs, file, size)
    ensures Fields(m).verb == Some(m.verb) && Fields(m).path == Some(m.path)
    ensures Servable(conf, Fields(m), fs)
    ensures Wanted(conf, Fields(m), fs) == fs.disk(PathOfLink(conf.servePath, segs, false)).contents
  {
    hide RealPath, PathOfLink, SpellsPath, Decoded, Fields, WellFormed, PlainPath;
    LinkFields(conf, segs, false, m);
  }

  /** A GET for a link to a file, in any spelling, is answered by the head and the bytes
      of that very file, unless it has one byte. */
  lemma LinkAnswered(conf: Config, vs: seq<Visit>, v: Visit, segs: seq<string>, m: Message, size: nat)
    requires ValidConfig(conf) && segs != [] && AreSegments(segs) && size != 1
    requires PlainRequest(m) && SpellsPath(m.path, segs, false) && m.verb != "HEAD"
    requires var file := PathOfLink(conf.servePath, segs, false);
             v.fs.stat(file) == Found(false, size) && Matches(v.fs, file, size)
    requires SentCalmly(conf, vs, v, m, |HeadFor(conf, m, v)| + size)
    ensures AnsweredBy(vs, v, m, HeadFor(conf, m, v) + v.fs.disk(PathOfLink(conf.servePath, segs, false)).contents)
  {
    hide Print, ResponseFor, Servable, Wanted, SentCalmly, AnsweredBy, PathOfLink, SpellsPath, Fields, RangeFree;
    LinkWantsFile(conf, segs, m, v.fs, size);
    AnsweredCalmly(conf, vs, v, m);
  }

  /** The head of the answer to m. */
  ghost function HeadFor(conf: Config, m: Message, v: Visit): string {
    var q := Fields(m);
    if q.verb.Some? && q.path.Some? then ResponseFor(conf, q, v.fs, v.act.unset).head else []
  }

  // ----- Links of directories -----

  /** The place of the index file of a directory, if one is configured. */
  function IndexFile(conf: Config, segs: seq<string>): Option<string>
    requires conf.servePath != []
  {
    match conf.index
    case None => None
    case Some(index) =>
      if index == "." then Some(PathOfLink(conf.servePath, segs, true))
      else Some(Joined(conf.servePath, PlainPath(segs + [index], false)))
  }

  /** The index is a name, if there is one. */
  ghost predicate IndexIsName(conf: Config) {
    conf.index.Some? ==> IsSegment(conf.index.value)
  }

  lemma IndexLookedUp(conf: Config, segs: seq<string>, fs: FileSystem)
    requires ValidConfig(conf) && IndexIsName(conf) && AreSegments(segs)
    ensures var place := IndexFile(conf, segs);
            IndexOf(conf, PathOfLink(conf.servePath, segs, true), fs) ==
            if place.Some? && fs.stat(place.value).Found? then Some((place.value, fs.stat(place.value).size)) else None
  {
    hide PathOfLink, PlainPath, Joined, Squeeze;
    if conf.index.Some? {
      IndexInDir(conf.servePath, segs, conf.index.value);
    }
  }

  /** A request for a link to a directory, in any spelling, wants the file of the index
      name in that very directory, if there is one, else the listing of the directory. */
  lemma DirWants(conf: Config, segs: seq<string>, m: Message, fs: FileSystem)
    requires ValidConfig(conf) && IndexIsName(conf) && AreSegments(segs)
    requires WellFormed(m) && SpellsPath(m.path, segs, true)
    requires var s := fs.stat(PathOfLink(conf.servePath, segs, true)); s.Found? && s.isDir
    ensures Fields(m).verb == Some(m.verb) && Fields(m).path == Some(m.path)
    ensures var q, dir, place := Fields(m), PathOfLink(conf.servePath, segs, true), IndexFile(conf, segs);
            if place.Some? && fs.stat(place.value).Found? then
              Matches(fs, place.value, fs.stat(place.value).size) ==>
                Servable(conf, q, fs) && Wanted(conf, q, fs) == fs.disk(place.value).contents
            else
              var page := fs.page(dir, PlainPath(segs, true));
              page.Some? && |page.value| < SIZE_T_LIMIT ==> Servable(conf, q, fs) && Wanted(conf, q, fs) == page.value
  {
    hide RealPath, PathOfLink, SpellsPath, Decoded, Fields, WellFormed, PlainPath, IndexFile, IndexOf;
    LinkFields(conf, segs, true, m);
    PlainEnd(segs);
    IndexLookedUp(conf, segs, fs);
  }

  /** The index file, or else the listing, that a link to a directory stands for. */
  ghost predicate StandsFor(conf: Config, segs: seq<string>, fs: FileSystem, page: string)
    requires conf.servePath != []
  {
    var place := IndexFile(conf, segs);
    if place.Some? && fs.stat(place.value).Found? then
      Matches(fs, place.value, fs.stat(place.value).size) && page == fs.disk(place.value).contents && |page| != 1
    else
      fs.page(PathOfLink(conf.servePath, segs, true), PlainPath(segs, true)) == Some(page) && |page| < SIZE_T_LIMIT
  }

  /** A GET for a link to a directory, in any spelling, is answered by the head and the
      bytes of its index file, or its listing if there is none. */
  lemma DirAnswered(conf: Config, vs: seq<Visit>, v: Visit, segs: seq<string>, m: Message, page: string)
    requires ValidConfig(conf) && IndexIsName(conf) && AreSegments(segs)
    requires PlainRequest(m) && SpellsPath(m.path, segs, true) && m.verb != "HEAD"
    requires var s := v.fs.stat(PathOfLink(conf.servePath, segs, true)); s.Found? && s.isDir
    requires StandsFor(conf, segs, v.fs, page) && SentCalmly(conf, vs, v, m, |HeadFor(conf, m, v)| + |page|)
    ensures AnsweredBy(vs, v, m, HeadFor(conf, m, v) + page)
  {
    hide Print, ResponseFor, Servable, Wanted, SentCalmly, AnsweredBy, PathOfLink, SpellsPath, Fields, RangeFree,
      IndexFile, PlainPath, ValidConfig;
    DirWants(conf, segs, m, v.fs);
    assert Servable(conf, Fields(m), v.fs) && Wanted(conf, Fields(m), v.fs) == page;
    DirBody(conf, segs, m, v);
    AnsweredCalmly(conf, vs, v, m);
  }

  /** Without an index file the answer is a page. */
  lemma DirBody(conf: Config, segs: seq<string>, m: Message, v: Visit)
    requires ValidConfig(conf) && IndexIsName(conf) && AreSegments(segs)
    requires WellFormed(m) && SpellsPath(m.path, segs, true)
    requires var s := v.fs.stat(PathOfLink(conf.servePath, segs, true)); s.Found? && s.isDir
    ensures Fields(m).verb.Some? && Fields(m).path.Some?
    ensures var place := IndexFile(conf, segs);
            !(place.Some? && v.fs.stat(place.value).Found?) ==> ResponseFor(conf, Fields(m), v.fs, v.act.unset).body.Some?
  {
    hide RealPath, PathOfLink, SpellsPath, Decoded, Fields, WellFormed, PlainPath, IndexFile, IndexOf, Join;
    LinkFields(conf, segs, true, m);
    PlainEnd(segs);
    IndexLookedUp(conf, segs, v.fs);
  }

  /** The head of such an answer, by what was found. */
  function PlainFileHead(fs: FileSystem, file: string, size: nat): string {
    ("HTTP/1.1 " + "200" + "\r\n") + ("Accept-Ranges: bytes" + "\r\n") + ("Last-Modified: " + fs.lastMod(file) + "\r\n")
    + ("Content-Length: " + Dec(size) + "\r\n") + ("Content-Type: " + fs.mime(file) + "\r\n") + "\r\n"
  }

  function PageHead(fs: FileSystem, dir: string, page: string): string {
    ("HTTP/1.1 " + "200" + "\r\n") + ("Content-Type: " + "text/html; charset=UTF-8" + "\r\n")
    + ("Content-Length: " + Dec(|page|) + "\r\n") + ("Last-Modified: " + fs.lastMod(dir) + "\r\n") + "\r\n"
  }

  lemma LinkHead(conf: Config, segs: seq<string>, m: Message, v: Visit, size: nat)
    requires ValidConfig(conf) && segs != [] && AreSegments(segs)
    requires WellFormed(m) && RangeFree(m.headers) && SpellsPath(m.path, segs, false)
    requires v.fs.stat(PathOfLink(conf.servePath, segs, false)) == Found(false, size)
    ensures HeadFor(conf, m, v) == PlainFileHead(v.fs, PathOfLink(conf.servePath, segs, false), size)
  {
    hide RealPath, PathOfLink, SpellsPath, Decoded, Fields, WellFormed, PlainPath, Join, FileHead, Dec, RangeFree;
    LinkFields(conf, segs, false, m);
    NoRangeHeader(m);
    var file := PathOfLink(conf.servePath, segs, false);
    FileHeadText(size, v.fs.lastMod(file), v.fs.mime(file));
  }

  lemma DirHead(conf: Config, segs: seq<string>, m: Message, v: Visit)
    requires ValidConfig(conf) && IndexIsName(conf) && AreSegments(segs)
    requires WellFormed(m) && RangeFree(m.headers) && SpellsPath(m.path, segs, true)
    requires var s := v.fs.stat(PathOfLink(conf.servePath, segs, true)); s.Found? && s.isDir
    ensures var place, dir, head := IndexFile(conf, segs), PathOfLink(conf.servePath, segs, true), HeadFor(conf, m, v);
            if place.Some? && v.fs.stat(place.value).Found? then
              head == PlainFileHead(v.fs, place.value, v.fs.stat(place.value).size)
            else
              match v.fs.page(dir, PlainPath(segs, true))
              case Some(page) => head == PageHead(v.fs, dir, page)
              case None => head == "HTTP/1.1 " + "500" + "\r\n"
  {
    hide RealPath, PathOfLink, SpellsPath, Decoded, Fields, WellFormed, PlainPath, IndexFile, IndexOf, Join, FileHead, Dec,
      ListingHead, RangeFree;
    LinkFields(conf, segs, true, m);
    NoRangeHeader(m);
    PlainEnd(segs);
    IndexLookedUp(conf, segs, v.fs);
    var place, dir := IndexFile(conf, segs), PathOfLink(conf.servePath, segs, true);
    if place.Some? && v.fs.stat(place.value).Found? {
      FileHeadText(v.fs.stat(place.value).size, v.fs.lastMod(place.value), v.fs.mime(place.value));
    } else {
      match v.fs.page(dir, PlainPath(segs, true))
      case Some(page) => ListingHeadText(page, v.fs.lastMod(dir));
      case None => FailedHead(v.fs.lastMod(dir));
    }
  }

  lemma FailedHead(date: string)
    ensures Join(ListingHead(None, date)) == "HTTP/1.1 " + "500" + "\r\n"
  {
    JoinOne(StatusLine("500"));
  }

  /** A link to a directory without the slash at its end is answered by the way to the
      link with it. */
  lemma SlashAdded(conf: Config, segs: seq<string>, m: Message, fs: FileSystem, unset: (int, int))
    requires ValidConfig(conf) && segs != [] && AreSegments(segs)
    requires WellFormed(m) && SpellsPath(m.path, segs, false)
    requires var s := fs.stat(PathOfLink(conf.servePath, segs, false)); s.Found? && s.isDir
    ensures Fields(m).verb.Some? && Fields(m).path.Some?
    ensures ResponseFor(conf, Fields(m), fs, unset).head ==
            ("HTTP/1.1 " + "301" + "\r\n") + ("Location: " + PlainPath(segs, false) + "/\r\n")
            + ("Accept-Ranges: bytes" + "\r\n")
  {
    hide RealPath, PathOfLink, SpellsPath, Decoded, Fields, WellFormed, PlainPath, ResponseFor;
    LinkFields(conf, segs, false, m);
    NoSlashAtEnd(segs);
    OtherHeads(conf, Fields(m), fs, unset);
  }

  lemma {:induction false} NoSlashAtEnd(segs: seq<string>)
    requires segs != [] && AreSegments(segs)
    ensures PlainPath(segs, false) != [] && Last(PlainPath(segs, false)) != '/'
    decreases |segs|
  {
    if |segs| > 1 {
      NoSlashAtEnd(segs[1..]);
    } else {
      assert PlainPath(segs[1..], false) == "";
      assert IsSegment(segs[0]);
      assert PlainPath(segs, false) == "/" + (segs[0] + "") && segs[0] + "" == segs[0];
      assert segs[0][|segs[0]| - 1] in segs[0];
    }
  }

  // ----- Ranges -----

  /** The message has one Range header, bytes=a-. */
  ghost predicate AsksFrom(m: Message, i: nat, a: nat) {
    && i < |m.headers| && Lower(m.headers[i].name) == Lower("Range") && m.headers[i].value == PrintRange(From(a))
    && forall j | 0 <= j < |m.headers| && j != i :: Lower(m.headers[j].name) != Lower("Range")
  }

  /** A GET for a link to a file with "Range: bytes=a-" is answered by a 206 head that
      announces the bytes from a to the last one, and by these bytes, unless a is the
      last one. */
  lemma RangeOfLinkAnswered(conf: Config, vs: seq<Visit>, v: Visit, segs: seq<string>, m: Message,
                            size: nat, i: nat, a: nat)
    requires ValidConfig(conf) && segs != [] && AreSegments(segs) && a < size && a + 1 != size
    requires WellFormed(m) && |Print(m)| <= MAX_REQUEST_SIZE && AsksFrom(m, i, a)
    requires SpellsPath(m.path, segs, false) && m.verb != "HEAD"
    requires var file := PathOfLink(conf.servePath, segs, false);
             v.fs.stat(file) == Found(false, size) && Matches(v.fs, file, size)
    requires SentCalmly(conf, vs, v, m, |HeadFor(conf, m, v)| + size - a)
    ensures var file := PathOfLink(conf.servePath, segs, false);
            AnsweredBy(vs, v, m,
              ("HTTP/1.1 " + "206" + "\r\n") + ("Last-Modified: " + v.fs.lastMod(file) + "\r\n")
              + ("Content-Range: bytes " + (Dec(a) + "-" + Dec(size - 1)) + "/" + Dec(size) + "\r\n")
              + ("Content-Length: " + Dec(size) + "\r\n") + ("Content-Type: " + v.fs.mime(file) + "\r\n") + "\r\n"
              + v.fs.disk(file).contents[a..])
  {
    hide Print, ResponseFor, PathOfLink, SpellsPath, Fields, Matches, Dec, Join, FileHead, WellFormed, PrintRange,
      SentCalmly, AsksFrom;
    LinkFields(conf, segs, false, m);
    RangeAskedFor(m, i, a);
    MessageArrives(conf, vs, v, m, |HeadFor(conf, m, v)| + size - a);
    RangeAnswered(conf, v, a, size);
    var file := PathOfLink(conf.servePath, segs, false);
    RangedHeadText(From(a), size, v.fs.lastMod(file), v.fs.mime(file));
  }

  lemma RangeAskedFor(m: Message, i: nat, a: nat)
    requires WellFormed(m) && AsksFrom(m, i, a)
    ensures Fields(m).range == Denoted(From(a))
  {
    hide WellFormed, PrintRange, Denoted;
    FieldsMeaning(m);
    OneRange(m.headers, i);
    RangeRoundTrip(From(a));
  }

  /** What a calm visit finds when the message has arrived. */
  lemma MessageArrives(conf: Config, vs: seq<Visit>, v: Visit, m: Message, n: nat)
    requires WellFormed(m) && |Print(m)| <= MAX_REQUEST_SIZE && SentCalmly(conf, vs, v, m, n)
    requires Fields(m).verb.Some? && Fields(m).path.Some?
    ensures VisitRight(conf, v) && WriteReady(conf, v) && v.act.calm && CanAnswer(v.a) && v.a.res.None?
    ensures v.a.req == Some(HttpRequest(Print(m), Fields(m))) && Fields(m) == Parsed(Print(m))
    ensures vs != [] && v.a.log == vs[0].a.log && n <= v.act.room
  {
    hide Print, Fields, Parsed, VisitRight, WantsClose, Chunks;
    FieldsMeaning(m);
    ParsePrinted(Print(m), m);
    LastOfChain(conf, vs, v);
    assert Print(m)[..0] == [] && Print(m)[0..] == Print(m);
    StartsAlone(conf, vs[0]);
    RequestArrives(conf, vs, m, 0);
  }
}
