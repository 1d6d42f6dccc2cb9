/** Answers that take more than one visit: each calm visit sends as much as there is
    room for, until the response is over. */
module LongAnswers {
  import opened Text
  import opened Numbers
  import opened Grammar
  import opened RequestParser
  import opened ParserExactness
  import opened Reader
  import opened Responses
  import opened Answers
  import opened Protocol
  import opened EndToEnd

  /** How many bytes the whole of an answer has. */
  function Total(isHead: bool, r: Response): nat {
    |r.head| + if isHead then 0 else |Payload(r)|
  }

  /** write_file takes a file for finished when only its last byte is left. */
  predicate AtLastByte(isHead: bool, r: Response) {
    !isHead && r.body.None? && r.offset == r.rangeEnd
  }

  /** What is left of a response is what was not sent, but for a last byte. */
  lemma LeftOver(a: Snap)
    requires Underway(a) && a.res.Some? && (a.state == WritingHeaders || a.state == WritingBody)
    requires IsHeadRequest(a.req.value.fields) || Whole(a.res.value)
    ensures var isHead, r := IsHeadRequest(a.req.value.fields), a.res.value;
            && Rest(isHead, r) == Total(isHead, r) - |a.tail| - (if AtLastByte(isHead, r) then 1 else 0)
            && (AtLastByte(isHead, r) <==>
                 !isHead && r.body.None? && |Payload(r)| >= 1 && (|Payload(r)| == 1 || |a.tail| == Total(isHead, r) - 1))
  {
  }

  /** A calm visit that finds the connection writing and its socket writable. */
  ghost predicate CalmlyReady(conf: Config, v: Visit) {
    VisitRight(conf, v) && WriteReady(conf, v) && v.act.calm && CanAnswer(v.a)
  }

  /** Such a visit that does not end the response sends as many bytes as there is room
      for, and there were more to send. */
  lemma FillsTheRoom(conf: Config, v: Visit)
    requires CalmlyReady(conf, v) && !EndsResponse(v)
    requires var r := Current(conf, v.a, v.fs, v.act.unset); IsHeadRequest(v.a.req.value.fields) || Whole(r)
    ensures var a, b, r := v.a, v.b, Current(conf, v.a, v.fs, v.act.unset);
            && (b.state == WritingHeaders || b.state == WritingBody)
            && b.req == a.req && b.keepAlive == a.keepAlive && b.log == a.log
            && b.res.Some? && SameResponse(b.res.value, r)
            && |b.tail| == |a.tail| + v.act.room && v.act.room < Rest(IsHeadRequest(a.req.value.fields), r)
  {
    hide ResponseFor, SameResponse, Whole, Rest, Flat, Sent, OnlyHead, HistoryRight, FuelOf, RecordOf;
  }

  /** The room that the visits found that could write. */
  function Rooms(conf: Config, vs: seq<Visit>): nat {
    if vs == [] then 0 else Rooms(conf, vs[..|vs| - 1]) + RoomIn(conf, vs[|vs| - 1])
  }

  function RoomIn(conf: Config, v: Visit): nat {
    if Idle(conf, v) then 0 else v.act.room
  }

  /** Every visit finds nothing to do, or is calm and finds the socket writable; none of
      them ends the response. */
  ghost predicate Unfinished(conf: Config, vs: seq<Visit>) {
    forall i | 0 <= i < |vs| :: !EndsResponse(vs[i]) && (Idle(conf, vs[i]) || (WriteReady(conf, vs[i]) && vs[i].act.calm))
  }

  /** A connection that is sending r: to the request of a, with n bytes out. */
  ghost predicate Sending(a: Snap, b: Snap, r: Response, n: int) {
    && (b.state == WritingHeaders || b.state == WritingBody) && CanAnswer(b)
    && b.req == a.req && b.keepAlive == a.keepAlive && b.log == a.log
    && b.res.Some? && SameResponse(b.res.value, r) && |b.tail| == n
  }

  lemma IdleStays(conf: Config, v: Visit)
    requires VisitRight(conf, v) && Idle(conf, v)
    ensures v.b == v.a
  {
    hide ReadOutcome, WriteCall, Bounded, HistoryRight;
  }

  lemma SameWhole(a: Response, b: Response)
    requires SameResponse(a, b)
    ensures Whole(a) == Whole(b) && Payload(a) == Payload(b) && a.head == b.head && a.body == b.body
    ensures forall isHead :: Total(isHead, a) == Total(isHead, b)
  {
  }

  /** As long as the response is not over, exactly as much is out as there was room
      for. */
  lemma {:induction false} SentSoFar(conf: Config, vs: seq<Visit>, r: Response)
    requires Chained(conf, vs) && vs != [] && Unfinished(conf, vs)
    requires WriteReady(conf, vs[0]) && CanAnswer(vs[0].a) && vs[0].a.res.None? && !Idle(conf, vs[0])
    requires r == ResponseFor(conf, vs[0].a.req.value.fields, vs[0].fs, vs[0].act.unset)
    requires IsHeadRequest(vs[0].a.req.value.fields) || Whole(r)
    ensures Sending(vs[0].a, vs[|vs| - 1].b, r, Rooms(conf, vs))
    decreases |vs|
  {
    hide VisitRight, Whole, ResponseFor, SameResponse, EndsResponse;
    var n := |vs| - 1;
    assert VisitRight(conf, vs[n]) && !EndsResponse(vs[n]);
    if n == 0 {
      NoTail(conf, vs[0]);
      FillsTheRoom(conf, vs[0]);
      assert Rooms(conf, vs[..0]) == 0;
    } else {
      assert vs[n].a == vs[n - 1].b && vs[..n][n - 1] == vs[n - 1];
      ChainWithout(conf, vs);
      SentSoFar(conf, vs[..n], r);
      if Idle(conf, vs[n]) {
        IdleStays(conf, vs[n]);
      } else {
        SameWhole(vs[n].a.res.value, r);
        FillsTheRoom(conf, vs[n]);
        SameAgain(vs[n].b.res.value, vs[n].a.res.value, r);
      }
    }
  }

  lemma SameAgain(a: Response, b: Response, c: Response)
    requires SameResponse(a, b) && SameResponse(b, c)
    ensures SameResponse(a, c)
  {
  }

  lemma NoTail(conf: Config, v: Visit)
    requires VisitRight(conf, v) && v.a.res.None?
    ensures v.a.tail == [] && v.a.writeTries == 5
  {
  }

  /** What is sent of an answer when n bytes are out before the last visit: all of it,
      but for the last byte of a file that alone is left then, or is all there is. */
  function SentAfter(isHead: bool, r: Response, n: nat): string {
    if isHead then r.head
    else if r.body.None? && |Payload(r)| >= 1 && (|Payload(r)| == 1 || n == Total(isHead, r) - 1)
    then r.head + Payload(r)[..|Payload(r)| - 1]
    else r.head + Payload(r)
  }

  /** The visit that ends it: once the room of all visits is as much as the answer, it is
      over, and all of it was sent but perhaps a last byte. */
  lemma LongAnswer(conf: Config, vs: seq<Visit>, v: Visit, r: Response)
    requires Chained(conf, vs + [v]) && vs != [] && Unfinished(conf, vs)
    requires WriteReady(conf, vs[0]) && CanAnswer(vs[0].a) && vs[0].a.res.None? && !Idle(conf, vs[0])
    requires r == ResponseFor(conf, vs[0].a.req.value.fields, vs[0].fs, vs[0].act.unset)
    requires IsHeadRequest(vs[0].a.req.value.fields) || Whole(r)
    requires WriteReady(conf, v) && v.act.calm && vs[0].a.req.value.fields == Parsed(vs[0].a.req.value.buf)
    requires Total(IsHeadRequest(vs[0].a.req.value.fields), r) <= Rooms(conf, vs) + v.act.room
    ensures var a, b := vs[0].a, v.b;
            && |b.log| == |a.log| + 1 && b.log[..|a.log|] == a.log
            && b.state == (if a.keepAlive then Reading else Closing)
            && b.log[|a.log|].buf == a.req.value.buf
            && b.log[|a.log|].text == SentAfter(IsHeadRequest(a.req.value.fields), r, Rooms(conf, vs))
  {
    hide Parsed, Chained, VisitRight, Whole, ResponseFor, Unfinished, Total, SentAfter, Rooms, SameResponse;
    LastOfChain(conf, vs, v);
    SentSoFar(conf, vs, r);
    LastVisit(conf, vs[0].a, v, r, Rooms(conf, vs));
  }

  lemma LastVisit(conf: Config, a: Snap, v: Visit, r: Response, n: nat)
    requires VisitRight(conf, v) && WriteReady(conf, v) && v.act.calm && Sending(a, v.a, r, n)
    requires a.req.Some? && a.req.value.fields == Parsed(a.req.value.buf)
    requires IsHeadRequest(v.a.req.value.fields) || Whole(r)
    requires Total(IsHeadRequest(v.a.req.value.fields), r) <= n + v.act.room
    ensures |v.b.log| == |a.log| + 1 && v.b.log[..|a.log|] == a.log
    ensures v.b.state == (if a.keepAlive then Reading else Closing)
    ensures var f := v.b.log[|a.log|];
            f.buf == a.req.value.buf && f.text == SentAfter(IsHeadRequest(a.req.value.fields), r, n)
  {
    hide VisitRight, Whole, SameResponse, Rest, Underway, Total, SentAfter, ServedRight, Parsed, Current, Bounded;
    var isHead := IsHeadRequest(v.a.req.value.fields);
    StillUnderway(conf, v);
    EnoughRoom(isHead, v.a, r, v.act.room);
    TheCurrent(conf, v);
    CalmVisitAnswers(conf, v);
    Record(conf, v.b.log[|v.a.log|]);
    LastText(isHead, v.b.log[|v.a.log|], v.a, r, v.act.room);
  }

  lemma TheCurrent(conf: Config, v: Visit)
    requires CanAnswer(v.a) && v.a.res.Some?
    ensures Current(conf, v.a, v.fs, v.act.unset) == v.a.res.value
  {
  }

  lemma Record(conf: Config, f: Served)
    requires ServedRight(conf, f)
    ensures AllSent(IsHeadRequest(Parsed(f.buf)), f.res, f.text, f.start, f.room)
  {
    hide Parsed, AnswerTo;
  }

  lemma EnoughRoom(isHead: bool, a: Snap, r: Response, room: nat)
    requires a.res.Some? && Underway(a) && (a.state == WritingHeaders || a.state == WritingBody)
    requires isHead == IsHeadRequest(a.req.value.fields) && (isHead || Whole(r))
    requires SameResponse(a.res.value, r) && Total(isHead, r) <= |a.tail| + room
    ensures (isHead || Whole(a.res.value)) && Rest(isHead, a.res.value) <= room
  {
    hide Whole, SameResponse, Rest, Underway, Payload;
    SameWhole(a.res.value, r);
    LeftOver(a);
  }

  lemma StillUnderway(conf: Config, v: Visit)
    requires VisitRight(conf, v)
    ensures Underway(v.a)
  {
  }

  lemma LastText(isHead: bool, f: Served, a: Snap, r: Response, room: nat)
    requires a.res.Some? && Underway(a) && (a.state == WritingHeaders || a.state == WritingBody)
    requires isHead == IsHeadRequest(a.req.value.fields) && (isHead || Whole(a.res.value))
    requires SameResponse(a.res.value, r) && SameResponse(f.res, a.res.value) && AllSent(isHead, f.res, f.text, f.start, f.room)
    requires f.start == a.res.value.offset && f.room == room - (|a.res.value.head| - a.res.value.headSent)
    requires Total(isHead, r) <= |a.tail| + room
    ensures f.text == SentAfter(isHead, r, |a.tail|)
  {
  }

  /** What of the page is sent for a request without a Range header, when n bytes of its
      answer are out before the last visit. */
  function PageSent(isHead: bool, isFile: bool, head: string, page: string, n: nat): string {
    if isHead then []
    else if isFile && |page| >= 1 && (|page| == 1 || n == |head| + |page| - 1) then page[..|page| - 1]
    else page
  }

  /** The whole way of a long answer: the request arrives in any pieces; calm visits find
      the socket writable, with too little room to end the response, and others find
      nothing to do; one more has room for the rest. The exchange is then in the history,
      with the head and all of the page or file, unless the visits before had left just
      the last byte of a file: that one is never sent. */
  lemma LongMessageAnswered(conf: Config, rs: seq<Visit>, vs: seq<Visit>, v: Visit, m: Message)
    requires PlainRequest(m) && Chained(conf, rs + (vs + [v])) && rs != [] && vs != []
    requires Chunks(Reads(conf, rs)) && (forall i | 0 <= i < |rs| :: !TimedOut(conf, rs[i])) && Fresh(rs[0].a)
    requires Received(Reads(conf, rs)) == Print(m) && BlockedReads(Reads(conf, rs)) <= MAX_TRIES
    requires Unfinished(conf, vs) && vs[0].revents.pollout && !TimedOut(conf, vs[0])
    requires v.revents.pollout && !TimedOut(conf, v) && v.act.calm
    requires Fields(m).verb.Some? && Fields(m).path.Some? && Servable(conf, Fields(m), vs[0].fs)
    requires var q := Fields(m);
             |ResponseFor(conf, q, vs[0].fs, vs[0].act.unset).head| + |Wanted(conf, q, vs[0].fs)|
             <= Rooms(conf, vs) + v.act.room
    ensures var q := Fields(m);
            var r := ResponseFor(conf, q, vs[0].fs, vs[0].act.unset);
            AnsweredBy(rs, v, m,
              r.head + PageSent(m.verb == "HEAD", r.body.None?, r.head, Wanted(conf, q, vs[0].fs), Rooms(conf, vs)))
    ensures v.b.state == if AsksToClose(m.headers) then Closing else Reading
  {
    hide Print, Fields, ResponseFor, Servable, Wanted, VisitRight, Parsed, Chunks, Unfinished, Rooms, SentAfter, Total, WellFormed;
    var q := Fields(m);
    var r := ResponseFor(conf, q, vs[0].fs, vs[0].act.unset);
    NoRangeHeader(m);
    FieldsMeaning(m);
    ParsePrinted(Print(m), m);
    ChainParts(conf, rs, vs + [v]);
    StartsAlone(conf, rs[0]);
    assert Print(m)[..0] == [] && Print(m)[0..] == Print(m);
    RequestArrives(conf, rs, m, 0);
    assert (vs + [v])[0] == vs[0];
    PayloadWanted(conf, q, vs[0].fs, vs[0].act.unset);
    TotalOf(IsHeadRequest(q), r);
    LastWritable(conf, vs, v);
    LongAnswer(conf, vs, v, r);
    PageSentText(IsHeadRequest(q), r, Rooms(conf, vs));
  }

  lemma ChainParts(conf: Config, a: seq<Visit>, b: seq<Visit>)
    requires Chained(conf, a + b) && a != [] && b != []
    ensures Chained(conf, a) && Chained(conf, b) && b[0].a == a[|a| - 1].b
    ensures VisitRight(conf, a[0])
  {
    hide VisitRight;
    var all := a + b;
    assert forall i | 0 <= i < |a| :: all[i] == a[i];
    assert forall i | 0 <= i < |b| :: all[|a| + i] == b[i];
    assert all[|a| - 1] == a[|a| - 1] && all[|a|] == b[0];
  }

  lemma TotalOf(isHead: bool, r: Response)
    ensures Total(isHead, r) <= |r.head| + |Payload(r)|
  {
  }

  /** As the response is not over, the connection is still writing at the last visit. */
  lemma LastWritable(conf: Config, vs: seq<Visit>, v: Visit)
    requires Chained(conf, vs + [v]) && vs != [] && Unfinished(conf, vs) && CanAnswer(vs[0].a) && vs[0].a.res.None?
    requires vs[0].a.state == WritingHeaders && vs[0].revents.pollout && !TimedOut(conf, vs[0])
    requires v.revents.pollout && !TimedOut(conf, v)
    requires var r := ResponseFor(conf, vs[0].a.req.value.fields, vs[0].fs, vs[0].act.unset);
             IsHeadRequest(vs[0].a.req.value.fields) || Whole(r)
    ensures WriteReady(conf, vs[0]) && !Idle(conf, vs[0]) && WriteReady(conf, v)
  {
    hide VisitRight, ResponseFor, Whole, Unfinished, Rooms;
    LastOfChain(conf, vs, v);
    SentSoFar(conf, vs, ResponseFor(conf, vs[0].a.req.value.fields, vs[0].fs, vs[0].act.unset));
  }

  lemma PageSentText(isHead: bool, r: Response, n: nat)
    ensures SentAfter(isHead, r, n) == r.head + PageSent(isHead, r.body.None?, r.head, Payload(r), n)
  {
    assert r.head + [] == r.head;
  }

  // ----- When a response is given up -----

  /** A response of which no file is sent: a page, or a head alone. */
  predicate NoFile(isHead: bool, r: Response) {
    isHead || r.body.Some?
  }

  /** A calm visit that does not end such a response takes one of its tries. */
  lemma TakesOneTry(conf: Config, v: Visit)
    requires CalmlyReady(conf, v) && !EndsResponse(v)
    requires var r := Current(conf, v.a, v.fs, v.act.unset);
             NoFile(IsHeadRequest(v.a.req.value.fields), r) && (IsHeadRequest(v.a.req.value.fields) || Whole(r))
    ensures v.a.writeTries == v.b.writeTries + 1
  {
    hide ResponseFor, Whole, Rest, Flat, Sent, OnlyHead, HistoryRight, FuelOf, RecordOf, CalmStep;
  }

  /** Five tries, and one less for each visit that could write. */
  lemma {:induction false} TriesLeft(conf: Config, vs: seq<Visit>, r: Response)
    requires Chained(conf, vs) && vs != [] && Unfinished(conf, vs)
    requires WriteReady(conf, vs[0]) && CanAnswer(vs[0].a) && vs[0].a.res.None? && !Idle(conf, vs[0])
    requires r == ResponseFor(conf, vs[0].a.req.value.fields, vs[0].fs, vs[0].act.unset)
    requires IsHeadRequest(vs[0].a.req.value.fields) || (r.body.Some? && Whole(r))
    ensures vs[|vs| - 1].b.writeTries == 5 - ReadyCount(conf, vs)
    decreases |vs|
  {
    hide VisitRight, Whole, ResponseFor, SameResponse, EndsResponse, Rooms;
    var n := |vs| - 1;
    assert VisitRight(conf, vs[n]) && !EndsResponse(vs[n]);
    if n == 0 {
      NoTail(conf, vs[0]);
      TakesOneTry(conf, vs[0]);
      assert ReadyCount(conf, vs[..0]) == 0;
    } else {
      assert vs[n].a == vs[n - 1].b && vs[..n][n - 1] == vs[n - 1];
      ChainWithout(conf, vs);
      SentSoFar(conf, vs[..n], r);
      TriesLeft(conf, vs[..n], r);
      if Idle(conf, vs[n]) {
        IdleStays(conf, vs[n]);
      } else {
        SameWhole(vs[n].a.res.value, r);
        TakesOneTry(conf, vs[n]);
      }
    }
  }

  /** A calm visit without room for the rest of a page, or of a head alone: as long as
      there is a try left the connection goes on with it; without one it is closed. */
  lemma WithoutRoom(conf: Config, v: Visit)
    requires CalmlyReady(conf, v)
    requires var isHead, r := IsHeadRequest(v.a.req.value.fields), Current(conf, v.a, v.fs, v.act.unset);
             NoFile(isHead, r) && (isHead || Whole(r)) && v.act.room < Rest(isHead, r)
    ensures v.a.writeTries > 0 ==> !EndsResponse(v)
    ensures v.a.writeTries == 0 ==> v.b.state == Closing && v.b.log == v.a.log
  {
    hide ResponseFor, Whole, Flat, Sent, OnlyHead, HistoryRight, FuelOf;
  }

  /** What the next calm visit makes of a page, or of the answer to HEAD, by the room it
      finds and the visits before: with room for the rest the exchange is in the history,
      complete; else the connection goes on, but closes it unanswered at the sixth visit
      that could write. So such an answer is delivered exactly if the first six of these
      visits have room for it. */
  lemma PageExactly(conf: Config, vs: seq<Visit>, v: Visit, r: Response)
    requires Chained(conf, vs + [v]) && vs != [] && Unfinished(conf, vs)
    requires WriteReady(conf, vs[0]) && CanAnswer(vs[0].a) && vs[0].a.res.None? && !Idle(conf, vs[0])
    requires r == ResponseFor(conf, vs[0].a.req.value.fields, vs[0].fs, vs[0].act.unset)
    requires IsHeadRequest(vs[0].a.req.value.fields) || (r.body.Some? && Whole(r))
    requires WriteReady(conf, v) && v.act.calm && vs[0].a.req.value.fields == Parsed(vs[0].a.req.value.buf)
    ensures var a, b, isHead := vs[0].a, v.b, IsHeadRequest(vs[0].a.req.value.fields);
            if Total(isHead, r) <= Rooms(conf, vs) + v.act.room then
              && |b.log| == |a.log| + 1 && b.log[..|a.log|] == a.log
              && b.log[|a.log|].buf == a.req.value.buf
              && b.log[|a.log|].text == r.head + (if isHead then [] else r.body.value)
            else if ReadyCount(conf, vs) < 5 then !EndsResponse(v)
            else b.state == Closing && b.log == a.log
  {
    hide Parsed, Chained, VisitRight, Whole, ResponseFor, Unfinished, Total, Rooms, ReadyCount, SameResponse, EndsResponse,
      Rest, Underway;
    LastOfChain(conf, vs, v);
    SentSoFar(conf, vs, r);
    var isHead := IsHeadRequest(vs[0].a.req.value.fields);
    if Total(isHead, r) <= Rooms(conf, vs) + v.act.room {
      LongAnswer(conf, vs, v, r);
      assert r.head + [] == r.head;
    } else {
      TriesLeft(conf, vs, r);
      StillUnderway(conf, v);
      TooLittleRoom(isHead, v.a, r, v.act.room);
      WithoutRoom(conf, v);
    }
  }

  lemma TooLittleRoom(isHead: bool, a: Snap, r: Response, room: nat)
    requires a.res.Some? && Underway(a) && (a.state == WritingHeaders || a.state == WritingBody)
    requires isHead == IsHeadRequest(a.req.value.fields) && NoFile(isHead, r) && (isHead || Whole(r))
    requires SameResponse(a.res.value, r) && |a.tail| + room < Total(isHead, r)
    ensures NoFile(isHead, a.res.value) && (isHead || Whole(a.res.value)) && room < Rest(isHead, a.res.value)
  {
    hide Whole, SameResponse, Rest, Underway, Payload;
    SameWhole(a.res.value, r);
    LeftOver(a);
  }
}
