/** Reading a request off a socket (is_http_end in http.c, read_request in
    mimino.c) does not depend on how the network cuts it into pieces. */
module Reader {
  import opened Ascii
  import opened Text
  import opened Grammar
  import opened RequestParser
  import opened ParserExactness

  const MAX_REQUEST_SIZE := 4096
  const MAX_TRIES := 5

  /** is_http_end: CRLF CRLF at the end, or just before one trailing NUL. */
  predicate IsHttpEnd(b: string) {
    var n := |b|;
    if n < 4 then false
    else if b[n - 1] == NUL then n >= 5 && CrlfAt(b, n - 5) && CrlfAt(b, n - 3)
    else CrlfAt(b, n - 4) && CrlfAt(b, n - 2)
  }

  /** What recv answers: bytes (none once the peer has shut down), one of
      EWOULDBLOCK, EAGAIN and EINTR, or another error. */
  datatype RecvResult = Data(bytes: string) | Blocked | Broken

  datatype ReadStatus = PartialRead | CompleteRead | ClientClosed | FatalRead | TooBig

  /** The request buffer and the tries left. */
  datatype ReadState = ReadState(buf: string, tries: nat)

  const FRESH := ReadState([], MAX_TRIES)

  /** recv never delivers more than the free space it is offered. */
  predicate Fits(s: ReadState, ev: RecvResult) {
    ev.Data? ==> |s.buf| + |ev.bytes| <= MAX_REQUEST_SIZE
  }

  /** One call of read_request. */
  function ReadStep(s: ReadState, ev: RecvResult): (ReadState, ReadStatus) {
    match ev
    case Blocked =>
      if s.tries == 0 then (s, FatalRead) else (s.(tries := s.tries - 1), PartialRead)
    case Broken => (s, PartialRead)
    case Data(bytes) =>
      var s' := s.(buf := s.buf + bytes);
      if IsHttpEnd(s'.buf) then (s', CompleteRead)
      else if bytes == [] then (s', if s'.buf == [] then ClientClosed else CompleteRead)
      else if |s'.buf| == MAX_REQUEST_SIZE then (s', TooBig)
      else (s', PartialRead)
  }

  /** Calls of read_request, one per answer of recv, until one is not partial. */
  function ReadRun(s: ReadState, evs: seq<RecvResult>): (ReadState, ReadStatus)
    decreases |evs|
  {
    if evs == [] then (s, PartialRead)
    else
      var (s', status) := ReadStep(s, evs[0]);
      if status == PartialRead then ReadRun(s', evs[1..]) else (s', status)
  }

  /** A read that stays partial leaves free space: recv is never offered none. */
  lemma PartialLeavesSpace(s: ReadState, ev: RecvResult)
    requires |s.buf| < MAX_REQUEST_SIZE && Fits(s, ev)
    ensures var (s', status) := ReadStep(s, ev);
            |s'.buf| <= MAX_REQUEST_SIZE
            && (status == PartialRead ==> |s'.buf| < MAX_REQUEST_SIZE)
            && (status == CompleteRead ==> 0 < |s'.buf|)
            && s.tries - 1 <= s'.tries <= s.tries
  {
  }

  // ----- Where CRLF CRLF can stand in a printed request -----

  lemma {:induction false} BlankLineIsLast(b: string, r: nat, hs: seq<Header>, q: nat)
    requires Occurs(b, r, PrintHeaders(hs)) && r + |PrintHeaders(hs)| == |b|
    requires forall i | 0 <= i < |hs| :: WellFormedHeader(hs[i])
    requires r <= q && CrlfAt(b, q) && CrlfAt(b, q + 2)
    ensures q + 4 == |b|
    decreases |hs|
  {
    hide Occurs, PrintHeader;
    if hs == [] {
      OccursPair(b, r, CRLF);
    } else {
      HeadersParts(b, r, hs);
      HeaderAt(b, r, hs[0]);
      HeaderParts(b, r, hs[0]);
      var e := r + |PrintHeader(hs[0])|;
      if q < e {
        OnlyCrlfOfHeader(b, r, hs[0], q);
        NoHeaderIfCrlf(b, e, hs[1..]);
      } else {
        BlankLineIsLast(b, e, hs[1..], q);
      }
    }
  }

  lemma OnlyCrlfOfHeader(b: string, r: nat, h: Header, q: nat)
    requires WellFormedHeader(h) && Occurs(b, r, PrintHeader(h))
    requires r <= q < r + |PrintHeader(h)| && CrlfAt(b, q)
    ensures q + 2 == r + |PrintHeader(h)|
  {
    HeaderParts(b, r, h);
    HeaderAt(b, r, h);
    hide Occurs, PrintHeader;
    var j := r + |h.name|;
    assert q < j ==> IsNameChar(b[q]);
    assert q >= j + 2 ==> q >= ValueEnd(b, j + 2);
  }

  lemma NoHeaderIfCrlf(b: string, r: nat, hs: seq<Header>)
    requires Occurs(b, r, PrintHeaders(hs)) && CrlfAt(b, r)
    requires forall i | 0 <= i < |hs| :: WellFormedHeader(hs[i])
    ensures |PrintHeaders(hs)| == 2
  {
    hide Occurs;
    if hs != [] {
      HeadersParts(b, r, hs);
      NotCrlf(b, r, hs[0]);
    }
  }

  lemma OnlyCrlfOfLine(b: string, m: Message, q: nat)
    requires WellFormed(m) && Occurs(b, 0, PrintLine(m)) && |PrintLine(m)| < |b|
    requires q < |PrintLine(m)| && CrlfAt(b, q)
    ensures q + 2 == |PrintLine(m)|
  {
    hide PrintLine, CanHandle, Occurs;
    LineParts(b, m);
    HandledLength(m.version);
    NoCrIn(b, 0, m.verb, q);
    NoCrIn(b, |m.verb|, " ", q);
    NoCrIn(b, |m.verb| + 1, m.path, q);
    NoCrIn(b, |m.verb| + 1 + |m.path|, " HTTP/", q);
    HandledHasNoCr(m.version);
    NoCrIn(b, |m.verb| + |m.path| + 7, m.version, q);
    OccursPair(b, |m.verb| + |m.path| + 10, CRLF);
  }

  lemma HandledHasNoCr(version: string)
    requires CanHandle(version)
    ensures '\r' !in version
  {
  }

  lemma NoCrIn(b: string, i: nat, s: string, q: nat)
    requires Occurs(b, i, s) && '\r' !in s
    ensures i <= q < i + |s| ==> b[q] != '\r'
  {
    if i <= q < i + |s| {
      assert b[q] == s[q - i];
    }
  }

  /** No proper prefix of a printed request looks finished; the whole does. */
  lemma EndExactly(m: Message, n: nat)
    requires WellFormed(m) && n <= |Print(m)|
    ensures IsHttpEnd(Print(m)[..n]) <==> n == |Print(m)|
  {
    if n < |Print(m)| {
      NotYetEnd(m, n);
    } else {
      assert Print(m)[..n] == Print(m);
      EndReached(m);
    }
  }

  lemma NotYetEnd(m: Message, n: nat)
    requires WellFormed(m) && n < |Print(m)|
    ensures !IsHttpEnd(Print(m)[..n])
  {
    hide Print, WellFormed;
    var b := Print(m);
    if n >= 4 {
      PrefixCrlf(b, n, n - 4);
      if CrlfAt(b, n - 4) && CrlfAt(b, n - 2) { BlankLineAnywhere(m, n - 4); }
    }
    if n >= 5 {
      PrefixCrlf(b, n, n - 5);
      if CrlfAt(b, n - 5) && CrlfAt(b, n - 3) { BlankLineAnywhere(m, n - 5); }
    }
  }

  lemma EndReached(m: Message)
    requires WellFormed(m)
    ensures IsHttpEnd(Print(m))
  {
    hide PrintLine, PrintHeaders;
    var b := Print(m);
    PrintParts(b, m);
    EndsBlank(b, |PrintLine(m)|, m.headers);
    LineEndsCrlf(b, m);
  }

  lemma PrefixCrlf(b: string, n: nat, q: nat)
    requires q + 4 <= n <= |b|
    ensures CrlfAt(b[..n], q) == CrlfAt(b, q) && CrlfAt(b[..n], q + 2) == CrlfAt(b, q + 2)
  {
  }

  lemma BlankLineAnywhere(m: Message, q: nat)
    requires WellFormed(m)
    requires CrlfAt(Print(m), q) && CrlfAt(Print(m), q + 2)
    ensures q + 4 == |Print(m)|
  {
    hide PrintLine, PrintHeaders;
    var b := Print(m);
    PrintParts(b, m);
    var r := |PrintLine(m)|;
    if q < r {
      OnlyCrlfOfLine(b, m, q);
      NoHeaderIfCrlf(b, r, m.headers);
    } else {
      BlankLineIsLast(b, r, m.headers, q);
    }
  }

  lemma LineEndsCrlf(b: string, m: Message)
    requires Occurs(b, 0, PrintLine(m))
    ensures |PrintLine(m)| >= 2 && CrlfAt(b, |PrintLine(m)| - 2)
  {
    hide PrintLine;
    LineParts(b, m);
    OccursPair(b, |PrintLine(m)| - 2, CRLF);
  }

  /** Printed headers, after a CRLF, end in CRLF CRLF. */
  lemma {:induction false} EndsBlank(b: string, r: nat, hs: seq<Header>)
    requires Occurs(b, r, PrintHeaders(hs)) && r + |PrintHeaders(hs)| == |b|
    ensures |b| >= r + 2 && CrlfAt(b, |b| - 2)
    ensures r >= 2 && CrlfAt(b, r - 2) ==> CrlfAt(b, |b| - 4)
    decreases |hs|
  {
    hide Occurs, PrintHeader;
    if hs == [] {
      OccursPair(b, r, CRLF);
    } else {
      HeadersParts(b, r, hs);
      HeaderParts(b, r, hs[0]);
      var e := r + |PrintHeader(hs[0])|;
      OccursPair(b, e - 2, CRLF);
      EndsBlank(b, e, hs[1..]);
    }
  }

  // ----- Chunking independence -----

  function Received(evs: seq<RecvResult>): string {
    if evs == [] then []
    else (if evs[0].Data? then evs[0].bytes else []) + Received(evs[1..])
  }

  function BlockedReads(evs: seq<RecvResult>): nat {
    if evs == [] then 0
    else (if evs[0].Blocked? then 1 else 0) + BlockedReads(evs[1..])
  }

  /** Non-empty pieces, the last answer being one of them. */
  ghost predicate Chunks(evs: seq<RecvResult>) {
    && evs != [] && evs[|evs| - 1].Data?
    && forall i | 0 <= i < |evs| :: evs[i].Data? ==> evs[i].bytes != []
  }

  lemma {:induction false} ReadRunCompletes(m: Message, got: nat, tries: nat, evs: seq<RecvResult>)
    requires WellFormed(m) && |Print(m)| <= MAX_REQUEST_SIZE
    requires Chunks(evs) && got <= |Print(m)| && Received(evs) == Print(m)[got..]
    ensures BlockedReads(evs) <= tries ==>
            ReadRun(ReadState(Print(m)[..got], tries), evs)
            == (ReadState(Print(m), tries - BlockedReads(evs)), CompleteRead)
    ensures BlockedReads(evs) > tries ==>
            ReadRun(ReadState(Print(m)[..got], tries), evs).1 == FatalRead
    decreases |evs|
  {
    hide Print, IsHttpEnd;
    var b, s := Print(m), ReadState(Print(m)[..got], tries);
    var rest := evs[1..];
    if |evs| > 1 {
      assert rest[|rest| - 1] == evs[|evs| - 1];
      assert Chunks(rest);
    }
    match evs[0]
    case Data(bytes) =>
      var got' := got + |bytes|;
      assert bytes + Received(rest) == b[got..];
      SplitTail(b, got, bytes, Received(rest));
      EndExactly(m, got');
      if |evs| == 1 {
        assert b[..got'] == b;
      } else {
        ReceivedSomething(rest);
        ReadRunCompletes(m, got', tries, rest);
      }
    case Blocked =>
      if tries > 0 { ReadRunCompletes(m, got, tries - 1, rest); }
    case Broken =>
      ReadRunCompletes(m, got, tries, rest);
  }

  lemma SplitTail(b: string, got: nat, s: string, t: string)
    requires got <= |b| && b[got..] == s + t
    ensures got + |s| + |t| == |b|
    ensures b[..got] + s == b[..got + |s|] && b[got + |s|..] == t
  {
    assert b == b[..got] + b[got..];
    assert s == b[got..][..|s|] && t == b[got..][|s|..];
  }

  lemma {:induction false} ReceivedSomething(evs: seq<RecvResult>)
    requires Chunks(evs)
    ensures Received(evs) != []
    decreases |evs|
  {
    if |evs| > 1 {
      assert evs[1..][|evs| - 2] == evs[|evs| - 1];
      ReceivedSomething(evs[1..]);
    }
  }

  /** However a request is cut into non-empty pieces, with any errors in between,
      the run completes exactly when at most five reads were blocked; it then holds
      exactly the request, which parses back to its fields. */
  lemma {:induction false} ChunkingIndependence(m: Message, evs: seq<RecvResult>)
    requires WellFormed(m) && |Print(m)| <= MAX_REQUEST_SIZE
    requires Chunks(evs) && Received(evs) == Print(m)
    ensures ReadRun(FRESH, evs).1 == CompleteRead <==> BlockedReads(evs) <= MAX_TRIES
    ensures ReadRun(FRESH, evs).1 == CompleteRead ==>
            var s := ReadRun(FRESH, evs).0;
            s.buf == Print(m) && s.tries == MAX_TRIES - BlockedReads(evs) && Parsed(s.buf) == Fields(m)
    ensures BlockedReads(evs) <= MAX_TRIES ==> ReadRun(FRESH, evs[..|evs| - 1]).1 == PartialRead
  {
    hide Print;
    assert Print(m)[..0] == [] && Print(m)[0..] == Print(m);
    ReadRunCompletes(m, 0, MAX_TRIES, evs);
    ParsePrinted(Print(m), m);
    if BlockedReads(evs) <= MAX_TRIES {
      PartialBefore(m, 0, MAX_TRIES, evs);
    }
  }

  /** Nothing ends the run before the last piece has arrived. */
  lemma {:induction false} PartialBefore(m: Message, got: nat, tries: nat, evs: seq<RecvResult>)
    requires WellFormed(m) && |Print(m)| <= MAX_REQUEST_SIZE
    requires Chunks(evs) && got <= |Print(m)| && Received(evs) == Print(m)[got..]
    requires BlockedReads(evs) <= tries
    ensures ReadRun(ReadState(Print(m)[..got], tries), evs[..|evs| - 1]).1 == PartialRead
    decreases |evs|
  {
    hide Print, IsHttpEnd;
    if |evs| > 1 {
      var b, rest := Print(m), evs[1..];
      var init := evs[..|evs| - 1];
      assert init[1..] == rest[..|rest| - 1];
      assert rest[|rest| - 1] == evs[|evs| - 1];
      assert Chunks(rest);
      match evs[0]
      case Data(bytes) =>
        var got' := got + |bytes|;
        assert bytes + Received(rest) == b[got..];
        SplitTail(b, got, bytes, Received(rest));
        EndExactly(m, got');
        ReceivedSomething(rest);
        PartialBefore(m, got', tries, rest);
      case Blocked =>
        PartialBefore(m, got, tries - 1, rest);
      case Broken =>
        PartialBefore(m, got, tries, rest);
    }
  }

  // ----- Reads that end in another way -----

  /** The buffer ends in two CRLFs, or in two CRLFs and a NUL. */
  ghost predicate EndsInBlankLine(b: string) {
    EndsIn(b, "\r\n\r\n") || EndsIn(b, "\r\n\r\n\0")
  }

  ghost predicate EndsIn(b: string, s: string) {
    |s| <= |b| && Occurs(b, |b| - |s|, s)
  }

  lemma HttpEndExactly(b: string)
    ensures IsHttpEnd(b) <==> EndsInBlankLine(b)
  {
    assert "\r\n\r\n" == CRLF + CRLF && "\r\n\r\n\0" == CRLF + CRLF + "\0";
    hide Occurs;
    if |b| >= 4 {
      BlankAt(b, |b| - 4);
    }
    if |b| >= 5 {
      BlankAt(b, |b| - 5);
      OccursConcat(b, |b| - 5, CRLF + CRLF, "\0");
      OccursOne(b, |b| - 1, "\0");
    }
  }

  lemma BlankAt(b: string, i: nat)
    requires i + 4 <= |b|
    ensures Occurs(b, i, CRLF + CRLF) <==> CrlfAt(b, i) && CrlfAt(b, i + 2)
  {
    OccursConcat(b, i, CRLF, CRLF);
    OccursPair(b, i, CRLF);
    OccursPair(b, i + 2, CRLF);
  }

  /** Non-empty pieces, behind none of which the request shows an end; from says what
      had been received before. */
  ghost predicate NoEndShows(from: string, evs: seq<RecvResult>) {
    && (forall i | 0 <= i < |evs| :: evs[i].Data? ==> evs[i].bytes != [])
    && (forall i | 0 < i <= |evs| && evs[i - 1].Data? :: !EndsInBlankLine(from + Received(evs[..i])))
  }

  lemma NoEndStep(from: string, evs: seq<RecvResult>)
    requires NoEndShows(from, evs) && evs != []
    ensures evs[0].Data? ==> evs[0].bytes != [] && !EndsInBlankLine(from + evs[0].bytes)
    ensures NoEndShows(from + (if evs[0].Data? then evs[0].bytes else []), evs[1..])
  {
    hide EndsInBlankLine;
    var x, rest := if evs[0].Data? then evs[0].bytes else [], evs[1..];
    assert evs[..1][0] == evs[0] && evs[..1][1..] == [];
    assert Received(evs[..1]) == x + [] == x;
    forall i | 0 < i <= |rest| && rest[i - 1].Data? ensures !EndsInBlankLine(from + x + Received(rest[..i])) {
      assert evs[..i + 1][0] == evs[0] && evs[..i + 1][1..] == rest[..i];
      assert from + x + Received(rest[..i]) == from + Received(evs[..i + 1]);
      assert evs[i + 1 - 1] == rest[i - 1];
    }
  }

  /** As long as no end shows and there is space, a run of reads only gathers the pieces,
      and gives up at the first blocked read without a try left. */
  lemma {:induction false} Gathers(s: ReadState, evs: seq<RecvResult>, more: seq<RecvResult>)
    requires NoEndShows(s.buf, evs) && |s.buf| + |Received(evs)| < MAX_REQUEST_SIZE
    ensures ReadRun(s, evs + more) ==
            if BlockedReads(evs) <= s.tries
            then ReadRun(ReadState(s.buf + Received(evs), s.tries - BlockedReads(evs)), more)
            else (ReadRun(s, evs + more).0, FatalRead)
    decreases |evs|
  {
    hide IsHttpEnd, EndsInBlankLine;
    if evs == [] {
      assert evs + more == more && s.buf + [] == s.buf;
    } else {
      NoEndStep(s.buf, evs);
      assert (evs + more)[0] == evs[0] && (evs + more)[1..] == evs[1..] + more;
      var x := if evs[0].Data? then evs[0].bytes else [];
      HttpEndExactly(s.buf + x);
      var (s', status) := ReadStep(s, evs[0]);
      assert s.buf + x + Received(evs[1..]) == s.buf + Received(evs);
      assert s.buf + [] == s.buf;
      if status == PartialRead {
        Gathers(s', evs[1..], more);
      }
    }
  }

  lemma {:induction false} NoEndAtLast(from: string, evs: seq<RecvResult>)
    requires NoEndShows(from, evs) && !EndsInBlankLine(from)
    ensures !EndsInBlankLine(from + Received(evs))
    decreases |evs|
  {
    hide EndsInBlankLine, NoEndShows;
    if evs == [] {
      assert from + [] == from;
    } else {
      NoEndStep(from, evs);
      var x := if evs[0].Data? then evs[0].bytes else [];
      assert from + [] == from;
      NoEndAtLast(from + x, evs[1..]);
      assert from + x + Received(evs[1..]) == from + Received(evs);
    }
  }

  lemma NothingEnds()
    ensures !EndsInBlankLine("")
  {
  }

  /** The peer shuts down before an end shows: what it has sent is taken as the request,
      or the connection as closed if that is nothing. */
  lemma ShutDown(evs: seq<RecvResult>)
    requires NoEndShows("", evs) && |Received(evs)| < 4096 && BlockedReads(evs) <= 5
    ensures ReadRun(FRESH, evs + [Data("")]) ==
            (ReadState(Received(evs), 5 - BlockedReads(evs)), if Received(evs) == "" then ClientClosed else CompleteRead)
  {
    hide IsHttpEnd, EndsInBlankLine;
    NothingEnds();
    NoEndAtLast("", evs);
    assert "" + Received(evs) == Received(evs);
    Gathers(FRESH, evs, [Data("")]);
    HttpEndExactly(Received(evs));
    var s := ReadState(Received(evs), 5 - BlockedReads(evs));
    assert FRESH.buf + Received(evs) == Received(evs) && s.buf + "" == s.buf;
    assert ReadRun(s, [Data("")]) == ReadStep(s, Data(""));
  }

  /** 4096 bytes in which no end shows are too many. */
  lemma TooManyBytes(evs: seq<RecvResult>, last: string)
    requires NoEndShows("", evs) && BlockedReads(evs) <= 5 && last != ""
    requires |Received(evs) + last| == 4096 && !EndsInBlankLine(Received(evs) + last)
    ensures ReadRun(FRESH, evs + [Data(last)]) ==
            (ReadState(Received(evs) + last, 5 - BlockedReads(evs)), TooBig)
  {
    hide IsHttpEnd, EndsInBlankLine;
    Gathers(FRESH, evs, [Data(last)]);
    HttpEndExactly(Received(evs) + last);
    var s := ReadState(Received(evs), 5 - BlockedReads(evs));
    assert FRESH.buf + Received(evs) == Received(evs);
    assert ReadRun(s, [Data(last)]) == ReadStep(s, Data(last));
  }

  /** The sixth blocked read is one too many. */
  lemma TooManyTries(evs: seq<RecvResult>)
    requires NoEndShows("", evs) && |Received(evs)| < 4096 && BlockedReads(evs) > 5
    ensures ReadRun(FRESH, evs).1 == FatalRead
  {
    Gathers(FRESH, evs, []);
    assert evs + [] == evs;
  }

  /** An end that shows behind a piece completes the read at once. */
  lemma EndShows(evs: seq<RecvResult>, last: string)
    requires NoEndShows("", evs) && |Received(evs)| < 4096 && BlockedReads(evs) <= 5
    requires EndsInBlankLine(Received(evs) + last)
    ensures ReadRun(FRESH, evs + [Data(last)]) ==
            (ReadState(Received(evs) + last, 5 - BlockedReads(evs)), CompleteRead)
  {
    hide IsHttpEnd, EndsInBlankLine;
    Gathers(FRESH, evs, [Data(last)]);
    HttpEndExactly(Received(evs) + last);
    var s := ReadState(Received(evs), 5 - BlockedReads(evs));
    assert FRESH.buf + Received(evs) == Received(evs);
    assert ReadRun(s, [Data(last)]) == ReadStep(s, Data(last));
  }
}
