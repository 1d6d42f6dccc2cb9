/** Requests that break off or go wrong behind the request line: what the parser
    keeps of them, and which of them are answered. */
module BrokenRequests {
  import opened Ascii
  import opened Text
  import opened Range
  import opened Grammar
  import opened RequestParser
  import opened ParserExactness
  import opened Answers

  /** Header lines, without the blank line that ends a message. */
  function PrintLines(hs: seq<Header>): string {
    if hs == [] then [] else PrintHeader(hs[0]) + PrintLines(hs[1..])
  }

  /** The request line of a message and its header lines. */
  function PrintStart(m: Message): string {
    PrintLine(m) + PrintLines(m.headers)
  }

  /** A header line with something behind it. */
  ghost predicate HeaderLineAt(b: string, r: nat) {
    exists h :: WellFormedHeader(h) && Occurs(b, r, PrintHeader(h)) && r + |PrintHeader(h)| < |b|
  }

  /** Text that is neither a header line nor a blank line. */
  ghost predicate BrokenAt(b: string, r: nat) {
    r < |b| && !CrlfAt(b, r) && !HeaderLineAt(b, r)
  }

  // ----- The header loop -----

  /** The loop takes another turn. */
  predicate GoesOn(b: string, r: nat)
    requires r < |b|
  {
    var j := ScanEnd(b, IsNameChar, r);
    && !CrlfAt(b, r) && j + 2 < |b| && b[j] == ':' && b[j + 1] == ' '
    && ValueEnd(b, j + 2) + 2 < |b| && CrlfAt(b, ValueEnd(b, j + 2))
  }

  lemma GoesOnExactly(b: string, r: nat)
    requires r < |b|
    ensures HeaderLineAt(b, r) <==> GoesOn(b, r)
  {
    if GoesOn(b, r) {
      var j := ScanEnd(b, IsNameChar, r);
      HeaderSound(b, r, j, ValueEnd(b, j + 2));
    }
    forall h | WellFormedHeader(h) && Occurs(b, r, PrintHeader(h)) && r + |PrintHeader(h)| < |b|
      ensures GoesOn(b, r)
    {
      HeaderParts(b, r, h);
      HeaderAt(b, r, h);
    }
  }

  lemma BrokenLoop(b: string, r: nat, req: Request)
    requires BrokenAt(b, r)
    ensures var q := ParsedHeaders(b, r, req); q.error.Some? && q == req.(error := q.error)
  {
    GoesOnExactly(b, r);
    hide HeaderLineAt, Store;
  }

  lemma LinesParts(b: string, r: nat, hs: seq<Header>)
    requires hs != []
    ensures Occurs(b, r, PrintLines(hs)) <==>
      Occurs(b, r, PrintHeader(hs[0])) && Occurs(b, r + |PrintHeader(hs[0])|, PrintLines(hs[1..]))
  {
    OccursConcat(b, r, PrintHeader(hs[0]), PrintLines(hs[1..]));
  }

  lemma {:induction false} LinesRead(b: string, r: nat, hs: seq<Header>, req: Request)
    requires Occurs(b, r, PrintLines(hs)) && r + |PrintLines(hs)| < |b|
    requires forall i | 0 <= i < |hs| :: WellFormedHeader(hs[i])
    ensures ParsedHeaders(b, r, req) == ParsedHeaders(b, r + |PrintLines(hs)|, StoreAll(req, hs))
    decreases |hs|
  {
    hide Store, PrintHeader, Occurs, ParsedHeaders;
    if hs != [] {
      LinesParts(b, r, hs);
      HeaderStep(b, r, hs[0], req);
      LinesRead(b, r + |PrintHeader(hs[0])|, hs[1..], Store(req, hs[0]));
    }
  }

  lemma StartParts(b: string, m: Message)
    ensures PrintStart(m) <= b <==>
            Occurs(b, 0, PrintLine(m)) && Occurs(b, |PrintLine(m)|, PrintLines(m.headers))
    ensures |PrintStart(m)| == |PrintLine(m)| + |PrintLines(m.headers)|
  {
    OccursPrefix(b, PrintStart(m));
    OccursConcat(b, 0, PrintLine(m), PrintLines(m.headers));
  }

  // ----- Requests that go wrong -----

  /** Some header is named Host, in any letter case. */
  ghost predicate HasHost(hs: seq<Header>) {
    exists i :: 0 <= i < |hs| && Lower(hs[i].name) == "host"
  }

  lemma {:induction false} HostIsLast(hs: seq<Header>)
    ensures LastValue(hs, "Host").Some? <==> HasHost(hs)
  {
    assert Lower("Host") == "host";
    if hs != [] {
      var init := hs[..|hs| - 1];
      HostIsLast(init);
      if HasHost(init) {
        var i :| 0 <= i < |init| && Lower(init[i].name) == "host";
        assert Lower(hs[i].name) == "host";
      }
      if HasHost(hs) && Lower(hs[|hs| - 1].name) != "host" {
        var i :| 0 <= i < |hs| && Lower(hs[i].name) == "host";
        assert Lower(init[i].name) == "host";
      }
    }
  }

  /** A request line and header lines, and then something that is no line of a request:
      the parse fails, and keeps all it has read. */
  lemma BrokenKept(b: string, m: Message)
    requires WellFormed(m) && PrintStart(m) <= b && BrokenAt(b, |PrintStart(m)|)
    ensures Parsed(b).error.Some? && Parsed(b) == Fields(m).(error := Parsed(b).error)
  {
    hide PrintLine, PrintLines, PrintStart, Parsed, ParsedHeaders, HeaderLineAt;
    StartParts(b, m);
    LineComplete(b, m);
    LinesRead(b, |PrintLine(m)|, m.headers, LineFields(m));
    BrokenLoop(b, |PrintStart(m)|, Fields(m));
  }

  /** So it is answered exactly if a Host header was among the lines. */
  lemma BrokenAnswered(b: string, m: Message)
    requires WellFormed(m) && PrintStart(m) <= b && BrokenAt(b, |PrintStart(m)|)
    ensures Essential(Parsed(b)) <==> HasHost(m.headers)
  {
    hide PrintStart, Parsed, BrokenAt, Fields;
    BrokenKept(b, m);
    FieldsMeaning(m);
    HostIsLast(m.headers);
  }

  // ----- Every request -----

  /** The header lines at r, as far as they go. */
  lemma {:induction false} LinesGoOn(b: string, r: nat) returns (hs: seq<Header>)
    requires r < |b|
    ensures forall i | 0 <= i < |hs| :: WellFormedHeader(hs[i])
    ensures Occurs(b, r, PrintLines(hs)) && r + |PrintLines(hs)| < |b|
    ensures CrlfAt(b, r + |PrintLines(hs)|) || BrokenAt(b, r + |PrintLines(hs)|)
    decreases |b| - r
  {
    hide PrintHeader, CrlfFree;
    GoesOnExactly(b, r);
    if GoesOn(b, r) {
      var j := ScanEnd(b, IsNameChar, r);
      var v := ValueEnd(b, j + 2);
      var h := Header(b[r..j], b[j + 2..v]);
      HeaderSound(b, r, j, v);
      var rest := LinesGoOn(b, v + 2);
      hs := [h] + rest;
      assert hs[1..] == rest;
      LinesParts(b, r, hs);
    } else {
      hs := [];
      assert b[r..r] == [];
    }
  }

  /** A message is its start and a blank line. */
  lemma {:induction false} LinesAndBlank(hs: seq<Header>)
    ensures PrintHeaders(hs) == PrintLines(hs) + CRLF
    decreases |hs|
  {
    if hs != [] {
      LinesAndBlank(hs[1..]);
      assert PrintHeader(hs[0]) + (PrintLines(hs[1..]) + CRLF) == PrintHeader(hs[0]) + PrintLines(hs[1..]) + CRLF;
    }
  }

  lemma WholeStart(b: string, m: Message)
    ensures Print(m) <= b <==> PrintStart(m) <= b && CrlfAt(b, |PrintStart(m)|)
  {
    hide PrintLine, PrintLines, PrintHeaders;
    LinesAndBlank(m.headers);
    assert Print(m) == PrintStart(m) + CRLF;
    OccursPrefix(b, Print(m));
    OccursPrefix(b, PrintStart(m));
    OccursConcat(b, 0, PrintStart(m), CRLF);
    OccursPair(b, |PrintStart(m)|, CRLF);
  }

  lemma VersionLine(b: string, l: nat, req: Request) returns (version: string)
    requires l < |b| && req.host.None? && ParsedVersion(b, l, req).host.Some?
    ensures CanHandle(version) && Occurs(b, l, version) && Occurs(b, l + |version|, CRLF) && l + |version| + 2 < |b|
  {
    hide ParsedHeaders;
    var d := ScanEnd(b, IsDigit, l);
    var r := ScanEnd(b, IsDigit, d + 1);
    version := b[l..r];
    NumberHasNoNul(b, l, d, r);
    OccursPair(b, r, CRLF);
  }

  lemma PathLine(b: string, l: nat, req: Request) returns (j: nat, path: string, version: string)
    requires l < |b| && req.host.None? && ParsedPath(b, l, req).host.Some?
    ensures 0 < |path| && (forall i | 0 <= i < |path| :: IsPathChar(path[i])) && CanHandle(version)
    ensures j == l + |path| && j + 8 + |version| < |b|
    ensures Occurs(b, l, path) && Occurs(b, j, " HTTP/") && Occurs(b, j + 6, version)
    ensures Occurs(b, j + 6 + |version|, CRLF)
  {
    hide ParsedVersion;
    j := ScanEnd(b, IsPathChar, l);
    path := b[l..j];
    version := VersionLine(b, j + 6, req.(path := Some(CStr(path))));
    ProtocolAt(b, j);
  }

  /** A host is only ever read behind a request line. */
  lemma HostLine(b: string) returns (m: Message)
    requires Parsed(b).host.Some?
    ensures WellFormed(m) && m.headers == [] && Occurs(b, 0, PrintLine(m)) && |PrintLine(m)| < |b|
  {
    hide ParsedPath, PrintLine;
    var i := ScanEnd(b, IsUpper, 0);
    var verb := b[..i];
    var j, path, version := PathLine(b, i + 1, BLANK.(verb := Some(CStr(verb))));
    m := Message(verb, path, version, []);
    OccursOne(b, i, " ");
    LineParts(b, m);
  }

  /** A request line and header lines that are followed by a blank line, or, with a Host
      header among them, by something that is no line of a request. */
  ghost predicate Answerable(b: string, m: Message) {
    && WellFormed(m) && PrintStart(m) <= b && |PrintStart(m)| < |b|
    && (CrlfAt(b, |PrintStart(m)|) || (BrokenAt(b, |PrintStart(m)|) && HasHost(m.headers)))
  }

  /** The bytes that are answered, among all there are. */
  lemma AnsweredExactly(b: string)
    ensures Essential(Parsed(b)) <==> exists m :: Answerable(b, m)
  {
    hide Parsed, PrintStart, PrintLine, Print, BrokenAt, HasHost, WellFormed;
    if Parsed(b).error.None? {
      var m := ParseSound(b);
      WholeStart(b, m);
      assert Answerable(b, m);
    } else if Parsed(b).host.Some? {
      var m := HostGoesOn(b);
    }
    forall m | Answerable(b, m) ensures Essential(Parsed(b)) {
      if CrlfAt(b, |PrintStart(m)|) {
        WholeStart(b, m);
        ParsePrinted(b, m);
        FieldsMeaning(m);
      } else {
        BrokenAnswered(b, m);
      }
    }
  }

  lemma HostGoesOn(b: string) returns (m: Message)
    requires Parsed(b).error.Some? && Parsed(b).host.Some?
    ensures Answerable(b, m)
  {
    hide Parsed, PrintLine, Print, BrokenAt, HasHost, PrintLines;
    ParseSetsEssentials(b);
    var line := HostLine(b);
    var hs := LinesGoOn(b, |PrintLine(line)|);
    m := line.(headers := hs);
    SameLine(line, hs);
    StartParts(b, m);
    if CrlfAt(b, |PrintStart(m)|) {
      WholeStart(b, m);
    } else {
      BrokenAnswered(b, m);
    }
  }

  lemma SameLine(m: Message, hs: seq<Header>)
    ensures PrintLine(m.(headers := hs)) == PrintLine(m)
  {
  }
}
