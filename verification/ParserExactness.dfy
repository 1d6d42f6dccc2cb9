/** The parser accepts exactly the buffers that start with a message of the
    grammar, and then holds the fields of the only such message. */
module ParserExactness {
  import opened Ascii
  import opened Text
  import opened Range
  import opened Grammar
  import opened RequestParser

  // ----- One header line in a buffer -----

  /** A printed header stands at r exactly when its four parts stand in a row. */
  lemma HeaderParts(b: string, r: nat, h: Header)
    ensures Occurs(b, r, PrintHeader(h)) <==>
      var j := r + |h.name|;
      var v := j + 2 + |h.value|;
      Occurs(b, r, h.name) && Occurs(b, j, ": ") && Occurs(b, j + 2, h.value) && Occurs(b, v, CRLF)
    ensures |PrintHeader(h)| == |h.name| + |h.value| + 4
  {
    OccursConcat(b, r, h.name, ": ");
    OccursConcat(b, r, h.name + ": ", h.value);
    OccursConcat(b, r, h.name + ": " + h.value, CRLF);
  }

  /** The scans that read a printed header stop where its parts end. */
  lemma HeaderAt(b: string, r: nat, h: Header)
    requires WellFormedHeader(h) && Occurs(b, r, PrintHeader(h))
    ensures var j := r + |h.name|;
            var v := j + 2 + |h.value|;
            !CrlfAt(b, r) && v + 2 <= |b|
            && ScanEnd(b, IsNameChar, r) == j && b[j] == ':' && b[j + 1] == ' '
            && ValueEnd(b, j + 2) == v && CrlfAt(b, v)
            && b[r..j] == h.name && b[j + 2..v] == h.value
  {
    hide PrintHeader;
    HeaderParts(b, r, h);
    var j := r + |h.name|;
    var v := j + 2 + |h.value|;
    OccursPair(b, j, ": ");
    OccursPair(b, v, CRLF);
    NameAt(b, r, h.name);
    ValueAt(b, j + 2, h.value);
  }

  lemma NameAt(b: string, r: nat, name: string)
    requires Occurs(b, r, name) && r + |name| < |b| && b[r + |name|] == ':'
    requires forall i | 0 <= i < |name| :: IsNameChar(name[i])
    ensures ScanEnd(b, IsNameChar, r) == r + |name| && b[r] != '\r'
  {
    forall k | r <= k < r + |name| ensures IsNameChar(b[k]) {
      assert b[k] == name[k - r];
    }
    ScanStops(b, IsNameChar, r, r + |name|);
  }

  lemma ValueAt(b: string, i: nat, value: string)
    requires Occurs(b, i, value) && i + |value| < |b| && CrlfAt(b, i + |value|)
    requires CrlfFree(value) && NUL !in value
    ensures ValueEnd(b, i) == i + |value|
  {
    forall k | i <= k < i + |value| ensures !CrlfAt(b, k) && b[k] != NUL {
      assert b[k] == value[k - i];
      if k + 1 < i + |value| { assert b[k + 1] == value[k + 1 - i]; }
    }
    ValueStops(b, i, i + |value|);
  }

  lemma ValueStops(b: string, i: nat, v: nat)
    requires i <= v < |b| && CrlfAt(b, v)
    requires forall k | i <= k < v :: !CrlfAt(b, k) && b[k] != NUL
    ensures ValueEnd(b, i) == v
  {
  }

  lemma HeadersParts(b: string, r: nat, hs: seq<Header>)
    requires hs != []
    ensures Occurs(b, r, PrintHeaders(hs)) <==>
      Occurs(b, r, PrintHeader(hs[0])) && Occurs(b, r + |PrintHeader(hs[0])|, PrintHeaders(hs[1..]))
  {
    OccursConcat(b, r, PrintHeader(hs[0]), PrintHeaders(hs[1..]));
  }

  // ----- Completeness -----

  lemma {:induction false} HeadersComplete(b: string, r: nat, hs: seq<Header>, req: Request)
    requires r < |b| && Occurs(b, r, PrintHeaders(hs))
    requires forall i | 0 <= i < |hs| :: WellFormedHeader(hs[i])
    ensures ParsedHeaders(b, r, req) == StoreAll(req, hs)
    decreases |hs|
  {
    hide Store;
    if hs == [] {
      OccursPair(b, r, CRLF);
    } else {
      HeadersParts(b, r, hs);
      HeaderStep(b, r, hs[0], req);
      HeadersComplete(b, r + |PrintHeader(hs[0])|, hs[1..], Store(req, hs[0]));
    }
  }

  /** One turn of the header loop over a printed header. */
  lemma HeaderStep(b: string, r: nat, h: Header, req: Request)
    requires WellFormedHeader(h)
    requires Occurs(b, r, PrintHeader(h)) && r + |PrintHeader(h)| < |b|
    ensures ParsedHeaders(b, r, req) == ParsedHeaders(b, r + |PrintHeader(h)|, Store(req, h))
  {
    hide Store, PrintHeader, Occurs, ParsedHeaders;
    HeaderParts(b, r, h);
    HeaderAt(b, r, h);
    var j := r + |h.name|;
    TurnOfLoop(b, r, j, j + 2 + |h.value|, req);
  }

  lemma TurnOfLoop(b: string, r: nat, j: nat, v: nat, req: Request)
    requires r <= j && j + 2 <= v && v + 2 < |b| && !CrlfAt(b, r)
    requires j == ScanEnd(b, IsNameChar, r) && b[j] == ':' && b[j + 1] == ' '
    requires v == ValueEnd(b, j + 2) && CrlfAt(b, v)
    ensures ParsedHeaders(b, r, req) == ParsedHeaders(b, v + 2, Store(req, Header(b[r..j], b[j + 2..v])))
  {
    hide Store;
  }

  /** A printed request line stands at the front of the buffer exactly when its
      parts stand in a row. */
  lemma LineParts(b: string, m: Message)
    ensures Occurs(b, 0, PrintLine(m)) <==>
      var i := |m.verb|;
      var j := i + 1 + |m.path|;
      var v := j + 6 + |m.version|;
      Occurs(b, 0, m.verb) && Occurs(b, i, " ") && Occurs(b, i + 1, m.path) && Occurs(b, j, " HTTP/")
      && Occurs(b, j + 6, m.version) && Occurs(b, v, CRLF)
    ensures |PrintLine(m)| == |m.verb| + |m.path| + |m.version| + 9
  {
    hide Occurs;
    OccursConcat(b, 0, m.verb, " ");
    OccursConcat(b, 0, m.verb + " ", m.path);
    OccursConcat(b, 0, m.verb + " " + m.path, " HTTP/");
    OccursConcat(b, 0, m.verb + " " + m.path + " HTTP/", m.version);
    OccursConcat(b, 0, m.verb + " " + m.path + " HTTP/" + m.version, CRLF);
  }

  lemma ProtocolAt(b: string, j: nat)
    ensures Occurs(b, j, " HTTP/") <==>
      j + 6 <= |b| && b[j] == ' ' && LooksAt(b, j + 1, "HTTP") && b[j + 5] == '/'
  {
    if j + 6 <= |b| {
      assert b[j..j + 6] == [b[j], b[j + 1], b[j + 2], b[j + 3], b[j + 4], b[j + 5]];
      assert LooksAt(b, j + 1, "HTTP") <==>
        b[j + 1] == 'H' && b[j + 2] == 'T' && b[j + 3] == 'T' && b[j + 4] == 'P' by {
        LooksAtHttp(b, j + 1);
      }
    }
  }

  lemma LooksAtHttp(b: string, i: nat)
    ensures LooksAt(b, i, "HTTP") <==>
      At(b, i) == 'H' && At(b, i + 1) == 'T' && At(b, i + 2) == 'T' && At(b, i + 3) == 'P'
  {
    var lit := "HTTP";
    if LooksAt(b, i, lit) {
      assert At(b, i + 0) == lit[0] && At(b, i + 1) == lit[1] && At(b, i + 2) == lit[2] && At(b, i + 3) == lit[3];
    }
  }

  lemma VerbAt(b: string, verb: string)
    requires Occurs(b, 0, verb) && |verb| < |b| && b[|verb|] == ' '
    requires forall i | 0 <= i < |verb| :: IsUpper(verb[i])
    ensures ScanEnd(b, IsUpper, 0) == |verb|
  {
    forall k | 0 <= k < |verb| ensures IsUpper(b[k]) { assert b[k] == verb[k]; }
    ScanStops(b, IsUpper, 0, |verb|);
  }

  lemma PathAt(b: string, i: nat, path: string)
    requires Occurs(b, i, path) && i + |path| < |b| && b[i + |path|] == ' '
    requires forall k | 0 <= k < |path| :: IsPathChar(path[k])
    ensures ScanEnd(b, IsPathChar, i) == i + |path|
  {
    forall k | i <= k < i + |path| ensures IsPathChar(b[k]) { assert b[k] == path[k - i]; }
    ScanStops(b, IsPathChar, i, i + |path|);
  }

  /** Reading a version number the server can handle. */
  lemma {:induction false} VersionAt(b: string, v: nat, version: string, req: Request)
    requires CanHandle(version)
    requires Occurs(b, v, version) && v + 5 < |b| && CrlfAt(b, v + 3)
    ensures ParsedVersion(b, v, req) == ParsedHeaders(b, v + 5, req.(version := Some(CStr(version))))
  {
    assert |version| == 3;
    assert b[v] == version[0] && b[v + 1] == version[1] && b[v + 2] == version[2];
    ScanStops(b, IsDigit, v, v + 1);
    ScanStops(b, IsDigit, v + 2, v + 3);
    CStrOfNulFree(version);
  }

  lemma LineComplete(b: string, m: Message)
    requires WellFormed(m) && Occurs(b, 0, PrintLine(m)) && |PrintLine(m)| < |b|
    ensures Parsed(b) == ParsedHeaders(b, |PrintLine(m)|, LineFields(m))
    ensures ScanEnd(b, IsUpper, 0) == |m.verb|
    ensures ScanEnd(b, IsPathChar, |m.verb| + 1) == |m.verb| + 1 + |m.path|
  {
    hide ParsedHeaders, ParsedPath, PrintLine, CStr, CanHandle, LooksAt, Occurs;
    LineParts(b, m);
    assert |m.version| == 3 by { HandledLength(m.version); }
    VerbComplete(b, m.verb);
    PathComplete(b, |m.verb| + 1, m.path, m.version, BLANK.(verb := Some(CStr(m.verb))));
  }

  lemma HandledLength(version: string)
    requires CanHandle(version)
    ensures |version| == 3
  {
  }

  lemma {:induction false} VerbComplete(b: string, verb: string)
    requires 0 < |verb| && forall i | 0 <= i < |verb| :: IsUpper(verb[i])
    requires Occurs(b, 0, verb) && Occurs(b, |verb|, " ") && |verb| + 1 < |b|
    ensures ScanEnd(b, IsUpper, 0) == |verb|
    ensures Parsed(b) == ParsedPath(b, |verb| + 1, BLANK.(verb := Some(CStr(verb))))
  {
    hide ParsedPath;
    OccursOne(b, |verb|, " ");
    VerbAt(b, verb);
    assert b[..|verb|] == verb;
  }

  lemma PathComplete(b: string, l: nat, path: string, version: string, req: Request)
    requires 0 < |path| && (forall k | 0 <= k < |path| :: IsPathChar(path[k])) && CanHandle(version)
    requires var j := l + |path|;
             Occurs(b, l, path) && Occurs(b, j, " HTTP/") && Occurs(b, j + 6, version) && Occurs(b, j + 9, CRLF)
             && j + 11 < |b|
    ensures ScanEnd(b, IsPathChar, l) == l + |path|
    ensures ParsedPath(b, l, req) == ParsedHeaders(b, l + |path| + 11,
              req.(path := Some(CStr(path)), version := Some(CStr(version))))
  {
    hide ParsedHeaders, ParsedVersion, LooksAt, CStr, CanHandle, IsPathChar, ScanEnd;
    HandledLength(version);
    var j := l + |path|;
    assert b[l..j] == path;
    hide Occurs;
    ProtocolAt(b, j);
    OccursPair(b, j + 9, CRLF);
    PathAt(b, l, path);
    VersionAt(b, j + 6, version, req.(path := Some(CStr(path))));
  }

  lemma PrintParts(b: string, m: Message)
    ensures Print(m) <= b <==> Occurs(b, 0, PrintLine(m)) && Occurs(b, |PrintLine(m)|, PrintHeaders(m.headers))
    ensures |Print(m)| >= |PrintLine(m)| + 2
    ensures Print(m) <= b ==> |PrintLine(m)| + 2 <= |b|
  {
    OccursPrefix(b, Print(m));
    OccursConcat(b, 0, PrintLine(m), PrintHeaders(m.headers));
  }

  /** Printing then parsing: whatever follows the message in the buffer, the
      request holds exactly the fields of the message. */
  lemma ParsePrinted(b: string, m: Message)
    requires WellFormed(m) && Print(m) <= b
    ensures Parsed(b) == Fields(m)
  {
    PrintParts(b, m);
    LineComplete(b, m);
    HeadersComplete(b, |PrintLine(m)|, m.headers, LineFields(m));
  }

  // ----- Soundness -----

  lemma {:induction false} HeadersSound(b: string, r: nat, req: Request) returns (hs: seq<Header>)
    requires r < |b| && ParsedHeaders(b, r, req).error.None?
    ensures forall i | 0 <= i < |hs| :: WellFormedHeader(hs[i])
    ensures Occurs(b, r, PrintHeaders(hs))
    decreases |b| - r
  {
    hide Store, PrintHeader, Occurs;
    if CrlfAt(b, r) {
      hs := [];
      OccursPair(b, r, CRLF);
    } else {
      var j := ScanEnd(b, IsNameChar, r);
      var v := ValueEnd(b, j + 2);
      var h := Header(b[r..j], b[j + 2..v]);
      var rest := HeadersSound(b, v + 2, Store(req, h));
      HeaderSound(b, r, j, v);
      hs := [h] + rest;
      assert hs[1..] == rest;
      HeadersParts(b, r, hs);
    }
  }

  lemma ValueSound(b: string, i: nat, v: nat)
    requires i <= v <= |b| && v == ValueEnd(b, i)
    ensures CrlfFree(b[i..v]) && NUL !in b[i..v]
  {
    var value := b[i..v];
    forall k | 0 <= k < |value| - 1 ensures !(value[k] == '\r' && value[k + 1] == '\n') {
      assert !CrlfAt(b, i + k);
    }
  }

  lemma HeaderSound(b: string, r: nat, j: nat, v: nat)
    requires r <= j && j + 2 <= v && v + 2 <= |b| && CrlfAt(b, v)
    requires j == ScanEnd(b, IsNameChar, r) && b[j] == ':' && b[j + 1] == ' ' && v == ValueEnd(b, j + 2)
    ensures var h := Header(b[r..j], b[j + 2..v]);
            WellFormedHeader(h) && Occurs(b, r, PrintHeader(h)) && |PrintHeader(h)| == v + 2 - r
  {
    hide PrintHeader;
    ValueSound(b, j + 2, v);
    hide CrlfFree;
    OccursPair(b, j, ": ");
    OccursPair(b, v, CRLF);
    HeaderParts(b, r, Header(b[r..j], b[j + 2..v]));
  }

  lemma VersionSound(b: string, l: nat, req: Request) returns (version: string, hs: seq<Header>)
    requires l < |b| && ParsedVersion(b, l, req).error.None?
    ensures CanHandle(version) && Occurs(b, l, version) && Occurs(b, l + |version|, CRLF)
    ensures forall i | 0 <= i < |hs| :: WellFormedHeader(hs[i])
    ensures Occurs(b, l + |version| + 2, PrintHeaders(hs))
  {
    hide ParsedHeaders, PrintHeaders;
    var d := ScanEnd(b, IsDigit, l);
    var r := ScanEnd(b, IsDigit, d + 1);
    version := b[l..r];
    NumberHasNoNul(b, l, d, r);
    hs := HeadersSound(b, r + 2, req.(version := Some(CStr(version))));
    OccursPair(b, r, CRLF);
  }

  lemma NumberHasNoNul(b: string, l: nat, d: nat, r: nat)
    requires l <= d < r <= |b| && b[d] == '.'
    requires forall k | l <= k < r && k != d :: IsDigit(b[k])
    ensures CStr(b[l..r]) == b[l..r]
  {
    assert forall k | l <= k < r :: b[k] != NUL;
    CStrOfNulFree(b[l..r]);
  }

  /** An error-free parse reads a message of the grammar. */
  lemma ParseSound(b: string) returns (m: Message)
    requires Parsed(b).error.None?
    ensures WellFormed(m) && Print(m) <= b
  {
    hide ParsedPath, PrintHeaders, PrintLine, Print;
    var i := ScanEnd(b, IsUpper, 0);
    var verb := b[..i];
    var j, path, version, hs := PathSound(b, i + 1, BLANK.(verb := Some(CStr(verb))));
    m := Message(verb, path, version, hs);
    OccursOne(b, i, " ");
    LineParts(b, m);
    PrintParts(b, m);
  }

  lemma PathSound(b: string, l: nat, req: Request) returns (j: nat, path: string, version: string, hs: seq<Header>)
    requires l < |b| && ParsedPath(b, l, req).error.None?
    ensures 0 < |path| && (forall i | 0 <= i < |path| :: IsPathChar(path[i]))
    ensures CanHandle(version)
    ensures forall i | 0 <= i < |hs| :: WellFormedHeader(hs[i])
    ensures j == l + |path|
    ensures Occurs(b, l, path) && Occurs(b, j, " HTTP/") && Occurs(b, j + 6, version)
    ensures Occurs(b, j + 6 + |version|, CRLF) && Occurs(b, j + 8 + |version|, PrintHeaders(hs))
  {
    hide ParsedVersion, PrintHeaders;
    j := ScanEnd(b, IsPathChar, l);
    path := b[l..j];
    var req' := req.(path := Some(CStr(path)));
    assert ParsedProtocol(b, j + 1, req').error.None?;
    version, hs := VersionSound(b, j + 6, req');
    ProtocolAt(b, j);
  }

  // ----- Uniqueness -----

  lemma {:induction false} HeadersUnique(b: string, r: nat, hs: seq<Header>, hs': seq<Header>)
    requires Occurs(b, r, PrintHeaders(hs)) && Occurs(b, r, PrintHeaders(hs'))
    requires forall i | 0 <= i < |hs| :: WellFormedHeader(hs[i])
    requires forall i | 0 <= i < |hs'| :: WellFormedHeader(hs'[i])
    ensures hs == hs'
    decreases |hs|
  {
    hide PrintHeader;
    OccursPair(b, r, CRLF);
    if hs != [] {
      HeadersParts(b, r, hs);
      NotCrlf(b, r, hs[0]);
    }
    if hs' != [] {
      HeadersParts(b, r, hs');
      NotCrlf(b, r, hs'[0]);
    }
    if hs != [] && hs' != [] {
      SameFirst(b, r, hs[0], hs'[0]);
      HeadersUnique(b, r + |PrintHeader(hs[0])|, hs[1..], hs'[1..]);
      assert hs == [hs[0]] + hs[1..] && hs' == [hs'[0]] + hs'[1..];
    }
  }

  lemma NotCrlf(b: string, r: nat, h: Header)
    requires WellFormedHeader(h) && Occurs(b, r, PrintHeader(h))
    ensures !CrlfAt(b, r)
  {
    HeaderAt(b, r, h);
  }

  lemma SameFirst(b: string, r: nat, h: Header, h': Header)
    requires WellFormedHeader(h) && Occurs(b, r, PrintHeader(h))
    requires WellFormedHeader(h') && Occurs(b, r, PrintHeader(h'))
    ensures h == h'
  {
    hide PrintHeader;
    HeaderAt(b, r, h);
    HeaderAt(b, r, h');
  }

  /** No buffer starts with two different messages. */
  lemma ParseUnique(b: string, m: Message, m': Message)
    requires WellFormed(m) && Print(m) <= b
    requires WellFormed(m') && Print(m') <= b
    ensures m == m'
  {
    hide Print, PrintLine, PrintHeaders, Parsed, ParsedHeaders, CanHandle, Occurs;
    PrintParts(b, m);
    PrintParts(b, m');
    LineComplete(b, m);
    LineComplete(b, m');
    LineParts(b, m);
    LineParts(b, m');
    HandledLength(m.version);
    HandledLength(m'.version);
    assert |m.verb| == |m'.verb|;
    assert |m.path| == |m'.path|;
    OccursSame(b, 0, m.verb, m'.verb);
    OccursSame(b, |m.verb| + 1, m.path, m'.path);
    OccursSame(b, |m.verb| + |m.path| + 7, m.version, m'.version);
    HeadersUnique(b, |PrintLine(m)|, m.headers, m'.headers);
  }

  /** Exactness, on every buffer: no error iff some prefix is in the grammar; and
      the fields are then those of that one message. */
  lemma ParserExact(b: string)
    ensures Parsed(b).error.None? <==> exists m :: WellFormed(m) && Print(m) <= b
    ensures forall m | WellFormed(m) && Print(m) <= b :: Parsed(b) == Fields(m)
    ensures forall m, m' | WellFormed(m) && Print(m) <= b && WellFormed(m') && Print(m') <= b :: m == m'
  {
    if Parsed(b).error.None? {
      var m := ParseSound(b);
    }
    forall m | WellFormed(m) && Print(m) <= b
      ensures Parsed(b) == Fields(m) && Parsed(b).error.None?
    {
      ParsePrinted(b, m);
      FieldsMeaning(m);
    }
    forall m, m' | WellFormed(m) && Print(m) <= b && WellFormed(m') && Print(m') <= b ensures m == m' {
      ParseUnique(b, m, m');
    }
  }

  /** What the state machine relies on: without an error the method and the path
      are set; with one, the fields read before it stay set; the path is a C string. */
  lemma ParseSetsEssentials(b: string)
    ensures Parsed(b).error.None? ==> Parsed(b).verb.Some? && Parsed(b).path.Some?
    ensures Parsed(b).host.Some? ==> Parsed(b).verb.Some? && Parsed(b).path.Some? && Parsed(b).version.Some?
    ensures Parsed(b).path.Some? ==> NUL !in Parsed(b).path.value
  {
    hide ParsedVersion, ParsedProtocol;
    var i := ScanEnd(b, IsUpper, 0);
    if i != 0 && i < |b| && b[i] == ' ' && i + 1 < |b| {
      var j := ScanEnd(b, IsPathChar, i + 1);
      if j < |b| && j != i + 1 {
        var req := BLANK.(verb := Some(CStr(b[..i])), path := Some(CStr(b[i + 1..j])));
        CStrHasNoNul(b[i + 1..j]);
        if b[j] == ' ' && j + 1 < |b| {
          ProtocolKeeps(b, j + 1, req);
        }
      }
    }
  }

  lemma ProtocolKeeps(b: string, l: nat, req: Request)
    requires l < |b|
    ensures var q := ParsedProtocol(b, l, req);
            q.verb == req.verb && q.path == req.path && (q.host == req.host || q.version.Some?)
  {
    hide ParsedHeaders, CStr;
    if LooksAt(b, l, "HTTP") && l + 5 < |b| && b[l + 4] == '/' {
      var v := l + 5;
      var d := ScanEnd(b, IsDigit, v);
      if d + 1 < |b| && b[d] == '.' {
        var r := ScanEnd(b, IsDigit, d + 1);
        if r + 2 < |b| && CrlfAt(b, r) && CanHandle(CStr(b[v..r])) {
          HeadersKeep(b, r + 2, req.(version := Some(CStr(b[v..r]))));
        }
      }
    }
  }

  lemma {:induction false} HeadersKeep(b: string, r: nat, req: Request)
    requires r < |b|
    ensures var q := ParsedHeaders(b, r, req);
            q.verb == req.verb && q.path == req.path && q.version == req.version
    decreases |b| - r
  {
    hide Store;
    if !CrlfAt(b, r) {
      var j := ScanEnd(b, IsNameChar, r);
      if j + 2 < |b| && b[j] == ':' && b[j + 1] == ' ' {
        var v := ValueEnd(b, j + 2);
        if v + 2 < |b| && CrlfAt(b, v) {
          StoreKeeps(req, Header(b[r..j], b[j + 2..v]));
          HeadersKeep(b, v + 2, Store(req, Header(b[r..j], b[j + 2..v])));
        }
      }
    }
  }

  lemma StoreKeeps(req: Request, h: Header)
    ensures var q := Store(req, h);
            q.verb == req.verb && q.path == req.path && q.version == req.version && q.error == req.error
  {
    hide NameIs, RangeOf, CStr;
  }
}
