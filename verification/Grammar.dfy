/** The request format (section 3 of RFC 7230, as narrowed by http.c), its
    printer, and what the request record holds for a well-formed message. */
module Grammar {
  import opened Ascii
  import opened Text
  import opened Range

  datatype Header = Header(name: string, value: string)

  datatype Message = Message(verb: string, path: string, version: string, headers: seq<Header>)

  datatype ParseError =
    | UnexpectedEof
    | InvalidMethod
    | NoSpaceAfterMethod
    | InvalidPath
    | NoSpaceAfterPath
    | NoHttp
    | NoSlash
    | NoDot
    | BadVersion
    | NoCrlfAfterVersion
    | NoColon
    | NoSpaceAfterColon
    | NoCrlfAtEnd

  /** The fields parse_http_request fills in; None is a null pointer. */
  datatype Request = Request(
    verb: Option<string>,
    path: Option<string>,
    version: Option<string>,
    host: Option<string>,
    userAgent: Option<string>,
    accept: Option<string>,
    connection: Option<string>,
    range: RangeSpec,
    error: Option<ParseError>)

  const BLANK := Request(None, None, None, None, None, None, None, NO_RANGE, None)

  // ----- The grammar -----

  predicate CanHandle(version: string) {
    version == "0.9" || version == "1.0" || version == "1.1"
  }

  ghost predicate CrlfFree(s: string) {
    forall i | 0 <= i < |s| - 1 :: !(s[i] == '\r' && s[i + 1] == '\n')
  }

  ghost predicate WellFormedHeader(h: Header) {
    && (forall i | 0 <= i < |h.name| :: IsNameChar(h.name[i]))
    && CrlfFree(h.value)
    && NUL !in h.value
  }

  ghost predicate WellFormed(m: Message) {
    && 0 < |m.verb| && (forall i | 0 <= i < |m.verb| :: IsUpper(m.verb[i]))
    && 0 < |m.path| && (forall i | 0 <= i < |m.path| :: IsPathChar(m.path[i]))
    && CanHandle(m.version)
    && (forall i | 0 <= i < |m.headers| :: WellFormedHeader(m.headers[i]))
  }

  function PrintHeader(h: Header): string {
    h.name + ": " + h.value + CRLF
  }

  function PrintHeaders(hs: seq<Header>): string {
    if hs == [] then CRLF else PrintHeader(hs[0]) + PrintHeaders(hs[1..])
  }

  function PrintLine(m: Message): string {
    m.verb + " " + m.path + " HTTP/" + m.version + CRLF
  }

  function Print(m: Message): string {
    PrintLine(m) + PrintHeaders(m.headers)
  }

  // ----- What a message means to the server -----

  /** The name test of the header loop: strncasecmp over the name and its colon. */
  predicate NameIs(name: string, lit: string) {
    EqualsIgnoreCase(lit + ":", name + ":", |name| + 1)
  }

  /** A header the server knows replaces what an earlier one stored. */
  function Store(req: Request, h: Header): Request {
    if NameIs(h.name, "Host") then req.(host := Some(CStr(h.value)))
    else if NameIs(h.name, "User-Agent") then req.(userAgent := Some(CStr(h.value)))
    else if NameIs(h.name, "Accept") then req.(accept := Some(CStr(h.value)))
    else if NameIs(h.name, "Connection") then req.(connection := Some(CStr(h.value)))
    else if NameIs(h.name, "Range") then req.(range := RangeOf(h.value, req.range).1)
    else req
  }

  function StoreAll(req: Request, hs: seq<Header>): Request
    decreases |hs|
  {
    if hs == [] then req else StoreAll(Store(req, hs[0]), hs[1..])
  }

  /** The fields of the request line. */
  function LineFields(m: Message): Request {
    BLANK.(verb := Some(CStr(m.verb)), path := Some(CStr(m.path)), version := Some(CStr(m.version)))
  }

  function Fields(m: Message): Request {
    StoreAll(LineFields(m), m.headers)
  }

  // ----- Header names -----

  /** The length-plus-colon comparison is exactly equality of names up to case. */
  lemma NameIsExactly(name: string, lit: string)
    requires forall i | 0 <= i < |name| :: IsNameChar(name[i])
    requires forall i | 0 <= i < |lit| :: IsNameChar(lit[i])
    ensures NameIs(name, lit) <==> Lower(name) == Lower(lit)
  {
    CompareNames(name, lit);
  }

  lemma {:induction false} CompareNames(name: string, lit: string)
    requires forall i | 0 <= i < |name| :: IsNameChar(name[i])
    requires forall i | 0 <= i < |lit| :: IsNameChar(lit[i])
    ensures EqualsIgnoreCase(lit + ":", name + ":", |name| + 1) <==> Lower(name) == Lower(lit)
  {
    var x, y := lit + ":", name + ":";
    if name != [] && lit != [] {
      assert x[1..] == lit[1..] + ":" && y[1..] == name[1..] + ":";
      CompareNames(name[1..], lit[1..]);
      assert Lower(name)[1..] == Lower(name[1..]) && Lower(lit)[1..] == Lower(lit[1..]);
      assert Lower(name) == [ToLower(name[0])] + Lower(name)[1..];
      assert Lower(lit) == [ToLower(lit[0])] + Lower(lit)[1..];
    } else if lit != [] {
      assert Lower(lit)[0] == ToLower(lit[0]);
    }
  }

  // ----- Last duplicate wins -----

  /** The value of the last header of that name, if there is one. */
  ghost function LastValue(hs: seq<Header>, lit: string): Option<string> {
    if hs == [] then None
    else if Lower(hs[|hs| - 1].name) == Lower(lit) then Some(hs[|hs| - 1].value)
    else LastValue(hs[..|hs| - 1], lit)
  }

  /** All the Range headers, applied in order. */
  ghost function RangesOf(hs: seq<Header>): RangeSpec {
    if hs == [] then NO_RANGE
    else
      var before, h := RangesOf(hs[..|hs| - 1]), hs[|hs| - 1];
      if Lower(h.name) == Lower("Range") then RangeOf(h.value, before).1 else before
  }

  lemma {:induction false} StoreAllLast(req: Request, hs: seq<Header>)
    requires hs != []
    ensures StoreAll(req, hs) == Store(StoreAll(req, hs[..|hs| - 1]), hs[|hs| - 1])
    decreases |hs|
  {
    if |hs| == 1 {
      assert hs[..0] == [] && hs[1..] == [];
    } else {
      var init := hs[..|hs| - 1];
      StoreAllLast(Store(req, hs[0]), hs[1..]);
      assert hs[1..][..|hs| - 2] == init[1..];
      assert hs[1..][|hs| - 2] == hs[|hs| - 1];
    }
  }

  /** The four stored strings are the values of the last headers of those names,
      in any letter case; the range is the fold of the Range headers; the request
      line fields are the printed ones (the path up to a NUL). */
  lemma {:induction false} FieldsMeaning(m: Message)
    requires WellFormed(m)
    ensures var r := Fields(m);
            r.error.None?
            && r.verb == Some(m.verb) && r.path == Some(CStr(m.path)) && r.version == Some(m.version)
            && r.host == LastValue(m.headers, "Host")
            && r.userAgent == LastValue(m.headers, "User-Agent")
            && r.accept == LastValue(m.headers, "Accept")
            && r.connection == LastValue(m.headers, "Connection")
            && r.range == RangesOf(m.headers)
    decreases |m.headers|
  {
    CStrOfNulFree(m.verb);
    CStrOfNulFree(m.version);
    if m.headers != [] {
      var n := |m.headers| - 1;
      FieldsMeaning(m.(headers := m.headers[..n]));
      StoreAllLast(LineFields(m), m.headers);
      StoreMeaning(Fields(m.(headers := m.headers[..n])), m.headers[n]);
    }
  }

  ghost predicate RangeFree(hs: seq<Header>) {
    forall i | 0 <= i < |hs| :: Lower(hs[i].name) != Lower("Range")
  }

  /** Without a Range header no bound is given. */
  lemma {:induction false} NoRangeHeader(m: Message)
    requires WellFormed(m) && RangeFree(m.headers)
    ensures Fields(m).range == NO_RANGE
  {
    FieldsMeaning(m);
    NothingRanged(m.headers);
  }

  /** With one Range header alone its bounds are given. */
  lemma {:induction false} OneRange(hs: seq<Header>, i: nat)
    requires i < |hs| && Lower(hs[i].name) == Lower("Range")
    requires forall j | 0 <= j < |hs| && j != i :: Lower(hs[j].name) != Lower("Range")
    ensures RangesOf(hs) == RangeOf(hs[i].value, NO_RANGE).1
    decreases |hs|
  {
    var init := hs[..|hs| - 1];
    if i == |init| {
      NothingRanged(init);
    } else {
      OneRange(init, i);
    }
  }

  lemma {:induction false} NothingRanged(hs: seq<Header>)
    requires RangeFree(hs)
    ensures RangesOf(hs) == NO_RANGE
  {
    if hs != [] { NothingRanged(hs[..|hs| - 1]); }
  }

  /** One header changes the field of its own name and no other. */
  lemma StoreMeaning(req: Request, h: Header)
    requires WellFormedHeader(h)
    ensures var r, n := Store(req, h), Lower(h.name);
            r == req.(host := if n == Lower("Host") then Some(h.value) else req.host,
                      userAgent := if n == Lower("User-Agent") then Some(h.value) else req.userAgent,
                      accept := if n == Lower("Accept") then Some(h.value) else req.accept,
                      connection := if n == Lower("Connection") then Some(h.value) else req.connection,
                      range := if n == Lower("Range") then RangeOf(h.value, req.range).1 else req.range)
  {
    CStrOfNulFree(h.value);
    NameIsExactly(h.name, "Host");
    NameIsExactly(h.name, "User-Agent");
    NameIsExactly(h.name, "Accept");
    NameIsExactly(h.name, "Connection");
    NameIsExactly(h.name, "Range");
    assert Lower("Host")[0] == 'h' && Lower("User-Agent")[0] == 'u' && Lower("Accept")[0] == 'a';
    assert Lower("Connection")[0] == 'c' && Lower("Range")[0] == 'r';
  }
}
