/** parse_http_request: what it computes, and the cursor loops that compute it. */
module RequestParser {
  import opened Ascii
  import opened Text
  import opened Range
  import opened Grammar

  // ----- What the parser computes, cursor position by cursor position -----

  function Fail(req: Request, e: ParseError): Request {
    req.(error := Some(e))
  }

  /** End of a header value: the first CRLF or NUL, or the end of the buffer. */
  function ValueEnd(b: string, i: nat): (j: nat)
    requires i <= |b|
    ensures i <= j <= |b|
    ensures forall k | i <= k < j :: !CrlfAt(b, k) && b[k] != NUL
    ensures j < |b| ==> CrlfAt(b, j) || b[j] == NUL
    decreases |b| - i
  {
    if i < |b| && !CrlfAt(b, i) && b[i] != NUL then ValueEnd(b, i + 1) else i
  }

  /** The header loop, entered with the cursor at r. */
  function ParsedHeaders(b: string, r: nat, req: Request): Request
    requires r < |b|
    decreases |b| - r
  {
    if CrlfAt(b, r) then req
    else
      var j := ScanEnd(b, IsNameChar, r);
      if j == |b| then Fail(req, UnexpectedEof)
      else if b[j] != ':' then Fail(req, NoColon)
      else if j + 1 >= |b| then Fail(req, UnexpectedEof)
      else if b[j + 1] != ' ' then Fail(req, NoSpaceAfterColon)
      else if j + 2 >= |b| then Fail(req, UnexpectedEof)
      else
        var v := ValueEnd(b, j + 2);
        if v == |b| then Fail(req, UnexpectedEof)
        else if !CrlfAt(b, v) then Fail(req, NoCrlfAtEnd)
        else if v + 2 >= |b| then Fail(req, UnexpectedEof)
        else ParsedHeaders(b, v + 2, Store(req, Header(b[r..j], b[j + 2..v])))
  }

  /** From the version number on. */
  function ParsedVersion(b: string, l: nat, req: Request): Request
    requires l < |b|
  {
    var d := ScanEnd(b, IsDigit, l);
    if d == |b| then Fail(req, UnexpectedEof)
    else if b[d] != '.' then Fail(req, NoDot)
    else if d + 1 >= |b| then Fail(req, UnexpectedEof)
    else
      var r := ScanEnd(b, IsDigit, d + 1);
      if r == |b| then Fail(req, UnexpectedEof)
      else
        var req' := req.(version := Some(CStr(b[l..r])));
        if !CanHandle(CStr(b[l..r])) then Fail(req', BadVersion)
        else if !CrlfAt(b, r) then Fail(req', NoCrlfAfterVersion)
        else if r + 2 >= |b| then Fail(req', UnexpectedEof)
        else ParsedHeaders(b, r + 2, req')
  }

  /** From "HTTP/" on. */
  function ParsedProtocol(b: string, r: nat, req: Request): Request
    requires r < |b|
  {
    if !LooksAt(b, r, "HTTP") then Fail(req, NoHttp)
    else if r + 4 >= |b| then Fail(req, UnexpectedEof)
    else if b[r + 4] != '/' then Fail(req, NoSlash)
    else if r + 5 >= |b| then Fail(req, UnexpectedEof)
    else ParsedVersion(b, r + 5, req)
  }

  /** From the path on. */
  function ParsedPath(b: string, l: nat, req: Request): Request
    requires l < |b|
  {
    var r := ScanEnd(b, IsPathChar, l);
    if r == |b| then Fail(req, UnexpectedEof)
    else if r == l then Fail(req, InvalidPath)
    else
      var req' := req.(path := Some(CStr(b[l..r])));
      if b[r] != ' ' then Fail(req', NoSpaceAfterPath)
      else if r + 1 >= |b| then Fail(req', UnexpectedEof)
      else ParsedProtocol(b, r + 1, req')
  }

  /** The request record left behind for the first n_items bytes b. */
  function Parsed(b: string): Request {
    var r := ScanEnd(b, IsUpper, 0);
    if r == 0 then Fail(BLANK, InvalidMethod)
    else if r == |b| then Fail(BLANK, UnexpectedEof)
    else
      var req := BLANK.(verb := Some(CStr(b[..r])));
      if b[r] != ' ' then Fail(req, NoSpaceAfterMethod)
      else if r + 1 >= |b| then Fail(req, UnexpectedEof)
      else ParsedPath(b, r + 1, req)
  }

  // ----- The cursor loops -----

  /** while (p(*r)) SAFE_ADVANCE(r, 1): the cursor stays inside the buffer and the
      parser gives up when it would leave it. */
  method SkipWhile(b: string, p: char -> bool, l: nat) returns (r: nat, eof: bool)
    requires l < |b|
    ensures l <= r < |b|
    ensures eof <==> ScanEnd(b, p, l) == |b|
    ensures !eof ==> r == ScanEnd(b, p, l)
  {
    r := l;
    while p(b[r])
      invariant l <= r < |b|
      invariant ScanEnd(b, p, l) == ScanEnd(b, p, r)
      decreases |b| - r
    {
      if r + 1 >= |b| {
        return r, true;
      }
      r := r + 1;
    }
    eof := false;
  }

  /** The loop over a header value: stops on CRLF, gives up on NUL. */
  method SkipValue(b: string, hv: nat) returns (r: nat, e: Option<ParseError>)
    requires hv < |b|
    ensures hv <= r < |b|
    ensures e == if ValueEnd(b, hv) == |b| then Some(UnexpectedEof)
                 else if CrlfAt(b, ValueEnd(b, hv)) then None
                 else Some(NoCrlfAtEnd)
    ensures e.None? ==> r == ValueEnd(b, hv)
  {
    r := hv;
    while !(At(b, r) == '\r' && At(b, r + 1) == '\n')
      invariant hv <= r < |b|
      invariant ValueEnd(b, hv) == ValueEnd(b, r)
      decreases |b| - r
    {
      if b[r] == NUL { return r, Some(NoCrlfAtEnd); }
      if r + 1 >= |b| { return r, Some(UnexpectedEof); }
      r := r + 1;
    }
    e := None;
  }

  /** Keeps the header if the server handles it. */
  method StoreHeader(b: string, hn: nat, hnLen: nat, hv: nat, hvLen: nat, initial: Request) returns (req: Request)
    requires hn + hnLen <= |b| && hv + hvLen < |b| && b[hv + hvLen] == '\r'
    ensures req == Store(initial, Header(b[hn..hn + hnLen], b[hv..hv + hvLen]))
  {
    req := initial;
    var name, value := b[hn..hn + hnLen], b[hv..hv + hvLen];
    if NameIs(name, "Host") {
      req := req.(host := Some(CStr(value)));
    } else if NameIs(name, "User-Agent") {
      req := req.(userAgent := Some(CStr(value)));
    } else if NameIs(name, "Accept") {
      req := req.(accept := Some(CStr(value)));
    } else if NameIs(name, "Connection") {
      req := req.(connection := Some(CStr(value)));
    } else if NameIs(name, "Range") {
      var ok, spec := ParseRangeHeader(b, hv, hvLen, req.range);
      req := req.(range := spec);
    }
  }

  /** The header loop. */
  method ParseHeaders(b: string, start: nat, initial: Request) returns (req: Request)
    requires start < |b|
    ensures req == ParsedHeaders(b, start, initial)
  {
    hide Store;
    req := initial;
    var r := start;
    while true
      invariant r < |b|
      invariant ParsedHeaders(b, r, req) == ParsedHeaders(b, start, initial)
      decreases |b| - r
    {
      if At(b, r) == '\r' && At(b, r + 1) == '\n' {
        return req;
      }
      var hn := r;
      var eof;
      r, eof := SkipWhile(b, IsNameChar, r);
      if eof { return Fail(req, UnexpectedEof); }
      var hnLen := r - hn;
      if b[r] != ':' { return Fail(req, NoColon); }
      if r + 1 >= |b| { return Fail(req, UnexpectedEof); }
      r := r + 1;
      if b[r] != ' ' { return Fail(req, NoSpaceAfterColon); }
      if r + 1 >= |b| { return Fail(req, UnexpectedEof); }
      r := r + 1;
      var hv := r;
      var e;
      r, e := SkipValue(b, hv);
      if e.Some? { return Fail(req, e.value); }
      var hvLen := r - hv;
      if r + 2 >= |b| { return Fail(req, UnexpectedEof); }
      r := r + 2;
      req := StoreHeader(b, hn, hnLen, hv, hvLen, req);
    }
  }

  /** From the version number on. */
  method ParseVersion(b: string, start: nat, initial: Request) returns (req: Request)
    requires start < |b|
    ensures req == ParsedVersion(b, start, initial)
  {
    req := initial;
    var l := start;
    var r, eof := SkipWhile(b, IsDigit, l);
    if eof { return Fail(req, UnexpectedEof); }
    if b[r] != '.' { return Fail(req, NoDot); }
    if r + 1 >= |b| { return Fail(req, UnexpectedEof); }
    r := r + 1;
    r, eof := SkipWhile(b, IsDigit, r);
    if eof { return Fail(req, UnexpectedEof); }
    var version := CStr(b[l..r]);
    req := req.(version := Some(version));
    if !CanHandle(version) { return Fail(req, BadVersion); }
    if At(b, r) != '\r' || At(b, r + 1) != '\n' { return Fail(req, NoCrlfAfterVersion); }
    if r + 2 >= |b| { return Fail(req, UnexpectedEof); }
    r := r + 2;
    req := ParseHeaders(b, r, req);
  }

  /** From the path on. */
  method ParsePath(b: string, start: nat, initial: Request) returns (req: Request)
    requires start < |b|
    ensures req == ParsedPath(b, start, initial)
  {
    req := initial;
    var l := start;
    var r, eof := SkipWhile(b, IsPathChar, l);
    if eof { return Fail(req, UnexpectedEof); }
    if l == r { return Fail(req, InvalidPath); }
    req := req.(path := Some(CStr(b[l..r])));
    if b[r] != ' ' { return Fail(req, NoSpaceAfterPath); }
    if r + 1 >= |b| { return Fail(req, UnexpectedEof); }
    r := r + 1;
    req := ParseProtocol(b, r, req);
  }

  /** From "HTTP/" on. */
  method ParseProtocol(b: string, start: nat, initial: Request) returns (req: Request)
    requires start < |b|
    ensures req == ParsedProtocol(b, start, initial)
  {
    req := initial;
    var r := start;
    if !LooksAt(b, r, "HTTP") { return Fail(req, NoHttp); }
    if r + 4 >= |b| { return Fail(req, UnexpectedEof); }
    r := r + 4;
    if b[r] != '/' { return Fail(req, NoSlash); }
    if r + 1 >= |b| { return Fail(req, UnexpectedEof); }
    r := r + 1;
    req := ParseVersion(b, r, req);
  }

  /** parse_http_request. The request line is read in four stages. */
  method ParseHttpRequest(b: string) returns (req: Request)
    ensures req == Parsed(b)
  {
    req := BLANK;
    if |b| == 0 { return Fail(req, InvalidMethod); }
    var l := 0;
    var r, eof := SkipWhile(b, IsUpper, l);
    if eof { return Fail(req, UnexpectedEof); }
    if l == r { return Fail(req, InvalidMethod); }
    req := req.(verb := Some(CStr(b[l..r])));
    if b[r] != ' ' { return Fail(req, NoSpaceAfterMethod); }
    if r + 1 >= |b| { return Fail(req, UnexpectedEof); }
    r := r + 1;
    req := ParsePath(b, r, req);
  }
}
