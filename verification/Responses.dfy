/** The decisions of make_http_response: which file or listing a request gets, the
    head that announces it, and the byte range to send. */
module Responses {
  import opened Text
  import opened Range
  import opened Grammar
  import opened Url
  import opened Paths
  import opened Links
  import opened Buffers

  /** What read_file_info finds: -1, -2, 0 and 1. */
  datatype Stat = Missing | Unreadable | BrokenLink | Found(isDir: bool, size: nat)

  /** What fopen and fread find at a path while a response is being sent. */
  datatype Disk = Absent | Directory | Regular(contents: string)

  /** The file system during one response. page is the HTML of a directory, or None
      when it cannot be read; lastMod and mime are the texts of those headers. */
  datatype FileSystem = FileSystem(
    stat: string -> Stat,
    disk: string -> Disk,
    page: (string, string) -> Option<string>,
    lastMod: string -> string,
    mime: string -> string)

  datatype Config = Config(servePath: string, index: Option<string>, timeoutSecs: nat)

  ghost predicate ValidConfig(conf: Config) {
    && conf.servePath != [] && Squeezed(conf.servePath) && NUL !in conf.servePath
    && (conf.index.Some? ==> NUL !in conf.index.value)
    && 0 < conf.timeoutSecs
  }

  /** body is None when the payload comes from the file. */
  datatype Response = Response(
    head: string, headSent: nat,
    body: Option<string>, bodySent: nat,
    isNull: bool, disk: Disk, offset: int,
    rangeStart: int, rangeEnd: int)

  const NOT_FOUND := "Error 404: file not found\n"

  predicate RangeGiven(r: RangeSpec) {
    r.startGiven || r.endGiven
  }

  function StartOf(r: RangeSpec): int {
    if r.startGiven then r.start else 0
  }

  function EndOf(r: RangeSpec, size: nat): int {
    if r.endGiven then r.end else size - 1
  }

  /** printf's %ld. */
  function Signed(n: int): string {
    if n < 0 then "-" + Dec(-n) else Dec(n)
  }

  // ----- Heads, as the pieces the source appends one by one -----

  function Join(pieces: seq<string>): string {
    if pieces == [] then [] else Join(pieces[..|pieces| - 1]) + pieces[|pieces| - 1]
  }

  function StatusLine(code: string): string {
    "HTTP/1.1 " + code + CRLF
  }

  function AcceptLine(): string {
    "Accept-Ranges: bytes" + CRLF
  }

  const LENGTH := "Content-Length: "

  function LengthLine(n: nat): string {
    LENGTH + Dec(n) + CRLF
  }

  function LastModLine(date: string): string {
    "Last-Modified: " + date + CRLF
  }

  function RangeLine(r: RangeSpec, size: nat): string {
    "Content-Range: bytes " + Signed(StartOf(r)) + "-" + Signed(EndOf(r, size)) + "/" + Dec(size) + CRLF
  }

  function TypeLine(mime: string): string {
    "Content-Type: " + mime + CRLF
  }

  function LocationLine(decoded: string): string {
    "Location: " + decoded + "/\r\n"
  }

  function ListingHead(page: Option<string>, date: string): seq<string> {
    match page
    case None => [StatusLine("500")]
    case Some(html) =>
      [StatusLine("200"), TypeLine("text/html; charset=UTF-8"), LengthLine(|html|), LastModLine(date), CRLF]
  }

  function FileOpening(r: RangeSpec, size: nat, date: string): seq<string> {
    if RangeGiven(r) then [StatusLine("206"), LastModLine(date), RangeLine(r, size)]
    else [StatusLine("200"), AcceptLine(), LastModLine(date)]
  }

  function FileHead(r: RangeSpec, size: nat, date: string, mime: string): seq<string> {
    FileOpening(r, size, date) + [LengthLine(size)] + [TypeLine(mime), CRLF]
  }

  function NotFoundHead(): seq<string> {
    [StatusLine("404"), AcceptLine(), TypeLine("text/plain"), LengthLine(|NOT_FOUND|), CRLF]
  }

  function RedirectHead(decoded: string): seq<string> {
    [StatusLine("301"), LocationLine(decoded), AcceptLine()]
  }

  predicate EndsInSlash(decoded: string) {
    decoded != [] && Last(decoded) == '/'
  }

  /** A single file found at path. */
  function FileResponse(r: RangeSpec, path: string, size: nat, fs: FileSystem): Response {
    Response(Join(FileHead(r, size, fs.lastMod(path), fs.mime(path))), 0, None, 0, false, fs.disk(path),
             StartOf(r), StartOf(r), EndOf(r, size))
  }

  function DirResponse(r: RangeSpec, path: string, decoded: string, fs: FileSystem): Response {
    var page := fs.page(path, decoded);
    var body := if page.Some? then page.value else [];
    Response(Join(ListingHead(page, fs.lastMod(path))), 0, Some(body), 0, false, Directory, 0,
             StartOf(r), EndOf(r, |body|))
  }

  /** The index file of the directory at path, if one is configured and found. */
  function IndexOf(conf: Config, path: string, fs: FileSystem): Option<(string, nat)> {
    if conf.index.None? then None
    else
      var ipath := if IsHere(conf.index.value) then path else Squeeze(path + "/" + conf.index.value);
      match fs.stat(ipath)
      case Found(_, size) => Some((ipath, size))
      case _ => None
  }

  /** The response to a request. unset stands for the two range fields, which the
      404, 500 and 301 branches leave uninitialised. */
  function ResponseFor(conf: Config, req: Request, fs: FileSystem, unset: (int, int)): Response
    requires req.verb.Some? && req.path.Some?
  {
    var decoded := Decoded(req.path.value);
    var path := RealPath(conf.servePath, req.path.value);
    var isHead := req.verb.value == "HEAD";
    match fs.stat(path)
    case Missing =>
      Response(Join(NotFoundHead()), 0, if isHead then None else Some(NOT_FOUND), 0, true, Absent, 0, unset.0, unset.1)
    case Unreadable =>
      Response(Join([StatusLine("500") + CRLF]), 0, None, 0, true, Absent, 0, unset.0, unset.1)
    case BrokenLink =>
      FileResponse(req.range, path, 0, fs)
    case Found(isDir, size) =>
      if !isDir then FileResponse(req.range, path, size, fs)
      else if !EndsInSlash(decoded) then
        Response(Join(RedirectHead(decoded)), 0, None, 0, false, Directory, 0, unset.0, unset.1)
      else
        match IndexOf(conf, path, fs)
        case Some(ix) => FileResponse(req.range, ix.0, ix.1, fs)
        case None => DirResponse(req.range, path, decoded, fs)
  }

  // ----- What is to be sent -----

  /** The whole body, or the file from its first requested byte on. */
  function Payload(res: Response): string {
    match res.body
    case Some(body) => body
    case None =>
      if res.disk.Regular? && 0 <= res.rangeStart <= |res.disk.contents|
      then res.disk.contents[res.rangeStart..] else []
  }

  /** What size_t can count. */
  const SIZE_T_LIMIT := 0x1_0000_0000_0000_0000

  /** The ranges that write_body and write_file are written for: a whole body, or a
      file up to its last byte. */
  predicate Whole(res: Response) {
    match res.body
    case Some(body) => res.rangeStart == 0 && res.rangeEnd == |body| - 1 && |body| < SIZE_T_LIMIT
    case None =>
      !res.isNull && res.disk.Regular? && 0 <= res.rangeStart <= |res.disk.contents|
      && res.rangeEnd == |res.disk.contents| - 1 && |res.disk.contents| < SIZE_T_LIMIT
  }

  /** The file bytes a response may still read. */
  function BytesLeft(res: Response): nat {
    if res.body.None? && res.disk.Regular? && 0 <= res.offset <= |res.disk.contents|
    then |res.disk.contents| - res.offset else 0
  }

  // ----- The Content-Length line -----

  /** A line of a head, with the CRLF that ends it. */
  ghost predicate IsLine(p: string) {
    2 <= |p| && '\r' !in p[..|p| - 2] && p[|p| - 2] == '\r' && p[|p| - 1] == '\n'
  }

  ghost predicate AreLines(pieces: seq<string>) {
    forall i | 0 <= i < |pieces| :: IsLine(pieces[i])
  }

  /** The only line, other than the first, that starts with "Content-Length: "
      announces n bytes. */
  ghost predicate Declares(head: string, n: nat) {
    exists i :: Occurs(head, i, CRLF + LengthLine(n)) && OnlyLengthAt(head, i)
  }

  ghost predicate OnlyLengthAt(head: string, i: nat) {
    forall j | Occurs(head, j, CRLF + LENGTH) :: j == i
  }

  lemma {:induction false} JoinEnds(pieces: seq<string>)
    requires AreLines(pieces) && pieces != []
    ensures var h := Join(pieces); 2 <= |h| && h[|h| - 2] == '\r' && h[|h| - 1] == '\n'
  {
  }

  /** Text behind a CRLF that holds no CR itself stands at the start of a line. */
  lemma {:induction false} LineStart(pieces: seq<string>, j: nat, key: string) returns (k: nat)
    requires AreLines(pieces) && key != [] && '\r' !in key && Occurs(Join(pieces), j, CRLF + key)
    ensures 1 <= k < |pieces| && key <= pieces[k] && j + 2 == |Join(pieces[..k])|
    decreases |pieces|
  {
    assert pieces != [];
    var n, h := |pieces| - 1, Join(pieces[..|pieces| - 1]);
    var last := pieces[n];
    OccursConcat(Join(pieces), j, CRLF, key);
    OccursPair(Join(pieces), j, CRLF);
    if n > 0 { JoinEnds(pieces[..n]); }
    if j + 2 + |key| <= |h| {
      assert Occurs(h, j, CRLF + key) by {
        assert Join(pieces)[j..j + 2 + |key|] == h[j..j + 2 + |key|];
      }
      k := LineStart(pieces[..n], j, key);
      assert pieces[..n][..k] == pieces[..k];
    } else {
      KeyBehind(h, last, j, key);
      k := n;
    }
  }

  lemma KeyBehind(h: string, last: string, j: nat, key: string)
    requires IsLine(last) && key != [] && '\r' !in key
    requires |h| >= 2 ==> h[|h| - 2] == '\r' && h[|h| - 1] == '\n'
    requires h == [] || |h| >= 2
    requires Occurs(h + last, j + 2, key) && j + 2 + |key| > |h|
    requires (h + last)[j] == '\r' && (h + last)[j + 1] == '\n'
    ensures j + 2 == |h| && key <= last
  {
    var b, t := h + last, last[..|last| - 2];
    assert forall p | j + 2 <= p < j + 2 + |key| :: b[p] == key[p - j - 2] && b[p] != '\r';
    assert forall p | |h| <= p < |b| - 2 :: b[p] == t[p - |h|] && b[p] != '\r';
    assert |h| >= 2 ==> b[|h| - 2] == '\r' && b[|h| - 1] == '\n';
    assert j + 2 == |h|;
    assert b[j + 2..j + 2 + |key|] == last[..|key|];
  }

  /** A head made of lines, one of which starts with "Content-Length: ". */
  lemma LinesDeclare(pieces: seq<string>, k: nat, n: nat)
    requires AreLines(pieces) && 1 <= k < |pieces| && pieces[k] == LengthLine(n)
    requires forall i | 0 <= i < |pieces| && i != k :: !(LENGTH <= pieces[i])
    ensures Declares(Join(pieces), n)
  {
    var head := Join(pieces);
    hide Join, Occurs, IsLine;
    var i := LineStands(pieces, k);
    assert Occurs(head, i, CRLF + LengthLine(n));
    forall j | Occurs(head, j, CRLF + LENGTH) ensures j == i {
      var k' := LineStart(pieces, j, LENGTH);
    }
  }

  lemma LineStands(pieces: seq<string>, k: nat) returns (i: nat)
    requires AreLines(pieces) && 1 <= k < |pieces|
    ensures Occurs(Join(pieces), i, CRLF + pieces[k])
    ensures i + 2 == |Join(pieces[..k])|
  {
    var head, front, p := Join(pieces), Join(pieces[..k]), pieces[k];
    JoinEnds(pieces[..k]);
    var post := JoinSplit(pieces, k);
    hide Join;
    i := |front| - 2;
    OccursConcat(head, i, CRLF, p);
    OccursPair(head, i, CRLF);
    OccursPrefix(head, front + p);
    OccursConcat(head, 0, front, p);
  }

  lemma {:induction false} JoinSplit(pieces: seq<string>, k: nat) returns (post: string)
    requires k < |pieces|
    ensures Join(pieces) == Join(pieces[..k]) + pieces[k] + post
    decreases |pieces|
  {
    var n := |pieces| - 1;
    if k == n {
      post := [];
      assert Join(pieces[..n]) + pieces[n] + post == Join(pieces[..n]) + pieces[n];
    } else {
      var rest := JoinSplit(pieces[..n], k);
      assert pieces[..n][..k] == pieces[..k];
      post := rest + pieces[n];
      assert Join(pieces[..k]) + pieces[k] + rest + pieces[n] == Join(pieces[..k]) + pieces[k] + post;
    }
  }

  /** Dates and MIME types are texts without a CR. */
  ghost predicate CleanTexts(fs: FileSystem) {
    forall p :: '\r' !in fs.lastMod(p) && '\r' !in fs.mime(p)
  }

  /** A line that does not start with "Content-Length: ". */
  ghost predicate Other(p: string) {
    IsLine(p) && !(LENGTH <= p)
  }

  lemma OtherLine(p: string, text: string, i: nat)
    requires p == text + CRLF && '\r' !in text
    requires i < |p| && i < |LENGTH| && p[i] != LENGTH[i]
    ensures Other(p)
  {
    assert p[..|p| - 2] == text;
  }

  lemma LengthIsLine(n: nat)
    ensures IsLine(LengthLine(n))
  {
    DigitsHaveNoCr(n);
    var p := LengthLine(n);
    assert p[..|p| - 2] == LENGTH + Dec(n);
  }

  lemma DigitsHaveNoCr(n: nat)
    ensures '\r' !in Dec(n)
  {
  }

  lemma SignedHasNoCr(n: int)
    ensures '\r' !in Signed(n)
  {
    DigitsHaveNoCr(Abs(n));
  }

  lemma TextLines(date: string, mime: string, r: RangeSpec, size: nat)
    requires '\r' !in date && '\r' !in mime
    ensures Other(LastModLine(date))
    ensures Other(TypeLine(mime))
    ensures Other(RangeLine(r, size))
    ensures Other(CRLF)
  {
    hide Dec, Signed, Other;
    OtherLine(LastModLine(date), "Last-Modified: " + date, 0);
    OtherLine(TypeLine(mime), "Content-Type: " + mime, 8);
    SignedHasNoCr(StartOf(r));
    SignedHasNoCr(EndOf(r, size));
    DigitsHaveNoCr(size);
    OtherLine(RangeLine(r, size),
      "Content-Range: bytes " + Signed(StartOf(r)) + "-" + Signed(EndOf(r, size)) + "/" + Dec(size), 8);
    OtherLine(CRLF, "", 0);
  }

  ghost predicate OtherLines(ps: seq<string>) {
    forall i | 0 <= i < |ps| :: Other(ps[i])
  }

  lemma OneLengthLine(before: seq<string>, n: nat, after: seq<string>)
    requires before != [] && OtherLines(before) && OtherLines(after)
    ensures Declares(Join(before + [LengthLine(n)] + after), n)
  {
    hide IsLine, LengthLine, Join, Declares;
    LengthIsLine(n);
    LinesDeclare(before + [LengthLine(n)] + after, |before|, n);
  }

  lemma FixedLines(code: string)
    requires '\r' !in code
    ensures Other(StatusLine(code))
    ensures Other(AcceptLine())
  {
    OtherLine(StatusLine(code), "HTTP/1.1 " + code, 0);
    OtherLine(AcceptLine(), "Accept-Ranges: bytes", 0);
  }

  lemma ListingHeadDeclares(html: string, date: string)
    requires '\r' !in date
    ensures Declares(Join(ListingHead(Some(html), date)), |html|)
  {
    var n, mime := |html|, "text/html; charset=UTF-8";
    TextLines(date, mime, NO_RANGE, 0);
    FixedLines("200");
    hide Other, LengthLine, LastModLine, TypeLine, StatusLine, Declares, Join;
    var before, after := [StatusLine("200"), TypeLine(mime)], [LastModLine(date), CRLF];
    assert ListingHead(Some(html), date) == before + [LengthLine(n)] + after;
    OneLengthLine(before, n, after);
  }

  lemma FileHeadDeclares(r: RangeSpec, size: nat, date: string, mime: string)
    requires '\r' !in date && '\r' !in mime
    ensures Declares(Join(FileHead(r, size, date, mime)), size)
  {
    hide Other, LengthLine, LastModLine, TypeLine, RangeLine, StatusLine, AcceptLine, Declares, Join, RangeGiven;
    TextLines(date, mime, r, size);
    FixedLines("200");
    FixedLines("206");
    assert OtherLines(FileOpening(r, size, date)) && OtherLines([TypeLine(mime), CRLF]);
    hide FileOpening;
    OneLengthLine(FileOpening(r, size, date), size, [TypeLine(mime), CRLF]);
  }

  // ----- The heads, byte by byte -----

  lemma JoinOne(a: string)
    ensures Join([a]) == a
  {
    assert [a][..0] == [];
  }

  lemma JoinMore(pieces: seq<string>, a: string)
    ensures Join(pieces + [a]) == Join(pieces) + a
  {
    assert (pieces + [a])[..|pieces|] == pieces;
  }

  lemma JoinThree(a: string, b: string, c: string)
    ensures Join([a, b, c]) == a + b + c
  {
    hide Join;
    JoinOne(a);
    JoinMore([a], b);
    JoinMore([a, b], c);
    assert [a] + [b] == [a, b] && [a, b] + [c] == [a, b, c];
  }

  lemma JoinFive(a: string, b: string, c: string, d: string, e: string)
    ensures Join([a, b, c, d, e]) == a + b + c + d + e
  {
    hide Join;
    JoinThree(a, b, c);
    JoinMore([a, b, c], d);
    JoinMore([a, b, c, d], e);
    assert [a, b, c] + [d] == [a, b, c, d] && [a, b, c, d] + [e] == [a, b, c, d, e];
  }

  lemma JoinSix(a: string, b: string, c: string, d: string, e: string, f: string)
    ensures Join([a, b, c, d, e, f]) == a + b + c + d + e + f
  {
    hide Join;
    JoinFive(a, b, c, d, e);
    JoinMore([a, b, c, d, e], f);
    assert [a, b, c, d, e] + [f] == [a, b, c, d, e, f];
  }

  /** The head of a listing. */
  lemma ListingHeadText(html: string, date: string)
    ensures Join(ListingHead(Some(html), date)) ==
            ("HTTP/1.1 " + "200" + "\r\n") + ("Content-Type: " + "text/html; charset=UTF-8" + "\r\n")
            + ("Content-Length: " + Dec(|html|) + "\r\n") + ("Last-Modified: " + date + "\r\n") + "\r\n"
  {
    hide Join, Dec;
    JoinFive(StatusLine("200"), TypeLine("text/html; charset=UTF-8"), LengthLine(|html|), LastModLine(date), CRLF);
  }

  /** The head of a file that is asked for without a range. */
  lemma FileHeadText(size: nat, date: string, mime: string)
    ensures Join(FileHead(NO_RANGE, size, date, mime)) ==
            ("HTTP/1.1 " + "200" + "\r\n") + ("Accept-Ranges: bytes" + "\r\n") + ("Last-Modified: " + date + "\r\n")
            + ("Content-Length: " + Dec(size) + "\r\n") + ("Content-Type: " + mime + "\r\n") + "\r\n"
  {
    hide Join, Dec, StatusLine, AcceptLine, LastModLine, LengthLine, TypeLine;
    var a, b, c, d, e := StatusLine("200"), AcceptLine(), LastModLine(date), LengthLine(size), TypeLine(mime);
    assert FileHead(NO_RANGE, size, date, mime) == [a, b, c, d, e, CRLF];
    JoinSix(a, b, c, d, e, CRLF);
    LineTexts("200", size, date, mime);
  }

  lemma LineTexts(code: string, size: nat, date: string, mime: string)
    ensures StatusLine(code) == "HTTP/1.1 " + code + "\r\n" && AcceptLine() == "Accept-Ranges: bytes" + "\r\n"
    ensures LastModLine(date) == "Last-Modified: " + date + "\r\n" && LengthLine(size) == "Content-Length: " + Dec(size) + "\r\n"
    ensures TypeLine(mime) == "Content-Type: " + mime + "\r\n"
  {
  }

  /** The bounds that a printed range announces, as text. */
  function BoundsText(f: RangeForm, size: nat): string {
    match f
    case Between(a, b) => Dec(a) + "-" + Dec(b)
    case From(a) => Dec(a) + "-" + (if size == 0 then "-" + Dec(1) else Dec(size - 1))
    case Suffix(b) => Dec(0) + "-" + Dec(b)
  }

  /** The head of a file that is asked for with a range. */
  lemma RangedHeadText(f: RangeForm, size: nat, date: string, mime: string)
    ensures Join(FileHead(Denoted(f), size, date, mime)) ==
            ("HTTP/1.1 " + "206" + "\r\n") + ("Last-Modified: " + date + "\r\n")
            + ("Content-Range: bytes " + BoundsText(f, size) + "/" + Dec(size) + "\r\n")
            + ("Content-Length: " + Dec(size) + "\r\n") + ("Content-Type: " + mime + "\r\n") + "\r\n"
  {
    hide Join, Dec, StatusLine, AcceptLine, LastModLine, LengthLine, TypeLine, RangeLine, BoundsText;
    var r := Denoted(f);
    var a, b, c, d, e := StatusLine("206"), LastModLine(date), RangeLine(r, size), LengthLine(size), TypeLine(mime);
    assert FileHead(r, size, date, mime) == [a, b, c, d, e, CRLF];
    JoinSix(a, b, c, d, e, CRLF);
    LineTexts("206", size, date, mime);
    RangeLineText(f, size);
  }

  lemma RangeLineText(f: RangeForm, size: nat)
    ensures RangeLine(Denoted(f), size) == "Content-Range: bytes " + BoundsText(f, size) + "/" + Dec(size) + "\r\n"
  {
    hide Dec, Signed, StartOf, EndOf, Denoted, BoundsText;
    BoundsSigned(f, size);
    PiecesOfRange(Signed(StartOf(Denoted(f))), Signed(EndOf(Denoted(f), size)), Dec(size));
  }

  lemma BoundsSigned(f: RangeForm, size: nat)
    ensures Signed(StartOf(Denoted(f))) + "-" + Signed(EndOf(Denoted(f), size)) == BoundsText(f, size)
  {
    hide Dec;
  }

  lemma PiecesOfRange(x: string, y: string, n: string)
    ensures "Content-Range: bytes " + x + "-" + y + "/" + n + CRLF == "Content-Range: bytes " + (x + "-" + y) + "/" + n + "\r\n"
  {
    var t := "Content-Range: bytes ";
    assert t + x + "-" + y == t + (x + "-" + y);
  }

  /** The answers that carry no file: what is not there, what cannot be looked at, and a
      directory without its slash. */
  lemma OtherHeads(conf: Config, req: Request, fs: FileSystem, unset: (int, int))
    requires req.verb.Some? && req.path.Some?
    ensures var path, r := RealPath(conf.servePath, req.path.value), ResponseFor(conf, req, fs, unset);
            && (fs.stat(path).Missing? ==>
                 && r.head == ("HTTP/1.1 " + "404" + "\r\n") + ("Accept-Ranges: bytes" + "\r\n")
                              + ("Content-Type: " + "text/plain" + "\r\n") + ("Content-Length: " + Dec(26) + "\r\n") + "\r\n"
                 && r.body == if req.verb == Some("HEAD") then None else Some("Error 404: file not found\n"))
            && (fs.stat(path).Unreadable? ==> r.head == "HTTP/1.1 " + "500" + "\r\n" + "\r\n" && r.body.None?)
            && (fs.stat(path).Found? && fs.stat(path).isDir && !EndsInSlash(Decoded(req.path.value)) ==>
                 && r.head == ("HTTP/1.1 " + "301" + "\r\n") + ("Location: " + Decoded(req.path.value) + "/\r\n")
                              + ("Accept-Ranges: bytes" + "\r\n")
                 && r.body.None?)
  {
    hide Join, RealPath, Decoded, EndsInSlash, Dec, StatusLine, AcceptLine, TypeLine, LengthLine, LocationLine;
    var decoded := Decoded(req.path.value);
    assert |NOT_FOUND| == 26;
    JoinFive(StatusLine("404"), AcceptLine(), TypeLine("text/plain"), LengthLine(26), CRLF);
    JoinOne(StatusLine("500") + CRLF);
    JoinThree(StatusLine("301"), LocationLine(decoded), AcceptLine());
    OtherTexts(decoded);
  }

  lemma OtherTexts(decoded: string)
    ensures StatusLine("404") == "HTTP/1.1 " + "404" + "\r\n" && StatusLine("500") == "HTTP/1.1 " + "500" + "\r\n"
    ensures StatusLine("301") == "HTTP/1.1 " + "301" + "\r\n" && AcceptLine() == "Accept-Ranges: bytes" + "\r\n"
    ensures TypeLine("text/plain") == "Content-Type: " + "text/plain" + "\r\n"
    ensures LengthLine(26) == "Content-Length: " + Dec(26) + "\r\n"
    ensures LocationLine(decoded) == "Location: " + decoded + "/\r\n"
  {
  }

  // ----- Requests without a Range header -----

  /** The disk holds as many bytes as stat reported. */
  predicate Matches(fs: FileSystem, path: string, size: nat) {
    fs.disk(path).Regular? && |fs.disk(path).contents| == size < SIZE_T_LIMIT
  }

  /** There is a file, or a listing, to answer the request with. */
  predicate Servable(conf: Config, req: Request, fs: FileSystem)
    requires req.path.Some?
  {
    var decoded, path := Decoded(req.path.value), RealPath(conf.servePath, req.path.value);
    match fs.stat(path)
    case BrokenLink => Matches(fs, path, 0)
    case Found(isDir, size) =>
      if !isDir then Matches(fs, path, size)
      else if !EndsInSlash(decoded) then false
      else if IndexOf(conf, path, fs).Some? then
        Matches(fs, IndexOf(conf, path, fs).value.0, IndexOf(conf, path, fs).value.1)
      else
        fs.page(path, decoded).Some? && |fs.page(path, decoded).value| < SIZE_T_LIMIT
    case _ => false
  }

  /** That file's bytes, or that listing's HTML. */
  function Wanted(conf: Config, req: Request, fs: FileSystem): string
    requires req.path.Some? && Servable(conf, req, fs)
  {
    var decoded, path := Decoded(req.path.value), RealPath(conf.servePath, req.path.value);
    match fs.stat(path)
    case BrokenLink => fs.disk(path).contents
    case Found(isDir, size) =>
      if !isDir then fs.disk(path).contents
      else
        match IndexOf(conf, path, fs)
        case Some(ix) => fs.disk(ix.0).contents
        case None => fs.page(path, decoded).value
  }

  /** The directory asked for cannot be read. */
  predicate ListingFails(conf: Config, req: Request, fs: FileSystem)
    requires req.path.Some?
  {
    var decoded, path := Decoded(req.path.value), RealPath(conf.servePath, req.path.value);
    && fs.stat(path).Found? && fs.stat(path).isDir && EndsInSlash(decoded)
    && IndexOf(conf, path, fs).None? && fs.page(path, decoded).None?
  }

  /** Without a Range header the response is whole exactly when there is something to
      serve, or an empty page in place of a listing that failed. A 404 has no range at
      all. */
  lemma WholeExactly(conf: Config, req: Request, fs: FileSystem, unset: (int, int))
    requires req.verb.Some? && req.path.Some? && req.range == NO_RANGE
    requires !fs.stat(RealPath(conf.servePath, req.path.value)).Missing?
    ensures Whole(ResponseFor(conf, req, fs, unset)) <==>
            Servable(conf, req, fs) || ListingFails(conf, req, fs)
  {
    hide Join, RealPath, Decoded, EndsInSlash, IndexOf;
  }

  /** What there is to serve is the payload, from its first byte. */
  lemma PayloadWanted(conf: Config, req: Request, fs: FileSystem, unset: (int, int))
    requires req.verb.Some? && req.path.Some? && req.range == NO_RANGE && Servable(conf, req, fs)
    ensures var res := ResponseFor(conf, req, fs, unset);
            Whole(res) && res.rangeStart == 0 && Payload(res) == Wanted(conf, req, fs)
  {
    hide Join, RealPath, Decoded, EndsInSlash, FileHead, ListingHead, Squeeze;
  }

  /** Its head announces its length. */
  lemma HeadAnnounces(conf: Config, req: Request, fs: FileSystem, unset: (int, int))
    requires req.verb.Some? && req.path.Some? && req.range == NO_RANGE
    requires Servable(conf, req, fs) && CleanTexts(fs)
    ensures Declares(ResponseFor(conf, req, fs, unset).head, |Wanted(conf, req, fs)|)
  {
    hide Join, RealPath, Decoded, EndsInSlash, FileHead, ListingHead, Declares, Squeeze;
    var decoded, path := Decoded(req.path.value), RealPath(conf.servePath, req.path.value);
    match fs.stat(path)
    case BrokenLink =>
      FileHeadDeclares(NO_RANGE, 0, fs.lastMod(path), fs.mime(path));
    case Found(isDir, size) =>
      if !isDir {
        FileHeadDeclares(NO_RANGE, size, fs.lastMod(path), fs.mime(path));
      } else {
        match IndexOf(conf, path, fs)
        case Some(ix) => FileHeadDeclares(NO_RANGE, ix.1, fs.lastMod(ix.0), fs.mime(ix.0));
        case None => ListingHeadDeclares(fs.page(path, decoded).value, fs.lastMod(path));
      }
    case _ =>
  }

  /** A HEAD request gets the head its GET would get. */
  lemma HeadLikeGet(conf: Config, req: Request, fs: FileSystem, unset: (int, int))
    requires req.path.Some?
    ensures ResponseFor(conf, req.(verb := Some("HEAD")), fs, unset).head
         == ResponseFor(conf, req.(verb := Some("GET")), fs, unset).head
  {
    hide Join, RealPath, Decoded;
  }

  /** Nothing has been sent of a new response, and its file cursor is where the
      range starts. */
  lemma NewResponse(conf: Config, req: Request, fs: FileSystem, unset: (int, int))
    requires req.verb.Some? && req.path.Some?
    ensures var res := ResponseFor(conf, req, fs, unset);
            res.headSent == 0 && res.bodySent == 0
            && (res.body.None? && res.disk.Regular? ==> res.offset == res.rangeStart)
  {
    hide Join, RealPath, Decoded;
  }

  /** With "dir" as the serve path and "index.html" as the index, a request for "/"
      makes resolve_path write one byte more than it has allocated, whatever memory it
      gets. */
  lemma IndexPathTooLong(mem: int -> char)
    ensures var conf := Config("dir", Some("index.html"), 20);
            && ValidConfig(conf) && RealPath(conf.servePath, "/") == "dir" && EndsInSlash(Decoded("/"))
            && BytesUsed(mem, conf.servePath, conf.index.value) == Allocated(conf.servePath, conf.index.value) + 1
  {
    DecodeWithoutPercent("/");
    CStrOfNulFree("/");
    assert Squeezed("dir");
    AllocationShort(mem);
  }

  // ----- Building it -----

  /** buf_append_str of each piece. */
  method AppendAll(head: Buffer, pieces: seq<string>)
    requires head.Valid()
    modifies head, head.data
    ensures head.Valid() && head.Contents() == old(head.Contents()) + Join(pieces)
    ensures head.data == old(head.data) || fresh(head.data)
  {
    assert pieces[..0] == [];
    for i := 0 to |pieces|
      invariant head.Valid() && (head.data == old(head.data) || fresh(head.data))
      invariant head.Contents() == old(head.Contents()) + Join(pieces[..i])
    {
      head.Append(pieces[i]);
      assert pieces[..i + 1][..i] == pieces[..i];
      assert head.Contents() == old(head.Contents()) + (Join(pieces[..i]) + pieces[i]);
    }
    assert pieces[..|pieces|] == pieces;
  }

  /** A buffer filled with the pieces, read back. */
  method HeadOf(pieces: seq<string>) returns (text: string)
    ensures text == Join(pieces)
  {
    var head := new Buffer(4096);
    AppendAll(head, pieces);
    text := head.data[..head.nItems];
  }

  /** The path as the client meant it: squeezed, then decoded. The next function reads
      the decoded bytes as a C string, up to a NUL that an escape may have put there. */
  method DecodePath(requestPath: string) returns (decoded: string)
    requires NUL !in requestPath
    ensures decoded == Decoded(requestPath)
  {
    hide Squeeze, DecodeUrl, CStr;
    var clean, n := CleanupPath(requestPath);
    SqueezeAddsNothing(requestPath);
    var bytes, k := DecodeUrlInto(clean[..n]);
    decoded := CStr(bytes[..k]);
  }

  /** resolve_path below a directory named without a double slash: whatever memory
      malloc hands out, the path is the one meant. */
  method FindPath(dir: string, name: string) returns (path: string)
    requires dir != [] && Squeezed(dir) && NUL !in dir && NUL !in name
    ensures path == if IsHere(name) then dir else Squeeze(dir + "/" + name)
    ensures path != [] && Squeezed(path) && NUL !in path
  {
    hide Squeeze, JoinedIn;
    var mem: int -> char := *;
    path := ResolvePath(mem, dir, name);
    JoinOfSqueezed(mem, dir, name);
    SqueezeSqueezes(dir + "/" + name);
    SqueezeAddsNothing(dir + "/" + name);
  }

  /** make_http_response, with the heads written into a growing buffer. */
  method MakeHttpResponse(conf: Config, req: Request, fs: FileSystem, unset: (int, int)) returns (res: Response)
    requires ValidConfig(conf)
    requires req.verb.Some? && req.path.Some? && NUL !in req.path.value
    ensures res == ResponseFor(conf, req, fs, unset)
  {
    hide Squeeze, Join, NotFoundHead, RedirectHead, FileResponse, DirResponse, JoinedIn;
    var decoded := DecodePath(req.path.value);
    CStrHasNoNul(DecodeUrl(Squeeze(req.path.value)));
    var path := FindPath(conf.servePath, decoded);
    assert path == RealPath(conf.servePath, req.path.value);
    match fs.stat(path)
    case Missing =>
      var text := HeadOf(NotFoundHead());
      var isHead := req.verb.value == "HEAD";
      res := Response(text, 0, if isHead then None else Some(NOT_FOUND), 0, true, Absent, 0, unset.0, unset.1);
    case Unreadable =>
      var text := HeadOf([StatusLine("500") + CRLF]);
      res := Response(text, 0, None, 0, true, Absent, 0, unset.0, unset.1);
    case BrokenLink =>
      res := MakeFileResponse(req.range, path, 0, fs);
    case Found(isDir, size) =>
      if !isDir {
        res := MakeFileResponse(req.range, path, size, fs);
      } else if !EndsInSlash(decoded) {
        var text := HeadOf(RedirectHead(decoded));
        res := Response(text, 0, None, 0, false, Directory, 0, unset.0, unset.1);
      } else {
        res := ServeDirectory(conf, req.range, path, decoded, fs);
      }
  }

  /** The branch for a directory: its index file, or else its listing. */
  method ServeDirectory(conf: Config, r: RangeSpec, path: string, decoded: string, fs: FileSystem) returns (res: Response)
    requires ValidConfig(conf) && path != [] && Squeezed(path) && NUL !in path
    ensures res == match IndexOf(conf, path, fs)
                   case Some(ix) => FileResponse(r, ix.0, ix.1, fs)
                   case None => DirResponse(r, path, decoded, fs)
  {
    hide Squeeze, Join, FileResponse;
    if conf.index.Some? {
      var ipath := FindPath(path, conf.index.value);
      match fs.stat(ipath)
      case Found(_, size) =>
        res := MakeFileResponse(r, ipath, size, fs);
        return;
      case _ =>
    }
    var page := fs.page(path, decoded);
    var text := HeadOf(ListingHead(page, fs.lastMod(path)));
    var body := if page.Some? then page.value else [];
    res := Response(text, 0, Some(body), 0, false, Directory, 0, StartOf(r), EndOf(r, |body|));
  }

  /** The branch for a single file. */
  method MakeFileResponse(r: RangeSpec, path: string, size: nat, fs: FileSystem) returns (res: Response)
    ensures res == FileResponse(r, path, size, fs)
  {
    hide Join, FileHead;
    var start, end := StartOf(r), EndOf(r, size);
    var text := HeadOf(FileHead(r, size, fs.lastMod(path), fs.mime(path)));
    res := Response(text, 0, None, 0, false, fs.disk(path), start, start, end);
  }
}
