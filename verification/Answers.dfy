/** The two directions of a connection: the requests that came in and the answers
    that went out. */
module Answers {
  import opened Text
  import opened Numbers
  import opened Range
  import opened Grammar
  import opened RequestParser
  import opened ParserExactness
  import opened Responses

  // ----- Responses on their way -----

  /** The same response, perhaps further on its way. */
  ghost predicate SameResponse(a: Response, b: Response) {
    a == b.(headSent := a.headSent, bodySent := a.bodySent, offset := a.offset)
  }

  /** What a file lets fread see. */
  function Readable(disk: Disk): string {
    if disk.Regular? then disk.contents else []
  }

  /** k bytes of c from off on, where c reaches that far. */
  function Piece(c: string, off: int, k: int): string {
    if 0 <= off && 0 <= k && off + k <= |c| then c[off..off + k] else []
  }

  /** The file bytes a response can read at most. */
  function FileSize(res: Response): nat {
    if res.body.None? then |Readable(res.disk)| else 0
  }

  const FILE_BUF_LEN := 4096

  /** The part of a response that its cursors say is out. */
  ghost predicate Sent(isHead: bool, res: Response, text: string)
    requires res.headSent <= |res.head|
  {
    var h := res.head[..res.headSent];
    if isHead then text == h
    else if res.body.Some? then
      h <= text && (Whole(res) ==> res.bodySent <= |res.body.value| && text == h + res.body.value[..res.bodySent])
    else text == h + FilePart(res) && FileCursor(res)
  }

  /** The bytes between the start of the range and the file cursor. */
  function FilePart(res: Response): string {
    if res.disk.Regular? then Piece(res.disk.contents, res.rangeStart, res.offset - res.rangeStart) else []
  }

  /** The file cursor only moves inside the file, and not at all in a range of one
      byte. */
  ghost predicate FileCursor(res: Response) {
    res.disk.Regular? ==>
      && res.rangeStart <= res.offset
      && (res.rangeStart < res.offset ==> 0 <= res.rangeStart && res.offset <= |res.disk.contents|)
      && (res.rangeStart == res.rangeEnd ==> res.offset == res.rangeStart)
  }

  /** What can be out of a response that was cut off: a prefix of its head and its
      payload. Of a part of a body in memory only the head is known. */
  ghost predicate CutOff(isHead: bool, res: Response, text: string) {
    || text <= res.head + (if isHead then [] else Payload(res))
    || (!isHead && res.body.Some? && !Whole(res) && res.head <= text)
  }

  /** The bytes still to go out: of the head, and of the payload where the response is
      whole. On its last byte write_file sends nothing more. */
  function Rest(isHead: bool, res: Response): int {
    |res.head| - res.headSent + (if isHead then 0 else BodyRest(res))
  }

  function BodyRest(res: Response): nat {
    if res.body.Some? then Max(0, |res.body.value| - res.bodySent)
    else if res.offset == res.rangeEnd then 0
    else Max(0, |Readable(res.disk)| - res.offset)
  }

  // ----- Finished responses -----

  /** The file system as the response saw it, and what stood in its range fields
      where the source leaves them unset. */
  datatype Seen = Seen(fs: FileSystem, unset: (int, int))

  /** One exchange: the request as it was received, the response to it with its
      final cursors, and the bytes that went out. The last call of write_file, if
      there was one, was entered at offset start with room for room bytes. */
  datatype Served = Served(buf: string, seen: Seen, res: Response, text: string, start: int, room: int)

  /** strcasecmp(connection, "close") == 0. */
  predicate WantsClose(q: Request) {
    q.connection.Some? && Lower(q.connection.value) == "close"
  }

  /** The request can be answered: no error, or one behind the method, the path and
      the host. */
  predicate Essential(q: Request) {
    q.error.None? || (q.verb.Some? && q.path.Some? && q.host.Some?)
  }

  predicate IsHeadRequest(q: Request) {
    q.verb == Some("HEAD")
  }

  /** res is the response the server gives to the request in buf. */
  ghost predicate AnswerTo(conf: Config, buf: string, seen: Seen, res: Response) {
    var q := Parsed(buf);
    && Essential(q) && q.verb.Some? && q.path.Some?
    && SameResponse(res, ResponseFor(conf, q, seen.fs, seen.unset))
  }

  /** The offset at which a complete write_file leaves a file that is sent up to its
      last byte: where it started if that was the last byte of the range, else as
      far as there was room. */
  function LastOffset(res: Response, start: int, room: int): int {
    if start == res.rangeEnd then start else Min(start + room, |Readable(res.disk)|)
  }

  /** A complete write_file reads on until the end of the file, so that it misses
      less than one buffer. */
  ghost predicate Reached(res: Response, start: int, room: int) {
    Whole(res) ==> res.offset == LastOffset(res, start, room) && |Readable(res.disk)| - res.offset < FILE_BUF_LEN
  }

  /** What went out of a response that is over. */
  ghost predicate AllSent(isHead: bool, res: Response, text: string, start: int, room: int) {
    if isHead then text == res.head
    else if res.body.Some? then res.head <= text && (Whole(res) ==> text == res.head + res.body.value)
    else
      && text == res.head + FilePart(res) && FileCursor(res)
      && FileCursor(res.(offset := start)) && Reached(res, start, room)
  }

  /** An exchange as it should be: the answer to its own request, and out as it
      should be. */
  ghost predicate ServedRight(conf: Config, f: Served) {
    && AnswerTo(conf, f.buf, f.seen, f.res)
    && AllSent(IsHeadRequest(Parsed(f.buf)), f.res, f.text, f.start, f.room)
  }

  /** All bytes of the requests, and of the answers, in order. */
  ghost function Asked(log: seq<Served>): string {
    if log == [] then [] else Asked(log[..|log| - 1]) + log[|log| - 1].buf
  }

  ghost function Flat(log: seq<Served>): string {
    if log == [] then [] else Flat(log[..|log| - 1]) + log[|log| - 1].text
  }

  /** Every exchange is as it should be, and only the last one can have closed the
      connection. */
  ghost predicate HistoryRight(conf: Config, log: seq<Served>) {
    && (forall i | 0 <= i < |log| :: ServedRight(conf, log[i]))
    && (forall i | 0 <= i < |log| - 1 :: !WantsClose(Parsed(log[i].buf)))
  }

  /** No request asked for the connection to be closed. */
  ghost predicate StaysOpen(log: seq<Served>) {
    forall i | 0 <= i < |log| :: !WantsClose(Parsed(log[i].buf))
  }

  lemma HistoryGrows(conf: Config, log: seq<Served>, f: Served)
    requires HistoryRight(conf, log) && StaysOpen(log) && ServedRight(conf, f)
    ensures HistoryRight(conf, log + [f])
    ensures !WantsClose(Parsed(f.buf)) ==> StaysOpen(log + [f])
  {
    hide ServedRight, WantsClose, Parsed;
  }

  lemma FlatGrows(log: seq<Served>, f: Served)
    ensures Flat(log + [f]) == Flat(log) + f.text && Asked(log + [f]) == Asked(log) + f.buf
  {
    assert (log + [f])[..|log|] == log;
  }

  // ----- What an exchange gives the client -----

  /** The request in buf can be answered, has no Range header and names something the
      server can serve. */
  ghost predicate WantsWhole(conf: Config, buf: string, fs: FileSystem) {
    var q := Parsed(buf);
    Essential(q) && q.verb.Some? && q.path.Some? && q.range == NO_RANGE && Servable(conf, q, fs)
  }

  /** The page or file it names. */
  ghost function PageFor(conf: Config, buf: string, fs: FileSystem): string
    requires WantsWhole(conf, buf, fs)
  {
    Wanted(conf, Parsed(buf), fs)
  }

  /** A well-formed message without a Range header is such a request exactly when there
      is something to serve for its fields. */
  lemma MessageWantsWhole(conf: Config, buf: string, fs: FileSystem, m: Message)
    requires WellFormed(m) && Print(m) <= buf && RangeFree(m.headers)
    ensures Parsed(buf) == Fields(m) && Fields(m).path.Some? && (IsHeadRequest(Parsed(buf)) <==> m.verb == "HEAD")
    ensures WantsWhole(conf, buf, fs) <==> Servable(conf, Fields(m), fs)
  {
    ParsePrinted(buf, m);
    FieldsMeaning(m);
    NoRangeHeader(m);
    hide Servable, Print, Fields;
  }

  /** What answers such a request: the head goes out first and announces the length of
      the page or file. For HEAD that is all. Else a page follows in full. A file follows
      in full exactly when the last call of write_file did not start on its last byte and
      had room for the rest; else it is cut off less than one buffer before its end. */
  lemma Answered(conf: Config, f: Served)
    requires ServedRight(conf, f) && WantsWhole(conf, f.buf, f.seen.fs)
    ensures var page := PageFor(conf, f.buf, f.seen.fs);
            && (CleanTexts(f.seen.fs) ==> Declares(f.res.head, |page|))
            && if IsHeadRequest(Parsed(f.buf)) then f.text == f.res.head
               else
                 && f.res.head <= f.text <= f.res.head + page
                 && (f.text == f.res.head + page <==>
                     f.res.body.Some? || (f.start != |page| - 1 && |page| - f.start <= f.room))
                 && |f.res.head + page| - |f.text| < FILE_BUF_LEN
  {
    hide ResponseFor, Servable, Wanted, Declares, Parsed, CleanTexts;
    PayloadWanted(conf, Parsed(f.buf), f.seen.fs, f.seen.unset);
    if CleanTexts(f.seen.fs) {
      HeadAnnounces(conf, Parsed(f.buf), f.seen.fs, f.seen.unset);
    }
    if !IsHeadRequest(Parsed(f.buf)) && f.res.body.None? {
      FileWhole(f);
    }
  }

  /** A HEAD request for anything at all is answered by the head that a GET for the same
      would get. */
  lemma HeadAnswered(conf: Config, f: Served)
    requires ServedRight(conf, f) && IsHeadRequest(Parsed(f.buf))
    ensures f.text == ResponseFor(conf, Parsed(f.buf).(verb := Some("GET")), f.seen.fs, f.seen.unset).head
  {
    hide ResponseFor, Parsed, Essential;
    var q := Parsed(f.buf);
    assert q.(verb := Some("HEAD")) == q;
    HeadLikeGet(conf, q, f.seen.fs, f.seen.unset);
  }

  /** A file of one byte, asked for in this way, is never sent: each answer is its head
      alone, although that announces one byte. */
  lemma OneByteFileLost(conf: Config, f: Served)
    requires ServedRight(conf, f) && WantsWhole(conf, f.buf, f.seen.fs)
    requires f.res.body.None? && |PageFor(conf, f.buf, f.seen.fs)| == 1
    ensures f.text == f.res.head && (CleanTexts(f.seen.fs) ==> Declares(f.res.head, 1))
  {
    hide ResponseFor, Servable, Wanted, Declares, Parsed, CleanTexts;
    PayloadWanted(conf, Parsed(f.buf), f.seen.fs, f.seen.unset);
    if CleanTexts(f.seen.fs) {
      HeadAnnounces(conf, Parsed(f.buf), f.seen.fs, f.seen.unset);
    }
    assert f.res.head + [] == f.res.head;
  }

  /** There is such an answer to every such request, in full unless the file has one
      byte. */
  lemma AnswerPossible(conf: Config, buf: string, seen: Seen) returns (f: Served)
    requires WantsWhole(conf, buf, seen.fs)
    ensures f.buf == buf && f.seen == seen && ServedRight(conf, f)
    ensures !IsHeadRequest(Parsed(buf)) && (f.res.body.Some? || |PageFor(conf, buf, seen.fs)| != 1) ==>
            f.text == f.res.head + PageFor(conf, buf, seen.fs)
  {
    hide ResponseFor, Servable, Wanted, Declares, Parsed, CleanTexts, Essential, AllSent, Whole, Payload;
    var q := Parsed(buf);
    PayloadWanted(conf, q, seen.fs, seen.unset);
    AnswerBegins(conf, buf, seen);
    var r := ResponseFor(conf, q, seen.fs, seen.unset);
    if IsHeadRequest(q) {
      f := HeadOut(buf, seen, r);
    } else {
      f := AllOut(buf, seen, r);
    }
    AnswerMoves(conf, buf, seen, f.res, r);
  }

  lemma HeadOut(buf: string, seen: Seen, r: Response) returns (f: Served)
    ensures f.buf == buf && f.seen == seen && SameResponse(f.res, r) && AllSent(true, f.res, f.text, f.start, f.room)
  {
    f := Served(buf, seen, r, r.head, 0, 0);
  }

  lemma AllOut(buf: string, seen: Seen, r: Response) returns (f: Served)
    requires Whole(r) && r.rangeStart == 0
    ensures f.buf == buf && f.seen == seen && SameResponse(f.res, r) && AllSent(false, f.res, f.text, f.start, f.room)
    ensures f.res.body.Some? || |Payload(r)| != 1 ==> f.text == r.head + Payload(r)
  {
    if r.body.Some? {
      f := Served(buf, seen, r, r.head + r.body.value, 0, 0);
    } else {
      var n := |r.disk.contents|;
      var r' := r.(offset := LastOffset(r, 0, n));
      f := Served(buf, seen, r', r.head + FilePart(r'), 0, n);
      assert r.disk.contents[0..n] == r.disk.contents == r.disk.contents[0..];
    }
  }

  /** What went out of a file from the start of its range on. */
  lemma FileWhole(f: Served)
    requires Whole(f.res) && f.res.body.None? && AllSent(false, f.res, f.text, f.start, f.room)
    ensures var c := Payload(f.res);
            && f.res.head <= f.text <= f.res.head + c
            && (f.text == f.res.head + c <==>
                f.start != f.res.rangeEnd && |f.res.disk.contents| - f.start <= f.room)
            && |f.res.head + c| - |f.text| < FILE_BUF_LEN
  {
    var c, s := f.res.disk.contents, f.res.rangeStart;
    assert c[s..][..f.res.offset - s] == c[s..f.res.offset];
    PrefixBehind(f.res.head, FilePart(f.res), c[s..]);
  }

  lemma PrefixBehind(head: string, part: string, c: string)
    requires part <= c
    ensures head <= head + part <= head + c
    ensures head + part == head + c <==> |part| == |c|
  {
    assert (head + c)[..|head + part|] == head + part;
    assert (head + part)[..|head|] == head;
  }

  // ----- Steps on the way -----

  lemma AnswerMoves(conf: Config, buf: string, seen: Seen, a: Response, b: Response)
    requires SameResponse(a, b) && AnswerTo(conf, buf, seen, b)
    ensures AnswerTo(conf, buf, seen, a)
  {
    hide Parsed, ResponseFor, Essential;
  }

  /** Nothing but a part of the head is out. */
  ghost predicate OnlyHead(res: Response, text: string)
    requires res.headSent <= |res.head|
  {
    && text == res.head[..res.headSent] && res.bodySent == 0
    && (res.body.None? && res.disk.Regular? ==> res.offset == res.rangeStart)
  }

  lemma NothingSent(isHead: bool, res: Response)
    requires res.headSent == 0 && res.bodySent == 0
    requires res.body.None? && res.disk.Regular? ==> res.offset == res.rangeStart
    ensures OnlyHead(res, []) && Sent(isHead, res, [])
  {
    HeadMoves(isHead, res, [], 0, 0, 0);
    assert [] + res.head[0..0] == [];
  }

  lemma AnswerBegins(conf: Config, buf: string, seen: Seen)
    requires Essential(Parsed(buf)) && Parsed(buf).verb.Some? && Parsed(buf).path.Some?
    ensures AnswerTo(conf, buf, seen, ResponseFor(conf, Parsed(buf), seen.fs, seen.unset))
  {
    hide Parsed, ResponseFor, Essential;
  }

  /** k more bytes of the head. */
  lemma HeadMoves(isHead: bool, before: Response, text: string, k: nat, start: int, room: int)
    requires before.headSent + k <= |before.head| && OnlyHead(before, text)
    ensures var n, after := before.headSent, before.(headSent := before.headSent + k);
            var text' := text + before.head[n..n + k];
            OnlyHead(after, text') && Sent(isHead, after, text') && CutOff(isHead, after, text')
            && (isHead && after.headSent == |after.head| ==> AllSent(isHead, after, text', start, room))
  {
    var n := before.headSent;
    var h := before.head[..n + k];
    assert text + before.head[n..n + k] == h;
    assert h + [] == h;
    var whole := before.head + (if isHead then [] else Payload(before));
    assert whole[..|h|] == h;
  }

  /** The next bytes x of a body in memory. */
  lemma BodyMoves(before: Response, text: string, x: string, start: int, room: int)
    requires before.body.Some? && before.headSent == |before.head| && Sent(false, before, text)
    requires var n, body := before.bodySent, before.body.value;
             Whole(before) ==> n + |x| <= |body| && x == body[n..n + |x|]
    ensures var after := before.(bodySent := before.bodySent + |x|);
            Sent(false, after, text + x) && CutOff(false, after, text + x) && CutOff(false, before, text + x)
            && ((Whole(before) ==> after.bodySent == |after.body.value|) ==> AllSent(false, after, text + x, start, room))
  {
    var n, body := before.bodySent, before.body.value;
    assert before.head[..|before.head|] == before.head;
    PrefixStays(before.head, text, x);
    if Whole(before) {
      assert body[..n] + x == body[..n + |x|];
      assert text + x == before.head + body[..n + |x|];
      PrefixBehind(before.head, body[..n + |x|], body);
      assert body[..|body|] == body;
    }
  }

  lemma PrefixStays(h: string, text: string, x: string)
    ensures h <= text ==> h <= text + x
  {
  }

  /** How far write_file came: k bytes went out, the offset counts them unless the
      last send failed, a partial write has not reached the end, and a call that
      starts on the last byte of the range sends nothing. */
  ghost predicate Copied(before: Response, offset: int, k: nat, status: WriteStatus) {
    var off, c := before.offset, Readable(before.disk);
    && (k > 0 ==> 0 <= off && off + k <= |c| && !before.isNull)
    && off <= offset <= off + k
    && (off == before.rangeEnd ==> k == 0)
    && (status != FatalWrite ==> offset == off + k)
    && (status in {PartialWrite, MaxTries} ==> 0 <= off && off + k < |c| && !before.isNull)
  }

  datatype WriteStatus = PartialWrite | CompleteWrite | FatalWrite | MaxTries

  /** One call of write_file. */
  lemma FileMoves(before: Response, text: string, offset: int, k: nat, status: WriteStatus, room: int)
    requires before.body.None? && before.headSent == |before.head| && Sent(false, before, text)
    requires Copied(before, offset, k, status)
    ensures var x, after := Piece(Readable(before.disk), before.offset, k), before.(offset := offset);
            CutOff(false, after, text + x)
            && (status != FatalWrite ==> Sent(false, after, text + x))
            && (status != FatalWrite && Reached(after, before.offset, room) ==>
                AllSent(false, after, text + x, before.offset, room))
  {
    var x, after := Piece(Readable(before.disk), before.offset, k), before.(offset := offset);
    var all := before.(offset := before.offset + k);
    assert before.head[..|before.head|] == before.head;
    PartGrows(before, k);
    assert text + x == before.head + FilePart(all);
    PrefixBehind(before.head, FilePart(all), Payload(all));
  }

  lemma PartGrows(before: Response, k: nat)
    requires before.body.None? && FileCursor(before)
    requires k > 0 ==> 0 <= before.offset && before.offset + k <= |Readable(before.disk)|
    ensures var all := before.(offset := before.offset + k);
            FilePart(before) + Piece(Readable(before.disk), before.offset, k) == FilePart(all) <= Payload(all)
  {
    if before.disk.Regular? {
      PiecesJoin(before.disk.contents, before.rangeStart, before.offset, k);
      hide Piece;
      assert k == 0 ==> FilePart(before) + [] == FilePart(before);
    }
  }

  lemma PiecesJoin(c: string, s: int, n: int, k: nat)
    requires s <= n && (k > 0 ==> 0 <= n && n + k <= |c|) && (s < n ==> 0 <= s && n <= |c|)
    ensures Piece(c, s, n - s) + Piece(c, n, k) == Piece(c, s, n + k - s)
    ensures Piece(c, s, n + k - s) <= if 0 <= s <= |c| then c[s..] else []
  {
    if 0 <= s && n + k <= |c| {
      assert c[s..n] + c[n..n + k] == c[s..n + k];
      assert c[s..][..n + k - s] == c[s..n + k];
    }
  }

  lemma FuelProgress(before: Response, offset: int, k: nat, status: WriteStatus)
    requires before.body.None? && Copied(before, offset, k, status)
    ensures var after := before.(offset := offset);
            FileSize(after) == FileSize(before)
            && (status == PartialWrite ==> BytesLeft(after) == BytesLeft(before) - k)
  {
  }

  lemma PieceLength(before: Response, offset: int, k: nat, status: WriteStatus)
    requires Copied(before, offset, k, status)
    ensures |Piece(Readable(before.disk), before.offset, k)| == k
  {
  }

  lemma LeftBelowSize(res: Response)
    ensures BytesLeft(res) <= FileSize(res)
  {
  }

  lemma PieceOfNone(c: string, off: int)
    ensures Piece(c, off, 0) == [] && forall s: string :: s + [] == s
  {
  }

  /** j more bytes, taken from what was just read at pos; none after a short send. */
  lemma PieceThen(c: string, off: nat, k: nat, pos: nat, bytes: string, j: nat)
    requires off <= pos && pos + |bytes| <= |c| && bytes == Piece(c, pos, |bytes|)
    requires j <= |bytes| && (off + k == pos || (j == 0 && off + k < pos))
    ensures forall s: string :: s + Piece(c, off, k) + bytes[..j] == s + Piece(c, off, k + j)
  {
    assert Piece(c, off, k) + bytes[..j] == Piece(c, off, k + j);
    forall s: string ensures s + Piece(c, off, k) + bytes[..j] == s + Piece(c, off, k + j) {
      assert s + Piece(c, off, k) + bytes[..j] == s + (Piece(c, off, k) + bytes[..j]);
    }
  }
}
