/** A link of a directory listing leads back to the listed file: printing,
    parsing, squeezing, decoding and joining compose to the identity on paths. */
module Links {
  import opened Ascii
  import opened Text
  import opened Grammar
  import opened RequestParser
  import opened ParserExactness
  import opened Url
  import opened Paths

  /** A name that can stand in a directory. */
  ghost predicate IsSegment(s: string) {
    s != [] && '/' !in s && NUL !in s && IsBytes(s)
  }

  ghost predicate AreSegments(segs: seq<string>) {
    forall i | 0 <= i < |segs| :: IsSegment(segs[i])
  }

  /** Listings add a slash to the names of directories. */
  function Slash(dir: bool): string {
    if dir then "/" else ""
  }

  /** "/" and the segment, for each segment. */
  function PlainPath(segs: seq<string>, dir: bool): string {
    if segs == [] then Slash(dir) else "/" + (segs[0] + PlainPath(segs[1..], dir))
  }

  /** The same path as the links of the listings spell it. */
  function LinkPath(segs: seq<string>, dir: bool): string
    requires AreSegments(segs)
  {
    if segs == [] then Slash(dir) else "/" + (EncodeUrl(segs[0]) + LinkPath(segs[1..], dir))
  }

  /** The request path, squeezed and decoded, as the C string it is used as. */
  function Decoded(requestPath: string): string {
    CStr(DecodeUrl(Squeeze(requestPath)))
  }

  /** The path on the server that make_http_response looks up for a request path. */
  function RealPath(servePath: string, requestPath: string): string {
    var decoded := Decoded(requestPath);
    if IsHere(decoded) then servePath else Squeeze(servePath + "/" + decoded)
  }

  lemma {:induction false} EncodedIsPlain(s: string)
    requires IsSegment(s)
    ensures EncodeUrl(s) != [] && '/' !in EncodeUrl(s) && NUL !in EncodeUrl(s)
    ensures forall i | 0 <= i < |EncodeUrl(s)| :: IsPathChar(EncodeUrl(s)[i])
  {
    EncodingShape(s);
    var e := EncodeUrl(s);
    forall i | 0 <= i < |e| ensures e[i] != '/' && e[i] != NUL && IsPathChar(e[i]) {
    }
  }

  lemma {:induction false} LinkIsPathText(segs: seq<string>, dir: bool)
    requires AreSegments(segs)
    ensures var p := LinkPath(segs, dir);
            NUL !in p && forall i | 0 <= i < |p| :: IsPathChar(p[i])
    decreases |segs|
  {
    hide EncodeUrl;
    if segs != [] {
      EncodedIsPlain(segs[0]);
      LinkIsPathText(segs[1..], dir);
    }
  }

  /** Segments joined by single slashes have no double slash. */
  lemma JoinSqueezed(seg: string, rest: string)
    requires seg != [] && '/' !in seg && Squeezed(rest)
    ensures Squeezed("/" + (seg + rest))
  {
    var p := "/" + (seg + rest);
    forall i | 0 <= i < |p| - 1 ensures !(p[i] == '/' && p[i + 1] == '/') {
      if i == 0 {
        assert p[1] == seg[0];
      } else if i <= |seg| {
        assert p[i] == seg[i - 1];
      } else {
        var k := i - 1 - |seg|;
        assert p[i] == rest[k] && p[i + 1] == rest[k + 1];
      }
    }
  }

  lemma {:induction false} LinkSqueezed(segs: seq<string>, dir: bool)
    requires AreSegments(segs)
    ensures Squeezed(LinkPath(segs, dir)) && Squeezed(PlainPath(segs, dir))
    decreases |segs|
  {
    if segs != [] {
      EncodedIsPlain(segs[0]);
      LinkSqueezed(segs[1..], dir);
      hide EncodeUrl, Squeezed;
      JoinSqueezed(EncodeUrl(segs[0]), LinkPath(segs[1..], dir));
      JoinSqueezed(segs[0], PlainPath(segs[1..], dir));
    }
  }

  lemma {:induction false} LinkDecodes(segs: seq<string>, dir: bool)
    requires AreSegments(segs)
    ensures DecodeUrl(LinkPath(segs, dir)) == PlainPath(segs, dir)
    ensures NUL !in PlainPath(segs, dir)
    decreases |segs|
  {
    if segs == [] {
      DecodeWithoutPercent(Slash(dir));
    } else {
      hide EncodeUrl, DecodeUrl;
      LinkDecodes(segs[1..], dir);
      var rest := LinkPath(segs[1..], dir);
      DecodeEncodedThen(segs[0], rest);
      DecodeSlashThen(EncodeUrl(segs[0]) + rest);
    }
  }

  lemma DecodeSlashThen(s: string)
    ensures DecodeUrl("/" + s) == "/" + DecodeUrl(s)
  {
    assert ("/" + s)[1..] == s;
  }

  /** The only listed path that is one of the names of the root itself. */
  lemma HereExactly(segs: seq<string>, dir: bool)
    requires AreSegments(segs) && segs != []
    ensures IsHere(PlainPath(segs, dir)) <==> segs == ["."] && !dir
  {
    var rest, p := PlainPath(segs[1..], dir), PlainPath(segs, dir);
    assert p == "/" + (segs[0] + rest) && p[1] == segs[0][0];
    if p == "/." {
      assert |segs[0]| == 1 && |rest| == 0;
      assert segs[0] == ".";
      assert segs == [segs[0]] + segs[1..];
    }
    if segs == ["."] && !dir {
      assert segs[1..] == [] && rest == [];
    }
  }

  /** A joined path: the serve path, one slash, the rest of the plain path. */
  function Joined(servePath: string, plain: string): string
    requires servePath != []
  {
    (if Last(servePath) == '/' then servePath[..|servePath| - 1] else servePath) + plain
  }

  /** Whatever the parser stores as the path of a request for a listed link, the
      server looks up the listed file: the serve path joined with the segments by
      single slashes, or the serve path itself for the lone segment ".". */
  lemma LinkResolves(servePath: string, segs: seq<string>, dir: bool)
    requires servePath != [] && Squeezed(servePath)
    requires segs != [] && AreSegments(segs)
    ensures Squeeze(LinkPath(segs, dir)) == LinkPath(segs, dir)
    ensures RealPath(servePath, LinkPath(segs, dir)) ==
            if segs == ["."] && !dir then servePath else Joined(servePath, PlainPath(segs, dir))
  {
    hide Squeeze, Squeezed, DecodeUrl, LinkPath, PlainPath;
    LinkSqueezed(segs, dir);
    SqueezeFixes(LinkPath(segs, dir));
    LinkDecodes(segs, dir);
    CStrOfNulFree(PlainPath(segs, dir));
    HereExactly(segs, dir);
    PlainStart(segs, dir);
    JoinPlain(servePath, PlainPath(segs, dir));
  }

  lemma PlainStart(segs: seq<string>, dir: bool)
    requires segs != [] && AreSegments(segs)
    ensures var p := PlainPath(segs, dir); |p| >= 2 && p[0] == '/' && p[1] != '/'
  {
    assert PlainPath(segs, dir)[1] == segs[0][0];
  }

  lemma JoinPlain(servePath: string, plain: string)
    requires servePath != [] && Squeezed(servePath)
    requires |plain| >= 2 && plain[0] == '/' && plain[1] != '/' && Squeezed(plain)
    ensures Squeeze(servePath + "/" + plain) == Joined(servePath, plain)
  {
    hide Squeeze, Squeezed, TrimSlashes;
    if Last(servePath) == '/' {
      JoinAfterSlash(servePath, plain);
      OneSlashTrimmed(plain);
      SqueezedTail(plain);
      SqueezeFixes(plain[1..]);
      var front := servePath[..|servePath| - 1];
      assert servePath + plain[1..] == front + plain;
    } else {
      JoinWithSlash(servePath, plain);
      SqueezeFixes(plain);
    }
  }

  lemma OneSlashTrimmed(plain: string)
    requires |plain| >= 2 && plain[0] == '/' && plain[1] != '/'
    ensures TrimSlashes(plain) == plain[1..]
  {
    assert plain[1..][0] == plain[1];
  }

  lemma SqueezedTail(s: string)
    requires s != [] && Squeezed(s)
    ensures Squeezed(s[1..])
  {
    forall i | 0 <= i < |s[1..]| - 1 ensures !(s[1..][i] == '/' && s[1..][i + 1] == '/') {
      assert s[1..][i] == s[i + 1] && s[1..][i + 1] == s[i + 2];
    }
  }

  /** End to end: a request for the link, sent as any well-formed message and
      parsed out of any buffer that starts with it, makes the server look up the
      listed file. */
  lemma {:induction false} ListedLinkRoundTrip(servePath: string, segs: seq<string>, dir: bool, m: Message, b: string)
    requires servePath != [] && Squeezed(servePath)
    requires segs != [] && AreSegments(segs)
    requires m.path == LinkPath(segs, dir)
    requires WellFormed(m.(path := "/")) && Print(m) <= b
    ensures Parsed(b).error.None? && Parsed(b).path == Some(m.path)
    ensures RealPath(servePath, m.path) ==
            if segs == ["."] && !dir then servePath else Joined(servePath, PlainPath(segs, dir))
  {
    hide LinkPath, RealPath, Print;
    LinkIsPathText(segs, dir);
    LinkNotEmpty(segs, dir);
    CStrOfNulFree(m.path);
    ParsePrinted(b, m);
    FieldsMeaning(m);
    LinkResolves(servePath, segs, dir);
  }

  lemma LinkNotEmpty(segs: seq<string>, dir: bool)
    requires segs != [] && AreSegments(segs)
    ensures LinkPath(segs, dir) != []
  {
  }

  // ----- Any spelling of a link -----

  /** p spells the segments, each behind a slash; within them any byte may be escaped,
      in any case. */
  ghost predicate SpellsPath(p: string, segs: seq<string>, dir: bool)
    decreases |segs|
  {
    if segs == [] then p == Slash(dir)
    else exists n :: 1 <= n <= |p| && SpellsFirst(p, n, segs[0]) && SpellsPath(p[n..], segs[1..], dir)
  }

  ghost predicate SpellsFirst(p: string, n: nat, seg: string)
    requires 1 <= n <= |p|
  {
    p[0] == '/' && '/' !in p[1..n] && Spells(p[1..n], seg)
  }

  lemma PieceSpells(e: string, rest: string, segs: seq<string>, dir: bool)
    requires segs != [] && '/' !in e && Spells(e, segs[0]) && SpellsPath(rest, segs[1..], dir)
    ensures SpellsPath("/" + (e + rest), segs, dir)
  {
    hide Spells;
    var p, n := "/" + (e + rest), 1 + |e|;
    assert p[1..n] == e && p[n..] == rest;
    assert SpellsFirst(p, n, segs[0]);
  }

  /** The link that a listing prints is one spelling. */
  lemma {:induction false} LinkSpells(segs: seq<string>, dir: bool)
    requires AreSegments(segs)
    ensures SpellsPath(LinkPath(segs, dir), segs, dir)
    decreases |segs|
  {
    hide EncodeUrl, Spells;
    if segs != [] {
      LinkSpells(segs[1..], dir);
      EncodedIsPlain(segs[0]);
      EncodingSpells(segs[0]);
      PieceSpells(EncodeUrl(segs[0]), LinkPath(segs[1..], dir), segs, dir);
    }
  }

  /** The first piece of a spelled path, with its slash. */
  lemma FirstSpelled(p: string, n: nat, seg: string)
    requires IsSegment(seg) && 1 <= n <= |p| && SpellsFirst(p, n, seg) && Squeezed(p[n..]) && NUL !in p[n..]
    ensures DecodeUrl(p) == "/" + (seg + DecodeUrl(p[n..]))
    ensures Squeezed(p) && NUL !in p
  {
    hide DecodeUrl, Spells, Squeezed, IsBytes;
    PieceDecodes(p[1..n], p[n..], seg);
    assert p == "/" + (p[1..n] + p[n..]);
  }

  lemma PieceDecodes(e: string, rest: string, seg: string)
    requires IsSegment(seg) && '/' !in e && Spells(e, seg) && Squeezed(rest) && NUL !in rest
    ensures var p := "/" + (e + rest);
            DecodeUrl(p) == "/" + (seg + DecodeUrl(rest)) && Squeezed(p) && NUL !in p
  {
    hide DecodeUrl, Spells, Squeezed, IsBytes;
    SpellingNotEmpty(e, seg);
    SpellingHasNoNul(e, seg);
    SpellingDecodes(e, seg, rest);
    JoinSqueezed(e, rest);
    DecodeSlashThen(e + rest);
  }

  lemma SpellingNotEmpty(e: string, seg: string)
    requires seg != [] && Spells(e, seg)
    ensures e != []
  {
  }

  lemma {:induction false} SpelledPathDecodes(p: string, segs: seq<string>, dir: bool)
    requires AreSegments(segs) && SpellsPath(p, segs, dir)
    ensures DecodeUrl(p) == PlainPath(segs, dir) && Squeezed(p)
    ensures NUL !in PlainPath(segs, dir) && NUL !in p
    decreases |segs|
  {
    hide DecodeUrl, SpellsFirst, Squeezed;
    if segs == [] {
      DecodeWithoutPercent(Slash(dir));
      SlashSqueezed(dir);
    } else {
      var n :| 1 <= n <= |p| && SpellsFirst(p, n, segs[0]) && SpellsPath(p[n..], segs[1..], dir);
      SpelledPathDecodes(p[n..], segs[1..], dir);
      FirstSpelled(p, n, segs[0]);
    }
  }

  lemma SlashSqueezed(dir: bool)
    ensures Squeezed(Slash(dir))
  {
  }

  /** Slashes are squeezed before the escapes are decoded: a path decodes to what it spells
      without its double slashes, up to the first NUL, even if that has double slashes of
      its own. */
  lemma DecodedExactly(p: string, s: string)
    requires Spells(Squeeze(p), s)
    ensures Decoded(p) == CStr(s)
  {
    hide DecodeUrl, Squeeze, Spells, CStr;
    SpellingDecodes(Squeeze(p), s, "");
    assert Squeeze(p) + "" == Squeeze(p) && s + "" == s;
    NothingDecodes();
  }

  lemma NothingDecodes()
    ensures DecodeUrl("") == ""
  {
  }

  /** The file or directory a link stands for. */
  function PathOfLink(servePath: string, segs: seq<string>, dir: bool): string
    requires servePath != []
  {
    if segs == [] || (segs == ["."] && !dir) then servePath else Joined(servePath, PlainPath(segs, dir))
  }

  /** Whatever spelling of a link a client sends, the server looks up what the link
      stands for. */
  lemma SpelledLinkResolves(servePath: string, p: string, segs: seq<string>, dir: bool)
    requires servePath != [] && Squeezed(servePath)
    requires (segs != [] || dir) && AreSegments(segs) && SpellsPath(p, segs, dir)
    ensures NUL !in p && Decoded(p) == PlainPath(segs, dir) && RealPath(servePath, p) == PathOfLink(servePath, segs, dir)
  {
    hide Squeeze, Squeezed, DecodeUrl, SpellsPath, PlainPath, IsHere;
    SpelledPathDecodes(p, segs, dir);
    SqueezeFixes(p);
    CStrOfNulFree(PlainPath(segs, dir));
    if segs == [] {
      RootIsHere();
    } else {
      HereExactly(segs, dir);
      PlainStart(segs, dir);
      LinkSqueezed(segs, dir);
      JoinPlain(servePath, PlainPath(segs, dir));
    }
  }

  lemma RootIsHere()
    ensures IsHere(PlainPath([], true))
  {
  }

  // ----- Index files -----

  /** The file called index in the directory that a link stands for. */
  lemma IndexInDir(servePath: string, segs: seq<string>, index: string)
    requires servePath != [] && Squeezed(servePath) && AreSegments(segs) && IsSegment(index)
    ensures var dir := PathOfLink(servePath, segs, true);
            dir != [] && Squeezed(dir)
            && Squeeze(dir + "/" + index) == Joined(servePath, PlainPath(segs + [index], false))
  {
    hide PlainPath, Squeeze, Squeezed;
    PlainPathThen(segs, index);
    SegmentStart(index);
    if segs == [] {
      EmptyPlain();
      assert PlainPath(segs, true) + index == "/" + index;
      if Last(servePath) == '/' {
        JoinAfterSlash(servePath, index);
        assert servePath[..|servePath| - 1] + ("/" + index) == servePath + index;
      } else {
        JoinWithSlash(servePath, index);
        assert servePath + ("/" + index) == servePath + "/" + index;
      }
    } else {
      var plain := PlainPath(segs, true);
      PlainStart(segs, true);
      LinkSqueezed(segs, true);
      JoinPlain(servePath, plain);
      SqueezeSqueezes(servePath + "/" + plain);
      PlainEnd(segs);
      var dir := Joined(servePath, plain);
      assert Last(dir) == '/';
      JoinAfterSlash(dir, index);
      assert Joined(servePath, plain + index) == dir + index;
    }
  }

  lemma EmptyPlain()
    ensures PlainPath([], true) == "/"
  {
  }

  /** A segment has no slash to trim or squeeze. */
  lemma SegmentStart(seg: string)
    requires IsSegment(seg)
    ensures Squeeze(TrimSlashes(seg)) == seg == Squeeze(seg) && At(seg, 0) != '/'
  {
    assert Squeezed(seg);
    SqueezeFixes(seg);
  }

  lemma {:induction false} PlainPathThen(segs: seq<string>, index: string)
    ensures PlainPath(segs + [index], false) == PlainPath(segs, true) + index
    decreases |segs|
  {
    if segs == [] {
      assert (segs + [index])[1..] == [];
      assert PlainPath(segs + [index], false) == "/" + (index + "");
    } else {
      PlainPathThen(segs[1..], index);
      assert (segs + [index])[1..] == segs[1..] + [index];
      assert segs[0] + (PlainPath(segs[1..], true) + index) == segs[0] + PlainPath(segs[1..], true) + index;
    }
  }

  lemma {:induction false} PlainEnd(segs: seq<string>)
    ensures PlainPath(segs, true) != [] && Last(PlainPath(segs, true)) == '/'
    decreases |segs|
  {
    if segs != [] { PlainEnd(segs[1..]); }
  }
}
