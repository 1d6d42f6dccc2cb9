/** Slash squeezing and path joining (cleanup_path and resolve_path in dir.c). */
module Paths {
  import opened Text

  ghost predicate Squeezed(s: string) {
    forall i | 0 <= i < |s| - 1 :: !(s[i] == '/' && s[i + 1] == '/')
  }

  /** The path with every slash that follows a slash dropped. */
  function Squeeze(s: string): (t: string)
    ensures |t| <= |s| && (s == [] <==> t == [])
    ensures s != [] ==> t[0] == s[0] && t[|t| - 1] == s[|s| - 1]
  {
    var n := |s|;
    if n <= 1 then s
    else if s[n - 1] == '/' && s[n - 2] == '/' then Squeeze(s[..n - 1])
    else Squeeze(s[..n - 1]) + [s[n - 1]]
  }

  /** The finished non-empty components, in order, and the one being read. */
  function Cut(s: string): (seq<string>, string) {
    if s == [] then ([], "")
    else
      var (parts, part) := Cut(s[..|s| - 1]);
      var c := s[|s| - 1];
      if c != '/' then (parts, part + [c])
      else (if part == "" then parts else parts + [part], "")
  }

  /** The non-empty path components, in order. */
  function Components(s: string): seq<string> {
    var (parts, part) := Cut(s);
    if part == "" then parts else parts + [part]
  }

  /** cleanup_path: one byte more than the path is always enough. */
  method CleanupPath(path: string) returns (ret: array<char>, rp: nat)
    requires NUL !in path
    ensures fresh(ret) && ret.Length == |path| + 1
    ensures rp <= |path| && ret[..rp] == Squeeze(path) && ret[rp] == NUL
  {
    hide Squeeze;
    var l := |path|;
    ret := new char[l + 1];
    var p := 0;
    ghost var s := path + [NUL];
    assert s[..0] == [] && Squeeze([]) == [];
    for i := 0 to l + 1
      invariant p <= i
      invariant ret[..p] == Squeeze(s[..i])
    {
      var c := At(path, i);
      SqueezeSnoc(s[..i], c);
      assert s[..i] + [c] == s[..i + 1];
      if i > 0 && path[i - 1] == '/' && c == '/' {
        continue;
      }
      ghost var done := ret[..p];
      ret[p] := c;
      p := p + 1;
      assert ret[..p] == done + [c];
    }
    assert s[..l + 1] == s;
    SqueezeSnoc(path, NUL);
    rp := p - 1;
    assert ret[..rp] == ret[..p][..rp];
    assert ret[rp] == ret[..p][rp];
  }

  // ----- Squeezing -----

  lemma SqueezeSnoc(s: string, c: char)
    ensures Squeeze(s + [c]) ==
            if s != [] && s[|s| - 1] == '/' && c == '/' then Squeeze(s) else Squeeze(s) + [c]
  {
    assert (s + [c])[..|s|] == s;
  }

  lemma {:induction false} SqueezeSqueezes(s: string)
    ensures Squeezed(Squeeze(s))
  {
    if |s| > 1 {
      SqueezeSqueezes(s[..|s| - 1]);
    }
  }

  lemma {:induction false} SqueezeFixes(s: string)
    requires Squeezed(s)
    ensures Squeeze(s) == s
  {
    if |s| > 1 {
      SqueezeFixes(s[..|s| - 1]);
    }
  }

  lemma SqueezedSnoc(s: string)
    requires |s| >= 2 && !(s[|s| - 1] == '/' && s[|s| - 2] == '/')
    ensures Squeezed(s[..|s| - 1]) ==> Squeezed(s)
  {
    var init := s[..|s| - 1];
    if Squeezed(init) {
      forall i | 0 <= i < |s| - 1 ensures !(s[i] == '/' && s[i + 1] == '/') {
        assert i < |s| - 2 ==> !(init[i] == '/' && init[i + 1] == '/');
      }
    }
  }

  lemma {:induction false} SqueezeShortens(s: string)
    requires !Squeezed(s)
    ensures |Squeeze(s)| < |s|
  {
    var n := |s|;
    var init := s[..n - 1];
    if !(s[n - 1] == '/' && s[n - 2] == '/') {
      SqueezedSnoc(s);
      SqueezeShortens(init);
    }
  }

  lemma {:induction false} SqueezeKeepsCut(s: string)
    ensures Cut(Squeeze(s)) == Cut(s)
  {
    var n := |s|;
    if n > 1 {
      SqueezeKeepsCut(s[..n - 1]);
      assert (Squeeze(s[..n - 1]) + [s[n - 1]])[..|Squeeze(s[..n - 1])|] == Squeeze(s[..n - 1]);
    }
  }

  lemma {:induction false} SqueezeAddsNothing(s: string)
    ensures forall c | c in Squeeze(s) :: c in s
  {
    if |s| > 1 { SqueezeAddsNothing(s[..|s| - 1]); }
  }

  /** cleanup_path is idempotent, leaves no double slash, and keeps the path's
      components. */
  lemma CleanupLaws(s: string)
    ensures Squeezed(Squeeze(s))
    ensures Squeeze(Squeeze(s)) == Squeeze(s)
    ensures Components(Squeeze(s)) == Components(s)
    ensures Squeeze(s) == s <==> Squeezed(s)
  {
    SqueezeSqueezes(s);
    SqueezeFixes(Squeeze(s));
    SqueezeKeepsCut(s);
    if Squeezed(s) { SqueezeFixes(s); }
  }

  // ----- Joining -----

  predicate IsHere(p: string) {
    p == "." || p == "/" || p == "./" || p == "/." || p == "./."
  }

  function TrimSlashes(s: string): (t: string)
    ensures |t| <= |s| && (t == [] || t[0] != '/')
  {
    if s != [] && s[0] == '/' then TrimSlashes(s[1..]) else s
  }

  function Last(s: string): char
    requires s != []
  {
    s[|s| - 1]
  }

  /** What resolve_path leaves in the first |p1| bytes: the squeezed p1 and, behind
      it, what malloc found there. */
  function Front(p1: string, mem: int -> char): (s: string)
    ensures |s| == |p1|
  {
    var q := Squeeze(p1);
    q + seq(|p1| - |q|, i requires 0 <= i => mem(|q| + i))
  }

  /** The byte the cursor stands on behind p1; the one before the allocation if p1 is
      empty. */
  function Seam(mem: int -> char, p1: string): char {
    if p1 == [] then mem(-1) else Last(Front(p1, mem))
  }

  /** The bytes resolve_path writes in front of the terminator; mem is the memory it
      gets, from the byte in front of the allocation on. */
  function Written(mem: int -> char, p1: string, p2: string): string {
    var q := if Seam(mem, p1) == '/' then TrimSlashes(p2) else p2;
    Front(p1, mem) + (if Seam(mem, p1) != '/' && At(q, 0) != '/' then "/" else "") + Squeeze(q)
  }

  function JoinedIn(mem: int -> char, p1: string, p2: string): string {
    CStr(Written(mem, p1, p2))
  }

  /** The string resolve_path returns: a copy of the first path for the five names of
      the root. */
  function Resolved(mem: int -> char, p1: string, p2: string): string {
    if IsHere(p2) then p1 else JoinedIn(mem, p1, p2)
  }

  /** The two copying loops of resolve_path. */
  method CopySqueezed(done: string, p: string) returns (out: string)
    ensures out == done + Squeeze(p)
  {
    hide Squeeze;
    out := done;
    assert p[..0] == [] && Squeeze([]) == [];
    for i := 0 to |p|
      invariant out == done + Squeeze(p[..i])
    {
      SqueezeSnoc(p[..i], p[i]);
      assert p[..i] + [p[i]] == p[..i + 1];
      if i > 0 && p[i - 1] == '/' && p[i] == '/' {
        continue;
      }
      out := out + [p[i]];
      assert out == done + (Squeeze(p[..i]) + [p[i]]);
    }
    assert p[..|p|] == p;
  }

  /** resolve_path. The strings are copied byte by byte; in between, the cursor is
      placed by the length of p1 before squeezing. */
  method ResolvePath(mem: int -> char, p1: string, path: string) returns (res: string)
    requires NUL !in p1 && NUL !in path
    ensures res == Resolved(mem, p1, path)
  {
    hide Squeeze, CStr, TrimSlashes;
    var p2 := path;
    if IsHere(p2) { return p1; }
    var out := CopySqueezed("", p1);
    var n := |out|;
    out := out + seq(|p1| - n, i requires 0 <= i => mem(n + i));
    assert out == Front(p1, mem);
    hide Front;
    var last := if |p1| == 0 then mem(-1) else Last(out);
    if last == '/' {
      p2 := SkipSlashes(p2);
    }
    if last != '/' && At(p2, 0) != '/' {
      out := out + "/";
    } else {
      assert out + "" == out;
    }
    out := CopySqueezed(out, p2);
    res := CStr(out);
  }

  /** while (*p2 == '/') p2++. */
  method SkipSlashes(p: string) returns (p2: string)
    ensures p2 == TrimSlashes(p)
  {
    p2 := p;
    while p2 != [] && p2[0] == '/'
      invariant TrimSlashes(p2) == TrimSlashes(p)
      decreases |p2|
    {
      p2 := p2[1..];
    }
  }

  /** resolve_path returns the squeezing of both paths joined by a slash, whatever
      memory it gets, exactly when the first path is not empty and has no double
      slash itself, and the second is none of the five names of the root, unless it
      is "/" behind a slash. */
  lemma JoinExactly(p1: string, p2: string)
    requires NUL !in p1 && NUL !in p2
    ensures (forall mem :: Resolved(mem, p1, p2) == Squeeze(p1 + "/" + p2)) <==>
            p1 != [] && Squeezed(p1) && (IsHere(p2) ==> p2 == "/" && Last(p1) == '/')
  {
    hide JoinedIn, Squeeze;
    if IsHere(p2) {
      HereExactlyJoined(p1, p2);
      var some: int -> char := _ => 'x';
      assert Resolved(some, p1, p2) == p1;
    } else if p1 != [] && Squeezed(p1) {
      forall mem ensures Resolved(mem, p1, p2) == Squeeze(p1 + "/" + p2) {
        JoinOfSqueezed(mem, p1, p2);
      }
    } else {
      var mem := JoinSpoiled(p1, p2);
      assert Resolved(mem, p1, p2) != Squeeze(p1 + "/" + p2);
    }
  }

  /** The first path is the join with a name of the root in one case only. */
  lemma HereExactlyJoined(p1: string, p2: string)
    requires IsHere(p2)
    ensures p1 == Squeeze(p1 + "/" + p2) <==> p1 != [] && Squeezed(p1) && p2 == "/" && Last(p1) == '/'
  {
    hide Squeeze;
    var t := p1 + "/" + p2;
    SqueezeSqueezes(t);
    SqueezeEnds(t);
    if p1 != [] && Squeezed(p1) {
      if Last(p1) == '/' {
        JoinAfterSlash(p1, p2);
        HereTrimmed(p2);
      } else {
        JoinWithSlash(p1, p2);
        HereSqueezed(p2);
      }
    }
  }

  lemma SqueezeEnds(s: string)
    ensures s != [] ==> Squeeze(s) != []
  {
  }

  lemma HereTrimmed(p: string)
    requires IsHere(p)
    ensures Squeeze(TrimSlashes(p)) == [] <==> p == "/"
  {
    if p == "/" {
      assert TrimSlashes(p) == TrimSlashes(p[1..]) == [];
    }
  }

  lemma HereSqueezed(p: string)
    requires IsHere(p)
    ensures Squeeze(p) != []
  {
  }

  /** A name of the root is dropped, not joined. */
  lemma DotDropped(mem: int -> char)
    ensures Resolved(mem, "dir", ".") == "dir" != "dir/." == Squeeze("dir" + "/" + ".")
  {
    var s := "dir/.";
    assert Squeezed(s) && "dir" + "/" + "." == s;
    SqueezeFixes(s);
  }

  lemma JoinOfSqueezed(mem: int -> char, p1: string, p2: string)
    requires NUL !in p1 && NUL !in p2 && p1 != [] && Squeezed(p1)
    ensures JoinedIn(mem, p1, p2) == Squeeze(p1 + "/" + p2)
  {
    hide CStr;
    SqueezeFixes(p1);
    SqueezeAddsNothing(p1 + "/" + p2);
    CStrOfNulFree(Squeeze(p1 + "/" + p2));
    assert Front(p1, mem) == p1;
    hide Squeeze, Squeezed;
    if Last(p1) == '/' {
      JoinAfterSlash(p1, p2);
      assert p1 + "" + Squeeze(TrimSlashes(p2)) == p1 + Squeeze(TrimSlashes(p2));
    } else {
      JoinWithSlash(p1, p2);
      assert p1 + "" + Squeeze(p2) == p1 + Squeeze(p2);
    }
  }

  /** Memory that spoils the result. */
  lemma JoinSpoiled(p1: string, p2: string) returns (mem: int -> char)
    requires NUL !in p1 && NUL !in p2 && (p1 == [] || !Squeezed(p1))
    ensures JoinedIn(mem, p1, p2) != Squeeze(p1 + "/" + p2)
  {
    var q := Squeeze(p1);
    var c := if q == [] || Last(q) == '/' then '/' else 'x';
    mem := _ => c;
    SqueezeAddsNothing(p1);
    var rest := if c == '/' then TrimSlashes(p2) else p2;
    TrimAddsNothing(p2);
    SqueezeAddsNothing(rest);
    var front := Front(p1, mem);
    assert NUL !in front;
    var raw := front + (if c != '/' && At(rest, 0) != '/' then "/" else "") + Squeeze(rest);
    CStrOfNulFree(raw);
    if p1 == [] {
      assert (p1 + "/" + p2)[0] == '/';
      hide Squeeze;
      assert front == [] && raw == Squeeze(rest);
    } else {
      SqueezeShortens(p1);
      assert front[|q|] == c && front[|q| - 1] == Last(q) && |q| < |front|;
      hide Squeeze, CStr, Front;
      assert Seam(mem, p1) == c by { assert Last(front) == c; }
      assert JoinedIn(mem, p1, p2) == raw;
      assert raw[|q|] == c && raw[|q| - 1] == Last(q);
      NotThere(p1, p2, c);
    }
  }

  /** Behind the squeezed first path the join has neither a second slash nor, where
      the separator belongs, anything else. */
  lemma NotThere(p1: string, p2: string, c: char)
    requires p1 != [] && c == if Last(Squeeze(p1)) == '/' then '/' else 'x'
    ensures var q, t := Squeeze(p1), Squeeze(p1 + "/" + p2);
            |q| < |t| ==> t[|q| - 1] == Last(q) && t[|q|] != c
  {
    var q, t := Squeeze(p1), Squeeze(p1 + "/" + p2);
    SqueezeStarts(p1 + "/", p2);
    SqueezeSnoc(p1, '/');
    SqueezeSqueezes(p1 + "/" + p2);
    hide Squeeze;
    assert q <= t;
  }

  lemma {:induction false} TrimAddsNothing(s: string)
    ensures forall c | c in TrimSlashes(s) :: c in s
  {
    if s != [] && s[0] == '/' { TrimAddsNothing(s[1..]); }
  }

  lemma {:induction false} SqueezeStarts(s: string, t: string)
    ensures Squeeze(s) <= Squeeze(s + t)
  {
    if t == [] {
      assert s + t == s;
    } else {
      SqueezeStarts(s, t[..|t| - 1]);
      assert s + t == s + t[..|t| - 1] + [t[|t| - 1]];
      SqueezeSnoc(s + t[..|t| - 1], t[|t| - 1]);
    }
  }

  lemma {:induction false} SqueezeThen(s: string, t: string)
    requires s != [] && Squeezed(s) && (Last(s) == '/' && t != [] ==> t[0] != '/')
    ensures Squeeze(s + t) == s + Squeeze(t)
  {
    if t == [] {
      assert s + t == s;
      SqueezeFixes(s);
    } else {
      var init, c := t[..|t| - 1], Last(t);
      SqueezeThen(s, init);
      assert init + [c] == t && s + init + [c] == s + t;
      SqueezeThenOne(s, init, c);
    }
  }

  lemma SqueezeThenOne(s: string, t: string, c: char)
    requires s != [] && Squeeze(s + t) == s + Squeeze(t)
    requires t == [] && Last(s) == '/' ==> c != '/'
    ensures Squeeze(s + t + [c]) == s + Squeeze(t + [c])
  {
    hide Squeeze;
    SqueezeSnoc(s + t, c);
    SqueezeSnoc(t, c);
    assert t != [] ==> (s + t)[|s + t| - 1] == Last(t);
    assert s + (Squeeze(t) + [c]) == s + Squeeze(t) + [c];
  }

  lemma {:induction false} SqueezeDropsSlashes(s: string, t: string)
    requires s != [] && Last(s) == '/'
    ensures Squeeze(s + t) == Squeeze(s + TrimSlashes(t))
    decreases |t|
  {
    hide Squeeze;
    if t != [] && t[0] == '/' {
      var s' := s + "/";
      assert s + t == s' + t[1..];
      SqueezeDropsSlashes(s', t[1..]);
      SqueezeOneSlash(s, TrimSlashes(t[1..]));
    }
  }

  lemma {:induction false} SqueezeOneSlash(s: string, t: string)
    requires s != [] && Last(s) == '/'
    ensures Squeeze(s + "/" + t) == Squeeze(s + t)
    decreases |t|
  {
    hide Squeeze;
    if t == [] {
      assert s + "/" + t == s + ['/'] && s + t == s;
      SqueezeSnoc(s, '/');
    } else {
      var init, c := t[..|t| - 1], Last(t);
      SqueezeOneSlash(s, init);
      SqueezeSnoc(s + "/" + init, c);
      SqueezeSnoc(s + init, c);
      assert s + "/" + init + [c] == s + "/" + t;
      assert s + init + [c] == s + t;
    }
  }

  lemma JoinAfterSlash(p1: string, p2: string)
    requires p1 != [] && Squeezed(p1) && Last(p1) == '/'
    ensures Squeeze(p1 + "/" + p2) == p1 + Squeeze(TrimSlashes(p2))
  {
    SqueezeOneSlash(p1, p2);
    SqueezeDropsSlashes(p1, p2);
    SqueezeThen(p1, TrimSlashes(p2));
  }

  lemma JoinWithSlash(p1: string, p2: string)
    requires p1 != [] && Squeezed(p1) && Last(p1) != '/'
    ensures Squeeze(p1 + "/" + p2) ==
            if At(p2, 0) != '/' then p1 + "/" + Squeeze(p2) else p1 + Squeeze(p2)
  {
    var s := p1 + "/";
    if At(p2, 0) != '/' {
      SqueezeThen(s, p2);
    } else {
      assert s + p2 == p1 + "/" + "/" + p2[1..];
      SqueezeOneSlash(s, p2[1..]);
      assert s + p2[1..] == p1 + p2;
      SqueezeThen(p1, p2);
    }
  }

  /** The bytes resolve_path allocates, and those it writes, with the terminator. */
  function Allocated(p1: string, p2: string): nat {
    if IsHere(p2) then |p1| + 1 else |p1| + |p2| + 1
  }

  function BytesUsed(mem: int -> char, p1: string, p2: string): nat {
    if IsHere(p2) then |p1| + 1 else |Written(mem, p1, p2)| + 1
  }

  /** The comment in resolve_path promises that it allocates enough. It does exactly
      for the five names of the root, and when no separator is inserted or squeezing
      gains a byte back. */
  lemma AllocationPromise(mem: int -> char, p1: string, p2: string)
    ensures BytesUsed(mem, p1, p2) <= Allocated(p1, p2)
       <==> IsHere(p2) || Seam(mem, p1) == '/' || At(p2, 0) == '/' || !Squeezed(p2)
  {
    if Seam(mem, p1) != '/' {
      if Squeezed(p2) { SqueezeFixes(p2); } else { SqueezeShortens(p2); }
    }
  }

  /** It is one byte short for the index file in a directory served by name. */
  lemma AllocationShort(mem: int -> char)
    ensures BytesUsed(mem, "dir", "index.html") == Allocated("dir", "index.html") + 1
  {
    var p := "index.html";
    assert Squeezed("dir") && Squeezed(p) && At(p, 0) != '/';
    SqueezeFixes("dir");
    SqueezeFixes(p);
  }
}
