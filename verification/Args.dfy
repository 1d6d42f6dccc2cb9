/** The command-line parser (arg.c). */
module Args {
  import opened Text

  datatype Kind = Bool | Str | Raw

  /** One entry of the table of arguments. short is NUL and long None where the
      entry has no such spelling. */
  datatype Argdef = Argdef(kind: Kind, short: char, long: Option<string>,
                           err: Option<string>, bvalue: bool, value: Option<string>)

  const NO_VALUE := "No value given for argument"
  const NO_VALUE_AFTER := "No value given after \"=\""

  // ----- Matching -----

  /** The argument is "--flag" or "--flag=..." . */
  predicate LongMatches(arg: string, flag: Option<string>) {
    flag.Some? && (arg == "--" + flag.value || "--" + flag.value + "=" <= arg)
  }

  /** long_arg_match. */
  method LongArgMatch(arg: string, flag: Option<string>) returns (matched: bool)
    ensures matched <==> LongMatches(arg, flag)
  {
    if flag.None? { return false; }
    var f := flag.value;
    if |arg| < 2 || arg[0] != '-' || arg[1] != '-' { return false; }
    var k := 0;
    while k + 2 < |arg| && k < |f|
      invariant k <= |f| && k + 2 <= |arg|
      invariant arg[2..k + 2] == f[..k]
    {
      if arg[k + 2] != f[k] {
        NoLongMatch(arg, f, k);
        return false;
      }
      assert arg[2..k + 3] == arg[2..k + 2] + [arg[k + 2]] && f[..k + 1] == f[..k] + [f[k]];
      k := k + 1;
    }
    LongMatchEnd(arg, f, k);
    if k < |f| { return false; }
    return k + 2 == |arg| || arg[k + 2] == '=';
  }

  lemma NoLongMatch(arg: string, f: string, k: nat)
    requires k < |f| && k + 2 < |arg| && arg[k + 2] != f[k]
    ensures !LongMatches(arg, Some(f))
  {
    assert ("--" + f)[k + 2] == f[k] && ("--" + f + "=")[k + 2] == f[k];
  }

  lemma LongMatchEnd(arg: string, f: string, k: nat)
    requires |arg| >= 2 && arg[0] == '-' && arg[1] == '-'
    requires k <= |f| && k + 2 <= |arg| && arg[2..k + 2] == f[..k]
    requires k + 2 == |arg| || k == |f|
    ensures LongMatches(arg, Some(f)) <==> k == |f| && (k + 2 == |arg| || arg[k + 2] == '=')
  {
    var w := "--" + f;
    if k == |f| {
      assert arg[..k + 2] == w by { assert arg[..k + 2] == "--" + arg[2..k + 2]; }
      if k + 2 < |arg| {
        assert arg[..k + 3] == w + [arg[k + 2]];
        if w + "=" <= arg { assert arg[k + 2] == (w + "=")[k + 2]; }
      }
    }
  }

  predicate ShortMatches(c: char, flag: char) {
    flag != NUL && c == flag
  }

  /** strchr, as an index. */
  function IndexOfEq(s: string): (i: nat)
    ensures i <= |s| && '=' !in s[..i] && (i < |s| ==> s[i] == '=')
  {
    if s == [] || s[0] == '=' then 0 else 1 + IndexOfEq(s[1..])
  }

  // ----- What the parser does -----

  /** The table, and what the loop over argv remembers. */
  datatype State = State(defs: seq<Argdef>, rawEscape: bool, lastRaw: nat, ok: bool)

  /** First entry from j on whose long name matches. */
  function LongIndex(defs: seq<Argdef>, arg: string, j: nat): (r: nat)
    requires j <= |defs|
    ensures j <= r <= |defs|
    ensures r < |defs| ==> LongMatches(arg, defs[r].long)
    ensures forall k | j <= k < r :: !LongMatches(arg, defs[k].long)
    decreases |defs| - j
  {
    if j == |defs| || LongMatches(arg, defs[j].long) then j else LongIndex(defs, arg, j + 1)
  }

  /** First RAW entry from j on. */
  function RawIndex(defs: seq<Argdef>, j: nat): (r: nat)
    requires j <= |defs|
    ensures j <= r <= |defs|
    ensures r < |defs| ==> defs[r].kind == Raw
    ensures forall k | j <= k < r :: defs[k].kind != Raw
    decreases |defs| - j
  {
    if j == |defs| || defs[j].kind == Raw then j else RawIndex(defs, j + 1)
  }

  /** A long argument that matches entry j, and the index of the last word used. */
  function LongTaken(st: State, argv: seq<string>, i: nat, j: nat): (State, nat)
    requires i < |argv| && j < |st.defs|
  {
    var arg, d, e := argv[i], st.defs[j], IndexOfEq(argv[i]);
    match d.kind
    case Bool =>
      var b := e == |arg| || (e + 1 < |arg| && arg[e + 1] != '0');
      (st.(defs := st.defs[j := d.(bvalue := b)]), i)
    case Str =>
      if e == |arg| then
        if i + 1 < |argv| then
          (st.(defs := st.defs[j := d.(bvalue := true, value := Some(argv[i + 1]))]), i + 1)
        else
          var defs := st.defs[j := d.(bvalue := true)];
          (st.(defs := if i < |defs| then defs[i := defs[i].(err := Some(NO_VALUE))] else defs, ok := false), i)
      else if e + 1 == |arg| then
        (st.(defs := st.defs[j := d.(bvalue := true, value := None, err := Some(NO_VALUE_AFTER))], ok := false), i)
      else
        (st.(defs := st.defs[j := d.(bvalue := true, value := Some(arg[e + 1..]))]), i)
    case Raw => (st, i)
  }

  /** The letter at position k of a cluster, compared with the entries from j on;
      the last result says that the rest of the word was taken as a value. */
  function LetterTaken(st: State, word: string, k: nat, argv: seq<string>, i: nat, j: nat): (r: (State, nat, bool))
    requires k < |word| && i < |argv| && j <= |st.defs|
    ensures |r.0.defs| == |st.defs| && i <= r.1 < |argv|
    decreases |st.defs| - j
  {
    if j == |st.defs| then (st, i, false)
    else if !ShortMatches(word[k], st.defs[j].short) then LetterTaken(st, word, k, argv, i, j + 1)
    else
      var d := st.defs[j].(bvalue := true);
      match d.kind
      case Bool => (st.(defs := st.defs[j := d]), i, false)
      case Str =>
        if k + 1 < |word| then (st.(defs := st.defs[j := d.(value := Some(word[k + 1..]))]), i, true)
        else if i + 1 < |argv| then (st.(defs := st.defs[j := d.(value := Some(argv[i + 1]))]), i + 1, false)
        else (st.(defs := st.defs[j := d.(err := Some(NO_VALUE))], ok := false), i, false)
      case Raw => LetterTaken(st.(defs := st.defs[j := d]), word, k, argv, i, j + 1)
  }

  /** The letters of a cluster from position k on. */
  function ClusterTaken(st: State, word: string, k: nat, argv: seq<string>, i: nat): (r: (State, nat))
    requires k <= |word| && i < |argv|
    ensures |r.0.defs| == |st.defs| && i <= r.1 < |argv|
    decreases |word| - k
  {
    if k == |word| then (st, i)
    else
      var (st', i', stop) := LetterTaken(st, word, k, argv, i, 0);
      if stop then (st', i') else ClusterTaken(st', word, k + 1, argv, i')
  }

  predicate IsDash(w: string) {
    |w| >= 1 && w[0] == '-'
  }

  predicate IsDoubleDash(w: string) {
    |w| >= 2 && w[0] == '-' && w[1] == '-'
  }

  /** One word of argv, and the index of the last word used. */
  function WordTaken(st: State, argv: seq<string>, i: nat): (r: (State, nat))
    requires i < |argv| && st.lastRaw <= |st.defs|
    ensures |r.0.defs| == |st.defs| && i <= r.1 < |argv| && r.0.lastRaw <= |r.0.defs|
  {
    var w := argv[i];
    if !st.rawEscape && IsDoubleDash(w) then
      var st' := if |w| == 2 then st.(rawEscape := true) else st;
      var j := LongIndex(st'.defs, w, 0);
      if j < |st'.defs| then LongTaken(st', argv, i, j) else (st', i)
    else if !st.rawEscape && IsDash(w) then
      LetterKeeps(st, w, 1, argv, i);
      ClusterTaken(st, w, 1, argv, i)
    else
      var j := RawIndex(st.defs, st.lastRaw);
      if j < |st.defs| then
        (st.(defs := st.defs[j := st.defs[j].(bvalue := true, value := Some(w))], lastRaw := j + 1), i)
      else (st, i)
  }

  /** The words from index i on. */
  function Parsed(st: State, argv: seq<string>, i: nat): State
    requires i <= |argv| && st.lastRaw <= |st.defs|
    decreases |argv| - i
  {
    if i == |argv| then st
    else
      var (st', i') := WordTaken(st, argv, i);
      Parsed(st', argv, i' + 1)
  }

  /** A long flag without its value is an error, but it is recorded at the index of
      the word, not of the flag: the flag's own entry shows it exactly when the two
      are the same. */
  lemma MissingValueRecorded(st: State, argv: seq<string>, i: nat, j: nat)
    requires i + 1 == |argv| && j < |st.defs| && st.defs[j].kind == Str && st.defs[j].err == None
    requires IndexOfEq(argv[i]) == |argv[i]|
    ensures !LongTaken(st, argv, i, j).0.ok
    ensures LongTaken(st, argv, i, j).0.defs[j].err == Some(NO_VALUE) <==> i == j
  {
  }

  // ----- mimino's own table -----

  function Flag(short: char, long: string, kind: Kind): Argdef {
    Argdef(kind, short, Some(long), None, false, None)
  }

  /** The table that main passes to parse_args. */
  const TABLE: seq<Argdef> := [
    Flag('v', "verbose", Bool),
    Flag('q', "quiet", Bool),
    Flag('u', "unsafe", Bool),
    Flag('r', "chroot", Str),
    Flag('e', "error-files", Bool),
    Flag('s', "suffix", Str),
    Flag('p', "port", Str),
    Flag('i', "index", Str),
    Argdef(Raw, NUL, None, None, false, None)]

  /** "mimino --suffix": the missing value is an error, which shows in the entry of
      "quiet" and not in that of "suffix". */
  lemma MissingValueMisplaced()
    ensures var st := Parsed(Start(TABLE), ["mimino", "--suffix"], 1);
            !st.ok && st.defs[5].err == None && st.defs[1].err == Some(NO_VALUE)
  {
    hide LongTaken, LongIndex, IndexOfEq;
    var st, argv := Start(TABLE), ["mimino", "--suffix"];
    SuffixFound();
    MissingValueRecorded(st, argv, 1, 5);
    assert WordTaken(st, argv, 1) == LongTaken(st, argv, 1, 5);
    LongKeeps(st, argv, 1, 5);
  }

  lemma SuffixFound()
    ensures LongIndex(TABLE, "--suffix", 0) == 5 && IndexOfEq("--suffix") == |"--suffix"|
  {
    hide LongIndex, IndexOfEq, LongMatches;
    var w := "--suffix";
    SuffixMatches();
    OtherFlag("verbose");
    OtherFlag("quiet");
    OtherFlag("unsafe");
    OtherFlag("chroot");
    OtherFlag("error-files");
    assert forall i | 0 <= i < |w| :: w[i] != '=';
    var t := TABLE;
    assert !LongMatches(w, t[0].long) && !LongMatches(w, t[1].long) && !LongMatches(w, t[2].long);
    assert !LongMatches(w, t[3].long) && !LongMatches(w, t[4].long) && LongMatches(w, t[5].long);
  }

  lemma SuffixMatches()
    ensures LongMatches("--suffix", Some("suffix"))
  {
    assert "--" + "suffix" == "--suffix";
  }

  lemma OtherFlag(f: string)
    requires f != [] && f[0] != 's'
    ensures !LongMatches("--suffix", Some(f))
  {
    NoLongMatch("--suffix", f, 0);
  }

  lemma LongKeeps(st: State, argv: seq<string>, i: nat, j: nat)
    requires i + 1 == |argv| && i < |st.defs| && j < |st.defs| && st.defs[j].kind == Str
    requires IndexOfEq(argv[i]) == |argv[i]|
    ensures LongTaken(st, argv, i, j).1 == i && LongTaken(st, argv, i, j).0.lastRaw == st.lastRaw
    ensures |LongTaken(st, argv, i, j).0.defs| == |st.defs|
    ensures LongTaken(st, argv, i, j).0.defs[i].err == Some(NO_VALUE)
    ensures i != j ==> LongTaken(st, argv, i, j).0.defs[j].err == st.defs[j].err
  {
  }

  lemma LetterTakenKeeps(st: State, word: string, k: nat, argv: seq<string>, i: nat, j: nat)
    requires k < |word| && i < |argv| && j <= |st.defs|
    ensures LetterTaken(st, word, k, argv, i, j).0.lastRaw == st.lastRaw
    ensures LetterTaken(st, word, k, argv, i, j).0.rawEscape == st.rawEscape
    decreases |st.defs| - j
  {
  }

  lemma LetterKeeps(st: State, word: string, k: nat, argv: seq<string>, i: nat)
    requires k <= |word| && i < |argv|
    ensures ClusterTaken(st, word, k, argv, i).0.lastRaw == st.lastRaw
    ensures ClusterTaken(st, word, k, argv, i).0.rawEscape == st.rawEscape
    decreases |word| - k
  {
    if k < |word| {
      LetterTakenKeeps(st, word, k, argv, i, 0);
      var (st', i', stop) := LetterTaken(st, word, k, argv, i, 0);
      if !stop { LetterKeeps(st', word, k + 1, argv, i'); }
    }
  }

  function Start(defs: seq<Argdef>): State {
    State(defs, false, 0, true)
  }

  // ----- The loops of parse_args -----

  /** The body of the loop over the table for a long argument that matches. */
  method TakeLong(argv: seq<string>, i: nat, defs: array<Argdef>, j: nat, ret: bool, ghost st: State)
    returns (ret': bool, i': nat)
    requires i < |argv| && j < defs.Length && st.defs == defs[..] && st.ok == ret
    modifies defs
    ensures i <= i' < |argv|
    ensures (st.(defs := defs[..], ok := ret'), i') == LongTaken(st, argv, i, j)
  {
    ret', i' := ret, i;
    var eqp := IndexOfEq(argv[i]);
    ghost var d := defs[j];
    match defs[j].kind
    case Bool =>
      defs[j] := defs[j].(bvalue := false);
      if eqp == |argv[i]| {
        defs[j] := defs[j].(bvalue := true);
      } else if eqp + 1 == |argv[i]| || argv[i][eqp + 1] == '0' {
        defs[j] := defs[j].(bvalue := false);
      } else {
        defs[j] := defs[j].(bvalue := true);
      }
      assert defs[..] == st.defs[j := defs[j]];
    case Str =>
      defs[j] := defs[j].(bvalue := true);
      if eqp == |argv[i]| {
        if i + 1 >= |argv| {
          assert defs[..] == st.defs[j := d.(bvalue := true)];
          if i < defs.Length {
            defs[i] := defs[i].(err := Some(NO_VALUE));
          }
          ret' := false;
        } else {
          defs[j] := defs[j].(value := Some(argv[i + 1]));
          i' := i + 1;
          assert defs[..] == st.defs[j := defs[j]];
        }
      } else if eqp + 1 == |argv[i]| {
        defs[j] := defs[j].(value := None);
        defs[j] := defs[j].(err := Some(NO_VALUE_AFTER));
        ret' := false;
        assert defs[..] == st.defs[j := defs[j]];
      } else {
        defs[j] := defs[j].(value := Some(argv[i][eqp + 1..]));
        assert defs[..] == st.defs[j := defs[j]];
      }
    case Raw =>
  }

  /** The loop over the table for a long argument: the first match is taken. */
  method ParseLong(argv: seq<string>, i: nat, defs: array<Argdef>, ret: bool, ghost st: State)
    returns (ret': bool, i': nat)
    requires i < |argv| && st.defs == defs[..] && st.ok == ret
    modifies defs
    ensures i <= i' < |argv|
    ensures var j := LongIndex(st.defs, argv[i], 0);
            (st.(defs := defs[..], ok := ret'), i') ==
            if j < |st.defs| then LongTaken(st, argv, i, j) else (st, i)
  {
    hide LongTaken, LongMatches;
    for j := 0 to defs.Length
      invariant defs[..] == st.defs
      invariant LongIndex(st.defs, argv[i], 0) == LongIndex(st.defs, argv[i], j)
    {
      var matched := LongArgMatch(argv[i], defs[j].long);
      if matched {
        ret', i' := TakeLong(argv, i, defs, j, ret, st);
        return;
      }
    }
    return ret, i;
  }

  /** The loop over the table for one letter of a cluster. */
  method ParseLetter(argv: seq<string>, i: nat, word: string, k: nat, defs: array<Argdef>, ret: bool, ghost st: State)
    returns (ret': bool, i': nat, stop: bool)
    requires i < |argv| && k < |word| && st.defs == defs[..] && st.ok == ret
    modifies defs
    ensures i <= i' < |argv|
    ensures (st.(defs := defs[..], ok := ret'), i', stop) == LetterTaken(st, word, k, argv, i, 0)
  {
    ret', i', stop := ret, i, false;
    var j := 0;
    while j < defs.Length
      invariant 0 <= j <= defs.Length && ret' == ret && i' == i && !stop
      invariant LetterTaken(st, word, k, argv, i, 0) ==
                LetterTaken(st.(defs := defs[..]), word, k, argv, i, j)
    {
      if ShortMatches(word[k], defs[j].short) {
        ghost var was := defs[..];
        defs[j] := defs[j].(bvalue := true);
        assert defs[..] == was[j := defs[j]];
        if defs[j].kind == Bool { return; }
        if defs[j].kind == Str {
          if k + 1 < |word| {
            defs[j] := defs[j].(value := Some(word[k + 1..]));
            assert defs[..] == was[j := defs[j]];
            stop := true;
            return;
          }
          if i + 1 >= |argv| {
            defs[j] := defs[j].(err := Some(NO_VALUE));
            assert defs[..] == was[j := defs[j]];
            ret' := false;
            return;
          }
          defs[j] := defs[j].(value := Some(argv[i + 1]));
          assert defs[..] == was[j := defs[j]];
          i' := i + 1;
          return;
        }
      }
      j := j + 1;
    }
  }

  /** The loop over the letters of a cluster. */
  method ParseCluster(argv: seq<string>, i: nat, defs: array<Argdef>, ret: bool, ghost st: State)
    returns (ret': bool, i': nat)
    requires i < |argv| && |argv[i]| >= 1 && st.defs == defs[..] && st.ok == ret
    modifies defs
    ensures i <= i' < |argv|
    ensures (st.(defs := defs[..], ok := ret'), i') == ClusterTaken(st, argv[i], 1, argv, i)
  {
    hide LetterTaken;
    ret', i' := ret, i;
    var word := argv[i];
    var stop := false;
    var k := 1;
    while k < |word| && !stop
      invariant 1 <= k <= |word| && i <= i' < |argv|
      invariant ClusterTaken(st, word, 1, argv, i) ==
                if stop then (st.(defs := defs[..], ok := ret'), i')
                else ClusterTaken(st.(defs := defs[..], ok := ret'), word, k, argv, i')
    {
      ghost var now := st.(defs := defs[..], ok := ret');
      LetterTakenKeeps(now, word, k, argv, i', 0);
      ret', i', stop := ParseLetter(argv, i', word, k, defs, ret', now);
      k := k + 1;
    }
  }

  /** parse_args, on the words of argv behind the program name. */
  method ParseArgs(argv: seq<string>, defs: array<Argdef>) returns (ret: bool)
    requires argv != []
    modifies defs
    ensures State(defs[..], Parsed(Start(old(defs[..])), argv, 1).rawEscape,
                  Parsed(Start(old(defs[..])), argv, 1).lastRaw, ret)
         == Parsed(Start(old(defs[..])), argv, 1)
  {
    hide LongTaken, ClusterTaken, LongMatches;
    ret := true;
    var rawEscape := false;
    var lastRaw: nat := 0;
    var i := 1;
    while i < |argv|
      invariant 1 <= i <= |argv| && lastRaw <= defs.Length
      invariant Parsed(State(defs[..], rawEscape, lastRaw, ret), argv, i) == Parsed(Start(old(defs[..])), argv, 1)
      decreases |argv| - i
    {
      ghost var st := State(defs[..], rawEscape, lastRaw, ret);
      var w := argv[i];
      if !rawEscape && IsDoubleDash(w) {
        if |w| == 2 { rawEscape := true; }
        ret, i := ParseLong(argv, i, defs, ret, st.(rawEscape := rawEscape));
      } else if !rawEscape && IsDash(w) {
        ret, i := ParseCluster(argv, i, defs, ret, st);
      } else {
        lastRaw := TakeRaw(w, defs, lastRaw);
      }
      i := i + 1;
    }
  }

  /** The loop over the table for a raw word: the next RAW entry takes it. */
  method TakeRaw(w: string, defs: array<Argdef>, lastRaw: nat) returns (lastRaw': nat)
    requires lastRaw <= defs.Length
    modifies defs
    ensures lastRaw' <= defs.Length
    ensures var s := old(defs[..]);
            var j := RawIndex(s, lastRaw);
            if j < |s| then defs[..] == s[j := s[j].(bvalue := true, value := Some(w))] && lastRaw' == j + 1
            else defs[..] == s && lastRaw' == lastRaw
  {
    ghost var s := defs[..];
    for j := lastRaw to defs.Length
      invariant defs[..] == s && RawIndex(s, lastRaw) == RawIndex(s, j)
    {
      if defs[j].kind == Raw {
        defs[j] := defs[j].(bvalue := true);
        defs[j] := defs[j].(value := Some(w));
        return j + 1;
      }
    }
    return lastRaw;
  }
}
