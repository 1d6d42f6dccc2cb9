/** Command lines that end where a value should come, and "--name=". */
module MissingValues {
  import opened Text
  import opened Args
  import opened ArgsRoundTrip

  /** A cluster of BOOL flags and, at its end, the letter of a STRING flag. */
  function OpenCluster(defs: seq<Argdef>, flags: seq<nat>, j: nat): string {
    "-" + (Letters(defs, flags) + [Letter(defs, j)])
  }

  ghost predicate ProperCluster(defs: seq<Argdef>, flags: seq<nat>, j: nat) {
    (forall k | 0 <= k < |flags| :: HasShort(defs, flags[k], Bool)) && HasShort(defs, j, Str)
  }

  /** The letter of a STRING flag at the very end of the command line. */
  lemma LetterWithoutValue(st: State, word: string, k: nat, argv: seq<string>, i: nat, j: nat)
    requires k + 1 == |word| && i + 1 == |argv|
    requires ProperTable(st.defs) && HasShort(st.defs, j, Str) && word[k] == st.defs[j].short
    ensures ClusterTaken(st, word, k, argv, i) ==
            (st.(defs := st.defs[j := st.defs[j].(bvalue := true, err := Some("No value given for argument"))], ok := false), i)
  {
    LetterFinds(st, word, k, argv, i, j, 0);
  }

  lemma OpenClusterTaken(st: State, argv: seq<string>, i: nat, flags: seq<nat>, j: nat)
    requires ProperTable(st.defs) && ProperCluster(st.defs, flags, j) && st.lastRaw <= |st.defs| && !st.rawEscape
    requires i + 1 == |argv| && argv[i] == OpenCluster(st.defs, flags, j)
    ensures var defs := SetFlags(st.defs, flags);
            |defs| == |st.defs|
            && WordTaken(st, argv, i) ==
               (st.(defs := defs[j := defs[j].(bvalue := true, err := Some("No value given for argument"))], ok := false), i)
  {
    hide ProperTable, ClusterTaken, LetterTaken, LongTaken, Letters, SameTable;
    var item := Cluster(flags, NextWord(j, ""));
    var word, n, defs := argv[i], |flags|, st.defs;
    assert Render(defs, item) == [word, ""];
    ClusterWord(defs, item, word);
    ClusterFlags(st, word, 1, flags, argv, i);
    SetFlagsKeep(defs, flags);
    var st' := st.(defs := SetFlags(defs, flags));
    SameSym(st'.defs, defs);
    SameProper(defs, st'.defs);
    SameShort(defs, st'.defs, item);
    LetterWithoutValue(st', word, 1 + n, argv, i, j);
  }

  /** The command line ends with a cluster that lacks the value of its last flag: it is
      not accepted, and the error shows in the entry of that flag, which is on and keeps
      the value it had; every other entry is as the items and the cluster say. */
  lemma ValueMissing(program: string, defs: seq<Argdef>, items: seq<Item>, flags: seq<nat>, j: nat)
    requires ProperTable(defs) && AllProper(defs, items) && ProperCluster(defs, flags, j)
    ensures var st := Parsed(Start(defs), [program] + RenderAll(defs, items) + [OpenCluster(defs, flags, j)], 1);
            !st.ok && |st.defs| == |defs|
            && forall k | 0 <= k < |defs| && defs[k].kind != Raw ::
                 var d := Settle(defs[k], LastAbout(items, k));
                 st.defs[k] ==
                 if k == j then d.(bvalue := true, err := Some("No value given for argument"))
                 else if k in flags then d.(bvalue := true)
                 else d
  {
    hide ProperTable, AllProper, Parsed, ApplyAll, RenderAll, WordTaken, Settle, LastAbout, OpenCluster;
    var r := RenderAll(defs, items);
    var argv := [program] + r + [OpenCluster(defs, flags, j)];
    assert argv[1..1 + |r|] == r;
    ItemsRoundTrip(Start(defs), argv, 1, items);
    var st := ApplyAll(Start(defs), items);
    ApplyAllKeeps(Start(defs), items);
    SameSym(st.defs, defs);
    SameProper(defs, st.defs);
    SameCluster(defs, st.defs, flags, j);
    OpenClusterTaken(st, argv, 1 + |r|, flags, j);
    FirstWord(st, argv, 1 + |r|);
    var st' := WordTaken(st, argv, 1 + |r|).0;
    NothingLeft(st', argv);
    forall k | 0 <= k < |defs| && defs[k].kind != Raw
      ensures st'.defs[k] ==
              var d := Settle(defs[k], LastAbout(items, k));
              if k == j then d.(bvalue := true, err := Some("No value given for argument"))
              else if k in flags then d.(bvalue := true)
              else d
    {
      FlagsSettled(defs, items, k);
      SetFlagsAt(st.defs, flags, k);
      SetFlagsAt(st.defs, flags, j);
      FlagsAreBool(defs, flags, j);
    }
  }

  lemma SameCluster(a: seq<Argdef>, b: seq<Argdef>, flags: seq<nat>, j: nat)
    requires SameTable(a, b) && ProperCluster(a, flags, j)
    ensures ProperCluster(b, flags, j) && OpenCluster(a, flags, j) == OpenCluster(b, flags, j)
  {
    SameLetters(a, b, flags);
    assert forall k | 0 <= k < |flags| :: HasShort(a, flags[k], Bool);
  }

  /** "--name=" of a STRING flag: it is on, its value is gone, and the error is its
      own. */
  lemma EmptyValue(st: State, argv: seq<string>, i: nat, j: nat)
    requires ProperTable(st.defs) && HasLong(st.defs, j, Str) && st.lastRaw <= |st.defs| && !st.rawEscape
    requires i < |argv| && argv[i] == "--" + Name(st.defs, j) + "="
    ensures WordTaken(st, argv, i) ==
            (st.(defs := st.defs[j := st.defs[j].(bvalue := true, value := None, err := Some("No value given after \"=\""))],
                 ok := false), i)
  {
    var arg, f := argv[i], Name(st.defs, j);
    LongFinds(st.defs, j, arg);
    LongNames(arg, f);
  }

  /** An error is never taken back, so a command line with "--name=" among its words is
      not accepted, whatever follows. */
  lemma {:induction false} ErrorsStay(st: State, argv: seq<string>, i: nat)
    requires i <= |argv| && st.lastRaw <= |st.defs| && !st.ok
    ensures !Parsed(st, argv, i).ok
    decreases |argv| - i
  {
    hide WordTaken;
    if i < |argv| {
      WordKeepsError(st, argv, i);
      ErrorsStay(WordTaken(st, argv, i).0, argv, WordTaken(st, argv, i).1 + 1);
    }
  }

  lemma WordKeepsError(st: State, argv: seq<string>, i: nat)
    requires i < |argv| && st.lastRaw <= |st.defs| && !st.ok
    ensures !WordTaken(st, argv, i).0.ok
  {
    hide LetterTaken, ClusterTaken;
    ClusterKeepsError(st, argv[i], |argv[i]|, argv, i);
    if |argv[i]| >= 1 { ClusterKeepsError(st, argv[i], 1, argv, i); }
  }

  lemma {:induction false} ClusterKeepsError(st: State, word: string, k: nat, argv: seq<string>, i: nat)
    requires k <= |word| && i < |argv| && !st.ok
    ensures !ClusterTaken(st, word, k, argv, i).0.ok
    decreases |word| - k
  {
    hide LetterTaken;
    if k < |word| {
      LetterKeepsError(st, word, k, argv, i, 0);
      var (st', i', stop) := LetterTaken(st, word, k, argv, i, 0);
      if !stop { ClusterKeepsError(st', word, k + 1, argv, i'); }
    }
  }

  lemma {:induction false} LetterKeepsError(st: State, word: string, k: nat, argv: seq<string>, i: nat, j: nat)
    requires k < |word| && i < |argv| && j <= |st.defs| && !st.ok
    ensures !LetterTaken(st, word, k, argv, i, j).0.ok
    decreases |st.defs| - j
  {
    if j < |st.defs| {
      LetterKeepsError(st, word, k, argv, i, j + 1);
      if ShortMatches(word[k], st.defs[j].short) && st.defs[j].kind == Raw {
        LetterKeepsError(st.(defs := st.defs[j := st.defs[j].(bvalue := true)]), word, k, argv, i, j + 1);
      }
    }
  }

  /** A command line with "--name=" behind its items is not accepted, whatever follows. */
  lemma EmptyValueRefused(program: string, defs: seq<Argdef>, items: seq<Item>, j: nat, more: seq<string>)
    requires ProperTable(defs) && AllProper(defs, items) && HasLong(defs, j, Str)
    ensures !Parsed(Start(defs), [program] + RenderAll(defs, items) + ["--" + Name(defs, j) + "="] + more, 1).ok
  {
    hide ProperTable, AllProper, Parsed, ApplyAll, RenderAll, WordTaken;
    var r, w := RenderAll(defs, items), "--" + Name(defs, j) + "=";
    var argv := [program] + r + [w] + more;
    assert argv[1..1 + |r|] == r && argv[1 + |r|] == w;
    ItemsRoundTrip(Start(defs), argv, 1, items);
    var st := ApplyAll(Start(defs), items);
    ApplyAllKeeps(Start(defs), items);
    SameSym(st.defs, defs);
    SameProper(defs, st.defs);
    EmptyValue(st, argv, 1 + |r|, j);
    FirstWord(st, argv, 1 + |r|);
    ErrorsStay(WordTaken(st, argv, 1 + |r|).0, argv, 2 + |r|);
  }
}
