/** Rendering a list of settings as command-line words, in any accepted spelling,
    and parsing the words gives the settings back. */
module ArgsRoundTrip {
  import opened Text
  import Numbers
  import opened Args

  // ----- Spellings -----

  /** How a cluster of single-letter flags ends. */
  datatype ClusterEnd = Plain | Inline(flag: nat, text: string) | NextWord(flag: nat, text: string)

  /** What a caller can put on the command line; flags are named by their index in
      the table. */
  datatype Item =
    | LongFlag(flag: nat)                    // --name
    | LongFlagIs(flag: nat, text: string)    // --name=text, of a BOOL flag
    | LongValue(flag: nat, text: string)     // --name text
    | LongValueIs(flag: nat, text: string)   // --name=text, of a STRING flag
    | Cluster(flags: seq<nat>, end: ClusterEnd)  // -abc, -abcotext, -abco text
    | Word(text: string)                     // a raw word

  /** Flags have their own letters and names; neither may look like something else. */
  ghost predicate ProperTable(defs: seq<Argdef>) {
    && (forall i | 0 <= i < |defs| :: defs[i].short != '-')
    && (forall i | 0 <= i < |defs| && defs[i].kind == Raw :: defs[i].short == NUL && defs[i].long == None)
    && (forall i | 0 <= i < |defs| && defs[i].long.Some? :: defs[i].long.value != [] && '=' !in defs[i].long.value)
    && (forall i, j | 0 <= i < j < |defs| :: defs[i].short != NUL ==> defs[i].short != defs[j].short)
    && (forall i, j | 0 <= i < j < |defs| :: defs[i].long.Some? ==> defs[i].long != defs[j].long)
  }

  predicate HasLong(defs: seq<Argdef>, j: nat, kind: Kind) {
    j < |defs| && defs[j].kind == kind && defs[j].long.Some?
  }

  predicate HasShort(defs: seq<Argdef>, j: nat, kind: Kind) {
    j < |defs| && defs[j].kind == kind && defs[j].short != NUL
  }

  /** The items that can be rendered with the flags of the table. */
  ghost predicate Proper(defs: seq<Argdef>, item: Item) {
    match item
    case LongFlag(j) => HasLong(defs, j, Bool)
    case LongFlagIs(j, _) => HasLong(defs, j, Bool)
    case LongValue(j, _) => HasLong(defs, j, Str)
    case LongValueIs(j, text) => HasLong(defs, j, Str) && text != []
    case Cluster(flags, end) =>
      && (forall k | 0 <= k < |flags| :: HasShort(defs, flags[k], Bool))
      && (match end
          case Plain => flags != []
          case Inline(j, text) => HasShort(defs, j, Str) && text != []
          case NextWord(j, _) => HasShort(defs, j, Str))
    case Word(text) => !IsDash(text)
  }

  function Name(defs: seq<Argdef>, j: nat): string {
    if j < |defs| && defs[j].long.Some? then defs[j].long.value else []
  }

  function Letter(defs: seq<Argdef>, j: nat): char {
    if j < |defs| then defs[j].short else NUL
  }

  function Letters(defs: seq<Argdef>, flags: seq<nat>): string {
    if flags == [] then [] else [Letter(defs, flags[0])] + Letters(defs, flags[1..])
  }

  function Render(defs: seq<Argdef>, item: Item): seq<string> {
    match item
    case LongFlag(j) => ["--" + Name(defs, j)]
    case LongFlagIs(j, text) => ["--" + Name(defs, j) + "=" + text]
    case LongValue(j, text) => ["--" + Name(defs, j), text]
    case LongValueIs(j, text) => ["--" + Name(defs, j) + "=" + text]
    case Cluster(flags, end) =>
      (match end
       case Plain => ["-" + Letters(defs, flags)]
       case Inline(j, text) => ["-" + (Letters(defs, flags) + ([Letter(defs, j)] + text))]
       case NextWord(j, text) => ["-" + (Letters(defs, flags) + [Letter(defs, j)]), text])
    case Word(text) => [text]
  }

  function RenderAll(defs: seq<Argdef>, items: seq<Item>): seq<string> {
    if items == [] then [] else Render(defs, items[0]) + RenderAll(defs, items[1..])
  }

  // ----- What the items mean -----

  function SetFlag(defs: seq<Argdef>, j: nat, b: bool): seq<Argdef> {
    if j < |defs| then defs[j := defs[j].(bvalue := b)] else defs
  }

  function SetValue(defs: seq<Argdef>, j: nat, text: string): seq<Argdef> {
    if j < |defs| then defs[j := defs[j].(bvalue := true, value := Some(text))] else defs
  }

  function SetFlags(defs: seq<Argdef>, flags: seq<nat>): seq<Argdef>
    decreases |flags|
  {
    if flags == [] then defs else SetFlags(SetFlag(defs, flags[0], true), flags[1..])
  }

  /** "--name=" and "--name=0..." switch a flag off, any other text on. */
  predicate MeansTrue(text: string) {
    text != [] && text[0] != '0'
  }

  function GiveWord(st: State, text: string): State
    requires st.lastRaw <= |st.defs|
  {
    var j := RawIndex(st.defs, st.lastRaw);
    if j < |st.defs|
    then st.(defs := st.defs[j := st.defs[j].(bvalue := true, value := Some(text))], lastRaw := j + 1)
    else st
  }

  function Apply(st: State, item: Item): (st': State)
    requires st.lastRaw <= |st.defs|
    ensures st'.lastRaw <= |st'.defs| == |st.defs|
  {
    match item
    case LongFlag(j) => st.(defs := SetFlag(st.defs, j, true))
    case LongFlagIs(j, text) => st.(defs := SetFlag(st.defs, j, MeansTrue(text)))
    case LongValue(j, text) => st.(defs := SetValue(st.defs, j, text))
    case LongValueIs(j, text) => st.(defs := SetValue(st.defs, j, text))
    case Cluster(flags, end) =>
      SetFlagsKeep(st.defs, flags);
      var defs := SetFlags(st.defs, flags);
      (match end
       case Plain => st.(defs := defs)
       case Inline(j, text) => st.(defs := SetValue(defs, j, text))
       case NextWord(j, text) => st.(defs := SetValue(defs, j, text)))
    case Word(text) => GiveWord(st, text)
  }

  function ApplyAll(st: State, items: seq<Item>): (st': State)
    requires st.lastRaw <= |st.defs|
    ensures st'.lastRaw <= |st'.defs| == |st.defs|
    decreases |items|
  {
    if items == [] then st else ApplyAll(Apply(st, items[0]), items[1..])
  }

  /** Settings change values only: kinds, letters and names stay. */
  ghost predicate SameTable(a: seq<Argdef>, b: seq<Argdef>) {
    |a| == |b| && forall i | 0 <= i < |a| ::
      a[i].kind == b[i].kind && a[i].short == b[i].short && a[i].long == b[i].long
  }

  lemma SetFlagsKeep(defs: seq<Argdef>, flags: seq<nat>)
    ensures SameTable(SetFlags(defs, flags), defs)
    decreases |flags|
  {
    if flags != [] { SetFlagsKeep(SetFlag(defs, flags[0], true), flags[1..]); }
  }

  lemma ApplyKeeps(st: State, item: Item)
    requires st.lastRaw <= |st.defs|
    ensures SameTable(Apply(st, item).defs, st.defs)
    ensures Apply(st, item).ok == st.ok && Apply(st, item).rawEscape == st.rawEscape
  {
    if item.Cluster? {
      SetFlagsKeep(st.defs, item.flags);
    }
  }

  lemma {:induction false} ApplyAllKeeps(st: State, items: seq<Item>)
    requires st.lastRaw <= |st.defs|
    ensures SameTable(ApplyAll(st, items).defs, st.defs)
    ensures ApplyAll(st, items).ok == st.ok && ApplyAll(st, items).rawEscape == st.rawEscape
    decreases |items|
  {
    if items != [] {
      ApplyKeeps(st, items[0]);
      ApplyAllKeeps(Apply(st, items[0]), items[1..]);
    }
  }

  /** The same items are proper for, and render alike with, the same table. */
  lemma {:induction false} SameRender(a: seq<Argdef>, b: seq<Argdef>, items: seq<Item>)
    requires SameTable(a, b)
    ensures RenderAll(a, items) == RenderAll(b, items)
    decreases |items|
  {
    hide Render, SameTable;
    if items != [] {
      SameWords(a, b, items[0]);
      SameRender(a, b, items[1..]);
    }
  }

  lemma SameWords(a: seq<Argdef>, b: seq<Argdef>, item: Item)
    requires SameTable(a, b)
    ensures Render(a, item) == Render(b, item)
  {
    if item.Cluster? {
      SameLetters(a, b, item.flags);
      hide Letters;
      assert item.end.Inline? || item.end.NextWord? ==> Letter(a, item.end.flag) == Letter(b, item.end.flag);
    } else {
      assert !item.Word? ==> Name(a, item.flag) == Name(b, item.flag);
    }
  }

  lemma {:induction false} SameLetters(a: seq<Argdef>, b: seq<Argdef>, flags: seq<nat>)
    requires SameTable(a, b)
    ensures Letters(a, flags) == Letters(b, flags)
    decreases |flags|
  {
    if flags != [] { SameLetters(a, b, flags[1..]); }
  }

  lemma SameProper(a: seq<Argdef>, b: seq<Argdef>)
    requires SameTable(a, b) && ProperTable(a)
    ensures ProperTable(b)
    ensures forall item | Proper(a, item) :: Proper(b, item)
  {
    forall item | Proper(a, item) ensures Proper(b, item) {
      if item.Cluster? {
        forall k | 0 <= k < |item.flags| ensures HasShort(b, item.flags[k], Bool) {
          assert HasShort(a, item.flags[k], Bool);
        }
      }
    }
  }

  // ----- Words in a row -----

  /** The words ws stand in argv at position i. */
  ghost predicate Stand(argv: seq<string>, i: nat, ws: seq<string>) {
    i + |ws| <= |argv| && argv[i..i + |ws|] == ws
  }

  lemma StandConcat(argv: seq<string>, i: nat, ws: seq<string>, ws': seq<string>)
    requires Stand(argv, i, ws + ws')
    ensures Stand(argv, i, ws) && Stand(argv, i + |ws|, ws')
  {
    var n := |ws + ws'|;
    assert argv[i..i + |ws|] == argv[i..i + n][..|ws|] == ws;
    assert argv[i + |ws|..i + n] == argv[i..i + n][|ws|..] == ws';
  }

  lemma StandAt(argv: seq<string>, i: nat, ws: seq<string>, k: nat)
    requires Stand(argv, i, ws) && k < |ws|
    ensures i + k < |argv| && argv[i + k] == ws[k]
  {
    assert argv[i..i + |ws|][k] == argv[i + k];
  }

  // ----- Long arguments -----

  /** The word "--name" or "--name=text" finds its entry and no other one. */
  lemma LongFinds(defs: seq<Argdef>, j: nat, arg: string)
    requires ProperTable(defs) && j < |defs| && defs[j].long.Some?
    requires LongMatches(arg, defs[j].long)
    ensures LongIndex(defs, arg, 0) == j
    ensures IsDoubleDash(arg) && |arg| > 2
  {
    var r := LongIndex(defs, arg, 0);
    var f := defs[j].long.value;
    LongNames(arg, f);
    if r != j {
      LongNames(arg, defs[r].long.value);
    }
  }

  /** The name in a matching word is all before its first '='. */
  lemma LongNames(arg: string, f: string)
    requires LongMatches(arg, Some(f)) && '=' !in f
    ensures IsDoubleDash(arg) && f == arg[2..IndexOfEq(arg)] && IndexOfEq(arg) == |f| + 2
  {
    var w := "--" + f;
    assert w[2..] == f;
    if arg == w {
      assert arg[..|arg|] == arg;
      EqAt(arg, |arg|);
    } else {
      assert arg[..|w| + 1] == w + "=";
      assert arg[..|w|] == w && arg[|w|] == '=';
      EqAt(arg, |w|);
    }
    assert arg[2..|w|] == arg[..|w|][2..] == f;
  }

  lemma {:induction false} EqAt(s: string, n: nat)
    requires n <= |s| && '=' !in s[..n] && (n < |s| ==> s[n] == '=')
    ensures IndexOfEq(s) == n
  {
    if n > 0 {
      assert s[..n][0] == s[0] && s[..n][1..] == s[1..][..n - 1];
      EqAt(s[1..], n - 1);
    }
  }

  lemma LongRoundTrip(st: State, argv: seq<string>, i: nat, item: Item)
    requires ProperTable(st.defs) && Proper(st.defs, item) && st.lastRaw <= |st.defs| && !st.rawEscape
    requires item.LongFlag? || item.LongFlagIs? || item.LongValue? || item.LongValueIs?
    requires Stand(argv, i, Render(st.defs, item))
    ensures WordTaken(st, argv, i) == (Apply(st, item), i + |Render(st.defs, item)| - 1)
  {
    var j, ws := item.flag, Render(st.defs, item);
    var arg, f := argv[i], Name(st.defs, item.flag);
    StandAt(argv, i, ws, 0);
    StandAt(argv, i, ws, |ws| - 1);
    var w := "--" + f;
    if item.LongFlagIs? || item.LongValueIs? {
      assert arg == w + "=" + item.text;
      assert w + "=" <= arg;
      LongNames(arg, f);
      assert arg[IndexOfEq(arg) + 1..] == item.text;
    }
    LongFinds(st.defs, j, arg);
    LongNames(arg, f);
  }

  // ----- Clusters -----

  /** A letter finds its entry and no other one. */
  lemma {:induction false} LetterFinds(st: State, word: string, k: nat, argv: seq<string>, i: nat, j: nat, from: nat)
    requires ProperTable(st.defs) && from <= j < |st.defs| && st.defs[j].short != NUL
    requires k < |word| && i < |argv| && word[k] == st.defs[j].short
    ensures LetterTaken(st, word, k, argv, i, from) == LetterTaken(st, word, k, argv, i, j)
    decreases j - from
  {
    if from < j {
      LetterFinds(st, word, k, argv, i, j, from + 1);
    }
  }

  /** Reading the letters of BOOL flags sets them one by one. */
  lemma {:induction false} ClusterFlags(st: State, word: string, k: nat, flags: seq<nat>, argv: seq<string>, i: nat)
    requires ProperTable(st.defs) && i < |argv|
    requires forall n | 0 <= n < |flags| :: HasShort(st.defs, flags[n], Bool)
    requires k + |flags| <= |word| && word[k..k + |flags|] == Letters(st.defs, flags)
    ensures ClusterTaken(st, word, k, argv, i)
         == ClusterTaken(st.(defs := SetFlags(st.defs, flags)), word, k + |flags|, argv, i)
    decreases |flags|
  {
    if flags != [] {
      var j, rest := flags[0], flags[1..];
      assert HasShort(st.defs, j, Bool);
      assert word[k] == word[k..k + |flags|][0] == Letters(st.defs, flags)[0];
      BoolLetter(st, word, k, argv, i, j);
      var st' := st.(defs := SetFlag(st.defs, j, true));
      SameProper(st.defs, st'.defs);
      SameLetters(st.defs, st'.defs, rest);
      assert word[k + 1..k + 1 + |rest|] == word[k..k + |flags|][1..] == Letters(st.defs, flags)[1..];
      forall n | 0 <= n < |rest| ensures HasShort(st'.defs, rest[n], Bool) {
        assert HasShort(st.defs, flags[n + 1], Bool);
      }
      hide ProperTable, LetterTaken, SameTable, SetFlag;
      ClusterFlags(st', word, k + 1, rest, argv, i);
    }
  }

  /** The letter of a BOOL flag sets it and takes nothing more. */
  lemma BoolLetter(st: State, word: string, k: nat, argv: seq<string>, i: nat, j: nat)
    requires ProperTable(st.defs) && HasShort(st.defs, j, Bool)
    requires k < |word| && i < |argv| && word[k] == st.defs[j].short
    ensures LetterTaken(st, word, k, argv, i, 0) == (st.(defs := SetFlag(st.defs, j, true)), i, false)
  {
    LetterFinds(st, word, k, argv, i, j, 0);
  }

  lemma {:induction false} LettersLength(defs: seq<Argdef>, flags: seq<nat>)
    ensures |Letters(defs, flags)| == |flags|
    ensures flags != [] ==> Letters(defs, flags)[0] == Letter(defs, flags[0])
    decreases |flags|
  {
    if flags != [] { LettersLength(defs, flags[1..]); }
  }

  /** The letter of a STRING flag behind the BOOL ones takes the rest of the word,
      or the next word if there is no rest. */
  lemma ValueLetter(st: State, word: string, k: nat, argv: seq<string>, i: nat, j: nat)
    requires ProperTable(st.defs) && HasShort(st.defs, j, Str)
    requires k < |word| && i < |argv| && word[k] == st.defs[j].short
    requires k + 1 == |word| ==> i + 1 < |argv|
    ensures ClusterTaken(st, word, k, argv, i) ==
            if k + 1 < |word| then (st.(defs := SetValue(st.defs, j, word[k + 1..])), i)
            else (st.(defs := SetValue(st.defs, j, argv[i + 1])), i + 1)
  {
    LetterFinds(st, word, k, argv, i, j, 0);
  }

  /** The word of a cluster: the dash, the BOOL letters, and what its end adds. */
  lemma ClusterWord(defs: seq<Argdef>, item: Item, word: string)
    requires ProperTable(defs) && item.Cluster? && Proper(defs, item)
    requires word == Render(defs, item)[0]
    ensures var n := |item.flags|;
            IsDash(word) && !IsDoubleDash(word)
            && 1 + n <= |word| && word[1..1 + n] == Letters(defs, item.flags)
            && (item.end.Plain? ==> |word| == 1 + n)
            && (item.end.Inline? ==> 2 + n < |word| && word[n + 2..] == item.end.text)
            && (item.end.NextWord? ==> |word| == n + 2)
            && (!item.end.Plain? ==> word[1 + n] == Letter(defs, item.end.flag))
  {
    var flags, n := item.flags, |item.flags|;
    LettersLength(defs, flags);
    assert n > 0 ==> HasShort(defs, flags[0], Bool);
    assert n > 0 ==> word[1] == Letters(defs, flags)[0];
    hide Letters;
    assert word[1..1 + n] == Letters(defs, flags);
  }

  lemma ClusterRoundTrip(st: State, argv: seq<string>, i: nat, item: Item)
    requires ProperTable(st.defs) && item.Cluster? && Proper(st.defs, item)
    requires st.lastRaw <= |st.defs| && !st.rawEscape
    requires Stand(argv, i, Render(st.defs, item))
    ensures WordTaken(st, argv, i) == (Apply(st, item), i + |Render(st.defs, item)| - 1)
  {
    hide ProperTable, Stand, ClusterTaken, LetterTaken, LongTaken, Letters, SameTable;
    var ws, flags, defs := Render(st.defs, item), item.flags, st.defs;
    StandAt(argv, i, ws, 0);
    var word, n := argv[i], |item.flags|;
    StandAt(argv, i, ws, |ws| - 1);
    ClusterWord(defs, item, word);
    ClusterFlags(st, word, 1, flags, argv, i);
    SetFlagsKeep(defs, flags);
    var st' := st.(defs := SetFlags(defs, flags));
    SameSym(st'.defs, defs);
    SameProper(defs, st'.defs);
    SameShort(defs, st'.defs, item);
    hide Render;
    match item.end
    case Plain =>
      NoMoreLetters(st', word, argv, i);
    case Inline(j, text) =>
      ValueLetter(st', word, 1 + n, argv, i, j);
    case NextWord(j, text) =>
      ValueLetter(st', word, 1 + n, argv, i, j);
  }

  lemma NoMoreLetters(st: State, word: string, argv: seq<string>, i: nat)
    requires i < |argv|
    ensures ClusterTaken(st, word, |word|, argv, i) == (st, i)
  {
  }

  lemma SameShort(a: seq<Argdef>, b: seq<Argdef>, item: Item)
    requires SameTable(a, b) && item.Cluster? && Proper(a, item)
    ensures item.end.Inline? || item.end.NextWord? ==>
              HasShort(b, item.end.flag, Str) && Letter(a, item.end.flag) == b[item.end.flag].short
  {
  }

  // ----- Whole command lines -----

  /** Parsing the words of one item does what the item means. */
  lemma ItemRoundTrip(st: State, argv: seq<string>, i: nat, item: Item)
    requires ProperTable(st.defs) && Proper(st.defs, item) && st.lastRaw <= |st.defs| && !st.rawEscape
    requires Stand(argv, i, Render(st.defs, item))
    ensures WordTaken(st, argv, i) == (Apply(st, item), i + |Render(st.defs, item)| - 1)
  {
    match item
    case Cluster(_, _) => ClusterRoundTrip(st, argv, i, item);
    case Word(text) =>
      StandAt(argv, i, [text], 0);
    case _ => LongRoundTrip(st, argv, i, item);
  }

  ghost predicate AllProper(defs: seq<Argdef>, items: seq<Item>) {
    forall k | 0 <= k < |items| :: Proper(defs, items[k])
  }

  lemma {:induction false} ItemsRoundTrip(st: State, argv: seq<string>, i: nat, items: seq<Item>)
    requires ProperTable(st.defs) && st.lastRaw <= |st.defs| && !st.rawEscape
    requires AllProper(st.defs, items)
    requires Stand(argv, i, RenderAll(st.defs, items))
    ensures i + |RenderAll(st.defs, items)| <= |argv|
    ensures Parsed(st, argv, i) == Parsed(ApplyAll(st, items), argv, i + |RenderAll(st.defs, items)|)
    decreases |items|
  {
    hide Render, Apply, ProperTable, AllProper, Parsed;
    if items != [] {
      var item, rest := items[0], items[1..];
      assert RenderAll(st.defs, items) == Render(st.defs, item) + RenderAll(st.defs, rest);
      assert ApplyAll(st, items) == ApplyAll(Apply(st, item), rest);
      hide RenderAll, ApplyAll;
      AllProperCons(st.defs, items);
      StandConcat(argv, i, Render(st.defs, item), RenderAll(st.defs, rest));
      hide Stand, Proper;
      FirstItem(st, argv, i, item);
      ApplyKeeps(st, item);
      RestAlike(st.defs, Apply(st, item).defs, rest);
      ItemsRoundTrip(Apply(st, item), argv, i + |Render(st.defs, item)|, rest);
    }
  }

  lemma AllProperCons(defs: seq<Argdef>, items: seq<Item>)
    requires AllProper(defs, items) && items != []
    ensures Proper(defs, items[0]) && AllProper(defs, items[1..])
  {
    hide Proper;
  }

  lemma RestAlike(a: seq<Argdef>, b: seq<Argdef>, rest: seq<Item>)
    requires SameTable(b, a) && ProperTable(a)
    requires AllProper(a, rest)
    ensures ProperTable(b) && RenderAll(a, rest) == RenderAll(b, rest)
    ensures AllProper(b, rest)
  {
    hide Proper, ProperTable, Render;
    SameSym(b, a);
    SameProper(a, b);
    SameRender(a, b, rest);
  }

  lemma FirstItem(st: State, argv: seq<string>, i: nat, item: Item)
    requires ProperTable(st.defs) && Proper(st.defs, item) && st.lastRaw <= |st.defs| && !st.rawEscape
    requires Stand(argv, i, Render(st.defs, item))
    ensures i + |Render(st.defs, item)| <= |argv|
    ensures Parsed(st, argv, i) == Parsed(Apply(st, item), argv, i + |Render(st.defs, item)|)
  {
    hide Render, Apply, Proper, ProperTable, WordTaken, Parsed;
    RenderNotEmpty(st.defs, item);
    StandAt(argv, i, Render(st.defs, item), |Render(st.defs, item)| - 1);
    ItemRoundTrip(st, argv, i, item);
    FirstWord(st, argv, i);
  }

  lemma FirstWord(st: State, argv: seq<string>, i: nat)
    requires i < |argv| && st.lastRaw <= |st.defs|
    ensures var (st', i') := WordTaken(st, argv, i);
            Parsed(st, argv, i) == Parsed(st', argv, i' + 1)
  {
    hide WordTaken;
  }

  lemma RenderNotEmpty(defs: seq<Argdef>, item: Item)
    ensures |Render(defs, item)| >= 1
  {
  }

  lemma SameSym(a: seq<Argdef>, b: seq<Argdef>)
    requires SameTable(a, b)
    ensures SameTable(b, a)
  {
  }

  // ----- Behind "--" -----

  function GiveWords(st: State, words: seq<string>): (st': State)
    requires st.lastRaw <= |st.defs|
    ensures st'.lastRaw <= |st'.defs| == |st.defs|
    decreases |words|
  {
    if words == [] then st else GiveWords(GiveWord(st, words[0]), words[1..])
  }

  lemma RawWord(st: State, argv: seq<string>, i: nat)
    requires st.rawEscape && st.lastRaw <= |st.defs| && i < |argv|
    ensures WordTaken(st, argv, i) == (GiveWord(st, argv[i]), i)
    ensures GiveWord(st, argv[i]).rawEscape && GiveWord(st, argv[i]).lastRaw <= |GiveWord(st, argv[i]).defs|
  {
  }

  /** Behind "--" every word is a raw word, whatever it looks like. */
  lemma {:induction false} RawWords(st: State, argv: seq<string>, i: nat)
    requires st.rawEscape && st.lastRaw <= |st.defs| && i <= |argv|
    ensures Parsed(st, argv, i) == GiveWords(st, argv[i..])
    decreases |argv| - i
  {
    if i < |argv| {
      FirstWord(st, argv, i);
      RawWord(st, argv, i);
      hide WordTaken, GiveWord;
      assert argv[i..][0] == argv[i] && argv[i..][1..] == argv[i + 1..];
      RawWords(GiveWord(st, argv[i]), argv, i + 1);
    } else {
      assert argv[i..] == [];
    }
  }

  /** "--" itself switches the escape on and matches no flag. */
  lemma EscapeWord(st: State, argv: seq<string>, i: nat)
    requires ProperTable(st.defs) && !st.rawEscape && st.lastRaw <= |st.defs|
    requires i < |argv| && argv[i] == "--"
    ensures WordTaken(st, argv, i) == (st.(rawEscape := true), i)
  {
    var j := LongIndex(st.defs, argv[i], 0);
    if j < |st.defs| {
      LongFinds(st.defs, j, argv[i]);
    }
  }

  /** A command line: the program, items, and maybe "--" with more raw words. */
  function CommandLine(program: string, defs: seq<Argdef>, items: seq<Item>, escaped: Option<seq<string>>): seq<string> {
    [program] + RenderAll(defs, items) + (match escaped case None => [] case Some(ws) => ["--"] + ws)
  }

  /** What parse_args makes of a command line: the items in order, then the escaped
      words. */
  lemma CommandLineParsed(program: string, defs: seq<Argdef>, items: seq<Item>, escaped: Option<seq<string>>)
    requires ProperTable(defs) && AllProper(defs, items)
    ensures var st := ApplyAll(Start(defs), items);
            Parsed(Start(defs), CommandLine(program, defs, items, escaped), 1) ==
            match escaped case None => st case Some(ws) => GiveWords(st.(rawEscape := true), ws)
  {
    hide ProperTable, AllProper, Parsed, ApplyAll, RenderAll, GiveWords, WordTaken;
    var argv, r := CommandLine(program, defs, items, escaped), RenderAll(defs, items);
    assert argv[1..1 + |r|] == r;
    ItemsRoundTrip(Start(defs), argv, 1, items);
    var st := ApplyAll(Start(defs), items);
    ApplyAllKeeps(Start(defs), items);
    match escaped
    case None => NothingLeft(st, argv);
    case Some(ws) =>
      SameSym(st.defs, defs);
      SameProper(defs, st.defs);
      assert argv[1 + |r|] == "--" && argv[2 + |r|..] == ws;
      EscapeWord(st, argv, 1 + |r|);
      FirstWord(st, argv, 1 + |r|);
      RawWords(st.(rawEscape := true), argv, 2 + |r|);
  }

  lemma NothingLeft(st: State, argv: seq<string>)
    requires st.lastRaw <= |st.defs|
    ensures Parsed(st, argv, |argv|) == st
  {
  }

  // ----- What each entry ends up with -----

  /** What an item says about flag j: on or off, and a value for STRING flags. */
  function About(item: Item, j: nat): Option<(bool, Option<string>)> {
    match item
    case LongFlag(f) => if f == j then Some((true, None)) else None
    case LongFlagIs(f, text) => if f == j then Some((MeansTrue(text), None)) else None
    case LongValue(f, text) => if f == j then Some((true, Some(text))) else None
    case LongValueIs(f, text) => if f == j then Some((true, Some(text))) else None
    case Cluster(flags, end) =>
      if !end.Plain? && end.flag == j then Some((true, Some(end.text)))
      else if j in flags then Some((true, None))
      else None
    case Word(_) => None
  }

  /** What the last item about flag j says. */
  function LastAbout(items: seq<Item>, j: nat): Option<(bool, Option<string>)> {
    if items == [] then None
    else
      var a := About(items[|items| - 1], j);
      if a.Some? then a else LastAbout(items[..|items| - 1], j)
  }

  function Settle(d: Argdef, a: Option<(bool, Option<string>)>): Argdef {
    match a
    case None => d
    case Some((b, text)) => d.(bvalue := b, value := if text.Some? then text else d.value)
  }

  lemma {:induction false} SetFlagsAt(defs: seq<Argdef>, flags: seq<nat>, j: nat)
    requires j < |defs|
    ensures |SetFlags(defs, flags)| == |defs|
    ensures SetFlags(defs, flags)[j] == if j in flags then defs[j].(bvalue := true) else defs[j]
    decreases |flags|
  {
    if flags != [] {
      SetFlagsAt(SetFlag(defs, flags[0], true), flags[1..], j);
      assert flags == [flags[0]] + flags[1..];
    }
  }

  lemma FlagsAreBool(defs: seq<Argdef>, flags: seq<nat>, j: nat)
    requires forall k | 0 <= k < |flags| :: HasShort(defs, flags[k], Bool)
    ensures j in flags ==> HasShort(defs, j, Bool)
  {
  }

  /** One item changes flag j as it says, and no other flag. */
  lemma ApplyAt(st: State, item: Item, j: nat)
    requires st.lastRaw <= |st.defs| && Proper(st.defs, item)
    requires j < |st.defs| && st.defs[j].kind != Raw
    ensures Apply(st, item).defs[j] == Settle(st.defs[j], About(item, j))
    ensures About(item, j).Some? ==> (About(item, j).value.1.Some? <==> st.defs[j].kind == Str)
  {
    if item.Cluster? {
      SetFlagsAt(st.defs, item.flags, j);
      FlagsAreBool(st.defs, item.flags, j);
    }
  }

  lemma {:induction false} ApplyAllLast(st: State, items: seq<Item>)
    requires st.lastRaw <= |st.defs| && items != []
    ensures ApplyAll(st, items) == Apply(ApplyAll(st, items[..|items| - 1]), items[|items| - 1])
    decreases |items|
  {
    hide Apply;
    var init := items[..|items| - 1];
    if |items| == 1 {
      assert init == [] && items[1..] == [];
    } else {
      ApplyAllLast(Apply(st, items[0]), items[1..]);
      assert items[1..][..|items| - 2] == init[1..] && items[1..][|items| - 2] == items[|items| - 1];
    }
  }

  lemma {:induction false} FlagsSettled(defs: seq<Argdef>, items: seq<Item>, j: nat)
    requires ProperTable(defs) && AllProper(defs, items)
    requires j < |defs| && defs[j].kind != Raw
    ensures ApplyAll(Start(defs), items).defs[j] == Settle(defs[j], LastAbout(items, j))
    ensures LastAbout(items, j).Some? ==> (LastAbout(items, j).value.1.Some? <==> defs[j].kind == Str)
    decreases |items|
  {
    hide ProperTable, Apply, About, Proper, ApplyAll;
    if items == [] {
      NoItems(defs);
    } else {
      var init, item := items[..|items| - 1], items[|items| - 1];
      assert Proper(defs, item) && AllProper(defs, init);
      FlagsSettled(defs, init, j);
      ApplyAllLast(Start(defs), items);
      var st := ApplyAll(Start(defs), init);
      ApplyAllKeeps(Start(defs), init);
      SameSym(st.defs, defs);
      SameProper(defs, st.defs);
      ApplyAt(st, item, j);
    }
  }

  lemma NoItems(defs: seq<Argdef>)
    ensures ApplyAll(Start(defs), []) == Start(defs)
  {
  }

  // ----- Raw words -----

  /** The number of RAW entries before index j. */
  function RawRank(defs: seq<Argdef>, j: nat): nat
    requires j <= |defs|
  {
    if j == 0 then 0 else RawRank(defs, j - 1) + (if defs[j - 1].kind == Raw then 1 else 0)
  }

  lemma {:induction false} RankGrows(defs: seq<Argdef>, i: nat, j: nat)
    requires i <= j <= |defs|
    ensures RawRank(defs, i) <= RawRank(defs, j)
    ensures i < j && defs[i].kind == Raw ==> RawRank(defs, i) < RawRank(defs, j)
    ensures (forall k | i <= k < j :: defs[k].kind != Raw) ==> RawRank(defs, i) == RawRank(defs, j)
    decreases j
  {
    if i < j { RankGrows(defs, i, j - 1); }
  }

  lemma {:induction false} SameRank(a: seq<Argdef>, b: seq<Argdef>, j: nat)
    requires SameTable(a, b) && j <= |a|
    ensures RawRank(a, j) == RawRank(b, j)
  {
    if j > 0 { SameRank(a, b, j - 1); }
  }

  /** The words so far fill the RAW entries from the first one on; words beyond the
      last RAW entry are dropped. */
  ghost predicate Filled(defs: seq<Argdef>, st: State, words: seq<string>) {
    && st.lastRaw <= |st.defs| && SameTable(st.defs, defs)
    && RawRank(defs, st.lastRaw) == Numbers.Min(|words|, RawRank(defs, |defs|))
    && forall j | 0 <= j < |defs| && defs[j].kind == Raw :: st.defs[j] == RawEntry(defs, j, words)
  }

  /** RAW entry j after the words. */
  function RawEntry(defs: seq<Argdef>, j: nat, words: seq<string>): Argdef
    requires j < |defs|
  {
    var k := RawRank(defs, j);
    if k < |words| then defs[j].(bvalue := true, value := Some(words[k])) else defs[j]
  }

  /** The entry the next word goes to has the rank of the next word. */
  lemma NextRank(defs: seq<Argdef>, now: seq<Argdef>, from: nat, m: nat)
    requires SameTable(now, defs) && from <= |defs|
    requires RawRank(defs, from) == Numbers.Min(m, RawRank(defs, |defs|))
    ensures var j := RawIndex(now, from);
            if j < |defs| then RawRank(defs, j) == m && RawRank(defs, j + 1) == m + 1 <= RawRank(defs, |defs|)
            else RawRank(defs, from) == RawRank(defs, |defs|) <= m
  {
    var j := RawIndex(now, from);
    assert forall k | from <= k < j :: defs[k].kind != Raw;
    RankGrows(defs, from, j);
    RankGrows(defs, j, |defs|);
    if j < |defs| {
      RankGrows(defs, j + 1, |defs|);
    }
  }

  /** A word that goes to entry j shows in entry i as it should. */
  lemma EntryFills(defs: seq<Argdef>, i: nat, j: nat, words: seq<string>, w: string)
    requires i < |defs| && defs[i].kind == Raw && j <= |defs|
    requires if j < |defs| then defs[j].kind == Raw && RawRank(defs, j) == |words|
             else RawRank(defs, |defs|) <= |words|
    ensures RawEntry(defs, i, words + [w]) ==
            if i == j then RawEntry(defs, i, words).(bvalue := true, value := Some(w)) else RawEntry(defs, i, words)
  {
    RankGrows(defs, Numbers.Min(i, j), Numbers.Max(i, j));
    var k := RawRank(defs, i);
    hide RawRank;
    assert k < |words| ==> (words + [w])[k] == words[k];
    assert i != j ==> k != |words|;
  }

  lemma GiveWordKeeps(st: State, w: string)
    requires st.lastRaw <= |st.defs|
    ensures var st', j := GiveWord(st, w), RawIndex(st.defs, st.lastRaw);
            st'.lastRaw <= |st'.defs| && SameTable(st'.defs, st.defs) && st'.ok == st.ok
            && st'.lastRaw == (if j < |st.defs| then j + 1 else st.lastRaw)
            && forall i | 0 <= i < |st.defs| ::
                 st'.defs[i] == if i == j then st.defs[j].(bvalue := true, value := Some(w)) else st.defs[i]
  {
  }

  lemma WordFills(defs: seq<Argdef>, st: State, words: seq<string>, w: string)
    requires Filled(defs, st, words)
    ensures Filled(defs, GiveWord(st, w), words + [w])
  {
    GiveWordKeeps(st, w);
    NextRank(defs, st.defs, st.lastRaw, |words|);
    var st', j := GiveWord(st, w), RawIndex(st.defs, st.lastRaw);
    hide GiveWord, RawRank, RawEntry;
    forall i | 0 <= i < |defs| && defs[i].kind == Raw ensures st'.defs[i] == RawEntry(defs, i, words + [w]) {
      EntryFills(defs, i, j, words, w);
    }
  }

  /** The raw words among the items. */
  function WordsOf(items: seq<Item>): seq<string> {
    if items == [] then []
    else WordsOf(items[..|items| - 1]) + (if items[|items| - 1].Word? then [items[|items| - 1].text] else [])
  }

  /** Flags leave the RAW entries alone. */
  lemma FlagKeepsFilled(defs: seq<Argdef>, st: State, words: seq<string>, item: Item)
    requires Filled(defs, st, words) && Proper(defs, item) && !item.Word?
    ensures Filled(defs, Apply(st, item), words)
  {
    ApplyKeeps(st, item);
    var st' := Apply(st, item);
    forall j | 0 <= j < |defs| && defs[j].kind == Raw ensures st'.defs[j] == st.defs[j] {
      if item.Cluster? {
        SetFlagsAt(st.defs, item.flags, j);
        FlagsAreBool(defs, item.flags, j);
      }
    }
  }

  lemma {:induction false} ItemsFill(defs: seq<Argdef>, items: seq<Item>)
    requires AllProper(defs, items)
    ensures Filled(defs, ApplyAll(Start(defs), items), WordsOf(items))
    decreases |items|
  {
    if items != [] {
      hide Filled, Proper, Apply;
      var init, item := items[..|items| - 1], items[|items| - 1];
      assert Proper(defs, item) && AllProper(defs, init);
      ItemsFill(defs, init);
      ApplyAllLast(Start(defs), items);
      var st := ApplyAll(Start(defs), init);
      if item.Word? {
        WordFills(defs, st, WordsOf(init), item.text);
        WordIsGiven(st, item);
      } else {
        FlagKeepsFilled(defs, st, WordsOf(init), item);
        assert WordsOf(init) + [] == WordsOf(init);
      }
    }
  }

  lemma WordIsGiven(st: State, item: Item)
    requires st.lastRaw <= |st.defs| && item.Word?
    ensures Apply(st, item) == GiveWord(st, item.text)
  {
  }

  lemma FilledKeeps(defs: seq<Argdef>, st: State, words: seq<string>)
    requires Filled(defs, st, words)
    ensures st.lastRaw <= |st.defs| == |defs|
    ensures forall j | 0 <= j < |defs| :: st.defs[j].kind == defs[j].kind
    ensures RawIndex(st.defs, st.lastRaw) < |defs| ==> defs[RawIndex(st.defs, st.lastRaw)].kind == Raw
  {
  }

  lemma {:induction false} WordsFill(defs: seq<Argdef>, st: State, words: seq<string>, more: seq<string>)
    requires Filled(defs, st, words)
    ensures Filled(defs, GiveWords(st, more), words + more)
    ensures forall j | 0 <= j < |defs| && defs[j].kind != Raw :: GiveWords(st, more).defs[j] == st.defs[j]
    ensures GiveWords(st, more).ok == st.ok
    decreases |more|
  {
    if more == [] {
      assert words + more == words;
    } else {
      WordFills(defs, st, words, more[0]);
      FilledKeeps(defs, st, words);
      GiveWordKeeps(st, more[0]);
      hide Filled, GiveWord, SameTable, RawIndex;
      WordsFill(defs, GiveWord(st, more[0]), words + [more[0]], more[1..]);
      assert words + [more[0]] + more[1..] == words + more;
    }
  }

  /** The round trip: parse_args accepts the command line; every flag holds what the
      last item about it says; the k-th raw word, whether before or behind "--",
      lands in the k-th RAW entry; nothing else changes. */
  lemma RoundTrip(program: string, defs: seq<Argdef>, items: seq<Item>, escaped: Option<seq<string>>)
    requires ProperTable(defs) && AllProper(defs, items)
    ensures var st := Parsed(Start(defs), CommandLine(program, defs, items, escaped), 1);
            var words := WordsOf(items) + (if escaped.Some? then escaped.value else []);
            st.ok && |st.defs| == |defs|
            && forall j | 0 <= j < |defs| ::
                 st.defs[j] == if defs[j].kind == Raw then RawEntry(defs, j, words)
                               else Settle(defs[j], LastAbout(items, j))
  {
    hide ProperTable, AllProper, Parsed, ApplyAll, RawEntry, GiveWords, Settle, CommandLine;
    CommandLineParsed(program, defs, items, escaped);
    var st := ApplyAll(Start(defs), items);
    ApplyAllKeeps(Start(defs), items);
    ItemsFill(defs, items);
    forall j | 0 <= j < |defs| && defs[j].kind != Raw
      ensures st.defs[j] == Settle(defs[j], LastAbout(items, j))
    {
      FlagsSettled(defs, items, j);
    }
    match escaped
    case None => assert WordsOf(items) + [] == WordsOf(items);
    case Some(ws) => WordsFill(defs, st.(rawEscape := true), WordsOf(items), ws);
  }
}
