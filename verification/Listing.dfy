/** The order of a directory listing (compare_file_names, compare_files and
    sort_file_list in dir.c). */
module Listing {
  import opened Ascii
  import opened Text

  /** The parts of a File the order depends on, and one it does not. */
  datatype File = File(name: string, isDir: bool, size: int)

  /** strcoll, as the locale defines it. */
  type Collation = (string, string) -> int

  /** The locale orders strings totally. */
  ghost predicate TotalOrder(coll: Collation) {
    && (forall a, b :: coll(a, b) == 0 <==> a == b)
    && (forall a, b :: coll(a, b) < 0 <==> coll(b, a) > 0)
    && (forall a, b, c :: coll(a, b) <= 0 && coll(b, c) <= 0 ==> coll(a, c) <= 0)
  }

  // ----- The comparators; a positive result puts the first argument first -----

  function CompareFileNames(coll: Collation, a: string, b: string): int {
    if a == "." then 1
    else if b == "." then -1
    else if a == ".." then 1
    else if b == ".." then -1
    else if At(a, 0) == '.' && At(b, 0) == '.' then -coll(a, b)
    else if At(a, 0) == '.' then 1
    else if At(b, 0) == '.' then -1
    else if !IsAlnum(At(a, 0)) && !IsAlnum(At(b, 0)) then -coll(a, b)
    else if !IsAlnum(At(a, 0)) then 1
    else if !IsAlnum(At(b, 0)) then -1
    else -coll(a, b)
  }

  function CompareFiles(coll: Collation, a: File, b: File): int {
    if a.isDir && b.isDir then CompareFileNames(coll, a.name, b.name)
    else if a.isDir then 1
    else if b.isDir then -1
    else CompareFileNames(coll, a.name, b.name)
  }

  // ----- The order they decide -----

  /** ".", "..", other dot names, other names that do not start with a letter or a
      digit, the rest. */
  function Group(name: string): nat {
    if name == "." then 0
    else if name == ".." then 1
    else if At(name, 0) == '.' then 2
    else if !IsAlnum(At(name, 0)) then 3
    else 4
  }

  function Rank(f: File): nat {
    (if f.isDir then 0 else 5) + Group(f.name)
  }

  /** Directories first, then by group, then by collation. */
  ghost predicate Precedes(coll: Collation, a: File, b: File) {
    Rank(a) < Rank(b) || (Rank(a) == Rank(b) && coll(a.name, b.name) <= 0)
  }

  /** A preorder that ties only files of the same name and kind. */
  lemma PrecedesIsOrder(coll: Collation, a: File, b: File, c: File)
    requires TotalOrder(coll)
    ensures Precedes(coll, a, a)
    ensures Precedes(coll, a, b) || Precedes(coll, b, a)
    ensures Precedes(coll, a, b) && Precedes(coll, b, c) ==> Precedes(coll, a, c)
    ensures Precedes(coll, a, b) && Precedes(coll, b, a) <==> a.name == b.name && a.isDir == b.isDir
  {
    hide Group;
    assert coll(a.name, a.name) == 0;
    assert coll(a.name, b.name) < 0 <==> coll(b.name, a.name) > 0;
    assert coll(b.name, a.name) < 0 <==> coll(a.name, b.name) > 0;
    assert coll(a.name, b.name) == 0 <==> a.name == b.name;
    if Rank(a) == Rank(b) {
      GroupBelowFive(a.name);
      GroupBelowFive(b.name);
    }
  }

  lemma GroupBelowFive(name: string)
    ensures Group(name) < 5
  {
  }

  ghost predicate SpecialTwice(a: File, b: File) {
    a.isDir == b.isDir && a.name == b.name && (a.name == "." || a.name == "..")
  }

  /** compare_files is meant to return a positive value when the first file comes
      first, a negative one when the second does and 0 for a tie. It does so except
      when it compares "." with "." or ".." with "..", where it returns 1. */
  lemma CompareExact(coll: Collation, a: File, b: File)
    requires TotalOrder(coll)
    ensures CompareFiles(coll, a, b) < 0 <==> !Precedes(coll, a, b)
    ensures CompareFiles(coll, a, b) == 0 <==> a.name == b.name && a.isDir == b.isDir && !SpecialTwice(a, b)
    ensures (CompareFiles(coll, a, b) > 0 <==> !Precedes(coll, b, a)) <==> !SpecialTwice(a, b)
  {
    assert coll(a.name, a.name) == 0;
    assert coll(a.name, b.name) == 0 <==> a.name == b.name;
    assert coll(b.name, a.name) == 0 <==> a.name == b.name;
    assert coll(a.name, b.name) < 0 <==> coll(b.name, a.name) > 0;
    assert coll(b.name, a.name) < 0 <==> coll(a.name, b.name) > 0;
  }

  // ----- Sorting -----

  ghost predicate Sorted(coll: Collation, s: seq<File>) {
    forall i, j | 0 <= i < j < |s| :: Precedes(coll, s[i], s[j])
  }

  /** swap_in_file_list. */
  method SwapInFileList(files: array<File>, a: nat, b: nat)
    requires a < files.Length && b < files.Length
    modifies files
    ensures files[..] == old(files[..])[a := old(files[b])][b := old(files[a])]
    ensures multiset(files[..]) == multiset(old(files[..]))
  {
    if a == b { return; }
    var tmp := files[a];
    files[a] := files[b];
    files[b] := tmp;
  }

  /** The linear search of sort_file_list. */
  method FindSmallest(coll: Collation, files: array<File>, i: nat) returns (smallest: nat)
    requires TotalOrder(coll) && i < files.Length
    ensures i <= smallest < files.Length
    ensures forall k | i <= k < files.Length :: Precedes(coll, files[smallest], files[k])
  {
    hide TotalOrder, Precedes;
    smallest := i;
    PrecedesIsOrder(coll, files[i], files[i], files[i]);
    for j := i + 1 to files.Length
      invariant i <= smallest < j
      invariant forall k | i <= k < j :: Precedes(coll, files[smallest], files[k])
    {
      CompareExact(coll, files[smallest], files[j]);
      PrecedesIsOrder(coll, files[smallest], files[j], files[j]);
      PrecedesIsOrder(coll, files[j], files[j], files[j]);
      if CompareFiles(coll, files[smallest], files[j]) < 0 {
        forall k | i <= k < j ensures Precedes(coll, files[j], files[k]) {
          PrecedesIsOrder(coll, files[j], files[smallest], files[k]);
        }
        smallest := j;
      }
    }
  }

  /** sort_file_list: a sorted permutation of the list. */
  method SortFileList(coll: Collation, files: array<File>)
    requires TotalOrder(coll)
    modifies files
    ensures Sorted(coll, files[..])
    ensures multiset(files[..]) == multiset(old(files[..]))
  {
    hide TotalOrder, Precedes;
    for i := 0 to files.Length
      invariant forall p, q | 0 <= p < i && p < q < files.Length :: Precedes(coll, files[p], files[q])
      invariant multiset(files[..]) == multiset(old(files[..]))
    {
      var smallest := FindSmallest(coll, files, i);
      ghost var was := files[..];
      SwapInFileList(files, smallest, i);
      forall p, q | 0 <= p < i + 1 && p < q < files.Length ensures Precedes(coll, files[p], files[q]) {
        var from := if q == i then smallest else if q == smallest then i else q;
        assert files[..][q] == was[from];
        if p == i {
          assert files[..][p] == was[smallest];
        } else {
          assert files[..][p] == was[p];
        }
      }
    }
  }

  predicate StartsWithDot(name: string) {
    name != [] && name[0] == '.'
  }

  predicate StartsPlainly(name: string) {
    name != [] && (name[0] in UPPER || name[0] in LOWER || name[0] in DIGITS)
  }

  /** What a visitor sees in a sorted listing: directories above files; among the entries
      of either kind "." first and ".." next, other dot names above the rest, names that
      start with a letter or a digit below all others, and in each of these groups the
      names as the locale orders them. */
  lemma ListingOrder(coll: Collation, s: seq<File>, i: nat, j: nat)
    requires TotalOrder(coll) && Sorted(coll, s) && i < j < |s|
    ensures s[j].isDir ==> s[i].isDir
    ensures s[i].isDir == s[j].isDir ==>
              var a, b := s[i].name, s[j].name;
              && (b == "." ==> a == ".")
              && (b == ".." ==> a == "." || a == "..")
              && (StartsWithDot(b) ==> StartsWithDot(a))
              && (StartsPlainly(a) ==> StartsPlainly(b))
              && (StartsPlainly(a) || (StartsWithDot(b) && b != ".." && a != "." && a != "..") ==> coll(a, b) <= 0)
              && (!StartsWithDot(a) && !StartsPlainly(b) ==> coll(a, b) <= 0)
  {
    hide TotalOrder;
    var a, b := s[i].name, s[j].name;
    assert Precedes(coll, s[i], s[j]);
    FirstCharacter(a);
    FirstCharacter(b);
  }

  lemma FirstCharacter(name: string)
    ensures IsAlnum(At(name, 0)) <==> StartsPlainly(name)
    ensures At(name, 0) == '.' <==> StartsWithDot(name)
    ensures name == "." || name == ".." ==> StartsWithDot(name) && !StartsPlainly(name)
  {
    AlphabetsExactly(At(name, 0));
  }

  ghost predicate DistinctNames(s: seq<File>) {
    forall i, j | 0 <= i < j < |s| :: s[i].name != s[j].name
  }

  /** With distinct names the listing does not depend on the order scandir
      delivered the entries in: there is only one sorted permutation. */
  lemma {:induction false} SortedUnique(coll: Collation, s: seq<File>, t: seq<File>)
    requires TotalOrder(coll)
    requires DistinctNames(s) && multiset(s) == multiset(t)
    requires Sorted(coll, s) && Sorted(coll, t)
    ensures s == t
    decreases |s|
  {
    hide TotalOrder, Precedes;
    assert |s| == |multiset(s)| == |t|;
    if s != [] {
      SameFirst(coll, s, t);
      assert s == [s[0]] + s[1..] && t == [t[0]] + t[1..];
      assert multiset(s[1..]) == multiset(s) - multiset{s[0]};
      assert multiset(t[1..]) == multiset(t) - multiset{t[0]};
      SortedUnique(coll, s[1..], t[1..]);
    }
  }

  lemma SameFirst(coll: Collation, s: seq<File>, t: seq<File>)
    requires TotalOrder(coll)
    requires s != [] && t != []
    requires DistinctNames(s) && multiset(s) == multiset(t)
    requires Sorted(coll, s) && Sorted(coll, t)
    ensures s[0] == t[0]
  {
    hide TotalOrder, Precedes;
    assert s[0] in multiset(t) && t[0] in multiset(s);
    var i :| 0 <= i < |t| && t[i] == s[0];
    var j :| 0 <= j < |s| && s[j] == t[0];
    PrecedesIsOrder(coll, s[0], t[0], t[0]);
    PrecedesIsOrder(coll, s[0], s[0], s[0]);
    assert Precedes(coll, s[0], s[j]) && Precedes(coll, t[0], t[i]);
  }
}
