/** C strings and buffers read through a cursor. */
module Text {
  import opened Ascii

  datatype Option<+T> = None | Some(value: T)

  const NUL := '\0'
  const CRLF := "\r\n"

  /** The byte under a cursor; the byte just past the contents reads as NUL. */
  function At(b: string, i: nat): char {
    if i < |b| then b[i] else NUL
  }

  predicate CrlfAt(b: string, i: nat) {
    At(b, i) == '\r' && At(b, i + 1) == '\n'
  }

  /** strncmp(b + i, lit, |lit|) == 0, for a literal without NUL. */
  predicate LooksAt(b: string, i: nat, lit: string) {
    forall k | 0 <= k < |lit| :: At(b, i + k) == lit[k]
  }

  /** The C string held in a byte range: everything before the first NUL. */
  function CStr(s: string): string {
    if s == [] || s[0] == NUL then [] else [s[0]] + CStr(s[1..])
  }

  lemma CStrHasNoNul(s: string)
    ensures NUL !in CStr(s)
  {
  }

  lemma CStrOfNulFree(s: string)
    requires NUL !in s
    ensures CStr(s) == s
  {
  }

  /** First index at or after i whose byte falls outside the class. */
  function ScanEnd(b: string, p: char -> bool, i: nat): (j: nat)
    requires i <= |b|
    ensures i <= j <= |b|
    ensures forall k | i <= k < j :: p(b[k])
    ensures j < |b| ==> !p(b[j])
    decreases |b| - i
  {
    if i < |b| && p(b[i]) then ScanEnd(b, p, i + 1) else i
  }

  lemma ScanStops(b: string, p: char -> bool, i: nat, j: nat)
    requires i <= j <= |b|
    requires forall k | i <= k < j :: p(b[k])
    requires j < |b| ==> !p(b[j])
    ensures ScanEnd(b, p, i) == j
  {
  }

  /** strncasecmp(lit, b + i, n) == 0, for a literal without NUL. */
  predicate EqualsIgnoreCase(lit: string, s: string, n: nat)
    decreases n
  {
    n == 0 ||
    (var c, d := At(lit, 0), At(s, 0);
     ToLower(c) == ToLower(d) &&
     (c == NUL || EqualsIgnoreCase(lit[1..], if s == [] then [] else s[1..], n - 1)))
  }

  function Lower(s: string): (t: string)
    ensures |t| == |s|
  {
    seq(|s|, i requires 0 <= i < |s| => ToLower(s[i]))
  }

  lemma SliceOfSlice(b: string, p: nat, q: nat, i: nat, j: nat)
    requires p <= q <= |b| && i <= j <= q - p
    ensures b[p..q][i..j] == b[p + i..p + j]
  {
    var s, t := b[p..q][i..j], b[p + i..p + j];
    assert |s| == |t| && forall k | 0 <= k < |s| :: s[k] == b[p + i + k] == t[k];
  }

  /** The text s stands in the buffer at position i. */
  ghost predicate Occurs(b: string, i: nat, s: string) {
    i + |s| <= |b| && b[i..i + |s|] == s
  }

  lemma OccursConcat(b: string, i: nat, s: string, t: string)
    ensures Occurs(b, i, s + t) <==> Occurs(b, i, s) && Occurs(b, i + |s|, t)
  {
    var n, k := |s|, |s + t|;
    if i + k <= |b| {
      assert b[i..i + k] == b[i..i + n] + b[i + n..i + k];
      assert (s + t)[..n] == s && (s + t)[n..] == t;
    }
  }

  lemma OccursPair(b: string, i: nat, s: string)
    requires |s| == 2
    ensures Occurs(b, i, s) <==> i + 2 <= |b| && b[i] == s[0] && b[i + 1] == s[1]
  {
    if i + 2 <= |b| {
      assert b[i..i + 2] == [b[i], b[i + 1]];
    }
  }

  lemma OccursOne(b: string, i: nat, s: string)
    requires |s| == 1
    ensures Occurs(b, i, s) <==> i < |b| && b[i] == s[0]
  {
    if i < |b| {
      assert b[i..i + 1] == [b[i]];
    }
  }

  lemma OccursSame(b: string, i: nat, s: string, t: string)
    requires Occurs(b, i, s) && Occurs(b, i, t) && |s| == |t|
    ensures s == t
  {
  }

  lemma OccursPrefix(b: string, s: string)
    ensures Occurs(b, 0, s) <==> s <= b
  {
  }
}
