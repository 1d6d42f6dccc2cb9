/** Numbers and the Range header (ll_power, consume_next_num and
    parse_range_header in http.c; section 2.1 of RFC 7233). */
module Range {
  import opened Ascii
  import opened Text
  import opened Numbers

  const INT64_LIMIT := 0x8000_0000_0000_0000

  /** long long: every operation on it is proved to stay in range. */
  newtype int64 = x: int | -0x8000_0000_0000_0000 <= x < 0x8000_0000_0000_0000

  predicate InRange(x: int) {
    -INT64_LIMIT <= x < INT64_LIMIT
  }

  // ----- Numbers -----

  ghost predicate AllDigits(s: string) {
    forall i | 0 <= i < |s| :: IsDigit(s[i])
  }

  function DigitValue(c: char): int {
    c as int - '0' as int
  }

  /** Horner value of a digit string, most significant digit first. */
  function Horner(s: string): int {
    if s == [] then 0 else Horner(s[..|s| - 1]) * 10 + DigitValue(s[|s| - 1])
  }

  function Pow(a: int, b: nat): int {
    if b == 0 then 1 else a * Pow(a, b - 1)
  }

  /** Decimal text of a number, as printf writes it. */
  function Dec(n: nat): (s: string)
    ensures 0 < |s| && AllDigits(s)
    ensures Horner(s) == n
  {
    if n < 10 then [(n + '0' as int) as char]
    else Dec(n / 10) + [(n % 10 + '0' as int) as char]
  }

  /** ll_power: a^b, except that 0 is returned for every power of 0. If the result
      fits the type, so does every value on the way. */
  method LlPower(a: int64, b: int64) returns (ret: int64)
    requires 0 <= b
    requires a != 0 ==> InRange(Pow(a as int, b as nat))
    ensures ret as int == if a == 0 then 0 else Pow(a as int, b as nat)
  {
    if a == 0 { return 0; }
    if a == 1 { PowOfOne(b as nat); return 1; }
    if b == 0 { return 1; }
    ret := a;
    var n := b;
    while n > 1
      invariant 1 <= n <= b
      invariant ret as int == Pow(a as int, (b - n) as nat + 1)
    {
      assert Pow(a as int, (b - n) as nat + 2) == a as int * ret as int;
      PowersInRange(a as int, (b - n) as nat + 2, b as nat);
      ret := ret * a;
      n := n - 1;
    }
  }

  function Abs(x: int): nat {
    if x < 0 then -x else x
  }

  /** Powers of anything but 0 never shrink, and at least double unless the base is
      1 or -1. */
  lemma {:induction false} PowsGrow(a: int, k: nat, b: nat)
    requires a != 0 && k <= b
    ensures 1 <= Abs(Pow(a, k)) <= Abs(Pow(a, b))
    ensures Abs(a) > 1 && k < b ==> 2 * Abs(Pow(a, k)) <= Abs(Pow(a, b))
    ensures Abs(a) == 1 ==> Abs(Pow(a, b)) == 1
    decreases b
  {
    if b > 0 {
      AbsOfProduct(a, Pow(a, b - 1));
      PowsGrow(a, if k < b then k else k - 1, b - 1);
    }
  }

  lemma AbsOfProduct(x: int, y: int)
    requires x != 0
    ensures Abs(x * y) >= Abs(y)
    ensures Abs(x) > 1 ==> Abs(x * y) >= 2 * Abs(y)
    ensures Abs(x) == 1 ==> Abs(x * y) == Abs(y)
  {
    var m, n := Abs(x), Abs(y);
    assert Abs(x * y) == m * n by {
      assert -x * y == -(x * y) && x * -y == -(x * y) && -x * -y == x * y;
    }
    ProductNonNegative(m - 1, n);
    assert (m - 1) * n == m * n - n;
    if m > 1 {
      ProductNonNegative(m - 2, n);
      assert (m - 2) * n == m * n - 2 * n;
    }
  }

  lemma PowersInRange(a: int, k: nat, b: nat)
    requires a != 0 && k <= b && InRange(Pow(a, b))
    ensures InRange(Pow(a, k))
  {
    PowsGrow(a, k, b);
  }

  lemma PowOfOne(b: nat)
    ensures Pow(1, b) == 1
  {
  }

  /** The comment on ll_power promises a^b for every b >= 0; the code keeps that
      promise exactly when it is not asked for 0^0. */
  lemma PowerPromise(a: int, b: nat)
    ensures (if a == 0 then 0 else Pow(a, b)) == Pow(a, b) <==> !(a == 0 && b == 0)
  {
  }

  lemma {:induction false} PowPositive(b: nat)
    ensures Pow(10, b) >= 1
  {
    if b > 0 { PowPositive(b - 1); }
  }

  lemma {:induction false} PowGrows(b: nat, c: nat)
    requires b <= c
    ensures Pow(10, b) <= Pow(10, c)
    decreases c
  {
    if b < c { PowGrows(b, c - 1); PowPositive(c - 1); }
  }

  lemma PowNineteen()
    ensures Pow(10, 18) == 1_000_000_000_000_000_000 < INT64_LIMIT
  {
    assert Pow(10, 6) == 1_000_000;
    assert Pow(10, 12) == 1_000_000_000_000;
  }

  /** The digits read so far never exceed the whole number. */
  lemma {:induction false} PrefixBelow(s: string, i: nat)
    requires AllDigits(s) && i <= |s|
    ensures 0 <= Horner(s[..i]) * Pow(10, |s| - i) <= Horner(s)
    decreases |s| - i
  {
    HornerNonNegative(s[..i]);
    PowPositive(|s| - i);
    ProductNonNegative(Horner(s[..i]), Pow(10, |s| - i));
    if i == |s| {
      assert s[..i] == s;
    } else {
      PrefixBelow(s, i + 1);
      PrefixStep(s, i);
      PowPositive(|s| - i - 1);
      ProductNonNegative(DigitValue(s[i]), Pow(10, |s| - i - 1));
    }
  }

  lemma ProductNonNegative(x: int, y: int)
    requires 0 <= x && 0 <= y
    ensures 0 <= x * y
  {
  }

  lemma PrefixStep(s: string, i: nat)
    requires AllDigits(s) && i < |s|
    ensures Horner(s[..i + 1]) * Pow(10, |s| - i - 1)
         == Horner(s[..i]) * Pow(10, |s| - i) + DigitValue(s[i]) * Pow(10, |s| - i - 1)
  {
    assert s[..i + 1][..i] == s[..i];
    var h, p, d := Horner(s[..i]), Pow(10, |s| - i - 1), DigitValue(s[i]);
    assert Horner(s[..i + 1]) == h * 10 + d;
    assert Pow(10, |s| - i) == 10 * p;
    assert (h * 10 + d) * p == h * (10 * p) + d * p;
  }

  lemma {:induction false} HornerNonNegative(s: string)
    requires AllDigits(s)
    ensures Horner(s) >= 0
  {
    if s != [] { HornerNonNegative(s[..|s| - 1]); }
  }

  /** The digit runs that consume_next_num sums without overflow. */
  predicate FitsInt64(s: string) {
    |s| <= 19 && Horner(s) < INT64_LIMIT
  }

  /** consume_next_num: the digit at pos and the digits that follow it, up to and
      including the byte at end. For a run that overflows, where C leaves the result
      undefined, the model goes on with the number the digits spell. */
  method ConsumeNextNum(b: string, pos: nat, end: nat) returns (num: int, next: nat)
    requires pos < |b| && IsDigit(b[pos])
    requires pos <= end
    ensures pos < next <= |b| && next <= end + 1
    ensures forall k | pos <= k < next :: IsDigit(b[k])
    ensures next <= end ==> !IsDigit(At(b, next))
    ensures num == Horner(b[pos..next])
  {
    var numLen := 1;
    while IsDigit(At(b, pos + numLen)) && pos + numLen <= end
      invariant 1 <= numLen && pos + numLen <= |b| && pos + numLen <= end + 1
      invariant forall k | pos <= k < pos + numLen :: IsDigit(b[k])
      decreases |b| - pos - numLen
    {
      numLen := numLen + 1;
    }
    next := pos + numLen;
    if FitsInt64(b[pos..next]) {
      var sum := SumDigits(b, pos, numLen);
      num := sum as int;
    } else {
      num := Horner(b[pos..next]);
    }
  }

  /** The summing loop of consume_next_num, in 64-bit arithmetic. */
  method SumDigits(b: string, pos: nat, numLen: nat) returns (num: int64)
    requires pos + numLen <= |b| && AllDigits(b[pos..pos + numLen])
    requires FitsInt64(b[pos..pos + numLen])
    ensures num as int == Horner(b[pos..pos + numLen])
  {
    ghost var s := b[pos..pos + numLen];
    num := 0;
    assert s[..0] == [];
    for i := 0 to numLen
      invariant num as int == Horner(s[..i]) * Pow(10, numLen - i)
    {
      assert s[i] == b[pos + i];
      DigitStep(s, i);
      PowPositive(numLen - i - 1);
      hide Pow, Horner;
      var n := DigitValue(b[pos + i]) as int64;
      var power := LlPower(10, (numLen - i - 1) as int64);
      var increment := n * power;
      num := num + increment;
    }
    assert s[..numLen] == s;
  }

  /** What the summing loop computes on the way: each power, each increment and each
      sum so far stays in range. */
  ghost predicate NoOverflow(s: string) {
    forall i | 0 <= i < |s| :: StepInRange(s, i)
  }

  ghost predicate StepInRange(s: string, i: nat)
    requires i < |s|
  {
    var p := Pow(10, |s| - i - 1);
    InRange(p) && InRange(DigitValue(s[i]) * p) && InRange(Horner(s[..i + 1]) * p)
  }

  /** The summing loop is free of overflow for exactly the runs of at most 19 digits
      whose value is below 2^63. */
  lemma FitsInt64Exactly(s: string)
    requires AllDigits(s)
    ensures FitsInt64(s) <==> NoOverflow(s)
  {
    if FitsInt64(s) {
      forall i | 0 <= i < |s| ensures StepInRange(s, i) {
        DigitStep(s, i);
        PowPositive(|s| - i - 1);
      }
    }
    if NoOverflow(s) && s != [] {
      assert StepInRange(s, 0) && StepInRange(s, |s| - 1);
      assert s[..|s| - 1 + 1] == s && Pow(10, 0) == 1;
      if |s| > 19 {
        PowNineteen();
        assert Pow(10, 19) == 10 * Pow(10, 18);
        PowGrows(19, |s| - 1);
      }
    }
  }

  /** What one turn of the summing loop adds, and the bounds it stays within. */
  lemma DigitStep(s: string, i: nat)
    requires AllDigits(s) && i < |s|
    ensures var p := Pow(10, |s| - i - 1);
            var before, after := Horner(s[..i]) * Pow(10, |s| - i), Horner(s[..i + 1]) * p;
            after == before + DigitValue(s[i]) * p
            && 0 <= before <= after <= Horner(s)
            && 0 <= DigitValue(s[i]) * p <= after
            && (|s| <= 19 ==> p < INT64_LIMIT)
  {
    var p := Pow(10, |s| - i - 1);
    PrefixStep(s, i);
    PrefixBelow(s, i);
    PrefixBelow(s, i + 1);
    PowPositive(|s| - i - 1);
    ProductNonNegative(DigitValue(s[i]), p);
    if |s| <= 19 {
      PowGrows(|s| - i - 1, 18);
      PowNineteen();
    }
  }

  // ----- The Range header -----

  /** What the request remembers of its Range headers. */
  datatype RangeSpec = RangeSpec(startGiven: bool, start: int, endGiven: bool, end: int)

  const NO_RANGE := RangeSpec(false, 0, false, 0)

  const UNIT := "bytes="

  /** What is known once the cursor stands behind "bytes=". */
  function FirstBoundOf(v: string, known: RangeSpec): (r: (bool, RangeSpec))
    requires |UNIT| < |v|
  {
    var i := ScanEnd(v, IsDigit, |UNIT|);
    var first := if i == |UNIT| then known
                 else known.(startGiven := true, start := Horner(v[|UNIT|..i]));
    if At(v, i) != '-' then (false, first.(startGiven := false))
    else if i + 1 >= |v| then (false, first)
    else SecondBoundOf(v, i + 1, first)
  }

  /** What is known once the cursor stands behind the dash. */
  function SecondBoundOf(v: string, i: nat, known: RangeSpec): (r: (bool, RangeSpec))
    requires i < |v|
  {
    var j := ScanEnd(v, IsDigit, i);
    if j == i then (true, known)
    else (true, known.(endGiven := true, end := Horner(v[i..j])))
  }

  /** Effect of one Range header value on what is already known, and the value
      parse_range_header returns (which its caller ignores). The byte after the
      value is the CR that ends the header line. */
  function RangeOf(v: string, known: RangeSpec): (r: (bool, RangeSpec)) {
    if !(UNIT <= v) || |v| <= |UNIT| then (false, known) else FirstBoundOf(v, known)
  }

  /** A digit run under the cursor, if there is one. */
  method NumberAt(b: string, pos: nat, len: nat, from: nat) returns (num: Option<int>, next: nat)
    requires pos + len < |b| && b[pos + len] == '\r' && pos <= from < pos + len
    ensures from <= next <= pos + len
    ensures ScanEnd(b[pos..pos + len], IsDigit, from - pos) == next - pos
    ensures num == if next == from then None else Some(Horner(b[pos..pos + len][from - pos..next - pos]))
  {
    if IsDigit(b[from]) {
      var n;
      n, next := ConsumeNextNum(b, from, pos + len);
      num := Some(n);
      RunInValue(b, pos, len, from, next);
    } else {
      num, next := None, from;
      ScanStops(b[pos..pos + len], IsDigit, from - pos, from - pos);
    }
  }

  /** parse_range_header on the value b[pos..pos + len]. */
  method ParseRangeHeader(b: string, pos: nat, len: nat, known: RangeSpec) returns (ok: bool, spec: RangeSpec)
    requires pos + len < |b| && b[pos + len] == '\r'
    ensures (ok, spec) == RangeOf(b[pos..pos + len], known)
  {
    hide Horner;
    spec := known;
    var end := pos + len;
    UnitLooks(b, pos, len);
    if !LooksAt(b, pos, UNIT) {
      return false, spec;
    }
    var str := pos;
    if str + |UNIT| >= end { return false, spec; }
    str := str + |UNIT|;
    var num;
    num, str := NumberAt(b, pos, len, str);
    if num.Some? {
      spec := spec.(startGiven := true, start := num.value);
    }
    if b[str] != '-' {
      return false, spec.(startGiven := false);
    }
    if str + 1 >= end { return false, spec; }
    str := str + 1;
    num, str := NumberAt(b, pos, len, str);
    if num.Some? {
      spec := spec.(endGiven := true, end := num.value);
    }
    return true, spec;
  }

  lemma UnitLooks(b: string, pos: nat, len: nat)
    requires pos + len < |b| && b[pos + len] == '\r'
    ensures LooksAt(b, pos, UNIT) <==> UNIT <= b[pos..pos + len]
  {
    var v := b[pos..pos + len];
    if len < |UNIT| {
      assert At(b, pos + len) != UNIT[len];
    }
    if LooksAt(b, pos, UNIT) {
      forall k | 0 <= k < |UNIT| ensures v[k] == UNIT[k] {
        assert At(b, pos + k) == UNIT[k];
      }
    }
    if UNIT <= v {
      forall k | 0 <= k < |UNIT| ensures At(b, pos + k) == UNIT[k] {
        assert v[k] == UNIT[k];
      }
    }
  }

  /** A digit run found in the buffer is the one found in the header value. */
  lemma RunInValue(b: string, pos: nat, len: nat, from: nat, next: nat)
    requires pos + len < |b| && b[pos + len] == '\r'
    requires pos <= from < next <= |b| && next <= pos + len + 1
    requires forall k | from <= k < next :: IsDigit(b[k])
    requires next <= pos + len ==> !IsDigit(At(b, next))
    ensures next <= pos + len
    ensures ScanEnd(b[pos..pos + len], IsDigit, from - pos) == next - pos
    ensures b[pos..pos + len][from - pos..next - pos] == b[from..next]
  {
    assert IsDigit(b[next - 1]);
    var v := b[pos..pos + len];
    forall k | from - pos <= k < next - pos ensures IsDigit(v[k]) {
      assert v[k] == b[k + pos];
    }
    ScanStops(v, IsDigit, from - pos, next - pos);
    SliceOfSlice(b, pos, pos + len, from - pos, next - pos);
  }

  // ----- Printed ranges read back -----

  datatype RangeForm = Between(a: nat, b: nat) | From(a: nat) | Suffix(b: nat)

  function PrintRange(f: RangeForm): string {
    match f
    case Between(a, b) => UNIT + Dec(a) + "-" + Dec(b)
    case From(a) => UNIT + Dec(a) + "-"
    case Suffix(b) => UNIT + "-" + Dec(b)
  }

  /** Exactly the printed bounds, with exactly the printed ones marked as given. */
  function Denoted(f: RangeForm): RangeSpec {
    match f
    case Between(a, b) => RangeSpec(true, a, true, b)
    case From(a) => RangeSpec(true, a, false, 0)
    case Suffix(b) => RangeSpec(false, 0, true, b)
  }

  lemma RangeRoundTrip(f: RangeForm)
    ensures RangeOf(PrintRange(f), NO_RANGE).1 == Denoted(f)
  {
    hide Horner, Dec;
    var v := PrintRange(f);
    match f
    case Between(a, b) =>
      FirstBound(a, Dec(b));
      NumberIn(v, |UNIT| + |Dec(a)| + 1, Dec(b));
    case From(a) =>
      assert v == UNIT + Dec(a) + "-" + [];
      FirstBound(a, []);
    case Suffix(b) =>
      NumberIn(v, |UNIT|, []);
      NumberIn(v, |UNIT| + 1, Dec(b));
  }

  /** The first bound is read whole and leaves the cursor on the dash. */
  lemma FirstBound(a: nat, rest: string)
    ensures var v, i := UNIT + Dec(a) + "-" + rest, |UNIT| + |Dec(a)|;
            UNIT <= v && ScanEnd(v, IsDigit, |UNIT|) == i
            && v[|UNIT|..i] == Dec(a) && v[i] == '-' && v[i + 1..] == rest
  {
    hide Horner, Dec;
    NumberIn(UNIT + Dec(a) + "-" + rest, |UNIT|, Dec(a));
  }

  lemma NumberIn(v: string, i: nat, d: string)
    requires i + |d| <= |v| && v[i..i + |d|] == d && AllDigits(d)
    requires i + |d| < |v| ==> !IsDigit(v[i + |d|])
    ensures ScanEnd(v, IsDigit, i) == i + |d|
  {
    forall k | i <= k < i + |d| ensures IsDigit(v[k]) {
      assert v[k] == d[k - i];
    }
    ScanStops(v, IsDigit, i, i + |d|);
  }

  lemma {:induction false} DecLength(n: nat, k: nat)
    requires 1 <= k && n < Pow(10, k)
    ensures |Dec(n)| <= k
  {
    if n >= 10 {
      assert k > 1 by { assert Pow(10, 1) == 10 * Pow(10, 0); }
      assert Pow(10, k) == 10 * Pow(10, k - 1);
      DecLength(n / 10, k - 1);
    }
  }

  /** The bounds that are read back without overflow are those below 2^63. */
  lemma PrintedBoundFits(n: nat)
    ensures FitsInt64(Dec(n)) <==> n < INT64_LIMIT
  {
    if n < INT64_LIMIT { PrintedBoundShort(n); }
  }

  lemma PrintedBoundShort(n: nat)
    requires n < INT64_LIMIT
    ensures |Dec(n)| <= 19
  {
    PowNineteen();
    assert Pow(10, 19) == 10 * Pow(10, 18);
    DecLength(n, 19);
  }

  /** The smallest bound that overflows, 9223372036854775808, in "bytes=...-". */
  lemma SmallestOverflow()
    ensures !FitsInt64(Dec(INT64_LIMIT)) && !InRange(INT64_LIMIT)
    ensures RangeOf(UNIT + Dec(INT64_LIMIT) + "-", NO_RANGE).1 == RangeSpec(true, INT64_LIMIT, false, 0)
  {
    PrintedBoundFits(INT64_LIMIT);
    RangeRoundTrip(From(INT64_LIMIT));
  }

  /** Behind a number without a dash the bound is not given, but the number stays. */
  lemma NumberStays()
    ensures RangeOf("bytes=12x", NO_RANGE) == (false, RangeSpec(false, 12, false, 0))
  {
    var v := "bytes=12x";
    assert UNIT <= v && v[6..8] == "12";
    ScanStops(v, IsDigit, 6, 8);
    assert Horner("12") == Horner("1") * 10 + 2 by { assert "12"[..1] == "1"; }
    assert Horner("1") == Horner("") * 10 + 1 by { assert "1"[..0] == ""; }
  }

  /** The value starts with "bytes=", the number d and a dash. */
  ghost predicate StartsWith(v: string, d: string) {
    0 < |d| && AllDigits(d) && UNIT + d + "-" <= v
  }

  /** When a single Range header leaves its first bound given: the value starts
      with "bytes=", a number and a dash, and only then. */
  lemma StartGivenExactly(v: string)
    ensures RangeOf(v, NO_RANGE).1.startGiven <==> exists d :: StartsWith(v, d)
  {
    hide StartsWith, Horner;
    if RangeOf(v, NO_RANGE).1.startGiven {
      var i := ScanEnd(v, IsDigit, |UNIT|);
      StartText(v, v[|UNIT|..i]);
      assert StartsWith(v, v[|UNIT|..i]);
    }
    if d :| StartsWith(v, d) {
      StartText(v, d);
    }
  }

  lemma StartText(v: string, d: string)
    ensures StartsWith(v, d) <==>
      UNIT <= v && 0 < |d| && AllDigits(d)
      && Occurs(v, |UNIT|, d) && |UNIT| + |d| < |v| && v[|UNIT| + |d|] == '-'
    ensures StartsWith(v, d) ==> ScanEnd(v, IsDigit, |UNIT|) == |UNIT| + |d|
  {
    OccursPrefix(v, UNIT + d + "-");
    OccursConcat(v, 0, UNIT + d, "-");
    OccursConcat(v, 0, UNIT, d);
    OccursPrefix(v, UNIT);
    OccursOne(v, |UNIT| + |d|, "-");
    if StartsWith(v, d) {
      NumberIn(v, |UNIT|, d);
    }
  }
}
