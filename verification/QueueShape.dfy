/** Sizes of the poll queue: how init_conn_pool, serv_add_connection and
    close_connection choose its capacity, and what that costs over a whole run. */
module QueueShape {
  import opened Numbers

  const INITIAL_POOL := 1024
  const SMALLEST_POOL := 20

  /** Live slots, allocated slots, and slots copied by all reallocations so far. */
  datatype Shape = Shape(n: nat, alloc: nat, copied: nat)

  datatype Op = Add | Close

  function Initial(maxFds: nat): Shape {
    Shape(1, Min(maxFds, INITIAL_POOL), 0)
  }

  /** realloc moves the slots that fit; a reallocation to the same size is free. */
  function Copies(alloc: nat, alloc': nat): nat {
    if alloc == alloc' then 0 else Min(alloc, alloc')
  }

  function Resized(s: Shape, alloc: nat): Shape {
    Shape(s.n, alloc, s.copied + Copies(s.alloc, alloc))
  }

  function AfterAdd(s: Shape, maxFds: nat): Shape {
    var s' := s.(n := s.n + 1);
    if s'.n >= s'.alloc then Resized(s', Min(s'.alloc * 2, maxFds)) else s'
  }

  function AfterClose(s: Shape): Shape
    requires s.n > 0
  {
    var s' := s.(n := s.n - 1);
    if s'.alloc > SMALLEST_POOL && s'.n <= s'.alloc / 4
    then Resized(s', Max(SMALLEST_POOL, s'.alloc / 2)) else s'
  }

  /** The slots in use fit; one is free unless the cap is reached. */
  predicate Fitting(s: Shape, maxFds: nat) {
    1 <= s.n <= s.alloc <= maxFds && (s.n < s.alloc || s.alloc == maxFds)
  }

  /** A connection is added below the cap only, and slot 0 is never closed. */
  predicate Allowed(s: Shape, op: Op, maxFds: nat) {
    match op
    case Add => s.n < maxFds
    case Close => s.n > 1
  }

  function After(s: Shape, op: Op, maxFds: nat): Shape
    requires Allowed(s, op, maxFds)
  {
    match op
    case Add => AfterAdd(s, maxFds)
    case Close => AfterClose(s)
  }

  ghost predicate IsRun(ops: seq<Op>, maxFds: nat)
    decreases |ops|, 0
  {
    ops == [] || (IsRun(ops[..|ops| - 1], maxFds)
                  && Allowed(Run(ops[..|ops| - 1], maxFds), ops[|ops| - 1], maxFds))
  }

  /** The shape after a sequence of adds and closes from init_conn_pool on. */
  ghost function Run(ops: seq<Op>, maxFds: nat): Shape
    requires IsRun(ops, maxFds)
    decreases |ops|, 1
  {
    if ops == [] then Initial(maxFds)
    else After(Run(ops[..|ops| - 1], maxFds), ops[|ops| - 1], maxFds)
  }

  lemma StepKeepsFitting(s: Shape, op: Op, maxFds: nat)
    requires Fitting(s, maxFds) && Allowed(s, op, maxFds)
    ensures Fitting(After(s, op, maxFds), maxFds)
  {
  }

  /** A run goes on with one more allowed operation. */
  lemma RunOn(ops: seq<Op>, op: Op, maxFds: nat)
    requires IsRun(ops, maxFds) && Allowed(Run(ops, maxFds), op, maxFds)
    ensures IsRun(ops + [op], maxFds)
    ensures Run(ops + [op], maxFds) == After(Run(ops, maxFds), op, maxFds)
  {
    assert (ops + [op])[..|ops|] == ops;
  }

  /** The distance from half full, which pays for the next reallocation; a full
      pool at the cap has no growth to pay for. */
  function Potential(s: Shape, maxFds: nat): nat {
    if 2 * s.n <= s.alloc then s.alloc - 2 * s.n
    else if s.alloc < maxFds then 2 * s.n - s.alloc
    else 0
  }

  /** What one operation costs after the potential has paid its part. */
  lemma AmortisedStep(s: Shape, op: Op, maxFds: nat)
    requires Fitting(s, maxFds) && Allowed(s, op, maxFds)
    ensures var t := After(s, op, maxFds);
            t.copied + Potential(t, maxFds) <= s.copied + Potential(s, maxFds) + (if op.Add? then 2 else 21)
  {
    var t := After(s, op, maxFds);
    match op
    case Add =>
      if s.n + 1 >= s.alloc && s.alloc < maxFds {
        assert s.n + 1 == s.alloc;
        assert t == Shape(s.alloc, Min(s.alloc * 2, maxFds), s.copied + s.alloc);
      }
    case Close =>
      if s.alloc > SMALLEST_POOL && s.n - 1 <= s.alloc / 4 {
        assert t.alloc == Max(SMALLEST_POOL, s.alloc / 2) < s.alloc;
        assert t.copied == s.copied + t.alloc;
        assert 2 * t.n <= t.alloc;
      }
  }

  function Count(ops: seq<Op>, op: Op): nat {
    if ops == [] then 0 else Count(ops[..|ops| - 1], op) + (if ops[|ops| - 1] == op then 1 else 0)
  }

  lemma {:induction false} RunBound(ops: seq<Op>, maxFds: nat)
    requires 1 <= maxFds && IsRun(ops, maxFds)
    ensures Fitting(Run(ops, maxFds), maxFds)
    ensures Run(ops, maxFds).copied + Potential(Run(ops, maxFds), maxFds)
         <= 2 * Count(ops, Add) + 21 * Count(ops, Close) + Initial(maxFds).alloc
  {
    if ops != [] {
      var init, op := ops[..|ops| - 1], ops[|ops| - 1];
      RunBound(init, maxFds);
      StepKeepsFitting(Run(init, maxFds), op, maxFds);
      AmortisedStep(Run(init, maxFds), op, maxFds);
    }
  }

  lemma {:induction false} CountAll(ops: seq<Op>)
    ensures Count(ops, Add) + Count(ops, Close) == |ops|
  {
    if ops != [] { CountAll(ops[..|ops| - 1]); }
  }

  /** Over any sequence of m adds and closes the reallocations together copy at most
      21 slots per operation, plus the initial capacity. */
  lemma AmortisedResizing(ops: seq<Op>, maxFds: nat)
    requires 1 <= maxFds && IsRun(ops, maxFds)
    ensures Run(ops, maxFds).copied <= 21 * |ops| + Min(maxFds, INITIAL_POOL)
    ensures Run(ops, maxFds).copied <= 2 * Count(ops, Add) + 21 * Count(ops, Close) + Min(maxFds, INITIAL_POOL)
    ensures Fitting(Run(ops, maxFds), maxFds)
  {
    RunBound(ops, maxFds);
    CountAll(ops);
  }
}
