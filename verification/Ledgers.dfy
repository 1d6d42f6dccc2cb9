/** Which descriptors the live slots of the poll queue hold. */
module Ledgers {
  import opened Numbers
  import opened Connections

  /** The live connections, slot by slot, hold the listen socket in slot 0 and
      exactly the open client descriptors in the others, each one once. */
  ghost predicate Ledger(live: seq<Connection>, listenFd: int, open: set<int>) {
    && live != [] && live[0].fd == listenFd && listenFd !in open
    && (forall i | 1 <= i < |live| :: live[i].fd in open)
    && (forall i, j | 1 <= i < j < |live| :: live[i].fd != live[j].fd)
    && (forall fd | fd in open :: Holds(live, fd))
  }

  ghost predicate Holds(live: seq<Connection>, fd: int) {
    exists i :: 1 <= i < |live| && live[i].fd == fd
  }

  /** Every accepted descriptor is open or was closed, as often as it was accepted. */
  ghost predicate Conserved(accepted: multiset<int>, closed: multiset<int>, open: set<int>) {
    accepted == closed + multiset(open)
  }

  lemma ConservedAdd(accepted: multiset<int>, closed: multiset<int>, open: set<int>, fd: int)
    requires Conserved(accepted, closed, open) && fd !in open
    ensures Conserved(accepted + multiset{fd}, closed, open + {fd})
  {
    assert multiset(open + {fd}) == multiset(open) + multiset{fd};
  }

  lemma ConservedClose(accepted: multiset<int>, closed: multiset<int>, open: set<int>, fd: int)
    requires Conserved(accepted, closed, open) && fd in open
    ensures Conserved(accepted, closed + multiset{fd}, open - {fd})
  {
    assert multiset(open) == multiset(open - {fd}) + multiset{fd};
  }

  /** Different slots hold different connections. */
  lemma SlotsDiffer(live: seq<Connection>, listenFd: int, open: set<int>, i: nat, j: nat)
    requires Ledger(live, listenFd, open) && i < j < |live|
    ensures live[i] != live[j] && live[i].fd != live[j].fd
  {
  }

  lemma InLedger(live: seq<Connection>, listenFd: int, open: set<int>, i: nat)
    requires Ledger(live, listenFd, open) && 1 <= i < |live|
    ensures live[i].fd in open
  {
  }

  lemma LedgerAdd(live: seq<Connection>, listenFd: int, open: set<int>, c: Connection)
    requires Ledger(live, listenFd, open) && c.fd != listenFd && c.fd !in open
    ensures Ledger(live + [c], listenFd, open + {c.fd})
  {
    var live' := live + [c];
    forall fd | fd in open + {c.fd} ensures Holds(live', fd) {
      if fd == c.fd {
        assert live'[|live|].fd == fd;
      } else {
        assert Holds(live, fd);
        var i :| 1 <= i < |live| && live[i].fd == fd;
        assert live'[i].fd == fd;
      }
    }
  }

  /** close_connection fills the hole with the last slot. */
  function SwapRemoved<T>(s: seq<T>, i: nat): seq<T>
    requires i < |s|
  {
    s[i := s[|s| - 1]][..|s| - 1]
  }

  lemma LedgerRemove(live: seq<Connection>, listenFd: int, open: set<int>, i: nat)
    requires Ledger(live, listenFd, open) && 1 <= i < |live|
    ensures Ledger(SwapRemoved(live, i), listenFd, open - {live[i].fd})
    ensures live[i] !in SwapRemoved(live, i)
  {
    var n, live' := |live| - 1, SwapRemoved(live, i);
    assert forall k | 0 <= k < n :: live'[k] == if k == i then live[n] else live[k];
    forall fd | fd in open - {live[i].fd} ensures Holds(live', fd) {
      assert Holds(live, fd);
      var k :| 1 <= k < |live| && live[k].fd == fd;
      assert live'[if k == n then i else k].fd == fd;
    }
  }

  // ----- The sweep over the live slots -----

  /** The slots behind the sweep's index, without the listen socket's. */
  ghost function Front(live: seq<Connection>, idx: nat): seq<Connection>
    requires 1 <= idx && 1 <= |live|
  {
    live[1..Min(idx, |live|)]
  }

  /** How far the sweep has come: ahead of its index the slots are as they were; the
      connections moved so far are the last ones, taken from the end backwards; behind
      its index stand those that stayed where they were, and those moved. */
  ghost predicate Progress(was: seq<Connection>, live: seq<Connection>, idx: nat, moved: seq<Connection>) {
    && 1 <= |live| <= |was| && live[0] == was[0] && 1 <= idx <= |live| + 1 && idx <= |was|
    && |moved| == |was| - Max(idx, |live|)
    && (forall k | 0 <= k < |moved| :: moved[k] == was[|was| - 1 - k])
    && (forall k | idx <= k < |live| :: live[k] == was[k])
    && (forall k | 1 <= k < Min(idx, |live|) :: live[k] == was[k] || live[k] in moved)
  }

  lemma AheadUntouched(was: seq<Connection>, live: seq<Connection>, idx: nat, moved: seq<Connection>)
    requires Progress(was, live, idx, moved) && idx < |live|
    ensures |live| <= |was| && live[idx] == was[idx]
  {
  }

  lemma NoneAdded(was: seq<Connection>, live: seq<Connection>, idx: nat, moved: seq<Connection>)
    requires Progress(was, live, idx, moved) && idx >= |live|
    requires forall c | c in live[1..] :: c in was[1..idx] || c in moved
    ensures forall c | c in live :: c in was
  {
    forall c | c in live ensures c in was {
      if c != live[0] {
        assert c in live[1..];
      }
    }
  }

  /** The connection that closing slot idx moves, if it is not in the last slot. */
  ghost function Moving(live: seq<Connection>, idx: nat, gaveUp: bool): seq<Connection>
    requires idx < |live|
  {
    if gaveUp && idx < |live| - 1 then [live[|live| - 1]] else []
  }

  lemma ProgressBounds(was: seq<Connection>, live: seq<Connection>, idx: nat, moved: seq<Connection>)
    requires Progress(was, live, idx, moved)
    ensures 1 <= |live| <= |was| && idx <= |was|
  {
  }

  /** Closing slot idx leaves clients in slots 1, 2, ... */
  lemma StillThere(live: seq<Connection>, idx: nat, gaveUp: bool, live': seq<Connection>)
    requires 1 <= idx < |live| && live' == if gaveUp then SwapRemoved(live, idx) else live
    ensures forall i | 1 <= i < |live'| :: live'[i] in live[1..]
  {
    forall i | 1 <= i < |live'| ensures live'[i] in live[1..] {
      assert live'[i] == live[1..][(if gaveUp && i == idx then |live| - 1 else i) - 1];
    }
  }

  lemma SweepStep(was: seq<Connection>, live: seq<Connection>, idx: nat, moved: seq<Connection>,
                  gaveUp: bool, live': seq<Connection>)
    requires Progress(was, live, idx, moved) && idx < |live|
    requires live' == if gaveUp then SwapRemoved(live, idx) else live
    ensures Progress(was, live', idx + 1, moved + Moving(live, idx, gaveUp))
    ensures Front(live', idx + 1) ==
            Front(live, idx) + (if gaveUp then Moving(live, idx, gaveUp) else [live[idx]])
    ensures live[idx] == was[idx] && (Moving(live, idx, gaveUp) != [] ==> live[|live| - 1] == was[|live| - 1])
    ensures |moved + Moving(live, idx, gaveUp)| <= |moved| + |live| - |live'|
  {
    var n, moved' := |live| - 1, moved + Moving(live, idx, gaveUp);
    if gaveUp {
      assert forall k | 0 <= k < n :: live'[k] == if k == idx then live[n] else live[k];
      assert idx < n ==> moved'[|moved|] == live[n] && live[n] == was[n] && |moved| == |was| - |live|;
      assert Front(live, idx) == live[1..idx] && live'[1..idx] == live[1..idx];
      assert idx < n ==> live'[1..idx + 1] == live'[1..idx] + [live'[idx]];
    } else {
      assert live[1..idx + 1] == live[1..idx] + [live[idx]];
      assert moved' == moved;
    }
  }
}
