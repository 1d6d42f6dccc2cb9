/** The poll queue and the main loop: init_conn_pool, serv_add_connection,
    close_connection, do_conn_state on a slot, and the sweep in main. */
module Servers {
  import opened Text
  import opened Numbers
  import opened Reader
  import opened Responses
  import opened Answers
  import opened Protocol
  import opened Connections
  import opened Stories
  import opened QueueShape
  import opened Ledgers

  class Server {
    const maxFds: nat
    const listenFd: int
    const conf: Config

    var timeNow: int
    var pollfds: array<PollFd>
    var conns: array<Connection?>
    var nConns: nat

    // The descriptors of clients that the kernel holds open.
    var open: set<int>

    // What the live slots hold, and the history: the adds and closes, the slots
    // that reallocations copied, the descriptors accepted and closed, and the
    // connections that are gone.
    ghost var live: seq<Connection>
    ghost var ops: seq<Op>
    ghost var copied: nat
    ghost var accepted: multiset<int>
    ghost var closed: multiset<int>
    ghost var gone: set<Connection>

    // Every visit of the sweep to a connection.
    ghost var story: seq<Episode>

    /** The capacity is the one that the adds and closes so far lead to. */
    ghost predicate Sized()
      reads this`conns, this`pollfds, this`nConns, this`ops, this`copied
    {
      && 1 <= maxFds && 1 <= nConns <= conns.Length
      && conns.Length == pollfds.Length && conns as object != pollfds
      && IsRun(ops, maxFds) && Run(ops, maxFds) == Shape(nConns, conns.Length, copied)
      && Fitting(Shape(nConns, conns.Length, copied), maxFds)
    }

    /** Everything accepted is either open, in exactly one slot, or closed. */
    ghost predicate Books()
      reads this`live, this`nConns, this`open, this`accepted, this`closed
    {
      && |live| == nConns
      && Ledger(live, listenFd, open)
      && Conserved(accepted, closed, open)
    }

    /** The arrays hold the live connections. */
    ghost predicate Slots()
      reads this`live, this`conns, this`pollfds, pollfds, conns
    {
      && |live| <= conns.Length && |live| <= pollfds.Length
      && forall i | 0 <= i < |live| :: conns[i] == live[i] && pollfds[i].fd == live[i].fd
    }

    /** A connection between two sweeps. */
    ghost predicate Resting(i: nat)
      requires i < |live| && i < pollfds.Length
      reads this`live, this`pollfds, this`gone, pollfds, live[i]
    {
      && live[i] !in gone && live[i].conf == conf
      && live[i].WireInv() && live[i].Persistent() && pollfds[i].events == live[i].state.Wanted()
    }

    /** The wires of the closed connections stay as they were left. */
    ghost predicate GoneOk()
      reads this`gone, gone
    {
      forall c | c in gone :: c.conf == conf && c.WireInv()
    }

    /** Slot 0 polls for clients that want to connect. */
    ghost predicate Listening()
      reads this`pollfds, pollfds
    {
      pollfds.Length > 0 && pollfds[0].events == POLLIN
    }

    ghost predicate Valid()
      reads this`pollfds, this`conns, this`nConns, this`ops, this`copied, this`live, this`open, this`accepted,
        this`closed, this`gone, pollfds, conns, live, gone
    {
      && Sized() && Books() && Slots() && GoneOk() && Listening() && ValidConfig(conf)
      && forall i | 1 <= i < |live| :: Resting(i)
    }

    /** The story is right, and up to date with every connection. */
    ghost predicate Told()
      reads this`story, this`live, live
    {
      StoryRight(conf, story) && forall i | 1 <= i < |live| :: UpToDate(story, live[i], live[i].Snap())
    }

    /** realloc of both arrays. */
    method Resize(n: nat)
      requires Slots() && conns.Length == pollfds.Length && |live| <= n + 1
      modifies this`pollfds, this`conns, this`copied
      ensures fresh(pollfds) && fresh(conns) && conns as object != pollfds
      ensures pollfds.Length == conns.Length == n
      ensures forall i | 0 <= i < |live| && i < n :: conns[i] == live[i] && pollfds[i] == old(pollfds[i])
      ensures copied == old(copied) + Copies(old(conns.Length), n)
    {
      var ps := new PollFd[n](_ => PollFd(-1, NO_EVENTS, NO_EVENTS));
      var cs := new Connection?[n](_ => null);
      forall i | 0 <= i < Min(n, conns.Length) {
        ps[i] := pollfds[i];
      }
      forall i | 0 <= i < Min(n, conns.Length) {
        cs[i] := conns[i];
      }
      copied := copied + Copies(conns.Length, n);
      pollfds, conns := ps, cs;
    }

    /** init_conn_pool, and the listen socket in slot 0. */
    constructor (listenFd: int, maxFds: nat, conf: Config, now: int)
      requires 1 <= maxFds && ValidConfig(conf)
      ensures Valid() && Told() && nConns == 1 && open == {} && gone == {} && story == []
      ensures this.listenFd == listenFd && this.maxFds == maxFds && this.conf == conf && timeNow == now
      ensures fresh(pollfds) && fresh(conns) && conns.Length == Min(maxFds, INITIAL_POOL)
    {
      hide Connection.WireInv, Connection.Persistent, VisitsOf;
      this.listenFd, this.maxFds, this.conf := listenFd, maxFds, conf;
      timeNow := now;
      var c := new Connection(listenFd, conf, now);
      var n := Min(maxFds, INITIAL_POOL);
      pollfds := new PollFd[n](_ => PollFd(listenFd, POLLIN, NO_EVENTS));
      conns := new Connection?[n](_ => c);
      nConns := 1;
      open, ops, copied, live := {}, [], 0, [c];
      accepted, closed, gone := multiset{}, multiset{}, {};
      story := [];
    }

    /** The first half of serv_add_connection: one more slot, in larger arrays if
        there is none to spare. */
    method MakeRoom()
      requires Sized() && Slots() && |live| == nConns < maxFds
      modifies this`nConns, this`pollfds, this`conns, this`copied, this`ops
      ensures Sized() && Slots() && nConns == |live| + 1 && ops == old(ops) + [Add]
      ensures forall i | 0 <= i < |live| :: pollfds[i] == old(pollfds[i])
      ensures (pollfds == old(pollfds) && conns == old(conns)) || (fresh(pollfds) && fresh(conns))
    {
      hide Run, IsRun;
      RunOn(ops, Add, maxFds);
      StepKeepsFitting(Shape(nConns, conns.Length, copied), Add, maxFds);
      nConns := nConns + 1;
      if nConns >= conns.Length {
        Resize(Min(conns.Length * 2, maxFds));
      }
      ops := ops + [Add];
    }

    /** serv_add_connection, for the connection record made for the new socket. */
    method AddSlot(c: Connection)
      requires Sized() && Books() && Slots() && nConns < maxFds
      requires c.fd != listenFd && c.fd !in open
      modifies this`nConns, this`pollfds, this`conns, this`copied, this`ops, this`live, this`open, this`accepted,
               pollfds, conns
      ensures Sized() && Books() && Slots()
      ensures live == old(live) + [c] && ops == old(ops) + [Add]
      ensures open == old(open) + {c.fd} && accepted == old(accepted) + multiset{c.fd}
      ensures pollfds[|old(live)|] == PollFd(c.fd, POLLIN, NO_EVENTS)
      ensures forall i | 0 <= i < |old(live)| :: pollfds[i] == old(pollfds[i])
      ensures (pollfds == old(pollfds) && conns == old(conns)) || (fresh(pollfds) && fresh(conns))
    {
      hide Run, IsRun, Fitting, Ledger, Slots, Conserved;
      ConservedAdd(accepted, closed, open, c.fd);
      MakeRoom();
      LedgerAdd(live, listenFd, open, c);
      FillSlot(nConns - 1, c);
      open := open + {c.fd};
      accepted := accepted + multiset{c.fd};
    }

    /** The two stores of serv_add_connection. */
    method FillSlot(idx: nat, c: Connection)
      requires idx == |live| && Slots() && |live| < conns.Length && |live| < pollfds.Length && conns as object != pollfds
      modifies this`live, pollfds, conns
      ensures Slots() && live == old(live) + [c]
      ensures pollfds[|old(live)|] == PollFd(c.fd, POLLIN, NO_EVENTS)
      ensures forall i | 0 <= i < |old(live)| :: pollfds[i] == old(pollfds[i])
    {
      pollfds[idx] := PollFd(c.fd, POLLIN, NO_EVENTS);
      conns[idx] := c;
      live := live + [c];
    }

    /** serv_add_connection. */
    method AddConnection(newsock: int) returns (c: Connection)
      requires Valid() && nConns < maxFds
      requires newsock != listenFd && newsock !in open
      modifies this, pollfds, conns
      ensures Valid()
      ensures fresh(c) && c.fd == newsock && c.lastActive == timeNow && New(c.Snap())
      ensures live == old(live) + [c] && gone == old(gone)
      ensures open == old(open) + {newsock} && ops == old(ops) + [Add]
      ensures accepted == old(accepted) + multiset{newsock} && closed == old(closed)
      ensures timeNow == old(timeNow) && story == old(story)
      ensures forall i | 0 <= i < |old(live)| :: pollfds[i] == old(pollfds[i])
      ensures (pollfds == old(pollfds) && conns == old(conns)) || (fresh(pollfds) && fresh(conns))
    {
      hide ValidConfig, Sized, Books, Connection.WireInv, Connection.Persistent;
      c := new Connection(newsock, conf, timeNow);
      AddSlot(c);
      forall i | 1 <= i < |live| ensures Resting(i) {
        assert i < |old(live)| ==> old(Resting(i));
      }
    }

    /** The first half of close_connection: the last slot moves into slot i. */
    method RemoveSlot(i: nat)
      requires Slots() && |live| == nConns <= conns.Length && nConns <= pollfds.Length && i < nConns
      requires conns as object != pollfds
      modifies this`live, this`nConns, pollfds, conns
      ensures Slots() && live == SwapRemoved(old(live), i) && nConns == |live|
      ensures forall k | 0 <= k < |live| :: pollfds[k] == old(pollfds[if k == i then nConns - 1 else k])
    {
      pollfds[i] := PollFd(-1, NO_EVENTS, NO_EVENTS);
      if i != nConns - 1 {
        pollfds[i] := pollfds[nConns - 1];
        conns[i] := conns[nConns - 1];
      }
      nConns := nConns - 1;
      live := SwapRemoved(live, i);
    }

    /** The second half: smaller arrays if a quarter or less is used. */
    method Shrink()
      requires Slots() && 1 <= |live| == nConns < conns.Length + 1
      requires conns.Length == pollfds.Length && conns as object != pollfds
      requires IsRun(ops, maxFds) && Run(ops, maxFds) == Shape(nConns + 1, conns.Length, copied)
      requires Fitting(Shape(nConns + 1, conns.Length, copied), maxFds)
      modifies this`pollfds, this`conns, this`copied, this`ops
      ensures Sized() && Slots() && ops == old(ops) + [Close]
      ensures forall i | 0 <= i < |live| :: pollfds[i] == old(pollfds[i])
      ensures (pollfds == old(pollfds) && conns == old(conns)) || (fresh(pollfds) && fresh(conns))
    {
      hide Run, IsRun;
      RunOn(ops, Close, maxFds);
      StepKeepsFitting(Shape(nConns + 1, conns.Length, copied), Close, maxFds);
      if conns.Length > SMALLEST_POOL && nConns <= conns.Length / 4 {
        Resize(Max(SMALLEST_POOL, conns.Length / 2));
      }
      ops := ops + [Close];
    }

    /** close_connection. */
    method CloseConnection(i: nat)
      requires Sized() && Books() && Slots() && 1 <= i < nConns
      modifies this`nConns, this`pollfds, this`conns, this`copied, this`ops, this`live, this`open, this`closed,
               pollfds, conns
      ensures Sized() && Books() && Slots()
      ensures live == SwapRemoved(old(live), i) && ops == old(ops) + [Close]
      ensures open == old(open) - {old(live)[i].fd} && closed == old(closed) + multiset{old(live)[i].fd}
      ensures forall k | 0 <= k < |live| :: pollfds[k] == old(pollfds[if k == i then nConns - 1 else k])
      ensures (pollfds == old(pollfds) && conns == old(conns)) || (fresh(pollfds) && fresh(conns))
    {
      hide Run, IsRun, Fitting, Ledger, Conserved;
      LedgerRemove(live, listenFd, open, i);
      InLedger(live, listenFd, open, i);
      ConservedClose(accepted, closed, open, live[i].fd);
      var fd := pollfds[i].fd;
      open := open - {fd};
      closed := closed + multiset{fd};
      RemoveSlot(i);
      Shrink();
    }

    /** All slots but one are resting, and the queue is in order. */
    ghost predicate ValidBut(idx: nat)
      reads this, pollfds, conns, live, gone
    {
      && Sized() && Books() && Slots() && GoneOk() && Listening() && ValidConfig(conf)
      && 1 <= idx < nConns && live[idx] !in gone && live[idx].conf == conf
      && forall i | 1 <= i < |live| && i != idx :: Resting(i)
    }

    /** The CLOSING case: the slot is given up. */
    method CloseSlot(idx: nat)
      requires ValidBut(idx) && live[idx].WireInv()
      modifies this, pollfds, conns
      ensures Valid() && timeNow == old(timeNow)
      ensures live == SwapRemoved(old(live), idx) && gone == old(gone) + {old(live)[idx]}
      ensures open == old(open) - {old(live)[idx].fd} && closed == old(closed) + multiset{old(live)[idx].fd}
      ensures accepted == old(accepted) && ops == old(ops) + [Close] && story == old(story)
      ensures forall k | 0 <= k < |live| :: pollfds[k] == old(pollfds[if k == idx then nConns - 1 else k])
      ensures (pollfds == old(pollfds) && conns == old(conns)) || (fresh(pollfds) && fresh(conns))
    {
      hide ValidConfig, Sized, Ledger, Conserved, Connection.WireInv, Connection.Persistent;
      ghost var c := live[idx];
      LedgerRemove(live, listenFd, open, idx);
      assert 1 <= idx < nConns;
      CloseConnection(idx);
      gone := gone + {c};
      forall i | 1 <= i < |live| ensures Resting(i) {
        assert live[i] != c;
        assert old(Resting(if i == idx then |live| - 1 else i));
      }
    }

    /** A connection do_conn_state may be called on. */
    ghost predicate Steppable(idx: nat, ev: RecvResult)
      reads this, pollfds, conns, live, gone
    {
      && ValidBut(idx)
      && live[idx].Enterable()
      && (live[idx].state != Closing ==> pollfds[idx].events == live[idx].state.Wanted())
      && (live[idx].state == Reading ==> Fits(ReadingState(live[idx].Snap()), ev))
    }

    /** The cases that concern the connection alone. */
    method StepSlot(idx: nat, ev: RecvResult, room: nat, willing: bool, noise: nat, fs: FileSystem, unset: (int, int))
      returns (ghost act: Act)
      requires Steppable(idx, ev)
      modifies pollfds, live[idx]
      ensures ValidBut(idx)
      ensures live[idx].WireInv() && (live[idx].state != Closing ==> Resting(idx))
      ensures live[idx].lastActive == timeNow || live[idx].lastActive == old(live[idx].lastActive)
      ensures Transition(conf, old(live[idx].Snap()), live[idx].Snap(), old(pollfds[idx].revents), act, fs, timeNow)
      ensures forall k | 0 <= k < nConns && k != idx :: pollfds[k] == old(pollfds[k])
    {
      hide ValidConfig, Sized, Ledger, Conserved, Connection.WireInv, Connection.Persistent, Connection.Enterable,
        Transition;
      var c: Connection := conns[idx];
      forall i | 0 <= i < |live| && i != idx ensures live[i] != c {
        SlotsDiffer(live, listenFd, open, Min(i, idx), Max(i, idx));
      }
      var p;
      p, act := c.Activate(pollfds[idx], ev, room, willing, noise, fs, unset, timeNow);
      pollfds[idx] := p;
      forall i | 1 <= i < |live| && i != idx ensures Resting(i) {
        assert old(Resting(i));
      }
    }

    /** do_conn_state. */
    method DoConnState(idx: nat, ev: RecvResult, room: nat, willing: bool, noise: nat, fs: FileSystem, unset: (int, int))
      returns (ghost act: Act)
      requires Steppable(idx, ev)
      modifies this, pollfds, conns, live[idx]
      ensures Valid() && timeNow == old(timeNow) && accepted == old(accepted) && story == old(story)
      ensures var c := old(live)[idx];
              Transition(conf, old(live[idx].Snap()), c.Snap(), old(pollfds[idx].revents), act, fs, timeNow) && c.WireInv()
              && (c.lastActive == timeNow || c.lastActive == old(live[idx].lastActive))
              && if c.state == Closing
                 then live == SwapRemoved(old(live), idx) && gone == old(gone) + {c}
                      && open == old(open) - {c.fd} && closed == old(closed) + multiset{c.fd}
                 else live == old(live) && gone == old(gone) && open == old(open) && closed == old(closed)
      ensures forall k | idx < k < |live| :: pollfds[k] == old(pollfds[k])
      ensures (pollfds == old(pollfds) && conns == old(conns)) || (fresh(pollfds) && fresh(conns))
    {
      hide ValidConfig, Transition, Connection.WireInv, Connection.Persistent, Ledger, Conserved, Run, IsRun;
      ghost var c := live[idx];
      var conn: Connection := conns[idx];
      act := StepSlot(idx, ev, room, willing, noise, fs, unset);
      if conn.state == Closing {
        CloseSlot(idx);
      }
    }

    /** What the kernel answers to recv: no more than the free space it is offered. */
    method Receive(s: ReadState) returns (ev: RecvResult)
      requires |s.buf| <= MAX_REQUEST_SIZE
      ensures Fits(s, ev)
    {
      ev := *;
      if ev.Data? && |s.buf| + |ev.bytes| > MAX_REQUEST_SIZE {
        ev := Data(ev.bytes[..MAX_REQUEST_SIZE - |s.buf|]);
      }
    }

    /** recv, if do_conn_state is going to call it. */
    method AskKernel(idx: nat) returns (ev: RecvResult)
      requires Valid() && 1 <= idx < nConns
      ensures Steppable(idx, ev)
    {
      hide Sized, Ledger, Conserved, Connection.WireInv;
      assert Resting(idx);
      var conn: Connection := conns[idx];
      ev := Blocked;
      if conn.state == Reading {
        ev := Receive(ReadState(if conn.req.None? then [] else conn.req.value.buf, conn.readTries));
      }
    }

    /** A connection that timed out is marked for closing. */
    method MarkTimedOut(idx: nat, ghost c: Connection)
      requires Valid() && 1 <= idx < nConns && c == live[idx]
      modifies c`state
      ensures Steppable(idx, Blocked) && live[idx].Snap() == old(live[idx].Snap()).(state := Closing)
    {
      hide Sized, Ledger, Conserved, Connection.WireInv, Connection.Persistent;
      var conn: Connection := conns[idx];
      assert Resting(idx);
      forall i | 0 <= i < |live| && i != idx ensures live[i] != c {
        SlotsDiffer(live, listenFd, open, Min(i, idx), Max(i, idx));
      }
      conn.state := Closing;
      forall i | 1 <= i < |live| && i != idx ensures Resting(i) {
        assert old(Resting(i));
      }
    }

    /** The body of the sweep: a timed-out connection is closed, any other one runs
        do_conn_state; the story has one visit more. */
    method VisitSlot(idx: nat, fs: FileSystem) returns (ghost v: Visit)
      requires Valid() && 1 <= idx < nConns
      modifies this, pollfds, conns, live[idx]
      ensures Valid() && timeNow == old(timeNow) && accepted == old(accepted)
      ensures story == old(story) + [Episode(old(live)[idx], v)] && VisitRight(conf, v)
      ensures v.a == old(live[idx].Snap()) && v.b == old(live)[idx].Snap()
      ensures v.revents == old(pollfds[idx].revents) && v.fs == fs && v.now == timeNow
      ensures var c := old(live)[idx];
              c.WireInv()
              && if c.state == Closing
                 then live == SwapRemoved(old(live), idx) && gone == old(gone) + {c}
                 else live == old(live) && gone == old(gone) && c.lastActive + conf.timeoutSecs > timeNow
      ensures forall k | idx < k < |live| :: pollfds[k] == old(pollfds[k])
      ensures (pollfds == old(pollfds) && conns == old(conns)) || (fresh(pollfds) && fresh(conns))
    {
      hide Valid, Connection.WireInv, Transition, Connection.Snap, Bounded, SwapRemoved, HistoryRight;
      var conn := ConnectionAt(idx);
      RestsAt(idx);
      ghost var a, revents := conn.Snap(), pollfds[idx].revents;
      SnapFields(conn);
      ghost var act;
      if conn.lastActive + conf.timeoutSecs <= timeNow {
        act := CloseTimedOut(idx, fs);
      } else {
        act := RunState(idx, fs);
      }
      SnapFields(conn);
      if conn.state != Closing { RestsAt(idx); }
      HistoryOf(conn);
      v := Visit(a, conn.Snap(), revents, act, fs, timeNow);
      story := story + [Episode(conn, v)];
    }

    /** A connection that timed out is closed as it is. */
    method CloseTimedOut(idx: nat, fs: FileSystem) returns (ghost act: Act)
      requires Valid() && 1 <= idx < nConns
      modifies this, pollfds, conns, live[idx]
      ensures Valid() && timeNow == old(timeNow) && accepted == old(accepted) && story == old(story)
      ensures old(live)[idx].Snap() == old(live[idx].Snap()).(state := Closing) && old(live)[idx].WireInv()
      ensures live == SwapRemoved(old(live), idx) && gone == old(gone) + {old(live)[idx]}
      ensures forall k | idx < k < |live| :: pollfds[k] == old(pollfds[k])
      ensures (pollfds == old(pollfds) && conns == old(conns)) || (fresh(pollfds) && fresh(conns))
    {
      hide Valid, Steppable, Connection.WireInv, Transition, Connection.Snap, SwapRemoved;
      var conn := ConnectionAt(idx);
      ghost var revents := pollfds[idx].revents;
      var room: nat, willing: bool, noise: nat, unset: (int, int) := *, *, *, *;
      MarkTimedOut(idx, conn);
      ghost var m := conn.Snap();
      act := DoConnState(idx, Blocked, room, willing, noise, fs, unset);
      ClosingStays(conf, m, conn.Snap(), revents, act, fs, timeNow);
      SnapFields(conn);
    }

    /** Any other one runs do_conn_state. */
    method RunState(idx: nat, fs: FileSystem) returns (ghost act: Act)
      requires Valid() && 1 <= idx < nConns && live[idx].lastActive + conf.timeoutSecs > timeNow
      modifies this, pollfds, conns, live[idx]
      ensures Valid() && timeNow == old(timeNow) && accepted == old(accepted) && story == old(story)
      ensures var c := old(live)[idx];
              Transition(conf, old(live[idx].Snap()), c.Snap(), old(pollfds[idx].revents), act, fs, timeNow) && c.WireInv()
              && c.lastActive + conf.timeoutSecs > timeNow
              && if c.state == Closing
                 then live == SwapRemoved(old(live), idx) && gone == old(gone) + {c}
                 else live == old(live) && gone == old(gone)
      ensures forall k | idx < k < |live| :: pollfds[k] == old(pollfds[k])
      ensures (pollfds == old(pollfds) && conns == old(conns)) || (fresh(pollfds) && fresh(conns))
    {
      hide Valid, Steppable, Connection.WireInv, Transition, Connection.Snap, SwapRemoved;
      var conn := ConnectionAt(idx);
      TimeoutPositive();
      var room: nat, willing: bool, noise: nat, unset: (int, int) := *, *, *, *;
      var ev := AskKernel(idx);
      act := DoConnState(idx, ev, room, willing, noise, fs, unset);
    }

    method ConnectionAt(idx: nat) returns (conn: Connection)
      requires Valid() && 1 <= idx < nConns
      ensures idx < |live| && idx < pollfds.Length && conn == live[idx]
    {
      conn := conns[idx];
    }

    lemma TimeoutPositive()
      requires Valid()
      ensures conf.timeoutSecs > 0
    {
    }

    lemma RestsAt(idx: nat)
      requires Valid() && 1 <= idx < |live|
      ensures Bounded(live[idx].Snap()) && live[idx].conf == conf
    {
      hide Sized, Ledger, Conserved, Bounded;
      assert Resting(idx);
      live[idx].RestingBounded();
    }

    lemma HistoryOf(c: Connection)
      requires c.WireInv() && c.conf == conf
      ensures HistoryRight(conf, c.Snap().log)
    {
      hide HistoryRight;
    }

    lemma SnapFields(c: Connection)
      ensures c.Snap().state == c.state && c.Snap().lastActive == c.lastActive
    {
    }

    /** Where the connections are that the sweep has dealt with so far. */
    ghost predicate Accounted(idx: nat, visited: seq<Connection>, moved: seq<Connection>, goneBefore: set<Connection>)
      requires 1 <= idx && 1 <= |live|
      reads this`live, this`gone, this`timeNow, visited
    {
      && (forall c | c in moved :: c in Front(live, idx))
      && (forall c | c in visited ::
            c in gone || (c in Front(live, idx) && c.lastActive + conf.timeoutSecs > timeNow))
      && (forall c | c in Front(live, idx) :: c in visited || c in moved)
      && goneBefore <= gone && (forall c | c in gone :: c in goneBefore || c in visited)
    }

    /** The same, with the story kept up to date. */
    method VisitTold(idx: nat, fs: FileSystem) returns (ghost v: Visit)
      requires Valid() && Told() && 1 <= idx < nConns
      modifies this, pollfds, conns, live[idx]
      ensures Valid() && Told() && timeNow == old(timeNow) && accepted == old(accepted)
      ensures story == old(story) + [Episode(old(live)[idx], v)] && VisitRight(conf, v)
      ensures v.a == old(live[idx].Snap()) && v.b == old(live)[idx].Snap()
      ensures v.revents == old(pollfds[idx].revents) && v.fs == fs && v.now == timeNow
      ensures var c := old(live)[idx];
              if c.state == Closing
              then live == SwapRemoved(old(live), idx) && gone == old(gone) + {c}
              else live == old(live) && gone == old(gone) && c.lastActive + conf.timeoutSecs > timeNow
      ensures forall k | idx < k < |live| :: pollfds[k] == old(pollfds[k])
      ensures (pollfds == old(pollfds) && conns == old(conns)) || (fresh(pollfds) && fresh(conns))
    {
      hide Valid, Told, VisitRight, StoryRight, UpToDate, Connection.Snap, Connection.WireInv, SwapRemoved;
      LiveDiffer();
      var conn := ConnectionAt(idx);
      ToldParts();
      ghost var before, befores, told := live, Snaps(live), story;
      v := VisitSlot(idx, fs);
      StillThere(before, idx, conn.state == Closing, live);
      ToldOn(before, befores, told, idx, v);
    }

    lemma ToldParts()
      requires Told()
      ensures StoryRight(conf, story)
      ensures forall i | 1 <= i < |live| :: UpToDate(story, live[i], Snaps(live)[i])
    {
      hide StoryRight, UpToDate;
    }

    /** One turn of the loop of the sweep. */
    method VisitNext(idx: nat, fs: FileSystem,
                ghost was: seq<Connection>, ghost visited: seq<Connection>, ghost moved: seq<Connection>,
                ghost goneBefore: set<Connection>)
      returns (ghost visited': seq<Connection>, ghost moved': seq<Connection>, ghost v: Visit)
      requires Valid() && Told() && 1 <= idx < nConns == |live|
      requires forall i, j | 0 <= i < j < |was| :: was[i] != was[j]
      requires Progress(was, live, idx, moved) && visited == was[1..idx]
      requires Accounted(idx, visited, moved, goneBefore)
      modifies this, pollfds, conns, live[idx]
      ensures Valid() && timeNow == old(timeNow) && accepted == old(accepted)
      ensures Progress(was, live, idx + 1, moved') && visited' == was[1..idx + 1]
      ensures Accounted(idx + 1, visited', moved', goneBefore)
      ensures old(live)[idx] == was[idx] && nConns == |live| <= old(nConns)
      ensures 1 <= |live| <= |was| && idx + 1 <= |was| && |live| <= pollfds.Length
      ensures Told() && story == old(story) + [Episode(was[idx], v)] && VisitRight(conf, v)
      ensures v.a == old(live[idx].Snap()) && v.b == was[idx].Snap()
      ensures v.revents == old(pollfds[idx].revents) && v.fs == fs && v.now == timeNow
      ensures forall k | idx < k < |live| :: pollfds[k] == old(pollfds[k])
      ensures (pollfds == old(pollfds) && conns == old(conns)) || (fresh(pollfds) && fresh(conns))
    {
      hide Moving, SwapRemoved, Valid, Told, VisitRight, Connection.Snap, Progress, Front;
      AheadUntouched(was, live, idx, moved);
      ghost var before, c := live, live[idx];
      v := VisitTold(idx, fs);
      SizesAreOk();
      ghost var gaveUp := c.state == Closing;
      SweepStep(was, before, idx, moved, gaveUp, live);
      ProgressBounds(was, live, idx + 1, moved + Moving(before, idx, gaveUp));
      visited' := visited + [c];
      moved' := moved + Moving(before, idx, gaveUp);
      assert forall x | x in visited :: x != c;
    }

    /** One visit more keeps the story up to date. */
    lemma ToldOn(was: seq<Connection>, befores: seq<Snap>, told: seq<Episode>, idx: nat, v: Visit)
      requires StoryRight(conf, told) && |befores| == |was| && 1 <= idx < |was|
      requires forall i | 1 <= i < |was| :: UpToDate(told, was[i], befores[i])
      requires VisitRight(conf, v) && v.a == befores[idx] && v.b == was[idx].Snap()
      requires story == told + [Episode(was[idx], v)]
      requires forall i | 1 <= i < |live| :: live[i] in was[1..]
      requires forall i | 1 <= i < |was| && was[i] != was[idx] :: was[i].Snap() == befores[i]
      ensures Told()
    {
      var c := was[idx];
      StoryGoesOn(conf, told, c, v);
      hide StoryRight, UpToDate, VisitRight, Connection.Snap;
      forall i | 1 <= i < |live| ensures UpToDate(story, live[i], live[i].Snap()) {
        if live[i] != c {
          assert live[i] in was[1..];
          var k :| 1 <= k < |was| && was[k] == live[i];
          SameVisits(told, Episode(c, v), live[i], live[i].Snap());
        }
      }
    }

    lemma LiveDiffer()
      requires Valid()
      ensures forall i, j | 0 <= i < j < |live| :: live[i] != live[j]
    {
      forall i, j | 0 <= i < j < |live| ensures live[i] != live[j] {
        SlotsDiffer(live, listenFd, open, i, j);
      }
    }

    /** A sweep starts with nothing visited or moved. */
    lemma SweepStarts()
      requires Valid()
      ensures nConns == |live| >= 1
      ensures Progress(live, live, 1, []) && live[1..1] == [] && Accounted(1, [], [], gone)
    {
      assert Front(live, 1) == [];
    }

    /** The accounts of a sweep that has reached the end of the queue. */
    lemma SweepDone(idx: nat, was: seq<Connection>, visited: seq<Connection>, moved: seq<Connection>,
                    goneBefore: set<Connection>)
      requires 1 <= idx && Progress(was, live, idx, moved) && idx >= |live| && visited == was[1..idx]
      requires Accounted(idx, visited, moved, goneBefore)
      ensures |visited| + |moved| == |was| - 1 && |moved| <= |was| - |live|
      ensures forall c | c in moved :: c in live[1..] && c in live && c in was[idx..]
      ensures |live| <= |visited| + 1 && forall k | 1 <= k < |live| :: live[k] == was[k] || live[k] in moved
      ensures forall c | c in visited :: c in gone || (c in live && c.lastActive + conf.timeoutSecs > timeNow)
      ensures forall c | c in live[1..] :: c in visited || c in moved
      ensures goneBefore <= gone && forall c | c in gone :: c in goneBefore || c in visited
      ensures forall c | c in live :: c in was
      ensures forall c | c in was :: c in live || c in gone
    {
      assert Front(live, idx) == live[1..];
      NoneAdded(was, live, idx, moved);
      forall c | c in was ensures c in live || c in gone {
        var i :| 0 <= i < |was| && was[i] == c;
        assert i == 0 ==> c == live[0];
        assert 1 <= i < idx ==> c == visited[i - 1];
        assert idx <= i ==> c == moved[|was| - 1 - i];
      }
      forall c | c in moved ensures c in was[idx..] {
        var k :| 0 <= k < |moved| && moved[k] == c;
        assert was[idx..][|was| - 1 - k - idx] == c;
      }
    }

    ghost function Snaps(cs: seq<Connection>): (s: seq<Snap>)
      reads cs
      ensures |s| == |cs| && forall i | 0 <= i < |cs| :: s[i] == cs[i].Snap()
    {
      seq(|cs|, i requires 0 <= i < |cs| reads cs => cs[i].Snap())
    }

    /** The visits vs are those to the connections that were in slots 1, 2, ..., as these
        and their poll entries were at first. */
    ghost predicate Recorded(vs: seq<Visit>, befores: seq<Snap>, polled: seq<PollFd>, fs: FileSystem)
      reads this`timeNow
    {
      |vs| < |befores| == |polled| && forall k | 0 <= k < |vs| ::
        && VisitRight(conf, vs[k]) && vs[k].a == befores[1..][k] && vs[k].revents == polled[1..][k].revents
        && vs[k].fs == fs && vs[k].now == timeNow
    }

    lemma NothingRecorded(befores: seq<Snap>, polled: seq<PollFd>, fs: FileSystem)
      requires 1 <= |befores| == |polled|
      ensures Recorded([], befores, polled, fs) && AsLeft([], []) && Episodes([], []) == []
    {
    }

    lemma RecordedGrows(vs: seq<Visit>, v: Visit, befores: seq<Snap>, polled: seq<PollFd>, fs: FileSystem)
      requires Recorded(vs, befores, polled, fs) && |vs| + 1 < |befores|
      requires VisitRight(conf, v) && v.a == befores[|vs| + 1] && v.revents == polled[|vs| + 1].revents
      requires v.fs == fs && v.now == timeNow
      ensures Recorded(vs + [v], befores, polled, fs)
    {
      hide VisitRight;
    }

    /** The visited connections are as their visits left them. */
    ghost predicate AsLeft(vs: seq<Visit>, visited: seq<Connection>)
      reads visited
    {
      |vs| == |visited| && forall k | 0 <= k < |vs| :: vs[k].b == visited[k].Snap()
    }

    lemma LeftGrows(vs: seq<Visit>, v: Visit, visited: seq<Connection>, c: Connection)
      requires AsLeft(vs, visited) && v.b == c.Snap()
      ensures AsLeft(vs + [v], visited + [c])
    {
      hide Connection.Snap;
    }

    /** The same, with the visit put on record. */
    method VisitBooked(idx: nat, fs: FileSystem,
                ghost was: seq<Connection>, ghost visited: seq<Connection>, ghost moved: seq<Connection>,
                ghost vs: seq<Visit>, ghost goneBefore: set<Connection>, ghost befores: seq<Snap>, ghost polled: seq<PollFd>)
      returns (ghost visited': seq<Connection>, ghost moved': seq<Connection>, ghost vs': seq<Visit>)
      requires Valid() && Told() && 1 <= idx < nConns == |live|
      requires forall i, j | 0 <= i < j < |was| :: was[i] != was[j]
      requires Progress(was, live, idx, moved) && visited == was[1..idx]
      requires Accounted(idx, visited, moved, goneBefore)
      requires Recorded(vs, befores, polled, fs) && AsLeft(vs, visited) && |befores| == |was|
      requires live[idx].Snap() == befores[idx] && pollfds[idx] == polled[idx]
      modifies this, pollfds, conns, live[idx]
      ensures Valid() && Told() && timeNow == old(timeNow) && accepted == old(accepted)
      ensures Progress(was, live, idx + 1, moved') && visited' == was[1..idx + 1]
      ensures Accounted(idx + 1, visited', moved', goneBefore)
      ensures old(live)[idx] == was[idx] && nConns == |live| <= old(nConns)
      ensures 1 <= |live| <= |was| && idx + 1 <= |was| && |live| <= pollfds.Length
      ensures Recorded(vs', befores, polled, fs) && AsLeft(vs', visited')
      ensures |vs'| == |visited'| && |vs| == |visited|
      ensures story == old(story) + [Episode(was[idx], vs'[|vs|])] && vs' == vs + [vs'[|vs|]]
      ensures forall k | idx < k < |live| :: pollfds[k] == old(pollfds[k])
      ensures (pollfds == old(pollfds) && conns == old(conns)) || (fresh(pollfds) && fresh(conns))
    {
      hide Valid, Accounted, Progress, Told, VisitRight, Connection.Snap, Recorded, AsLeft;
      AheadUntouched(was, live, idx, moved);
      SizesOfRecord(vs, visited);
      assert forall x | x in visited :: x != was[idx];
      ghost var v;
      visited', moved', v := VisitNext(idx, fs, was, visited, moved, goneBefore);
      assert visited' == visited + [was[idx]];
      RecordedGrows(vs, v, befores, polled, fs);
      LeftGrows(vs, v, visited, was[idx]);
      vs' := vs + [v];
    }

    lemma SizesOfRecord(vs: seq<Visit>, visited: seq<Connection>)
      requires AsLeft(vs, visited)
      ensures |vs| == |visited|
    {
    }

    /** The loop over the queue. */
    method SweepLoop(fs: FileSystem)
      returns (ghost idx: nat, ghost visited: seq<Connection>, ghost moved: seq<Connection>, ghost vs: seq<Visit>)
      requires Valid() && Told()
      modifies this, pollfds, conns, live
      ensures Valid() && Told() && timeNow == old(timeNow) && accepted == old(accepted)
      ensures 1 <= idx && Progress(old(live), live, idx, moved) && idx >= |live| && visited == old(live)[1..idx]
      ensures Accounted(idx, visited, moved, old(gone))
      ensures forall k | idx <= k < |old(live)| :: unchanged(old(live)[k])
      ensures |vs| == |visited| && story == old(story) + Episodes(visited, vs)
      ensures nConns <= pollfds.Length
      ensures |old(live)| <= old(pollfds.Length)
              && Recorded(vs, old(Snaps(live)), old(pollfds[..|live|]), fs)
      ensures AsLeft(vs, visited)
      ensures (pollfds == old(pollfds) && conns == old(conns)) || (fresh(pollfds) && fresh(conns))
    {
      hide Valid, Accounted, Progress, Told, VisitRight, Connection.Snap, Recorded, AsLeft, Episodes;
      ghost var was := live;
      LiveDiffer();
      SweepStarts();
      SizesAreOk();
      ghost var befores, polled := Snaps(live), pollfds[..|live|];
      visited, moved, vs := [], [], [];
      NothingRecorded(befores, polled, fs);
      var i := 1;
      while i < nConns
        invariant 1 <= i <= |was| && 1 <= |live| <= |was| && Valid() && Told() && timeNow == old(timeNow) && accepted == old(accepted) && nConns == |live|
        invariant Progress(was, live, i, moved) && visited == was[1..i]
        invariant forall k | i <= k < |was| :: unchanged(was[k])
        invariant Accounted(i, visited, moved, old(gone))
        invariant |vs| == i - 1 && story == old(story) + Episodes(visited, vs)
        invariant Recorded(vs, befores, polled, fs)
        invariant AsLeft(vs, visited)
        invariant |live| <= pollfds.Length && forall k | i <= k < |live| :: pollfds[k] == polled[k]
        invariant (pollfds == old(pollfds) && conns == old(conns)) || (fresh(pollfds) && fresh(conns))
        decreases nConns - i
      {
        AheadUntouched(was, live, i, moved);
        ghost var told := vs;
        visited, moved, vs := VisitBooked(i, fs, was, visited, moved, vs, old(gone), befores, polled);
        EpisodesGrow(was[1..i], told, was[i], vs[i - 1]);
        assert was[1..i] + [was[i]] == was[1..i + 1];
        i := i + 1;
      }
      idx := i;
    }

    lemma ListensAt0()
      requires Valid()
      ensures pollfds.Length > 0 && pollfds[0].events == POLLIN
    {
    }

    lemma SizesAreOk()
      requires Valid()
      ensures 1 <= nConns == |live| <= pollfds.Length
    {
    }

    /** The loop over the queue, as a whole. It visits the connections of slots 1, 2,
        ... in turn, as they were when it started; every connection that
        close_connection moves into a slot already visited is skipped, and no other
        one is. */
    method Sweep(fs: FileSystem)
      returns (ghost visited: seq<Connection>, ghost moved: seq<Connection>, ghost vs: seq<Visit>)
      requires Valid() && Told()
      modifies this, pollfds, conns, live
      ensures Valid() && Told() && timeNow == old(timeNow) && accepted == old(accepted)
      ensures |visited| + |moved| == |old(live)| - 1
      ensures visited == old(live)[1..|visited| + 1]
      ensures forall k | 0 <= k < |moved| :: moved[k] == old(live)[|old(live)| - 1 - k]
      ensures |moved| <= |old(live)| - |live|
      ensures |vs| == |visited| && story == old(story) + Episodes(visited, vs)
      ensures |old(live)| <= old(pollfds.Length)
              && Recorded(vs, old(Snaps(live)), old(pollfds[..|live|]), fs)
      ensures AsLeft(vs, visited)
      ensures forall c | c in moved :: unchanged(c) && c in live[1..]
      ensures |live| <= |visited| + 1 && forall k | 1 <= k < |live| :: live[k] == old(live)[k] || live[k] in moved
      ensures forall c | c in live :: c in old(live)
      ensures forall c | c in old(live) :: c in live || c in gone
      ensures (pollfds == old(pollfds) && conns == old(conns)) || (fresh(pollfds) && fresh(conns))
      ensures forall c | c in visited :: c in gone || (c in live && c.lastActive + conf.timeoutSecs > timeNow)
      ensures forall c | c in live[1..] :: c in visited || c in moved
      ensures old(gone) <= gone && forall c | c in gone :: c in old(gone) || c in visited
    {
      ghost var idx;
      idx, visited, moved, vs := SweepLoop(fs);
      SweepDone(idx, old(live), visited, moved, old(gone));
    }

    /** A descriptor is open, or the listen socket's, exactly if some slot holds it. */
    lemma FreshExactly(fd: int)
      requires Valid()
      ensures FreshFd(live, fd) <==> fd != -1 && fd != listenFd && fd !in open
    {
      hide Sized, Slots, Conserved, Resting, GoneOk, ValidConfig;
      if fd in open {
        assert Holds(live, fd);
      }
    }

    /** poll: it reports, for each live slot, some of the events asked for. */
    method Poll(ready: nat -> Events)
      requires Valid()
      modifies pollfds
      ensures Valid() && nConns <= pollfds.Length
      ensures forall i | 0 <= i < nConns ::
                pollfds[i] == old(pollfds[i]).(revents := Reported(ready(i), pollfds[i].events))
    {
      hide Sized, Ledger, Conserved, ValidConfig, Connection.WireInv, Connection.Persistent;
      SizesAreOk();
      forall i | 0 <= i < nConns {
        pollfds[i] := pollfds[i].(revents := Reported(ready(i), pollfds[i].events));
      }
      forall i | 1 <= i < |live| ensures Resting(i) {
        assert old(Resting(i));
      }
    }

    /** accept: a descriptor that is not open, or -1. */
    method Accept(candidate: int) returns (newsock: int)
      ensures newsock == if candidate == listenFd || candidate in open then -1 else candidate
    {
      newsock := if candidate == listenFd || candidate in open then -1 else candidate;
    }

    /** One turn of the main loop. A new connection is taken in, and the loop then
        starts over; otherwise the queue is swept, with what poll reported. */
    method Turn(input: RoundInput) returns (ghost r: Round)
      requires Valid() && Told()
      modifies this, pollfds, conns, live
      ensures Valid() && Told() && timeNow == input.now
      ensures r.queue == old(live) && RoundRight(conf, maxFds, r, input, live)
      ensures |r.vs| == |r.visited| && story == old(story) + Episodes(r.visited, r.vs)
      ensures forall k | 0 <= k < |r.vs| :: r.vs[k].a == old(live[1..][k].Snap())
      ensures AsLeft(r.vs, r.visited)
      ensures if r.tookIn then fresh(live[|live| - 1]) && gone == old(gone) && forall c | c in old(live) :: unchanged(c)
              else forall c | c in r.moved :: unchanged(c)
      ensures forall c | c in live :: c in old(live) || fresh(c)
      ensures old(gone) <= gone && forall c | c in old(live) :: c in live || c in gone
      ensures (pollfds == old(pollfds) && conns == old(conns)) || (fresh(pollfds) && fresh(conns))
    {
      hide Valid, Told, Connection.Snap, VisitRight;
      SizesAreOk();
      LiveDiffer();
      FreshNotMinusOne(input.candidate);
      ghost var queue := live;
      var newsock := PollAndAccept(input);
      if newsock != -1 {
        var c := TakeIn(newsock);
        r := Round(queue, true, [], [], []);
        TakesIn(conf, maxFds, queue, input, c);
      } else {
        r := SweepPolled(input);
      }
    }

    lemma FreshNotMinusOne(fd: int)
      ensures FreshFd(live, fd) ==> fd != -1
    {
    }

    /** poll, and accept if a client is waiting and there is room. */
    method PollAndAccept(input: RoundInput) returns (newsock: int)
      requires Valid() && Told()
      modifies this`timeNow, pollfds
      ensures Valid() && Told() && timeNow == input.now && nConns <= pollfds.Length
      ensures forall i | 0 <= i < nConns :: pollfds[i].revents == Reported(input.ready(i), pollfds[i].events)
      ensures newsock == if input.ready(0).pollin && |live| < maxFds && FreshFd(live, input.candidate)
                         then input.candidate else -1
    {
      hide Valid, Connection.Snap, StoryRight, UpToDate, FreshFd;
      SizesAreOk();
      FreshExactly(input.candidate);
      ListensAt0();
      timeNow := input.now;
      Poll(input.ready);
      newsock := -1;
      if pollfds[0].revents.pollin && nConns < maxFds {
        newsock := Accept(input.candidate);
      }
    }

    /** The new connection, which has no part in the story yet. */
    method TakeIn(newsock: int) returns (c: Connection)
      requires Valid() && Told() && nConns < maxFds && newsock != -1 && FreshFd(live, newsock)
      modifies this, pollfds, conns
      ensures Valid() && Told() && timeNow == old(timeNow) && story == old(story) && gone == old(gone)
      ensures fresh(c) && c.fd == newsock && live == old(live) + [c]
      ensures (pollfds == old(pollfds) && conns == old(conns)) || (fresh(pollfds) && fresh(conns))
    {
      hide Valid, Connection.Snap, StoryRight, UpToDate, FreshFd;
      SizesAreOk();
      FreshExactly(newsock);
      c := AddConnection(newsock);
      NewConnectionTold(c);
    }

    /** The turn in which no connection is taken in. */
    method SweepPolled(input: RoundInput) returns (ghost r: Round)
      requires Valid() && Told() && timeNow == input.now && nConns <= pollfds.Length
      requires forall i | 0 <= i < nConns :: pollfds[i].revents == Reported(input.ready(i), pollfds[i].events)
      requires !(input.ready(0).pollin && |live| < maxFds && FreshFd(live, input.candidate))
      modifies this, pollfds, conns, live
      ensures Valid() && Told() && timeNow == input.now && !r.tookIn
      ensures r.queue == old(live) && RoundRight(conf, maxFds, r, input, live)
      ensures |r.vs| == |r.visited| && story == old(story) + Episodes(r.visited, r.vs)
      ensures forall k | 0 <= k < |r.vs| :: r.vs[k].a == old(live[1..][k].Snap())
      ensures AsLeft(r.vs, r.visited)
      ensures (forall c | c in r.moved :: unchanged(c)) && forall c | c in live :: c in old(live)
      ensures old(gone) <= gone && forall c | c in old(live) :: c in live || c in gone
      ensures (pollfds == old(pollfds) && conns == old(conns)) || (fresh(pollfds) && fresh(conns))
    {
      hide Valid, Told, Connection.Snap, Recorded, VisitOf, AsWanted;
      SizesAreOk();
      LiveDiffer();
      ghost var befores, polled := Snaps(live), pollfds[..|live|];
      AsWantedNow(input.ready);
      ghost var visited, moved, vs := Sweep(input.fs);
      r := Round(old(live), false, visited, moved, vs);
      VisitsOfRound(vs, befores, polled, input);
      SizesAreOk();
      SweepIsRound(conf, maxFds, r, input, live);
    }

    lemma AsWantedNow(ready: nat -> Events)
      requires Valid() && nConns <= pollfds.Length
      requires forall i | 0 <= i < nConns :: pollfds[i].revents == Reported(ready(i), pollfds[i].events)
      ensures |live| == nConns && AsWanted(Snaps(live), pollfds[..|live|], ready)
    {
      hide Sized, Ledger, Conserved, ValidConfig, Connection.WireInv, Connection.Persistent;
      forall i | 1 <= i < |live| ensures pollfds[i].events == live[i].Snap().state.Wanted() {
        assert Resting(i);
      }
    }

    /** poll has reported on each slot what its connection wants. */
    ghost predicate AsWanted(befores: seq<Snap>, polled: seq<PollFd>, ready: nat -> Events) {
      |befores| == |polled| &&
      forall i | 1 <= i < |polled| :: polled[i].revents == Reported(ready(i), befores[i].state.Wanted())
    }

    lemma VisitsOfRound(vs: seq<Visit>, befores: seq<Snap>, polled: seq<PollFd>, input: RoundInput)
      requires Recorded(vs, befores, polled, input.fs) && timeNow == input.now && AsWanted(befores, polled, input.ready)
      ensures forall k | 0 <= k < |vs| :: VisitOf(conf, vs[k], k + 1, input)
    {
      hide VisitRight;
      forall k | 0 <= k < |vs| ensures VisitOf(conf, vs[k], k + 1, input) {
        assert befores[1..][k] == befores[k + 1] && polled[1..][k] == polled[k + 1];
      }
    }

    /** The part of Valid that concerns the two directions of each connection. */
    lemma WiresOk()
      requires Valid() && |live| >= 1
      ensures forall c | c in live[1..] || c in gone ::
                c.WireInv() && c.wire == Flat(c.log) + c.tail && c.heard == Asked(c.log) + c.pending
                && HistoryRight(conf, c.log)
    {
      hide Sized, Ledger, Conserved, ValidConfig, Connection.Persistent, Flat, Asked, HistoryRight, Connection.CurrentRight;
      forall c | c in live[1..] ensures c.conf == conf && c.WireInv() {
        var i :| 1 <= i < |live| && live[i] == c;
        assert Resting(i);
      }
    }

    lemma CheapResizing()
      requires Valid()
      ensures copied <= 21 * |ops| + Min(maxFds, INITIAL_POOL)
    {
      hide Run, IsRun, Slots, Books, Resting, GoneOk;
      AmortisedResizing(ops, maxFds);
    }

    lemma RunStarts(first: seq<Connection>)
      ensures RunRight(conf, maxFds, [], [], first, first)
    {
    }

    /** A new connection has no part in the story. */
    lemma NewConnectionTold(c: Connection)
      requires StoryRight(conf, story) && |live| >= 1 && live[|live| - 1] == c && New(c.Snap())
      requires forall i | 1 <= i < |live| - 1 :: UpToDate(story, live[i], live[i].Snap())
      requires forall i | 0 <= i < |story| :: story[i].c != c
      ensures Told()
    {
      NoVisits(story, c);
    }

    /** The main loop. */
    method ServeLoop(inputs: seq<RoundInput>) returns (ghost rounds: seq<Round>)
      requires Valid() && Told()
      modifies this, pollfds, conns, live
      ensures Valid() && Told()
      ensures old(gone) <= gone && forall c | c in old(live) :: c in live || c in gone
      ensures RunRight(conf, maxFds, rounds, inputs, old(live), live)
      ensures StoryOf(rounds, old(story), story)
    {
      hide Valid, Told, RoundRight, RunRight, Connection.Snap, StoryOf, Episodes, AsLeft;
      rounds := [];
      StoryOfNothing(story);
      RunStarts(live);
      for k := 0 to |inputs|
        invariant Valid() && Told()
        invariant forall c | c in live :: c in old(live) || fresh(c)
        invariant old(gone) <= gone && forall c | c in old(live) :: c in live || c in gone
        invariant RunRight(conf, maxFds, rounds, inputs[..k], old(live), live)
        invariant StoryOf(rounds, old(story), story)
        invariant (pollfds == old(pollfds) && conns == old(conns)) || (fresh(pollfds) && fresh(conns))
      {
        assert forall i | 0 <= i < |live| :: live[i] in old(live) || fresh(live[i]);
        ghost var story0 := story;
        ghost var r := Turn(inputs[k]);
        RunGoesOn(conf, maxFds, rounds, inputs[..k], old(live), r, inputs[k], live);
        StoryOfMore(rounds, r, old(story), story0);
        rounds := rounds + [r];
        assert inputs[..k] + [inputs[k]] == inputs[..k + 1];
      }
      assert inputs[..|inputs|] == inputs;
    }

    /** The main loop, for as many turns as there are inputs. After any number of
        them the queue is in order, every connection rests in one of its three
        persistent states, and every connection ever taken in is there or gone. On
        each of them, there or gone, what was received is the requests it answered and
        part of one more; what was sent is the answers to exactly these requests and
        part of the answer to that one. The story of all visits is right. */
    method Serve(inputs: seq<RoundInput>) returns (ghost rounds: seq<Round>)
      requires Valid() && Told()
      modifies this, pollfds, conns, live
      ensures Valid() && Told()
      ensures old(gone) <= gone && forall c | c in old(live) :: c in live || c in gone
      ensures |live| >= 1 && forall c | c in live[1..] || c in gone ::
                c.WireInv() && c.wire == Flat(c.log) + c.tail && c.heard == Asked(c.log) + c.pending
                && HistoryRight(conf, c.log)
      ensures RunRight(conf, maxFds, rounds, inputs, old(live), live)
      ensures StoryOf(rounds, old(story), story)
      ensures copied <= 21 * |ops| + Min(maxFds, INITIAL_POOL)
    {
      hide Valid, Told, RunRight, HistoryRight, Connection.WireInv, Flat, Asked;
      rounds := ServeLoop(inputs);
      SizesAreOk();
      CheapResizing();
      WiresOk();
    }
  }
}
