/** The story of a run: every visit of the sweep to a connection, in order. */
module Stories {
  import opened Numbers
  import opened Text
  import opened Reader
  import opened Responses
  import opened Answers
  import opened Protocol
  import opened Connections

  datatype Episode = Episode(c: Connection, visit: Visit)

  /** The visits to one connection. */
  function VisitsOf(story: seq<Episode>, c: Connection): seq<Visit> {
    if story == [] then []
    else
      var before := VisitsOf(story[..|story| - 1], c);
      if story[|story| - 1].c == c then before + [story[|story| - 1].visit] else before
  }

  /** The first visit finds a new connection. */
  predicate FromTheStart(vs: seq<Visit>) {
    vs != [] ==> New(vs[0].a)
  }

  /** Every visit treats its connection as it should, and finds it as the one before
      it left it; the first one finds it new. */
  ghost predicate StoryRight(conf: Config, story: seq<Episode>) {
    forall i | 0 <= i < |story| ::
      Chained(conf, VisitsOf(story, story[i].c)) && FromTheStart(VisitsOf(story, story[i].c))
  }

  /** The last visit left the connection as it is now; without one it is new. */
  ghost predicate UpToDate(story: seq<Episode>, c: Connection, now: Snap) {
    var vs := VisitsOf(story, c);
    if vs == [] then New(now) else vs[|vs| - 1].b == now
  }

  /** The visits vs to the connections cs. */
  function Episodes(cs: seq<Connection>, vs: seq<Visit>): seq<Episode>
    requires |cs| == |vs|
  {
    seq(|cs|, i requires 0 <= i < |cs| => Episode(cs[i], vs[i]))
  }

  lemma EpisodesGrow(cs: seq<Connection>, vs: seq<Visit>, c: Connection, v: Visit)
    requires |cs| == |vs|
    ensures Episodes(cs + [c], vs + [v]) == Episodes(cs, vs) + [Episode(c, v)]
  {
  }

  lemma SameVisits(story: seq<Episode>, e: Episode, x: Connection, now: Snap)
    requires UpToDate(story, x, now) && x != e.c
    ensures UpToDate(story + [e], x, now)
  {
    VisitsGrow(story, e, x);
  }

  lemma VisitsGrow(story: seq<Episode>, e: Episode, x: Connection)
    ensures VisitsOf(story + [e], x) == if x == e.c then VisitsOf(story, x) + [e.visit] else VisitsOf(story, x)
  {
    assert (story + [e])[..|story|] == story;
  }

  lemma {:induction false} NoVisits(story: seq<Episode>, c: Connection)
    requires forall i | 0 <= i < |story| :: story[i].c != c
    ensures VisitsOf(story, c) == []
  {
    if story != [] { NoVisits(story[..|story| - 1], c); }
  }

  lemma {:induction false} SomeVisit(story: seq<Episode>, c: Connection) returns (i: nat)
    requires VisitsOf(story, c) != []
    ensures i < |story| && story[i].c == c
  {
    var n := |story| - 1;
    if story[n].c == c { i := n; } else { i := SomeVisit(story[..n], c); }
  }

  lemma StoryGoesOn(conf: Config, story: seq<Episode>, c: Connection, v: Visit)
    requires StoryRight(conf, story) && UpToDate(story, c, v.a) && VisitRight(conf, v)
    ensures StoryRight(conf, story + [Episode(c, v)])
    ensures UpToDate(story + [Episode(c, v)], c, v.b)
  {
    hide VisitRight;
    var e := Episode(c, v);
    var vs := VisitsOf(story, c);
    VisitsGrow(story, e, c);
    if vs != [] {
      var k := SomeVisit(story, c);
    }
    assert Chained(conf, vs + [v]);
    forall i | 0 <= i < |story + [e]|
      ensures Chained(conf, VisitsOf(story + [e], (story + [e])[i].c)) && FromTheStart(VisitsOf(story + [e], (story + [e])[i].c)) {
      VisitsGrow(story, e, (story + [e])[i].c);
    }
  }

  /** Service of every connection ends, in any run: among any visits in a row to one
      connection, whether poll found it ready or not, one ends a response, or there are
      no more write-ready ones than six for each byte of the file, and five. */
  lemma EveryServiceEnds(conf: Config, story: seq<Episode>, c: Connection, i: nat, n: nat)
    requires StoryRight(conf, story) && i + n <= |VisitsOf(story, c)|
    ensures var vs := VisitsOf(story, c)[i..i + n];
            (exists k :: 0 <= k < n && EndsResponse(vs[k])) || ReadyCount(conf, vs) == 0
            || (vs[n - 1].b.res.Some? && ReadyCount(conf, vs) <= 6 * FileSize(vs[n - 1].b.res.value) + MAX_TRIES)
  {
    hide VisitsOf, Chained, EndsResponse, ReadyCount;
    StoryChained(conf, story, c, i, n);
    ServiceEnds(conf, VisitsOf(story, c)[i..i + n]);
  }

  /** What holds of every chain of visits holds of any visits in a row to one
      connection. */
  lemma StoryChained(conf: Config, story: seq<Episode>, c: Connection, i: nat, n: nat)
    requires StoryRight(conf, story) && i + n <= |VisitsOf(story, c)|
    ensures Chained(conf, VisitsOf(story, c)[i..i + n])
  {
    hide VisitsOf, Chained;
    var vs := VisitsOf(story, c);
    if vs == [] {
      NoChain(conf);
      assert vs[i..i + n] == [];
    } else {
      var k := SomeVisit(story, c);
      PartOfChain(conf, vs, i, n);
    }
  }

  lemma NoChain(conf: Config)
    ensures Chained(conf, [])
  {
  }

  lemma PartOfChain(conf: Config, vs: seq<Visit>, i: nat, n: nat)
    requires Chained(conf, vs) && i + n <= |vs|
    ensures Chained(conf, vs[i..i + n])
  {
    hide VisitRight;
  }

  // ----- Turns of the main loop -----

  /** What one turn takes from outside: the time, what poll finds ready, the
      descriptor accept would return, and the file system. */
  datatype RoundInput = RoundInput(now: int, ready: nat -> Events, candidate: int, fs: FileSystem)

  /** poll reports only what was asked for. */
  function Reported(ready: Events, wanted: Events): Events {
    Events(ready.pollin && wanted.pollin, ready.pollout && wanted.pollout)
  }

  /** One turn: the queue it found; whether it took in a new connection; else the
      connections it visited, those it missed because they moved, and the visits. */
  datatype Round = Round(queue: seq<Connection>, tookIn: bool, visited: seq<Connection>, moved: seq<Connection>,
                         vs: seq<Visit>)

  /** accept succeeds, with a descriptor that is not in use. */
  ghost predicate FreshFd(queue: seq<Connection>, fd: int) {
    fd != -1 && forall i | 0 <= i < |queue| :: queue[i].fd != fd
  }

  /** A turn takes in a connection if one is waiting, there is room for it and accept
      succeeds. Else it visits the connections of slots 1, 2, ... of the queue it found,
      but for those that were moved from its end, at most one for each that left; each
      visit meets what poll found ready of what the connection asked for. */
  ghost predicate RoundRight(conf: Config, maxFds: nat, r: Round, input: RoundInput, next: seq<Connection>) {
    && |r.vs| == |r.visited|
    && (r.tookIn <==> input.ready(0).pollin && |r.queue| < maxFds && FreshFd(r.queue, input.candidate))
    && (forall i, j | 0 <= i < j < |r.queue| :: r.queue[i] != r.queue[j])
    && if r.tookIn then
         r.visited == [] && |next| == |r.queue| + 1 && r.queue <= next && next[|r.queue|].fd == input.candidate
       else
         && |r.visited| + |r.moved| + 1 == |r.queue| && |r.moved| <= |r.queue| - |next|
         && r.visited == r.queue[1..][..|r.visited|]
         && (forall k | 0 <= k < |r.moved| :: r.moved[k] == r.queue[|r.queue| - 1 - k])
         && (forall k | 0 <= k < |r.vs| :: VisitOf(conf, r.vs[k], k + 1, input))
         && Placed(r, next)
  }

  /** The queue that a sweep leaves: in each slot the connection that was there, or one
      that was moved; all that were moved are there. */
  ghost predicate Placed(r: Round, next: seq<Connection>) {
    && 1 <= |next| <= |r.visited| + 1 && |next| <= |r.queue|
    && (forall k | 1 <= k < |next| :: next[k] == r.queue[k] || next[k] in r.moved)
    && (forall c | c in r.moved :: c in next[1..])
  }

  lemma SweepIsRound(conf: Config, maxFds: nat, r: Round, input: RoundInput, next: seq<Connection>)
    requires !r.tookIn && !(input.ready(0).pollin && |r.queue| < maxFds && FreshFd(r.queue, input.candidate))
    requires |r.vs| == |r.visited| && |r.visited| + |r.moved| + 1 == |r.queue| && |r.moved| <= |r.queue| - |next|
    requires forall i, j | 0 <= i < j < |r.queue| :: r.queue[i] != r.queue[j]
    requires r.visited == r.queue[1..|r.visited| + 1]
    requires forall k | 0 <= k < |r.moved| :: r.moved[k] == r.queue[|r.queue| - 1 - k]
    requires forall k | 0 <= k < |r.vs| :: VisitOf(conf, r.vs[k], k + 1, input)
    requires Placed(r, next)
    ensures RoundRight(conf, maxFds, r, input, next)
  {
    hide VisitOf, Placed, FreshFd;
  }

  lemma TakesIn(conf: Config, maxFds: nat, queue: seq<Connection>, input: RoundInput, c: Connection)
    requires input.ready(0).pollin && |queue| < maxFds && FreshFd(queue, input.candidate) && c.fd == input.candidate
    requires forall i, j | 0 <= i < j < |queue| :: queue[i] != queue[j]
    ensures RoundRight(conf, maxFds, Round(queue, true, [], [], []), input, queue + [c])
  {
  }

  ghost predicate VisitOf(conf: Config, v: Visit, slot: nat, input: RoundInput) {
    VisitRight(conf, v) && v.fs == input.fs && v.now == input.now
    && v.revents == Reported(input.ready(slot), v.a.state.Wanted())
  }

  function AllEpisodes(rounds: seq<Round>): seq<Episode>
    requires forall i | 0 <= i < |rounds| :: |rounds[i].vs| == |rounds[i].visited|
  {
    if rounds == [] then []
    else
      var r := rounds[|rounds| - 1];
      AllEpisodes(rounds[..|rounds| - 1]) + Episodes(r.visited, r.vs)
  }

  /** The visits of the rounds make the story go on from a to b. */
  ghost predicate StoryOf(rounds: seq<Round>, a: seq<Episode>, b: seq<Episode>) {
    && (forall i | 0 <= i < |rounds| :: |rounds[i].vs| == |rounds[i].visited|)
    && b == a + AllEpisodes(rounds)
  }

  lemma StoryOfNothing(a: seq<Episode>)
    ensures StoryOf([], a, a)
  {
    assert a + [] == a;
  }

  /** A run: each turn is right and leaves the queue that the next one finds. */
  ghost predicate RunRight(conf: Config, maxFds: nat, rounds: seq<Round>, inputs: seq<RoundInput>,
                           first: seq<Connection>, last: seq<Connection>)
  {
    |rounds| == |inputs| &&
    if rounds == [] then first == last
    else
      var n := |rounds| - 1;
      && RunRight(conf, maxFds, rounds[..n], inputs[..n], first, rounds[n].queue)
      && RoundRight(conf, maxFds, rounds[n], inputs[n], last)
  }

  lemma RunGoesOn(conf: Config, maxFds: nat, rounds: seq<Round>, inputs: seq<RoundInput>, first: seq<Connection>,
                  r: Round, input: RoundInput, next: seq<Connection>)
    requires RunRight(conf, maxFds, rounds, inputs, first, r.queue) && RoundRight(conf, maxFds, r, input, next)
    ensures RunRight(conf, maxFds, rounds + [r], inputs + [input], first, next)
  {
    hide RoundRight;
    assert (rounds + [r])[..|rounds|] == rounds && (inputs + [input])[..|inputs|] == inputs;
  }

  lemma StoryOfMore(rounds: seq<Round>, r: Round, a: seq<Episode>, b: seq<Episode>)
    requires StoryOf(rounds, a, b) && |r.vs| == |r.visited|
    ensures StoryOf(rounds + [r], a, b + Episodes(r.visited, r.vs))
  {
    hide Episodes;
    assert (rounds + [r])[..|rounds|] == rounds;
    assert a + AllEpisodes(rounds) + Episodes(r.visited, r.vs) == a + (AllEpisodes(rounds) + Episodes(r.visited, r.vs));
  }

  // ----- Nobody waits forever -----

  /** The turns that swept the queue. */
  function Sweeps(rounds: seq<Round>): nat {
    if rounds == [] then 0
    else Sweeps(rounds[..|rounds| - 1]) + (if rounds[|rounds| - 1].tookIn then 0 else 1)
  }

  lemma InVisited(queue: seq<Connection>, visited: seq<Connection>)
    requires |visited| < |queue| && visited == queue[1..][..|visited|]
    ensures forall s | 1 <= s <= |visited| :: queue[s] in visited
  {
    forall s | 1 <= s <= |visited| ensures queue[s] in visited {
      assert visited[s - 1] == queue[s];
    }
  }

  /** A client that a turn did not visit is still in the queue, not behind its slot; if
      the turn swept, before it. */
  lemma MissedMovesUp(conf: Config, maxFds: nat, r: Round, input: RoundInput, next: seq<Connection>, s: nat) returns (s': nat)
    requires RoundRight(conf, maxFds, r, input, next) && 1 <= s < |r.queue| && r.queue[s] !in r.visited
    ensures 1 <= s' < |next| && next[s'] == r.queue[s]
    ensures s' <= s && (!r.tookIn ==> s' < s)
  {
    hide VisitOf;
    var c := r.queue[s];
    if r.tookIn {
      s' := s;
    } else {
      InVisited(r.queue, r.visited);
      assert c == r.moved[|r.queue| - 1 - s];
      assert c in r.moved && c in next[1..];
      var k :| 0 <= k < |next[1..]| && next[1..][k] == c;
      s' := k + 1;
    }
  }

  /** Every client is visited in time: in a run with as many sweeps as the number of its
      slot, at least once. So it is missed at most s - 1 times in a row from slot s. */
  lemma VisitedInTime(conf: Config, maxFds: nat, rounds: seq<Round>, inputs: seq<RoundInput>,
                      first: seq<Connection>, last: seq<Connection>, s: nat)
    requires RunRight(conf, maxFds, rounds, inputs, first, last)
    requires 1 <= s < |first| && s <= Sweeps(rounds)
    ensures exists i :: 0 <= i < |rounds| && first[s] in rounds[i].visited
  {
    if forall i | 0 <= i < |rounds| :: first[s] !in rounds[i].visited {
      var s' := WaitsAhead(conf, maxFds, rounds, inputs, first, last, s);
    }
  }

  /** As long as it is not visited, each sweep brings it nearer to the front. */
  lemma {:induction false} WaitsAhead(conf: Config, maxFds: nat, rounds: seq<Round>, inputs: seq<RoundInput>,
                                      first: seq<Connection>, last: seq<Connection>, s: nat) returns (s': nat)
    requires RunRight(conf, maxFds, rounds, inputs, first, last) && 1 <= s < |first|
    requires forall i | 0 <= i < |rounds| :: first[s] !in rounds[i].visited
    ensures 1 <= s' < |last| && last[s'] == first[s] && s' + Sweeps(rounds) <= s
    decreases |rounds|
  {
    hide RoundRight;
    if rounds == [] {
      s' := s;
    } else {
      var n := |rounds| - 1;
      var m := WaitsAhead(conf, maxFds, rounds[..n], inputs[..n], first, rounds[n].queue, s);
      s' := MissedMovesUp(conf, maxFds, rounds[n], inputs[n], last, m);
    }
  }

  /** How long a run can go on between sweeps: only the cap stops the main loop from
      taking in connections, and each sweep makes room for at most all but one slot. */
  lemma {:induction false} SweepsComeRound(conf: Config, maxFds: nat, rounds: seq<Round>, inputs: seq<RoundInput>,
                                           first: seq<Connection>, last: seq<Connection>)
    requires RunRight(conf, maxFds, rounds, inputs, first, last) && 1 <= |first| <= maxFds
    ensures 1 <= |last| <= maxFds
    ensures |rounds| <= maxFds * Sweeps(rounds) + |last| - |first|
    decreases |rounds|
  {
    hide RoundRight;
    if rounds != [] {
      var n := |rounds| - 1;
      SweepsComeRound(conf, maxFds, rounds[..n], inputs[..n], first, rounds[n].queue);
      QueueSizes(conf, maxFds, rounds[n], inputs[n], last);
      if !rounds[n].tookIn {
        assert maxFds * Sweeps(rounds) == maxFds * Sweeps(rounds[..n]) + maxFds;
      }
    }
  }

  lemma QueueSizes(conf: Config, maxFds: nat, r: Round, input: RoundInput, next: seq<Connection>)
    requires RoundRight(conf, maxFds, r, input, next)
    ensures r.tookIn ==> |next| == |r.queue| + 1 <= maxFds
    ensures !r.tookIn ==> 1 <= |next| <= |r.queue|
  {
    hide VisitOf;
  }

  /** So the client of slot s is visited within s times maxFds turns of the main loop. */
  lemma VisitedInTurns(conf: Config, maxFds: nat, rounds: seq<Round>, inputs: seq<RoundInput>,
                       first: seq<Connection>, last: seq<Connection>, s: nat)
    requires RunRight(conf, maxFds, rounds, inputs, first, last)
    requires 1 <= s < |first| <= maxFds && s * maxFds <= |rounds|
    ensures exists i :: 0 <= i < |rounds| && first[s] in rounds[i].visited
  {
    hide RunRight;
    SweepsComeRound(conf, maxFds, rounds, inputs, first, last);
    if Sweeps(rounds) < s {
      FewerSweeps(maxFds, Sweeps(rounds), s);
    }
    VisitedInTime(conf, maxFds, rounds, inputs, first, last, s);
  }

  lemma {:induction false} FewerSweeps(maxFds: nat, sweeps: nat, s: nat)
    requires sweeps < s
    ensures maxFds * sweeps <= maxFds * s - maxFds
  {
    assert maxFds * s == maxFds * (s - 1) + maxFds;
    if sweeps < s - 1 { FewerSweeps(maxFds, sweeps, s - 1); }
  }
}
