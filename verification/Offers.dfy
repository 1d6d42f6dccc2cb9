/** Why send_buf needs a kernel that refuses after a short send: every turn of its loop
    offers the buffer from the start. */
module Offers {

  /** The bytes on the wire when the kernel takes takes[i] bytes of the i-th offer. */
  function OnWire(buf: string, takes: seq<nat>): string {
    if takes == [] then []
    else (if takes[0] <= |buf| then buf[..takes[0]] else buf) + OnWire(buf, takes[1..])
  }

  function Total(takes: seq<nat>): nat {
    if takes == [] then 0 else takes[0] + Total(takes[1..])
  }

  /** A kernel that always takes something; send_buf makes offers until the total is
      the length of the buffer. */
  ghost predicate KeepsTaking(buf: string, takes: seq<nat>) {
    forall i | 0 <= i < |takes| :: 0 < takes[i] <= |buf|
  }

  /** A kernel that takes one byte of each of two offers of "ab": send_buf counts two
      bytes and returns success, and "aa" is on the wire. */
  lemma SentTwice()
    ensures OnWire("ab", [1, 1]) == "aa" && Total([1, 1]) == |"ab"|
  {
    assert OnWire("ab", [1, 1]) == "a" + OnWire("ab", [1]);
    assert OnWire("ab", [1]) == "a" + OnWire("ab", []);
    assert Total([1, 1]) == 1 + Total([1]) && Total([1]) == 1 + Total([]);
  }

  /** What is on the wire is a prefix of the buffer, whatever its bytes are, exactly if
      the kernel took something of one offer only. */
  lemma OnceExactly(takes: seq<nat>, n: nat)
    requires forall i | 0 <= i < |takes| :: 0 < takes[i] <= n
    ensures |takes| <= 1 <==> forall buf | |buf| == n :: OnWire(buf, takes) <= buf
  {
    if |takes| <= 1 {
      forall buf: string | |buf| == n ensures OnWire(buf, takes) <= buf {
        OfferedOnce(buf, takes);
      }
    } else {
      var buf: string := seq(n, i => if i == 0 then 'a' else 'b');
      NotAPrefix(buf, takes);
    }
  }

  lemma OfferedOnce(buf: string, takes: seq<nat>)
    requires KeepsTaking(buf, takes) && |takes| <= 1
    ensures OnWire(buf, takes) <= buf
  {
    if takes != [] {
      assert OnWire(buf, takes) == buf[..takes[0]] + [];
    }
  }

  lemma NotAPrefix(buf: string, takes: seq<nat>)
    requires KeepsTaking(buf, takes) && |takes| > 1 && forall i | 1 <= i < |buf| :: buf[i] != buf[0]
    ensures !(OnWire(buf, takes) <= buf)
  {
    var rest := takes[1..];
    assert KeepsTaking(buf, rest);
    StartsAgain(buf, rest);
    FirstOffer(buf, takes);
    hide OnWire;
    var t, wire := takes[0], OnWire(buf, takes);
    assert wire[t] == buf[0];
  }

  lemma FirstOffer(buf: string, takes: seq<nat>)
    requires KeepsTaking(buf, takes) && takes != []
    ensures OnWire(buf, takes) == buf[..takes[0]] + OnWire(buf, takes[1..])
  {
  }

  lemma StartsAgain(buf: string, takes: seq<nat>)
    requires KeepsTaking(buf, takes) && takes != []
    ensures OnWire(buf, takes) != [] && OnWire(buf, takes)[0] == buf[0]
  {
    FirstOffer(buf, takes);
  }
}
