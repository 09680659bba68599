/**
 A batch of write requests, possibly to several servers. Every packet carries its number among
 the packets to the same server and their total, and a server acknowledges the packet in which
 the two agree. `AcksIffDone` shows that the client, which waits for one acknowledgement per
 server it counted, waits exactly until every packet of the batch has been delivered.
 */
module Batches {
  import opened Sequences
  import opened Words

  /** A remote address: the server and the pointer on it. */
  datatype Addr = Addr(server: nat, paddr: nat)

  /** Server numbers are below the size of the client's table of counters. */
  const USHRT_MAX: nat := 65535

  /** How many of the first n packets go to server s. */
  function Count(addrs: seq<Addr>, s: nat, n: nat): (c: nat)
    requires n <= |addrs|
    ensures c <= n
  {
    if n == 0 then 0 else Count(addrs, s, n - 1) + if addrs[n - 1].server == s then 1 else 0
  }

  /** The argument word of packet i: its number, and the number of packets to its server. */
  function ArgsOf(addrs: seq<Addr>, i: nat): (args: nat)
    requires i < |addrs|
  {
    WithTotal(Count(addrs, addrs[i].server, i) + 1, Count(addrs, addrs[i].server, |addrs|))
  }

  /** The server's test in `write_mem_bulk`. */
  predicate Acks(args: nat) {
    Low(args) == High(args)
  }

  ghost predicate IsLast(addrs: seq<Addr>, i: nat)
    requires i < |addrs|
  {
    forall j | i < j < |addrs| :: addrs[j].server != addrs[i].server
  }

  lemma {:induction false} CountGrows(addrs: seq<Addr>, s: nat, i: nat, n: nat)
    requires i <= n <= |addrs|
    ensures Count(addrs, s, i) <= Count(addrs, s, n)
    ensures Count(addrs, s, i) == Count(addrs, s, n) <==> forall j | i <= j < n :: addrs[j].server != s
  {
    if i < n {
      CountGrows(addrs, s, i, n - 1);
    }
  }

  lemma {:induction false} CountIs(addrs: seq<Addr>, s: nat, n: nat)
    requires n <= |addrs|
    ensures Count(addrs, s, n) == |set j | 0 <= j < n && addrs[j].server == s|
  {
    if n > 0 {
      CountIs(addrs, s, n - 1);
      var more := if addrs[n - 1].server == s then {n - 1} else {};
      assert (set j | 0 <= j < n && addrs[j].server == s)
          == (set j | 0 <= j < n - 1 && addrs[j].server == s) + more;
    }
  }

  /** What a packet carries: its number among the packets to its server, from one on, and how many
      packets go there. */
  lemma {:induction false} ArgsHalves(addrs: seq<Addr>, i: nat)
    requires i < |addrs| < HALF
    ensures Low(ArgsOf(addrs, i)) == |set j | 0 <= j <= i && addrs[j].server == addrs[i].server|
    ensures High(ArgsOf(addrs, i)) == |set j | 0 <= j < |addrs| && addrs[j].server == addrs[i].server|
  {
    var s := addrs[i].server;
    CountIs(addrs, s, i + 1);
    CountIs(addrs, s, |addrs|);
    assert (set j | 0 <= j <= i && addrs[j].server == s) == (set j | 0 <= j < i + 1 && addrs[j].server == s);
    CountGrows(addrs, s, i + 1, |addrs|);
    WithTotalHalves(Count(addrs, s, i) + 1, Count(addrs, s, |addrs|));
  }

  /** A packet is acknowledged if and only if it is the last one to its server. */
  lemma {:induction false} AcksIffLast(addrs: seq<Addr>, i: nat)
    requires i < |addrs| < HALF
    ensures Acks(ArgsOf(addrs, i)) <==> IsLast(addrs, i)
  {
    var s := addrs[i].server;
    CountGrows(addrs, s, i + 1, |addrs|);
    WithTotalHalves(Count(addrs, s, i) + 1, Count(addrs, s, |addrs|));
  }

  // ---------- delivery ----------

  ghost function Servers(addrs: seq<Addr>): (s: set<nat>) {
    set i | 0 <= i < |addrs| :: addrs[i].server
  }

  /** The packets delivered so far, in this order: each once, and to each server in the order sent. */
  ghost predicate Delivery(addrs: seq<Addr>, order: seq<nat>) {
    && (forall p | 0 <= p < |order| :: order[p] < |addrs|)
    && (forall p, q | 0 <= p < q < |order| :: order[p] != order[q])
    && (forall p, j: nat | 0 <= p < |order| && j < order[p] && addrs[j].server == addrs[order[p]].server ::
          j in order[..p])
  }

  /** The acknowledgements sent for the packets delivered so far. */
  ghost function AckCount(addrs: seq<Addr>, order: seq<nat>): (n: nat)
    requires forall p | 0 <= p < |order| :: order[p] < |addrs|
  {
    if order == [] then 0
    else AckCount(addrs, order[..|order| - 1]) + if Acks(ArgsOf(addrs, order[|order| - 1])) then 1 else 0
  }

  /** The servers whose last packet has been delivered. */
  ghost function Finished(addrs: seq<Addr>, order: seq<nat>): (s: set<nat>)
    requires forall p | 0 <= p < |order| :: order[p] < |addrs|
  {
    set p | 0 <= p < |order| && IsLast(addrs, order[p]) :: addrs[order[p]].server
  }

  /** No server acknowledges twice. */
  lemma {:induction false} AckCountIs(addrs: seq<Addr>, order: seq<nat>)
    requires |addrs| < HALF && Delivery(addrs, order)
    ensures AckCount(addrs, order) == |Finished(addrs, order)|
  {
    if order != [] {
      var rest, i := order[..|order| - 1], order[|order| - 1];
      DeliveryPrefix(addrs, order);
      AckCountIs(addrs, rest);
      AcksIffLast(addrs, i);
      FinishedStep(addrs, rest, i);
      assert order == rest + [i];
    }
  }

  lemma {:induction false} DeliveryPrefix(addrs: seq<Addr>, order: seq<nat>)
    requires Delivery(addrs, order) && order != []
    ensures Delivery(addrs, order[..|order| - 1])
  {
    var rest := order[..|order| - 1];
    assert forall p | 0 <= p <= |rest| :: rest[..p] == order[..p];
  }

  lemma {:induction false} FinishedStep(addrs: seq<Addr>, order: seq<nat>, i: nat)
    requires (forall p | 0 <= p < |order| :: order[p] < |addrs| && order[p] != i) && i < |addrs|
    ensures |Finished(addrs, order + [i])| == |Finished(addrs, order)| + if IsLast(addrs, i) then 1 else 0
  {
    FinishedMore(addrs, order, i);
    if IsLast(addrs, i) {
      assert addrs[i].server !in Finished(addrs, order);
    }
  }

  lemma {:induction false} FinishedMore(addrs: seq<Addr>, order: seq<nat>, i: nat)
    requires (forall p | 0 <= p < |order| :: order[p] < |addrs|) && i < |addrs|
    ensures Finished(addrs, order + [i]) == Finished(addrs, order) + if IsLast(addrs, i) then {addrs[i].server} else {}
  {
    var next, more := order + [i], if IsLast(addrs, i) then {addrs[i].server} else {};
    forall s | s in Finished(addrs, next)
      ensures s in Finished(addrs, order) + more
    {
      var p :| 0 <= p < |next| && IsLast(addrs, next[p]) && addrs[next[p]].server == s;
      assert p < |order| ==> next[p] == order[p];
    }
    forall s | s in Finished(addrs, order) + more
      ensures s in Finished(addrs, next)
    {
      if s in Finished(addrs, order) {
        var p :| 0 <= p < |order| && IsLast(addrs, order[p]) && addrs[order[p]].server == s;
        assert next[p] == order[p];
      } else {
        assert next[|order|] == i;
      }
    }
  }

  /** Every server has a last packet. */
  lemma {:induction false} LastOf(addrs: seq<Addr>, i: nat) returns (last: nat)
    requires i < |addrs|
    ensures i <= last < |addrs| && addrs[last].server == addrs[i].server && IsLast(addrs, last)
    decreases |addrs| - i
  {
    last := i;
    if !IsLast(addrs, i) {
      var j :| i < j < |addrs| && addrs[j].server == addrs[i].server;
      last := LastOf(addrs, j);
    }
  }

  lemma {:induction false} DoneWhenFinished(addrs: seq<Addr>, order: seq<nat>, i: nat)
    requires Delivery(addrs, order) && Finished(addrs, order) == Servers(addrs) && i < |addrs|
    ensures i in order
  {
    assert addrs[i].server in Finished(addrs, order);
    var p :| 0 <= p < |order| && IsLast(addrs, order[p]) && addrs[order[p]].server == addrs[i].server;
    assert i <= order[p];
  }

  lemma {:induction false} FinishedWhenDone(addrs: seq<Addr>, order: seq<nat>)
    requires Delivery(addrs, order) && forall i: nat | i < |addrs| :: i in order
    ensures Finished(addrs, order) == Servers(addrs)
  {
    forall s | s in Servers(addrs)
      ensures s in Finished(addrs, order)
    {
      var i :| 0 <= i < |addrs| && addrs[i].server == s;
      var last := LastOf(addrs, i);
      assert last in order;
    }
  }

  /** However the network interleaves the servers: there are never more acknowledgements than
      servers in the batch, and there are as many if and only if every packet has been delivered. */
  lemma {:induction false} AcksIffDone(addrs: seq<Addr>, order: seq<nat>)
    requires |addrs| < HALF && Delivery(addrs, order)
    ensures AckCount(addrs, order) <= |Servers(addrs)|
    ensures AckCount(addrs, order) == |Servers(addrs)| <==> forall i: nat | i < |addrs| :: i in order
  {
    AckCountIs(addrs, order);
    var f, s := Finished(addrs, order), Servers(addrs);
    assert f <= s;
    SubsetSize(f, s);
    if f == s {
      forall i: nat | i < |addrs|
        ensures i in order
      {
        DoneWhenFinished(addrs, order, i);
      }
    }
    if forall i: nat | i < |addrs| :: i in order {
      FinishedWhenDone(addrs, order);
    }
  }

  // ---------- what the client waits for ----------

  /** How many of the counters below m are not zero. */
  function Awaited(addrs: seq<Addr>, m: nat): (n: nat) {
    if m == 0 then 0 else Awaited(addrs, m - 1) + if Count(addrs, m - 1, |addrs|) != 0 then 1 else 0
  }

  ghost function Below(addrs: seq<Addr>, m: nat): (s: set<nat>) {
    set i | 0 <= i < |addrs| && addrs[i].server < m :: addrs[i].server
  }

  lemma {:induction false} AwaitedIs(addrs: seq<Addr>, m: nat)
    ensures Awaited(addrs, m) == |Below(addrs, m)|
  {
    if m > 0 {
      AwaitedIs(addrs, m - 1);
      CountGrows(addrs, m - 1, 0, |addrs|);
      if Count(addrs, m - 1, |addrs|) != 0 {
        assert Below(addrs, m) == Below(addrs, m - 1) + {m - 1};
      } else {
        assert Below(addrs, m) == Below(addrs, m - 1);
      }
    }
  }

  /** The client waits for one acknowledgement per server. */
  lemma {:induction false} AwaitedServers(addrs: seq<Addr>, m: nat)
    requires forall i | 0 <= i < |addrs| :: addrs[i].server < m
    ensures Awaited(addrs, m) == |Servers(addrs)|
  {
    AwaitedIs(addrs, m);
    assert Below(addrs, m) == Servers(addrs);
  }
}
