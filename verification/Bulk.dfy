/**
 The bulk operations of the client: a payload is cut into blocks, the blocks are sent in batches,
 and a read brings every block back to the place its request named. The network may interleave
 the servers' packets and reorder their answers in every possible way.
 */
module Bulk {
  import opened Sequences
  import opened Words
  import opened Batches
  import opened BulkMemory

  const BATCH_SIZE: nat := 40

  // ---------- blocks ----------

  /** Where block i starts. */
  function Offset(i: nat, chunk: nat): (o: nat) {
    if i == 0 then 0 else Offset(i - 1, chunk) + chunk
  }

  lemma {:induction false} OffsetIs(i: nat, chunk: nat)
    ensures Offset(i, chunk) == i * chunk
  {
    if i > 0 {
      OffsetIs(i - 1, chunk);
    }
  }

  /** Block i of the data. */
  ghost predicate IsBlock(data: seq<byte>, chunk: nat, i: nat, block: seq<byte>) {
    Offset(i, chunk) + chunk <= |data| && block == data[Offset(i, chunk)..Offset(i, chunk) + chunk]
  }

  /** The data starts with these blocks. */
  ghost predicate Cut(data: seq<byte>, chunk: nat, blocks: seq<seq<byte>>) {
    forall i | 0 <= i < |blocks| :: IsBlock(data, chunk, i, blocks[i])
  }

  /** The packets of a batch of writes. */
  ghost function PacketsOf(addrs: seq<Addr>, blocks: seq<seq<byte>>): (pkts: seq<Packet>)
    requires |addrs| == |blocks|
    ensures |pkts| == |addrs|
  {
    seq(|addrs|, i requires 0 <= i < |addrs| => Packet(addrs[i], ArgsOf(addrs, i), blocks[i]))
  }

  /** What the client may put into one batch. */
  ghost predicate Batch(addrs: seq<Addr>) {
    |addrs| < HALF && forall i | 0 <= i < |addrs| :: addrs[i].server < USHRT_MAX
  }

  class Cluster {
    var mem: Memory

    constructor (mem: Memory)
      ensures this.mem == mem
    {
      this.mem := mem;
    }
  }

  // ---------- a batch of writes ----------

  /** A packet that does not carry the total yet. */
  ghost function Draft(addrs: seq<Addr>, blocks: seq<seq<byte>>, i: nat): (pkt: Packet)
    requires i < |addrs| == |blocks|
  {
    Packet(addrs[i], Count(addrs, addrs[i].server, i) + 1, blocks[i])
  }

  ghost predicate Counted(addrs: seq<Addr>, n: nat, subIds: seq<nat>)
    requires n <= |addrs|
  {
    |subIds| == USHRT_MAX && forall s | 0 <= s < |subIds| :: subIds[s] == Count(addrs, s, n)
  }

  lemma {:induction false} CountedStep(addrs: seq<Addr>, n: nat, subIds: seq<nat>)
    requires n < |addrs| && Counted(addrs, n, subIds) && addrs[n].server < USHRT_MAX
    ensures var s := addrs[n].server; Counted(addrs, n + 1, subIds[s := subIds[s] + 1])
  {
  }

  /** The loop of `batch_write` that fills in the packets and counts them per server. */
  method Marshal(addrs: seq<Addr>, data: seq<byte>, chunk: nat, ghost blocks: seq<seq<byte>>)
    returns (pkts: array<Packet>, subIds: array<nat>)
    requires Batch(addrs) && Cut(data, chunk, blocks) && |blocks| == |addrs|
    ensures fresh(pkts) && fresh(subIds) && pkts.Length == |addrs| && Counted(addrs, |addrs|, subIds[..])
    ensures forall i | 0 <= i < |addrs| :: pkts[i] == Draft(addrs, blocks, i)
  {
    pkts := new Packet[|addrs|](_ => Packet(Addr(0, 0), 0, []));
    subIds := new nat[USHRT_MAX](_ => 0);
    for i := 0 to |addrs|
      invariant Counted(addrs, i, subIds[..])
      invariant forall j | 0 <= j < i :: pkts[j] == Draft(addrs, blocks, j)
    {
      assert IsBlock(data, chunk, i, blocks[i]);
      CountedStep(addrs, i, subIds[..]);
      var s := addrs[i].server;
      var offset := Offset(i, chunk);
      pkts[i] := Packet(addrs[i], subIds[s] + 1, data[offset..offset + chunk]);
      ghost var was := subIds[..];
      subIds[s] := subIds[s] + 1;
      assert subIds[..] == was[s := was[s] + 1];
    }
  }

  /** `cooked_batched_send`: every packet also gets the total for its server. */
  method SendBatched(pkts: array<Packet>, subIds: array<nat>)
    requires forall i | 0 <= i < pkts.Length :: pkts[i].dst.server < subIds.Length
    modifies pkts
    ensures forall i | 0 <= i < pkts.Length ::
        pkts[i] == old(pkts[i]).(args := WithTotal(old(pkts[i].args), subIds[old(pkts[i].dst.server)]))
  {
    for i := 0 to pkts.Length
      invariant forall j | 0 <= j < i ::
          pkts[j] == old(pkts[j]).(args := WithTotal(old(pkts[j].args), subIds[old(pkts[j].dst.server)]))
      invariant forall j | i <= j < pkts.Length :: pkts[j] == old(pkts[j])
    {
      pkts[i] := pkts[i].(args := WithTotal(pkts[i].args, subIds[pkts[i].dst.server]));
    }
  }

  /** The packets as they leave the client. */
  method Prepare(addrs: seq<Addr>, data: seq<byte>, chunk: nat, ghost blocks: seq<seq<byte>>)
    returns (pkts: array<Packet>, subIds: array<nat>)
    requires Batch(addrs) && Cut(data, chunk, blocks) && |blocks| == |addrs|
    ensures fresh(pkts) && fresh(subIds) && pkts[..] == PacketsOf(addrs, blocks) && Counted(addrs, |addrs|, subIds[..])
  {
    pkts, subIds := Marshal(addrs, data, chunk, blocks);
    SendBatched(pkts, subIds);
  }

  // ---------- acknowledgements ----------

  /** Packet i can be delivered next: those sent to its server before have been. */
  predicate Deliverable(pkts: seq<Packet>, order: seq<nat>, i: nat)
    requires i < |pkts|
  {
    i !in order && forall j | 0 <= j < i && pkts[j].dst.server == pkts[i].dst.server :: j in order
  }

  lemma {:induction false} SomethingDeliverable(pkts: seq<Packet>, order: seq<nat>, i: nat) returns (k: nat)
    requires i < |pkts| && i !in order
    ensures k < |pkts| && Deliverable(pkts, order, k)
  {
    k := i;
    if !Deliverable(pkts, order, i) {
      var j :| 0 <= j < i && pkts[j].dst.server == pkts[i].dst.server && j !in order;
      k := SomethingDeliverable(pkts, order, j);
    }
  }

  ghost predicate Sent(addrs: seq<Addr>, pkts: seq<Packet>) {
    |pkts| == |addrs| && forall i | 0 <= i < |addrs| :: pkts[i].dst == addrs[i] && pkts[i].args == ArgsOf(addrs, i)
  }

  lemma {:induction false} Delivered(addrs: seq<Addr>, pkts: seq<Packet>, order: seq<nat>, i: nat)
    requires Sent(addrs, pkts) && Delivery(addrs, order) && i < |pkts| && Deliverable(pkts, order, i)
    ensures Delivery(addrs, order + [i])
    ensures AckCount(addrs, order + [i]) == AckCount(addrs, order) + if Acks(pkts[i].args) then 1 else 0
  {
    var next := order + [i];
    assert next[..|order|] == order;
    forall p, j: nat | 0 <= p < |next| && j < next[p] && addrs[j].server == addrs[next[p]].server
      ensures j in next[..p]
    {
      if p < |order| {
        assert next[..p] == order[..p];
      }
    }
  }

  function Undelivered(pkts: seq<Packet>, order: seq<nat>): (u: set<nat>) {
    set i | 0 <= i < |pkts| && i !in order
  }

  /** The packets of the batch that were delivered so far, and the memory they left. */
  ghost predicate InFlight(mem0: Memory, mem: Memory, addrs: seq<Addr>, pkts: seq<Packet>, order: seq<nat>) {
    Sent(addrs, pkts) && Delivery(addrs, order) && mem == Applied(mem0, pkts, order)
  }

  lemma {:induction false} InFlightStep(mem0: Memory, mem: Memory, addrs: seq<Addr>, pkts: seq<Packet>, order: seq<nat>,
                                        i: nat)
    requires InFlight(mem0, mem, addrs, pkts, order) && i < |pkts| && Deliverable(pkts, order, i)
    ensures InFlight(mem0, Write(mem, pkts[i].dst, pkts[i].data), addrs, pkts, order + [i])
    ensures AckCount(addrs, order + [i]) == AckCount(addrs, order) + if Acks(pkts[i].args) then 1 else 0
    ensures Undelivered(pkts, order + [i]) < Undelivered(pkts, order)
  {
    Delivered(addrs, pkts, order, i);
    AppliedStep(mem0, pkts, order, i);
    assert i in Undelivered(pkts, order) && i !in Undelivered(pkts, order + [i]);
  }

  /** While acknowledgements are missing, some packet can be delivered. */
  lemma {:induction false} NotStuck(mem0: Memory, mem: Memory, addrs: seq<Addr>, pkts: seq<Packet>, order: seq<nat>)
    returns (k: nat)
    requires Batch(addrs) && InFlight(mem0, mem, addrs, pkts, order) && AckCount(addrs, order) < |Servers(addrs)|
    ensures k < |pkts| && Deliverable(pkts, order, k)
  {
    AcksIffDone(addrs, order);
    var i :| 0 <= i < |addrs| && i !in order;
    k := SomethingDeliverable(pkts, order, i);
  }

  /** Wait for one acknowledgement: the network delivers packets, any it can deliver next, until
      a server acknowledges one. */
  method Receive(cluster: Cluster, pkts: seq<Packet>, delivered: seq<nat>, ghost mem0: Memory, ghost addrs: seq<Addr>)
    returns (order: seq<nat>)
    requires Batch(addrs) && InFlight(mem0, cluster.mem, addrs, pkts, delivered)
    requires AckCount(addrs, delivered) < |Servers(addrs)|
    modifies cluster
    ensures InFlight(mem0, cluster.mem, addrs, pkts, order)
    ensures AckCount(addrs, order) == AckCount(addrs, delivered) + 1
  {
    order := delivered;
    var acked := false;
    while !acked
      invariant InFlight(mem0, cluster.mem, addrs, pkts, order)
      invariant AckCount(addrs, order) == AckCount(addrs, delivered) + if acked then 1 else 0
      decreases !acked, Undelivered(pkts, order)
    {
      ghost var _ := NotStuck(mem0, cluster.mem, addrs, pkts, order);
      var i: nat :| i < |pkts| && Deliverable(pkts, order, i);
      InFlightStep(mem0, cluster.mem, addrs, pkts, order, i);
      cluster.mem := Write(cluster.mem, pkts[i].dst, pkts[i].data);
      order := order + [i];
      acked := Acks(pkts[i].args);
    }
  }

  /** The waiting loop of `batch_write`: one acknowledgement for every counter that is not zero. */
  method Await(cluster: Cluster, pkts: seq<Packet>, subIds: array<nat>, ghost mem0: Memory, ghost addrs: seq<Addr>)
    returns (order: seq<nat>)
    requires Batch(addrs) && Sent(addrs, pkts) && cluster.mem == mem0 && Counted(addrs, |addrs|, subIds[..])
    modifies cluster
    ensures InFlight(mem0, cluster.mem, addrs, pkts, order) && forall i: nat | i < |addrs| :: i in order
  {
    order := [];
    for i := 0 to subIds.Length
      invariant InFlight(mem0, cluster.mem, addrs, pkts, order)
      invariant AckCount(addrs, order) == Awaited(addrs, i)
    {
      AwaitedStep(addrs, i);
      if subIds[i] != 0 {
        order := Receive(cluster, pkts, order, mem0, addrs);
      }
    }
    WaitedForAll(mem0, cluster.mem, addrs, pkts, order, subIds.Length);
  }

  lemma {:induction false} WaitedForAll(mem0: Memory, mem: Memory, addrs: seq<Addr>, pkts: seq<Packet>, order: seq<nat>,
                                        m: nat)
    requires Batch(addrs) && InFlight(mem0, mem, addrs, pkts, order)
    requires AckCount(addrs, order) == Awaited(addrs, m) && m >= USHRT_MAX
    ensures forall i: nat | i < |addrs| :: i in order
  {
    AwaitedServers(addrs, m);
    AcksIffDone(addrs, order);
  }

  lemma {:induction false} AwaitedStep(addrs: seq<Addr>, i: nat)
    ensures Awaited(addrs, i + 1) == Awaited(addrs, i) + if Count(addrs, i, |addrs|) != 0 then 1 else 0
    ensures Count(addrs, i, |addrs|) != 0 ==> Awaited(addrs, i) < |Servers(addrs)|
  {
    if Count(addrs, i, |addrs|) != 0 {
      AwaitedMore(addrs, i);
    }
  }

  lemma {:induction false} AwaitedMore(addrs: seq<Addr>, i: nat)
    requires Count(addrs, i, |addrs|) != 0
    ensures Awaited(addrs, i) < |Servers(addrs)|
  {
    AwaitedIs(addrs, i);
    CountGrows(addrs, i, 0, |addrs|);
    var s := Below(addrs, i);
    assert i in Servers(addrs) && i !in s && s <= Servers(addrs);
    SubsetSize(s, Servers(addrs));
  }

  /** The packets in the order in which they were sent. */
  ghost function InTurn(n: nat): (order: seq<nat>)
    ensures |order| == n && forall p | 0 <= p < n :: order[p] == p
  {
    seq(n, p requires 0 <= p < n => p)
  }

  lemma {:induction false} InTurnStores(mem: Memory, addrs: seq<Addr>, blocks: seq<seq<byte>>, n: nat)
    requires n <= |addrs| == |blocks|
    ensures Applied(mem, PacketsOf(addrs, blocks), InTurn(n)) == Stored(mem, addrs, blocks, n)
  {
    if n > 0 {
      InTurnStores(mem, addrs, blocks, n - 1);
      assert InTurn(n)[..n - 1] == InTurn(n - 1);
    }
  }

  lemma {:induction false} PacketsSeparate(addrs: seq<Addr>, blocks: seq<seq<byte>>, chunk: nat)
    requires |addrs| == |blocks| && Disjoint(addrs, chunk) && Sized(blocks, chunk)
    ensures Separate(PacketsOf(addrs, blocks), chunk)
  {
  }

  /** When every packet has been delivered, in whatever order, the memory is what writing the
      blocks one by one would have made of it. */
  lemma {:induction false} AllDelivered(mem: Memory, addrs: seq<Addr>, blocks: seq<seq<byte>>, chunk: nat,
                                        order: seq<nat>)
    requires |addrs| == |blocks| && Disjoint(addrs, chunk) && Sized(blocks, chunk) && Complete(order, |addrs|)
    ensures Applied(mem, PacketsOf(addrs, blocks), order) == Stored(mem, addrs, blocks, |addrs|)
  {
    PacketsSeparate(addrs, blocks, chunk);
    var turn := InTurn(|addrs|);
    forall i: nat | i < |addrs|
      ensures i in turn
    {
      assert turn[i] == i;
    }
    AnyOrder(mem, PacketsOf(addrs, blocks), order, turn, chunk);
    InTurnStores(mem, addrs, blocks, |addrs|);
  }

  lemma {:induction false} CutSized(data: seq<byte>, chunk: nat, blocks: seq<seq<byte>>)
    requires Cut(data, chunk, blocks)
    ensures Sized(blocks, chunk)
  {
    assert forall i | 0 <= i < |blocks| :: IsBlock(data, chunk, i, blocks[i]);
  }

  /** `batch_write`: whatever the order of delivery, it is as if the blocks had been copied one by one. */
  method BatchWrite(cluster: Cluster, addrs: seq<Addr>, data: seq<byte>, chunk: nat, ghost blocks: seq<seq<byte>>)
    requires Batch(addrs) && Disjoint(addrs, chunk) && Cut(data, chunk, blocks) && |blocks| == |addrs|
    modifies cluster
    ensures cluster.mem == Stored(old(cluster.mem), addrs, blocks, |addrs|)
  {
    var pkts, subIds := Prepare(addrs, data, chunk, blocks);
    var order := Await(cluster, pkts[..], subIds, cluster.mem, addrs);
    CutSized(data, chunk, blocks);
    AllDelivered(old(cluster.mem), addrs, blocks, chunk, order);
  }

  // ---------- a batch of reads ----------

  /** A read request: it carries the pointer at which the client wants the answer. */
  datatype Request = Request(dst: Addr, args: nat, ptr: nat)

  /** Bytes copied into a buffer. */
  function Splice(buf: seq<byte>, ptr: nat, data: seq<byte>): (r: seq<byte>)
    requires ptr + |data| <= |buf|
    ensures |r| == |buf|
  {
    buf[..ptr] + data + buf[ptr + |data|..]
  }

  method CopyIn(buffer: array<byte>, ptr: nat, data: seq<byte>)
    requires ptr + |data| <= buffer.Length
    modifies buffer
    ensures buffer[..] == Splice(old(buffer[..]), ptr, data)
  {
    for i := 0 to |data|
      invariant forall x | 0 <= x < buffer.Length ::
          buffer[x] == if ptr <= x < ptr + i then data[x - ptr] else old(buffer[x])
    {
      buffer[ptr + i] := data[i];
    }
  }

  /** Block i of the answer is in the buffer. */
  ghost predicate Landed(buf: seq<byte>, base: nat, chunk: nat, i: nat, block: seq<byte>) {
    var ptr := base + Offset(i, chunk);
    ptr + |block| <= |buf| && buf[ptr..ptr + |block|] == block
  }

  lemma {:induction false} OffsetGrows(i: nat, j: nat, chunk: nat)
    requires i < j
    ensures Offset(i, chunk) + chunk <= Offset(j, chunk)
  {
    if i + 1 < j {
      OffsetGrows(i, j - 1, chunk);
    }
  }

  lemma {:induction false} SpliceLands(buf: seq<byte>, base: nat, chunk: nat, i: nat, block: seq<byte>)
    requires base + Offset(i, chunk) + |block| <= |buf|
    ensures Landed(Splice(buf, base + Offset(i, chunk), block), base, chunk, i, block)
  {
  }

  lemma {:induction false} SpliceKeeps(buf: seq<byte>, base: nat, chunk: nat, i: nat, block: seq<byte>, j: nat,
                                       kept: seq<byte>)
    requires base + Offset(i, chunk) + |block| <= |buf| && |block| == |kept| == chunk && i != j
    requires Landed(buf, base, chunk, j, kept)
    ensures Landed(Splice(buf, base + Offset(i, chunk), block), base, chunk, j, kept)
  {
    if i < j {
      OffsetGrows(i, j, chunk);
    } else {
      OffsetGrows(j, i, chunk);
    }
    Spliced(buf, base + Offset(i, chunk), block, base + Offset(j, chunk), kept);
  }

  lemma {:induction false} Spliced(buf: seq<byte>, ptr: nat, block: seq<byte>, at: nat, kept: seq<byte>)
    requires ptr + |block| <= |buf| && at + |kept| <= |buf| && buf[at..at + |kept|] == kept
    requires at + |kept| <= ptr || ptr + |block| <= at
    ensures Splice(buf, ptr, block)[at..at + |kept|] == kept
  {
    var r := Splice(buf, ptr, block);
    assert forall x | at <= x < at + |kept| :: r[x] == buf[x];
    assert r[at..at + |kept|] == buf[at..at + |kept|];
  }

  /** Request i of a batch: the length asked for, and where block i goes. */
  ghost predicate Asks(req: Request, addrs: seq<Addr>, base: nat, chunk: nat, i: nat)
    requires i < |addrs|
  {
    req.dst == addrs[i] && req.ptr == base + Offset(i, chunk) && Low(req.args) == chunk
  }

  ghost function Want(addrs: seq<Addr>, base: nat, chunk: nat, i: nat): (req: Request)
    requires i < |addrs|
  {
    Request(addrs[i], chunk, base + Offset(i, chunk))
  }

  /** The loop of `batch_read` that fills in the requests. */
  method MarshalReads(addrs: seq<Addr>, base: nat, chunk: nat) returns (reqs: array<Request>, subIds: array<nat>)
    requires Batch(addrs)
    ensures fresh(reqs) && fresh(subIds) && reqs.Length == |addrs| && Counted(addrs, |addrs|, subIds[..])
    ensures forall i | 0 <= i < |addrs| :: reqs[i] == Want(addrs, base, chunk, i)
  {
    reqs := new Request[|addrs|](_ => Request(Addr(0, 0), 0, 0));
    subIds := new nat[USHRT_MAX](_ => 0);
    for i := 0 to |addrs|
      invariant Counted(addrs, i, subIds[..])
      invariant forall j | 0 <= j < i :: reqs[j] == Want(addrs, base, chunk, j)
    {
      CountedStep(addrs, i, subIds[..]);
      reqs[i] := Request(addrs[i], chunk, base + Offset(i, chunk));
      ghost var was := subIds[..];
      var s := addrs[i].server;
      subIds[s] := subIds[s] + 1;
      assert subIds[..] == was[s := was[s] + 1];
    }
  }

  /** The total that is put into the word leaves the length alone. */
  lemma {:induction false} TotalKeepsLength(addrs: seq<Addr>, base: nat, chunk: nat, i: nat, total: nat)
    requires i < |addrs| && chunk < HALF && total < HALF
    ensures Asks(Request(addrs[i], WithTotal(chunk, total), base + Offset(i, chunk)), addrs, base, chunk, i)
  {
    WithTotalHalves(chunk, total);
  }

  method Requests(addrs: seq<Addr>, base: nat, chunk: nat) returns (sent: seq<Request>)
    requires Batch(addrs) && chunk < HALF
    ensures |sent| == |addrs| && forall i | 0 <= i < |addrs| :: Asks(sent[i], addrs, base, chunk, i)
  {
    var reqs, subIds := MarshalReads(addrs, base, chunk);
    var drafts, totals := reqs[..], subIds[..];
    sent := [];
    for i := 0 to |drafts|
      invariant |sent| == i && forall j | 0 <= j < i :: Asks(sent[j], addrs, base, chunk, j)
    {
      assert drafts[i] == Want(addrs, base, chunk, i);
      TotalKeepsLength(addrs, base, chunk, i, totals[addrs[i].server]);
      sent := sent + [drafts[i].(args := WithTotal(drafts[i].args, totals[drafts[i].dst.server]))];
    }
  }

  function Indices(n: nat): (s: set<nat>)
    ensures forall i: nat :: i in s <==> i < n
  {
    if n == 0 then {} else Indices(n - 1) + {n - 1}
  }

  /** All blocks have landed but those that are still outstanding. */
  ghost predicate LandedBut(buf: seq<byte>, base: nat, chunk: nat, blocks: seq<seq<byte>>, outstanding: set<nat>) {
    forall i: nat | i < |blocks| && i !in outstanding :: Landed(buf, base, chunk, i, blocks[i])
  }

  lemma {:induction false} LandsOneMore(buf: seq<byte>, base: nat, chunk: nat, blocks: seq<seq<byte>>,
                                        outstanding: set<nat>, i: nat)
    requires LandedBut(buf, base, chunk, blocks, outstanding) && i < |blocks|
    requires base + Offset(i, chunk) + chunk <= |buf| && forall j | 0 <= j < |blocks| :: |blocks[j]| == chunk
    ensures LandedBut(Splice(buf, base + Offset(i, chunk), blocks[i]), base, chunk, blocks, outstanding - {i})
  {
    SpliceLands(buf, base, chunk, i, blocks[i]);
    forall j: nat | j < |blocks| && j !in outstanding && j != i
      ensures Landed(Splice(buf, base + Offset(i, chunk), blocks[i]), base, chunk, j, blocks[j])
    {
      SpliceKeeps(buf, base, chunk, i, blocks[i], j, blocks[j]);
    }
  }

  /** One answer: the server loads the bytes, the client copies them to the pointer. */
  method Answer(cluster: Cluster, req: Request, buffer: array<byte>, ghost addrs: seq<Addr>, ghost base: nat,
                ghost chunk: nat, ghost i: nat)
    requires i < |addrs| && Asks(req, addrs, base, chunk, i) && base + Offset(|addrs|, chunk) <= buffer.Length
    requires Present(cluster.mem, addrs[i], chunk)
    modifies buffer
    ensures base + Offset(i, chunk) + chunk <= buffer.Length
    ensures buffer[..] == Splice(old(buffer[..]), base + Offset(i, chunk), Load(cluster.mem, addrs[i], chunk))
  {
    OffsetGrows(i, |addrs|, chunk);
    var data := Load(cluster.mem, req.dst, Low(req.args));
    CopyIn(buffer, req.ptr, data);
  }

  /** The blocks, one after the other. */
  ghost function Joined(blocks: seq<seq<byte>>): (data: seq<byte>) {
    if blocks == [] then [] else Joined(blocks[..|blocks| - 1]) + blocks[|blocks| - 1]
  }

  lemma {:induction false} JoinedSize(blocks: seq<seq<byte>>, chunk: nat)
    requires Sized(blocks, chunk)
    ensures |Joined(blocks)| == Offset(|blocks|, chunk)
  {
    if blocks != [] {
      JoinedSize(blocks[..|blocks| - 1], chunk);
    }
  }

  /** Nothing but the n blocks from the base on has changed. */
  ghost predicate Outside(buf: seq<byte>, buf': seq<byte>, base: nat, len: nat) {
    |buf| == |buf'| && base + len <= |buf| && buf[..base] == buf'[..base] && buf[base + len..] == buf'[base + len..]
  }

  lemma {:induction false} SpliceOutside(buf0: seq<byte>, buf: seq<byte>, base: nat, len: nat, ptr: nat,
                                         data: seq<byte>)
    requires Outside(buf0, buf, base, len) && base <= ptr && ptr + |data| <= base + len
    ensures Outside(buf0, Splice(buf, ptr, data), base, len)
  {
    var r := Splice(buf, ptr, data);
    assert r[..base] == buf[..base];
    assert r[base + len..] == buf[base + len..];
  }

  /** Blocks that have all landed stand one after the other. */
  lemma {:induction false} LandedJoined(buf: seq<byte>, base: nat, chunk: nat, blocks: seq<seq<byte>>, n: nat)
    requires LandedBut(buf, base, chunk, blocks, {}) && Sized(blocks, chunk) && n <= |blocks|
    requires base + Offset(n, chunk) <= |buf|
    ensures buf[base..base + Offset(n, chunk)] == Joined(blocks[..n])
  {
    if n > 0 {
      LandedJoined(buf, base, chunk, blocks, n - 1);
      assert Landed(buf, base, chunk, n - 1, blocks[n - 1]);
      JoinedMore(blocks, n - 1);
      SplitAt(buf, base, base + Offset(n - 1, chunk), chunk);
    }
  }

  lemma {:induction false} JoinedMore(blocks: seq<seq<byte>>, n: nat)
    requires n < |blocks|
    ensures Joined(blocks[..n + 1]) == Joined(blocks[..n]) + blocks[n]
  {
    assert blocks[..n + 1][..n] == blocks[..n];
  }

  lemma {:induction false} SplitAt(buf: seq<byte>, base: nat, p: nat, len: nat)
    requires base <= p && p + len <= |buf|
    ensures buf[base..p + len] == buf[base..p] + buf[p..p + len]
  {
  }

  lemma {:induction false} LandedSplice(buf0: seq<byte>, buf: seq<byte>, base: nat, chunk: nat, blocks: seq<seq<byte>>)
    requires LandedBut(buf, base, chunk, blocks, {}) && Sized(blocks, chunk)
    requires Outside(buf0, buf, base, Offset(|blocks|, chunk))
    ensures base + |Joined(blocks)| <= |buf0| && buf == Splice(buf0, base, Joined(blocks))
  {
    var end := base + Offset(|blocks|, chunk);
    JoinedSize(blocks, chunk);
    LandedJoined(buf, base, chunk, blocks, |blocks|);
    assert blocks[..|blocks|] == blocks;
    assert buf == buf[..base] + buf[base..end] + buf[end..];
  }

  /** What is at these addresses. */
  ghost function Loads(mem: Memory, addrs: seq<Addr>, chunk: nat): (blocks: seq<seq<byte>>)
    requires Backed(mem, addrs, chunk)
    ensures |blocks| == |addrs| && Sized(blocks, chunk)
  {
    seq(|addrs|, i requires 0 <= i < |addrs| => Load(mem, addrs[i], chunk))
  }

  /** There is memory behind these addresses. */
  ghost predicate Backed(mem: Memory, addrs: seq<Addr>, chunk: nat) {
    forall i | 0 <= i < |addrs| :: Present(mem, addrs[i], chunk)
  }

  /** The buffer while answers are outstanding. */
  ghost predicate Arrived(buf0: seq<byte>, buf: seq<byte>, base: nat, chunk: nat, blocks: seq<seq<byte>>,
                          outstanding: set<nat>)
  {
    LandedBut(buf, base, chunk, blocks, outstanding) && Outside(buf0, buf, base, Offset(|blocks|, chunk))
  }

  lemma {:induction false} ArrivesOneMore(buf0: seq<byte>, buf: seq<byte>, base: nat, chunk: nat,
                                          blocks: seq<seq<byte>>, outstanding: set<nat>, i: nat)
    requires Arrived(buf0, buf, base, chunk, blocks, outstanding) && Sized(blocks, chunk) && i < |blocks|
    ensures base + Offset(i, chunk) + chunk <= |buf|
    ensures Arrived(buf0, Splice(buf, base + Offset(i, chunk), blocks[i]), base, chunk, blocks, outstanding - {i})
  {
    OffsetGrows(i, |blocks|, chunk);
    LandsOneMore(buf, base, chunk, blocks, outstanding, i);
    SpliceOutside(buf0, buf, base, Offset(|blocks|, chunk), base + Offset(i, chunk), blocks[i]);
  }

  method TakeAnswer(cluster: Cluster, req: Request, buffer: array<byte>, ghost addrs: seq<Addr>, ghost base: nat,
                    ghost chunk: nat, ghost i: nat, ghost buf0: seq<byte>, ghost blocks: seq<seq<byte>>,
                    ghost outstanding: set<nat>)
    requires i < |addrs| && Asks(req, addrs, base, chunk, i) && base + Offset(|addrs|, chunk) <= buffer.Length
    requires Backed(cluster.mem, addrs, chunk) && blocks == Loads(cluster.mem, addrs, chunk)
    requires Arrived(buf0, buffer[..], base, chunk, blocks, outstanding)
    modifies buffer
    ensures Arrived(buf0, buffer[..], base, chunk, blocks, outstanding - {i})
  {
    ghost var was := buffer[..];
    Answer(cluster, req, buffer, addrs, base, chunk, i);
    ArrivesOneMore(buf0, was, base, chunk, blocks, outstanding, i);
    assert buffer[..] == Splice(was, base + Offset(i, chunk), blocks[i]);
  }

  /** `batch_read`: the answers arrive in any order, each with the pointer it goes to; the blocks end
      up one after the other, and the rest of the buffer stays. */
  method BatchRead(cluster: Cluster, addrs: seq<Addr>, buffer: array<byte>, base: nat, chunk: nat)
    requires Batch(addrs) && chunk < HALF && base + Offset(|addrs|, chunk) <= buffer.Length
    requires Backed(cluster.mem, addrs, chunk)
    modifies buffer
    ensures base + |Joined(Loads(cluster.mem, addrs, chunk))| <= buffer.Length
    ensures buffer[..] == Splice(old(buffer[..]), base, Joined(Loads(cluster.mem, addrs, chunk)))
  {
    var reqs := Requests(addrs, base, chunk);
    ghost var blocks, buf0 := Loads(cluster.mem, addrs, chunk), buffer[..];
    var outstanding := Indices(|addrs|);
    while outstanding != {}
      invariant forall i | i in outstanding :: i < |addrs|
      invariant Arrived(buf0, buffer[..], base, chunk, blocks, outstanding)
      decreases outstanding
    {
      var i :| i in outstanding;
      TakeAnswer(cluster, reqs[i], buffer, addrs, base, chunk, i, buf0, blocks, outstanding);
      outstanding := outstanding - {i};
    }
    LandedSplice(buf0, buffer[..], base, chunk, blocks);
  }
}
