/**
 The memory of the servers, and what a batch of writes does to it in whatever order the packets
 are delivered.
 */
module BulkMemory {
  import opened Words
  import opened Batches

  datatype Loc = Loc(server: nat, addr: nat)

  /** The bytes that all servers hold. */
  datatype Memory = Memory(bytes: map<Loc, byte>)

  predicate InRange(l: Loc, a: Addr, len: nat) {
    l.server == a.server && a.paddr <= l.addr < a.paddr + len
  }

  /** `write_mem` and `write_mem_bulk`: bytes copied to a pointer. */
  function Write(mem: Memory, a: Addr, data: seq<byte>): (m: Memory) {
    if data == [] then mem
    else
      var last := |data| - 1;
      Memory(Write(mem, a, data[..last]).bytes[Loc(a.server, a.paddr + last) := data[last]])
  }

  /** The same byte is at this location, or none. */
  ghost predicate Same(mem: Memory, mem': Memory, l: Loc) {
    (l in mem.bytes <==> l in mem'.bytes) && (l in mem.bytes ==> mem.bytes[l] == mem'.bytes[l])
  }

  ghost predicate Has(mem: Memory, l: Loc, value: byte) {
    l in mem.bytes && mem.bytes[l] == value
  }

  /** The bytes are in the range, and nothing else changes. */
  lemma {:induction false} WriteIs(mem: Memory, a: Addr, data: seq<byte>, l: Loc)
    ensures if InRange(l, a, |data|) then Has(Write(mem, a, data), l, data[l.addr - a.paddr])
            else Same(mem, Write(mem, a, data), l)
  {
    if data != [] {
      WriteIs(mem, a, data[..|data| - 1], l);
    }
  }

  /** There is memory behind these addresses. */
  ghost predicate Present(mem: Memory, a: Addr, len: nat) {
    forall l: Loc | InRange(l, a, len) :: l in mem.bytes
  }

  /** `read_mem` and `read_mem_ptr`: the bytes at a pointer. */
  function Load(mem: Memory, a: Addr, len: nat): (data: seq<byte>)
    requires Present(mem, a, len)
    ensures |data| == len
  {
    seq(len, j requires 0 <= j < len => mem.bytes[Loc(a.server, a.paddr + j)])
  }

  /** These bytes are at this address. */
  ghost predicate At(mem: Memory, a: Addr, data: seq<byte>) {
    forall l: Loc | InRange(l, a, |data|) :: Has(mem, l, data[l.addr - a.paddr])
  }

  lemma {:induction false} AtLoads(mem: Memory, a: Addr, data: seq<byte>)
    requires At(mem, a, data)
    ensures Present(mem, a, |data|) && Load(mem, a, |data|) == data
  {
    var loaded := Load(mem, a, |data|);
    forall j: nat | j < |data|
      ensures loaded[j] == data[j]
    {
      assert InRange(Loc(a.server, a.paddr + j), a, |data|);
    }
  }

  /** Ranges of this length that do not meet. */
  predicate Apart(a: Addr, b: Addr, len: nat) {
    a.server != b.server || a.paddr + len <= b.paddr || b.paddr + len <= a.paddr
  }

  lemma {:induction false} WriteAt(mem: Memory, a: Addr, data: seq<byte>)
    ensures At(Write(mem, a, data), a, data)
  {
    forall l: Loc | InRange(l, a, |data|)
      ensures Has(Write(mem, a, data), l, data[l.addr - a.paddr])
    {
      WriteIs(mem, a, data, l);
    }
  }

  lemma {:induction false} WriteKeeps(mem: Memory, a: Addr, data: seq<byte>, b: Addr, kept: seq<byte>)
    requires At(mem, b, kept) && Apart(a, b, |data|) && |kept| == |data|
    ensures At(Write(mem, a, data), b, kept)
  {
    forall l: Loc | InRange(l, b, |kept|)
      ensures Has(Write(mem, a, data), l, kept[l.addr - b.paddr])
    {
      assert Has(mem, l, kept[l.addr - b.paddr]);
      WriteIs(mem, a, data, l);
    }
  }

  datatype Packet = Packet(dst: Addr, args: nat, data: seq<byte>)

  /** The memory after the packets with these indices have been delivered. */
  function Applied(mem: Memory, pkts: seq<Packet>, order: seq<nat>): (m: Memory)
    requires forall p | 0 <= p < |order| :: order[p] < |pkts|
  {
    if order == [] then mem
    else
      var pkt := pkts[order[|order| - 1]];
      Write(Applied(mem, pkts, order[..|order| - 1]), pkt.dst, pkt.data)
  }

  lemma {:induction false} AppliedStep(mem: Memory, pkts: seq<Packet>, order: seq<nat>, i: nat)
    requires (forall p | 0 <= p < |order| :: order[p] < |pkts|) && i < |pkts|
    ensures Applied(mem, pkts, order + [i]) == Write(Applied(mem, pkts, order), pkts[i].dst, pkts[i].data)
  {
    assert (order + [i])[..|order|] == order;
  }

  ghost predicate Separate(pkts: seq<Packet>, len: nat) {
    && (forall i | 0 <= i < |pkts| :: |pkts[i].data| == len)
    && forall i, j | 0 <= i < |pkts| && 0 <= j < |pkts| && i != j :: Apart(pkts[i].dst, pkts[j].dst, len)
  }

  /** What is elsewhere stays. */
  lemma {:induction false} AppliedElsewhere(mem: Memory, pkts: seq<Packet>, order: seq<nat>, l: Loc)
    requires forall p | 0 <= p < |order| :: order[p] < |pkts|
    requires forall p | 0 <= p < |order| :: !InRange(l, pkts[order[p]].dst, |pkts[order[p]].data|)
    ensures Same(mem, Applied(mem, pkts, order), l)
  {
    if order != [] {
      var rest, pkt := order[..|order| - 1], pkts[order[|order| - 1]];
      AppliedElsewhere(mem, pkts, rest, l);
      WriteIs(Applied(mem, pkts, rest), pkt.dst, pkt.data, l);
    }
  }

  /** In whatever order: what was delivered is there. */
  lemma {:induction false} AppliedAt(mem: Memory, pkts: seq<Packet>, order: seq<nat>, len: nat, p: nat)
    requires forall q | 0 <= q < |order| :: order[q] < |pkts|
    requires forall q, r | 0 <= q < r < |order| :: order[q] != order[r]
    requires Separate(pkts, len) && p < |order|
    ensures At(Applied(mem, pkts, order), pkts[order[p]].dst, pkts[order[p]].data)
  {
    var rest := order[..|order| - 1];
    var pkt := pkts[order[|order| - 1]];
    if p == |order| - 1 {
      WriteAt(Applied(mem, pkts, rest), pkt.dst, pkt.data);
    } else {
      AppliedAt(mem, pkts, rest, len, p);
      WriteKeeps(Applied(mem, pkts, rest), pkt.dst, pkt.data, pkts[order[p]].dst, pkts[order[p]].data);
    }
  }

  /** Every packet, once. */
  ghost predicate Complete(order: seq<nat>, n: nat) {
    && (forall p | 0 <= p < |order| :: order[p] < n)
    && (forall p, q | 0 <= p < q < |order| :: order[p] != order[q])
    && forall i: nat | i < n :: i in order
  }

  lemma {:induction false} CompleteAt(mem: Memory, pkts: seq<Packet>, order: seq<nat>, len: nat, i: nat)
    requires Separate(pkts, len) && Complete(order, |pkts|) && i < |pkts|
    ensures At(Applied(mem, pkts, order), pkts[i].dst, pkts[i].data)
  {
    assert i in order;
    var p :| 0 <= p < |order| && order[p] == i;
    AppliedAt(mem, pkts, order, len, p);
  }

  /** The order in which separate writes are delivered does not matter. */
  lemma {:induction false} AnyOrder(mem: Memory, pkts: seq<Packet>, order: seq<nat>, order': seq<nat>, len: nat)
    requires Separate(pkts, len) && Complete(order, |pkts|) && Complete(order', |pkts|)
    ensures Applied(mem, pkts, order) == Applied(mem, pkts, order')
  {
    var m, m' := Applied(mem, pkts, order), Applied(mem, pkts, order');
    forall l: Loc
      ensures Same(m, m', l)
    {
      if i :| 0 <= i < |pkts| && InRange(l, pkts[i].dst, |pkts[i].data|) {
        CompleteAt(mem, pkts, order, len, i);
        CompleteAt(mem, pkts, order', len, i);
      } else {
        AppliedElsewhere(mem, pkts, order, l);
        AppliedElsewhere(mem, pkts, order', l);
      }
    }
    SameEverywhere(m, m');
  }

  lemma {:induction false} SameEverywhere(m: Memory, m': Memory)
    requires forall l: Loc :: Same(m, m', l)
    ensures m == m'
  {
    forall l: Loc
      ensures l in m.bytes <==> l in m'.bytes
      ensures l in m.bytes ==> m.bytes[l] == m'.bytes[l]
    {
      assert Same(m, m', l);
    }
    assert m.bytes == m'.bytes;
  }

  // ---------- one write after the other ----------

  /** The memory after the first n blocks have been written to their addresses, one by one. */
  ghost function Stored(mem: Memory, addrs: seq<Addr>, blocks: seq<seq<byte>>, n: nat): (m: Memory)
    requires n <= |addrs| && n <= |blocks|
  {
    if n == 0 then mem else Write(Stored(mem, addrs, blocks, n - 1), addrs[n - 1], blocks[n - 1])
  }

  /** Writing o blocks and then the first j of those that follow. */
  lemma {:induction false} StoredMore(mem: Memory, addrs: seq<Addr>, blocks: seq<seq<byte>>, o: nat, addrs': seq<Addr>,
                                      blocks': seq<seq<byte>>, j: nat)
    requires o + j <= |addrs| && o + j <= |blocks| && j <= |addrs'| && j <= |blocks'|
    requires forall i | 0 <= i < j :: addrs'[i] == addrs[o + i] && blocks'[i] == blocks[o + i]
    ensures Stored(Stored(mem, addrs, blocks, o), addrs', blocks', j) == Stored(mem, addrs, blocks, o + j)
  {
    if j > 0 {
      StoredMore(mem, addrs, blocks, o, addrs', blocks', j - 1);
      StoredStep(mem, addrs, blocks, o + j);
      StoredStep(Stored(mem, addrs, blocks, o), addrs', blocks', j);
    }
  }

  lemma {:induction false} StoredStep(mem: Memory, addrs: seq<Addr>, blocks: seq<seq<byte>>, n: nat)
    requires 0 < n <= |addrs| && n <= |blocks|
    ensures Stored(mem, addrs, blocks, n) == Write(Stored(mem, addrs, blocks, n - 1), addrs[n - 1], blocks[n - 1])
  {
  }

  /** Addresses of ranges of this length that do not meet. */
  ghost predicate Disjoint(addrs: seq<Addr>, len: nat) {
    forall i, j | 0 <= i < |addrs| && 0 <= j < |addrs| && i != j :: Apart(addrs[i], addrs[j], len)
  }

  ghost predicate Sized(blocks: seq<seq<byte>>, len: nat) {
    forall i | 0 <= i < |blocks| :: |blocks[i]| == len
  }

  /** Every block that has been written is there. */
  lemma {:induction false} StoredAt(mem: Memory, addrs: seq<Addr>, blocks: seq<seq<byte>>, n: nat, len: nat, i: nat)
    requires i < n <= |addrs| && n <= |blocks| && Disjoint(addrs, len) && Sized(blocks, len)
    ensures At(Stored(mem, addrs, blocks, n), addrs[i], blocks[i])
  {
    var before := Stored(mem, addrs, blocks, n - 1);
    if i == n - 1 {
      WriteAt(before, addrs[i], blocks[i]);
    } else {
      StoredAt(mem, addrs, blocks, n - 1, len, i);
      WriteKeeps(before, addrs[n - 1], blocks[n - 1], addrs[i], blocks[i]);
    }
  }
}
