/**
 `write_bulk_rmem` and `read_bulk_rmem`: a payload is cut into blocks, the blocks go out in batches and a last, shorter one, and bytes that do not fill a block go by
 themselves. Whatever the network does with the order of packets and answers, the operations do
 to memory and buffer what `BulkWritten` and `BulkRead` say, no more and no less.

 The bytes that do not fill a block are sent to the first address and taken from behind the first
 block of the last batch, so a payload longer than a block comes back only if it is a whole number
 of blocks: `RoundTripIff`.
 */
module BulkClient {
  import opened Words
  import opened Batches
  import opened BulkMemory
  import opened Bulk

  // ---------- blocks of a payload ----------

  ghost function BlockOf(data: seq<byte>, chunk: nat, n: nat, i: nat): (block: seq<byte>)
    requires Offset(n, chunk) <= |data| && i < n
    ensures IsBlock(data, chunk, i, block)
  {
    OffsetGrows(i, n, chunk);
    data[Offset(i, chunk)..Offset(i, chunk) + chunk]
  }

  ghost function Blocks(data: seq<byte>, chunk: nat, n: nat): (blocks: seq<seq<byte>>)
    requires Offset(n, chunk) <= |data|
    ensures |blocks| == n && Cut(data, chunk, blocks)
  {
    seq(n, i requires 0 <= i < n => BlockOf(data, chunk, n, i))
  }

  lemma {:induction false} OffsetAdds(i: nat, j: nat, chunk: nat)
    ensures Offset(i + j, chunk) == Offset(i, chunk) + Offset(j, chunk)
  {
    if j > 0 {
      OffsetAdds(i, j - 1, chunk);
    }
  }

  /** The blocks of a batch are blocks of the data from where the batch starts. */
  lemma {:induction false} CutFrom(data: seq<byte>, chunk: nat, blocks: seq<seq<byte>>, o: nat, m: nat)
    requires Cut(data, chunk, blocks) && o + m <= |blocks| && Offset(o, chunk) <= |data|
    ensures Cut(data[Offset(o, chunk)..], chunk, blocks[o..o + m])
  {
    var rest, batch := data[Offset(o, chunk)..], blocks[o..o + m];
    forall j | 0 <= j < m
      ensures IsBlock(rest, chunk, j, batch[j])
    {
      OffsetAdds(o, j, chunk);
      assert IsBlock(data, chunk, o + j, blocks[o + j]);
      SliceOfRest(data, Offset(o, chunk), Offset(j, chunk), chunk);
    }
  }

  lemma {:induction false} SliceOfRest(data: seq<byte>, a: nat, b: nat, n: nat)
    requires a + b + n <= |data|
    ensures data[a..][b..b + n] == data[a + b..a + b + n]
  {
  }

  lemma {:induction false} BlocksFit(size: nat, chunk: nat)
    requires chunk > 0
    ensures Offset(size / chunk, chunk) + size % chunk == size
  {
    OffsetIs(size / chunk, chunk);
  }

  /** Blocks joined again are the payload. */
  lemma {:induction false} JoinedBlocks(data: seq<byte>, chunk: nat, n: nat, k: nat)
    requires Offset(n, chunk) <= |data| && k <= n
    ensures Offset(k, chunk) <= |data| && Joined(Blocks(data, chunk, n)[..k]) == data[..Offset(k, chunk)]
  {
    if k > 0 {
      JoinedBlocks(data, chunk, n, k - 1);
      JoinedMore(Blocks(data, chunk, n), k - 1);
      OffsetGrows(k - 1, n, chunk);
      SplitAt(data, 0, Offset(k - 1, chunk), chunk);
    }
  }

  ghost predicate Addresses(addrs: seq<Addr>, chunk: nat) {
    Disjoint(addrs, chunk) && forall i | 0 <= i < |addrs| :: addrs[i].server < USHRT_MAX
  }

  // ---------- what the operations do ----------

  /** At most one block, or a whole number of them. */
  predicate Whole(size: nat, chunk: nat)
    requires chunk > 0
  {
    size <= chunk || size % chunk == 0
  }

  /** Where the operations look for the bytes that do not fill a block: behind the first block of
      the last batch. */
  function Rest(size: nat, chunk: nat): (p: nat)
    requires chunk > 0
  {
    var chunks := size / chunk;
    Offset(chunks - chunks % BATCH_SIZE + 1, chunk)
  }

  /** How far into the caller's buffer the operations reach. */
  function Reach(size: nat, chunk: nat): (r: nat)
    requires chunk > 0
    ensures size <= r && (!Whole(size, chunk) ==> Rest(size, chunk) + size % chunk <= r)
  {
    if Whole(size, chunk) || Rest(size, chunk) + size % chunk <= size then size
    else Rest(size, chunk) + size % chunk
  }

  /** There are enough addresses. */
  predicate Enough(addrs: seq<Addr>, size: nat, chunk: nat)
    requires chunk > 0
  {
    |addrs| > 0 && (size <= chunk || size / chunk <= |addrs|)
  }

  ghost function BlocksOf(payload: seq<byte>, size: nat, chunk: nat): (blocks: seq<seq<byte>>)
    requires chunk > 0 && size <= |payload|
    ensures |blocks| == size / chunk && Cut(payload, chunk, blocks)
  {
    BlocksFit(size, chunk);
    Blocks(payload, chunk, size / chunk)
  }

  /** The memory after `write_bulk_rmem`. */
  ghost function BulkWritten(mem: Memory, addrs: seq<Addr>, payload: seq<byte>, size: nat, chunk: nat): (m: Memory)
    requires chunk > 0 && Enough(addrs, size, chunk) && Reach(size, chunk) <= |payload|
  {
    if size <= chunk then Write(mem, addrs[0], payload[..size])
    else
      var m := Stored(mem, addrs, BlocksOf(payload, size, chunk), size / chunk);
      if size % chunk == 0 then m
      else Write(m, addrs[0], payload[Rest(size, chunk)..Rest(size, chunk) + size % chunk])
  }

  /** There is memory where `read_bulk_rmem` reads. */
  ghost predicate Readable(mem: Memory, addrs: seq<Addr>, size: nat, chunk: nat)
    requires chunk > 0 && Enough(addrs, size, chunk)
  {
    if size <= chunk then Present(mem, addrs[0], size) else Backed(mem, addrs[..size / chunk], chunk)
  }

  /** All whole blocks, one after the other. */
  ghost function Gathered(mem: Memory, addrs: seq<Addr>, size: nat, chunk: nat): (data: seq<byte>)
    requires chunk < size && chunk > 0 && Enough(addrs, size, chunk) && Readable(mem, addrs, size, chunk)
    ensures |data| <= size
  {
    var blocks := Loads(mem, addrs[..size / chunk], chunk);
    JoinedSize(blocks, chunk);
    BlocksFit(size, chunk);
    Joined(blocks)
  }

  /** The buffer after `read_bulk_rmem`. */
  ghost function BulkRead(buf: seq<byte>, mem: Memory, addrs: seq<Addr>, size: nat, chunk: nat): (r: seq<byte>)
    requires chunk > 0 && Enough(addrs, size, chunk) && Reach(size, chunk) <= |buf| && Readable(mem, addrs, size, chunk)
    ensures |r| == |buf|
  {
    if size <= chunk then Splice(buf, 0, Load(mem, addrs[0], size))
    else
      var b := Splice(buf, 0, Gathered(mem, addrs, size, chunk));
      if size % chunk == 0 then b
      else
        FirstPresent(mem, addrs, size, chunk);
        Splice(b, Rest(size, chunk), Load(mem, addrs[0], size % chunk))
  }

  lemma {:induction false} FirstPresent(mem: Memory, addrs: seq<Addr>, size: nat, chunk: nat)
    requires 0 < chunk < size && Enough(addrs, size, chunk) && Readable(mem, addrs, size, chunk)
    ensures Present(mem, addrs[0], size % chunk)
  {
    assert size / chunk > 0;
    assert addrs[..size / chunk][0] == addrs[0];
    assert Present(mem, addrs[0], chunk);
  }

  // ---------- writing ----------

  /** The first n blocks have been written. */
  ghost predicate Holds(mem: Memory, mem0: Memory, addrs: seq<Addr>, blocks: seq<seq<byte>>, n: nat)
    requires n <= |addrs| && n <= |blocks|
  {
    mem == Stored(mem0, addrs, blocks, n)
  }

  /** One batch: the m blocks from block o on. */
  method WriteFrom(cluster: Cluster, addrs: seq<Addr>, data: seq<byte>, chunk: nat, o: nat, m: nat, ghost mem0: Memory,
                   ghost blocks: seq<seq<byte>>)
    requires Addresses(addrs, chunk) && Cut(data, chunk, blocks) && |blocks| <= |addrs|
    requires o + m <= |blocks| && m < HALF && Offset(|blocks|, chunk) <= |data|
    requires Holds(cluster.mem, mem0, addrs, blocks, o)
    modifies cluster
    ensures Holds(cluster.mem, mem0, addrs, blocks, o + m)
  {
    OffsetAdds(o, |blocks| - o, chunk);
    CutFrom(data, chunk, blocks, o, m);
    BatchWrite(cluster, addrs[o..o + m], data[Offset(o, chunk)..], chunk, blocks[o..o + m]);
    StoredMore(mem0, addrs, blocks, o, addrs[o..o + m], blocks[o..o + m], m);
  }

  /** The full batches, then the rest. */
  method WriteBatches(cluster: Cluster, addrs: seq<Addr>, data: seq<byte>, chunk: nat, chunks: nat,
                      ghost blocks: seq<seq<byte>>)
    requires Addresses(addrs, chunk) && Cut(data, chunk, blocks) && |blocks| == chunks <= |addrs|
    requires Offset(chunks, chunk) <= |data|
    modifies cluster
    ensures Holds(cluster.mem, old(cluster.mem), addrs, blocks, chunks)
  {
    var batches, residual := chunks / BATCH_SIZE, chunks % BATCH_SIZE;
    ghost var mem := cluster.mem;
    var o := 0;
    for i := 0 to batches
      invariant o == i * BATCH_SIZE && Holds(cluster.mem, mem, addrs, blocks, o)
    {
      WriteFrom(cluster, addrs, data, chunk, o, BATCH_SIZE, mem, blocks);
      o := o + BATCH_SIZE;
    }
    WriteFrom(cluster, addrs, data, chunk, o, residual, mem, blocks);
  }

  /** `write_bulk_rmem`. */
  method WriteBulk(cluster: Cluster, addrs: seq<Addr>, payload: seq<byte>, size: nat, chunk: nat) returns (ok: bool)
    requires chunk > 0 && |addrs| > 0 && Addresses(addrs, chunk) && Reach(size, chunk) <= |payload|
    modifies cluster
    ensures ok <==> Enough(addrs, size, chunk)
    ensures ok ==> cluster.mem == BulkWritten(old(cluster.mem), addrs, payload, size, chunk)
    ensures !ok ==> cluster.mem == old(cluster.mem)
  {
    if size <= chunk {
      cluster.mem := Write(cluster.mem, addrs[0], payload[..size]);
      return true;
    }
    var chunks, residual := size / chunk, size % chunk;
    if chunks > |addrs| {
      return false;
    }
    BlocksFit(size, chunk);
    WriteBatches(cluster, addrs, payload, chunk, chunks, BlocksOf(payload, size, chunk));
    if residual > 0 {
      var from := Rest(size, chunk);
      cluster.mem := Write(cluster.mem, addrs[0], payload[from..from + residual]);
    }
    return true;
  }

  // ---------- reading ----------

  lemma {:induction false} JoinedCat(a: seq<seq<byte>>, b: seq<seq<byte>>)
    ensures Joined(a + b) == Joined(a) + Joined(b)
  {
    if b == [] {
      assert a + b == a;
    } else {
      JoinedCat(a, b[..|b| - 1]);
      assert (a + b)[..|a + b| - 1] == a + b[..|b| - 1];
    }
  }

  lemma {:induction false} SpliceTwice(buf: seq<byte>, a: seq<byte>, b: seq<byte>)
    requires |a| + |b| <= |buf|
    ensures Splice(Splice(buf, 0, a), |a|, b) == Splice(buf, 0, a + b)
  {
  }

  /** The first n blocks are in the buffer. */
  ghost predicate Filled(buf0: seq<byte>, buf: seq<byte>, mem: Memory, addrs: seq<Addr>, chunk: nat, n: nat)
    requires n <= |addrs| && Backed(mem, addrs, chunk)
  {
    var data := Joined(Loads(mem, addrs, chunk)[..n]);
    |data| == Offset(n, chunk) <= |buf0| && buf == Splice(buf0, 0, data)
  }

  lemma {:induction false} FilledMore(buf0: seq<byte>, buf: seq<byte>, mem: Memory, addrs: seq<Addr>, chunk: nat,
                                      o: nat, m: nat)
    requires o + m <= |addrs| && Backed(mem, addrs, chunk) && Backed(mem, addrs[o..o + m], chunk)
    requires Filled(buf0, buf, mem, addrs, chunk, o) && Offset(o + m, chunk) <= |buf0|
    ensures var more := Joined(Loads(mem, addrs[o..o + m], chunk));
            && Offset(o, chunk) + |more| <= |buf|
            && Filled(buf0, Splice(buf, Offset(o, chunk), more), mem, addrs, chunk, o + m)
  {
    var blocks, batch := Loads(mem, addrs, chunk), Loads(mem, addrs[o..o + m], chunk);
    assert blocks[..o + m] == blocks[..o] + batch;
    JoinedCat(blocks[..o], batch);
    JoinedSize(batch, chunk);
    OffsetAdds(o, m, chunk);
    SpliceTwice(buf0, Joined(blocks[..o]), Joined(batch));
  }

  /** One batch: the m blocks from block o on. */
  method ReadFrom(cluster: Cluster, addrs: seq<Addr>, buffer: array<byte>, chunk: nat, o: nat, m: nat,
                  ghost buf0: seq<byte>)
    requires Addresses(addrs, chunk) && chunk < HALF && Backed(cluster.mem, addrs, chunk)
    requires o + m <= |addrs| && m < HALF && Offset(o + m, chunk) <= buffer.Length
    requires Filled(buf0, buffer[..], cluster.mem, addrs, chunk, o)
    modifies buffer
    ensures Filled(buf0, buffer[..], cluster.mem, addrs, chunk, o + m)
  {
    OffsetAdds(o, m, chunk);
    FilledMore(buf0, buffer[..], cluster.mem, addrs, chunk, o, m);
    BatchRead(cluster, addrs[o..o + m], buffer, Offset(o, chunk), chunk);
  }

  method ReadBatches(cluster: Cluster, addrs: seq<Addr>, buffer: array<byte>, chunk: nat)
    requires Addresses(addrs, chunk) && chunk < HALF && Backed(cluster.mem, addrs, chunk)
    requires Offset(|addrs|, chunk) <= buffer.Length
    modifies buffer
    ensures Filled(old(buffer[..]), buffer[..], cluster.mem, addrs, chunk, |addrs|)
  {
    var chunks := |addrs|;
    var batches, residual := chunks / BATCH_SIZE, chunks % BATCH_SIZE;
    ghost var buf := buffer[..];
    var o := 0;
    for i := 0 to batches
      invariant o == i * BATCH_SIZE && Filled(buf, buffer[..], cluster.mem, addrs, chunk, o)
    {
      OffsetAdds(o + BATCH_SIZE, chunks - (o + BATCH_SIZE), chunk);
      ReadFrom(cluster, addrs, buffer, chunk, o, BATCH_SIZE, buf);
      o := o + BATCH_SIZE;
    }
    ReadFrom(cluster, addrs, buffer, chunk, o, residual, buf);
  }

  /** All whole blocks. */
  method ReadBlocks(cluster: Cluster, addrs: seq<Addr>, buffer: array<byte>, ghost size: nat, chunk: nat, chunks: nat)
    requires 0 < chunk < HALF && chunk < size <= buffer.Length && chunks == size / chunk && Addresses(addrs, chunk)
    requires Enough(addrs, size, chunk) && Readable(cluster.mem, addrs, size, chunk)
    modifies buffer
    ensures buffer[..] == Splice(old(buffer[..]), 0, Gathered(cluster.mem, addrs, size, chunk))
  {
    BlocksFit(size, chunk);
    ReadBatches(cluster, addrs[..chunks], buffer, chunk);
    ghost var blocks := Loads(cluster.mem, addrs[..chunks], chunk);
    assert blocks[..chunks] == blocks;
  }

  /** `read_bulk_rmem`. */
  method ReadBulk(cluster: Cluster, addrs: seq<Addr>, buffer: array<byte>, size: nat, chunk: nat) returns (ok: bool)
    requires 0 < chunk < HALF && |addrs| > 0 && Addresses(addrs, chunk) && Reach(size, chunk) <= buffer.Length
    requires Enough(addrs, size, chunk) ==> Readable(cluster.mem, addrs, size, chunk)
    modifies buffer
    ensures ok <==> Enough(addrs, size, chunk)
    ensures ok ==> buffer[..] == BulkRead(old(buffer[..]), cluster.mem, addrs, size, chunk)
    ensures !ok ==> buffer[..] == old(buffer[..])
  {
    if size <= chunk {
      CopyIn(buffer, 0, Load(cluster.mem, addrs[0], size));
      return true;
    }
    var chunks, residual := size / chunk, size % chunk;
    if chunks > |addrs| {
      return false;
    }
    ReadBlocks(cluster, addrs, buffer, size, chunk, chunks);
    if residual > 0 {
      FirstPresent(cluster.mem, addrs, size, chunk);
      CopyIn(buffer, Rest(size, chunk), Load(cluster.mem, addrs[0], residual));
    }
    return true;
  }

  // ---------- round trips ----------

  lemma {:induction false} StoredLoads(mem: Memory, addrs: seq<Addr>, blocks: seq<seq<byte>>, n: nat, chunk: nat)
    requires n <= |addrs| && n == |blocks| && Disjoint(addrs, chunk) && Sized(blocks, chunk)
    ensures Backed(Stored(mem, addrs, blocks, n), addrs[..n], chunk)
    ensures Loads(Stored(mem, addrs, blocks, n), addrs[..n], chunk) == blocks
  {
    forall i | 0 <= i < n
      ensures Present(Stored(mem, addrs, blocks, n), addrs[i], chunk)
      ensures Load(Stored(mem, addrs, blocks, n), addrs[i], chunk) == blocks[i]
    {
      StoredAt(mem, addrs, blocks, n, chunk, i);
      AtLoads(Stored(mem, addrs, blocks, n), addrs[i], blocks[i]);
    }
  }

  lemma {:induction false} WriteBacked(mem: Memory, a: Addr, data: seq<byte>, addrs: seq<Addr>, chunk: nat)
    requires Backed(mem, addrs, chunk)
    ensures Backed(Write(mem, a, data), addrs, chunk)
  {
    forall i | 0 <= i < |addrs|
      ensures Present(Write(mem, a, data), addrs[i], chunk)
    {
      WritePresent(mem, a, data, addrs[i], chunk);
    }
  }

  lemma {:induction false} WritePresent(mem: Memory, a: Addr, data: seq<byte>, b: Addr, len: nat)
    requires Present(mem, b, len)
    ensures Present(Write(mem, a, data), b, len)
  {
    forall l: Loc | InRange(l, b, len)
      ensures l in Write(mem, a, data).bytes
    {
      WriteIs(mem, a, data, l);
    }
  }

  /** What was written can be read. */
  lemma {:induction false} WrittenReadable(mem: Memory, addrs: seq<Addr>, payload: seq<byte>, size: nat, chunk: nat)
    requires chunk > 0 && Enough(addrs, size, chunk) && Reach(size, chunk) <= |payload| && Disjoint(addrs, chunk)
    ensures Readable(BulkWritten(mem, addrs, payload, size, chunk), addrs, size, chunk)
  {
    if size <= chunk {
      WriteAt(mem, addrs[0], payload[..size]);
      AtLoads(Write(mem, addrs[0], payload[..size]), addrs[0], payload[..size]);
    } else {
      BlocksReadable(mem, addrs, payload, size, chunk);
      if size % chunk > 0 {
        WriteBacked(Stored(mem, addrs, BlocksOf(payload, size, chunk), size / chunk), addrs[0],
                    payload[Rest(size, chunk)..Rest(size, chunk) + size % chunk], addrs[..size / chunk], chunk);
      }
    }
  }

  lemma {:induction false} BlocksReadable(mem: Memory, addrs: seq<Addr>, payload: seq<byte>, size: nat, chunk: nat)
    requires 0 < chunk < size <= |payload| && Enough(addrs, size, chunk) && Disjoint(addrs, chunk)
    ensures Backed(Stored(mem, addrs, BlocksOf(payload, size, chunk), size / chunk), addrs[..size / chunk], chunk)
  {
    var blocks := BlocksOf(payload, size, chunk);
    CutSized(payload, chunk, blocks);
    StoredLoads(mem, addrs, blocks, size / chunk, chunk);
  }

  /** A bulk write, and then a bulk read into this buffer. */
  ghost function BackAgain(buf: seq<byte>, mem: Memory, addrs: seq<Addr>, payload: seq<byte>, size: nat, chunk: nat)
    : (r: seq<byte>)
    requires chunk > 0 && Enough(addrs, size, chunk) && Disjoint(addrs, chunk)
    requires Reach(size, chunk) <= |payload| && Reach(size, chunk) <= |buf|
    ensures |r| == |buf|
  {
    WrittenReadable(mem, addrs, payload, size, chunk);
    BulkRead(buf, BulkWritten(mem, addrs, payload, size, chunk), addrs, size, chunk)
  }

  lemma {:induction false} WholeComesBack(buf: seq<byte>, mem: Memory, addrs: seq<Addr>, payload: seq<byte>, size: nat,
                                          chunk: nat)
    requires chunk > 0 && Enough(addrs, size, chunk) && Disjoint(addrs, chunk) && Whole(size, chunk)
    requires size <= |payload| && size <= |buf|
    ensures BackAgain(buf, mem, addrs, payload, size, chunk) == Splice(buf, 0, payload[..size])
  {
    WrittenReadable(mem, addrs, payload, size, chunk);
    if size <= chunk {
      WriteAt(mem, addrs[0], payload[..size]);
      AtLoads(Write(mem, addrs[0], payload[..size]), addrs[0], payload[..size]);
    } else {
      var blocks := BlocksOf(payload, size, chunk);
      BlocksFit(size, chunk);
      CutSized(payload, chunk, blocks);
      StoredLoads(mem, addrs, blocks, size / chunk, chunk);
      JoinedBlocks(payload, chunk, size / chunk, size / chunk);
      assert blocks[..size / chunk] == blocks;
    }
  }

  /** A one, and then zeros. */
  function Spike(n: nat): (payload: seq<byte>)
    ensures |payload| == n
  {
    seq(n, i => if i == 0 then 1 else 0)
  }

  /** The bytes that do not fill a block overwrite the front of the first one. */
  lemma {:induction false} PartLoses(buf: seq<byte>, mem: Memory, addrs: seq<Addr>, size: nat, chunk: nat)
    requires chunk > 0 && Enough(addrs, size, chunk) && Disjoint(addrs, chunk) && !Whole(size, chunk)
    requires Reach(size, chunk) <= |buf|
    ensures BackAgain(buf, mem, addrs, Spike(Reach(size, chunk)), size, chunk)[0] == 0
  {
    var payload := Spike(Reach(size, chunk));
    WrittenReadable(mem, addrs, payload, size, chunk);
    var m := BulkWritten(mem, addrs, payload, size, chunk);
    RestIsBehind(size, chunk);
    var part := payload[Rest(size, chunk)..Rest(size, chunk) + size % chunk];
    var before := Stored(mem, addrs, BlocksOf(payload, size, chunk), size / chunk);
    assert m == Write(before, addrs[0], part);
    WriteIs(before, addrs[0], part, Loc(addrs[0].server, addrs[0].paddr));
    FirstByte(m, addrs, size, chunk);
  }

  lemma {:induction false} RestIsBehind(size: nat, chunk: nat)
    requires 0 < chunk < size
    ensures Rest(size, chunk) >= chunk
  {
    OffsetGrows(0, size / chunk - size / chunk % BATCH_SIZE + 1, chunk);
  }

  /** The first byte read is the first byte at the first address. */
  lemma {:induction false} FirstByte(mem: Memory, addrs: seq<Addr>, size: nat, chunk: nat)
    requires 0 < chunk < size && Enough(addrs, size, chunk) && Readable(mem, addrs, size, chunk)
    ensures Loc(addrs[0].server, addrs[0].paddr) in mem.bytes
    ensures |Gathered(mem, addrs, size, chunk)| > 0
    ensures Gathered(mem, addrs, size, chunk)[0] == mem.bytes[Loc(addrs[0].server, addrs[0].paddr)]
  {
    var blocks := Loads(mem, addrs[..size / chunk], chunk);
    assert addrs[..size / chunk][0] == addrs[0];
    assert Present(mem, addrs[0], chunk);
    assert InRange(Loc(addrs[0].server, addrs[0].paddr), addrs[0], chunk);
    JoinedFirst(blocks);
  }

  lemma {:induction false} JoinedFirst(blocks: seq<seq<byte>>)
    requires blocks != [] && blocks[0] != []
    ensures Joined(blocks) != [] && Joined(blocks)[0] == blocks[0][0]
  {
    if |blocks| > 1 {
      JoinedFirst(blocks[..|blocks| - 1]);
    } else {
      assert blocks[..0] == [];
    }
  }

  /** Every payload of this size comes back. */
  ghost predicate ComesBack(addrs: seq<Addr>, size: nat, chunk: nat)
    requires chunk > 0 && Enough(addrs, size, chunk) && Disjoint(addrs, chunk)
  {
    forall buf: seq<byte>, mem: Memory, payload: seq<byte> |
      Reach(size, chunk) <= |payload| && Reach(size, chunk) <= |buf| ::
      BackAgain(buf, mem, addrs, payload, size, chunk)[..size] == payload[..size]
  }

  /** A bulk read after a bulk write returns every payload of a size if and only if that is at most
      a block or a whole number of blocks. */
  lemma {:induction false} RoundTripIff(addrs: seq<Addr>, size: nat, chunk: nat)
    requires chunk > 0 && Enough(addrs, size, chunk) && Disjoint(addrs, chunk)
    ensures ComesBack(addrs, size, chunk) <==> Whole(size, chunk)
  {
    if Whole(size, chunk) {
      forall buf: seq<byte>, mem: Memory, payload: seq<byte> |
        Reach(size, chunk) <= |payload| && Reach(size, chunk) <= |buf|
        ensures BackAgain(buf, mem, addrs, payload, size, chunk)[..size] == payload[..size]
      {
        WholeComesBack(buf, mem, addrs, payload, size, chunk);
      }
    } else {
      var payload := Spike(Reach(size, chunk));
      PartLoses(payload, Memory(map[]), addrs, size, chunk);
      assert BackAgain(payload, Memory(map[]), addrs, payload, size, chunk)[..size][0] != payload[..size][0];
    }
  }

  /** A bulk read after a bulk write. */
  method RoundTrip(cluster: Cluster, addrs: seq<Addr>, payload: seq<byte>, size: nat, chunk: nat)
    returns (ok: bool, buffer: array<byte>)
    requires 0 < chunk < HALF && |addrs| > 0 && Addresses(addrs, chunk) && Reach(size, chunk) <= |payload|
    modifies cluster
    ensures ok <==> Enough(addrs, size, chunk)
    ensures ok ==> cluster.mem == BulkWritten(old(cluster.mem), addrs, payload, size, chunk)
    ensures fresh(buffer) && buffer.Length == Reach(size, chunk)
    ensures ok && Whole(size, chunk) ==> buffer[..size] == payload[..size]
  {
    buffer := new byte[Reach(size, chunk)](_ => 0);
    ok := WriteBulk(cluster, addrs, payload, size, chunk);
    if ok {
      WrittenReadable(old(cluster.mem), addrs, payload, size, chunk);
      ghost var buf := buffer[..];
      ok := ReadBulk(cluster, addrs, buffer, size, chunk);
      if Whole(size, chunk) {
        WholeComesBack(buf, old(cluster.mem), addrs, payload, size, chunk);
        assert buffer[..size] == buffer[..][..size];
      }
    }
  }
}
