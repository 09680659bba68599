/**
 Where the bytes of a bulk transfer are: for every byte of the payload, the server and the pointer
 that `write_bulk_rmem` puts it at, and for every byte of the buffer, where `read_bulk_rmem` takes
 it from. Block i of a payload of more than one block is at address i; what does not fill a block
 goes to the first address, and comes from behind the first block of the last batch.
 */
module BulkPlaces {
  import opened Words
  import opened Batches
  import opened BulkMemory
  import opened Bulk
  import opened BulkClient

  // ---------- writing ----------

  /** At most one block. */
  lemma {:induction false} WrittenFirst(mem: Memory, addrs: seq<Addr>, payload: seq<byte>, size: nat, chunk: nat,
                                        l: Loc)
    requires chunk > 0 && size <= chunk && |addrs| > 0 && size <= |payload|
    ensures if InRange(l, addrs[0], size)
            then Has(BulkWritten(mem, addrs, payload, size, chunk), l, payload[l.addr - addrs[0].paddr])
            else Same(mem, BulkWritten(mem, addrs, payload, size, chunk), l)
  {
    WriteIs(mem, addrs[0], payload[..size], l);
  }

  lemma {:induction false} StoredElsewhere(mem: Memory, addrs: seq<Addr>, blocks: seq<seq<byte>>, n: nat, len: nat,
                                           l: Loc)
    requires n <= |addrs| && n <= |blocks| && Sized(blocks, len)
    requires forall i | 0 <= i < n :: !InRange(l, addrs[i], len)
    ensures Same(mem, Stored(mem, addrs, blocks, n), l)
  {
    if n > 0 {
      StoredElsewhere(mem, addrs, blocks, n - 1, len, l);
      WriteIs(Stored(mem, addrs, blocks, n - 1), addrs[n - 1], blocks[n - 1], l);
    }
  }

  /** Where the last part is taken from. */
  lemma {:induction false} RestIs(size: nat, chunk: nat)
    requires chunk > 0
    ensures Rest(size, chunk) == (size / chunk - size / chunk % BATCH_SIZE + 1) * chunk
  {
    OffsetIs(size / chunk - size / chunk % BATCH_SIZE + 1, chunk);
  }

  lemma {:induction false} InBlock(size: nat, chunk: nat, i: nat, x: nat)
    requires chunk > 0 && i < size / chunk && x < chunk
    ensures Offset(i, chunk) == i * chunk && 0 <= i * chunk + x < size
  {
    OffsetIs(i, chunk);
    OffsetGrows(i, size / chunk, chunk);
    BlocksFit(size, chunk);
  }

  /** Byte x of block i, before the last part is written. */
  lemma {:induction false} BlockStored(mem: Memory, addrs: seq<Addr>, payload: seq<byte>, size: nat, chunk: nat, i: nat,
                                       x: nat, j: nat)
    requires 0 < chunk < size <= |payload| && Enough(addrs, size, chunk) && Disjoint(addrs, chunk)
    requires i < size / chunk && x < chunk && j == i * chunk + x
    ensures j < size
    ensures Has(Stored(mem, addrs, BlocksOf(payload, size, chunk), size / chunk),
                Loc(addrs[i].server, addrs[i].paddr + x), payload[j])
  {
    var blocks := BlocksOf(payload, size, chunk);
    CutSized(payload, chunk, blocks);
    StoredAt(mem, addrs, blocks, size / chunk, chunk, i);
    InBlock(size, chunk, i, x);
    assert IsBlock(payload, chunk, i, blocks[i]);
    assert blocks[i][x] == payload[j];
    assert InRange(Loc(addrs[i].server, addrs[i].paddr + x), addrs[i], |blocks[i]|);
  }

  /** More than one block: byte x of block i is at address i, unless the last part, which is taken
      from the position `from` on, overwrites it. */
  lemma {:induction false} WrittenAt(mem: Memory, addrs: seq<Addr>, payload: seq<byte>, size: nat, chunk: nat, i: nat,
                                     x: nat, from: nat, j: nat)
    requires 0 < chunk < size && Enough(addrs, size, chunk) && Reach(size, chunk) <= |payload| && Disjoint(addrs, chunk)
    requires i < size / chunk && x < chunk
    requires from == (size / chunk - size / chunk % BATCH_SIZE + 1) * chunk
    requires j == if i == 0 && x < size % chunk then from + x else i * chunk + x
    ensures j < |payload|
    ensures Has(BulkWritten(mem, addrs, payload, size, chunk), Loc(addrs[i].server, addrs[i].paddr + x), payload[j])
  {
    RestIs(size, chunk);
    InBlock(size, chunk, i, x);
    WrittenOver(mem, addrs, payload, size, chunk, i, x, from, i * chunk + x);
  }

  lemma {:induction false} WrittenOver(mem: Memory, addrs: seq<Addr>, payload: seq<byte>, size: nat, chunk: nat, i: nat,
                                       x: nat, from: nat, j: nat)
    requires 0 < chunk < size && Enough(addrs, size, chunk) && Reach(size, chunk) <= |payload| && Disjoint(addrs, chunk)
    requires i < size / chunk && x < chunk && from == Rest(size, chunk) && j == i * chunk + x
    ensures j < |payload| && (x < size % chunk ==> from + x < |payload|)
    ensures Has(BulkWritten(mem, addrs, payload, size, chunk), Loc(addrs[i].server, addrs[i].paddr + x),
                payload[if i == 0 && x < size % chunk then from + x else j])
  {
    BlockStored(mem, addrs, payload, size, chunk, i, x, j);
    if size % chunk > 0 {
      PartWritten(Stored(mem, addrs, BlocksOf(payload, size, chunk), size / chunk), addrs, payload, from,
                  size % chunk, chunk, i, x);
    }
  }

  /** A whole number of blocks. */
  lemma {:induction false} WrittenWhole(mem: Memory, addrs: seq<Addr>, payload: seq<byte>, size: nat, chunk: nat,
                                        i: nat, x: nat, j: nat)
    requires 0 < chunk < size && size % chunk == 0 && Enough(addrs, size, chunk) && size <= |payload|
    requires Disjoint(addrs, chunk) && i < size / chunk && x < chunk && j == i * chunk + x
    ensures j < size
    ensures Has(BulkWritten(mem, addrs, payload, size, chunk), Loc(addrs[i].server, addrs[i].paddr + x), payload[j])
  {
    BlockStored(mem, addrs, payload, size, chunk, i, x, j);
  }

  /** The last part overwrites the front of the first block and nothing else. */
  lemma {:induction false} PartWritten(mem: Memory, addrs: seq<Addr>, payload: seq<byte>, from: nat, rest: nat,
                                       chunk: nat, i: nat, x: nat)
    requires rest <= chunk && from + rest <= |payload| && Disjoint(addrs, chunk) && i < |addrs| && x < chunk
    ensures var l := Loc(addrs[i].server, addrs[i].paddr + x);
            var m := Write(mem, addrs[0], payload[from..from + rest]);
            if i == 0 && x < rest then Has(m, l, payload[from + x]) else Same(mem, m, l)
  {
    WriteIs(mem, addrs[0], payload[from..from + rest], Loc(addrs[i].server, addrs[i].paddr + x));
    assert i != 0 ==> Apart(addrs[i], addrs[0], chunk);
  }

  /** What is at none of the addresses stays. */
  lemma {:induction false} WrittenElsewhere(mem: Memory, addrs: seq<Addr>, payload: seq<byte>, size: nat, chunk: nat,
                                            l: Loc)
    requires 0 < chunk < size && Enough(addrs, size, chunk) && Reach(size, chunk) <= |payload|
    requires forall i | 0 <= i < size / chunk :: !InRange(l, addrs[i], chunk)
    ensures Same(mem, BulkWritten(mem, addrs, payload, size, chunk), l)
  {
    var blocks := BlocksOf(payload, size, chunk);
    CutSized(payload, chunk, blocks);
    StoredElsewhere(mem, addrs, blocks, size / chunk, chunk, l);
    if size % chunk > 0 {
      assert !InRange(l, addrs[0], chunk);
      WriteIs(Stored(mem, addrs, blocks, size / chunk), addrs[0],
              payload[Rest(size, chunk)..Rest(size, chunk) + size % chunk], l);
    }
  }

  // ---------- reading ----------

  /** At most one block. */
  lemma {:induction false} ReadFirst(buf: seq<byte>, mem: Memory, addrs: seq<Addr>, size: nat, chunk: nat, j: nat)
    requires chunk > 0 && size <= chunk && |addrs| > 0 && Present(mem, addrs[0], size) && size <= |buf| && j < |buf|
    ensures if j < size
            then Has(mem, Loc(addrs[0].server, addrs[0].paddr + j), BulkRead(buf, mem, addrs, size, chunk)[j])
            else BulkRead(buf, mem, addrs, size, chunk)[j] == buf[j]
  {
    if j < size {
      assert InRange(Loc(addrs[0].server, addrs[0].paddr + j), addrs[0], size);
    }
  }

  lemma {:induction false} JoinedAt(blocks: seq<seq<byte>>, chunk: nat, i: nat, x: nat)
    requires Sized(blocks, chunk) && i < |blocks| && x < chunk
    ensures i * chunk + x < |Joined(blocks)| && Joined(blocks)[i * chunk + x] == blocks[i][x]
  {
    var last := |blocks| - 1;
    JoinedSize(blocks, chunk);
    JoinedSize(blocks[..last], chunk);
    OffsetIs(last, chunk);
    if i < last {
      JoinedAt(blocks[..last], chunk, i, x);
    }
  }

  /** More than one block: byte x of block i comes from address i, unless the last part, which goes to
      the position `from`, is put over it. */
  lemma {:induction false} ReadAt(buf: seq<byte>, mem: Memory, addrs: seq<Addr>, size: nat, chunk: nat, i: nat, x: nat,
                                  from: nat, j: nat)
    requires 0 < chunk < size && Enough(addrs, size, chunk) && Readable(mem, addrs, size, chunk)
    requires Reach(size, chunk) <= |buf| && i < size / chunk && x < chunk
    requires from == (size / chunk - size / chunk % BATCH_SIZE + 1) * chunk && j == i * chunk + x
    ensures j < |buf|
    ensures if from <= j < from + size % chunk
            then Has(mem, Loc(addrs[0].server, addrs[0].paddr + j - from), BulkRead(buf, mem, addrs, size, chunk)[j])
            else Has(mem, Loc(addrs[i].server, addrs[i].paddr + x), BulkRead(buf, mem, addrs, size, chunk)[j])
  {
    GatheredAt(mem, addrs, size, chunk, i, x, j);
    RestIs(size, chunk);
    FirstPresent(mem, addrs, size, chunk);
    PartRead(mem, addrs, size, chunk, j);
  }

  lemma {:induction false} GatheredAt(mem: Memory, addrs: seq<Addr>, size: nat, chunk: nat, i: nat, x: nat, j: nat)
    requires 0 < chunk < size && Enough(addrs, size, chunk) && Readable(mem, addrs, size, chunk)
    requires i < size / chunk && x < chunk && j == i * chunk + x
    ensures j < |Gathered(mem, addrs, size, chunk)|
    ensures Has(mem, Loc(addrs[i].server, addrs[i].paddr + x), Gathered(mem, addrs, size, chunk)[j])
  {
    JoinedAt(Loads(mem, addrs[..size / chunk], chunk), chunk, i, x);
    assert Present(mem, addrs[..size / chunk][i], chunk);
    assert InRange(Loc(addrs[i].server, addrs[i].paddr + x), addrs[i], chunk);
  }

  /** A whole number of blocks. */
  lemma {:induction false} ReadWhole(buf: seq<byte>, mem: Memory, addrs: seq<Addr>, size: nat, chunk: nat, i: nat,
                                     x: nat, j: nat)
    requires 0 < chunk < size <= |buf| && size % chunk == 0 && Enough(addrs, size, chunk)
    requires Readable(mem, addrs, size, chunk) && i < size / chunk && x < chunk && j == i * chunk + x
    ensures j < |buf|
    ensures Has(mem, Loc(addrs[i].server, addrs[i].paddr + x), BulkRead(buf, mem, addrs, size, chunk)[j])
  {
    GatheredAt(mem, addrs, size, chunk, i, x, j);
  }

  lemma {:induction false} WholeBehind(buf: seq<byte>, mem: Memory, addrs: seq<Addr>, size: nat, chunk: nat, j: nat)
    requires 0 < chunk < size <= j < |buf| && size % chunk == 0 && Enough(addrs, size, chunk)
    requires Readable(mem, addrs, size, chunk)
    ensures BulkRead(buf, mem, addrs, size, chunk)[j] == buf[j]
  {
  }

  /** The bytes of the last part. */
  lemma {:induction false} PartRead(mem: Memory, addrs: seq<Addr>, size: nat, chunk: nat, j: nat)
    requires 0 < chunk < size && |addrs| > 0 && Present(mem, addrs[0], size % chunk)
    ensures Rest(size, chunk) <= j < Rest(size, chunk) + size % chunk ==>
              Has(mem, Loc(addrs[0].server, addrs[0].paddr + j - Rest(size, chunk)),
                  Load(mem, addrs[0], size % chunk)[j - Rest(size, chunk)])
  {
    if Rest(size, chunk) <= j < Rest(size, chunk) + size % chunk {
      assert InRange(Loc(addrs[0].server, addrs[0].paddr + j - Rest(size, chunk)), addrs[0], size % chunk);
    }
  }

  /** Behind the whole blocks there is the last part, or what was there before. */
  lemma {:induction false} ReadBehind(buf: seq<byte>, mem: Memory, addrs: seq<Addr>, size: nat, chunk: nat, from: nat,
                                      j: nat)
    requires 0 < chunk < size && Enough(addrs, size, chunk) && Readable(mem, addrs, size, chunk)
    requires Reach(size, chunk) <= |buf| && size / chunk * chunk <= j < |buf|
    requires from == (size / chunk - size / chunk % BATCH_SIZE + 1) * chunk
    ensures if from <= j < from + size % chunk
            then Has(mem, Loc(addrs[0].server, addrs[0].paddr + j - from), BulkRead(buf, mem, addrs, size, chunk)[j])
            else BulkRead(buf, mem, addrs, size, chunk)[j] == buf[j]
  {
    JoinedSize(Loads(mem, addrs[..size / chunk], chunk), chunk);
    OffsetIs(size / chunk, chunk);
    RestIs(size, chunk);
    FirstPresent(mem, addrs, size, chunk);
    PartRead(mem, addrs, size, chunk, j);
  }
}
