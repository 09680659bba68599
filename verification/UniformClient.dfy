/**
 `write_uniform_rmem` and `read_uniform_rmem`: a range of blocks on one server is expanded into a
 list of addresses and handed to the bulk operations. A payload that has room goes, byte for byte,
 to consecutive pointers from the offset of the range on, and nothing else changes. Both operations
 report success in any case.
 */
module UniformClient {
  import opened Words
  import opened Batches
  import opened BulkMemory
  import opened Bulk
  import opened BulkClient
  import opened BulkPlaces

  /** A range of blocks on one server. */
  datatype MemBlock = MemBlock(memaddr: Addr, length: nat, offset: nat)

  /** The addresses of the blocks from the offset on. */
  ghost function AddressesOf(block: MemBlock, chunk: nat): (addrs: seq<Addr>)
    requires block.offset <= block.length
    ensures |addrs| == block.length - block.offset
  {
    seq(block.length - block.offset, i requires 0 <= i < block.length - block.offset =>
      Addr(block.memaddr.server, block.memaddr.paddr + Offset(block.offset + i, chunk)))
  }

  /** They are all on one server, and do not overlap. */
  lemma {:induction false} UniformApart(block: MemBlock, chunk: nat)
    requires block.offset <= block.length && block.memaddr.server < USHRT_MAX
    ensures Addresses(AddressesOf(block, chunk), chunk)
  {
    var addrs := AddressesOf(block, chunk);
    forall i, j | 0 <= i < |addrs| && 0 <= j < |addrs| && i != j
      ensures Apart(addrs[i], addrs[j], chunk)
    {
      if i < j {
        OffsetGrows(block.offset + i, block.offset + j, chunk);
      } else {
        OffsetGrows(block.offset + j, block.offset + i, chunk);
      }
    }
  }

  /** The loop with which both uniform operations list the addresses. */
  method Expand(block: MemBlock, chunk: nat) returns (addrs: seq<Addr>)
    requires block.offset <= block.length
    ensures addrs == AddressesOf(block, chunk)
  {
    addrs := [];
    for i := block.offset to block.length
      invariant addrs == AddressesOf(block, chunk)[..i - block.offset]
    {
      addrs := addrs + [Addr(block.memaddr.server, block.memaddr.paddr + Offset(i, chunk))];
    }
  }

  /** The block has room for this many bytes. */
  predicate HasRoom(block: MemBlock, size: nat, chunk: nat)
    requires chunk > 0
  {
    size <= chunk || size / chunk <= block.length - block.offset
  }

  // ---------- where the bytes are ----------

  /** There is memory behind the blocks that a transfer of this size uses. */
  ghost predicate Allocated(mem: Memory, block: MemBlock, size: nat, chunk: nat)
    requires chunk > 0
  {
    Present(mem, Addr(block.memaddr.server, block.memaddr.paddr + block.offset * chunk),
            if size <= chunk then size else size / chunk * chunk)
  }

  /** Address i of the range. */
  lemma {:induction false} AddressAt(block: MemBlock, chunk: nat, base: nat, i: nat)
    requires block.offset + i < block.length && base == block.memaddr.paddr + block.offset * chunk
    ensures AddressesOf(block, chunk)[i] == Addr(block.memaddr.server, base + Offset(i, chunk))
  {
    OffsetIs(block.offset, chunk);
    OffsetAdds(block.offset, i, chunk);
  }

  /** Position j of a payload of n blocks is in block j / chunk. */
  lemma {:induction false} BlockAt(j: nat, chunk: nat, n: nat)
    requires chunk > 0 && j < Offset(n, chunk)
    ensures j / chunk < n && j == Offset(j / chunk, chunk) + j % chunk
  {
    OffsetIs(j / chunk, chunk);
    if n < j / chunk {
      OffsetGrows(n, j / chunk, chunk);
    }
  }

  /** The blocks that a transfer of this size uses are in the range. */
  lemma {:induction false} UniformReadable(mem: Memory, block: MemBlock, size: nat, chunk: nat)
    requires chunk > 0 && block.offset < block.length && HasRoom(block, size, chunk)
    ensures Enough(AddressesOf(block, chunk), size, chunk)
    ensures Allocated(mem, block, size, chunk) <==> Readable(mem, AddressesOf(block, chunk), size, chunk)
  {
    var addrs, base := AddressesOf(block, chunk), block.memaddr.paddr + block.offset * chunk;
    OffsetIs(size / chunk, chunk);
    if size <= chunk {
      AddressAt(block, chunk, base, 0);
    } else {
      if Allocated(mem, block, size, chunk) {
        BlocksPresent(mem, block, base, chunk, size / chunk);
      }
      if Readable(mem, addrs, size, chunk) {
        RangePresent(mem, block, base, chunk, size / chunk);
      }
    }
  }

  lemma {:induction false} BlocksPresent(mem: Memory, block: MemBlock, base: nat, chunk: nat, n: nat)
    requires block.offset + n <= block.length && base == block.memaddr.paddr + block.offset * chunk
    requires Present(mem, Addr(block.memaddr.server, base), Offset(n, chunk))
    ensures Backed(mem, AddressesOf(block, chunk)[..n], chunk)
  {
    forall i | 0 <= i < n
      ensures Present(mem, AddressesOf(block, chunk)[i], chunk)
    {
      AddressAt(block, chunk, base, i);
      OffsetGrows(i, n, chunk);
      forall l: Loc | InRange(l, AddressesOf(block, chunk)[i], chunk)
        ensures l in mem.bytes
      {
        assert InRange(l, Addr(block.memaddr.server, base), Offset(n, chunk));
      }
    }
  }

  lemma {:induction false} RangePresent(mem: Memory, block: MemBlock, base: nat, chunk: nat, n: nat)
    requires chunk > 0 && block.offset + n <= block.length && base == block.memaddr.paddr + block.offset * chunk
    requires Backed(mem, AddressesOf(block, chunk)[..n], chunk)
    ensures Present(mem, Addr(block.memaddr.server, base), Offset(n, chunk))
  {
    forall l: Loc | InRange(l, Addr(block.memaddr.server, base), Offset(n, chunk))
      ensures l in mem.bytes
    {
      var j := l.addr - base;
      BlockAt(j, chunk, n);
      AddressAt(block, chunk, base, j / chunk);
      assert Present(mem, AddressesOf(block, chunk)[..n][j / chunk], chunk);
      assert InRange(l, AddressesOf(block, chunk)[j / chunk], chunk);
    }
  }

  /** After the write, location l holds its byte of the payload, or what it held before. */
  lemma {:induction false} UniformWritten(mem: Memory, block: MemBlock, payload: seq<byte>, size: nat, chunk: nat,
                                          base: nat, l: Loc)
    requires chunk > 0 && block.offset < block.length && block.memaddr.server < USHRT_MAX
    requires HasRoom(block, size, chunk) && Whole(size, chunk) && size <= |payload|
    requires base == block.memaddr.paddr + block.offset * chunk
    ensures Enough(AddressesOf(block, chunk), size, chunk)
    ensures var m := BulkWritten(mem, AddressesOf(block, chunk), payload, size, chunk);
            if l.server == block.memaddr.server && base <= l.addr < base + size
            then Has(m, l, payload[l.addr - base]) else Same(mem, m, l)
  {
    if size <= chunk {
      AddressAt(block, chunk, base, 0);
      WrittenFirst(mem, AddressesOf(block, chunk), payload, size, chunk, l);
    } else if l.server == block.memaddr.server && base <= l.addr < base + size {
      UniformInside(mem, block, payload, size, chunk, base, l.addr - base);
    } else {
      UniformOutside(mem, block, payload, size, chunk, base, l);
    }
  }

  lemma {:induction false} UniformInside(mem: Memory, block: MemBlock, payload: seq<byte>, size: nat, chunk: nat,
                                         base: nat, j: nat)
    requires 0 < chunk < size <= |payload| && block.offset < block.length && block.memaddr.server < USHRT_MAX
    requires HasRoom(block, size, chunk) && size % chunk == 0 && j < size
    requires base == block.memaddr.paddr + block.offset * chunk
    ensures Enough(AddressesOf(block, chunk), size, chunk)
    ensures Has(BulkWritten(mem, AddressesOf(block, chunk), payload, size, chunk), Loc(block.memaddr.server, base + j),
                payload[j])
  {
    BlocksFit(size, chunk);
    BlockAt(j, chunk, size / chunk);
    OffsetIs(j / chunk, chunk);
    AddressAt(block, chunk, base, j / chunk);
    UniformApart(block, chunk);
    WrittenWhole(mem, AddressesOf(block, chunk), payload, size, chunk, j / chunk, j % chunk, j);
  }

  lemma {:induction false} UniformOutside(mem: Memory, block: MemBlock, payload: seq<byte>, size: nat, chunk: nat,
                                          base: nat, l: Loc)
    requires 0 < chunk < size <= |payload| && block.offset < block.length
    requires HasRoom(block, size, chunk) && size % chunk == 0
    requires base == block.memaddr.paddr + block.offset * chunk
    requires !(l.server == block.memaddr.server && base <= l.addr < base + size)
    ensures Enough(AddressesOf(block, chunk), size, chunk)
    ensures Same(mem, BulkWritten(mem, AddressesOf(block, chunk), payload, size, chunk), l)
  {
    BlocksFit(size, chunk);
    forall i | 0 <= i < size / chunk
      ensures !InRange(l, AddressesOf(block, chunk)[i], chunk)
    {
      AddressAt(block, chunk, base, i);
      OffsetGrows(i, size / chunk, chunk);
    }
    WrittenElsewhere(mem, AddressesOf(block, chunk), payload, size, chunk, l);
  }

  /** After the read, position j of the buffer holds the byte from its location, or what it held before. */
  lemma {:induction false} UniformRead(buf: seq<byte>, mem: Memory, block: MemBlock, size: nat, chunk: nat, base: nat,
                                       j: nat)
    requires chunk > 0 && block.offset < block.length && HasRoom(block, size, chunk) && Whole(size, chunk)
    requires Enough(AddressesOf(block, chunk), size, chunk)
    requires Readable(mem, AddressesOf(block, chunk), size, chunk) && size <= |buf| && j < |buf|
    requires base == block.memaddr.paddr + block.offset * chunk
    ensures var r := BulkRead(buf, mem, AddressesOf(block, chunk), size, chunk);
            if j < size then Has(mem, Loc(block.memaddr.server, base + j), r[j]) else r[j] == buf[j]
  {
    var addrs := AddressesOf(block, chunk);
    if size <= chunk {
      AddressAt(block, chunk, base, 0);
      ReadFirst(buf, mem, addrs, size, chunk, j);
    } else if j < size {
      BlocksFit(size, chunk);
      BlockAt(j, chunk, size / chunk);
      OffsetIs(j / chunk, chunk);
      AddressAt(block, chunk, base, j / chunk);
      ReadWhole(buf, mem, addrs, size, chunk, j / chunk, j % chunk, j);
    } else {
      WholeBehind(buf, mem, addrs, size, chunk, j);
    }
  }

  // ---------- the operations ----------

  const EXIT_SUCCESS: int := 0

  /** The addresses are listed, and the bulk operation called; its status is dropped. */
  method WriteListed(cluster: Cluster, block: MemBlock, payload: seq<byte>, size: nat, chunk: nat)
    requires chunk > 0 && block.offset < block.length && block.memaddr.server < USHRT_MAX
    requires Reach(size, chunk) <= |payload|
    modifies cluster
    ensures HasRoom(block, size, chunk) ==>
              cluster.mem == BulkWritten(old(cluster.mem), AddressesOf(block, chunk), payload, size, chunk)
    ensures !HasRoom(block, size, chunk) ==> cluster.mem == old(cluster.mem)
  {
    UniformApart(block, chunk);
    var addrs := Expand(block, chunk);
    var _ := WriteBulk(cluster, addrs, payload, size, chunk);
  }

  lemma {:induction false} AllWritten(mem: Memory, block: MemBlock, payload: seq<byte>, size: nat, chunk: nat)
    requires chunk > 0 && block.offset < block.length && block.memaddr.server < USHRT_MAX
    requires HasRoom(block, size, chunk) && Whole(size, chunk) && size <= |payload|
    ensures Enough(AddressesOf(block, chunk), size, chunk)
    ensures var base := block.memaddr.paddr + block.offset * chunk;
            var m := BulkWritten(mem, AddressesOf(block, chunk), payload, size, chunk);
            forall l: Loc ::
              if l.server == block.memaddr.server && base <= l.addr < base + size
              then Has(m, l, payload[l.addr - base]) else Same(mem, m, l)
  {
    var base := block.memaddr.paddr + block.offset * chunk;
    var m := BulkWritten(mem, AddressesOf(block, chunk), payload, size, chunk);
    forall l: Loc
      ensures if l.server == block.memaddr.server && base <= l.addr < base + size
              then Has(m, l, payload[l.addr - base]) else Same(mem, m, l)
    {
      UniformWritten(mem, block, payload, size, chunk, base, l);
    }
  }

  /** `write_uniform_rmem` reports success in any case. Where there is room for the payload, byte j of
      it goes to the j-th pointer from the offset of the range on, and nothing else changes. */
  method WriteUniform(cluster: Cluster, block: MemBlock, payload: seq<byte>, size: nat, chunk: nat)
    returns (status: int)
    requires chunk > 0 && block.offset < block.length && block.memaddr.server < USHRT_MAX
    requires Reach(size, chunk) <= |payload|
    modifies cluster
    ensures status == EXIT_SUCCESS
    ensures HasRoom(block, size, chunk) && Whole(size, chunk) ==>
              var base := block.memaddr.paddr + block.offset * chunk;
              forall l: Loc ::
                if l.server == block.memaddr.server && base <= l.addr < base + size
                then Has(cluster.mem, l, payload[l.addr - base])
                else Same(old(cluster.mem), cluster.mem, l)
    ensures HasRoom(block, size, chunk) ==>
              cluster.mem == BulkWritten(old(cluster.mem), AddressesOf(block, chunk), payload, size, chunk)
    ensures !HasRoom(block, size, chunk) ==> cluster.mem == old(cluster.mem)
  {
    WriteListed(cluster, block, payload, size, chunk);
    if HasRoom(block, size, chunk) && Whole(size, chunk) {
      AllWritten(old(cluster.mem), block, payload, size, chunk);
    }
    return EXIT_SUCCESS;
  }

  method ReadListed(cluster: Cluster, block: MemBlock, buffer: array<byte>, size: nat, chunk: nat)
    requires 0 < chunk < HALF && block.offset < block.length && block.memaddr.server < USHRT_MAX
    requires Reach(size, chunk) <= buffer.Length
    requires HasRoom(block, size, chunk) ==> Readable(cluster.mem, AddressesOf(block, chunk), size, chunk)
    modifies buffer
    ensures HasRoom(block, size, chunk) ==>
              buffer[..] == BulkRead(old(buffer[..]), cluster.mem, AddressesOf(block, chunk), size, chunk)
    ensures !HasRoom(block, size, chunk) ==> buffer[..] == old(buffer[..])
  {
    UniformApart(block, chunk);
    var addrs := Expand(block, chunk);
    var _ := ReadBulk(cluster, addrs, buffer, size, chunk);
  }

  lemma {:induction false} AllRead(buf: seq<byte>, mem: Memory, block: MemBlock, size: nat, chunk: nat)
    requires chunk > 0 && block.offset < block.length && HasRoom(block, size, chunk) && Whole(size, chunk)
    requires Enough(AddressesOf(block, chunk), size, chunk)
    requires Readable(mem, AddressesOf(block, chunk), size, chunk) && size <= |buf|
    ensures var base := block.memaddr.paddr + block.offset * chunk;
            var r := BulkRead(buf, mem, AddressesOf(block, chunk), size, chunk);
            forall j | 0 <= j < |buf| ::
              if j < size then Has(mem, Loc(block.memaddr.server, base + j), r[j]) else r[j] == buf[j]
  {
    var base := block.memaddr.paddr + block.offset * chunk;
    var r := BulkRead(buf, mem, AddressesOf(block, chunk), size, chunk);
    forall j | 0 <= j < |buf|
      ensures if j < size then Has(mem, Loc(block.memaddr.server, base + j), r[j]) else r[j] == buf[j]
    {
      UniformRead(buf, mem, block, size, chunk, base, j);
    }
  }

  /** `read_uniform_rmem` reports success in any case. Where there is room for the payload, byte j of
      the buffer comes from the j-th pointer from the offset of the range on, and nothing else changes. */
  method ReadUniform(cluster: Cluster, block: MemBlock, buffer: array<byte>, size: nat, chunk: nat)
    returns (status: int)
    requires 0 < chunk < HALF && block.offset < block.length && block.memaddr.server < USHRT_MAX
    requires Reach(size, chunk) <= buffer.Length
    requires HasRoom(block, size, chunk) ==> Allocated(cluster.mem, block, size, chunk)
    modifies buffer
    ensures status == EXIT_SUCCESS
    ensures HasRoom(block, size, chunk) && Whole(size, chunk) ==>
              var base := block.memaddr.paddr + block.offset * chunk;
              forall j | 0 <= j < buffer.Length ::
                if j < size then Has(cluster.mem, Loc(block.memaddr.server, base + j), buffer[..][j])
                else buffer[..][j] == old(buffer[..])[j]
    ensures HasRoom(block, size, chunk) ==>
              && Readable(cluster.mem, AddressesOf(block, chunk), size, chunk)
              && buffer[..] == BulkRead(old(buffer[..]), cluster.mem, AddressesOf(block, chunk), size, chunk)
    ensures !HasRoom(block, size, chunk) ==> buffer[..] == old(buffer[..])
  {
    ghost var buf := buffer[..];
    if HasRoom(block, size, chunk) {
      UniformReadable(cluster.mem, block, size, chunk);
    }
    ReadListed(cluster, block, buffer, size, chunk);
    if HasRoom(block, size, chunk) && Whole(size, chunk) {
      AllRead(buf, cluster.mem, block, size, chunk);
    }
    return EXIT_SUCCESS;
  }

  /** A range of blocks keeps a whole number of blocks that has room in it; where there is no room,
      neither operation transfers anything, and neither says so. */
  method UniformRoundTrip(cluster: Cluster, block: MemBlock, payload: seq<byte>, size: nat, chunk: nat)
    returns (buffer: array<byte>)
    requires 0 < chunk < HALF && block.offset < block.length && block.memaddr.server < USHRT_MAX
    requires Reach(size, chunk) <= |payload|
    modifies cluster
    ensures fresh(buffer) && buffer.Length == Reach(size, chunk)
    ensures HasRoom(block, size, chunk) && Whole(size, chunk) ==> buffer[..size] == payload[..size]
    ensures !HasRoom(block, size, chunk) ==> cluster.mem == old(cluster.mem) && buffer[..] == Zeros(buffer.Length)
  {
    buffer := new byte[Reach(size, chunk)](_ => 0);
    UniformApart(block, chunk);
    var _ := WriteUniform(cluster, block, payload, size, chunk);
    ghost var addrs, buf := AddressesOf(block, chunk), buffer[..];
    if HasRoom(block, size, chunk) {
      WrittenReadable(old(cluster.mem), addrs, payload, size, chunk);
      UniformReadable(cluster.mem, block, size, chunk);
    }
    var _ := ReadUniform(cluster, block, buffer, size, chunk);
    if HasRoom(block, size, chunk) && Whole(size, chunk) {
      WholeComesBack(buf, old(cluster.mem), addrs, payload, size, chunk);
      assert buffer[..size] == buffer[..][..size];
    }
  }

  /** Two bytes for a range of one: both operations succeed, and nothing comes back. */
  method UniformLoses(cluster: Cluster) returns (buffer: array<byte>)
    modifies cluster
    ensures cluster.mem == old(cluster.mem) && buffer[..] == [0, 0]
  {
    buffer := UniformRoundTrip(cluster, MemBlock(Addr(0, 0), 1, 0), [1, 1], 2, 1);
  }
}
