/**
 The remote RAID memory itself: pages are written to and read from hosts through one buffer per
 host, with parity and repair computed byte by byte. Its methods do what `Raid` says, so that
 `RoundTrip` inherits the theorems proved there.
 */
module RaidMemories {
  import opened Words
  import opened Raid

  /** The byte b of every stripe, up to where the stripes have one. */
  lemma {:induction false} ColumnByte(data: seq<byte>, c: Cut, s: nat, b: nat)
    requires Covers(c, |data|) && s < c.stripes && b < |data|
    ensures b < Length(c, s) ==> Start(c, s) + b < |data| && StripeColumn(data, c, b)[s] == data[Start(c, s) + b]
    ensures b >= Length(c, s) ==> StripeColumn(data, c, b)[s] == 0
  {
    StripeAt(data, c, s, b);
  }

  lemma {:induction false} FoldStep(col: seq<byte>, j: nat)
    requires j < |col|
    ensures Fold(col[..j + 1]) == Fold(col[..j]) ^ col[j]
  {
    assert col[..j + 1][..j] == col[..j];
  }

  lemma {:induction false} FoldTail(col: seq<byte>, m: nat)
    requires m <= |col| && forall j | m <= j < |col| :: col[j] == 0
    ensures Fold(col) == Fold(col[..m])
  {
    assert col == col[..m] + col[m..];
    FoldCat(col[..m], col[m..]);
    FoldZeros(col[m..]);
  }

  /** One stripe more. */
  lemma {:induction false} ColumnStep(data: seq<byte>, c: Cut, s: nat, b: nat)
    requires Covers(c, |data|) && s < c.stripes && b < c.width
    ensures Start(c, s) + b < |data| && Start(c, s + 1) == Start(c, s) + c.width + if s < c.longer then 1 else 0
    ensures var col := StripeColumn(data, c, b);
            Fold(col[..s + 1]) == Fold(col[..s]) ^ data[Start(c, s) + b]
  {
    StripeFits(c, |data|, s);
    ColumnByte(data, c, s, b);
    FoldStep(StripeColumn(data, c, b), s);
  }

  /** The inner loop of `parity45`: one byte across all stripes. */
  method ParityByte(data: seq<byte>, ghost c: Cut, size: nat, stripes: nat, i: nat) returns (paritybyte: byte)
    requires stripes > 0 && size == |data| && c == CutOf(size, stripes) && Covers(c, size) && i < c.width
    ensures i < size && paritybyte == Fold(StripeColumn(data, c, i))
  {
    StripeFits(c, size, 0);
    ghost var col := StripeColumn(data, c, i);
    paritybyte := 0;
    var base := 0;
    for j := 0 to stripes
      invariant base == Start(c, j) && paritybyte == Fold(col[..j])
    {
      ColumnStep(data, c, j, i);
      paritybyte := paritybyte ^ data[i + base];
      base := base + size / stripes;
      if j < size % stripes {
        base := base + 1;
      }
    }
    assert col[..stripes] == col;
  }

  /** One of the longer stripes more. */
  lemma {:induction false} LastColumnStep(data: seq<byte>, c: Cut, s: nat)
    requires Covers(c, |data|) && s < c.longer
    ensures c.width < |data| && Start(c, s) + c.width < |data|
    ensures Start(c, s + 1) == Start(c, s) + c.width + 1
    ensures var col := StripeColumn(data, c, c.width);
            Fold(col[..s + 1]) == Fold(col[..s]) ^ data[Start(c, s) + c.width]
  {
    StripeFits(c, |data|, 0);
    StripeFits(c, |data|, s);
    ColumnByte(data, c, s, c.width);
    FoldStep(StripeColumn(data, c, c.width), s);
  }

  /** The end of `parity45`: the last byte of the longer stripes. */
  method LastParityByte(data: seq<byte>, ghost c: Cut, size: nat, stripes: nat) returns (paritybyte: byte)
    requires stripes > 0 && size == |data| && c == CutOf(size, stripes) && Covers(c, size) && c.longer > 0
    ensures c.width < size && paritybyte == Fold(StripeColumn(data, c, c.width))
  {
    StripeFits(c, size, 0);
    ghost var col := StripeColumn(data, c, c.width);
    paritybyte := 0;
    var base := size / stripes;
    for i := 0 to size % stripes
      invariant base == Start(c, i) + c.width && paritybyte == Fold(col[..i])
    {
      LastColumnStep(data, c, i);
      paritybyte := paritybyte ^ data[base];
      base := base + size / stripes + 1;
    }
    forall j | c.longer <= j < stripes
      ensures col[j] == 0
    {
      ColumnByte(data, c, j, c.width);
    }
    FoldTail(col, c.longer);
  }

  /** `parity45`: fills in the front of a zero-filled buffer. */
  method Parity45(data: seq<byte>, ghost c: Cut, size: nat, stripes: nat) returns (parity: seq<byte>)
    requires stripes > 0 && size == |data| && c == CutOf(size, stripes) && Covers(c, size)
    ensures parity == Parity(data, c)
  {
    StripeFits(c, size, 0);
    var alloc := size / stripes;
    parity := Zeros(size);
    for i := 0 to alloc
      invariant |parity| == size
      invariant forall b | 0 <= b < size :: parity[b] == if b < i then Parity(data, c)[b] else 0
    {
      var paritybyte := ParityByte(data, c, size, stripes, i);
      parity := parity[i := paritybyte];
    }
    if size % stripes > 0 {
      var paritybyte := LastParityByte(data, c, size, stripes);
      parity := parity[alloc := paritybyte];
    }
    forall b | 0 <= b < size
      ensures parity[b] == Parity(data, c)[b]
    {
      if b >= Length(c, 0) {
        ParityZero(data, c, b);
      }
    }
  }

  lemma {:induction false} ParityZero(data: seq<byte>, c: Cut, b: nat)
    requires Covers(c, |data|) && Length(c, 0) <= b < |data|
    ensures Parity(data, c)[b] == 0
  {
    forall s | 0 <= s < c.stripes
      ensures StripeColumn(data, c, b)[s] == 0
    {
      StripeAt(data, c, s, b);
    }
    FoldZeros(StripeColumn(data, c, b));
  }

  /** One byte of `repairStripeFromParity45`, from the first m buffers. */
  method RepairOne(rows: array<seq<byte>>, missing: nat, q: nat, m: nat, b: nat) returns (repairbyte: byte)
    requires forall h | 0 <= h < rows.Length :: b < |rows[h]|
    requires missing < rows.Length && q < rows.Length && m <= rows.Length
    ensures repairbyte == RepairByte(rows[..], missing, q, m, b)
  {
    ghost var col := Column(rows[..], b);
    ghost var skipped := if missing < m then col[..m][missing := 0] else col[..m];
    repairbyte := 0;
    for j := 0 to m
      invariant repairbyte == Fold(skipped[..j])
    {
      FoldStep(skipped, j);
      if j != missing {
        repairbyte := repairbyte ^ rows[j][b];
      }
    }
    assert skipped[..m] == skipped;
    repairbyte := repairbyte ^ rows[q][b];
  }

  /** `repairStripeFromParity45`, into the buffer of the missing host. */
  method RepairStripe(rows: array<seq<byte>>, ghost c: Cut, size: nat, missing: nat, q: nat, stripes: nat)
    requires stripes > 0 && c == CutOf(size, stripes) && Rows(rows[..], c, size)
    requires missing < rows.Length && q < rows.Length && missing != q
    modifies rows
    ensures rows[..] == old(rows[..])[missing := Repair(old(rows[..]), c, size, missing, q)]
  {
    StripeFits(c, size, 0);
    var alloc := size / stripes;
    ghost var was := rows[..];
    for i := 0 to alloc
      invariant |rows[missing]| == size && rows[..] == was[missing := rows[missing]]
      invariant forall b | 0 <= b < size ::
          rows[missing][b] == if b < i then Repair(was, c, size, missing, q)[b] else was[missing][b]
    {
      var repairbyte := RepairOne(rows, missing, q, stripes, i);
      SkipsMissing(was, rows[missing], missing, q, stripes, i);
      rows[missing] := rows[missing][i := repairbyte];
    }
    if size % stripes > missing {
      var repairbyte := RepairOne(rows, missing, q, size % stripes, alloc);
      SkipsMissing(was, rows[missing], missing, q, size % stripes, alloc);
      rows[missing] := rows[missing][alloc := repairbyte];
    }
    assert rows[missing] == Repair(was, c, size, missing, q);
  }

  /** Repair does not read the buffer it writes. */
  lemma {:induction false} SkipsMissing(rows: seq<seq<byte>>, buf: seq<byte>, missing: nat, q: nat, m: nat, b: nat)
    requires missing < |rows| && q < |rows| && m <= |rows| && missing != q
    requires b < |buf| && forall h | 0 <= h < |rows| :: b < |rows[h]|
    ensures RepairByte(rows[missing := buf], missing, q, m, b) == RepairByte(rows, missing, q, m, b)
  {
    var col, col' := Column(rows, b), Column(rows[missing := buf], b);
    assert col' == col[missing := buf[b]];
    if missing < m {
      assert col'[..m][missing := 0] == col[..m][missing := 0];
    } else {
      assert col'[..m] == col[..m];
    }
  }

  /** The buffers while a page is written: those of the first i hosts and the parity are filled in. */
  ghost predicate Filled(rows: seq<seq<byte>>, data: seq<byte>, c: Cut, q: nat, i: nat)
    requires Covers(c, |data|) && q <= c.stripes
  {
    && |rows| == c.stripes + 1
    && forall h | 0 <= h < |rows| :: rows[h] == if h < i || h == q then Sent(data, c, q, h) else Zeros(|data|)
  }

  lemma {:induction false} FilledStep(rows: seq<seq<byte>>, data: seq<byte>, c: Cut, q: nat, i: nat)
    requires Covers(c, |data|) && q <= c.stripes && i <= c.stripes && Filled(rows, data, c, q, i)
    ensures Filled(rows[i := Sent(data, c, q, i)], data, c, q, i + 1)
    ensures i == q ==> rows[i] == Sent(data, c, q, i)
    ensures i != q ==> rows[i] == Zeros(|data|) && Sent(data, c, q, i) == Stripe(data, c, StripeOf(i, q))
  {
  }

  lemma {:induction false} FilledParity(rows: seq<seq<byte>>, data: seq<byte>, c: Cut, q: nat)
    requires Covers(c, |data|) && q <= c.stripes && Filled(rows, data, c, q, q)
    ensures Filled(rows, data, c, q, q + 1)
  {
  }

  lemma {:induction false} GatherStep(rows: seq<seq<byte>>, c: Cut, size: nat, q: nat, s: nat)
    requires Rows(rows, c, size) && s < c.stripes
    ensures Length(c, s) <= size
    ensures Gather(rows, c, size, q, s + 1) == Gather(rows, c, size, q, s) + rows[HostOf(s, q)][..Length(c, s)]
  {
    StripeFits(c, size, s);
  }

  datatype Level = Four | Five

  class RaidMemory {
    const level: Level
    const size: nat
    const nblocks: nat
    const hosts: nat
    const cut: Cut
    const remote: array2<seq<byte>>

    ghost predicate Valid()
      reads remote
    {
      && hosts >= 2 && cut == CutOf(size, hosts - 1) && Covers(cut, size)
      && remote.Length0 == hosts && remote.Length1 == nblocks
      && forall h, b | 0 <= h < hosts && 0 <= b < nblocks :: |remote[h, b]| == size
    }

    /** The buffers that the hosts hold for a block. */
    ghost function Stored(block: nat): (rows: seq<seq<byte>>)
      requires Valid() && block < nblocks
      reads remote
      ensures Rows(rows, cut, size)
    {
      seq(hosts, h requires 0 <= h < hosts && Valid() reads remote => remote[h, block])
    }

    constructor (level: Level, size: nat, nblocks: nat, hosts: nat)
      requires hosts >= 2
      ensures Valid() && fresh(remote)
      ensures this.level == level && this.size == size && this.nblocks == nblocks && this.hosts == hosts
    {
      this.level := level;
      this.size := size;
      this.nblocks := nblocks;
      this.hosts := hosts;
      cut := CutOf(size, hosts - 1);
      CutCovers(size, hosts - 1);
      remote := new seq<byte>[hosts, nblocks]((_, _) => Zeros(size));
    }

    function ParityHost(block: nat): (q: nat)
      requires hosts >= 2
      ensures q < hosts
    {
      if level == Four then hosts - 1 else block % hosts
    }

    /** Copy the stripes of a page to the zero-filled buffers of their hosts. */
    method Scatter(data: seq<byte>, q: nat, wbufs: array<seq<byte>>)
      requires Covers(cut, size) && hosts == cut.stripes + 1 && |data| == size
      requires q < hosts && Filled(wbufs[..], data, cut, q, 0)
      modifies wbufs
      ensures wbufs[..] == Layout(data, cut, q)
    {
      var alloc := cut.width;
      if cut.longer > 0 {
        alloc := alloc + 1;
      }
      var base := 0;
      ghost var s := 0;
      for i := 0 to hosts
        invariant s == (if i <= q then i else i - 1) && base == Start(cut, s)
        invariant alloc == Length(cut, if s == 0 then 0 else s - 1)
        invariant Filled(wbufs[..], data, cut, q, i)
      {
        if i == q {
          FilledParity(wbufs[..], data, cut, q);
          continue;
        }
        var t := if i > q then 1 else 0;
        if cut.longer <= i - t {
          alloc := cut.width;
        }
        CopyStripe(data, q, wbufs, i, s, base, alloc);
        base := base + alloc;
        s := s + 1;
      }
    }

    method CopyStripe(data: seq<byte>, q: nat, wbufs: array<seq<byte>>, i: nat, ghost s: nat, base: nat, alloc: nat)
      requires Covers(cut, size) && hosts == cut.stripes + 1 && |data| == size && q < hosts && i < hosts
      requires Filled(wbufs[..], data, cut, q, i) && i != q && s == StripeOf(i, q) && s < cut.stripes
      requires base == Start(cut, s) && alloc == Length(cut, s)
      modifies wbufs
      ensures Filled(wbufs[..], data, cut, q, i + 1)
    {
      FilledStep(wbufs[..], data, cut, q, i);
      CopiedStripe(data, cut, s);
      wbufs[i] := data[base..base + alloc] + wbufs[i][alloc..];
      assert wbufs[..] == old(wbufs[..])[i := Sent(data, cut, q, i)];
    }

    /** The buffers that a page is sent from. */
    method Encode(data: seq<byte>, q: nat) returns (wbufs: array<seq<byte>>)
      requires Valid() && q < hosts && |data| == size
      ensures fresh(wbufs) && wbufs[..] == Layout(data, cut, q)
    {
      wbufs := new seq<byte>[hosts](_ => Zeros(size));
      wbufs[q] := Parity45(data, cut, size, hosts - 1);
      Scatter(data, q, wbufs);
    }

    /** `rrmem_write`: parity, stripes, and one write to every host. */
    method Write(block: nat, data: seq<byte>)
      requires Valid() && block < nblocks && |data| == size
      modifies remote
      ensures Valid()
      ensures Stored(block) == Layout(data, cut, if level == Four then hosts - 1 else block % hosts)
      ensures forall h, b | 0 <= h < hosts && 0 <= b < nblocks && b != block :: remote[h, b] == old(remote[h, b])
    {
      ghost var rows := Layout(data, cut, ParityHost(block));
      var wbufs := Encode(data, ParityHost(block));
      for i := 0 to hosts
        invariant Valid() && wbufs[..] == rows
        invariant forall h | 0 <= h < i :: remote[h, block] == rows[h]
        invariant forall h, b | 0 <= h < hosts && 0 <= b < nblocks && b != block :: remote[h, b] == old(remote[h, b])
      {
        remote[i, block] := wbufs[i];
      }
      assert Stored(block) == rows;
    }

    /** `read_raid_mem`: the buffers of the hosts that answer; the others stay zero-filled. */
    method Receive(block: nat, lost: Lost, rbufs: array<seq<byte>>)
      requires Valid() && block < nblocks && rbufs.Length == hosts && (lost.Host? ==> lost.index < hosts)
      requires forall h | 0 <= h < hosts :: rbufs[h] == Zeros(size)
      modifies rbufs
      ensures rbufs[..] == if lost == Nothing then Stored(block) else Received(Stored(block), lost.index)
    {
      for i := 0 to hosts
        invariant forall h | 0 <= h < i :: rbufs[h] == if lost == Host(h) then Zeros(size) else remote[h, block]
        invariant forall h | i <= h < hosts :: rbufs[h] == Zeros(size)
      {
        if lost != Host(i) {
          rbufs[i] := remote[i, block];
        }
      }
    }

    /** Put the page together from the buffers. */
    method Collect(rbufs: array<seq<byte>>, q: nat) returns (data: seq<byte>)
      requires rbufs.Length == hosts && q < hosts && Rows(rbufs[..], cut, size)
      ensures data == Gather(rbufs[..], cut, size, q, cut.stripes)
    {
      var alloc := cut.width;
      if cut.longer > 0 {
        alloc := alloc + 1;
      }
      data := [];
      ghost var s, rows := 0, rbufs[..];
      for i := 0 to hosts
        invariant s == (if i <= q then i else i - 1)
        invariant alloc == Length(cut, if s == 0 then 0 else s - 1)
        invariant data == Gather(rows, cut, size, q, s)
      {
        if i == q {
          continue;
        }
        var t := if i > q then 1 else 0;
        if cut.longer <= i - t {
          alloc := cut.width;
        }
        GatherStep(rows, cut, size, q, s);
        assert rbufs[i] == rows[i];
        data := data + rbufs[i][..alloc];
        s := s + 1;
      }
    }

    /** `rrmem_read`, when the answer of at most one host is lost. */
    method Read(block: nat, lost: Lost) returns (data: seq<byte>)
      requires Valid() && block < nblocks && (lost.Host? ==> lost.index < hosts)
      ensures data == Recovered(Stored(block), cut, size, if level == Four then hosts - 1 else block % hosts, lost)
    {
      var q := ParityHost(block);
      var rbufs := new seq<byte>[hosts](_ => Zeros(size));
      Receive(block, lost, rbufs);
      if lost != Nothing && lost.index != q {
        RepairStripe(rbufs, cut, size, lost.index, q, hosts - 1);
      }
      data := Collect(rbufs, q);
    }

    /** Write a page, lose a host, read it: level 4 always returns the page, level 5 where it can. */
    method RoundTrip(block: nat, data: seq<byte>, lost: Lost) returns (r: seq<byte>)
      requires Valid() && block < nblocks && |data| == size && (lost.Host? ==> lost.index < hosts)
      modifies remote
      ensures level == Four || CanRecover(cut, block % hosts, lost) ==> r == data
    {
      Write(block, data);
      r := Read(block, lost);
      if CanRecover(cut, ParityHost(block), lost) {
        Recovers(data, cut, ParityHost(block), lost);
      }
    }
  }

  lemma {:induction false} CopiedStripe(data: seq<byte>, c: Cut, s: nat)
    requires Covers(c, |data|) && s < c.stripes
    ensures Start(c, s) + Length(c, s) <= |data|
    ensures data[Start(c, s)..Start(c, s) + Length(c, s)] + Zeros(|data|)[Length(c, s)..] == Stripe(data, c, s)
  {
    StripeFits(c, |data|, s);
  }
}
