/**
 Pages striped over n hosts with one parity stripe, as the remote RAID memory lays them out.
 With k = n - 1 data stripes, the first size % k of them are one byte longer than the others.
 Host q holds the parity: the last host in level 4, host block % n in level 5.

 `LevelFourRecovers` shows that a page survives the loss of any one host. Level 5 repairs with
 the formula for level 4, so it does not always: `RecoversIff` gives the exact condition.
 */
module Raid {
  import opened Words

  // ---------- exclusive or ----------

  function Fold(col: seq<byte>): (x: byte) {
    if col == [] then 0 else Fold(col[..|col| - 1]) ^ col[|col| - 1]
  }

  lemma {:induction false} FoldCat(a: seq<byte>, b: seq<byte>)
    ensures Fold(a + b) == Fold(a) ^ Fold(b)
  {
    if b == [] {
      assert a + b == a;
    } else {
      FoldCat(a, b[..|b| - 1]);
      assert (a + b)[..|a + b| - 1] == a + b[..|b| - 1];
    }
  }

  lemma {:induction false} FoldZeros(a: seq<byte>)
    requires forall i | 0 <= i < |a| :: a[i] == 0
    ensures Fold(a) == 0
  {
    if a != [] {
      FoldZeros(a[..|a| - 1]);
    }
  }

  /** Leaving one byte out of the fold, the way repair does. */
  lemma {:induction false} FoldSkip(col: seq<byte>, j: nat)
    requires j < |col|
    ensures Fold(col[j := 0]) == Fold(col) ^ col[j]
  {
    var a, b := col[..j], col[j + 1..];
    assert col == a + [col[j]] + b && col[j := 0] == a + [0] + b;
    FoldThree(a, col[j], b);
    FoldThree(a, 0, b);
  }

  lemma {:induction false} FoldThree(a: seq<byte>, x: byte, b: seq<byte>)
    ensures Fold(a + [x] + b) == Fold(a) ^ x ^ Fold(b)
  {
    FoldCat(a + [x], b);
    FoldCat(a, [x]);
    assert Fold([x]) == x;
  }

  // ---------- stripes ----------

  /** How a page is cut: the number of stripes, their length, and how many are a byte longer. */
  datatype Cut = Cut(stripes: nat, width: nat, longer: nat)

  /** The cut of a page of this size into k stripes. */
  function CutOf(size: nat, k: nat): (c: Cut)
    requires k > 0
  {
    Cut(k, size / k, size % k)
  }

  /** The length of data stripe s. */
  function Length(c: Cut, s: nat): (len: nat) {
    c.width + if s < c.longer then 1 else 0
  }

  /** Where stripe s starts in the page. */
  function Start(c: Cut, s: nat): (start: nat) {
    if s == 0 then 0 else Start(c, s - 1) + Length(c, s - 1)
  }

  /** The stripes cover a page of this size. */
  ghost predicate Covers(c: Cut, size: nat) {
    c.stripes > 0 && c.longer < c.stripes && Start(c, c.stripes) == size
  }

  lemma {:induction false} StartIs(c: Cut, s: nat)
    ensures Start(c, s) == s * c.width + if s < c.longer then s else c.longer
  {
    if s > 0 {
      StartIs(c, s - 1);
      assert s * c.width == (s - 1) * c.width + c.width;
    }
  }

  lemma {:induction false} CutCovers(size: nat, k: nat)
    requires k > 0
    ensures Covers(CutOf(size, k), size)
  {
    StartIs(CutOf(size, k), k);
  }

  lemma {:induction false} StartGrows(c: Cut, s: nat, s': nat)
    requires s <= s'
    ensures Start(c, s) <= Start(c, s')
  {
    if s < s' {
      StartGrows(c, s, s' - 1);
    }
  }

  lemma {:induction false} StripeFits(c: Cut, size: nat, s: nat)
    requires Covers(c, size) && s < c.stripes
    ensures Start(c, s) + Length(c, s) <= size
  {
    StartGrows(c, s + 1, c.stripes);
  }

  /** Bytes copied to the front of a zero-filled buffer. */
  function Padded(bytes: seq<byte>, size: nat): (buf: seq<byte>)
    requires |bytes| <= size
    ensures |buf| == size
  {
    bytes + Zeros(size - |bytes|)
  }

  lemma {:induction false} PaddedAt(data: seq<byte>, start: nat, len: nat, b: nat)
    requires start + len <= |data| && b < |data|
    ensures Padded(data[start..start + len], |data|)[b] == if b < len then data[start + b] else 0
  {
  }

  /** Stripe s of a page, in a zero-filled buffer of the size of the page. */
  function Stripe(data: seq<byte>, c: Cut, s: nat): (buf: seq<byte>)
    requires Covers(c, |data|) && s < c.stripes
    ensures |buf| == |data|
  {
    StripeFits(c, |data|, s);
    Padded(data[Start(c, s)..Start(c, s) + Length(c, s)], |data|)
  }

  lemma {:induction false} StripeAt(data: seq<byte>, c: Cut, s: nat, b: nat)
    requires Covers(c, |data|) && s < c.stripes && b < |data|
    ensures Start(c, s) + Length(c, s) <= |data|
    ensures Stripe(data, c, s)[b] == if b < Length(c, s) then data[Start(c, s) + b] else 0
  {
    StripeFits(c, |data|, s);
    PaddedAt(data, Start(c, s), Length(c, s), b);
  }

  /** One byte of every stripe. */
  function StripeColumn(data: seq<byte>, c: Cut, b: nat): (col: seq<byte>)
    requires Covers(c, |data|) && b < |data|
    ensures |col| == c.stripes
  {
    seq(c.stripes, s requires 0 <= s < c.stripes => Stripe(data, c, s)[b])
  }

  function Parity(data: seq<byte>, c: Cut): (buf: seq<byte>)
    requires Covers(c, |data|)
    ensures |buf| == |data|
  {
    seq(|data|, b requires 0 <= b < |data| => Fold(StripeColumn(data, c, b)))
  }

  // ---------- hosts ----------

  /** The host of stripe s when host q holds the parity, and the stripe of a host. */
  function HostOf(s: nat, q: nat): (h: nat)
    ensures h != q && StripeOf(h, q) == s
  {
    if s < q then s else s + 1
  }

  function StripeOf(h: nat, q: nat): (s: nat)
    requires h != q
  {
    if h < q then h else h - 1
  }

  /** What host h is sent. */
  function Sent(data: seq<byte>, c: Cut, q: nat, h: nat): (buf: seq<byte>)
    requires Covers(c, |data|) && q <= c.stripes && h <= c.stripes
    ensures |buf| == |data|
  {
    if h == q then Parity(data, c) else Stripe(data, c, StripeOf(h, q))
  }

  function Layout(data: seq<byte>, c: Cut, q: nat): (rows: seq<seq<byte>>)
    requires Covers(c, |data|) && q <= c.stripes
    ensures Rows(rows, c, |data|)
  {
    seq(c.stripes + 1, h requires 0 <= h <= c.stripes => Sent(data, c, q, h))
  }

  /** One buffer per stripe and one for the parity, all of the size of the page. */
  ghost predicate Rows(rows: seq<seq<byte>>, c: Cut, size: nat) {
    Covers(c, size) && |rows| == c.stripes + 1 && forall h | 0 <= h < |rows| :: |rows[h]| == size
  }

  function Column(rows: seq<seq<byte>>, b: nat): (col: seq<byte>)
    requires forall h | 0 <= h < |rows| :: b < |rows[h]|
    ensures |col| == |rows|
  {
    seq(|rows|, h requires 0 <= h < |rows| => rows[h][b])
  }

  /** What arrives when host `lost` does not answer; its buffer stays zero-filled. */
  function Received(rows: seq<seq<byte>>, lost: nat): (r: seq<seq<byte>>)
    requires lost < |rows|
  {
    rows[lost := Zeros(|rows[lost]|)]
  }

  /** One byte of the lost stripe, repaired from the first m buffers and the parity. */
  function RepairByte(rows: seq<seq<byte>>, lost: nat, q: nat, m: nat, b: nat): (x: byte)
    requires forall h | 0 <= h < |rows| :: b < |rows[h]|
    requires q < |rows| && m <= |rows|
  {
    var col := Column(rows, b);
    Fold(if lost < m then col[..m][lost := 0] else col[..m]) ^ col[q]
  }

  /** The repaired buffer. The buffers are numbered by host, whatever q is. */
  function Repair(rows: seq<seq<byte>>, c: Cut, size: nat, lost: nat, q: nat): (buf: seq<byte>)
    requires Rows(rows, c, size) && lost < |rows| && q < |rows|
    ensures |buf| == size
  {
    seq(size, b requires 0 <= b < size =>
      if b < c.width then RepairByte(rows, lost, q, c.stripes, b)
      else if b == c.width && lost < c.longer then RepairByte(rows, lost, q, c.longer, b)
      else rows[lost][b])
  }

  /** The part of the buffers that stripe s of the page is taken from. */
  function Used(rows: seq<seq<byte>>, c: Cut, size: nat, q: nat, s: nat): (bytes: seq<byte>)
    requires Rows(rows, c, size) && s < c.stripes
    ensures |bytes| == Length(c, s)
  {
    StripeFits(c, size, s);
    rows[HostOf(s, q)][..Length(c, s)]
  }

  /** The page put together from the first s data stripes. */
  function Gather(rows: seq<seq<byte>>, c: Cut, size: nat, q: nat, s: nat): (data: seq<byte>)
    requires Rows(rows, c, size) && s <= c.stripes
    ensures |data| == Start(c, s)
  {
    if s == 0 then [] else Gather(rows, c, size, q, s - 1) + Used(rows, c, size, q, s - 1)
  }

  datatype Lost = Nothing | Host(index: nat)

  /** The buffers a page is put together from, when the parity is at q and this host is lost. */
  function Ready(rows: seq<seq<byte>>, c: Cut, size: nat, q: nat, lost: Lost): (r: seq<seq<byte>>)
    requires Rows(rows, c, size) && q < |rows| && (lost.Host? ==> lost.index < |rows|)
    ensures Rows(r, c, size)
  {
    if lost == Nothing then rows
    else
      var received := Received(rows, lost.index);
      if lost.index == q then received
      else received[lost.index := Repair(received, c, size, lost.index, q)]
  }

  /** What a read of the page returns. */
  function Recovered(rows: seq<seq<byte>>, c: Cut, size: nat, q: nat, lost: Lost): (data: seq<byte>)
    requires Rows(rows, c, size) && q < |rows| && (lost.Host? ==> lost.index < |rows|)
  {
    Gather(Ready(rows, c, size, q, lost), c, size, q, c.stripes)
  }

  /** Where the bytes of a page are. Of size bytes in k stripes, stripe s starts at s * (size / k), moved
      on by one for each of the size % k longer stripes before it; it is at the front of the buffer
      of host s, or s + 1 from the parity on, and the rest of the buffer is zero. */
  lemma {:induction false} LayoutAt(data: seq<byte>, k: nat, q: nat, h: nat, b: nat, s: nat, start: nat)
    requires k > 0 && q <= k && h <= k && h != q && b < |data| && s == (if h < q then h else h - 1)
    requires start == s * (|data| / k) + if s < |data| % k then s else |data| % k
    ensures Covers(CutOf(|data|, k), |data|)
    ensures var len := |data| / k + if s < |data| % k then 1 else 0;
            && (b < len ==> start + b < |data|)
            && Layout(data, CutOf(|data|, k), q)[h][b] == if b < len then data[start + b] else 0
  {
    var c := CutOf(|data|, k);
    CutCovers(|data|, k);
    StartIs(c, s);
    StripeAt(data, c, s, b);
  }

  /** The parity host has, at every position, the exclusive or of what the other hosts have there. */
  lemma {:induction false} LayoutParity(data: seq<byte>, k: nat, q: nat, b: nat)
    requires k > 0 && q <= k && b < |data|
    ensures Covers(CutOf(|data|, k), |data|)
    ensures var rows := Layout(data, CutOf(|data|, k), q);
            rows[q][b] == Fold(seq(k, s requires 0 <= s < k => rows[if s < q then s else s + 1][b]))
  {
    var c := CutOf(|data|, k);
    CutCovers(|data|, k);
    var rows := Layout(data, c, q);
    var col := seq(k, s requires 0 <= s < k => rows[if s < q then s else s + 1][b]);
    assert col == StripeColumn(data, c, b);
  }

  // ---------- what a read returns ----------

  lemma {:induction false} StripeUsed(data: seq<byte>, c: Cut, q: nat, s: nat)
    requires Covers(c, |data|) && q <= c.stripes && s < c.stripes
    ensures Start(c, s) + Length(c, s) <= |data|
    ensures Used(Layout(data, c, q), c, |data|, q, s) == data[Start(c, s)..Start(c, s) + Length(c, s)]
  {
    StripeFits(c, |data|, s);
  }

  /** Buffers that hold the stripes of a page give the page. */
  lemma {:induction false} GatherIs(rows: seq<seq<byte>>, data: seq<byte>, c: Cut, q: nat, s: nat)
    requires Rows(rows, c, |data|) && s <= c.stripes
    requires forall i: nat | i < c.stripes :: Holds(rows, data, c, q, i)
    ensures Start(c, s) <= |data|
    ensures Gather(rows, c, |data|, q, s) == data[..Start(c, s)]
  {
    if s > 0 {
      GatherIs(rows, data, c, q, s - 1);
      assert Holds(rows, data, c, q, s - 1);
      Joined(data, Start(c, s - 1), Length(c, s - 1));
    }
  }

  ghost predicate Holds(rows: seq<seq<byte>>, data: seq<byte>, c: Cut, q: nat, s: nat)
    requires Rows(rows, c, |data|) && s < c.stripes
  {
    && Start(c, s) + Length(c, s) <= |data|
    && Used(rows, c, |data|, q, s) == data[Start(c, s)..Start(c, s) + Length(c, s)]
  }

  lemma {:induction false} GatherLayout(data: seq<byte>, c: Cut, q: nat)
    requires Covers(c, |data|) && q <= c.stripes
    ensures Gather(Layout(data, c, q), c, |data|, q, c.stripes) == data
  {
    forall i: nat | i < c.stripes
      ensures Holds(Layout(data, c, q), data, c, q, i)
    {
      StripeUsed(data, c, q, i);
    }
    GatherIs(Layout(data, c, q), data, c, q, c.stripes);
  }

  lemma {:induction false} Joined(data: seq<byte>, start: nat, len: nat)
    requires start + len <= |data|
    ensures data[..start] + data[start..start + len] == data[..start + len]
  {
  }

  /** Two sets of buffers give the same page if and only if they agree on what is taken. */
  lemma {:induction false} GatherSame(rows: seq<seq<byte>>, rows': seq<seq<byte>>, c: Cut, size: nat, q: nat, s: nat)
    requires Rows(rows, c, size) && Rows(rows', c, size) && s <= c.stripes
    ensures Gather(rows, c, size, q, s) == Gather(rows', c, size, q, s)
       <==> forall i | 0 <= i < s :: Used(rows, c, size, q, i) == Used(rows', c, size, q, i)
  {
    if s > 0 {
      GatherSame(rows, rows', c, size, q, s - 1);
      CatSame(Gather(rows, c, size, q, s - 1), Used(rows, c, size, q, s - 1),
              Gather(rows', c, size, q, s - 1), Used(rows', c, size, q, s - 1));
    }
  }

  lemma {:induction false} CatSame(a: seq<byte>, b: seq<byte>, a': seq<byte>, b': seq<byte>)
    requires |a| == |a'|
    ensures a + b == a' + b' <==> a == a' && b == b'
  {
    if a + b == a' + b' {
      assert a == (a + b)[..|a|] == (a' + b')[..|a|] == a';
      assert b == (a + b)[|a|..] == (a' + b')[|a|..] == b';
    }
  }

  // ---------- parity ----------

  lemma {:induction false} LayoutColumn(data: seq<byte>, c: Cut, q: nat, b: nat)
    requires Covers(c, |data|) && q <= c.stripes && b < |data|
    ensures var stripes := StripeColumn(data, c, b);
            Column(Layout(data, c, q), b) == stripes[..q] + [Fold(stripes)] + stripes[q..]
  {
    var stripes := StripeColumn(data, c, b);
    var want := stripes[..q] + [Fold(stripes)] + stripes[q..];
    forall h | 0 <= h <= c.stripes
      ensures Column(Layout(data, c, q), b)[h] == want[h]
    {
      SentByte(data, c, q, h, b);
    }
  }

  lemma {:induction false} SentByte(data: seq<byte>, c: Cut, q: nat, h: nat, b: nat)
    requires Covers(c, |data|) && q <= c.stripes && h <= c.stripes && b < |data|
    ensures var stripes := StripeColumn(data, c, b);
            Sent(data, c, q, h)[b] == if h < q then stripes[h] else if h == q then Fold(stripes) else stripes[h - 1]
  {
  }

  /** The bytes of a column cancel out. */
  lemma {:induction false} ColumnFolds(data: seq<byte>, c: Cut, q: nat, b: nat)
    requires Covers(c, |data|) && q <= c.stripes && b < |data|
    ensures Fold(Column(Layout(data, c, q), b)) == 0
  {
    LayoutColumn(data, c, q, b);
    FoldInserted(StripeColumn(data, c, b), q);
  }

  lemma {:induction false} FoldInserted(col: seq<byte>, q: nat)
    requires q <= |col|
    ensures Fold(col[..q] + [Fold(col)] + col[q..]) == 0
  {
    var a, b := col[..q], col[q..];
    assert col == a + b;
    FoldCat(a, b);
    FoldThree(a, Fold(col), b);
    Cancels(Fold(a), Fold(b));
  }

  lemma {:induction false} Cancels(x: byte, y: byte)
    ensures x ^ (x ^ y) ^ y == 0
  {
  }

  /** Repair is right when the bytes it folds, the lost one and the parity are all there are. */
  lemma {:induction false} RepairByteRight(rows: seq<seq<byte>>, lost: nat, q: nat, m: nat, b: nat)
    requires lost < m <= q < |rows| && forall h | 0 <= h < |rows| :: b < |rows[h]|
    requires Fold(Column(rows, b)) == 0
    requires forall j | m <= j < |rows| && j != q :: rows[j][b] == 0
    ensures RepairByte(Received(rows, lost), lost, q, m, b) == rows[lost][b]
  {
    var col := Column(rows, b);
    assert Column(Received(rows, lost), b)[..m][lost := 0] == col[..m][lost := 0];
    FoldSkip(col[..m], lost);
    FoldPrefix(col, m, q);
  }

  lemma {:induction false} FoldPrefix(col: seq<byte>, m: nat, q: nat)
    requires m <= q < |col| && Fold(col) == 0
    requires forall j | m <= j < |col| && j != q :: col[j] == 0
    ensures Fold(col[..m]) == col[q]
  {
    var rest := col[m..];
    assert col == col[..m] + rest;
    FoldCat(col[..m], rest);
    FoldOne(rest, q - m);
  }

  /** All zeros but one. */
  lemma {:induction false} FoldOne(col: seq<byte>, q: nat)
    requires q < |col| && forall j | 0 <= j < |col| && j != q :: col[j] == 0
    ensures Fold(col) == col[q]
  {
    assert col == col[..q] + [col[q]] + col[q + 1..];
    FoldThree(col[..q], col[q], col[q + 1..]);
    FoldZeros(col[..q]);
    FoldZeros(col[q + 1..]);
  }

  // ---------- when a page is recovered ----------

  /** Write a page, lose a host, read the page. */
  function ReadBack(data: seq<byte>, c: Cut, q: nat, lost: Lost): (r: seq<byte>)
    requires Covers(c, |data|) && q <= c.stripes && (lost.Host? ==> lost.index <= c.stripes)
  {
    Recovered(Layout(data, c, q), c, |data|, q, lost)
  }

  /** Nothing to repair, or the parity is where repair expects it, or no host after the parity
      has any data. */
  predicate CanRecover(c: Cut, q: nat, lost: Lost) {
    || lost == Nothing
    || lost.index == q
    || q == c.stripes
    || Length(c, StripeOf(lost.index, q)) == 0
    || (c.width == 0 && c.longer <= q)
  }

  /** In the last byte of the longer stripes, the other stripes have nothing. */
  lemma {:induction false} RowsZero(data: seq<byte>, c: Cut, q: nat, b: nat)
    requires Covers(c, |data|) && c.longer <= q <= c.stripes && c.width <= b < |data|
    ensures forall j | c.longer <= j <= c.stripes && j != q :: Layout(data, c, q)[j][b] == 0
  {
    forall j | c.longer <= j <= c.stripes && j != q
      ensures Layout(data, c, q)[j][b] == 0
    {
      StripeAt(data, c, StripeOf(j, q), b);
    }
  }

  lemma {:induction false} RepairRight(data: seq<byte>, c: Cut, q: nat, lost: nat, b: nat)
    requires Covers(c, |data|) && q <= c.stripes && lost <= c.stripes && lost != q
    requires q == c.stripes || (c.width == 0 && c.longer <= q)
    requires b < Length(c, StripeOf(lost, q)) && b < |data|
    ensures var rows := Layout(data, c, q);
            Repair(Received(rows, lost), c, |data|, lost, q)[b] == rows[lost][b]
  {
    var rows := Layout(data, c, q);
    ColumnFolds(data, c, q, b);
    if b < c.width {
      RepairByteRight(rows, lost, q, c.stripes, b);
    } else {
      RowsZero(data, c, q, b);
      RepairByteRight(rows, lost, q, c.longer, b);
    }
  }

  /** Every stripe that is taken is the one that was sent. */
  lemma {:induction false} ReadyUsed(data: seq<byte>, c: Cut, q: nat, lost: Lost, s: nat)
    requires Covers(c, |data|) && q <= c.stripes && (lost.Host? ==> lost.index <= c.stripes) && s < c.stripes
    requires CanRecover(c, q, lost)
    ensures Used(Ready(Layout(data, c, q), c, |data|, q, lost), c, |data|, q, s)
         == Used(Layout(data, c, q), c, |data|, q, s)
  {
    var rows, h := Layout(data, c, q), HostOf(s, q);
    var ready := Ready(rows, c, |data|, q, lost);
    StripeFits(c, |data|, s);
    if lost == Host(h) {
      forall b: nat | b < Length(c, s)
        ensures ready[h][b] == rows[h][b]
      {
        RepairRight(data, c, q, h, b);
      }
    } else {
      assert ready[h] == rows[h];
    }
  }

  lemma {:induction false} Recovers(data: seq<byte>, c: Cut, q: nat, lost: Lost)
    requires Covers(c, |data|) && q <= c.stripes && (lost.Host? ==> lost.index <= c.stripes)
    requires CanRecover(c, q, lost)
    ensures ReadBack(data, c, q, lost) == data
  {
    var rows := Layout(data, c, q);
    var ready := Ready(rows, c, |data|, q, lost);
    forall s | 0 <= s < c.stripes
      ensures Used(ready, c, |data|, q, s) == Used(rows, c, |data|, q, s)
    {
      ReadyUsed(data, c, q, lost, s);
    }
    GatherSame(ready, rows, c, |data|, q, c.stripes);
    GatherLayout(data, c, q);
  }

  /** A page that is zero but for the first byte of stripe s. */
  function Spike(c: Cut, size: nat, s: nat): (data: seq<byte>)
    ensures |data| == size
  {
    seq(size, i => if i == Start(c, s) then 1 else 0)
  }

  lemma {:induction false} SpikeColumn(c: Cut, size: nat, s: nat, i: nat)
    requires Covers(c, size) && s < c.stripes && Length(c, s) > 0 && i < c.stripes && size > 0
    ensures Stripe(Spike(c, size, s), c, i)[0] == if i == s then 1 else 0
  {
    StripeFits(c, size, i);
    if i < s {
      StartGrows(c, i + 1, s);
    } else if s < i {
      StartGrows(c, s + 1, i);
    }
  }

  /** Of the first bytes of the buffers, only the spike and the parity are not zero. */
  lemma {:induction false} SpikeRows(c: Cut, size: nat, q: nat, lost: nat)
    requires Covers(c, size) && q <= c.stripes && lost <= c.stripes && lost != q && size > 0
    requires Length(c, StripeOf(lost, q)) > 0
    ensures var rows := Layout(Spike(c, size, StripeOf(lost, q)), c, q);
            rows[lost][0] == 1 == rows[q][0] && forall h | 0 <= h <= c.stripes && h != lost && h != q :: rows[h][0] == 0
  {
    var s := StripeOf(lost, q);
    var data := Spike(c, size, s);
    forall i: nat | i < c.stripes
      ensures Stripe(data, c, i)[0] == if i == s then 1 else 0
    {
      SpikeColumn(c, size, s, i);
    }
    FoldOne(StripeColumn(data, c, 0), s);
  }

  /** Folding the parity in twice, repair finds nothing. */
  lemma {:induction false} SpikeRepaired(rows: seq<seq<byte>>, lost: nat, q: nat, m: nat)
    requires lost < |rows| && q < m <= |rows| && lost != q && forall h | 0 <= h < |rows| :: |rows[h]| > 0
    requires rows[q][0] == 1 && forall h | 0 <= h < |rows| && h != lost && h != q :: rows[h][0] == 0
    ensures RepairByte(Received(rows, lost), lost, q, m, 0) == 0
  {
    var col := Column(Received(rows, lost), 0);
    FoldOne(if lost < m then col[..m][lost := 0] else col[..m], q);
  }

  /** Where the condition fails, some page is not recovered. */
  lemma {:induction false} Fails(c: Cut, size: nat, q: nat, lost: nat)
    requires Covers(c, size) && q <= c.stripes && lost <= c.stripes && !CanRecover(c, q, Host(lost))
    ensures ReadBack(Spike(c, size, StripeOf(lost, q)), c, q, Host(lost)) != Spike(c, size, StripeOf(lost, q))
  {
    var s := StripeOf(lost, q);
    StripeFits(c, size, s);
    var data := Spike(c, size, s);
    var rows := Layout(data, c, q);
    SpikeRows(c, size, q, lost);
    var repaired := Repair(Received(rows, lost), c, size, lost, q);
    assert repaired[0] == 0 by {
      if c.width > 0 {
        SpikeRepaired(rows, lost, q, c.stripes);
      } else if lost < c.longer {
        SpikeRepaired(rows, lost, q, c.longer);
      }
    }
    var ready := Ready(rows, c, size, q, Host(lost));
    assert Used(ready, c, size, q, s)[0] == 0 && Used(rows, c, size, q, s)[0] == 1;
    GatherSame(ready, rows, c, size, q, c.stripes);
    GatherLayout(data, c, q);
  }

  /** Every page survives the loss if and only if the condition holds, for every page size, every
      number of hosts, every place of the parity and every lost host. */
  lemma {:induction false} RecoversIff(size: nat, n: nat, q: nat, lost: Lost)
    requires n >= 2 && q < n && (lost.Host? ==> lost.index < n)
    ensures Covers(CutOf(size, n - 1), size)
    ensures (forall data: seq<byte> | |data| == size :: ReadBack(data, CutOf(size, n - 1), q, lost) == data)
       <==> CanRecover(CutOf(size, n - 1), q, lost)
  {
    var c := CutOf(size, n - 1);
    CutCovers(size, n - 1);
    if CanRecover(c, q, lost) {
      forall data: seq<byte> | |data| == size
        ensures ReadBack(data, c, q, lost) == data
      {
        Recovers(data, c, q, lost);
      }
    } else {
      Fails(c, size, q, lost.index);
    }
  }

  /** Level 4: the page that was written is read, whichever host is lost. */
  lemma {:induction false} LevelFourRecovers(data: seq<byte>, n: nat, lost: Lost)
    requires n >= 2 && (lost.Host? ==> lost.index < n)
    ensures Covers(CutOf(|data|, n - 1), |data|)
    ensures ReadBack(data, CutOf(|data|, n - 1), n - 1, lost) == data
  {
    CutCovers(|data|, n - 1);
    Recovers(data, CutOf(|data|, n - 1), n - 1, lost);
  }
}
