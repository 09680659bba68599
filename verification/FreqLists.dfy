/**
 The frequency list of the LFU handler: a doubly linked list of buckets, each bucket a doubly
 linked list of pages that points back to its bucket.
 */
module FreqLists {
  import opened Sequences
  import opened Frequency

  class LfuNode {
    const key: nat
    var next: LfuNode?
    var prev: LfuNode?
    var parent: FreqNode?

    constructor (key: nat)
      ensures this.key == key && next == null && prev == null && parent == null
    {
      this.key := key;
      next, prev, parent := null, null, null;
    }
  }

  class FreqNode {
    const useCount: nat
    var next: FreqNode?
    var prev: FreqNode?
    var head: LfuNode?
    var tail: LfuNode?

    constructor (useCount: nat)
      ensures this.useCount == useCount && next == null && prev == null && head == null && tail == null
    {
      this.useCount := useCount;
      next, prev, head, tail := null, null, null, null;
    }
  }

  ghost function KeysOf(row: seq<LfuNode>): (keys: seq<nat>)
    ensures |keys| == |row| && forall i | 0 <= i < |keys| :: keys[i] == row[i].key
  {
    seq(|row|, i requires 0 <= i < |row| => row[i].key)
  }

  /** The nodes are chained in this order, forwards and backwards. */
  ghost predicate Strung(row: seq<LfuNode>)
    reads row
  {
    && Distinct(row)
    && (forall i {:trigger row[i].prev} | 0 <= i < |row| :: row[i].prev == if i == 0 then null else row[i - 1])
    && (forall i {:trigger row[i].next} | 0 <= i < |row| :: row[i].next == if i == |row| - 1 then null else row[i + 1])
  }

  /** The bucket holds exactly these nodes, in this order. */
  ghost predicate RowWired(f: FreqNode, row: seq<LfuNode>)
    reads f`head, f`tail, row
  {
    && Strung(row)
    && f.head == (if |row| == 0 then null else row[0])
    && f.tail == (if |row| == 0 then null else row[|row| - 1])
    && (forall i {:trigger row[i].parent} | 0 <= i < |row| :: row[i].parent == f)
  }

  /** The assignments that take a node out of its chain. */
  method BypassItem(node: LfuNode, ghost row: seq<LfuNode>, ghost k: nat)
    requires Strung(row) && k < |row| && node == row[k]
    modifies row`next, row`prev
    ensures Strung(Taken(row, k)) && node.prev == old(node.prev) && node.next == old(node.next)
  {
    if node.prev != null {
      node.prev.next := node.next;
    }
    if node.next != null {
      node.next.prev := node.prev;
    }
    TakenDistinct(row, k);
    ghost var rest := Taken(row, k);
    forall i {:trigger rest[i].prev} | 0 <= i < |rest|
      ensures rest[i].prev == if i == 0 then null else rest[i - 1]
    {
      assert rest[i] == row[if i < k then i else i + 1];
      assert i > 0 ==> rest[i - 1] == row[if i - 1 < k then i - 1 else i];
    }
    forall i {:trigger rest[i].next} | 0 <= i < |rest|
      ensures rest[i].next == if i == |rest| - 1 then null else rest[i + 1]
    {
      assert rest[i] == row[if i < k then i else i + 1];
      assert i + 1 < |rest| ==> rest[i + 1] == row[if i + 1 < k then i + 1 else i + 2];
    }
  }

  /** Takes the k-th node out of its bucket's list. */
  method UnlinkItem(node: LfuNode, f: FreqNode, ghost row: seq<LfuNode>, ghost k: nat)
    requires RowWired(f, row) && k < |row| && node == row[k] && node.parent == f
    modifies f`head, f`tail, row`next, row`prev
    ensures RowWired(f, Taken(row, k))
  {
    BypassItem(node, row, k);
    if f.head == node {
      f.head := node.next;
    }
    if f.tail == node {
      f.tail := node.prev;
    }
  }

  /** Puts a node at the head of a bucket's list. */
  method PushItem(node: LfuNode, f: FreqNode, ghost row: seq<LfuNode>)
    requires RowWired(f, row) && node !in row
    modifies f`head, f`tail, row`prev, node
    ensures RowWired(f, [node] + row)
  {
    node.parent := f;
    if f.head != null {
      f.head.prev := node;
    }
    node.next := f.head;
    node.prev := null;
    f.head := node;
    if f.tail == null {
      f.tail := node;
    }
  }

  /** Use counts go up along the chain. */
  ghost predicate Rising(freqs: seq<FreqNode>) {
    forall i, j {:trigger freqs[i].useCount, freqs[j].useCount} | 0 <= i < j < |freqs| ::
      freqs[i].useCount < freqs[j].useCount
  }

  /** No other bucket is the i-th one, if there is an i-th one. */
  ghost predicate Unique(freqs: seq<FreqNode>, i: int) {
    0 <= i < |freqs| ==> forall j | 0 <= j < |freqs| && j != i :: freqs[j] != freqs[i]
  }

  lemma {:induction false} RisingUnique(freqs: seq<FreqNode>, i: int)
    requires Rising(freqs)
    ensures Unique(freqs, i)
  {
    assert 0 <= i < |freqs| ==>
      forall j {:trigger freqs[j]} | 0 <= j < |freqs| && j != i :: freqs[j].useCount != freqs[i].useCount;
  }

  /** The buckets are chained in this order. Nothing is said about the first one's back link:
      removing the first bucket leaves it pointing at the removed one. */
  ghost predicate FreqsLinked(freqs: seq<FreqNode>)
    reads freqs`next, freqs`prev
  {
    && (forall i {:trigger freqs[i].prev} | 0 < i < |freqs| :: freqs[i].prev == freqs[i - 1])
    && (forall i {:trigger freqs[i].next} | 0 <= i < |freqs| ::
          freqs[i].next == if i == |freqs| - 1 then null else freqs[i + 1])
  }

  /** x put in after the i-th element. */
  function Inserted<T>(s: seq<T>, i: nat, x: T): (r: seq<T>)
    requires i < |s|
    ensures |r| == |s| + 1
    ensures forall j | 0 <= j < |r| :: r[j] == if j <= i then s[j] else if j == i + 1 then x else s[j - 1]
  {
    s[..i + 1] + [x] + s[i + 1..]
  }

  lemma {:induction false} RisingInserted(freqs: seq<FreqNode>, i: nat, added: FreqNode)
    requires Rising(freqs) && i < |freqs| && added.useCount == freqs[i].useCount + 1
    requires i + 1 < |freqs| ==> freqs[i + 1].useCount > added.useCount
    ensures Rising(Inserted(freqs, i, added))
  {
  }

  lemma {:induction false} RisingTaken(freqs: seq<FreqNode>, i: nat)
    requires Rising(freqs) && i < |freqs|
    ensures Rising(Taken(freqs, i))
  {
  }

  /** A new bucket for the next use count, after the i-th one. */
  method InsertAfter(f: FreqNode, ghost freqs: seq<FreqNode>, ghost i: nat) returns (added: FreqNode)
    requires FreqsLinked(freqs) && i < |freqs| && freqs[i] == f
    requires Unique(freqs, i) && Unique(freqs, i + 1)
    modifies freqs`next, freqs`prev
    ensures fresh(added) && added.useCount == f.useCount + 1 && added.head == null && added.tail == null
    ensures FreqsLinked(Inserted(freqs, i, added))
    ensures freqs[0].prev == old(freqs[0].prev)
  {
    added := new FreqNode(f.useCount + 1);
    if f.next != null {
      f.next.prev := added;
      added.next := f.next;
    }
    f.next := added;
    added.prev := f;
  }

  /** Takes an empty bucket out of the chain; another one follows it. */
  method RemoveFreq(f: FreqNode, ghost freqs: seq<FreqNode>, ghost i: nat)
    requires FreqsLinked(freqs) && i + 1 < |freqs| && freqs[i] == f && freqs[0].prev == null
    requires Unique(freqs, i - 1) && Unique(freqs, i) && Unique(freqs, i + 1)
    modifies freqs`next, freqs`prev
    ensures FreqsLinked(Taken(freqs, i))
    ensures Taken(freqs, i)[0].prev == null
    ensures f.next == old(f.next)
  {
    if f.prev != null {
      f.prev.next := f.next;
    }
    if f.next != null {
      f.next.prev := f.prev;
    }
  }

  ghost predicate RowsWired(freqs: seq<FreqNode>, rows: seq<seq<LfuNode>>)
    requires |freqs| == |rows|
    reads freqs`head, freqs`tail, set i, k | 0 <= i < |rows| && 0 <= k < |rows[i]| :: rows[i][k]
  {
    forall i | 0 <= i < |freqs| :: RowWired(freqs[i], rows[i])
  }

  lemma {:induction false} RowsInserted(freqs: seq<FreqNode>, rows: seq<seq<LfuNode>>, i: nat, added: FreqNode)
    requires |freqs| == |rows| && i < |freqs| && RowsWired(freqs, rows)
    requires added.head == null && added.tail == null
    ensures RowsWired(Inserted(freqs, i, added), Inserted(rows, i, []))
  {
    assert RowWired(added, []);
  }

  /** No node of another bucket is in the i-th one. */
  ghost predicate Apart(rows: seq<seq<LfuNode>>, i: int) {
    0 <= i < |rows| ==>
      forall j, l | 0 <= j < |rows| && j != i && 0 <= l < |rows[j]| :: rows[j][l] !in rows[i]
  }

  lemma {:induction false} RowsApart(freqs: seq<FreqNode>, rows: seq<seq<LfuNode>>, i: nat)
    requires |freqs| == |rows| && RowsWired(freqs, rows) && Unique(freqs, i)
    ensures Apart(rows, i)
  {
    if i < |rows| {
      forall j, l | 0 <= j < |rows| && j != i && 0 <= l < |rows[j]|
        ensures rows[j][l] !in rows[i]
      {
        assert RowWired(freqs[j], rows[j]) && RowWired(freqs[i], rows[i]);
        assert rows[j][l].parent == freqs[j] != freqs[i];
        assert forall k | 0 <= k < |rows[i]| :: rows[i][k].parent == freqs[i];
      }
    }
  }

  ghost function Items(rows: seq<seq<LfuNode>>): (r: set<LfuNode>) {
    set i, k | 0 <= i < |rows| && 0 <= k < |rows[i]| :: rows[i][k]
  }

  /** Every pointer of the structure, except the first bucket's back link. */
  ghost predicate Wired(freqs: seq<FreqNode>, rows: seq<seq<LfuNode>>)
    reads freqs, Items(rows)
  {
    |freqs| == |rows| && Rising(freqs) && FreqsLinked(freqs) && RowsWired(freqs, rows)
  }

  ghost predicate Anchored(freqs: seq<FreqNode>)
    reads freqs`prev
  {
    |freqs| > 0 ==> freqs[0].prev == null
  }

  ghost predicate Within(freqs: seq<FreqNode>, repr: set<FreqNode>) {
    forall j | 0 <= j < |freqs| :: freqs[j] in repr
  }

  lemma {:induction false} WithinInserted(freqs: seq<FreqNode>, repr: set<FreqNode>, i: nat, added: FreqNode)
    requires i < |freqs| && Within(freqs, repr)
    ensures Within(Inserted(freqs, i, added), repr + {added})
  {
  }

  lemma {:induction false} WithinTaken(freqs: seq<FreqNode>, repr: set<FreqNode>, i: nat)
    requires i < |freqs| && Within(freqs, repr)
    ensures Within(Taken(freqs, i), repr)
  {
  }

  /** The first part of `moveNodeToNextFreq`: a bucket for the next use count. */
  method EnsureNext(f: FreqNode, ghost freqs: seq<FreqNode>, ghost rows: seq<seq<LfuNode>>, ghost i: nat,
                    ghost repr: set<FreqNode>)
    returns (ghost fs: seq<FreqNode>, ghost rs: seq<seq<LfuNode>>, ghost more: set<FreqNode>)
    requires Wired(freqs, rows) && Anchored(freqs) && i < |freqs| && freqs[i] == f && Within(freqs, repr)
    modifies repr`next, repr`prev
    ensures Wired(fs, rs) && Anchored(fs)
    ensures i + 1 < |fs| && fs[i] == f && fs[i + 1].useCount == f.useCount + 1
    ensures if i + 1 < |freqs| && freqs[i + 1].useCount == f.useCount + 1
            then fs == freqs && rs == rows
            else fs == Inserted(freqs, i, fs[i + 1]) && rs == Inserted(rows, i, []) && fresh(fs[i + 1])
    ensures Within(fs, more) && repr <= more && fresh(more - repr)
    ensures Items(rs) == Items(rows)
  {
    fs, rs, more := freqs, rows, repr;
    if f.next == null || f.next.useCount > f.useCount + 1 {
      RisingUnique(freqs, i);
      RisingUnique(freqs, i + 1);
      var added := InsertAfter(f, freqs, i);
      RisingInserted(freqs, i, added);
      RowsInserted(freqs, rows, i, added);
      fs, rs, more := Inserted(freqs, i, added), Inserted(rows, i, []), repr + {added};
      WithinInserted(freqs, repr, i, added);
      ItemsInserted(rows, i);
    }
  }

  lemma {:induction false} ItemsInserted(rows: seq<seq<LfuNode>>, i: nat)
    requires i < |rows|
    ensures Items(Inserted(rows, i, [])) == Items(rows)
  {
    var r := Inserted(rows, i, []);
    assert forall j | 0 <= j <= i :: r[j] == rows[j];
    forall j | i < j < |rows|
      ensures r[j + 1] == rows[j]
    {
    }
    assert Items(rows) <= Items(r);
  }

  /** The second part: the node leaves its bucket and becomes the head of the next one. */
  method MoveItem(node: LfuNode, ghost freqs: seq<FreqNode>, ghost rows: seq<seq<LfuNode>>, ghost i: nat, ghost k: nat)
    returns (ghost rs: seq<seq<LfuNode>>)
    requires Wired(freqs, rows) && Anchored(freqs)
    requires i + 1 < |freqs| && k < |rows[i]| && rows[i][k] == node
    modifies freqs`head, freqs`tail, Items(rows)
    ensures rs == rows[i := Taken(rows[i], k)][i + 1 := [node] + rows[i + 1]]
    ensures Wired(freqs, rs) && Anchored(freqs) && Items(rs) == Items(rows)
    ensures rs[i] == [] <==> freqs[i].head == null
  {
    RisingUnique(freqs, i);
    RisingUnique(freqs, i + 1);
    RowsApart(freqs, rows, i);
    RowsApart(freqs, rows, i + 1);
    Transfer(node, freqs, rows, i, k);
    ItemsTransferred(rows, i, k);
    rs := rows[i := Taken(rows[i], k)][i + 1 := [node] + rows[i + 1]];
    assert RowWired(freqs[i], rs[i]);
  }

  method Transfer(node: LfuNode, ghost freqs: seq<FreqNode>, ghost rows: seq<seq<LfuNode>>, ghost i: nat, ghost k: nat)
    requires |freqs| == |rows| && RowsWired(freqs, rows)
    requires i + 1 < |freqs| && k < |rows[i]| && rows[i][k] == node
    requires Unique(freqs, i) && Unique(freqs, i + 1) && freqs[i].next == freqs[i + 1]
    requires Apart(rows, i) && Apart(rows, i + 1)
    modifies freqs`head, freqs`tail, Items(rows)
    ensures RowsWired(freqs, rows[i := Taken(rows[i], k)][i + 1 := [node] + rows[i + 1]])
  {
    assert RowWired(freqs[i], rows[i]);
    var temp := node.parent;
    TakeOut(node, temp, freqs, rows, i, k);
    ghost var rs := rows[i := Taken(rows[i], k)];
    TakenAbsent(rows, i, k);
    PushRow(node, temp.next, freqs, rs, i + 1);
  }

  method TakeOut(node: LfuNode, f: FreqNode, ghost freqs: seq<FreqNode>, ghost rows: seq<seq<LfuNode>>, ghost i: nat,
                 ghost k: nat)
    requires |freqs| == |rows| && RowsWired(freqs, rows) && i < |freqs| && k < |rows[i]| && rows[i][k] == node
    requires f == freqs[i] && Unique(freqs, i) && Apart(rows, i)
    modifies f`head, f`tail, rows[i]
    ensures RowsWired(freqs, rows[i := Taken(rows[i], k)])
  {
    assert RowWired(freqs[i], rows[i]);
    UnlinkItem(node, f, rows[i], k);
  }

  lemma {:induction false} TakenAbsent(rows: seq<seq<LfuNode>>, i: nat, k: nat)
    requires i + 1 < |rows| && k < |rows[i]| && Distinct(rows[i]) && Apart(rows, i) && Apart(rows, i + 1)
    ensures var rs := rows[i := Taken(rows[i], k)];
            Absent(rs, rows[i][k]) && Apart(rs, i + 1) && Items(rs) <= Items(rows)
  {
    TakenDistinct(rows[i], k);
  }

  /** The first bucket's back link is null or about to be overwritten by the next insertion. */
  ghost predicate Mendable(freqs: seq<FreqNode>)
    reads freqs`prev
  {
    |freqs| > 0 && freqs[0].useCount == 0 ==> freqs[0].prev == null
  }

  ghost predicate Absent(rows: seq<seq<LfuNode>>, node: LfuNode) {
    forall i, k | 0 <= i < |rows| && 0 <= k < |rows[i]| :: rows[i][k] != node
  }

  /** A new node joins the first bucket. */
  method PushFirst(node: LfuNode, f: FreqNode, ghost freqs: seq<FreqNode>, ghost rows: seq<seq<LfuNode>>)
    requires Wired(freqs, rows) && |freqs| > 0 && f == freqs[0] && Absent(rows, node)
    modifies f`head, f`tail, Items(rows), node
    ensures Wired(freqs, rows[0 := [node] + rows[0]])
  {
    RisingUnique(freqs, 0);
    RowsApart(freqs, rows, 0);
    PushRow(node, f, freqs, rows, 0);
  }

  method PushRow(node: LfuNode, f: FreqNode, ghost freqs: seq<FreqNode>, ghost rows: seq<seq<LfuNode>>, ghost i: nat)
    requires |freqs| == |rows| && RowsWired(freqs, rows) && i < |freqs| && f == freqs[i]
    requires Absent(rows, node) && Unique(freqs, i) && Apart(rows, i)
    modifies f`head, f`tail, rows[i], node
    ensures RowsWired(freqs, rows[i := [node] + rows[i]])
  {
    assert RowWired(freqs[i], rows[i]);
    PushItem(node, f, rows[i]);
  }

  /** A new first bucket with one node in it. */
  method AddFirst(node: LfuNode, head: FreqNode?, ghost freqs: seq<FreqNode>, ghost rows: seq<seq<LfuNode>>)
    returns (added: FreqNode)
    requires Wired(freqs, rows) && Absent(rows, node) && node.next == null && node.prev == null
    requires head == if |freqs| == 0 then null else freqs[0]
    requires |freqs| > 0 ==> freqs[0].useCount > 0
    modifies freqs`prev, node
    ensures fresh(added) && added.useCount == 0 && Wired([added] + freqs, [[node]] + rows)
    ensures Anchored([added] + freqs)
  {
    RisingUnique(freqs, 0);
    added := Single(node, freqs, rows);
    RisingFirst(freqs, added);
    LinkFirst(added, head, freqs);
  }

  /** The bucket, not yet linked to the others. */
  method Single(node: LfuNode, ghost freqs: seq<FreqNode>, ghost rows: seq<seq<LfuNode>>) returns (added: FreqNode)
    requires |freqs| == |rows| && RowsWired(freqs, rows) && Absent(rows, node) && node.next == null && node.prev == null
    modifies node`parent
    ensures fresh(added) && added.useCount == 0 && added.next == null && added.prev == null
    ensures RowsWired([added] + freqs, [[node]] + rows)
  {
    added := new FreqNode(0);
    added.head := node;
    added.tail := node;
    node.parent := added;
    assert RowWired(added, [node]) && RowsWired(freqs, rows);
  }

  lemma {:induction false} RisingFirst(freqs: seq<FreqNode>, added: FreqNode)
    requires Rising(freqs) && (|freqs| > 0 ==> added.useCount < freqs[0].useCount)
    ensures Rising([added] + freqs)
  {
  }

  method LinkFirst(added: FreqNode, head: FreqNode?, ghost freqs: seq<FreqNode>)
    requires FreqsLinked(freqs) && Unique(freqs, 0) && added !in freqs && added.next == null
    requires head == if |freqs| == 0 then null else freqs[0]
    modifies added`next, freqs`prev
    ensures FreqsLinked([added] + freqs) && added.prev == old(added.prev)
  {
    if head != null {
      head.prev := added;
      added.next := head;
    }
  }

  /** The first bucket loses its tail. */
  method UnlinkLast(f: FreqNode, ghost freqs: seq<FreqNode>, ghost rows: seq<seq<LfuNode>>)
    requires Wired(freqs, rows) && |freqs| > 0 && f == freqs[0] && |rows[0]| > 0
    modifies f`head, f`tail, Items(rows)
    ensures Wired(freqs, rows[0 := rows[0][..|rows[0]| - 1]])
    ensures f.head == null <==> |rows[0]| == 1
  {
    RisingUnique(freqs, 0);
    RowsApart(freqs, rows, 0);
    PopRow(f, freqs, rows);
  }

  method PopRow(f: FreqNode, ghost freqs: seq<FreqNode>, ghost rows: seq<seq<LfuNode>>)
    requires |freqs| == |rows| && RowsWired(freqs, rows) && |freqs| > 0 && f == freqs[0] && |rows[0]| > 0
    requires Unique(freqs, 0) && Apart(rows, 0)
    modifies f`head, f`tail, Items(rows)
    ensures RowsWired(freqs, rows[0 := rows[0][..|rows[0]| - 1]])
    ensures f.head == null <==> |rows[0]| == 1
  {
    ghost var row, last := rows[0], |rows[0]| - 1;
    assert RowWired(f, row);
    UnlinkItem(f.tail, f, row, last);
    assert Taken(row, last) == row[..last];
  }

  // ---------- what the pointers mean ----------

  ghost function BucketsOf(freqs: seq<FreqNode>, rows: seq<seq<LfuNode>>): (bs: seq<Bucket>)
    requires |freqs| == |rows|
  {
    seq(|freqs|, i requires 0 <= i < |freqs| => Bucket(freqs[i].useCount, KeysOf(rows[i])))
  }

  /** The three parts of `moveNodeToNextFreq`, by position: make the next bucket, move the k-th
      page of the i-th bucket to its head, drop the i-th bucket if that emptied it. */
  function WithNext(bs: seq<Bucket>, i: nat): (r: seq<Bucket>)
    requires i < |bs|
    ensures i + 1 < |r| && r[i] == bs[i]
  {
    if i + 1 < |bs| && bs[i + 1].uses == bs[i].uses + 1 then bs
    else Inserted(bs, i, Bucket(bs[i].uses + 1, []))
  }

  function Moved(bs: seq<Bucket>, i: nat, k: nat): (r: seq<Bucket>)
    requires i + 1 < |bs| && k < |bs[i].pages|
  {
    var page := bs[i].pages[k];
    bs[i := Bucket(bs[i].uses, Taken(bs[i].pages, k))][i + 1 := Bucket(bs[i + 1].uses, [page] + bs[i + 1].pages)]
  }

  function Trimmed(bs: seq<Bucket>, i: nat): (r: seq<Bucket>)
    requires i < |bs|
  {
    if bs[i].pages == [] then Taken(bs, i) else bs
  }

  lemma {:induction false} BumpIs(bs: seq<Bucket>, i: nat, k: nat)
    requires Ordered(bs) && i < |bs| && k < |bs[i].pages|
    ensures Bump(bs, bs[i].pages[k]) == Trimmed(Moved(WithNext(bs, i), i, k), i)
  {
    if i == 0 {
      BumpFirst(bs, k);
    } else {
      InPageSet(bs[1..], i - 1, k);
      BumpIs(bs[1..], i - 1, k);
      ShiftNext(bs, i);
      ShiftMoved(WithNext(bs, i), i, k);
      ShiftTrimmed(Moved(WithNext(bs, i), i, k), i);
    }
  }

  lemma {:induction false} ShiftNext(bs: seq<Bucket>, i: nat)
    requires 0 < i < |bs|
    ensures WithNext(bs, i)[1..] == WithNext(bs[1..], i - 1) && WithNext(bs, i)[0] == bs[0]
  {
    ShiftInserted(bs, i, Bucket(bs[i].uses + 1, []));
  }

  lemma {:induction false} ShiftInserted(bs: seq<Bucket>, i: nat, added: Bucket)
    requires 0 < i < |bs|
    ensures Inserted(bs, i, added)[1..] == Inserted(bs[1..], i - 1, added)
  {
    assert bs[..i + 1][1..] == bs[1..][..i];
  }

  lemma {:induction false} ShiftMoved(bs: seq<Bucket>, i: nat, k: nat)
    requires 0 < i && i + 1 < |bs| && k < |bs[i].pages|
    ensures Moved(bs, i, k)[1..] == Moved(bs[1..], i - 1, k) && Moved(bs, i, k)[0] == bs[0]
  {
  }

  lemma {:induction false} ShiftTrimmed(bs: seq<Bucket>, i: nat)
    requires 0 < i < |bs|
    ensures Trimmed(bs, i) == [bs[0]] + Trimmed(bs[1..], i - 1)
  {
    assert bs == [bs[0]] + bs[1..];
    assert Taken(bs, i) == [bs[0]] + Taken(bs[1..], i - 1);
  }

  lemma {:induction false} InPageSet(bs: seq<Bucket>, i: nat, k: nat)
    requires i < |bs| && k < |bs[i].pages|
    ensures bs[i].pages[k] in PageSet(bs)
  {
    if i > 0 {
      InPageSet(bs[1..], i - 1, k);
    }
  }

  lemma {:induction false} BumpFirst(bs: seq<Bucket>, k: nat)
    requires |bs| > 0 && k < |bs[0].pages| && Distinct(bs[0].pages)
    requires |bs| > 1 ==> bs[0].uses < bs[1].uses
    ensures Bump(bs, bs[0].pages[k]) == Trimmed(Moved(WithNext(bs, 0), 0, k), 0)
  {
    WithoutAt(bs[0].pages, k);
    MovedFirst(bs, k);
  }

  lemma {:induction false} MovedFirst(bs: seq<Bucket>, k: nat)
    requires |bs| > 0 && k < |bs[0].pages| && (|bs| > 1 ==> bs[0].uses < bs[1].uses)
    ensures Moved(WithNext(bs, 0), 0, k)
         == [Bucket(bs[0].uses, Taken(bs[0].pages, k))] + Raise(bs[0].uses + 1, bs[1..], bs[0].pages[k])
  {
    var page, uses := bs[0].pages[k], bs[0].uses + 1;
    var moved := Moved(WithNext(bs, 0), 0, k);
    if |bs| > 1 && bs[1].uses == uses {
      assert moved[1] == Bucket(uses, [page] + bs[1].pages);
      assert moved[2..] == bs[2..] == bs[1..][1..];
    } else {
      assert moved[1] == Bucket(uses, [page]);
      assert moved[2..] == bs[1..];
    }
  }

  lemma {:induction false} BucketsWithNext(freqs: seq<FreqNode>, rows: seq<seq<LfuNode>>, i: nat, added: FreqNode)
    requires |freqs| == |rows| && i < |freqs| && added.useCount == freqs[i].useCount + 1
    requires !(i + 1 < |freqs| && freqs[i + 1].useCount == freqs[i].useCount + 1)
    ensures BucketsOf(Inserted(freqs, i, added), Inserted(rows, i, [])) == WithNext(BucketsOf(freqs, rows), i)
  {
    assert BucketsOf(Inserted(freqs, i, added), Inserted(rows, i, []))
        == Inserted(BucketsOf(freqs, rows), i, Bucket(added.useCount, []));
  }

  lemma {:induction false} BucketsMove(freqs: seq<FreqNode>, rows: seq<seq<LfuNode>>, i: nat, k: nat)
    requires |freqs| == |rows| && i + 1 < |rows| && k < |rows[i]|
    ensures BucketsOf(freqs, rows[i := Taken(rows[i], k)][i + 1 := [rows[i][k]] + rows[i + 1]])
         == Moved(BucketsOf(freqs, rows), i, k)
  {
    assert KeysOf(Taken(rows[i], k)) == Taken(KeysOf(rows[i]), k);
    assert KeysOf([rows[i][k]] + rows[i + 1]) == [rows[i][k].key] + KeysOf(rows[i + 1]);
  }

  lemma {:induction false} BucketsMoved(freqs: seq<FreqNode>, rows: seq<seq<LfuNode>>, fs: seq<FreqNode>,
                                        rs: seq<seq<LfuNode>>, i: nat, k: nat)
    requires |freqs| == |rows| && |fs| == |rs| && i < |rows| && i + 1 < |rs| && k < |rows[i]|
    requires if i + 1 < |freqs| && freqs[i + 1].useCount == freqs[i].useCount + 1
             then fs == freqs && rs == rows
             else fs == Inserted(freqs, i, fs[i + 1]) && rs == Inserted(rows, i, [])
                  && fs[i + 1].useCount == freqs[i].useCount + 1
    ensures BucketsOf(fs, rs[i := Taken(rs[i], k)][i + 1 := [rs[i][k]] + rs[i + 1]])
         == Moved(WithNext(BucketsOf(freqs, rows), i), i, k)
  {
    if !(i + 1 < |freqs| && freqs[i + 1].useCount == freqs[i].useCount + 1) {
      BucketsWithNext(freqs, rows, i, fs[i + 1]);
    }
    BucketsMove(fs, rs, i, k);
  }

  lemma {:induction false} BucketsTaken(freqs: seq<FreqNode>, rows: seq<seq<LfuNode>>, i: nat)
    requires |freqs| == |rows| && i < |freqs|
    ensures BucketsOf(Taken(freqs, i), Taken(rows, i)) == Taken(BucketsOf(freqs, rows), i)
  {
  }

  lemma {:induction false} BucketsInsert(freqs: seq<FreqNode>, rows: seq<seq<LfuNode>>, fs: seq<FreqNode>,
                                         rs: seq<seq<LfuNode>>, node: LfuNode)
    requires |freqs| == |rows| && |fs| == |rs|
    requires if |freqs| > 0 && freqs[0].useCount == 0
             then fs == freqs && rs == rows[0 := [node] + rows[0]]
             else |fs| > 0 && fs[0].useCount == 0 && fs == [fs[0]] + freqs && rs == [[node]] + rows
    ensures BucketsOf(fs, rs) == Insert(BucketsOf(freqs, rows), node.key)
  {
    if |freqs| > 0 && freqs[0].useCount == 0 {
      assert KeysOf([node] + rows[0]) == [node.key] + KeysOf(rows[0]);
    } else {
      assert KeysOf([node]) == [node.key];
    }
  }

  lemma {:induction false} BucketsDropLast(freqs: seq<FreqNode>, rows: seq<seq<LfuNode>>)
    requires |freqs| == |rows| && |freqs| > 0 && |rows[0]| > 0
    ensures var rest := rows[0][..|rows[0]| - 1];
            var bs := if rest == [] then BucketsOf(freqs[1..], rows[0 := rest][1..])
                      else BucketsOf(freqs, rows[0 := rest]);
            DropLeast(BucketsOf(freqs, rows)) == bs
  {
    var rest := rows[0][..|rows[0]| - 1];
    assert KeysOf(rest) == KeysOf(rows[0])[..|rows[0]| - 1];
    if rest == [] {
      assert rows[0 := rest][1..] == rows[1..];
      assert BucketsOf(freqs[1..], rows[1..]) == BucketsOf(freqs, rows)[1..];
    } else {
      assert BucketsOf(freqs, rows[0 := rest]) == BucketsOf(freqs, rows)[0 := Bucket(freqs[0].useCount, KeysOf(rest))];
    }
  }

  lemma {:induction false} RowsTaken(freqs: seq<FreqNode>, rows: seq<seq<LfuNode>>, i: nat)
    requires |freqs| == |rows| && i < |freqs| && RowsWired(freqs, rows)
    ensures RowsWired(Taken(freqs, i), Taken(rows, i))
  {
  }

  // ---------- which nodes there are ----------

  lemma {:induction false} ItemsHas(rows: seq<seq<LfuNode>>, n: LfuNode)
    ensures n in Items(rows) <==> exists i :: 0 <= i < |rows| && n in rows[i]
  {
    if i :| 0 <= i < |rows| && n in rows[i] {
      var k :| 0 <= k < |rows[i]| && rows[i][k] == n;
    }
  }

  lemma {:induction false} ItemsTransferred(rows: seq<seq<LfuNode>>, i: nat, k: nat)
    requires i + 1 < |rows| && k < |rows[i]|
    ensures Items(rows[i := Taken(rows[i], k)][i + 1 := [rows[i][k]] + rows[i + 1]]) == Items(rows)
  {
    var node := rows[i][k];
    var rs := rows[i := Taken(rows[i], k)][i + 1 := [node] + rows[i + 1]];
    TakenHas(rows[i], k);
    forall n: LfuNode
      ensures n in Items(rs) <==> n in Items(rows)
    {
      ItemsHas(rows, n);
      ItemsHas(rs, n);
      if j :| 0 <= j < |rows| && n in rows[j] {
        assert n in rs[if n == node then i + 1 else j];
      }
      if j :| 0 <= j < |rs| && n in rs[j] {
        assert n in rows[if n == node then i else j];
      }
    }
  }

  lemma {:induction false} TakenHas(row: seq<LfuNode>, k: nat)
    requires k < |row|
    ensures forall n :: n in row <==> n in Taken(row, k) || n == row[k]
  {
    assert row == row[..k] + [row[k]] + row[k + 1..];
  }

  lemma {:induction false} ItemsTaken(rows: seq<seq<LfuNode>>, i: nat)
    requires i < |rows| && rows[i] == []
    ensures Items(Taken(rows, i)) == Items(rows)
  {
    var rs := Taken(rows, i);
    forall n: LfuNode
      ensures n in Items(rs) <==> n in Items(rows)
    {
      ItemsHas(rows, n);
      ItemsHas(rs, n);
      if j :| 0 <= j < |rows| && n in rows[j] {
        assert n in rs[if j < i then j else j - 1];
      }
      if j :| 0 <= j < |rs| && n in rs[j] {
        assert n in rows[if j < i then j else j + 1];
      }
    }
  }

  lemma {:induction false} ItemsInsert(rows: seq<seq<LfuNode>>, rs: seq<seq<LfuNode>>, node: LfuNode)
    requires (|rows| > 0 && rs == rows[0 := [node] + rows[0]]) || rs == [[node]] + rows
    ensures Items(rs) == Items(rows) + {node}
  {
    forall n: LfuNode
      ensures n in Items(rs) <==> n in Items(rows) || n == node
    {
      ItemsHas(rows, n);
      ItemsHas(rs, n);
      if j :| 0 <= j < |rows| && n in rows[j] {
        assert n in rs[if |rs| == |rows| then j else j + 1];
      }
      if j :| 0 <= j < |rs| && n in rs[j] {
        assert |rs| == |rows| && n != node ==> n in rows[j];
        assert |rs| > |rows| && n != node ==> j > 0 && n in rows[j - 1];
      }
      assert node in rs[0];
    }
  }

  lemma {:induction false} ItemsDropLast(rows: seq<seq<LfuNode>>, rs: seq<seq<LfuNode>>)
    requires |rows| > 0 && |rows[0]| > 0 && Distinct(rows[0]) && Apart(rows, 0)
    requires var rest := rows[0][..|rows[0]| - 1];
             rs == rows[0 := rest] || (rest == [] && rs == rows[0 := rest][1..])
    ensures Items(rs) == Items(rows) - {rows[0][|rows[0]| - 1]}
  {
    var last := |rows[0]| - 1;
    var node := rows[0][last];
    var rest := rows[0][..last];
    TakenHas(rows[0], last);
    assert Taken(rows[0], last) == rest;
    forall n: LfuNode
      ensures n in Items(rows[0 := rest]) <==> n in Items(rows) && n != node
    {
      ItemsHas(rows, n);
      ItemsHas(rows[0 := rest], n);
      if j :| 0 <= j < |rows| && n in rows[j] && n != node {
        assert n in rows[0 := rest][j];
      }
    }
    if rs != rows[0 := rest] {
      ItemsTaken(rows[0 := rest], 0);
      assert Taken(rows[0 := rest], 0) == rs;
    }
  }

  lemma {:induction false} WiredDropLast(freqs: seq<FreqNode>, rows: seq<seq<LfuNode>>)
    requires Wired(freqs, rows) && |rows| > 0 && |rows[0]| > 0
    ensures var rest := rows[0][..|rows[0]| - 1];
            var left := Items(rows) - {rows[0][|rows[0]| - 1]};
            Items(rows[0 := rest]) == left && (rest == [] ==> Items(rows[0 := rest][1..]) == left)
  {
    RisingUnique(freqs, 0);
    RowsApart(freqs, rows, 0);
    assert RowWired(freqs[0], rows[0]);
    var rest := rows[0][..|rows[0]| - 1];
    ItemsDropLast(rows, rows[0 := rest]);
    if rest == [] {
      ItemsDropLast(rows, rows[0 := rest][1..]);
    }
  }

  // ---------- the list ----------

  class FreqList {
    var head: FreqNode?
    var count: nat

    constructor ()
      ensures head == null && count == 0
    {
      head, count := null, 0;
    }

    /** The list starts with this chain of buckets. */
    ghost predicate Starts(freqs: seq<FreqNode>)
      reads this
    {
      head == if |freqs| == 0 then null else freqs[0]
    }

    /** `moveNodeToNextFreq`; the node is the k-th one of the i-th bucket. */
    method MoveToNextFreq(node: LfuNode, ghost freqs: seq<FreqNode>, ghost rows: seq<seq<LfuNode>>, ghost i: nat,
                          ghost k: nat, ghost repr: set<FreqNode>)
      returns (ghost fs: seq<FreqNode>, ghost rs: seq<seq<LfuNode>>, ghost more: set<FreqNode>)
      requires Wired(freqs, rows) && Anchored(freqs) && Starts(freqs) && Within(freqs, repr)
      requires i < |freqs| && k < |rows[i]| && rows[i][k] == node && node.parent == freqs[i]
      modifies `head, repr, Items(rows)
      ensures Wired(fs, rs) && Anchored(fs) && Starts(fs) && Within(fs, more)
      ensures BucketsOf(fs, rs) == Trimmed(Moved(WithNext(BucketsOf(freqs, rows), i), i, k), i)
      ensures repr <= more && fresh(more - repr) && Items(rs) == Items(rows)
    {
      var temp := node.parent;
      fs, rs, more := MoveOver(node, freqs, rows, i, k, repr);
      BucketsTaken(fs, rs, i);
      if temp.head == null {
        fs, rs := DropFreq(temp, fs, rs, i, more);
      }
    }

    /** All but the last part: the bucket that the node leaves may be left empty. */
    method MoveOver(node: LfuNode, ghost freqs: seq<FreqNode>, ghost rows: seq<seq<LfuNode>>, ghost i: nat,
                    ghost k: nat, ghost repr: set<FreqNode>)
      returns (ghost fs: seq<FreqNode>, ghost rs: seq<seq<LfuNode>>, ghost more: set<FreqNode>)
      requires Wired(freqs, rows) && Anchored(freqs) && Starts(freqs) && Within(freqs, repr)
      requires i < |freqs| && k < |rows[i]| && rows[i][k] == node && node.parent == freqs[i]
      modifies repr, Items(rows)
      ensures Wired(fs, rs) && Anchored(fs) && Starts(fs) && Within(fs, more)
      ensures repr <= more && fresh(more - repr) && Items(rs) == Items(rows)
      ensures i + 1 < |fs| && fs[i] == freqs[i] && (rs[i] == [] <==> freqs[i].head == null)
      ensures BucketsOf(fs, rs) == Moved(WithNext(BucketsOf(freqs, rows), i), i, k)
    {
      var temp := node.parent;
      fs, rs, more := EnsureNext(temp, freqs, rows, i, repr);
      BucketsMoved(freqs, rows, fs, rs, i, k);
      rs := MoveItem(node, fs, rs, i, k);
    }

    /** The last part: an emptied bucket is taken out. */
    method DropFreq(temp: FreqNode, ghost freqs: seq<FreqNode>, ghost rows: seq<seq<LfuNode>>, ghost i: nat,
                    ghost repr: set<FreqNode>)
      returns (ghost fs: seq<FreqNode>, ghost rs: seq<seq<LfuNode>>)
      requires Wired(freqs, rows) && Anchored(freqs) && Starts(freqs) && Within(freqs, repr)
      requires i + 1 < |freqs| && freqs[i] == temp && rows[i] == []
      modifies `head, repr`next, repr`prev
      ensures fs == Taken(freqs, i) && rs == Taken(rows, i) && Items(rs) == Items(rows)
      ensures Wired(fs, rs) && Anchored(fs) && Starts(fs) && Within(fs, repr)
    {
      WithinTaken(freqs, repr, i);
      RisingUnique(freqs, i - 1);
      RisingUnique(freqs, i);
      RisingUnique(freqs, i + 1);
      RisingTaken(freqs, i);
      RowsTaken(freqs, rows, i);
      ItemsTaken(rows, i);
      if temp == head {
        head := temp.next;
      }
      RemoveFreq(temp, freqs, i);
      fs, rs := Taken(freqs, i), Taken(rows, i);
    }

    /** `createlfuListNode`: a new page goes to the head of the bucket for 0 uses, which is the
        first one or has to be made. Making it also mends the back link that removing the
        first bucket leaves behind. */
    method Create(key: nat, ghost freqs: seq<FreqNode>, ghost rows: seq<seq<LfuNode>>, ghost repr: set<FreqNode>)
      returns (node: LfuNode, ghost fs: seq<FreqNode>, ghost rs: seq<seq<LfuNode>>, ghost more: set<FreqNode>)
      requires Wired(freqs, rows) && Mendable(freqs) && Starts(freqs) && Within(freqs, repr)
      modifies `head, repr`prev, repr`head, repr`tail, Items(rows)
      ensures fresh(node) && node.key == key
      ensures Wired(fs, rs) && Anchored(fs) && Starts(fs) && Within(fs, more)
      ensures BucketsOf(fs, rs) == Insert(BucketsOf(freqs, rows), key)
      ensures repr <= more && fresh(more - repr) && Items(rs) == Items(rows) + {node}
    {
      node := new LfuNode(key);
      assert Absent(rows, node);
      fs, rs, more := Link(node, freqs, rows, repr);
      BucketsInsert(freqs, rows, fs, rs, node);
      ItemsInsert(rows, rs, node);
    }

    method Link(node: LfuNode, ghost freqs: seq<FreqNode>, ghost rows: seq<seq<LfuNode>>, ghost repr: set<FreqNode>)
      returns (ghost fs: seq<FreqNode>, ghost rs: seq<seq<LfuNode>>, ghost more: set<FreqNode>)
      requires Wired(freqs, rows) && Mendable(freqs) && Starts(freqs) && Within(freqs, repr)
      requires Absent(rows, node) && node.next == null && node.prev == null
      modifies `head, repr`prev, repr`head, repr`tail, Items(rows), node
      ensures Wired(fs, rs) && Anchored(fs) && Starts(fs)
      ensures Within(fs, more) && repr <= more && fresh(more - repr)
      ensures if |freqs| > 0 && freqs[0].useCount == 0
              then fs == freqs && rs == rows[0 := [node] + rows[0]]
              else |fs| > 0 && fs[0].useCount == 0 && fs == [fs[0]] + freqs && rs == [[node]] + rows
    {
      if head != null && head.useCount == 0 {
        PushFirst(node, head, freqs, rows);
        fs, rs, more := freqs, rows[0 := [node] + rows[0]], repr;
      } else {
        var added := AddFirst(node, head, freqs, rows);
        fs, rs, more := [added] + freqs, [[node]] + rows, repr + {added};
        head := added;
      }
    }

    /** `deletelfuListNode` of the first bucket's tail. When the bucket becomes empty the head
        moves on, and the next bucket's back link still points at the removed one. */
    method DeleteLast(ghost freqs: seq<FreqNode>, ghost rows: seq<seq<LfuNode>>, ghost repr: set<FreqNode>)
      returns (ghost fs: seq<FreqNode>, ghost rs: seq<seq<LfuNode>>)
      requires Wired(freqs, rows) && Mendable(freqs) && Starts(freqs) && Within(freqs, repr)
      requires |freqs| > 0 && |rows[0]| > 0
      modifies `head, repr, Items(rows)
      ensures Wired(fs, rs) && Mendable(fs) && Starts(fs) && Within(fs, repr)
      ensures BucketsOf(fs, rs) == DropLeast(BucketsOf(freqs, rows))
      ensures Items(rs) == Items(rows) - {rows[0][|rows[0]| - 1]}
    {
      WiredDropLast(freqs, rows);
      BucketsDropLast(freqs, rows);
      fs, rs := Detach(freqs, rows);
    }

    method Detach(ghost freqs: seq<FreqNode>, ghost rows: seq<seq<LfuNode>>)
      returns (ghost fs: seq<FreqNode>, ghost rs: seq<seq<LfuNode>>)
      requires Wired(freqs, rows) && Mendable(freqs) && Starts(freqs)
      requires |freqs| > 0 && |rows[0]| > 0
      modifies `head, freqs, Items(rows)
      ensures Wired(fs, rs) && Mendable(fs) && Starts(fs)
      ensures var rest := rows[0][..|rows[0]| - 1];
              if rest == [] then fs == freqs[1..] && rs == rows[0 := rest][1..]
              else fs == freqs && rs == rows[0 := rest]
    {
      var parent := head;
      UnlinkLast(parent, freqs, rows);
      fs, rs := freqs, rows[0 := rows[0][..|rows[0]| - 1]];
      if parent.head == null {
        fs, rs := AdvanceHead(parent, freqs, rs);
      }
    }

    method AdvanceHead(parent: FreqNode, ghost freqs: seq<FreqNode>, ghost rows: seq<seq<LfuNode>>)
      returns (ghost fs: seq<FreqNode>, ghost rs: seq<seq<LfuNode>>)
      requires Wired(freqs, rows) && Starts(freqs) && |freqs| > 0 && parent == freqs[0]
      modifies `head, parent`next, parent`prev
      ensures fs == freqs[1..] && rs == rows[1..]
      ensures Wired(fs, rs) && Mendable(fs) && Starts(fs)
    {
      RisingUnique(freqs, 0);
      if parent == head {
        head := parent.next;
      }
      parent.prev := parent.next;
      parent.next := parent.prev;
      fs, rs := freqs[1..], rows[1..];
      RowsTaken(freqs, rows, 0);
      RisingTaken(freqs, 0);
      assert Taken(freqs, 0) == fs && Taken(rows, 0) == rs;
      assert |fs| > 0 ==> freqs[0].useCount < freqs[1].useCount;
    }
  }
}
