/**
 The LFU page-fault handler. The resident pages are kept in buckets, one per use count, in
 increasing order of the count; inside a bucket the page that came last is at the head. A
 page enters with count 0, every further fault on it moves it to the bucket of the next
 count, and the victim is the tail of the first bucket.

 The reference is a plain table that records, for every resident page, how often it faulted
 since it was brought in and when it last did. `FaultRanks` shows that the buckets compute
 exactly that table and that the victim is its least entry.
 */
module Frequency {
  import opened Paging
  import opened Sequences

  datatype Bucket = Bucket(uses: nat, pages: seq<nat>)
  datatype Ranked = Ranked(pages: Pages, buckets: seq<Bucket>)

  function PageSet(bs: seq<Bucket>): (r: set<nat>) {
    if bs == [] then {} else Elements(bs[0].pages) + PageSet(bs[1..])
  }

  /** `freqList->count`. */
  function Total(bs: seq<Bucket>): (n: nat) {
    if bs == [] then 0 else |bs[0].pages| + Total(bs[1..])
  }

  /** Use counts strictly increase, no bucket is empty and no page is in two places. */
  ghost predicate Ordered(bs: seq<Bucket>) {
    bs != [] ==>
      && bs[0].pages != []
      && Distinct(bs[0].pages)
      && (|bs| > 1 ==> bs[0].uses < bs[1].uses)
      && (forall p | p in bs[0].pages :: p !in PageSet(bs[1..]))
      && Ordered(bs[1..])
  }

  /** `createlfuListNode`. */
  function Insert(bs: seq<Bucket>, page: nat): (r: seq<Bucket>) {
    if bs != [] && bs[0].uses == 0 then [Bucket(0, [page] + bs[0].pages)] + bs[1..]
    else [Bucket(0, [page])] + bs
  }

  /** `moveNodeToNextFreq`. */
  function Bump(bs: seq<Bucket>, page: nat): (r: seq<Bucket>) {
    if bs == [] then []
    else if page !in bs[0].pages then [bs[0]] + Bump(bs[1..], page)
    else
      var rest := Without(bs[0].pages, page);
      var above := Raise(bs[0].uses + 1, bs[1..], page);
      if rest == [] then above else [Bucket(bs[0].uses, rest)] + above
  }

  /** Puts the page at the head of the bucket for `uses`, which is the first one or has to be made. */
  function Raise(uses: nat, bs: seq<Bucket>, page: nat): (r: seq<Bucket>) {
    if bs != [] && bs[0].uses <= uses then [Bucket(bs[0].uses, [page] + bs[0].pages)] + bs[1..]
    else [Bucket(uses, [page])] + bs
  }

  function Least(bs: seq<Bucket>): (page: nat)
    requires bs != [] && bs[0].pages != []
  {
    bs[0].pages[|bs[0].pages| - 1]
  }

  /** `deletelfuListNode` of the least page. */
  function DropLeast(bs: seq<Bucket>): (r: seq<Bucket>)
    requires bs != [] && bs[0].pages != []
  {
    if |bs[0].pages| == 1 then bs[1..]
    else [Bucket(bs[0].uses, bs[0].pages[..|bs[0].pages| - 1])] + bs[1..]
  }

  // ---------- the buckets stay ordered ----------

  lemma {:induction false} InsertKeeps(bs: seq<Bucket>, page: nat)
    requires Ordered(bs) && page !in PageSet(bs)
    ensures Ordered(Insert(bs, page))
    ensures PageSet(Insert(bs, page)) == PageSet(bs) + {page}
    ensures Total(Insert(bs, page)) == Total(bs) + 1
  {
    var r := Insert(bs, page);
    if bs != [] && bs[0].uses == 0 {
      assert r[1..] == bs[1..];
      assert page !in bs[0].pages;
    } else {
      assert r[1..] == bs;
    }
  }

  lemma {:induction false} RaiseKeeps(uses: nat, bs: seq<Bucket>, page: nat)
    requires Ordered(bs) && page !in PageSet(bs) && (bs != [] ==> uses <= bs[0].uses)
    ensures Ordered(Raise(uses, bs, page)) && Raise(uses, bs, page)[0].uses == uses
    ensures PageSet(Raise(uses, bs, page)) == PageSet(bs) + {page}
    ensures Total(Raise(uses, bs, page)) == Total(bs) + 1
  {
    var r := Raise(uses, bs, page);
    if bs != [] && bs[0].uses <= uses {
      assert r[1..] == bs[1..];
      assert page !in bs[0].pages;
    } else {
      assert r[1..] == bs;
    }
  }

  lemma {:induction false} BumpKeeps(bs: seq<Bucket>, page: nat)
    requires Ordered(bs) && page in PageSet(bs)
    ensures Ordered(Bump(bs, page))
    ensures Bump(bs, page) != [] && Bump(bs, page)[0].uses >= bs[0].uses
    ensures PageSet(Bump(bs, page)) == PageSet(bs)
    ensures Total(Bump(bs, page)) == Total(bs)
  {
    if page !in bs[0].pages {
      BumpKeeps(bs[1..], page);
      assert Bump(bs, page)[1..] == Bump(bs[1..], page);
    } else {
      BumpHere(bs, page);
    }
  }

  /** The page is in the first bucket. */
  lemma {:induction false} BumpHere(bs: seq<Bucket>, page: nat)
    requires Ordered(bs) && bs != [] && page in bs[0].pages
    ensures Ordered(Bump(bs, page))
    ensures Bump(bs, page) != [] && Bump(bs, page)[0].uses >= bs[0].uses
    ensures PageSet(Bump(bs, page)) == PageSet(bs)
    ensures Total(Bump(bs, page)) == Total(bs)
  {
    RaiseKeeps(bs[0].uses + 1, bs[1..], page);
    WithoutMembers(bs[0].pages, page);
    var above, rest := Raise(bs[0].uses + 1, bs[1..], page), Without(bs[0].pages, page);
    assert forall p :: p in bs[0].pages <==> p in rest || p == page;
    if rest != [] {
      assert Bump(bs, page)[1..] == above;
    }
  }

  lemma {:induction false} DropLeastKeeps(bs: seq<Bucket>)
    requires Ordered(bs) && bs != []
    ensures Ordered(DropLeast(bs))
    ensures PageSet(DropLeast(bs)) == PageSet(bs) - {Least(bs)} && Least(bs) in PageSet(bs)
    ensures Total(DropLeast(bs)) == Total(bs) - 1
  {
    LastAndRest(bs[0].pages);
    var r := DropLeast(bs);
    if |bs[0].pages| > 1 {
      assert r[1..] == bs[1..];
    }
  }

  lemma {:induction false} TotalIsSize(bs: seq<Bucket>)
    requires Ordered(bs)
    ensures Total(bs) == |PageSet(bs)|
  {
    if bs != [] {
      TotalIsSize(bs[1..]);
      DistinctSize(bs[0].pages);
      assert Elements(bs[0].pages) !! PageSet(bs[1..]);
    }
  }

  // ---------- the handler ----------

  ghost predicate Shaped(m: Ranked) {
    && |m.pages.mapping| == |m.pages.prot| == |m.pages.store|
    && |m.pages.frames| > 0
    && (Total(m.buckets) >= |m.pages.frames| ==>
          && m.buckets != [] && m.buckets[0].pages != []
          && Least(m.buckets) < |m.pages.mapping|
          && m.pages.mapping[Least(m.buckets)] < |m.pages.frames|)
  }

  ghost predicate Tracks(m: Ranked) {
    && Coherent(m.pages)
    && Ordered(m.buckets)
    && (forall p: nat :: p in PageSet(m.buckets) <==> m.pages.Resident(p))
  }

  ghost predicate Inv(m: Ranked) {
    && Tracks(m)
    && Total(m.buckets) <= |m.pages.frames|
    && (forall p: nat | m.pages.Resident(p) :: m.pages.mapping[p] < Total(m.buckets))
  }

  lemma {:induction false} TracksShaped(m: Ranked)
    requires Tracks(m)
    ensures Shaped(m)
  {
    if m.buckets != [] {
      DropLeastKeeps(m.buckets);
      assert m.pages.Resident(Least(m.buckets));
    }
  }

  function Fault(m: Ranked, page: nat): (t: Ranked)
    requires Shaped(m) && page < |m.pages.prot|
  {
    if m.pages.prot[page] != NoAccess then
      Ranked(Upgrade(m.pages, page), Bump(m.buckets, page))
    else if Total(m.buckets) < |m.pages.frames| then
      Ranked(Load(m.pages, page, Total(m.buckets)), Insert(m.buckets, page))
    else
      Ranked(Replace(m.pages, page, Least(m.buckets)), Insert(DropLeast(m.buckets), page))
  }

  lemma {:induction false} FaultKeeps(m: Ranked, page: nat)
    requires Inv(m) && page < |m.pages.prot|
    ensures Shaped(m) && Inv(Fault(m, page))
    ensures |Fault(m, page).pages.prot| == |m.pages.prot| && |Fault(m, page).pages.frames| == |m.pages.frames|
    ensures Memory(Fault(m, page).pages) == Memory(m.pages)
  {
    TracksShaped(m);
    var t := Fault(m, page);
    if m.pages.prot[page] != NoAccess {
      UpgradeKeeps(m.pages, page);
      assert forall p: nat :: t.pages.Resident(p) <==> m.pages.Resident(p);
      BumpKeeps(m.buckets, page);
    } else if Total(m.buckets) < |m.pages.frames| {
      FaultLoads(m, page);
    } else {
      FaultReplaces(m, page);
    }
  }

  lemma {:induction false} FaultLoads(m: Ranked, page: nat)
    requires Inv(m) && page < |m.pages.prot| && m.pages.prot[page] == NoAccess
    requires Total(m.buckets) < |m.pages.frames|
    ensures Inv(Fault(m, page))
    ensures Memory(Fault(m, page).pages) == Memory(m.pages)
  {
    var t := Fault(m, page);
    LoadKeeps(m.pages, page, Total(m.buckets));
    InsertKeeps(m.buckets, page);
    assert forall p: nat :: t.pages.Resident(p) <==> m.pages.Resident(p) || p == page;
  }

  lemma {:induction false} FaultReplaces(m: Ranked, page: nat)
    requires Inv(m) && page < |m.pages.prot| && m.pages.prot[page] == NoAccess
    requires Total(m.buckets) == |m.pages.frames|
    ensures Shaped(m) && Inv(Fault(m, page))
    ensures Memory(Fault(m, page).pages) == Memory(m.pages)
  {
    TracksShaped(m);
    var victim := Least(m.buckets);
    var t := Fault(m, page);
    DropLeastKeeps(m.buckets);
    assert m.pages.Resident(victim);
    ReplaceKeeps(m.pages, page, victim);
    InsertKeeps(DropLeast(m.buckets), page);
    assert forall p: nat :: t.pages.Resident(p) <==> (m.pages.Resident(p) && p != victim) || p == page;
  }

  // ---------- flush ----------

  /** `deleteLFU` until no page is left. */
  ghost function Flush(m: Ranked): (t: Ranked)
    requires Tracks(m)
    decreases Total(m.buckets)
  {
    if m.buckets == [] then m
    else
      FlushStep(m);
      Flush(Ranked(Release(m.pages, Least(m.buckets)), DropLeast(m.buckets)))
  }

  lemma {:induction false} FlushStep(m: Ranked)
    requires Tracks(m) && m.buckets != []
    ensures m.pages.Resident(Least(m.buckets)) && m.pages.mapping[Least(m.buckets)] < |m.pages.frames|
    ensures var n := Ranked(Release(m.pages, Least(m.buckets)), DropLeast(m.buckets));
            Tracks(n) && Memory(n.pages) == Memory(m.pages) && Total(n.buckets) == Total(m.buckets) - 1
  {
    DropLeastKeeps(m.buckets);
    var victim := Least(m.buckets);
    assert m.pages.Resident(victim);
    ReleaseKeeps(m.pages, victim);
    var n := Ranked(Release(m.pages, victim), DropLeast(m.buckets));
    assert forall p: nat :: n.pages.Resident(p) <==> m.pages.Resident(p) && p != victim;
  }

  lemma {:induction false} FlushKeeps(m: Ranked)
    requires Tracks(m)
    ensures Inv(Flush(m)) && Flush(m).buckets == []
    ensures Memory(Flush(m).pages) == Memory(m.pages) == Flush(m).pages.store
    ensures forall p: nat :: !Flush(m).pages.Resident(p)
    ensures |Flush(m).pages.frames| == |m.pages.frames| && Flush(m).pages.blockSize == m.pages.blockSize
    decreases Total(m.buckets)
  {
    if m.buckets == [] {
      NothingResident(m.pages);
    } else {
      FlushStep(m);
      FlushKeeps(Ranked(Release(m.pages, Least(m.buckets)), DropLeast(m.buckets)));
    }
  }

  // ---------- the reference table ----------

  /** Faults since the page was brought in, and the time of the last one. */
  datatype Use = Use(uses: nat, stamp: nat)

  predicate Before(a: Use, b: Use) {
    a.uses < b.uses || (a.uses == b.uses && a.stamp < b.stamp)
  }

  ghost predicate BucketRanks(b: Bucket, table: map<nat, Use>) {
    && (forall i | 0 <= i < |b.pages| :: b.pages[i] in table && table[b.pages[i]].uses == b.uses)
    && (forall i, j | 0 <= i < j < |b.pages| :: table[b.pages[i]].stamp > table[b.pages[j]].stamp)
  }

  ghost predicate Ranks(bs: seq<Bucket>, table: map<nat, Use>) {
    bs != [] ==> BucketRanks(bs[0], table) && Ranks(bs[1..], table)
  }

  ghost predicate Matches(bs: seq<Bucket>, table: map<nat, Use>, now: nat) {
    && Ordered(bs)
    && Ranks(bs, table)
    && PageSet(bs) == table.Keys
    && (forall p | p in table :: table[p].stamp < now)
  }

  /** One fault, in terms of the table alone: a resident page is used once more; a new page
      is entered with no uses, after the least entry went if all frames are taken. */
  ghost predicate TableFault(table: map<nat, Use>, now: nat, page: nat, frames: nat, next: map<nat, Use>) {
    if page in table then next == table[page := Use(table[page].uses + 1, now)]
    else if |table| < frames then next == table[page := Use(0, now)]
    else exists victim: nat :: IsLeast(table, victim) && next == (table - {victim})[page := Use(0, now)]
  }

  ghost predicate IsLeast(table: map<nat, Use>, victim: nat) {
    victim in table && forall p | p in table && p != victim :: Before(table[victim], table[p])
  }

  /** Entries of pages outside the buckets do not matter. */
  lemma {:induction false} RanksFrame(bs: seq<Bucket>, table: map<nat, Use>, next: map<nat, Use>)
    requires Ranks(bs, table)
    requires forall p | p in PageSet(bs) && p in table :: p in next && next[p] == table[p]
    ensures Ranks(bs, next)
  {
    if bs != [] {
      assert forall i | 0 <= i < |bs[0].pages| :: bs[0].pages[i] in PageSet(bs);
      RanksFrame(bs[1..], table, next);
    }
  }

  /** Every page beyond the first bucket has been used more often. */
  lemma {:induction false} LaterUsesMore(bs: seq<Bucket>, table: map<nat, Use>, p: nat)
    requires Ordered(bs) && Ranks(bs, table) && p in PageSet(bs)
    ensures p in table && table[p].uses >= bs[0].uses
    ensures p !in bs[0].pages ==> table[p].uses > bs[0].uses
  {
    if p !in bs[0].pages {
      LaterUsesMore(bs[1..], table, p);
    }
  }

  lemma {:induction false} LeastIsLeast(bs: seq<Bucket>, table: map<nat, Use>, now: nat)
    requires Matches(bs, table, now) && bs != []
    ensures IsLeast(table, Least(bs))
  {
    var victim := Least(bs);
    forall p | p in table && p != victim
      ensures Before(table[victim], table[p])
    {
      LaterUsesMore(bs, table, p);
      if p in bs[0].pages {
        var i :| 0 <= i < |bs[0].pages| && bs[0].pages[i] == p;
        assert i < |bs[0].pages| - 1;
      }
    }
  }

  lemma {:induction false} InsertRanks(bs: seq<Bucket>, table: map<nat, Use>, now: nat, page: nat)
    requires Matches(bs, table, now) && page !in table
    ensures Matches(Insert(bs, page), table[page := Use(0, now)], now + 1)
  {
    InsertKeeps(bs, page);
    PlaceRanks(bs, table, table[page := Use(0, now)], now, page);
  }

  lemma {:induction false} PlaceRanks(bs: seq<Bucket>, table: map<nat, Use>, next: map<nat, Use>, now: nat, page: nat)
    requires Ranks(bs, table) && page !in PageSet(bs) && page in next && next[page] == Use(0, now)
    requires forall p | p in table && p != page :: p in next && next[p] == table[p] && table[p].stamp < now
    ensures Ranks(Insert(bs, page), next)
  {
    RanksFrame(bs, table, next);
    var r := Insert(bs, page);
    if bs != [] && bs[0].uses == 0 {
      assert r[1..] == bs[1..];
      assert page !in bs[0].pages;
      assert forall i | 0 <= i < |bs[0].pages| :: bs[0].pages[i] in table;
      HeadRanks(bs[0], next, page, now);
    } else {
      assert r[1..] == bs;
    }
  }

  /** A page whose last fault is the newest may go to the head of the bucket of its count. */
  lemma {:induction false} HeadRanks(b: Bucket, table: map<nat, Use>, page: nat, now: nat)
    requires BucketRanks(b, table) && page in table && table[page] == Use(b.uses, now)
    requires forall i | 0 <= i < |b.pages| :: table[b.pages[i]].stamp < now
    ensures BucketRanks(Bucket(b.uses, [page] + b.pages), table)
  {
  }

  lemma {:induction false} DropLeastRanks(bs: seq<Bucket>, table: map<nat, Use>, now: nat)
    requires Matches(bs, table, now) && bs != []
    ensures Matches(DropLeast(bs), table - {Least(bs)}, now)
  {
    DropLeastKeeps(bs);
    var next := table - {Least(bs)};
    var r := DropLeast(bs);
    RanksFrame(bs[1..], table, next);
    if |bs[0].pages| > 1 {
      assert r[1..] == bs[1..];
      LastAndRest(bs[0].pages);
      assert forall i | 0 <= i < |r[0].pages| :: r[0].pages[i] in r[0].pages;
    }
  }

  lemma {:induction false} BumpRanks(bs: seq<Bucket>, table: map<nat, Use>, now: nat, page: nat)
    requires Ordered(bs) && Ranks(bs, table) && page in PageSet(bs) && page in table
    requires forall p | p in table :: table[p].stamp < now
    ensures Ranks(Bump(bs, page), table[page := Use(table[page].uses + 1, now)])
  {
    var next := table[page := Use(table[page].uses + 1, now)];
    var r := Bump(bs, page);
    if page !in bs[0].pages {
      BumpRanks(bs[1..], table, now, page);
      assert r[1..] == Bump(bs[1..], page);
      assert forall i | 0 <= i < |bs[0].pages| :: bs[0].pages[i] != page;
    } else {
      RaiseRanks(bs, table, now, page);
      WithoutMembers(bs[0].pages, page);
      var rest := Without(bs[0].pages, page);
      if rest != [] {
        assert r[1..] == Raise(bs[0].uses + 1, bs[1..], page);
        WithoutRanks(bs[0], table, next, page);
      }
    }
  }

  lemma {:induction false} RaiseRanks(bs: seq<Bucket>, table: map<nat, Use>, now: nat, page: nat)
    requires Ordered(bs) && bs != [] && Ranks(bs, table) && page in bs[0].pages && page in table
    requires forall p | p in table :: table[p].stamp < now
    ensures Ranks(Raise(bs[0].uses + 1, bs[1..], page), table[page := Use(table[page].uses + 1, now)])
  {
    var next := table[page := Use(table[page].uses + 1, now)];
    var r := Raise(bs[0].uses + 1, bs[1..], page);
    RanksFrame(bs[1..], table, next);
    if |bs| > 1 && bs[1].uses == bs[0].uses + 1 {
      assert r[1..] == bs[1..][1..];
      assert page !in bs[1].pages;
      assert forall i | 0 <= i < |bs[1].pages| :: bs[1].pages[i] in table;
      HeadRanks(bs[1], next, page, now);
    } else {
      assert r[1..] == bs[1..];
    }
  }

  lemma {:induction false} WithoutRanks(b: Bucket, table: map<nat, Use>, next: map<nat, Use>, page: nat)
    requires BucketRanks(b, table) && Distinct(b.pages) && page in b.pages
    requires forall p | p in table && p != page :: p in next && next[p] == table[p]
    ensures BucketRanks(Bucket(b.uses, Without(b.pages, page)), next)
  {
    var k :| 0 <= k < |b.pages| && b.pages[k] == page;
    WithoutAt(b.pages, k);
    WithoutMembers(b.pages, page);
    RemovedRanks(b, table, k);
    BucketFrame(Bucket(b.uses, Without(b.pages, page)), table, next);
  }

  lemma {:induction false} BucketFrame(b: Bucket, table: map<nat, Use>, next: map<nat, Use>)
    requires BucketRanks(b, table)
    requires forall p | p in b.pages && p in table :: p in next && next[p] == table[p]
    ensures BucketRanks(b, next)
  {
    assert forall i | 0 <= i < |b.pages| :: b.pages[i] in b.pages;
  }

  lemma {:induction false} RemovedRanks(b: Bucket, table: map<nat, Use>, k: nat)
    requires BucketRanks(b, table) && k < |b.pages|
    ensures BucketRanks(Bucket(b.uses, Taken(b.pages, k)), table)
  {
    var rest := Taken(b.pages, k);
    assert forall i | 0 <= i < |rest| :: rest[i] == b.pages[if i < k then i else i + 1];
  }

  /** The buckets stay in step with the table over every fault, and the page they evict is the
      one used least often, the one longest unused among equals. */
  lemma {:induction false} FaultRanks(m: Ranked, page: nat, table: map<nat, Use>, now: nat)
    returns (next: map<nat, Use>)
    requires Inv(m) && page < |m.pages.prot| && Matches(m.buckets, table, now)
    ensures TableFault(table, now, page, |m.pages.frames|, next)
    ensures Shaped(m) && Matches(Fault(m, page).buckets, next, now + 1)
  {
    TracksShaped(m);
    TotalIsSize(m.buckets);
    assert |table| == |table.Keys| == Total(m.buckets);
    assert page in table <==> m.pages.Resident(page);
    if page in table {
      next := table[page := Use(table[page].uses + 1, now)];
      BumpMatches(m.buckets, table, now, page);
    } else if Total(m.buckets) < |m.pages.frames| {
      next := table[page := Use(0, now)];
      InsertRanks(m.buckets, table, now, page);
    } else {
      var victim := Least(m.buckets);
      LeastIsLeast(m.buckets, table, now);
      DropLeastRanks(m.buckets, table, now);
      next := (table - {victim})[page := Use(0, now)];
      InsertRanks(DropLeast(m.buckets), table - {victim}, now, page);
    }
  }

  lemma {:induction false} BumpMatches(bs: seq<Bucket>, table: map<nat, Use>, now: nat, page: nat)
    requires Matches(bs, table, now) && page in table
    ensures Matches(Bump(bs, page), table[page := Use(table[page].uses + 1, now)], now + 1)
  {
    BumpKeeps(bs, page);
    BumpRanks(bs, table, now, page);
    MatchesFrom(Bump(bs, page), table[page := Use(table[page].uses + 1, now)], now + 1);
  }

  lemma {:induction false} MatchesFrom(bs: seq<Bucket>, table: map<nat, Use>, now: nat)
    requires Ordered(bs) && Ranks(bs, table) && PageSet(bs) == table.Keys
    requires forall p | p in table :: table[p].stamp < now
    ensures Matches(bs, table, now)
  {
  }

  /** The least entry is unique, so the table determines the victim. */
  lemma {:induction false} LeastIsUnique(table: map<nat, Use>, v: nat, w: nat)
    requires IsLeast(table, v) && IsLeast(table, w)
    ensures v == w
  {
  }

  // ---------- whole runs ----------

  ghost function RunFaults(m: Ranked, history: seq<nat>): (t: Ranked)
    requires Inv(m) && forall i | 0 <= i < |history| :: history[i] < |m.pages.prot|
    ensures Inv(t) && |t.pages.prot| == |m.pages.prot| && |t.pages.frames| == |m.pages.frames|
    decreases |history|
  {
    if |history| == 0 then m
    else
      var before := RunFaults(m, history[..|history| - 1]);
      FaultKeeps(before, history[|history| - 1]);
      Fault(before, history[|history| - 1])
  }

  /** The tables follow each other by the faults of the history, one per unit of time. */
  ghost predicate TableRun(tables: seq<map<nat, Use>>, history: seq<nat>, frames: nat) {
    && |tables| == |history| + 1
    && forall i {:trigger history[i]} | 0 <= i < |history| ::
       TableFault(tables[i], i, history[i], frames, tables[i + 1])
  }

  lemma {:induction false} TableRunExtend(tables: seq<map<nat, Use>>, history: seq<nat>, frames: nat, page: nat,
                                          next: map<nat, Use>)
    requires TableRun(tables, history, frames)
    requires TableFault(tables[|history|], |history|, page, frames, next)
    ensures TableRun(tables + [next], history + [page], frames)
  {
  }

  /** Over every sequence of faults that starts with no page in memory, the buckets agree with
      the table, entry by entry. */
  lemma {:induction false} RunRanks(m: Ranked, history: seq<nat>) returns (tables: seq<map<nat, Use>>)
    requires Inv(m) && m.buckets == [] && forall i | 0 <= i < |history| :: history[i] < |m.pages.prot|
    ensures TableRun(tables, history, |m.pages.frames|) && tables[0] == map[]
    ensures Matches(RunFaults(m, history).buckets, tables[|history|], |history|)
    decreases |history|
  {
    if |history| == 0 {
      tables := [map[]];
    } else {
      var last := |history| - 1;
      assert history == history[..last] + [history[last]];
      var before := RunRanks(m, history[..last]);
      tables := ExtendRanks(RunFaults(m, history[..last]), history[..last], history[last], before);
    }
  }

  lemma {:induction false} ExtendRanks(m: Ranked, history: seq<nat>, page: nat, before: seq<map<nat, Use>>)
    returns (tables: seq<map<nat, Use>>)
    requires Inv(m) && page < |m.pages.prot|
    requires TableRun(before, history, |m.pages.frames|)
    requires Matches(m.buckets, before[|history|], |history|)
    ensures TableRun(tables, history + [page], |m.pages.frames|) && tables[0] == before[0]
    ensures Shaped(m) && Matches(Fault(m, page).buckets, tables[|history| + 1], |history| + 1)
  {
    var now, table := |history|, before[|history|];
    var next := FaultRanks(m, page, table, now);
    TableRunExtend(before, history, |m.pages.frames|, page, next);
    tables := before + [next];
    assert tables[now + 1] == next;
  }
}
