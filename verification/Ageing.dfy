/**
 The FIFO page-fault handler, which keeps an age and a page number per frame instead of a
 list: every fault makes every occupied frame one older, a fault gives the frame it touches
 the age 1, and the oldest frame is the victim.

 A write fault on a resident page also resets the age, so the handler does not evict in
 order of arrival: it picks the page whose last fault is longest ago. `Matches` ties it to
 the LRU handler, and on every sequence of faults and flushes the two build the same page
 table, the same frames and the same backing store.
 */
module Ageing {
  import opened Paging
  import Recency
  import opened Sequences

  /** `ages` is frameState (0 for an unused frame), `owner` is framePage. */
  datatype Aged = Aged(pages: Pages, ages: seq<nat>, owner: seq<nat>)

  ghost predicate Shaped(m: Aged) {
    && |m.pages.mapping| == |m.pages.prot| == |m.pages.store|
    && |m.ages| == |m.owner| == |m.pages.frames| > 0
    && (forall f | 0 <= f < |m.owner| :: m.owner[f] < |m.pages.mapping|)
    && (forall p | 0 <= p < |m.pages.mapping| :: m.pages.mapping[p] < |m.pages.frames|)
  }

  function Tick(ages: seq<nat>): (r: seq<nat>)
    ensures |r| == |ages|
  {
    seq(|ages|, f requires 0 <= f < |ages| => if ages[f] != 0 then ages[f] + 1 else 0)
  }

  /** The first unused frame at or after i, |ages| if there is none. */
  function FirstFree(ages: seq<nat>, i: nat): (r: nat)
    requires i <= |ages|
    ensures i <= r <= |ages|
    ensures forall f | i <= f < r :: ages[f] != 0
    ensures r < |ages| ==> ages[r] == 0
    decreases |ages| - i
  {
    if i == |ages| || ages[i] == 0 then i else FirstFree(ages, i + 1)
  }

  /** The first of the oldest among the first n frames. */
  function Oldest(ages: seq<nat>, n: nat): (r: nat)
    requires 0 < n <= |ages|
    ensures r < n
    ensures forall f | 0 <= f < n :: ages[f] <= ages[r]
    ensures forall f | 0 <= f < r :: ages[f] < ages[r]
  {
    if n == 1 then 0
    else
      var r := Oldest(ages, n - 1);
      if ages[n - 1] > ages[r] then n - 1 else r
  }

  function Fault(m: Aged, page: nat): (t: Aged)
    requires Shaped(m) && page < |m.pages.prot|
  {
    var ages := Tick(m.ages);
    if m.pages.prot[page] != NoAccess then
      var frame := m.pages.mapping[page];
      Aged(Upgrade(m.pages, page), ages[frame := 1], m.owner[frame := page])
    else
      var free := FirstFree(ages, 0);
      if free < |ages| then
        Aged(Load(m.pages, page, free), ages[free := 1], m.owner[free := page])
      else
        var victim := m.owner[Oldest(ages, |ages|)];
        var frame := m.pages.mapping[victim];
        Aged(Replace(m.pages, page, victim), ages[frame := 1], m.owner[frame := page])
  }

  /** One visit: the slot's page is released and its frame becomes unused. A slot beyond the
      used ones may name any page, even one whose old frame number is stale; by then nothing
      is resident and visiting it changes nothing. */
  function FlushSlot(m: Aged, i: nat): (t: Aged)
    requires Shaped(m) && i < |m.owner|
  {
    Aged(Release(m.pages, m.owner[i]), m.ages[m.pages.mapping[m.owner[i]] := 0], m.owner)
  }

  /** The flush visits the slots from i on. */
  function FlushFrom(m: Aged, i: nat): (t: Aged)
    requires Shaped(m) && i <= |m.owner|
    decreases |m.owner| - i
  {
    if i == |m.owner| then m
    else
      FlushFrom(FlushSlot(m, i), i + 1)
  }

  // ---------- ageing frames and the recency list ----------

  /** Both machines have the same pages; the occupied frames are the first |order| ones, each
      names the page it holds, and ages grow along the list. */
  ghost predicate Matches(m: Aged, l: Recency.Listed) {
    && Recency.Inv(l)
    && Shaped(m)
    && m.pages == l.pages
    && (forall f | 0 <= f < |m.ages| :: m.ages[f] != 0 <==> f < |l.order|)
    && (forall f | 0 <= f < |l.order| :: m.owner[f] in l.order && m.pages.mapping[m.owner[f]] == f)
    && AgesGrow(m, l.order)
  }

  /** The arrays that `init_virtual_memory` clears. */
  function Cleared(n: nat): (r: seq<nat>)
    ensures |r| == n
  {
    seq(n, _ => 0)
  }

  /** The two handlers start out alike, with every frame free. */
  lemma {:induction false} FreshMatches(s: Pages)
    requires Coherent(s) && |s.frames| > 0 && |s.prot| > 0 && forall p: nat :: !s.Resident(p)
    ensures Matches(Aged(s, Cleared(|s.frames|), Cleared(|s.frames|)), Recency.Listed(s, []))
  {
  }

  /** The age of the frame a page is mapped to. */
  ghost function Age(m: Aged, p: nat): nat
    requires Shaped(m) && p < |m.pages.mapping|
  {
    m.ages[m.pages.mapping[p]]
  }

  ghost predicate AgesGrow(m: Aged, order: seq<nat>)
    requires Shaped(m)
  {
    && (forall i | 0 <= i < |order| :: order[i] < |m.pages.mapping|)
    && (forall i, j | 0 <= i < j < |order| :: Age(m, order[i]) < Age(m, order[j]))
  }

  /** These pages have the same age in both, and are not young. */
  ghost predicate KeepAges(m: Aged, t: Aged, order: seq<nat>) {
    && Shaped(m) && Shaped(t)
    && forall i | 0 <= i < |order| ::
         order[i] < |m.pages.mapping| == |t.pages.mapping| && Age(t, order[i]) == Age(m, order[i]) > 1
  }

  /** The frame just touched is younger than all others, so its page goes to the front. */
  lemma {:induction false} TouchedGoesFirst(m: Aged, order: seq<nat>, t: Aged, page: nat)
    requires Shaped(m) && Shaped(t) && AgesGrow(m, order) && page < |t.pages.mapping| == |m.pages.mapping|
    requires KeepAges(m, t, order) && Age(t, page) == 1
    ensures AgesGrow(t, [page] + order)
  {
    var front := [page] + order;
    forall i, j | 0 <= i < j < |front|
      ensures Age(t, front[i]) < Age(t, front[j])
    {
      assert front[j] == order[j - 1];
      if i > 0 {
        assert front[i] == order[i - 1];
      }
    }
  }

  lemma {:induction false} TickGrows(m: Aged, l: Recency.Listed)
    requires Matches(m, l)
    ensures Matches(m.(ages := Tick(m.ages)), l)
    ensures forall f | 0 <= f < |l.order| :: Tick(m.ages)[f] > 1
  {
    var t := m.(ages := Tick(m.ages));
    forall i, j | 0 <= i < j < |l.order|
      ensures Age(t, l.order[i]) < Age(t, l.order[j])
    {
      assert Age(m, l.order[i]) < Age(m, l.order[j]);
      assert m.pages.mapping[l.order[i]] < |l.order| && m.pages.mapping[l.order[j]] < |l.order|;
    }
  }

  lemma {:induction false} FirstFreeIsCount(m: Aged, l: Recency.Listed)
    requires Matches(m, l)
    ensures FirstFree(m.ages, 0) == |l.order|
  {
    assert |l.order| < |m.ages| ==> m.ages[|l.order|] == 0;
  }

  /** The oldest frame holds the last page of the list. */
  lemma {:induction false} OldestIsLast(m: Aged, l: Recency.Listed)
    requires Matches(m, l) && |l.order| == |m.ages|
    ensures m.owner[Oldest(m.ages, |m.ages|)] == l.order[|l.order| - 1]
  {
    var r := Oldest(m.ages, |m.ages|);
    var last := |l.order| - 1;
    var i :| 0 <= i < |l.order| && l.order[i] == m.owner[r];
    assert Age(m, l.order[last]) <= Age(m, l.order[i]);
  }

  /** Two resident pages have different frames. */
  lemma {:induction false} FramesDiffer(l: Recency.Listed, i: nat, j: nat)
    requires Recency.Inv(l) && i < |l.order| && j < |l.order| && i != j
    ensures l.pages.mapping[l.order[i]] != l.pages.mapping[l.order[j]]
  {
    var p, q := l.order[i], l.order[j];
    assert l.pages.Resident(p) && l.pages.Resident(q) && p != q;
    assert p < q || q < p;
  }

  lemma {:induction false} UpgradeAges(m: Aged, l: Recency.Listed, page: nat)
    requires Matches(m, l) && m.pages.Resident(page)
    requires forall f | 0 <= f < |l.order| :: m.ages[f] > 1
    ensures AgesGrow(Aged(Upgrade(m.pages, page), m.ages[m.pages.mapping[page] := 1], m.owner),
                     [page] + Without(l.order, page))
  {
    var k :| 0 <= k < |l.order| && l.order[k] == page;
    WithoutAt(l.order, k);
    var rest := Taken(l.order, k);
    var t := Aged(Upgrade(m.pages, page), m.ages[m.pages.mapping[page] := 1], m.owner);
    RemovedStillGrows(m, l.order, k);
    OthersKeepAge(m, l, k);
    TouchedGoesFirst(m, rest, t, page);
  }

  lemma {:induction false} OthersKeepAge(m: Aged, l: Recency.Listed, k: nat)
    requires Matches(m, l) && k < |l.order|
    requires forall f | 0 <= f < |l.order| :: m.ages[f] > 1
    ensures var t := Aged(Upgrade(m.pages, l.order[k]), m.ages[m.pages.mapping[l.order[k]] := 1], m.owner);
            KeepAges(m, t, Taken(l.order, k))
  {
    var t := Aged(Upgrade(m.pages, l.order[k]), m.ages[m.pages.mapping[l.order[k]] := 1], m.owner);
    var rest := Taken(l.order, k);
    forall i | 0 <= i < |rest|
      ensures rest[i] < |m.pages.mapping| && Age(t, rest[i]) == Age(m, rest[i]) > 1
    {
      assert rest[i] == l.order[if i < k then i else i + 1];
      OtherKeepsAge(m, l, k, if i < k then i else i + 1);
    }
  }

  lemma {:induction false} OtherKeepsAge(m: Aged, l: Recency.Listed, k: nat, j: nat)
    requires Matches(m, l) && k < |l.order| && j < |l.order| && j != k
    requires forall f | 0 <= f < |l.order| :: m.ages[f] > 1
    ensures m.ages[m.pages.mapping[l.order[k]] := 1][m.pages.mapping[l.order[j]]] == Age(m, l.order[j]) > 1
  {
    FramesDiffer(l, j, k);
  }

  lemma {:induction false} RemovedStillGrows(m: Aged, order: seq<nat>, k: nat)
    requires Shaped(m) && AgesGrow(m, order) && k < |order|
    ensures AgesGrow(m, Taken(order, k))
  {
    var rest := Taken(order, k);
    assert forall i | 0 <= i < |rest| :: rest[i] == order[if i < k then i else i + 1];
  }

  lemma {:induction false} UpgradeMatches(m: Aged, l: Recency.Listed, page: nat)
    requires Matches(m, l) && m.pages.Resident(page)
    ensures Matches(Fault(m, page), Recency.Fault(l, page, true))
  {
    TickGrows(m, l);
    UpgradeAges(m.(ages := Tick(m.ages)), l, page);
    Recency.FaultKeeps(l, page, true);
    UpgradeOrder(m, l, page);
  }

  /** The upgrade names no other page and lists the same ones. */
  lemma {:induction false} UpgradeOrder(m: Aged, l: Recency.Listed, page: nat)
    requires Matches(m, l) && m.pages.Resident(page)
    ensures m.owner[m.pages.mapping[page] := page] == m.owner
    ensures |[page] + Without(l.order, page)| == |l.order|
    ensures forall p :: p in [page] + Without(l.order, page) <==> p in l.order
  {
    WithoutMembers(l.order, page);
    var k :| 0 <= k < |l.order| && l.order[k] == page;
    OwnerOf(m, l, k);
  }

  lemma {:induction false} OwnerOf(m: Aged, l: Recency.Listed, k: nat)
    requires Matches(m, l) && k < |l.order|
    ensures m.owner[m.pages.mapping[l.order[k]]] == l.order[k]
  {
    var f := m.pages.mapping[l.order[k]];
    var j :| 0 <= j < |l.order| && l.order[j] == m.owner[f];
    assert l.pages.Resident(l.order[j]) && l.pages.Resident(l.order[k]);
  }

  lemma {:induction false} LoadMatches(m: Aged, l: Recency.Listed, page: nat)
    requires Matches(m, l) && page < |m.pages.prot| && m.pages.prot[page] == NoAccess
    requires |l.order| < |m.ages|
    ensures Matches(Fault(m, page), Recency.Fault(l, page, true))
  {
    var aged := m.(ages := Tick(m.ages));
    TickGrows(m, l);
    FirstFreeIsCount(aged, l);
    Recency.FaultKeeps(l, page, true);
    var t, u := Fault(m, page), Recency.Fault(l, page, true);
    assert page !in l.order;
    assert KeepAges(aged, t, l.order);
    TouchedGoesFirst(aged, l.order, t, page);
  }

  lemma {:induction false} ReplaceAges(m: Aged, l: Recency.Listed, page: nat)
    requires Matches(m, l) && page < |m.pages.prot| && m.pages.prot[page] == NoAccess
    requires |l.order| == |m.ages|
    requires forall f | 0 <= f < |l.order| :: m.ages[f] > 1
    ensures var last := |l.order| - 1;
            var frame := m.pages.mapping[l.order[last]];
            var t := Aged(Replace(m.pages, page, l.order[last]), m.ages[frame := 1], m.owner[frame := page]);
            Shaped(t) && AgesGrow(t, [page] + l.order[..last])
  {
    var last := |l.order| - 1;
    var frame := m.pages.mapping[l.order[last]];
    var t := Aged(Replace(m.pages, page, l.order[last]), m.ages[frame := 1], m.owner[frame := page]);
    assert page !in l.order;
    forall i | 0 <= i < last
      ensures Age(t, l.order[..last][i]) == Age(m, l.order[..last][i]) > 1
    {
      FramesDiffer(l, i, last);
    }
    assert AgesGrow(m, l.order[..last]);
    TouchedGoesFirst(m, l.order[..last], t, page);
  }

  lemma {:induction false} ReplaceOwners(m: Aged, l: Recency.Listed, page: nat, f: nat)
    requires Matches(m, l) && page < |m.pages.prot| && m.pages.prot[page] == NoAccess
    requires |l.order| == |m.ages| && f < |m.ages|
    ensures var last := |l.order| - 1;
            var frame := m.pages.mapping[l.order[last]];
            var owner := m.owner[frame := page];
            && owner[f] in [page] + l.order[..last]
            && Replace(m.pages, page, l.order[last]).mapping[owner[f]] == f
  {
    var last := |l.order| - 1;
    if f != m.pages.mapping[l.order[last]] {
      var i :| 0 <= i < |l.order| && l.order[i] == m.owner[f];
      assert i < last && ([page] + l.order[..last])[i + 1] == l.order[i];
      assert m.owner[f] != page by {
        assert m.pages.Resident(l.order[i]);
      }
    }
  }

  lemma {:induction false} ReplaceMatches(m: Aged, l: Recency.Listed, page: nat)
    requires Matches(m, l) && page < |m.pages.prot| && m.pages.prot[page] == NoAccess
    requires |l.order| == |m.ages|
    ensures Matches(Fault(m, page), Recency.Fault(l, page, true))
  {
    var aged := m.(ages := Tick(m.ages));
    TickGrows(m, l);
    FirstFreeIsCount(aged, l);
    OldestIsLast(aged, l);
    ReplaceAges(aged, l, page);
    Recency.FaultKeeps(l, page, true);
    var t, u := Fault(m, page), Recency.Fault(l, page, true);
    forall f | 0 <= f < |m.ages|
      ensures t.owner[f] in u.order && t.pages.mapping[t.owner[f]] == f
    {
      ReplaceOwners(aged, l, page, f);
    }
  }

  /** The FIFO handler and the LRU handler do the same thing to the page table, the frames and
      the backing store, and stay in step. */
  lemma {:induction false} FaultMatches(m: Aged, l: Recency.Listed, page: nat)
    requires Matches(m, l) && page < |m.pages.prot|
    ensures Matches(Fault(m, page), Recency.Fault(l, page, true))
  {
    if m.pages.prot[page] != NoAccess {
      UpgradeMatches(m, l, page);
    } else if |l.order| < |m.ages| {
      LoadMatches(m, l, page);
    } else {
      ReplaceMatches(m, l, page);
    }
  }

  // ---------- flush ----------

  /** What still has to be released when the flush is about to visit frame i: the frames from
      i up to `used`, each naming the page it holds. */
  ghost predicate Flushing(m: Aged, i: nat, used: nat) {
    && Shaped(m)
    && Coherent(m.pages)
    && used <= |m.ages|
    && (forall f | 0 <= f < |m.ages| :: m.ages[f] != 0 <==> i <= f < used)
    && (forall f | i <= f < used :: m.pages.Resident(m.owner[f]) && m.pages.mapping[m.owner[f]] == f)
    && (forall p: nat | m.pages.Resident(p) :: i <= m.pages.mapping[p] < used && m.owner[m.pages.mapping[p]] == p)
  }

  lemma {:induction false} FlushSlotKeeps(m: Aged, i: nat, used: nat)
    requires Flushing(m, i, used) && i < |m.owner|
    ensures Flushing(FlushSlot(m, i), i + 1, used)
    ensures Memory(FlushSlot(m, i).pages) == Memory(m.pages)
  {
    var victim := m.owner[i];
    var n := FlushSlot(m, i);
    ReleaseKeeps(m.pages, victim);
    assert forall p: nat :: n.pages.Resident(p) <==> m.pages.Resident(p) && p != victim;
  }

  lemma {:induction false} FlushFromKeeps(m: Aged, i: nat, used: nat)
    requires Flushing(m, i, used) && i <= |m.owner|
    ensures var t := FlushFrom(m, i);
            && Flushing(t, |m.owner|, used)
            && t.owner == m.owner
            && t.pages.mapping == m.pages.mapping
            && t.pages.frames == m.pages.frames
            && t.pages.blockSize == m.pages.blockSize
            && Memory(t.pages) == Memory(m.pages)
    decreases |m.owner| - i
  {
    if i < |m.owner| {
      FlushSlotKeeps(m, i, used);
      FlushFromKeeps(FlushSlot(m, i), i + 1, used);
    }
  }

  lemma {:induction false} MatchesStartsFlush(m: Aged, l: Recency.Listed)
    requires Matches(m, l)
    ensures Flushing(m, 0, |l.order|)
  {
    forall p: nat | m.pages.Resident(p)
      ensures m.pages.mapping[p] < |l.order| && m.owner[m.pages.mapping[p]] == p
    {
      var k :| 0 <= k < |l.order| && l.order[k] == p;
      OwnerOf(m, l, k);
    }
  }

  /** A flush empties both machines and leaves the same pages behind. */
  lemma {:induction false} FlushMatches(m: Aged, l: Recency.Listed)
    requires Matches(m, l)
    ensures Matches(FlushFrom(m, 0), Recency.Flush(l))
    ensures Memory(FlushFrom(m, 0).pages) == Memory(m.pages) == FlushFrom(m, 0).pages.store
    ensures forall p :: !FlushFrom(m, 0).pages.Resident(p)
  {
    MatchesStartsFlush(m, l);
    FlushFromKeeps(m, 0, |l.order|);
    Recency.FlushKeeps(l);
    var t, u := FlushFrom(m, 0), Recency.Flush(l);
    assert forall p: nat :: !t.pages.Resident(p);
    NothingResident(t.pages);
    SameWhenFlushed(t.pages, u.pages);
  }

  lemma {:induction false} SameWhenFlushed(s: Pages, t: Pages)
    requires Coherent(s) && Coherent(t) && forall p: nat :: !s.Resident(p) && !t.Resident(p)
    requires s.mapping == t.mapping && s.frames == t.frames && s.blockSize == t.blockSize && Memory(s) == Memory(t)
    ensures s == t
  {
    NothingResident(s);
    NothingResident(t);
  }

  // ---------- whole runs ----------

  datatype Call = FaultOn(page: nat) | FlushAll

  ghost predicate Calls(calls: seq<Call>, npages: nat) {
    forall i | 0 <= i < |calls| :: calls[i].FaultOn? ==> calls[i].page < npages
  }

  ghost function ListedStep(l: Recency.Listed, c: Call): (r: Recency.Listed)
    requires Recency.Inv(l) && (c.FaultOn? ==> c.page < |l.pages.prot|)
    ensures Recency.Inv(r) && |r.pages.prot| == |l.pages.prot|
  {
    match c
    case FaultOn(page) =>
      Recency.FaultKeeps(l, page, true);
      Recency.Fault(l, page, true)
    case FlushAll =>
      Recency.FlushKeeps(l);
      Recency.Flush(l)
  }

  ghost function ListedRun(l: Recency.Listed, calls: seq<Call>): (r: Recency.Listed)
    requires Recency.Inv(l) && Calls(calls, |l.pages.prot|)
    decreases |calls|
  {
    if |calls| == 0 then l else ListedRun(ListedStep(l, calls[0]), calls[1..])
  }

  ghost function AgedStep(m: Aged, c: Call): (r: Aged)
    requires Shaped(m) && (c.FaultOn? ==> c.page < |m.pages.prot|)
    ensures Shaped(r) && |r.pages.prot| == |m.pages.prot|
  {
    match c
    case FaultOn(page) =>
      Fault(m, page)
    case FlushAll =>
      FlushShaped(m, 0);
      FlushFrom(m, 0)
  }

  lemma {:induction false} FlushShaped(m: Aged, i: nat)
    requires Shaped(m) && i <= |m.owner|
    ensures Shaped(FlushFrom(m, i)) && |FlushFrom(m, i).pages.prot| == |m.pages.prot|
    decreases |m.owner| - i
  {
    if i < |m.owner| {
      FlushShaped(FlushSlot(m, i), i + 1);
    }
  }

  ghost function AgedRun(m: Aged, calls: seq<Call>): (r: Aged)
    requires Shaped(m) && Calls(calls, |m.pages.prot|)
    decreases |calls|
  {
    if |calls| == 0 then m else AgedRun(AgedStep(m, calls[0]), calls[1..])
  }

  /** After every sequence of faults and flushes, the ageing frames and the recency list have
      produced the same page table, the same frames and the same backing store. */
  lemma {:induction false} RunMatches(m: Aged, l: Recency.Listed, calls: seq<Call>)
    requires Matches(m, l) && Calls(calls, |m.pages.prot|)
    ensures AgedRun(m, calls).pages == ListedRun(l, calls).pages
    ensures Matches(AgedRun(m, calls), ListedRun(l, calls))
    decreases |calls|
  {
    if |calls| > 0 {
      StepMatches(m, l, calls[0]);
      RunMatches(AgedStep(m, calls[0]), ListedStep(l, calls[0]), calls[1..]);
    }
  }

  lemma {:induction false} StepMatches(m: Aged, l: Recency.Listed, c: Call)
    requires Matches(m, l) && (c.FaultOn? ==> c.page < |m.pages.prot|)
    ensures Matches(AgedStep(m, c), ListedStep(l, c))
  {
    match c
    case FaultOn(page) => FaultMatches(m, l, page);
    case FlushAll => FlushMatches(m, l);
  }
}
