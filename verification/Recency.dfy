/**
 The LRU and FFIFO page-fault handlers. Both keep the resident pages in one list, newest
 first, and evict the last one; a fault on a resident page (a first write) moves it to the
 front under LRU and leaves the list alone under FFIFO.
 */
module Recency {
  import opened Paging
  import opened Sequences

  datatype Listed = Listed(pages: Pages, order: seq<nat>)

  /** The list holds page numbers, and every page in it has a frame number. */
  ghost predicate Shaped(m: Listed) {
    && |m.pages.mapping| == |m.pages.prot| == |m.pages.store|
    && |m.pages.frames| > 0
    && forall i | 0 <= i < |m.order| ::
         m.order[i] < |m.pages.mapping| && m.pages.mapping[m.order[i]] < |m.pages.frames|
  }

  /** The list holds exactly the resident pages, each once. */
  ghost predicate Lists(order: seq<nat>, s: Pages) {
    && Distinct(order)
    && (forall i | 0 <= i < |order| :: s.Resident(order[i]))
    && (forall p: nat | s.Resident(p) :: p in order)
  }

  ghost predicate Tracks(m: Listed) {
    Coherent(m.pages) && Lists(m.order, m.pages)
  }

  /** In addition, only the first `count` frames are occupied. */
  ghost predicate Inv(m: Listed) {
    && Tracks(m)
    && |m.order| <= |m.pages.frames|
    && (forall i | 0 <= i < |m.order| :: m.pages.mapping[m.order[i]] < |m.order|)
  }

  /** `promote` is true for the LRU handler and false for the FFIFO handler. */
  function Fault(m: Listed, page: nat, promote: bool): (t: Listed)
    requires Shaped(m) && page < |m.pages.prot|
  {
    if m.pages.prot[page] != NoAccess then
      Listed(Upgrade(m.pages, page), if promote then [page] + Without(m.order, page) else m.order)
    else if |m.order| < |m.pages.frames| then
      Listed(Load(m.pages, page, |m.order|), [page] + m.order)
    else
      var last := |m.order| - 1;
      Listed(Replace(m.pages, page, m.order[last]), [page] + m.order[..last])
  }

  lemma {:induction false} FaultKeeps(m: Listed, page: nat, promote: bool)
    requires Inv(m) && page < |m.pages.prot|
    ensures Inv(Fault(m, page, promote))
    ensures Memory(Fault(m, page, promote).pages) == Memory(m.pages)
  {
    if m.pages.prot[page] != NoAccess {
      FaultUpgrades(m, page, promote);
    } else if |m.order| < |m.pages.frames| {
      FaultLoads(m, page, promote);
    } else {
      FaultReplaces(m, page, promote);
    }
  }

  lemma {:induction false} FaultUpgrades(m: Listed, page: nat, promote: bool)
    requires Inv(m) && m.pages.Resident(page)
    ensures Inv(Fault(m, page, promote))
    ensures Memory(Fault(m, page, promote).pages) == Memory(m.pages)
  {
    UpgradeKeeps(m.pages, page);
    PromotedLists(m.order, m.pages, page);
    var t := Fault(m, page, promote);
    assert forall i | 0 <= i < |t.order| :: t.order[i] in m.order;
  }

  lemma {:induction false} PromotedLists(order: seq<nat>, s: Pages, page: nat)
    requires Lists(order, s) && s.Resident(page)
    ensures Lists(order, Upgrade(s, page))
    ensures Lists([page] + Without(order, page), Upgrade(s, page))
    ensures |Without(order, page)| == |order| - 1
    ensures forall i | 0 <= i < |order| - 1 :: Without(order, page)[i] in order
  {
    WithoutMembers(order, page);
    var t := Upgrade(s, page);
    assert forall p: nat :: t.Resident(p) <==> s.Resident(p);
    var rest := Without(order, page);
    assert forall i | 0 <= i < |rest| :: rest[i] in rest;
  }

  lemma {:induction false} FaultLoads(m: Listed, page: nat, promote: bool)
    requires Inv(m) && page < |m.pages.prot| && m.pages.prot[page] == NoAccess
    requires |m.order| < |m.pages.frames|
    ensures Inv(Fault(m, page, promote))
    ensures Memory(Fault(m, page, promote).pages) == Memory(m.pages)
  {
    var t := Fault(m, page, promote);
    assert FrameFree(m.pages, |m.order|);
    LoadKeeps(m.pages, page, |m.order|);
    assert forall p: nat :: t.pages.Resident(p) <==> m.pages.Resident(p) || p == page;
  }

  lemma {:induction false} FaultReplaces(m: Listed, page: nat, promote: bool)
    requires Inv(m) && page < |m.pages.prot| && m.pages.prot[page] == NoAccess
    requires |m.order| == |m.pages.frames|
    ensures Inv(Fault(m, page, promote))
    ensures Memory(Fault(m, page, promote).pages) == Memory(m.pages)
  {
    var victim := m.order[|m.order| - 1];
    ReplaceKeeps(m.pages, page, victim);
    ReplacedLists(m.order, m.pages, page);
  }

  lemma {:induction false} ReplacedLists(order: seq<nat>, s: Pages, page: nat)
    requires Lists(order, s) && s.Sized() && page < |s.prot| && s.prot[page] == NoAccess && order != []
    ensures Lists([page] + order[..|order| - 1], Replace(s, page, order[|order| - 1]))
  {
    var last := |order| - 1;
    LastAndRest(order);
    var t := Replace(s, page, order[last]);
    assert page !in order;
    assert forall p: nat :: t.Resident(p) <==> (s.Resident(p) && p != order[last]) || p == page;
  }

  // ---------- flush ----------

  /** `deleteLRU` from the tail until the list is empty, writing back what was written. */
  function Flush(m: Listed): (t: Listed)
    requires Shaped(m)
    decreases |m.order|
  {
    if m.order == [] then m
    else
      var last := |m.order| - 1;
      Flush(Listed(Release(m.pages, m.order[last]), m.order[..last]))
  }

  lemma {:induction false} FlushKeeps(m: Listed)
    requires Tracks(m)
    ensures Inv(Flush(m)) && Flush(m).order == []
    ensures Memory(Flush(m).pages) == Memory(m.pages) == Flush(m).pages.store
    ensures forall p :: !Flush(m).pages.Resident(p)
    ensures Flush(m).pages.mapping == m.pages.mapping && Flush(m).pages.frames == m.pages.frames
    ensures Flush(m).pages.blockSize == m.pages.blockSize
    decreases |m.order|
  {
    if m.order == [] {
      assert forall p: nat :: !m.pages.Resident(p);
      NothingResident(m.pages);
    } else {
      FlushStep(m);
      FlushKeeps(Listed(Release(m.pages, m.order[|m.order| - 1]), m.order[..|m.order| - 1]));
    }
  }

  lemma {:induction false} FlushStep(m: Listed)
    requires Tracks(m) && m.order != []
    ensures var n := Listed(Release(m.pages, m.order[|m.order| - 1]), m.order[..|m.order| - 1]);
            Tracks(n) && Memory(n.pages) == Memory(m.pages)
  {
    var last := |m.order| - 1;
    var n := Listed(Release(m.pages, m.order[last]), m.order[..last]);
    ReleaseKeeps(m.pages, m.order[last]);
    LastAndRest(m.order);
    assert forall p: nat :: n.pages.Resident(p) <==> m.pages.Resident(p) && p != m.order[last];
  }
}
