/**
 The trace-driven page-table simulator: page table entries, the core map, simulated physical
 memory and the swap space, driven by one reference after another. The replacement policy is
 whatever frame its evict function names; nothing here depends on which one it is.

 Every reference goes through `Reference`. `RunCoherent` shows, for every trace and every
 choice of victims, that the version counter stored in a page counts exactly the writes made
 to it, however often the page went to swap and back.
 */
module Simulation {

  datatype Option<+T> = None | Some(value: T)

  /** What a page holds: a version number and the address it was first touched with. */
  datatype PageData = PageData(version: nat, vaddr: nat)

  /** A page table entry: the frame number and the four flag bits that `find_physpage` packs
      into one word, and the address of the page's swap slot, if it has one. */
  datatype Pte = Pte(frame: nat, valid: bool, dirty: bool, referenced: bool, onSwap: bool, swap: Option<nat>)

  const BLANK := Pte(0, false, false, false, false, None)

  /** One frame of the core map: the page it holds, and that page's aligned address. */
  datatype CoreFrame = CoreFrame(inUse: bool, page: nat, vaddr: nat)

  datatype Counts = Counts(hits: nat, misses: nat, refs: nat, clean: nat, dirty: nat)

  datatype Sim = Sim(ptes: seq<Pte>, coremap: seq<CoreFrame>, physmem: seq<PageData>, swap: seq<PageData>,
                     counts: Counts)

  const PAGE_SIZE: nat := 4096

  function PageOf(vaddr: nat): (page: nat) {
    vaddr / PAGE_SIZE
  }

  /** The page-aligned address. */
  function Align(vaddr: nat): (a: nat) {
    PageOf(vaddr) * PAGE_SIZE
  }

  function FreeFrom(coremap: seq<CoreFrame>, i: nat): (r: nat)
    requires i <= |coremap|
    ensures i <= r <= |coremap|
    ensures r < |coremap| ==> !coremap[r].inUse
    ensures forall f | i <= f < r :: coremap[f].inUse
    decreases |coremap| - i
  {
    if i == |coremap| || !coremap[i].inUse then i else FreeFrom(coremap, i + 1)
  }

  // ---------- one reference ----------

  ghost predicate Shaped(s: Sim) {
    && |s.physmem| == |s.coremap| > 0
    && (forall f | 0 <= f < |s.coremap| && s.coremap[f].inUse :: s.coremap[f].page < |s.ptes|)
    && (forall p | 0 <= p < |s.ptes| && s.ptes[p].valid :: s.ptes[p].frame < |s.coremap|)
    && (forall p | 0 <= p < |s.ptes| :: s.ptes[p].onSwap ==> s.ptes[p].swap.Some?)
    && (forall p | 0 <= p < |s.ptes| && s.ptes[p].swap.Some? :: s.ptes[p].swap.value < |s.swap|)
  }

  /** `swap_pageout`: the first time a page is written out it gets a new slot. */
  function PageOut(s: Sim, page: nat, frame: nat): (t: Sim)
    requires Shaped(s) && page < |s.ptes| && frame < |s.physmem|
  {
    var p := s.ptes[page];
    if p.swap.None? then
      s.(swap := s.swap + [s.physmem[frame]], ptes := s.ptes[page := p.(swap := Some(|s.swap|))])
    else
      s.(swap := s.swap[p.swap.value := s.physmem[frame]])
  }

  /** The eviction in `allocate_frame`: a dirty page goes to swap, a clean one is dropped. */
  function Evict(s: Sim, victim: nat): (t: Sim)
    requires Shaped(s) && victim < |s.coremap| && s.coremap[victim].inUse
  {
    var page := s.coremap[victim].page;
    if s.ptes[page].dirty then
      var t := PageOut(s, page, victim);
      t.(ptes := t.ptes[page := t.ptes[page].(valid := false, onSwap := true)],
         counts := t.counts.(dirty := t.counts.dirty + 1))
    else
      s.(ptes := s.ptes[page := s.ptes[page].(valid := false)],
         counts := s.counts.(clean := s.counts.clean + 1))
  }

  /** `allocate_frame`: the first free frame, or the victim's. */
  function Room(s: Sim, victim: nat): (r: (Sim, nat))
    requires Shaped(s) && victim < |s.coremap|
    ensures r.1 < |s.coremap|
  {
    var free := FreeFrom(s.coremap, 0);
    if free < |s.coremap| then (s, free) else (Evict(s, victim), victim)
  }

  /** A page that is not in memory is brought into a frame: from swap if it was ever written
      there, zero-filled otherwise. */
  function Bring(s: Sim, page: nat, vaddr: nat, frame: nat): (t: Sim)
    requires page < |s.ptes| && frame < |s.coremap| == |s.physmem|
    requires s.ptes[page].onSwap ==> s.ptes[page].swap.Some? && s.ptes[page].swap.value < |s.swap|
  {
    var p := s.ptes[page];
    var data := if p.onSwap then s.swap[p.swap.value] else PageData(0, vaddr);
    s.(ptes := s.ptes[page := Pte(frame, false, !p.onSwap, false, p.onSwap, p.swap)],
       coremap := s.coremap[frame := CoreFrame(true, page, Align(vaddr))],
       physmem := s.physmem[frame := data])
  }

  function Counted(s: Sim, hits: nat, misses: nat): (t: Sim) {
    s.(counts := s.counts.(hits := s.counts.hits + hits, misses := s.counts.misses + misses))
  }

  function Miss(s: Sim, page: nat, vaddr: nat, victim: nat): (t: Sim)
    requires Shaped(s) && page < |s.ptes| && !s.ptes[page].valid && victim < |s.coremap|
  {
    RoomShape(s, victim);
    var (t, frame) := Room(s, victim);
    Counted(Bring(t, page, vaddr, frame), 0, 1)
  }

  lemma {:induction false} RoomShape(s: Sim, victim: nat)
    requires Shaped(s) && victim < |s.coremap|
    ensures Shaped(Room(s, victim).0)
    ensures |Room(s, victim).0.ptes| == |s.ptes| && |Room(s, victim).0.coremap| == |s.coremap|
  {
  }

  /** The end of `find_physpage`, and the write of `access_mem`. */
  function Touch(s: Sim, page: nat, write: bool): (t: Sim)
    requires page < |s.ptes| && s.ptes[page].frame < |s.physmem|
  {
    var p := s.ptes[page];
    var data := s.physmem[p.frame];
    s.(ptes := s.ptes[page := p.(valid := true, referenced := true, dirty := p.dirty || write)],
       physmem := if write then s.physmem[p.frame := data.(version := data.version + 1)] else s.physmem,
       counts := s.counts.(refs := s.counts.refs + 1))
  }

  /** `access_mem`: one line of the trace; `victim` is what evict_fcn returns, should it be called. */
  function Reference(s: Sim, vaddr: nat, write: bool, victim: nat): (t: Sim)
    requires Shaped(s) && PageOf(vaddr) < |s.ptes| && victim < |s.coremap|
  {
    var page := PageOf(vaddr);
    if s.ptes[page].valid then
      Touch(Counted(s, 1, 0), page, write)
    else
      Touch(Miss(s, page, vaddr, victim), page, write)
  }

  // ---------- what every reference keeps ----------

  /** Core map and valid entries are each other's inverse. */
  ghost predicate Linked(s: Sim) {
    && (forall f | 0 <= f < |s.coremap| && s.coremap[f].inUse ::
          var p := s.coremap[f].page;
          p < |s.ptes| && s.ptes[p].valid && s.ptes[p].frame == f && s.coremap[f].vaddr == p * PAGE_SIZE)
    && (forall p | 0 <= p < |s.ptes| && s.ptes[p].valid ::
          var f := s.ptes[p].frame;
          f < |s.coremap| && s.coremap[f].inUse && s.coremap[f].page == p)
  }

  /** Pages that were ever written out have a slot of their own. */
  ghost predicate Slotted(s: Sim) {
    && (forall p | 0 <= p < |s.ptes| :: s.ptes[p].onSwap ==> s.ptes[p].swap.Some?)
    && (forall p | 0 <= p < |s.ptes| && s.ptes[p].swap.Some? :: s.ptes[p].swap.value < |s.swap|)
    && (forall p, q | 0 <= p < q < |s.ptes| && s.ptes[p].swap.Some? && s.ptes[q].swap.Some? ::
          s.ptes[p].swap.value != s.ptes[q].swap.value)
  }

  /** A valid page that is not dirty equals its copy on swap. */
  ghost predicate Backed(s: Sim)
    requires Linked(s) && Slotted(s) && |s.physmem| == |s.coremap|
  {
    forall p | 0 <= p < |s.ptes| && s.ptes[p].valid && !s.ptes[p].dirty ::
      s.ptes[p].onSwap && s.swap[s.ptes[p].swap.value] == s.physmem[s.ptes[p].frame]
  }

  ghost predicate Inv(s: Sim) {
    |s.physmem| == |s.coremap| > 0 && Linked(s) && Slotted(s) && Backed(s)
  }

  /** The contents of a page, wherever they are; None if the page was never touched. */
  ghost function Content(s: Sim, p: nat): (c: Option<PageData>)
    requires Inv(s) && p < |s.ptes|
  {
    if s.ptes[p].valid then Some(s.physmem[s.ptes[p].frame])
    else if s.ptes[p].onSwap then Some(s.swap[s.ptes[p].swap.value])
    else None
  }

  lemma {:induction false} InvShaped(s: Sim)
    requires Inv(s)
    ensures Shaped(s)
  {
  }

  /** An eviction loses nothing. */
  lemma {:induction false} EvictKeeps(s: Sim, victim: nat)
    requires Inv(s) && victim < |s.coremap| && s.coremap[victim].inUse
    ensures var t := Evict(s, victim);
            var t' := t.(coremap := t.coremap[victim := t.coremap[victim].(inUse := false)]);
            && Inv(t') && |t.ptes| == |s.ptes| && |t.coremap| == |s.coremap|
            && !t'.ptes[s.coremap[victim].page].valid
            && forall p: nat | p < |s.ptes| :: Content(t', p) == Content(s, p)
  {
    var page := s.coremap[victim].page;
    var t := Evict(s, victim);
    var t' := t.(coremap := t.coremap[victim := t.coremap[victim].(inUse := false)]);
    EvictFrames(s, victim);
    if s.ptes[page].dirty {
      assert t.swap[t.ptes[page].swap.value] == s.physmem[victim];
      assert forall p | 0 <= p < |s.ptes| && p != page && s.ptes[p].swap.Some? ::
          t.ptes[p].swap.value != t.ptes[page].swap.value;
    }
  }

  lemma {:induction false} EvictFrames(s: Sim, victim: nat)
    requires Inv(s) && victim < |s.coremap| && s.coremap[victim].inUse
    ensures var t := Evict(s, victim);
            Linked(t.(coremap := t.coremap[victim := t.coremap[victim].(inUse := false)]))
  {
  }

  /** Bringing a page into a frame nobody uses, with the valid bit that `Touch` sets anyway. */
  function Brought(s: Sim, page: nat, vaddr: nat, frame: nat): (t: Sim)
    requires page < |s.ptes| && frame < |s.coremap| == |s.physmem|
    requires s.ptes[page].onSwap ==> s.ptes[page].swap.Some? && s.ptes[page].swap.value < |s.swap|
  {
    var t := Bring(s, page, vaddr, frame);
    t.(ptes := t.ptes[page := t.ptes[page].(valid := true)])
  }

  lemma {:induction false} BroughtKeeps(s: Sim, page: nat, vaddr: nat, frame: nat)
    requires Inv(s) && page < |s.ptes| && !s.ptes[page].valid && PageOf(vaddr) == page
    requires frame < |s.coremap| && !s.coremap[frame].inUse
    ensures var t := Brought(s, page, vaddr, frame);
            && Inv(t) && t.ptes[page].valid
            && (forall p: nat | p < |s.ptes| && p != page :: Content(t, p) == Content(s, p))
            && Content(t, page) == (if s.ptes[page].onSwap then Content(s, page) else Some(PageData(0, vaddr)))
  {
    var t := Brought(s, page, vaddr, frame);
    assert forall p | 0 <= p < |s.ptes| && p != page :: t.ptes[p] == s.ptes[p];
    assert forall p | 0 <= p < |s.ptes| && s.ptes[p].valid :: s.ptes[p].frame != frame;
  }

  lemma {:induction false} TouchKeeps(s: Sim, page: nat, write: bool)
    requires Inv(s) && page < |s.ptes| && s.ptes[page].valid
    ensures var t := Touch(s, page, write);
            && Inv(t) && |t.ptes| == |s.ptes|
            && (forall p: nat | p < |s.ptes| && p != page :: Content(t, p) == Content(s, p))
            && Content(s, page).Some?
            && var data := Content(s, page).value;
               Content(t, page) == Some(if write then data.(version := data.version + 1) else data)
  {
    var t := Touch(s, page, write);
    assert forall p | 0 <= p < |s.ptes| && p != page && s.ptes[p].valid :: s.ptes[p].frame != s.ptes[page].frame;
  }

  /** The version stored in a page; 0 for a page never touched. */
  ghost function Version(s: Sim, p: nat): (v: nat)
    requires Inv(s) && p < |s.ptes|
  {
    match Content(s, p)
    case Some(data) => data.version
    case None => 0
  }

  /** What a reference leaves in its page: a page that was never touched is zero-filled and records
      the address, and a write adds one to the version. */
  function Accessed(c: Option<PageData>, vaddr: nat, write: bool): (r: PageData) {
    var data := if c.Some? then c.value else PageData(0, vaddr);
    if write then data.(version := data.version + 1) else data
  }

  /** One reference adds one to the version of the page it writes, and changes no other page. */
  lemma {:induction false} ReferenceKeeps(s: Sim, vaddr: nat, write: bool, victim: nat)
    requires Inv(s) && PageOf(vaddr) < |s.ptes| && victim < |s.coremap|
    ensures Shaped(s)
    ensures var t := Reference(s, vaddr, write, victim);
            && Inv(t) && |t.ptes| == |s.ptes| && |t.coremap| == |s.coremap|
            && t.ptes[PageOf(vaddr)].valid
            && (forall p: nat | p < |s.ptes| ::
                  Content(t, p) == if p == PageOf(vaddr) then Some(Accessed(Content(s, p), vaddr, write))
                                   else Content(s, p))
            && (forall p: nat | p < |s.ptes| ::
                  Version(t, p) == Version(s, p) + if write && p == PageOf(vaddr) then 1 else 0)
  {
    InvShaped(s);
    var page := PageOf(vaddr);
    if s.ptes[page].valid {
      TouchKeeps(Counted(s, 1, 0), page, write);
    } else {
      MissKeeps(s, page, vaddr, victim);
      TouchSetsValid(Miss(s, page, vaddr, victim), page, write);
      TouchKeeps(Missed(s, page, vaddr, victim), page, write);
    }
  }

  /** A miss, with the valid bit set. */
  function Missed(s: Sim, page: nat, vaddr: nat, victim: nat): (t: Sim)
    requires Shaped(s) && page < |s.ptes| && !s.ptes[page].valid && victim < |s.coremap|
  {
    var t := Miss(s, page, vaddr, victim);
    t.(ptes := t.ptes[page := t.ptes[page].(valid := true)])
  }

  lemma {:induction false} TouchSetsValid(s: Sim, page: nat, write: bool)
    requires page < |s.ptes| && s.ptes[page].frame < |s.physmem|
    ensures Touch(s, page, write) == Touch(s.(ptes := s.ptes[page := s.ptes[page].(valid := true)]), page, write)
  {
  }

  /** The contents are the same, but for the page that may have been zero-filled. */
  ghost predicate SameContents(s: Sim, t: Sim, page: nat, vaddr: nat)
    requires Inv(s) && Inv(t)
  {
    && |t.ptes| == |s.ptes| && |t.coremap| == |s.coremap| && page < |s.ptes|
    && (forall p: nat | p < |s.ptes| && p != page :: Content(t, p) == Content(s, p))
    && Content(t, page) == (if Content(s, page).Some? then Content(s, page) else Some(PageData(0, vaddr)))
  }

  lemma {:induction false} MissKeeps(s: Sim, page: nat, vaddr: nat, victim: nat)
    requires Inv(s) && Shaped(s) && page < |s.ptes| && !s.ptes[page].valid && PageOf(vaddr) == page
        && victim < |s.coremap|
    ensures In(s, Missed(s, page, vaddr, victim), page, vaddr)
  {
    RoomShape(s, victim);
    var (r, frame) := Room(s, victim);
    MissedIs(s, page, vaddr, victim);
    if FreeFrom(s.coremap, 0) < |s.coremap| {
      MissFills(s, page, vaddr, frame);
    } else {
      MissEvicts(s, page, vaddr, victim);
    }
    CountedIn(s, Brought(r, page, vaddr, frame), page, vaddr);
  }

  lemma {:induction false} MissedIs(s: Sim, page: nat, vaddr: nat, victim: nat)
    requires Shaped(s) && page < |s.ptes| && !s.ptes[page].valid && victim < |s.coremap|
    ensures Shaped(Room(s, victim).0)
    ensures |Room(s, victim).0.ptes| == |s.ptes| && |Room(s, victim).0.coremap| == |s.coremap|
    ensures Missed(s, page, vaddr, victim) == Counted(Brought(Room(s, victim).0, page, vaddr, Room(s, victim).1), 0, 1)
  {
    RoomShape(s, victim);
  }

  /** The page is in memory, and nothing was lost. */
  ghost predicate In(s: Sim, t: Sim, page: nat, vaddr: nat)
    requires Inv(s)
  {
    Inv(t) && SameContents(s, t, page, vaddr) && t.ptes[page].valid
  }

  lemma {:induction false} CountedIn(s: Sim, t: Sim, page: nat, vaddr: nat)
    requires Inv(s) && In(s, t, page, vaddr)
    ensures In(s, Counted(t, 0, 1), page, vaddr)
  {
    var u := Counted(t, 0, 1);
    assert forall p: nat | p < |t.ptes| :: Content(u, p) == Content(t, p);
  }

  lemma {:induction false} MissFills(s: Sim, page: nat, vaddr: nat, free: nat)
    requires Inv(s) && page < |s.ptes| && !s.ptes[page].valid && PageOf(vaddr) == page
    requires free < |s.coremap| && !s.coremap[free].inUse
    ensures In(s, Brought(s, page, vaddr, free), page, vaddr)
  {
    BroughtKeeps(s, page, vaddr, free);
  }

  lemma {:induction false} MissEvicts(s: Sim, page: nat, vaddr: nat, victim: nat)
    requires Inv(s) && Shaped(s) && page < |s.ptes| && !s.ptes[page].valid && PageOf(vaddr) == page
    requires victim < |s.coremap| && s.coremap[victim].inUse && Shaped(Evict(s, victim))
    requires |Evict(s, victim).ptes| == |s.ptes| && |Evict(s, victim).coremap| == |s.coremap|
    ensures In(s, Brought(Evict(s, victim), page, vaddr, victim), page, vaddr)
  {
    EvictKeeps(s, victim);
    var r := Evict(s, victim);
    var r' := r.(coremap := r.coremap[victim := r.coremap[victim].(inUse := false)]);
    assert !r'.ptes[page].valid;
    BroughtKeeps(r', page, vaddr, victim);
    assert Brought(r', page, vaddr, victim) == Brought(r, page, vaddr, victim);
  }

  // ---------- residents and counters ----------

  ghost function Residents(s: Sim): (r: set<nat>) {
    set p: nat | p < |s.ptes| && s.ptes[p].valid
  }

  /** Frames are handed out from the first one on and never given back. */
  ghost predicate Packed(s: Sim) {
    forall f | 0 <= f < |s.coremap| :: s.coremap[f].inUse <==> f < FreeFrom(s.coremap, 0)
  }

  /** Every reference is a hit or a miss, and every miss filled a new frame or evicted a page. */
  ghost predicate Tallied(s: Sim) {
    && Packed(s)
    && |Residents(s)| == FreeFrom(s.coremap, 0)
    && s.counts.hits + s.counts.misses == s.counts.refs
    && s.counts.clean + s.counts.dirty + |Residents(s)| == s.counts.misses
  }

  /** Which pages are resident after a reference to `page`, when there are this many frames and
      the page named last would be evicted. */
  ghost function Demand(r: set<nat>, page: nat, frames: nat, victim: nat): (t: set<nat>) {
    if page in r then r
    else if |r| < frames then r + {page}
    else r - {victim} + {page}
  }

  lemma {:induction false} ReferenceResidents(s: Sim, vaddr: nat, write: bool, victim: nat)
    requires Inv(s) && Shaped(s) && Tallied(s) && PageOf(vaddr) < |s.ptes| && victim < |s.coremap|
    ensures var t := Reference(s, vaddr, write, victim);
            && Residents(t) == Demand(Residents(s), PageOf(vaddr), |s.coremap|, s.coremap[victim].page)
            && t.counts.misses == s.counts.misses + (if PageOf(vaddr) in Residents(s) then 0 else 1)
            && Tallied(t)
  {
    var page := PageOf(vaddr);
    var t := Reference(s, vaddr, write, victim);
    if s.ptes[page].valid {
      assert Residents(t) == Residents(s);
    } else if FreeFrom(s.coremap, 0) < |s.coremap| {
      FillsFrame(s, vaddr, write, victim);
    } else {
      SwapsFrame(s, vaddr, write, victim);
    }
  }

  lemma {:induction false} FreeFromIs(coremap: seq<CoreFrame>, c: nat)
    requires c <= |coremap| && forall f | 0 <= f < |coremap| :: coremap[f].inUse <==> f < c
    ensures FreeFrom(coremap, 0) == c
  {
    assert c < |coremap| ==> !coremap[c].inUse;
  }

  lemma {:induction false} FillsFrame(s: Sim, vaddr: nat, write: bool, victim: nat)
    requires Inv(s) && Shaped(s) && Tallied(s) && PageOf(vaddr) < |s.ptes| && victim < |s.coremap|
    requires !s.ptes[PageOf(vaddr)].valid && FreeFrom(s.coremap, 0) < |s.coremap|
    ensures var t := Reference(s, vaddr, write, victim);
            Residents(t) == Residents(s) + {PageOf(vaddr)} && t.counts.misses == s.counts.misses + 1 && Tallied(t)
  {
    FillsResidents(s, vaddr, write, victim);
    FillsFree(s, vaddr, write, victim);
  }

  lemma {:induction false} FillsResidents(s: Sim, vaddr: nat, write: bool, victim: nat)
    requires Inv(s) && Shaped(s) && PageOf(vaddr) < |s.ptes| && victim < |s.coremap|
    requires !s.ptes[PageOf(vaddr)].valid && FreeFrom(s.coremap, 0) < |s.coremap|
    ensures Residents(Reference(s, vaddr, write, victim)) == Residents(s) + {PageOf(vaddr)}
  {
  }

  lemma {:induction false} FillsFree(s: Sim, vaddr: nat, write: bool, victim: nat)
    requires Shaped(s) && Packed(s) && PageOf(vaddr) < |s.ptes| && victim < |s.coremap|
    requires !s.ptes[PageOf(vaddr)].valid && FreeFrom(s.coremap, 0) < |s.coremap|
    ensures var t := Reference(s, vaddr, write, victim);
            && Packed(t) && FreeFrom(t.coremap, 0) == FreeFrom(s.coremap, 0) + 1
            && t.counts == s.counts.(refs := s.counts.refs + 1, misses := s.counts.misses + 1)
  {
    var t := Reference(s, vaddr, write, victim);
    FreeFromIs(t.coremap, FreeFrom(s.coremap, 0) + 1);
  }

  lemma {:induction false} SwapsFrame(s: Sim, vaddr: nat, write: bool, victim: nat)
    requires Inv(s) && Shaped(s) && Tallied(s) && PageOf(vaddr) < |s.ptes| && victim < |s.coremap|
    requires !s.ptes[PageOf(vaddr)].valid && FreeFrom(s.coremap, 0) == |s.coremap|
    ensures var t := Reference(s, vaddr, write, victim);
            && Residents(t) == Residents(s) - {s.coremap[victim].page} + {PageOf(vaddr)}
            && t.counts.misses == s.counts.misses + 1 && Tallied(t)
  {
    var t := Reference(s, vaddr, write, victim);
    assert Residents(t) == Residents(s) - {s.coremap[victim].page} + {PageOf(vaddr)};
    assert s.coremap[victim].page in Residents(s);
    FreeFromIs(t.coremap, |s.coremap|);
  }

  // ---------- whole traces ----------

  /** A line of the trace: an address, and whether the reference writes (S or M). */
  datatype Line = Line(vaddr: nat, write: bool)

  /** The machine at the start: nothing valid, every frame free. */
  ghost predicate Fresh(s: Sim) {
    && |s.physmem| == |s.coremap| > 0
    && (forall p | 0 <= p < |s.ptes| :: s.ptes[p] == BLANK)
    && (forall f | 0 <= f < |s.coremap| :: !s.coremap[f].inUse)
    && s.swap == [] && s.counts == Counts(0, 0, 0, 0, 0)
  }

  lemma {:induction false} FreshInv(s: Sim)
    requires Fresh(s)
    ensures Inv(s) && Tallied(s) && Residents(s) == {} && forall p: nat | p < |s.ptes| :: Version(s, p) == 0
  {
    assert Residents(s) == {};
  }

  /** One line of the trace takes s to t; `victim` is the frame the policy would evict. */
  ghost predicate Stepped(s: Sim, line: Line, victim: nat, t: Sim) {
    && Shaped(s) && PageOf(line.vaddr) < |s.ptes| && victim < |s.coremap|
    && t == Reference(s, line.vaddr, line.write, victim)
  }

  /** The states a trace goes through under some policy. */
  ghost predicate Run(states: seq<Sim>, lines: seq<Line>, victims: seq<nat>) {
    && |states| == |lines| + 1 && |victims| == |lines|
    && Fresh(states[0])
    && forall i {:trigger victims[i]} | 0 <= i < |lines| :: Stepped(states[i], lines[i], victims[i], states[i + 1])
  }

  /** How often the first n lines write to page p. */
  function Writes(lines: seq<Line>, p: nat, n: nat): (w: nat)
    requires n <= |lines|
  {
    if n == 0 then 0
    else Writes(lines, p, n - 1) + if lines[n - 1].write && PageOf(lines[n - 1].vaddr) == p then 1 else 0
  }

  /** The address with which one of the first n lines touches page p first, if any does. */
  function FirstTouch(lines: seq<Line>, p: nat, n: nat): (a: Option<nat>)
    requires n <= |lines|
  {
    if n == 0 then None
    else if FirstTouch(lines, p, n - 1) == None && PageOf(lines[n - 1].vaddr) == p then Some(lines[n - 1].vaddr)
    else FirstTouch(lines, p, n - 1)
  }

  /** What page p has to hold after n lines. */
  function Expected(lines: seq<Line>, p: nat, n: nat): (c: Option<PageData>)
    requires n <= |lines|
  {
    match FirstTouch(lines, p, n)
    case None => None
    case Some(a) => Some(PageData(Writes(lines, p, n), a))
  }

  /** The invariants, and the contents of every page. */
  ghost predicate Coherent(s: Sim, lines: seq<Line>, n: nat)
    requires n <= |lines|
  {
    && Inv(s) && Tallied(s) && s.counts.refs == n
    && (forall p: nat | p < |s.ptes| :: Content(s, p) == Expected(lines, p, n))
    && (forall p: nat | p < |s.ptes| :: Version(s, p) == Writes(lines, p, n))
  }

  lemma {:induction false} StepCoherent(s: Sim, lines: seq<Line>, n: nat, victim: nat, t: Sim)
    requires n < |lines| && Coherent(s, lines, n) && Stepped(s, lines[n], victim, t)
    ensures Coherent(t, lines, n + 1)
  {
    StepTallies(s, lines[n], victim, t);
    StepVersions(s, lines, n, victim, t);
  }

  lemma {:induction false} StepTallies(s: Sim, line: Line, victim: nat, t: Sim)
    requires Inv(s) && Tallied(s) && Stepped(s, line, victim, t)
    ensures Tallied(t) && t.counts.refs == s.counts.refs + 1
  {
    ReferenceResidents(s, line.vaddr, line.write, victim);
  }

  lemma {:induction false} StepVersions(s: Sim, lines: seq<Line>, n: nat, victim: nat, t: Sim)
    requires n < |lines| && Inv(s) && Stepped(s, lines[n], victim, t)
    requires forall p: nat | p < |s.ptes| :: Version(s, p) == Writes(lines, p, n)
    requires forall p: nat | p < |s.ptes| :: Content(s, p) == Expected(lines, p, n)
    ensures Inv(t) && forall p: nat | p < |t.ptes| :: Version(t, p) == Writes(lines, p, n + 1)
    ensures forall p: nat | p < |t.ptes| :: Content(t, p) == Expected(lines, p, n + 1)
  {
    ReferenceKeeps(s, lines[n].vaddr, lines[n].write, victim);
    forall p: nat | p < |t.ptes|
      ensures Content(t, p) == Expected(lines, p, n + 1)
    {
      ExpectedStep(lines, p, n);
      assert Version(s, p) == Writes(lines, p, n);
    }
  }

  lemma {:induction false} ExpectedStep(lines: seq<Line>, p: nat, n: nat)
    requires n < |lines| && (Expected(lines, p, n) == None ==> Writes(lines, p, n) == 0)
    ensures Expected(lines, p, n + 1)
         == if PageOf(lines[n].vaddr) == p
            then Some(Accessed(Expected(lines, p, n), lines[n].vaddr, lines[n].write))
            else Expected(lines, p, n)
  {
  }

  lemma {:induction false} FreshCoherent(s: Sim, lines: seq<Line>)
    requires Fresh(s)
    ensures Coherent(s, lines, 0)
  {
    FreshInv(s);
  }

  /** For every trace, every policy and every moment: the version a page carries is the number
      of writes made to it so far, and the counters add up. */
  lemma {:induction false} RunCoherent(states: seq<Sim>, lines: seq<Line>, victims: seq<nat>, n: nat)
    requires Run(states, lines, victims) && n <= |lines|
    ensures Coherent(states[n], lines, n)
  {
    if n == 0 {
      FreshCoherent(states[0], lines);
    } else {
      RunCoherent(states, lines, victims, n - 1);
      assert Stepped(states[n - 1], lines[n - 1], victims[n - 1], states[n]);
      StepCoherent(states[n - 1], lines, n - 1, victims[n - 1], states[n]);
    }
  }
}
