/**
 The part of the user-level virtual memory that every replacement policy shares: the page
 table (`page_mapping`, `page_bits`), the physical frames and the backing store, and the
 three things a page-fault handler does to them.

 The program that uses the virtual memory must not be able to tell that pages move: it sees
 one flat memory, `Memory(s)`. A page that is mapped is read from its frame, any other page
 is what the backing store holds. `Coherent` is the invariant that keeps that view intact.
 */
module Paging {
  import opened Words

  type Block = seq<byte>

  /** PROT_NONE, PROT_READ and PROT_READ|PROT_WRITE. */
  datatype Prot = NoAccess | ReadOnly | ReadWrite

  datatype Pages = Pages(mapping: seq<nat>, prot: seq<Prot>, frames: seq<Block>, store: seq<Block>, blockSize: nat) {

    /** `page_bits[p] != 0`: the page is in some frame. */
    predicate Resident(p: nat) {
      p < |prot| && prot[p] != NoAccess
    }

    ghost predicate Sized() {
      && |mapping| == |prot| == |store|
      && |frames| > 0
      && (forall p | 0 <= p < |mapping| :: mapping[p] < |frames|)
      && (forall f | 0 <= f < |frames| :: |frames[f]| == blockSize)
      && (forall p | 0 <= p < |store| :: |store[p]| == blockSize)
    }
  }

  /** Resident pages sit in different frames, and a page that cannot have been written to
      since it was loaded still equals its copy in the backing store. */
  ghost predicate Coherent(s: Pages) {
    && s.Sized()
    && (forall p, q | 0 <= p < q < |s.prot| && s.Resident(p) && s.Resident(q) :: s.mapping[p] != s.mapping[q])
    && (forall p | 0 <= p < |s.prot| && s.prot[p] == ReadOnly :: s.frames[s.mapping[p]] == s.store[p])
  }

  /** What the program sees when it reads page p. */
  ghost function Content(s: Pages, p: nat): (b: Block)
    requires s.Sized() && p < |s.store|
    ensures |b| == s.blockSize
  {
    if s.prot[p] != NoAccess then s.frames[s.mapping[p]] else s.store[p]
  }

  ghost function Memory(s: Pages): (m: seq<Block>)
    requires s.Sized()
    ensures |m| == |s.store| && forall p | 0 <= p < |m| :: m[p] == Content(s, p)
  {
    seq(|s.store|, p requires 0 <= p < |s.store| => Content(s, p))
  }

  ghost predicate FrameFree(s: Pages, frame: nat) {
    s.Sized() && forall p | 0 <= p < |s.prot| && s.Resident(p) :: s.mapping[p] != frame
  }

  // ---------- what a handler does ----------

  /** A page that is not in memory is read into an unused frame and mapped read-only. */
  function Load(s: Pages, page: nat, frame: nat): (t: Pages)
    requires page < |s.mapping| == |s.prot| == |s.store| && frame < |s.frames|
  {
    s.(mapping := s.mapping[page := frame],
       prot := s.prot[page := ReadOnly],
       frames := s.frames[frame := s.store[page]])
  }

  /** `writeData` of a page that is mapped read-write; other pages are not written back. */
  function WrittenBack(s: Pages, victim: nat): (store: seq<Block>)
    requires victim < |s.mapping| == |s.prot| == |s.store| && s.mapping[victim] < |s.frames|
    ensures |store| == |s.store|
  {
    if s.prot[victim] == ReadWrite then s.store[victim := s.frames[s.mapping[victim]]] else s.store
  }

  /** A page that is not in memory takes the frame of a resident victim. */
  function Replace(s: Pages, page: nat, victim: nat): (t: Pages)
    requires page < |s.mapping| == |s.prot| == |s.store|
    requires victim < |s.mapping| && s.mapping[victim] < |s.frames|
  {
    var frame := s.mapping[victim];
    var store := WrittenBack(s, victim);
    s.(mapping := s.mapping[page := frame][victim := frame],
       prot := s.prot[page := ReadOnly][victim := NoAccess],
       frames := s.frames[frame := store[page]],
       store := store)
  }

  /** A resident page gets the write permission. */
  function Upgrade(s: Pages, page: nat): (t: Pages)
    requires page < |s.prot|
  {
    s.(prot := s.prot[page := ReadWrite])
  }

  /** What a flush does to one page. */
  function Release(s: Pages, victim: nat): (t: Pages)
    requires victim < |s.mapping| == |s.prot| == |s.store| && s.mapping[victim] < |s.frames|
  {
    s.(prot := s.prot[victim := NoAccess], store := WrittenBack(s, victim))
  }

  /** A store instruction to a page mapped read-write. */
  function Poke(s: Pages, page: nat, off: nat, v: byte): (t: Pages)
    requires page < |s.mapping| && s.mapping[page] < |s.frames| && off < |s.frames[s.mapping[page]]|
  {
    s.(frames := s.frames[s.mapping[page] := s.frames[s.mapping[page]][off := v]])
  }

  // ---------- none of it shows in the memory ----------

  lemma {:induction false} NothingResident(s: Pages)
    requires s.Sized() && forall p: nat :: !s.Resident(p)
    ensures Memory(s) == s.store
    ensures forall p | 0 <= p < |s.prot| :: s.prot[p] == NoAccess
  {
    assert forall p: nat | p < |s.prot| :: s.Resident(p) <==> s.prot[p] != NoAccess;
  }

  lemma {:induction false} LoadKeeps(s: Pages, page: nat, frame: nat)
    requires Coherent(s) && page < |s.prot| && s.prot[page] == NoAccess
    requires frame < |s.frames| && FrameFree(s, frame)
    ensures Coherent(Load(s, page, frame))
    ensures Memory(Load(s, page, frame)) == Memory(s)
  {
    var t := Load(s, page, frame);
    assert forall p | 0 <= p < |s.prot| :: t.Resident(p) <==> s.Resident(p) || p == page;
  }

  lemma {:induction false} ReleaseKeeps(s: Pages, victim: nat)
    requires Coherent(s) && victim < |s.prot|
    ensures Coherent(Release(s, victim))
    ensures Memory(Release(s, victim)) == Memory(s)
    ensures s.Resident(victim) ==> FrameFree(Release(s, victim), s.mapping[victim])
  {
    var t := Release(s, victim);
    assert forall p | 0 <= p < |s.prot| :: t.Resident(p) <==> s.Resident(p) && p != victim;
    forall p | 0 <= p < |s.prot|
      ensures Content(t, p) == Content(s, p)
    {
    }
  }

  /** Replacing is releasing the victim and then loading into the frame it leaves. */
  lemma {:induction false} ReplaceIsReleaseThenLoad(s: Pages, page: nat, victim: nat)
    requires Coherent(s) && page < |s.prot| && victim < |s.prot| && page != victim
    ensures Replace(s, page, victim) == Load(Release(s, victim), page, s.mapping[victim])
  {
    var t, u := Replace(s, page, victim), Load(Release(s, victim), page, s.mapping[victim]);
    assert t.mapping == u.mapping;
    assert t.prot == u.prot;
  }

  lemma {:induction false} ReplaceKeeps(s: Pages, page: nat, victim: nat)
    requires Coherent(s) && page < |s.prot| && s.prot[page] == NoAccess && s.Resident(victim)
    ensures Coherent(Replace(s, page, victim))
    ensures Memory(Replace(s, page, victim)) == Memory(s)
  {
    ReplaceIsReleaseThenLoad(s, page, victim);
    ReleaseKeeps(s, victim);
    LoadKeeps(Release(s, victim), page, s.mapping[victim]);
  }

  lemma {:induction false} UpgradeKeeps(s: Pages, page: nat)
    requires Coherent(s) && s.Resident(page)
    ensures Coherent(Upgrade(s, page))
    ensures Memory(Upgrade(s, page)) == Memory(s)
  {
    var t := Upgrade(s, page);
    assert forall p | 0 <= p < |s.prot| :: t.Resident(p) <==> s.Resident(p);
  }

  /** A store through the page table changes that byte of the flat memory and no other. */
  lemma {:induction false} PokeWrites(s: Pages, page: nat, off: nat, v: byte)
    requires Coherent(s) && page < |s.prot| && s.prot[page] == ReadWrite && off < s.blockSize
    ensures Coherent(Poke(s, page, off, v))
    ensures Memory(Poke(s, page, off, v)) == Memory(s)[page := Memory(s)[page][off := v]]
  {
    var t := Poke(s, page, off, v);
    assert forall p | 0 <= p < |s.prot| :: t.Resident(p) <==> s.Resident(p);
    forall p | 0 <= p < |s.prot| && p != page
      ensures Content(t, p) == Content(s, p)
    {
      if s.Resident(p) {
        assert s.Resident(page);
        assert s.mapping[p] != s.mapping[page];
      }
    }
  }
}
