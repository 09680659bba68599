/**
 The FIFO page-fault handler over its two arrays, `frameState` (an age per frame) and
 `framePage` (a page per frame).
 */
module AgePagers {
  import opened Paging
  import opened PageTables
  import Recency
  import Ageing

  class AgePager {
    const pt: PageTable
    const frameState: array<nat>
    const framePage: array<nat>

    ghost function Machine(): (m: Ageing.Aged)
      reads pt.mapping, pt.prot, pt.frames, pt.store, frameState, framePage
    {
      Ageing.Aged(pt.View(), frameState[..], framePage[..])
    }

    ghost predicate Separate() {
      && pt.Shaped()
      && frameState != framePage && frameState != pt.mapping && framePage != pt.mapping
    }

    ghost predicate Valid()
      reads pt.mapping, pt.prot, pt.frames, pt.store, frameState, framePage
    {
      Separate() && exists l :: Ageing.Matches(Machine(), l)
    }

    constructor (npages: nat, nframes: nat, blockSize: nat, contents: seq<Block>, junk: Block)
      requires |contents| == npages > 0 && nframes > 0
      requires |junk| == blockSize && forall p | 0 <= p < npages :: |contents[p]| == blockSize
      ensures Valid() && Memory(pt.View()) == contents
      ensures forall p: nat :: !pt.View().Resident(p)
      ensures pt.prot.Length == npages && pt.frames.Length == nframes && pt.blockSize == blockSize
      ensures fresh(pt.mapping) && fresh(pt.prot) && fresh(pt.frames) && fresh(pt.store)
      ensures fresh(frameState) && fresh(framePage)
      ensures forall f | 0 <= f < nframes :: frameState[f] == 0
    {
      pt := new PageTable(npages, nframes, blockSize, contents, junk);
      frameState := new nat[nframes](f => 0);
      framePage := new nat[nframes](f => 0);
      new;
      assert forall p: nat :: !pt.View().Resident(p);
      assert frameState[..] == Ageing.Cleared(nframes) && framePage[..] == Ageing.Cleared(nframes);
      Ageing.FreshMatches(pt.View());
      assert Ageing.Matches(Machine(), Recency.Listed(pt.View(), []));
    }

    /** Every occupied frame gets one older. */
    method TickAll()
      requires Separate()
      modifies frameState
      ensures frameState[..] == Ageing.Tick(old(frameState[..]))
    {
      ghost var before := frameState[..];
      for i := 0 to frameState.Length
        invariant forall f | 0 <= f < i :: frameState[f] == Ageing.Tick(before)[f]
        invariant frameState[i..] == before[i..]
      {
        assert frameState[i] == before[i];
        if frameState[i] != 0 {
          frameState[i] := frameState[i] + 1;
        }
      }
    }

    /** The first empty frame, the number of frames if there is none. */
    method FindFree() returns (free: nat)
      ensures free == Ageing.FirstFree(frameState[..], 0)
    {
      free := 0;
      while free < frameState.Length && frameState[free] != 0
        invariant free <= frameState.Length
        invariant Ageing.FirstFree(frameState[..], 0) == Ageing.FirstFree(frameState[..], free)
      {
        free := free + 1;
      }
    }

    /** The frame with the greatest age, the first of them if there are several. */
    method FindOldest() returns (frame: nat)
      requires frameState.Length > 0 && forall f | 0 <= f < frameState.Length :: frameState[f] > 0
      ensures frame == Ageing.Oldest(frameState[..], frameState.Length)
    {
      var value := 0;
      frame := 0;
      for i := 0 to frameState.Length
        invariant i == 0 ==> value == 0
        invariant i > 0 ==> frame == Ageing.Oldest(frameState[..], i) && value == frameState[frame]
      {
        if frameState[i] > value {
          value := frameState[i];
          frame := i;
        }
      }
    }

    /** `FIFO_page_fault_handler`. */
    method Fault(page: nat)
      requires Valid() && page < pt.prot.Length
      modifies pt.mapping, pt.prot, pt.frames, pt.store, frameState, framePage
      ensures Valid() && Machine() == Ageing.Fault(old(Machine()), page)
    {
      ghost var m := Machine();
      ghost var l :| Ageing.Matches(m, l);
      Ageing.FaultMatches(m, l, page);
      Serve(page);
      assert Ageing.Matches(Machine(), Recency.Fault(l, page, true));
    }

    method Serve(page: nat)
      requires Separate() && Ageing.Shaped(Machine()) && page < pt.prot.Length
      modifies pt.mapping, pt.prot, pt.frames, pt.store, frameState, framePage
      ensures Machine() == Ageing.Fault(old(Machine()), page)
    {
      var (frame, bits) := pt.GetEntry(page);
      TickAll();
      if bits == NoAccess {
        var free := FindFree();
        if free < frameState.Length {
          frameState[free] := 1;
          framePage[free] := page;
          pt.LoadPage(page, free);
        } else {
          EvictOldest(page);
        }
      } else {
        pt.UpgradePage(page, frame);
        frameState[frame] := 1;
        framePage[frame] := page;
      }
    }

    method EvictOldest(page: nat)
      requires Separate() && Ageing.Shaped(Machine()) && page < pt.prot.Length
      requires forall f | 0 <= f < frameState.Length :: frameState[f] > 0
      modifies pt.mapping, pt.prot, pt.frames, pt.store, frameState, framePage
      ensures var m := old(Machine());
              var victim := m.owner[Ageing.Oldest(m.ages, |m.ages|)];
              var frame := m.pages.mapping[victim];
              Machine() == Ageing.Aged(Replace(m.pages, page, victim), m.ages[frame := 1], m.owner[frame := page])
    {
      var oldest := FindOldest();
      var tempPage := framePage[oldest];
      var frame := pt.GetEntry(tempPage).0;
      pt.ReplacePage(page, tempPage);
      frameState[frame] := 1;
      framePage[frame] := page;
    }

    /** `page_table_flush` for this policy. */
    method Flush()
      requires Valid()
      modifies pt.mapping, pt.prot, pt.store, frameState
      ensures Valid() && Machine() == Ageing.FlushFrom(old(Machine()), 0)
    {
      ghost var m := Machine();
      ghost var l :| Ageing.Matches(m, l);
      Ageing.FlushMatches(m, l);
      FlushSlots();
      assert Ageing.Matches(Machine(), Recency.Flush(l));
    }

    method FlushSlots()
      requires Separate() && Ageing.Shaped(Machine())
      modifies pt.mapping, pt.prot, pt.store, frameState
      ensures Machine() == Ageing.FlushFrom(old(Machine()), 0)
    {
      ghost var m := Machine();
      for i := 0 to framePage.Length
        invariant Ageing.Shaped(Machine())
        invariant Ageing.FlushFrom(Machine(), i) == Ageing.FlushFrom(m, 0)
      {
        FlushOne(i);
      }
    }

    method FlushOne(i: nat)
      requires Separate() && Ageing.Shaped(Machine()) && i < framePage.Length
      modifies pt.mapping, pt.prot, pt.store, frameState
      ensures Machine() == Ageing.FlushSlot(old(Machine()), i)
    {
      var tempPage := framePage[i];
      var frame := pt.ReleasePage(tempPage);
      frameState[frame] := 0;
    }
  }
}
