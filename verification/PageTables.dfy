/**
 The page table, the frames and the backing store as arrays updated in place, and the
 statement sequences that the five page-fault handlers share.
 */
module PageTables {
  import opened Words
  import opened Paging

  class PageTable {
    const mapping: array<nat>
    const prot: array<Prot>
    const frames: array<Block>
    const store: array<Block>
    const blockSize: nat

    ghost function View(): (s: Pages)
      reads mapping, prot, frames, store
    {
      Pages(mapping[..], prot[..], frames[..], store[..], blockSize)
    }

    ghost predicate Shaped() {
      && mapping.Length == prot.Length == store.Length
      && frames != store
    }

    ghost function Arrays(): (r: set<object>) {
      {mapping as object, prot as object, frames as object, store as object}
    }

    /** `page_table_create` over a backing store with the given contents: nothing is mapped. */
    constructor (npages: nat, nframes: nat, blockSize: nat, contents: seq<Block>, junk: Block)
      requires |contents| == npages && nframes > 0
      requires |junk| == blockSize && forall p | 0 <= p < npages :: |contents[p]| == blockSize
      ensures Shaped() && fresh(Arrays())
      ensures mapping.Length == npages && frames.Length == nframes && this.blockSize == blockSize
      ensures Coherent(View()) && Memory(View()) == contents == store[..]
      ensures forall p | 0 <= p < npages :: prot[p] == NoAccess && mapping[p] == 0
    {
      this.mapping := new nat[npages](p => 0);
      this.prot := new Prot[npages](p => NoAccess);
      this.frames := new Block[nframes](f => junk);
      this.store := new Block[npages](p requires 0 <= p < npages => contents[p]);
      this.blockSize := blockSize;
      new;
      assert store[..] == contents;
      assert forall p: nat :: !View().Resident(p);
      NothingResident(View());
    }

    /** `page_table_get_entry`; it aborts on a page number that is out of range. */
    function GetEntry(page: nat): (entry: (nat, Prot))
      requires Shaped() && page < mapping.Length
      reads mapping, prot
    {
      (mapping[page], prot[page])
    }

    /** `page_table_set_entry`; it aborts on a page or frame number that is out of range. */
    method SetEntry(page: nat, frame: nat, bits: Prot)
      requires Shaped() && page < mapping.Length && frame < frames.Length
      modifies mapping, prot
      ensures View() == old(View()).(mapping := old(View()).mapping[page := frame],
                                     prot := old(View()).prot[page := bits])
    {
      mapping[page] := frame;
      prot[page] := bits;
    }

    /** `readData` into a frame. */
    method ReadData(page: nat, frame: nat)
      requires Shaped() && page < store.Length && frame < frames.Length
      modifies frames
      ensures View() == old(View()).(frames := old(View()).frames[frame := old(View()).store[page]])
    {
      frames[frame] := store[page];
    }

    /** `writeData` from a frame. */
    method WriteData(page: nat, frame: nat)
      requires Shaped() && page < store.Length && frame < frames.Length
      modifies store
      ensures View() == old(View()).(store := old(View()).store[page := old(View()).frames[frame]])
    {
      store[page] := frames[frame];
    }

    /** A free frame is available. */
    method LoadPage(page: nat, frame: nat)
      requires Shaped() && page < mapping.Length && frame < frames.Length
      modifies mapping, prot, frames
      ensures View() == Load(old(View()), page, frame)
    {
      SetEntry(page, frame, ReadOnly);
      ReadData(page, frame);
    }

    /** The victim is written back if it may have been written to, and its frame is reused. */
    method ReplacePage(page: nat, tempPage: nat)
      requires Shaped() && page < mapping.Length && tempPage < mapping.Length
      requires mapping[tempPage] < frames.Length
      modifies mapping, prot, frames, store
      ensures View() == Replace(old(View()), page, tempPage)
    {
      var (frame, bits) := GetEntry(tempPage);
      if bits == ReadWrite {
        WriteData(tempPage, frame);
      }
      ReadData(page, frame);
      SetEntry(page, frame, ReadOnly);
      SetEntry(tempPage, frame, NoAccess);
    }

    /** One page of a flush. */
    method ReleasePage(tempPage: nat) returns (frame: nat)
      requires Shaped() && tempPage < mapping.Length && mapping[tempPage] < frames.Length
      modifies mapping, prot, store
      ensures View() == Release(old(View()), tempPage)
      ensures frame == old(mapping[tempPage])
    {
      var (f, bits) := GetEntry(tempPage);
      frame := f;
      if bits == ReadWrite {
        WriteData(tempPage, frame);
      }
      SetEntry(tempPage, frame, NoAccess);
    }

    /** A load instruction, once it is allowed. */
    function Peek(page: nat, off: nat): (v: byte)
      requires page < mapping.Length && mapping[page] < frames.Length && off < |frames[mapping[page]]|
      reads mapping, frames
      ensures v == View().frames[View().mapping[page]][off]
    {
      frames[mapping[page]][off]
    }

    /** A store instruction, once it is allowed. */
    method PokeByte(page: nat, off: nat, v: byte)
      requires page < mapping.Length && mapping[page] < frames.Length && off < |frames[mapping[page]]|
      requires frames != store
      modifies frames
      ensures View() == Poke(old(View()), page, off, v)
    {
      frames[mapping[page]] := frames[mapping[page]][off := v];
    }

    /** The page is there already and gets the write permission. */
    method UpgradePage(page: nat, frame: nat)
      requires Shaped() && page < mapping.Length && frame == mapping[page] < frames.Length
      modifies mapping, prot
      ensures View() == Upgrade(old(View()), page)
    {
      SetEntry(page, frame, ReadWrite);
    }
  }
}
