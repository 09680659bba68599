/**
 The LRU and FFIFO page-fault handlers over the real data structures: page table arrays, a
 doubly linked list and a hash table that leads from a page to its list node. The list and
 the table describe the same set of pages at every moment, so the look-up never misses.
 */
module ListPagers {
  import opened Paging
  import opened PageTables
  import opened DllLists
  import opened HashTables
  import Recency
  import opened Sequences

  /** What the hash table must hold: every listed page leads to its own node. */
  ghost function IndexOf(nodes: seq<DllNode>): (index: map<nat, DllNode>) {
    if |nodes| == 0 then map[] else IndexOf(nodes[1..])[nodes[0].key := nodes[0]]
  }

  lemma {:induction false} IndexHas(nodes: seq<DllNode>, key: nat)
    ensures key in IndexOf(nodes) <==> key in Keys(nodes)
  {
    if |nodes| > 0 {
      assert Keys(nodes) == [nodes[0].key] + Keys(nodes[1..]);
      IndexHas(nodes[1..], key);
    }
  }

  lemma {:induction false} IndexAdd(nodes: seq<DllNode>, node: DllNode)
    ensures IndexOf([node] + nodes) == IndexOf(nodes)[node.key := node]
    ensures Keys([node] + nodes) == [node.key] + Keys(nodes)
  {
    assert ([node] + nodes)[1..] == nodes;
  }

  lemma {:induction false} IndexNew(nodes: seq<DllNode>, node: DllNode)
    requires Distinct(Keys(nodes)) && node.key !in Keys(nodes)
    ensures node.key !in IndexOf(nodes) && IndexOf([node] + nodes) == IndexOf(nodes)[node.key := node]
    ensures Keys([node] + nodes) == [node.key] + Keys(nodes) && Distinct(Keys([node] + nodes))
  {
    IndexHas(nodes, node.key);
    IndexAdd(nodes, node);
  }

  lemma {:induction false} IndexAt(nodes: seq<DllNode>, k: nat)
    requires Distinct(Keys(nodes)) && k < |nodes|
    ensures nodes[k].key in IndexOf(nodes) && IndexOf(nodes)[nodes[k].key] == nodes[k]
  {
    if k > 0 {
      assert Keys(nodes)[0] != Keys(nodes)[k];
      assert Keys(nodes[1..]) == Keys(nodes)[1..];
      IndexAt(nodes[1..], k - 1);
    }
  }

  lemma {:induction false} IndexRemove(nodes: seq<DllNode>, k: nat)
    requires Distinct(Keys(nodes)) && k < |nodes|
    ensures IndexOf(Taken(nodes, k)) == IndexOf(nodes) - {nodes[k].key}
  {
    var rest := Taken(nodes, k);
    assert Keys(nodes[1..]) == Keys(nodes)[1..];
    if k == 0 {
      assert rest == nodes[1..];
      IndexHas(rest, nodes[0].key);
    } else {
      IndexRemove(nodes[1..], k - 1);
      assert rest == [nodes[0]] + Taken(nodes[1..], k - 1);
      IndexAdd(Taken(nodes[1..], k - 1), nodes[0]);
      assert Keys(nodes)[0] != Keys(nodes)[k];
    }
  }

  lemma {:induction false} KeysRemove(nodes: seq<DllNode>, k: nat)
    requires Distinct(Keys(nodes)) && k < |nodes|
    ensures var rest := Taken(nodes, k);
            && Keys(rest) == Taken(Keys(nodes), k) == Without(Keys(nodes), nodes[k].key)
            && Distinct(Keys(rest))
            && nodes[k].key !in Keys(rest)
  {
    assert Keys(Taken(nodes, k)) == Taken(Keys(nodes), k);
    TakenDistinct(Keys(nodes), k);
    WithoutAt(Keys(nodes), k);
  }

  lemma {:induction false} IndexBack(nodes: seq<DllNode>, rest: seq<DllNode>, node: DllNode)
    requires Distinct(Keys(rest)) && node.key !in Keys(rest)
    requires node.key in IndexOf(nodes) && IndexOf(nodes)[node.key] == node
    requires IndexOf(rest) == IndexOf(nodes) - {node.key}
    ensures IndexOf([node] + rest) == IndexOf(nodes)
    ensures Keys([node] + rest) == [node.key] + Keys(rest) && Distinct(Keys([node] + rest))
  {
    IndexNew(rest, node);
  }

  lemma {:induction false} IndexPromote(nodes: seq<DllNode>, k: nat)
    requires Distinct(Keys(nodes)) && k < |nodes|
    ensures var next := [nodes[k]] + Taken(nodes, k);
            && IndexOf(next) == IndexOf(nodes)
            && Keys(next) == [nodes[k].key] + Without(Keys(nodes), nodes[k].key)
            && Distinct(Keys(next))
  {
    KeysRemove(nodes, k);
    IndexRemove(nodes, k);
    IndexAt(nodes, k);
    IndexBack(nodes, Taken(nodes, k), nodes[k]);
  }

  /** The doubly linked list together with the hash table that finds its nodes. */
  class PageList {
    const list: DllList
    const hash: HashTable<DllNode>

    ghost predicate Valid()
      reads list, list.repr, hash, hash.heads, hash.counts, hash.repr
    {
      && list.Valid()
      && hash.Valid()
      && Distinct(Keys(list.nodes))
      && hash.index == IndexOf(list.nodes)
    }

    constructor (n: nat)
      requires n > 0
      ensures Valid() && list.nodes == [] && list.repr == {}
      ensures fresh(list) && fresh(hash) && fresh(hash.heads) && fresh(hash.counts) && hash.repr == {}
    {
      list := new DllList();
      hash := new HashTable<DllNode>(n);
    }

    /** `insertHashNode(page, createdllListNode(page))`. */
    method Add(page: nat)
      requires Valid() && page !in Keys(list.nodes)
      modifies list, list.repr, hash, hash.heads, hash.counts
      ensures Valid() && Keys(list.nodes) == [page] + old(Keys(list.nodes))
      ensures forall n | n in list.repr :: n in old(list.repr) || fresh(n)
      ensures forall n | n in hash.repr :: n in old(hash.repr) || fresh(n)
    {
      ghost var nodes := list.nodes;
      var node := Create(page);
      IndexNew(nodes, node);
      Enter(page, node);
    }

    /** The table is not concerned. */
    method Create(page: nat) returns (node: DllNode)
      requires list.Valid() && hash.Valid()
      modifies list, list.repr
      ensures list.Valid() && hash.Valid() && hash.index == old(hash.index) && hash.repr == old(hash.repr)
      ensures list.nodes == [node] + old(list.nodes) && node.key == page
      ensures forall n | n in list.repr :: n in old(list.repr) || fresh(n)
    {
      node := list.Create(page);
    }

    /** The list is not concerned. */
    method Enter(page: nat, node: DllNode)
      requires list.Valid() && hash.Valid() && page !in hash.index
      modifies hash, hash.heads, hash.counts
      ensures list.Valid() && hash.Valid() && hash.index == old(hash.index)[page := node]
      ensures list.repr == old(list.repr) && list.nodes == old(list.nodes)
      ensures forall n | n in hash.repr :: n in old(hash.repr) || fresh(n)
    {
      ghost var entry := hash.Insert(page, node);
    }

    /** `deleteLRU`: the tail goes, from the table first and then from the list. */
    method RemoveLast() returns (page: nat)
      requires Valid() && |list.nodes| > 0
      modifies list, list.repr, hash, hash.heads, hash.counts, hash.repr
      ensures Valid()
      ensures var keys := old(Keys(list.nodes));
              page == keys[|keys| - 1] && Keys(list.nodes) == keys[..|keys| - 1]
      ensures list.repr == old(list.repr) && hash.repr == old(hash.repr)
    {
      ghost var nodes, last := list.nodes, |list.nodes| - 1;
      IndexRemove(nodes, last);
      KeysRemove(nodes, last);
      page := list.tail.key;
      hash.Delete(page);
      list.Delete(list.tail, last);
      assert Taken(Keys(nodes), last) == Keys(nodes)[..last];
    }

    /** `moveListNodeToFront(getHashNode(page))`. */
    method Promote(page: nat)
      requires Valid() && page in Keys(list.nodes)
      modifies list, list.repr
      ensures Valid()
      ensures Keys(list.nodes) == [page] + Without(old(Keys(list.nodes)), page)
      ensures list.repr == old(list.repr)
    {
      ghost var nodes := list.nodes;
      ghost var k :| 0 <= k < |nodes| && Keys(nodes)[k] == page;
      IndexAt(nodes, k);
      IndexPromote(nodes, k);
      var found := hash.Get(page);
      var node := found.item;
      list.MoveToFront(node, k);
    }
  }

  /** The two handlers; they differ only in what a fault on a resident page does to the list. */
  class ListPager {
    const pt: PageTable
    const pages: PageList

    ghost function Machine(): (m: Recency.Listed)
      reads pt.mapping, pt.prot, pt.frames, pt.store, pages.list
    {
      Recency.Listed(pt.View(), Keys(pages.list.nodes))
    }

    ghost predicate Valid()
      reads pt.mapping, pt.prot, pt.frames, pt.store, pages.list, pages.list.repr
      reads pages.hash, pages.hash.heads, pages.hash.counts, pages.hash.repr
    {
      pt.Shaped() && pages.Valid() && Recency.Inv(Machine())
    }

    /** `init_virtual_memory`: nothing is resident. */
    constructor (npages: nat, nframes: nat, blockSize: nat, contents: seq<Block>, junk: Block)
      requires |contents| == npages && nframes > 0
      requires |junk| == blockSize && forall p | 0 <= p < npages :: |contents[p]| == blockSize
      ensures Valid() && Machine().order == [] && Memory(pt.View()) == contents
      ensures forall p: nat :: !pt.View().Resident(p)
      ensures pt.prot.Length == npages && pt.frames.Length == nframes && pt.blockSize == blockSize
      ensures fresh(pt.mapping) && fresh(pt.prot) && fresh(pt.frames) && fresh(pt.store)
      ensures fresh(pages.list) && fresh(pages.hash) && fresh(pages.hash.heads) && fresh(pages.hash.counts)
      ensures pages.list.repr == {} && pages.hash.repr == {}
    {
      pt := new PageTable(npages, nframes, blockSize, contents, junk);
      pages := new PageList(nframes);
      new;
      assert forall p: nat :: !pt.View().Resident(p);
    }

    /** `LRU_page_fault_handler` (promote) and `FFIFO_page_fault_handler` (not promote). */
    method Fault(page: nat, promote: bool)
      requires Valid() && page < pt.prot.Length
      modifies pt.mapping, pt.prot, pt.frames, pt.store, pages.list, pages.list.repr
      modifies pages.hash, pages.hash.heads, pages.hash.counts, pages.hash.repr
      ensures Valid() && Machine() == Recency.Fault(old(Machine()), page, promote)
      ensures forall n | n in pages.list.repr :: n in old(pages.list.repr) || fresh(n)
      ensures forall n | n in pages.hash.repr :: n in old(pages.hash.repr) || fresh(n)
    {
      Recency.FaultKeeps(Machine(), page, promote);
      Serve(page, promote);
    }

    /** The three cases of the handlers. */
    method Serve(page: nat, promote: bool)
      requires pt.Shaped() && pages.Valid() && page < pt.prot.Length
      requires Recency.Shaped(Machine())
      requires page in Keys(pages.list.nodes) <==> pt.prot[page] != NoAccess
      requires pt.mapping[page] < pt.frames.Length
      modifies pt.mapping, pt.prot, pt.frames, pt.store, pages.list, pages.list.repr
      modifies pages.hash, pages.hash.heads, pages.hash.counts, pages.hash.repr
      ensures pages.Valid() && Machine() == Recency.Fault(old(Machine()), page, promote)
      ensures forall n | n in pages.list.repr :: n in old(pages.list.repr) || fresh(n)
      ensures forall n | n in pages.hash.repr :: n in old(pages.hash.repr) || fresh(n)
    {
      var (frame, bits) := pt.GetEntry(page);
      if bits == NoAccess {
        if pages.list.count < pt.frames.Length {
          LoadFree(page);
        } else {
          EvictLast(page);
        }
      } else {
        Grant(page, frame, promote);
      }
    }

    method Grant(page: nat, frame: nat, promote: bool)
      requires pt.Shaped() && pages.Valid() && page in Keys(pages.list.nodes)
      requires page < pt.mapping.Length && frame == pt.mapping[page] < pt.frames.Length
      modifies pt.mapping, pt.prot, pages.list, pages.list.repr
      ensures pages.Valid()
      ensures pt.View() == Upgrade(old(pt.View()), page)
      ensures var keys := old(Keys(pages.list.nodes));
              Keys(pages.list.nodes) == if promote then [page] + Without(keys, page) else keys
      ensures pages.list.repr == old(pages.list.repr)
    {
      if promote {
        pages.Promote(page);
      }
      pt.UpgradePage(page, frame);
    }

    method LoadFree(page: nat)
      requires pt.Shaped() && pages.Valid() && page < pt.prot.Length && page !in Keys(pages.list.nodes)
      requires pages.list.count < pt.frames.Length
      modifies pt.mapping, pt.prot, pt.frames, pages.list, pages.list.repr
      modifies pages.hash, pages.hash.heads, pages.hash.counts
      ensures pages.Valid()
      ensures pt.View() == Load(old(pt.View()), page, |old(pages.list.nodes)|)
      ensures Keys(pages.list.nodes) == [page] + old(Keys(pages.list.nodes))
      ensures forall n | n in pages.list.repr :: n in old(pages.list.repr) || fresh(n)
      ensures forall n | n in pages.hash.repr :: n in old(pages.hash.repr) || fresh(n)
    {
      var i := pages.list.count;
      pages.Add(page);
      pt.LoadPage(page, i);
    }

    method EvictLast(page: nat)
      requires pt.Shaped() && pages.Valid() && page < pt.prot.Length && page !in Keys(pages.list.nodes)
      requires |pages.list.nodes| > 0
      requires var keys := Keys(pages.list.nodes);
               keys[|keys| - 1] < pt.mapping.Length && pt.mapping[keys[|keys| - 1]] < pt.frames.Length
      modifies pt.mapping, pt.prot, pt.frames, pt.store, pages.list, pages.list.repr
      modifies pages.hash, pages.hash.heads, pages.hash.counts, pages.hash.repr
      ensures pages.Valid()
      ensures var keys := old(Keys(pages.list.nodes));
              && pt.View() == Replace(old(pt.View()), page, keys[|keys| - 1])
              && Keys(pages.list.nodes) == [page] + keys[..|keys| - 1]
      ensures forall n | n in pages.list.repr :: n in old(pages.list.repr) || fresh(n)
      ensures forall n | n in pages.hash.repr :: n in old(pages.hash.repr) || fresh(n)
    {
      TakeFrame(page);
      pages.Add(page);
    }

    /** The oldest page gives up its frame. */
    method TakeFrame(page: nat)
      requires pt.Shaped() && pages.Valid() && page < pt.prot.Length && |pages.list.nodes| > 0
      requires var keys := Keys(pages.list.nodes);
               keys[|keys| - 1] < pt.mapping.Length && pt.mapping[keys[|keys| - 1]] < pt.frames.Length
      modifies pt.mapping, pt.prot, pt.frames, pt.store, pages.list, pages.list.repr
      modifies pages.hash, pages.hash.heads, pages.hash.counts, pages.hash.repr
      ensures pages.Valid()
      ensures var keys := old(Keys(pages.list.nodes));
              && pt.View() == Replace(old(pt.View()), page, keys[|keys| - 1])
              && Keys(pages.list.nodes) == keys[..|keys| - 1]
      ensures pages.list.repr == old(pages.list.repr) && pages.hash.repr == old(pages.hash.repr)
    {
      var tempPage := pages.RemoveLast();
      pt.ReplacePage(page, tempPage);
    }

    /** `page_table_flush` for these two policies. */
    method Flush()
      requires Valid()
      modifies pt.mapping, pt.prot, pt.store, pages.list, pages.list.repr
      modifies pages.hash, pages.hash.heads, pages.hash.counts, pages.hash.repr
      ensures Valid() && Machine() == Recency.Flush(old(Machine()))
      ensures pages.list.repr == old(pages.list.repr) && pages.hash.repr == old(pages.hash.repr)
    {
      ghost var m := Machine();
      Recency.FlushKeeps(m);
      ghost var flushed := Recency.Flush(m);
      while pages.list.count > 0
        invariant pages.Valid() && Machine() == m && Recency.Tracks(m)
        invariant Recency.Flush(m) == flushed
        invariant pages.list.repr == old(pages.list.repr) && pages.hash.repr == old(pages.hash.repr)
        decreases pages.list.count
      {
        Recency.FlushStep(m);
        m := FlushNext(m);
      }
    }

    method FlushNext(ghost m: Recency.Listed) returns (ghost next: Recency.Listed)
      requires pt.Shaped() && pages.Valid() && Machine() == m && Recency.Tracks(m) && m.order != []
      modifies pt.mapping, pt.prot, pt.store, pages.list, pages.list.repr
      modifies pages.hash, pages.hash.heads, pages.hash.counts, pages.hash.repr
      ensures pages.Valid() && Machine() == next
      ensures next == Recency.Listed(Release(m.pages, m.order[|m.order| - 1]), m.order[..|m.order| - 1])
      ensures pages.list.repr == old(pages.list.repr) && pages.hash.repr == old(pages.hash.repr)
    {
      next := Recency.Listed(Release(m.pages, m.order[|m.order| - 1]), m.order[..|m.order| - 1]);
      FlushOne();
    }

    method FlushOne()
      requires pt.Shaped() && pages.Valid() && |pages.list.nodes| > 0
      requires var keys := Keys(pages.list.nodes);
               keys[|keys| - 1] < pt.mapping.Length && pt.mapping[keys[|keys| - 1]] < pt.frames.Length
      modifies pt.mapping, pt.prot, pt.store, pages.list, pages.list.repr
      modifies pages.hash, pages.hash.heads, pages.hash.counts, pages.hash.repr
      ensures pages.Valid()
      ensures var keys := old(Keys(pages.list.nodes));
              && pt.View() == Release(old(pt.View()), keys[|keys| - 1])
              && Keys(pages.list.nodes) == keys[..|keys| - 1]
      ensures pages.list.repr == old(pages.list.repr) && pages.hash.repr == old(pages.hash.repr)
    {
      var tempPage := pages.RemoveLast();
      var frame := pt.ReleasePage(tempPage);
    }
  }
}
