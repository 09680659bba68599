/**
 The LFU page-fault handler over the real data structures: page table arrays, the list of
 frequency buckets and the hash table that leads from a page to its node.
 */
module LfuPagers {
  import opened Paging
  import opened PageTables
  import opened FreqLists
  import opened HashTables
  import opened Frequency

  /** The hash table leads from every page in the buckets to its own node. */
  ghost predicate Agree(items: set<LfuNode>, index: map<nat, LfuNode>) {
    forall n | n in items :: n.key in index && index[n.key] == n
  }

  lemma {:induction false} AgreeAdd(items: set<LfuNode>, index: map<nat, LfuNode>, node: LfuNode)
    requires Agree(items, index) && node.key !in index
    ensures Agree(items + {node}, index[node.key := node])
  {
  }

  lemma {:induction false} AgreeRemove(items: set<LfuNode>, index: map<nat, LfuNode>, node: LfuNode)
    requires Agree(items, index) && node in items
    ensures Agree(items - {node}, index - {node.key})
  {
    assert forall n | n in items && n != node :: n.key in index && index[n.key] == n && index[node.key] == node;
  }

  lemma {:induction false} NoneAdded(entries: set<HashNode<LfuNode>>)
    ensures entries == entries + {}
  {
  }

  /** A page in the buckets has a place in them. */
  lemma {:induction false} Locate(freqs: seq<FreqNode>, rows: seq<seq<LfuNode>>, page: nat) returns (i: nat, k: nat)
    requires |freqs| == |rows| && page in PageSet(BucketsOf(freqs, rows))
    ensures i < |rows| && k < |rows[i]| && rows[i][k].key == page
    decreases |rows|
  {
    var bs := BucketsOf(freqs, rows);
    if page in bs[0].pages {
      i := 0;
      k :| 0 <= k < |bs[0].pages| && bs[0].pages[k] == page;
    } else {
      assert bs[1..] == BucketsOf(freqs[1..], rows[1..]);
      i, k := Locate(freqs[1..], rows[1..], page);
      i := i + 1;
    }
  }

  /** Which buckets and nodes there are, and which there have been. */
  datatype Layout = Layout(freqs: seq<FreqNode>, rows: seq<seq<LfuNode>>,
                           freqRepr: set<FreqNode>, itemRepr: set<LfuNode>)

  class LfuPages {
    const list: FreqList
    const hash: HashTable<LfuNode>

    /** The pointers are those of the layout, all but the first bucket's back link. */
    ghost predicate Shows(lay: Layout)
      reads list, lay.freqRepr, lay.itemRepr
    {
      && Within(lay.freqs, lay.freqRepr) && Items(lay.rows) <= lay.itemRepr
      && Wired(lay.freqs, lay.rows) && Mendable(lay.freqs) && list.Starts(lay.freqs)
    }

    /** The hash table knows the pages of the layout and no other. */
    ghost predicate Finds(lay: Layout)
      requires |lay.freqs| == |lay.rows|
      reads hash, hash.heads, hash.counts, hash.repr
    {
      && hash.Valid()
      && Agree(Items(lay.rows), hash.index)
      && hash.index.Keys == PageSet(BucketsOf(lay.freqs, lay.rows))
    }

    /** The buckets of the layout are these. */
    ghost predicate Lists(lay: Layout, bs: seq<Bucket>)
      reads list, lay.freqRepr, lay.itemRepr
    {
      var Layout(freqs, rows, _, _) := lay;
      && Shows(lay)
      && bs == BucketsOf(freqs, rows)
      && Ordered(bs) && list.count == Total(bs)
    }

    ghost predicate Loose(lay: Layout, bs: seq<Bucket>)
      reads list, lay.freqRepr, lay.itemRepr, hash, hash.heads, hash.counts, hash.repr
    {
      Lists(lay, bs) && Finds(lay)
    }

    ghost predicate Valid(lay: Layout, bs: seq<Bucket>)
      reads list, lay.freqRepr, lay.itemRepr, hash, hash.heads, hash.counts, hash.repr
    {
      var Layout(freqs, _, _, _) := lay;
      Loose(lay, bs) && Anchored(freqs)
    }

    constructor (n: nat)
      requires n > 0
      ensures Valid(Layout([], [], {}, {}), []) && hash.repr == {}
      ensures fresh(list) && fresh(hash) && fresh(hash.heads) && fresh(hash.counts)
    {
      list := new FreqList();
      hash := new HashTable<LfuNode>(n);
      new;
      assert BucketsOf([], []) == [];
      assert Items([]) == {};
    }

    /** The hash table is not concerned. */
    method RaisePage(node: LfuNode, ghost lay: Layout, ghost bs: seq<Bucket>, ghost i: nat, ghost k: nat)
      returns (ghost next: Layout, ghost bumped: seq<Bucket>)
      requires Lists(lay, bs) && Anchored(lay.freqs) && hash.Valid()
      requires i < |lay.rows| && k < |lay.rows[i]| && lay.rows[i][k] == node
      modifies list`head, lay.freqRepr, lay.itemRepr
      ensures hash.Valid() && hash.index == old(hash.index) && hash.repr == old(hash.repr)
      ensures Lists(next, bumped) && Anchored(next.freqs) && bumped == Bump(bs, node.key)
      ensures Items(next.rows) == Items(lay.rows) && PageSet(bumped) == PageSet(bs)
      ensures next.itemRepr == lay.itemRepr
      ensures forall n | n in next.freqRepr :: n in lay.freqRepr || fresh(n)
    {
      bumped := Bump(bs, node.key);
      RaiseBumps(bs, i, k);
      next := Raise(node, lay, i, k);
    }

    /** `getHashNode` finds the page's node, wherever it is. */
    method Lookup(page: nat, ghost lay: Layout) returns (node: LfuNode, ghost i: nat, ghost k: nat)
      requires |lay.freqs| == |lay.rows| && Finds(lay) && page in PageSet(BucketsOf(lay.freqs, lay.rows))
      ensures i < |lay.rows| && k < |lay.rows[i]| && lay.rows[i][k] == node && node.key == page
    {
      i, k := Locate(lay.freqs, lay.rows, page);
      assert lay.rows[i][k] in Items(lay.rows);
      var found := hash.Get(page);
      node := found.item;
    }

    lemma {:induction false} RaiseBumps(bs: seq<Bucket>, i: nat, k: nat)
      requires Ordered(bs) && i < |bs| && k < |bs[i].pages|
      ensures Bump(bs, bs[i].pages[k]) == Trimmed(Moved(WithNext(bs, i), i, k), i)
      ensures Ordered(Bump(bs, bs[i].pages[k])) && PageSet(Bump(bs, bs[i].pages[k])) == PageSet(bs)
      ensures Total(Bump(bs, bs[i].pages[k])) == Total(bs)
    {
      BumpIs(bs, i, k);
      InPageSet(bs, i, k);
      BumpKeeps(bs, bs[i].pages[k]);
    }

    /** The hash table leads to the same nodes as before. */
    lemma {:induction false} FindsStill(lay: Layout, bs: seq<Bucket>, items: set<LfuNode>, index: map<nat, LfuNode>)
      requires Lists(lay, bs) && Anchored(lay.freqs) && hash.Valid() && hash.index == index
      requires Agree(items, index) && Items(lay.rows) == items && PageSet(bs) == index.Keys
      ensures Valid(lay, bs)
    {
    }

    method Raise(node: LfuNode, ghost lay: Layout, ghost i: nat, ghost k: nat) returns (ghost next: Layout)
      requires Shows(lay) && Anchored(lay.freqs) && hash.Valid()
      requires i < |lay.rows| && k < |lay.rows[i]| && lay.rows[i][k] == node
      modifies list`head, lay.freqRepr, lay.itemRepr
      ensures Shows(next) && Anchored(next.freqs) && hash.Valid() && hash.index == old(hash.index)
      ensures Items(next.rows) == Items(lay.rows)
      ensures BucketsOf(next.freqs, next.rows)
           == Trimmed(Moved(WithNext(BucketsOf(lay.freqs, lay.rows), i), i, k), i)
      ensures next.itemRepr == lay.itemRepr && lay.freqRepr <= next.freqRepr
      ensures forall n | n in next.freqRepr :: n in lay.freqRepr || fresh(n)
    {
      assert RowWired(lay.freqs[i], lay.rows[i]);
      assert lay.rows[i][k].parent == lay.freqs[i];
      ghost var fs, rs, more := list.MoveToNextFreq(node, lay.freqs, lay.rows, i, k, lay.freqRepr);
      next := Layout(fs, rs, more, lay.itemRepr);
    }

    /** `insertHashNode(page, createlfuListNode(page))`. */
    method Add(page: nat, ghost lay: Layout, ghost bs: seq<Bucket>)
      returns (ghost next: Layout, node: LfuNode, ghost entry: HashNode<LfuNode>)
      requires Loose(lay, bs) && page !in PageSet(bs)
      modifies list, lay.freqRepr, lay.itemRepr, hash, hash.heads, hash.counts
      ensures Valid(next, Insert(bs, page))
      ensures fresh(node) && next.itemRepr == lay.itemRepr + {node}
      ensures forall n | n in next.freqRepr :: n in lay.freqRepr || fresh(n)
      ensures fresh(entry) && hash.repr == old(hash.repr) + {entry}
    {
      ghost var items, index, inserted := Items(lay.rows), hash.index, Insert(bs, page);
      node, next := AddListed(page, lay, bs);
      entry := IndexNode(node, next, inserted);
      AgreeAdd(items, index, node);
      FindsStill(next, inserted, items + {node}, index[page := node]);
    }

    /** Only the hash table changes. */
    method IndexNode(node: LfuNode, ghost lay: Layout, ghost bs: seq<Bucket>) returns (ghost entry: HashNode<LfuNode>)
      requires Lists(lay, bs) && Anchored(lay.freqs) && hash.Valid() && node.key !in hash.index
      modifies hash, hash.heads, hash.counts
      ensures Lists(lay, bs) && Anchored(lay.freqs) && hash.Valid()
      ensures hash.index == old(hash.index)[node.key := node]
      ensures fresh(entry) && hash.repr == old(hash.repr) + {entry}
    {
      entry := hash.Insert(node.key, node);
    }

    /** Only the list changes. */
    method AddListed(page: nat, ghost lay: Layout, ghost bs: seq<Bucket>) returns (node: LfuNode, ghost next: Layout)
      requires Lists(lay, bs) && page !in PageSet(bs) && hash.Valid()
      modifies list, lay.freqRepr, lay.itemRepr
      ensures hash.Valid() && unchanged(hash)
      ensures fresh(node) && node.key == page && Lists(next, Insert(bs, page)) && Anchored(next.freqs)
      ensures Items(next.rows) == Items(lay.rows) + {node} && PageSet(Insert(bs, page)) == PageSet(bs) + {page}
      ensures next.itemRepr == lay.itemRepr + {node}
      ensures forall n | n in next.freqRepr :: n in lay.freqRepr || fresh(n)
    {
      InsertKeeps(bs, page);
      node, next := AddNode(page, lay);
    }

    method AddNode(page: nat, ghost lay: Layout) returns (node: LfuNode, ghost next: Layout)
      requires Shows(lay)
      modifies list, lay.freqRepr, lay.itemRepr
      ensures fresh(node) && node.key == page && Shows(next) && Anchored(next.freqs)
      ensures Items(next.rows) == Items(lay.rows) + {node} && list.count == old(list.count) + 1
      ensures BucketsOf(next.freqs, next.rows) == Insert(BucketsOf(lay.freqs, lay.rows), page)
      ensures lay.freqRepr <= next.freqRepr
      ensures forall n | n in next.freqRepr :: n in lay.freqRepr || fresh(n)
      ensures next.itemRepr == lay.itemRepr + {node}
    {
      list.count := list.count + 1;
      ghost var fs, rs, more;
      node, fs, rs, more := list.Create(page, lay.freqs, lay.rows, lay.freqRepr);
      next := Layout(fs, rs, more, lay.itemRepr + {node});
    }

    /** `deleteLFU`. */
    method RemoveLeast(ghost lay: Layout, ghost bs: seq<Bucket>) returns (page: nat, ghost next: Layout)
      requires Loose(lay, bs) && bs != []
      modifies list, lay.freqRepr, lay.itemRepr, hash, hash.heads, hash.counts, hash.repr
      ensures bs[0].pages != [] && page == Least(bs) && Loose(next, DropLeast(bs))
      ensures next.freqRepr == lay.freqRepr && next.itemRepr == lay.itemRepr && hash.repr == old(hash.repr)
    {
      DropLeastKeeps(bs);
      RemoveIndex(lay);
      ghost var items := Items(lay.rows) - {lay.rows[0][|lay.rows[0]| - 1]};
      ghost var index := hash.index - {Least(bs)};
      page := UnindexLeast(lay, bs);
      next := DropListed(lay, bs);
      FindsRest(next, DropLeast(bs), items, index);
    }

    lemma {:induction false} FindsRest(lay: Layout, bs: seq<Bucket>, items: set<LfuNode>, index: map<nat, LfuNode>)
      requires Lists(lay, bs) && hash.Valid() && hash.index == index
      requires Agree(items, index) && Items(lay.rows) == items && PageSet(bs) == index.Keys
      ensures Loose(lay, bs)
    {
    }

    /** Only the hash table changes: the first bucket's tail is forgotten. */
    method UnindexLeast(ghost lay: Layout, ghost bs: seq<Bucket>) returns (page: nat)
      requires Lists(lay, bs) && |bs| > 0 && |bs[0].pages| > 0 && hash.Valid()
      modifies hash, hash.heads, hash.counts, hash.repr
      ensures page == Least(bs)
      ensures Lists(lay, bs) && hash.Valid() && hash.index == old(hash.index) - {page} && hash.repr == old(hash.repr)
    {
      assert RowWired(lay.freqs[0], lay.rows[0]);
      page := list.head.tail.key;
      hash.Delete(page);
    }

    lemma {:induction false} RemoveIndex(lay: Layout)
      requires |lay.freqs| == |lay.rows| && Finds(lay) && |lay.rows| > 0 && |lay.rows[0]| > 0
      ensures var node := lay.rows[0][|lay.rows[0]| - 1];
              Agree(Items(lay.rows) - {node}, hash.index - {node.key})
    {
      var node := lay.rows[0][|lay.rows[0]| - 1];
      assert node in Items(lay.rows);
      AgreeRemove(Items(lay.rows), hash.index, node);
    }

    /** Only the list changes: the least used page goes. */
    method DropListed(ghost lay: Layout, ghost bs: seq<Bucket>) returns (ghost next: Layout)
      requires Lists(lay, bs) && |bs| > 0 && |bs[0].pages| > 0 && hash.Valid()
      modifies list, lay.freqRepr, lay.itemRepr
      ensures Lists(next, DropLeast(bs)) && hash.Valid() && unchanged(hash)
      ensures Items(next.rows) == Items(lay.rows) - {lay.rows[0][|lay.rows[0]| - 1]}
      ensures next.freqRepr == lay.freqRepr && next.itemRepr == lay.itemRepr
    {
      DropLeastKeeps(bs);
      next := DropNode(lay);
    }

    method DropNode(ghost lay: Layout) returns (ghost next: Layout)
      requires Shows(lay) && |lay.rows| > 0 && |lay.rows[0]| > 0 && list.count > 0 && hash.Valid()
      modifies list, lay.freqRepr, lay.itemRepr
      ensures Shows(next) && list.count == old(list.count) - 1 && hash.Valid() && unchanged(hash)
      ensures Items(next.rows) == Items(lay.rows) - {lay.rows[0][|lay.rows[0]| - 1]}
      ensures BucketsOf(next.freqs, next.rows) == DropLeast(BucketsOf(lay.freqs, lay.rows))
      ensures next.freqRepr == lay.freqRepr && next.itemRepr == lay.itemRepr
    {
      list.count := list.count - 1;
      ghost var fs, rs := list.DeleteLast(lay.freqs, lay.rows, lay.freqRepr);
      next := Layout(fs, rs, lay.freqRepr, lay.itemRepr);
    }
  }

  /** The LFU handler. */
  class LfuPager {
    const pt: PageTable
    const pages: LfuPages

    ghost function Machine(bs: seq<Bucket>): (m: Ranked)
      reads pt.mapping, pt.prot, pt.frames, pt.store
    {
      Ranked(pt.View(), bs)
    }

    /** The heap is laid out this way, its buckets are these, and the machine is in order. */
    ghost predicate Valid(lay: Layout, bs: seq<Bucket>)
      reads pt.mapping, pt.prot, pt.frames, pt.store
      reads pages.list, lay.freqRepr, lay.itemRepr
      reads pages.hash, pages.hash.heads, pages.hash.counts, pages.hash.repr
    {
      pt.Shaped() && pages.Valid(lay, bs) && Inv(Machine(bs))
    }

    constructor (npages: nat, nframes: nat, blockSize: nat, contents: seq<Block>, junk: Block)
      requires |contents| == npages && nframes > 0
      requires |junk| == blockSize && forall p | 0 <= p < npages :: |contents[p]| == blockSize
      ensures Valid(Layout([], [], {}, {}), []) && Memory(pt.View()) == contents
      ensures forall p: nat :: !pt.View().Resident(p)
      ensures pt.prot.Length == npages && pt.frames.Length == nframes && pt.blockSize == blockSize
      ensures fresh(pt.mapping) && fresh(pt.prot) && fresh(pt.frames) && fresh(pt.store)
      ensures fresh(pages.list) && fresh(pages.hash) && fresh(pages.hash.heads) && fresh(pages.hash.counts)
      ensures pages.hash.repr == {}
    {
      pt := new PageTable(npages, nframes, blockSize, contents, junk);
      pages := new LfuPages(nframes);
      new;
      assert forall p: nat :: !pt.View().Resident(p);
    }

    /** `LFU_page_fault_handler`. */
    method Fault(page: nat, ghost lay: Layout, ghost bs: seq<Bucket>) returns (ghost next: Layout)
      requires Valid(lay, bs) && page < pt.prot.Length
      modifies pt.mapping, pt.prot, pt.frames, pt.store, pages.list, lay.freqRepr, lay.itemRepr
      modifies pages.hash, pages.hash.heads, pages.hash.counts, pages.hash.repr
      ensures Frequency.Shaped(old(Machine(bs)))
      ensures var m := Frequency.Fault(old(Machine(bs)), page);
              Valid(next, m.buckets) && Machine(m.buckets) == m
      ensures forall f | f in next.freqRepr :: f in lay.freqRepr || fresh(f)
      ensures forall n | n in next.itemRepr :: n in lay.itemRepr || fresh(n)
      ensures forall e | e in pages.hash.repr :: e in old(pages.hash.repr) || fresh(e)
    {
      FaultKeeps(Machine(bs), page);
      ghost var added;
      next, added := Serve(page, lay, bs);
    }

    /** The three cases of the handler. */
    method Serve(page: nat, ghost lay: Layout, ghost bs: seq<Bucket>)
      returns (ghost next: Layout, ghost added: set<HashNode<LfuNode>>)
      requires pt.Shaped() && pages.Valid(lay, bs) && page < pt.prot.Length && pt.mapping[page] < pt.frames.Length
      requires Frequency.Shaped(Ranked(pt.View(), bs))
      requires page in PageSet(bs) <==> pt.prot[page] != NoAccess
      modifies pt.mapping, pt.prot, pt.frames, pt.store, pages.list, lay.freqRepr, lay.itemRepr
      modifies pages.hash, pages.hash.heads, pages.hash.counts, pages.hash.repr
      ensures var m := Frequency.Fault(Ranked(old(pt.View()), bs), page);
              pages.Valid(next, m.buckets) && pt.View() == m.pages
      ensures forall f | f in next.freqRepr :: f in lay.freqRepr || fresh(f)
      ensures forall n | n in next.itemRepr :: n in lay.itemRepr || fresh(n)
      ensures pages.hash.repr == old(pages.hash.repr) + added && forall e | e in added :: fresh(e)
    {
      var (frame, bits) := pt.GetEntry(page);
      if bits == NoAccess {
        if pages.list.count < pt.frames.Length {
          next, added := LoadFree(page, lay, bs);
        } else {
          next, added := EvictLeast(page, lay, bs);
        }
      } else {
        next, added := Grant(page, frame, lay, bs);
      }
    }

    method Grant(page: nat, frame: nat, ghost lay: Layout, ghost bs: seq<Bucket>)
      returns (ghost next: Layout, ghost added: set<HashNode<LfuNode>>)
      requires pt.Shaped() && pages.Valid(lay, bs) && page in PageSet(bs)
      requires page < pt.mapping.Length && frame == pt.mapping[page] < pt.frames.Length
      modifies pt.mapping, pt.prot, pages.list, lay.freqRepr, lay.itemRepr
      ensures pages.Valid(next, Bump(bs, page)) && pt.View() == Upgrade(old(pt.View()), page)
      ensures pages.hash.repr == old(pages.hash.repr) + added && forall e | e in added :: fresh(e)
      ensures forall f | f in next.freqRepr :: f in lay.freqRepr || fresh(f)
      ensures forall n | n in next.itemRepr :: n in lay.itemRepr || fresh(n)
    {
      ghost var bumped;
      added := {};
      NoneAdded(pages.hash.repr);
      next, bumped := PromotePage(page, lay, bs);
      UpgradeOnly(page, frame, next, bumped);
    }

    /** The list of pages is not concerned. */
    method UpgradeOnly(page: nat, frame: nat, ghost lay: Layout, ghost bs: seq<Bucket>)
      requires pt.Shaped() && pages.Valid(lay, bs)
      requires page < pt.mapping.Length && frame == pt.mapping[page] < pt.frames.Length
      modifies pt.mapping, pt.prot
      ensures pages.Valid(lay, bs) && pt.View() == Upgrade(old(pt.View()), page)
      ensures pages.hash.repr == old(pages.hash.repr)
    {
      pt.UpgradePage(page, frame);
    }

    /** `moveNodeToNextFreq(getHashNode(page))`; the page table is not concerned. */
    method PromotePage(page: nat, ghost lay: Layout, ghost bs: seq<Bucket>)
      returns (ghost next: Layout, ghost bumped: seq<Bucket>)
      requires pages.Valid(lay, bs) && page in PageSet(bs)
      modifies pages.list`head, lay.freqRepr, lay.itemRepr
      ensures pages.Valid(next, bumped) && bumped == Bump(bs, page) && pt.View() == old(pt.View())
      ensures pages.hash.repr == old(pages.hash.repr)
      ensures forall f | f in next.freqRepr :: f in lay.freqRepr || fresh(f)
      ensures forall n | n in next.itemRepr :: n in lay.itemRepr || fresh(n)
    {
      ghost var i, k;
      var node;
      node, i, k := pages.Lookup(page, lay);
      ghost var items, index := Items(lay.rows), pages.hash.index;
      next, bumped := RaiseOnly(node, lay, bs, i, k);
      pages.FindsStill(next, bumped, items, index);
    }

    /** Neither the page table nor the hash table is concerned. */
    method RaiseOnly(node: LfuNode, ghost lay: Layout, ghost bs: seq<Bucket>, ghost i: nat, ghost k: nat)
      returns (ghost next: Layout, ghost bumped: seq<Bucket>)
      requires pages.Lists(lay, bs) && Anchored(lay.freqs) && pages.hash.Valid()
      requires i < |lay.rows| && k < |lay.rows[i]| && lay.rows[i][k] == node
      modifies pages.list`head, lay.freqRepr, lay.itemRepr
      ensures pages.hash.Valid() && pages.hash.index == old(pages.hash.index) && pages.hash.repr == old(pages.hash.repr)
      ensures pages.Lists(next, bumped) && Anchored(next.freqs) && bumped == Bump(bs, node.key)
      ensures Items(next.rows) == Items(lay.rows) && PageSet(bumped) == PageSet(bs)
      ensures pt.View() == old(pt.View())
      ensures forall f | f in next.freqRepr :: f in lay.freqRepr || fresh(f)
      ensures forall n | n in next.itemRepr :: n in lay.itemRepr || fresh(n)
    {
      next, bumped := pages.RaisePage(node, lay, bs, i, k);
    }

    method LoadFree(page: nat, ghost lay: Layout, ghost bs: seq<Bucket>)
      returns (ghost next: Layout, ghost added: set<HashNode<LfuNode>>)
      requires pt.Shaped() && pages.Valid(lay, bs) && page !in PageSet(bs)
      requires page < pt.mapping.Length && pages.list.count < pt.frames.Length
      modifies pt.mapping, pt.prot, pt.frames, pages.list, lay.freqRepr, lay.itemRepr
      modifies pages.hash, pages.hash.heads, pages.hash.counts
      ensures pages.Valid(next, Insert(bs, page)) && pt.View() == Load(old(pt.View()), page, Total(bs))
      ensures forall f | f in next.freqRepr :: f in lay.freqRepr || fresh(f)
      ensures forall n | n in next.itemRepr :: n in lay.itemRepr || fresh(n)
      ensures pages.hash.repr == old(pages.hash.repr) + added && forall e | e in added :: fresh(e)
    {
      var i := pages.list.count;
      next, added := AddPage(page, lay, bs);
      LoadOnly(page, i, next, Insert(bs, page));
    }

    /** The list of pages is not concerned. */
    method LoadOnly(page: nat, frame: nat, ghost lay: Layout, ghost bs: seq<Bucket>)
      requires pt.Shaped() && pages.Valid(lay, bs) && page < pt.mapping.Length && frame < pt.frames.Length
      modifies pt.mapping, pt.prot, pt.frames
      ensures pages.Valid(lay, bs) && pt.View() == Load(old(pt.View()), page, frame)
      ensures pages.hash.repr == old(pages.hash.repr)
    {
      pt.LoadPage(page, frame);
    }

    method EvictLeast(page: nat, ghost lay: Layout, ghost bs: seq<Bucket>)
      returns (ghost next: Layout, ghost added: set<HashNode<LfuNode>>)
      requires pt.Shaped() && pages.Valid(lay, bs) && page !in PageSet(bs) && bs != [] && bs[0].pages != []
      requires page < pt.mapping.Length && Least(bs) < pt.mapping.Length && pt.mapping[Least(bs)] < pt.frames.Length
      modifies pt.mapping, pt.prot, pt.frames, pt.store, pages.list, lay.freqRepr, lay.itemRepr
      modifies pages.hash, pages.hash.heads, pages.hash.counts, pages.hash.repr
      ensures pages.Valid(next, Insert(DropLeast(bs), page))
      ensures pt.View() == Replace(old(pt.View()), page, Least(bs))
      ensures forall f | f in next.freqRepr :: f in lay.freqRepr || fresh(f)
      ensures forall n | n in next.itemRepr :: n in lay.itemRepr || fresh(n)
      ensures pages.hash.repr == old(pages.hash.repr) + added && forall e | e in added :: fresh(e)
    {
      DropLeastKeeps(bs);
      next := TakeFrame(page, lay, bs);
      next, added := AddPage(page, next, DropLeast(bs));
    }

    /** The page table is not concerned. */
    method AddPage(page: nat, ghost lay: Layout, ghost bs: seq<Bucket>)
      returns (ghost next: Layout, ghost added: set<HashNode<LfuNode>>)
      requires pages.Loose(lay, bs) && page !in PageSet(bs)
      modifies pages.list, lay.freqRepr, lay.itemRepr, pages.hash, pages.hash.heads, pages.hash.counts
      ensures pages.Valid(next, Insert(bs, page)) && pt.View() == old(pt.View())
      ensures forall f | f in next.freqRepr :: f in lay.freqRepr || fresh(f)
      ensures forall n | n in next.itemRepr :: n in lay.itemRepr || fresh(n)
      ensures pages.hash.repr == old(pages.hash.repr) + added && forall e | e in added :: fresh(e)
    {
      var node;
      ghost var entry;
      next, node, entry := pages.Add(page, lay, bs);
      added := {entry};
    }

    /** The least used page gives up its frame. */
    method TakeFrame(page: nat, ghost lay: Layout, ghost bs: seq<Bucket>) returns (ghost next: Layout)
      requires pt.Shaped() && pages.Loose(lay, bs) && bs != [] && bs[0].pages != []
      requires page < pt.mapping.Length && Least(bs) < pt.mapping.Length && pt.mapping[Least(bs)] < pt.frames.Length
      modifies pt.mapping, pt.prot, pt.frames, pt.store, pages.list, lay.freqRepr, lay.itemRepr
      modifies pages.hash, pages.hash.heads, pages.hash.counts, pages.hash.repr
      ensures pages.Loose(next, DropLeast(bs))
      ensures pt.View() == Replace(old(pt.View()), page, Least(bs))
      ensures next.freqRepr == lay.freqRepr && next.itemRepr == lay.itemRepr
      ensures pages.hash.repr == old(pages.hash.repr)
    {
      var tempPage;
      tempPage, next := ForgetLeast(lay, bs);
      assert pt.View() == old(pt.View());
      SwapPage(page, tempPage, next, DropLeast(bs));
    }

    /** The page table is not concerned. */
    method ForgetLeast(ghost lay: Layout, ghost bs: seq<Bucket>) returns (tempPage: nat, ghost next: Layout)
      requires pages.Loose(lay, bs) && bs != []
      modifies pages.list, lay.freqRepr, lay.itemRepr
      modifies pages.hash, pages.hash.heads, pages.hash.counts, pages.hash.repr
      ensures bs[0].pages != [] && tempPage == Least(bs) && pages.Loose(next, DropLeast(bs))
      ensures unchanged(pt.mapping, pt.prot, pt.frames, pt.store)
      ensures next.freqRepr == lay.freqRepr && next.itemRepr == lay.itemRepr
      ensures pages.hash.repr == old(pages.hash.repr)
    {
      tempPage, next := pages.RemoveLeast(lay, bs);
    }

    /** The list of pages is not concerned. */
    method SwapPage(page: nat, tempPage: nat, ghost lay: Layout, ghost bs: seq<Bucket>)
      requires pt.Shaped() && pages.Loose(lay, bs) && page < pt.mapping.Length
      requires tempPage < pt.mapping.Length && pt.mapping[tempPage] < pt.frames.Length
      modifies pt.mapping, pt.prot, pt.frames, pt.store
      ensures pages.Loose(lay, bs) && pt.View() == Replace(old(pt.View()), page, tempPage)
      ensures pages.hash.repr == old(pages.hash.repr)
    {
      pt.ReplacePage(page, tempPage);
    }

    /** `page_table_flush` for this policy. */
    method Flush(ghost lay: Layout, ghost bs: seq<Bucket>) returns (ghost next: Layout)
      requires Valid(lay, bs)
      modifies pt.mapping, pt.prot, pt.store, pages.list, lay.freqRepr, lay.itemRepr
      modifies pages.hash, pages.hash.heads, pages.hash.counts, pages.hash.repr
      ensures Valid(next, []) && Machine([]) == Frequency.Flush(old(Machine(bs)))
      ensures next.freqRepr == lay.freqRepr && next.itemRepr == lay.itemRepr
      ensures pages.hash.repr == old(pages.hash.repr)
    {
      FlushKeeps(Machine(bs));
      next := FlushPages(lay, bs);
    }

    method FlushPages(ghost lay: Layout, ghost bs: seq<Bucket>) returns (ghost next: Layout)
      requires pt.Shaped() && pages.Loose(lay, bs) && Tracks(Machine(bs))
      modifies pt.mapping, pt.prot, pt.store, pages.list, lay.freqRepr, lay.itemRepr
      modifies pages.hash, pages.hash.heads, pages.hash.counts, pages.hash.repr
      ensures pages.Valid(next, []) && Machine([]) == Frequency.Flush(old(Machine(bs)))
      ensures next.freqRepr == lay.freqRepr && next.itemRepr == lay.itemRepr
      ensures pages.hash.repr == old(pages.hash.repr)
    {
      ghost var goal, cur := Frequency.Flush(Machine(bs)), bs;
      FlushKeeps(Machine(bs));
      next := lay;
      while pages.list.count > 0
        invariant pages.Loose(next, cur) && Tracks(Machine(cur)) && Frequency.Flush(Machine(cur)) == goal
        invariant next.freqRepr == lay.freqRepr && next.itemRepr == lay.itemRepr
        invariant pages.hash.repr == old(pages.hash.repr)
        decreases pages.list.count
      {
        FlushStep(Machine(cur));
        next := FlushOne(next, cur);
        cur := DropLeast(cur);
      }
      TotalIsSize(cur);
    }

    method FlushOne(ghost lay: Layout, ghost bs: seq<Bucket>) returns (ghost next: Layout)
      requires pt.Shaped() && pages.Loose(lay, bs) && bs != [] && bs[0].pages != []
      requires Least(bs) < pt.mapping.Length && pt.mapping[Least(bs)] < pt.frames.Length
      modifies pt.mapping, pt.prot, pt.store, pages.list, lay.freqRepr, lay.itemRepr
      modifies pages.hash, pages.hash.heads, pages.hash.counts, pages.hash.repr
      ensures pages.Loose(next, DropLeast(bs))
      ensures pt.View() == Release(old(pt.View()), Least(bs))
      ensures next.freqRepr == lay.freqRepr && next.itemRepr == lay.itemRepr
      ensures pages.hash.repr == old(pages.hash.repr)
    {
      var tempPage;
      tempPage, next := ForgetLeast(lay, bs);
      assert pt.View() == old(pt.View());
      ReleaseOnly(tempPage, next, DropLeast(bs));
    }

    /** The list of pages is not concerned. */
    method ReleaseOnly(page: nat, ghost lay: Layout, ghost bs: seq<Bucket>)
      requires pt.Shaped() && pages.Loose(lay, bs) && page < pt.mapping.Length && pt.mapping[page] < pt.frames.Length
      modifies pt.mapping, pt.prot, pt.store
      ensures pages.Loose(lay, bs) && pt.View() == Release(old(pt.View()), page)
      ensures pages.hash.repr == old(pages.hash.repr)
    {
      var frame := pt.ReleasePage(page);
    }
  }
}
