/**
 The RAND page-fault handler over the hash table and the counter of frames handed out.
 */
module RandPagers {
  import opened Paging
  import opened PageTables
  import opened Hashing
  import opened HashTables
  import opened Probing
  import opened Sequences

  type Entry = HashNode<bool>  // `insertHashNode` is given a null pointer with every key

  ghost function KeyChains(chains: seq<seq<Entry>>): (keys: seq<seq<nat>>) {
    seq(|chains|, b requires 0 <= b < |chains| => ChainKeys(chains[b]))
  }

  lemma {:induction false} InsertKeys(chains: seq<seq<Entry>>, node: Entry)
    requires |chains| > 0
    ensures var b := HashOf(node.key, |chains|);
            KeyChains(chains[b := [node] + chains[b]]) == Insert(KeyChains(chains), node.key)
  {
    var b := HashOf(node.key, |chains|);
    assert ChainKeys([node] + chains[b]) == [node.key] + ChainKeys(chains[b]);
  }

  lemma {:induction false} RemovedKeys(nodes: seq<Entry>, key: nat)
    ensures ChainKeys(Removed(nodes, key)) == Without(ChainKeys(nodes), key)
  {
    var k, keys := Find(nodes, key), ChainKeys(nodes);
    if k < |nodes| {
      WithoutAt(keys, k);
      assert ChainKeys(Taken(nodes, k)) == Taken(keys, k);
    }
  }

  lemma {:induction false} DeleteKeys(chains: seq<seq<Entry>>, key: nat)
    requires |chains| > 0
    ensures var b := HashOf(key, |chains|);
            KeyChains(chains[b := Removed(chains[b], key)]) == Delete(KeyChains(chains), key)
  {
    RemovedKeys(chains[HashOf(key, |chains|)], key);
  }

  /** The table knows a key exactly when the key is in its bucket. */
  lemma {:induction false} IndexHas(hash: HashTable<bool>, key: nat)
    requires hash.Valid()
    ensures key in hash.index <==> key in KeyChains(hash.chains)[HashOf(key, |hash.chains|)]
  {
    var nodes := hash.chains[HashOf(key, |hash.chains|)];
    assert key in hash.index <==> Find(nodes, key) < |nodes|;
    assert Find(nodes, key) < |nodes| ==> ChainKeys(nodes)[Find(nodes, key)] == key;
  }

  class RandPager {
    const pt: PageTable
    const hash: HashTable<bool>
    var count: nat

    ghost function Machine(): (m: Hashed)
      reads this, pt.mapping, pt.prot, pt.frames, pt.store, hash
    {
      Hashed(pt.View(), KeyChains(hash.chains), count)
    }

    ghost predicate Valid()
      reads this, pt.mapping, pt.prot, pt.frames, pt.store
      reads hash, hash.heads, hash.counts, hash.repr
    {
      pt.Shaped() && hash.Valid() && Inv(Machine())
    }

    constructor (npages: nat, nframes: nat, blockSize: nat, contents: seq<Block>, junk: Block)
      requires |contents| == npages && nframes > 0
      requires |junk| == blockSize && forall p | 0 <= p < npages :: |contents[p]| == blockSize
      ensures Valid() && count == 0 && Memory(pt.View()) == contents
      ensures forall p: nat :: !pt.View().Resident(p)
      ensures pt.prot.Length == npages && pt.frames.Length == nframes && pt.blockSize == blockSize
      ensures fresh(pt.mapping) && fresh(pt.prot) && fresh(pt.frames) && fresh(pt.store)
      ensures fresh(hash) && fresh(hash.heads) && fresh(hash.counts) && hash.repr == {}
    {
      pt := new PageTable(npages, nframes, blockSize, contents, junk);
      hash := new HashTable<bool>(nframes);
      count := 0;
      new;
      assert forall p: nat :: !pt.View().Resident(p);
    }

    /** The search for a bucket that holds a page; `dice` is the random number. */
    method ProbeFrom(dice: nat) returns (r: nat)
      requires hash.Valid() && !AllEmpty(KeyChains(hash.chains))
      ensures r == Probe(KeyChains(hash.chains), HashOf(dice, |hash.chains|))
    {
      ghost var chains := KeyChains(hash.chains);
      r := HashOf(dice, hash.heads.Length);
      ghost var target := Probe(chains, r);
      while hash.heads[r] == null
        invariant r < |chains| && Probe(chains, r) == target
        decreases if r <= target then target - r else target + |chains| - r
      {
        assert Chained(hash.heads[r], hash.chains[r]);
        assert chains[r] == [];
        r := r + 1;
        if r > hash.heads.Length - 1 {
          r := 0;
        }
      }
      assert Chained(hash.heads[r], hash.chains[r]);
    }

    /** `RAND_page_fault_handler`; it may only be asked to evict when there is something to evict. */
    method Fault(page: nat, dice: nat)
      requires Valid() && page < pt.prot.Length
      requires pt.prot[page] == NoAccess ==> Live(Machine())
      modifies this, pt.mapping, pt.prot, pt.frames, pt.store, hash, hash.heads, hash.counts, hash.repr
      ensures Valid() && Machine() == Probing.Fault(old(Machine()), page, dice)
      ensures forall n | n in hash.repr :: n in old(hash.repr) || fresh(n)
    {
      FaultKeeps(Machine(), page, dice);
      IndexHas(hash, page);
      Serve(page, dice);
    }

    method Serve(page: nat, dice: nat)
      requires pt.Shaped() && hash.Valid() && page < pt.prot.Length && pt.mapping[page] < pt.frames.Length
      requires Probing.Shaped(Machine())
      requires pt.prot[page] == NoAccess ==> Live(Machine()) && page !in hash.index
      modifies this, pt.mapping, pt.prot, pt.frames, pt.store, hash, hash.heads, hash.counts, hash.repr
      ensures hash.Valid() && Machine() == Probing.Fault(old(Machine()), page, dice)
      ensures forall n | n in hash.repr :: n in old(hash.repr) || fresh(n)
    {
      var (frame, bits) := pt.GetEntry(page);
      if bits == NoAccess {
        if count < pt.frames.Length {
          var i := count;
          InsertKey(page);
          pt.LoadPage(page, i);
          count := count + 1;
        } else {
          Evict(page, dice);
        }
      } else {
        pt.UpgradePage(page, frame);
      }
    }

    method Evict(page: nat, dice: nat)
      requires pt.Shaped() && hash.Valid() && page < pt.prot.Length && page !in hash.index
      requires Probing.Shaped(Machine()) && !AllEmpty(Machine().chains)
      modifies pt.mapping, pt.prot, pt.frames, pt.store, hash, hash.heads, hash.counts, hash.repr
      ensures hash.Valid()
      ensures var m := old(Machine());
              var victim := m.chains[Probe(m.chains, HashOf(dice, |m.chains|))][0];
              Machine() == Hashed(Replace(m.pages, page, victim), Insert(Delete(m.chains, victim), page), m.count)
      ensures forall n | n in hash.repr :: n in old(hash.repr) || fresh(n)
    {
      var tempPage := Victim(dice);
      pt.ReplacePage(page, tempPage);
      SwapKeys(tempPage, page);
    }

    method Victim(dice: nat) returns (tempPage: nat)
      requires hash.Valid() && !AllEmpty(KeyChains(hash.chains))
      ensures var chains := KeyChains(hash.chains);
              tempPage == chains[Probe(chains, HashOf(dice, |chains|))][0]
    {
      var randIndex := ProbeFrom(dice);
      assert Chained(hash.heads[randIndex], hash.chains[randIndex]);
      tempPage := hash.heads[randIndex].key;
    }

    method SwapKeys(tempPage: nat, page: nat)
      requires hash.Valid() && page !in hash.index
      modifies hash, hash.heads, hash.counts, hash.repr
      ensures hash.Valid()
      ensures KeyChains(hash.chains) == Insert(Delete(old(KeyChains(hash.chains)), tempPage), page)
      ensures forall n | n in hash.repr :: n in old(hash.repr) || fresh(n)
    {
      DeleteKey(tempPage);
      InsertKey(page);
    }

    method InsertKey(page: nat)
      requires hash.Valid() && page !in hash.index
      modifies hash, hash.heads, hash.counts
      ensures hash.Valid() && KeyChains(hash.chains) == Insert(old(KeyChains(hash.chains)), page)
      ensures forall n | n in hash.repr :: n in old(hash.repr) || fresh(n)
    {
      ghost var node := hash.InsertFirst(page, false);
      InsertKeys(old(hash.chains), node);
    }

    method DeleteKey(page: nat)
      requires hash.Valid()
      modifies hash, hash.heads, hash.counts, hash.repr
      ensures hash.Valid() && KeyChains(hash.chains) == Delete(old(KeyChains(hash.chains)), page)
      ensures hash.repr == old(hash.repr) && hash.index == old(hash.index) - {page}
    {
      DeleteKeys(hash.chains, page);
      hash.DeleteFirst(page);
    }

    /** `page_table_flush` for this policy: bucket after bucket, from the head. */
    method Flush()
      requires Valid()
      modifies pt.mapping, pt.prot, pt.store, hash, hash.heads, hash.counts, hash.repr
      ensures Valid() && Machine() == Probing.Flush(old(Machine()))
      ensures hash.repr == old(hash.repr)
    {
      FlushKeeps(Machine());
      FlushBuckets();
    }

    /** What the loops of the flush rely on. */
    ghost predicate Usable()
      reads this, pt.mapping, pt.prot, pt.frames, pt.store
      reads hash, hash.heads, hash.counts, hash.repr
    {
      pt.Shaped() && hash.Valid() && Probing.Shaped(Machine())
    }

    method FlushBuckets()
      requires Usable()
      modifies pt.mapping, pt.prot, pt.store, hash, hash.heads, hash.counts, hash.repr
      ensures Usable() && Machine() == Probing.Flush(old(Machine()))
      ensures hash.repr == old(hash.repr)
    {
      ghost var m, now := Machine(), Machine();
      for i := 0 to hash.heads.Length
        invariant Usable() && hash.repr == old(hash.repr) && Machine() == now && Probing.Shaped(m)
        invariant i <= |m.chains| && now == FlushTo(m, i)
      {
        now := FlushChain(now, i);
        FlushBucket(i);
      }
    }

    method FlushBucket(i: nat)
      requires Usable() && i < hash.heads.Length
      modifies pt.mapping, pt.prot, pt.store, hash, hash.heads, hash.counts, hash.repr
      ensures Usable() && hash.repr == old(hash.repr)
      ensures Machine() == FlushChain(old(Machine()), i)
    {
      ghost var goal, nodes := FlushChain(Machine(), i), hash.repr;
      while hash.heads[i] != null
        invariant Usable() && hash.repr == nodes && i < |hash.chains|
        invariant FlushChain(Machine(), i) == goal
        decreases |hash.chains[i]|
      {
        FlushFirst(i);
      }
      assert Chained(hash.heads[i], hash.chains[i]);
    }

    method FlushFirst(i: nat)
      requires Usable() && i < hash.heads.Length && hash.heads[i] != null
      modifies pt.mapping, pt.prot, pt.store, hash, hash.heads, hash.counts, hash.repr
      ensures Usable() && hash.repr == old(hash.repr)
      ensures i < |hash.chains| == |old(hash.chains)| && |hash.chains[i]| < |old(hash.chains)[i]|
      ensures old(Machine()).chains[i] != [] && Machine() == FlushHead(old(Machine()), i)
    {
      ghost var m := Machine();
      assert Chained(hash.heads[i], hash.chains[i]);
      var tempPage := hash.heads[i].key;
      assert m.chains[i] != [] && m.chains[i][0] == tempPage && HashOf(tempPage, |m.chains|) == i;
      ReleaseOnly(tempPage);
      DeleteKey(tempPage);
      assert Delete(m.chains, tempPage) == m.chains[i := m.chains[i][1..]];
      assert |KeyChains(hash.chains)[i]| == |hash.chains[i]|;
    }

    /** The hash table is not concerned. */
    method ReleaseOnly(page: nat)
      requires pt.Shaped() && hash.Valid() && page < pt.mapping.Length && pt.mapping[page] < pt.frames.Length
      modifies pt.mapping, pt.prot, pt.store
      ensures hash.Valid() && pt.View() == Release(old(pt.View()), page)
      ensures hash.repr == old(hash.repr) && hash.chains == old(hash.chains)
    {
      var frame := pt.ReleasePage(page);
    }
  }
}
