/**
 The RAND page-fault handler. Its only bookkeeping is the chained hash table (one bucket per
 frame) and a counter of the frames handed out so far. The victim is the newest page of the
 first non-empty bucket at or after a random one, wrapping round.

 `page_table_flush` empties the table but does not reset the counter, so a flush made after
 every frame has been handed out leaves the search for a victim with nothing to find:
 `Live` is the exact condition under which the next fault comes to an end.
 */
module Probing {
  import opened Paging
  import opened Sequences
  import opened Hashing

  datatype Hashed = Hashed(pages: Pages, chains: seq<seq<nat>>, count: nat)

  function Insert(chains: seq<seq<nat>>, key: nat): (r: seq<seq<nat>>)
    requires |chains| > 0
  {
    var b := HashOf(key, |chains|);
    chains[b := [key] + chains[b]]
  }

  function Delete(chains: seq<seq<nat>>, key: nat): (r: seq<seq<nat>>)
    requires |chains| > 0
  {
    var b := HashOf(key, |chains|);
    chains[b := Without(chains[b], key)]
  }

  /** Every key sits in its own bucket, once, and the keys are the resident pages. */
  ghost predicate Indexes(chains: seq<seq<nat>>, s: Pages) {
    && |chains| > 0
    && (forall b | 0 <= b < |chains| :: Distinct(chains[b]))
    && (forall b, i | 0 <= b < |chains| && 0 <= i < |chains[b]| ::
          s.Resident(chains[b][i]) && HashOf(chains[b][i], |chains|) == b)
    && (forall p: nat | s.Resident(p) :: p in chains[HashOf(p, |chains|)])
  }

  ghost predicate Inv(m: Hashed) {
    && Coherent(m.pages)
    && |m.chains| == |m.pages.frames|
    && Indexes(m.chains, m.pages)
    && m.count <= |m.pages.frames|
    && (forall p: nat | m.pages.Resident(p) :: m.pages.mapping[p] < m.count)
  }

  /** The first non-empty bucket at or after i, |chains| if there is none. */
  function NonEmptyFrom(chains: seq<seq<nat>>, i: nat): (r: nat)
    requires i <= |chains|
    ensures i <= r <= |chains|
    ensures r < |chains| ==> chains[r] != []
    ensures forall b | i <= b < r :: chains[b] == []
    decreases |chains| - i
  {
    if i == |chains| || chains[i] != [] then i else NonEmptyFrom(chains, i + 1)
  }

  ghost predicate AllEmpty(chains: seq<seq<nat>>) {
    forall b | 0 <= b < |chains| :: chains[b] == []
  }

  /** Where the search for a victim ends when it starts at bucket i. */
  function Probe(chains: seq<seq<nat>>, i: nat): (r: nat)
    requires i < |chains| && !AllEmpty(chains)
    ensures r < |chains| && chains[r] != []
  {
    var r := NonEmptyFrom(chains, i);
    if r < |chains| then r
    else
      var w := NonEmptyFrom(chains, 0);
      assert w < |chains| by {
        var b :| 0 <= b < |chains| && chains[b] != [];
      }
      w
  }

  /** A frame has never been handed out, or there is a page to evict. */
  ghost predicate Live(m: Hashed) {
    m.count < |m.pages.frames| || !AllEmpty(m.chains)
  }

  ghost predicate Shaped(m: Hashed) {
    && |m.pages.mapping| == |m.pages.prot| == |m.pages.store|
    && |m.chains| == |m.pages.frames| > 0
    && (forall b, i | 0 <= b < |m.chains| && 0 <= i < |m.chains[b]| ::
          m.chains[b][i] < |m.pages.mapping| && m.pages.mapping[m.chains[b][i]] < |m.pages.frames|)
  }

  /** `dice` is what rand() returns, should it be asked. */
  ghost function Fault(m: Hashed, page: nat, dice: nat): (t: Hashed)
    requires Shaped(m) && page < |m.pages.prot|
    requires m.pages.prot[page] == NoAccess ==> Live(m)
  {
    if m.pages.prot[page] != NoAccess then
      m.(pages := Upgrade(m.pages, page))
    else if m.count < |m.pages.frames| then
      Hashed(Load(m.pages, page, m.count), Insert(m.chains, page), m.count + 1)
    else
      var victim := m.chains[Probe(m.chains, HashOf(dice, |m.chains|))][0];
      Hashed(Replace(m.pages, page, victim), Insert(Delete(m.chains, victim), page), m.count)
  }

  lemma {:induction false} InsertIndexes(chains: seq<seq<nat>>, s: Pages, t: Pages, page: nat)
    requires Indexes(chains, s) && !s.Resident(page)
    requires forall p: nat :: t.Resident(p) <==> s.Resident(p) || p == page
    ensures Indexes(Insert(chains, page), t)
  {
    var b := HashOf(page, |chains|);
    var r := Insert(chains, page);
    assert forall i | 0 <= i < |chains[b]| :: chains[b][i] != page;
    forall c, i | 0 <= c < |r| && 0 <= i < |r[c]|
      ensures t.Resident(r[c][i]) && HashOf(r[c][i], |r|) == c
    {
      if c == b && i > 0 {
        assert r[c][i] == chains[b][i - 1];
      }
    }
  }

  lemma {:induction false} DeleteIndexes(chains: seq<seq<nat>>, s: Pages, t: Pages, page: nat)
    requires Indexes(chains, s) && s.Resident(page)
    requires forall p: nat :: t.Resident(p) <==> s.Resident(p) && p != page
    ensures Indexes(Delete(chains, page), t)
  {
    var b := HashOf(page, |chains|);
    var r := Delete(chains, page);
    WithoutMembers(chains[b], page);
    forall c, i | 0 <= c < |r| && 0 <= i < |r[c]|
      ensures t.Resident(r[c][i]) && HashOf(r[c][i], |r|) == c
    {
      assert r[c][i] in r[c];
      assert r[c][i] in chains[c];
    }
  }

  lemma {:induction false} FaultKeeps(m: Hashed, page: nat, dice: nat)
    requires Inv(m) && page < |m.pages.prot|
    requires m.pages.prot[page] == NoAccess ==> Live(m)
    ensures Inv(Fault(m, page, dice))
    ensures Memory(Fault(m, page, dice).pages) == Memory(m.pages)
    ensures Live(Fault(m, page, dice))
  {
    var t := Fault(m, page, dice);
    if m.pages.prot[page] != NoAccess {
      UpgradeKeeps(m.pages, page);
      assert forall p: nat :: t.pages.Resident(p) <==> m.pages.Resident(p);
    } else if m.count < |m.pages.frames| {
      FaultLoads(m, page, dice);
    } else {
      FaultReplaces(m, page, dice);
    }
    assert t.pages.Resident(page);
    assert page in t.chains[HashOf(page, |t.chains|)];
  }

  lemma {:induction false} FaultLoads(m: Hashed, page: nat, dice: nat)
    requires Inv(m) && page < |m.pages.prot| && m.pages.prot[page] == NoAccess && m.count < |m.pages.frames|
    ensures Inv(Fault(m, page, dice))
    ensures Memory(Fault(m, page, dice).pages) == Memory(m.pages)
  {
    var t := Fault(m, page, dice);
    LoadKeeps(m.pages, page, m.count);
    InsertIndexes(m.chains, m.pages, t.pages, page);
  }

  lemma {:induction false} FaultReplaces(m: Hashed, page: nat, dice: nat)
    requires Inv(m) && page < |m.pages.prot| && m.pages.prot[page] == NoAccess
    requires m.count == |m.pages.frames| && Live(m)
    ensures Inv(Fault(m, page, dice))
    ensures Memory(Fault(m, page, dice).pages) == Memory(m.pages)
  {
    var t := Fault(m, page, dice);
    var victim := m.chains[Probe(m.chains, HashOf(dice, |m.chains|))][0];
    var s := Release(m.pages, victim);
    assert m.pages.Resident(victim);
    ReplaceKeeps(m.pages, page, victim);
    ReplaceIsReleaseThenLoad(m.pages, page, victim);
    DeleteIndexes(m.chains, m.pages, s, victim);
    InsertIndexes(Delete(m.chains, victim), s, t.pages, page);
  }

  // ---------- flush ----------

  /** The page at the head of bucket b is released and deleted. */
  function FlushHead(m: Hashed, b: nat): (t: Hashed)
    requires Shaped(m) && b < |m.chains| && m.chains[b] != []
    ensures Shaped(t) && t.chains == m.chains[b := m.chains[b][1..]]
  {
    Hashed(Release(m.pages, m.chains[b][0]), m.chains[b := m.chains[b][1..]], m.count)
  }

  /** Bucket b is emptied, from its head. */
  function FlushChain(m: Hashed, b: nat): (t: Hashed)
    requires Shaped(m) && b < |m.chains|
    ensures Shaped(t) && t.chains == m.chains[b := []]
    decreases |m.chains[b]|
  {
    if m.chains[b] == [] then m else FlushChain(FlushHead(m, b), b)
  }

  /** The first n buckets are emptied, one after the other. */
  function FlushTo(m: Hashed, n: nat): (t: Hashed)
    requires Shaped(m) && n <= |m.chains|
    ensures Shaped(t) && |t.chains| == |m.chains| && forall b | 0 <= b < n :: t.chains[b] == []
  {
    if n == 0 then m else FlushChain(FlushTo(m, n - 1), n - 1)
  }

  function Flush(m: Hashed): (t: Hashed)
    requires Shaped(m)
  {
    FlushTo(m, |m.chains|)
  }

  /** What a flush changes is the permissions, the chains and, possibly, the store. */
  ghost predicate Flushed(m: Hashed, t: Hashed)
    requires Inv(m)
  {
    && Inv(t)
    && Memory(t.pages) == Memory(m.pages)
    && t.count == m.count && t.pages.frames == m.pages.frames && t.pages.blockSize == m.pages.blockSize
  }

  lemma {:induction false} FlushHeadKeeps(m: Hashed, b: nat)
    requires Inv(m) && b < |m.chains| && m.chains[b] != []
    ensures Flushed(m, FlushHead(m, b))
  {
    var victim := m.chains[b][0];
    var s := Release(m.pages, victim);
    assert m.pages.Resident(victim);
    ReleaseKeeps(m.pages, victim);
    assert Delete(m.chains, victim) == m.chains[b := m.chains[b][1..]];
    assert forall p: nat :: s.Resident(p) <==> m.pages.Resident(p) && p != victim;
    DeleteIndexes(m.chains, m.pages, s, victim);
  }

  lemma {:induction false} FlushedTrans(m: Hashed, t: Hashed, u: Hashed)
    requires Inv(m) && Flushed(m, t) && Flushed(t, u)
    ensures Flushed(m, u)
  {
  }

  lemma {:induction false} FlushedSame(m: Hashed)
    requires Inv(m)
    ensures Flushed(m, m)
  {
  }

  lemma {:induction false} FlushChainKeeps(m: Hashed, b: nat)
    requires Inv(m) && b < |m.chains|
    ensures Flushed(m, FlushChain(m, b))
    decreases |m.chains[b]|
  {
    if m.chains[b] != [] {
      FlushHeadKeeps(m, b);
      FlushChainKeeps(FlushHead(m, b), b);
      FlushedTrans(m, FlushHead(m, b), FlushChain(m, b));
    }
  }

  lemma {:induction false} FlushToKeeps(m: Hashed, n: nat)
    requires Inv(m) && n <= |m.chains|
    ensures Flushed(m, FlushTo(m, n))
  {
    if n == 0 {
      FlushedSame(m);
    } else {
      FlushToKeeps(m, n - 1);
      FlushToNext(m, FlushTo(m, n - 1), n - 1);
    }
  }

  lemma {:induction false} FlushToNext(m: Hashed, t: Hashed, b: nat)
    requires Inv(m) && Flushed(m, t) && b < |t.chains|
    ensures Flushed(m, FlushChain(t, b))
  {
    FlushChainKeeps(t, b);
    FlushedTrans(m, t, FlushChain(t, b));
  }

  /** A flush writes everything back and unmaps every page. The next fault comes to an end
      exactly when a frame was still unused at the flush. */
  lemma {:induction false} FlushKeeps(m: Hashed)
    requires Inv(m)
    ensures Inv(Flush(m))
    ensures Memory(Flush(m).pages) == Memory(m.pages) == Flush(m).pages.store
    ensures forall p: nat :: !Flush(m).pages.Resident(p)
    ensures Flush(m).pages.blockSize == m.pages.blockSize
    ensures Live(Flush(m)) <==> m.count < |m.pages.frames|
  {
    FlushToKeeps(m, |m.chains|);
    var t := Flush(m);
    NothingResident(t.pages);
  }

  // ---------- the search for a victim ----------

  /** The bucket the search looks at after k steps. */
  function ProbeStep(i: nat, k: nat, n: nat): (r: nat)
    requires i < n
    ensures r < n
    decreases k
  {
    if k == 0 then i
    else
      var j := ProbeStep(i, k - 1, n);
      if j + 1 > n - 1 then 0 else j + 1
  }

  /** The search ends if and only if some bucket is occupied, wherever it starts. */
  lemma {:induction false} ProbeEnds(chains: seq<seq<nat>>, i: nat)
    requires i < |chains|
    ensures !AllEmpty(chains) <==> exists k: nat :: chains[ProbeStep(i, k, |chains|)] != []
    ensures !AllEmpty(chains) ==>
              exists k: nat | k < |chains| ::
                && ProbeStep(i, k, |chains|) == Probe(chains, i)
                && forall j: nat | j < k :: chains[ProbeStep(i, j, |chains|)] == []
  {
    if !AllEmpty(chains) {
      var k := ProbeCount(chains, i);
    }
  }

  /** How many steps bucket b is away from bucket i, going round. */
  function Away(i: nat, b: nat, n: nat): (d: nat)
    requires i < n && b < n
    ensures d < n && d == (b + n - i) % n
  {
    if i <= b then b - i else b + n - i
  }

  /** The bucket found is the nearest occupied one. */
  lemma {:induction false} ProbeNearest(chains: seq<seq<nat>>, i: nat, b: nat)
    requires i < |chains| && b < |chains| && chains[b] != []
    ensures Away(i, Probe(chains, i), |chains|) <= Away(i, b, |chains|)
  {
  }

  /** After how many steps the search ends. */
  lemma {:induction false} ProbeCount(chains: seq<seq<nat>>, i: nat) returns (k: nat)
    requires i < |chains| && !AllEmpty(chains)
    ensures k < |chains| && ProbeStep(i, k, |chains|) == Probe(chains, i)
    ensures forall j: nat | j < k :: chains[ProbeStep(i, j, |chains|)] == []
  {
    k := Away(i, Probe(chains, i), |chains|);
    ProbeStepIs(i, k, |chains|);
    forall j: nat | j < k
      ensures chains[ProbeStep(i, j, |chains|)] == []
    {
      ProbeStepIs(i, j, |chains|);
    }
  }

  /** The page that a replacing fault evicts: the search starts at the random bucket, and the first
      occupied bucket gives up its newest page. */
  lemma {:induction false} FaultEvicts(m: Hashed, page: nat, dice: nat, i: nat) returns (k: nat)
    requires Inv(m) && page < |m.pages.prot| && m.pages.prot[page] == NoAccess
    requires m.count == |m.pages.frames| && Live(m) && i == dice % |m.pages.frames|
    ensures Shaped(m) && i < |m.chains|
    ensures forall j: nat | j < k :: m.chains[ProbeStep(i, j, |m.chains|)] == []
    ensures m.chains[ProbeStep(i, k, |m.chains|)] != []
    ensures forall p: nat ::
              Fault(m, page, dice).pages.Resident(p) <==>
                p == page || (m.pages.Resident(p) && p != m.chains[ProbeStep(i, k, |m.chains|)][0])
  {
    k := ProbeCount(m.chains, i);
    var victim := m.chains[Probe(m.chains, i)][0];
    assert m.pages.Resident(victim);
    ReplaceResidents(m.pages, page, victim);
  }

  lemma {:induction false} ReplaceResidents(s: Pages, page: nat, victim: nat)
    requires s.Sized() && page < |s.prot| && s.prot[page] == NoAccess && s.Resident(victim)
    requires s.mapping[victim] < |s.frames|
    ensures forall p: nat :: Replace(s, page, victim).Resident(p) <==> p == page || (s.Resident(p) && p != victim)
  {
  }

  /** A machine that is not live has no page in a frame, and its search never ends. */
  lemma {:induction false} ProbeStuck(m: Hashed, i: nat)
    requires Inv(m) && i < |m.chains|
    ensures !Live(m) <==> m.count == |m.pages.frames| && forall p: nat :: !m.pages.Resident(p)
    ensures !Live(m) ==> forall k: nat :: m.chains[ProbeStep(i, k, |m.chains|)] == []
  {
    ProbeEnds(m.chains, i);
    if !AllEmpty(m.chains) {
      var b :| 0 <= b < |m.chains| && m.chains[b] != [];
      assert m.pages.Resident(m.chains[b][0]);
    }
  }

  lemma {:induction false} ProbeStepIs(i: nat, k: nat, n: nat)
    requires i < n && k < n
    ensures ProbeStep(i, k, n) == if i + k < n then i + k else i + k - n
  {
    if k > 0 {
      ProbeStepIs(i, k - 1, n);
    }
  }
}
