/**
 Which page a fault evicts, told from the sequence of calls alone. A run starts with nothing
 resident and goes through faults and flushes in any order. LRU and FIFO give up the resident page
 whose last fault is the earliest, FFIFO the one that was loaded first, LFU the one that faulted
 least often since it was loaded, and RAND the newest page of the first bucket, from the random one
 on, that has any. Nothing else is ever lost.
 */
module Victims {
  import opened Paging
  import opened Sequences
  import opened Ageing
  import Recency
  import Frequency
  import Probing
  import opened Hashing
  import V = VirtualMemory

  // ---------- runs ----------

  ghost predicate Resident(vm: V.Vm, p: nat) {
    V.View(vm).Resident(p)
  }

  /** One call takes s to t; `dice` is what rand() returns, should it be asked. */
  ghost predicate Stepped(s: V.Vm, call: Call, dice: nat, t: V.Vm) {
    && V.Inv(s)
    && match call
       case FaultOn(page) => V.Live(s) && page < |V.View(s).prot| && t == V.Fault(s, page, dice)
       case FlushAll => t == V.Flush(s)
  }

  /** The states that a sequence of calls goes through, from an empty table on. */
  ghost predicate Trail(states: seq<V.Vm>, calls: seq<Call>, dice: nat -> nat) {
    && |states| == |calls| + 1 && V.Inv(states[0]) && (forall p: nat :: !Resident(states[0], p))
    && forall i | 0 <= i < |calls| :: StepAt(states, calls, dice, i)
  }

  ghost predicate StepAt(states: seq<V.Vm>, calls: seq<Call>, dice: nat -> nat, i: nat)
    requires i < |calls| && |states| == |calls| + 1
  {
    Stepped(states[i], calls[i], dice(i), states[i + 1])
  }

  /** The position of the last fault on p among the first n calls, -1 if there is none. */
  function LastFault(calls: seq<Call>, p: nat, n: nat): (k: int)
    requires n <= |calls|
    ensures -1 <= k < n && (k >= 0 ==> calls[k] == FaultOn(p))
    ensures forall i | k < i < n :: calls[i] != FaultOn(p)
  {
    if n == 0 then -1 else if calls[n - 1] == FaultOn(p) then n - 1 else LastFault(calls, p, n - 1)
  }

  /** The position of the last fault on p that found it without a frame, -1 if there is none. */
  ghost function LastLoad(states: seq<V.Vm>, calls: seq<Call>, p: nat, n: nat): (k: int)
    requires n <= |calls| < |states|
    ensures -1 <= k < n && (k >= 0 ==> calls[k] == FaultOn(p) && !Resident(states[k], p))
    ensures forall i | k < i < n :: calls[i] == FaultOn(p) ==> Resident(states[i], p)
  {
    if n == 0 then -1
    else if calls[n - 1] == FaultOn(p) && !Resident(states[n - 1], p) then n - 1
    else LastLoad(states, calls, p, n - 1)
  }

  /** In t, the page has taken the place of v. */
  ghost predicate Replaced(s: Pages, page: nat, v: nat, t: Pages) {
    && s.Resident(v) && !s.Resident(page)
    && forall p: nat :: t.Resident(p) <==> p == page || (s.Resident(p) && p != v)
  }

  /** In t, no page is missing. */
  ghost predicate Added(s: Pages, page: nat, t: Pages) {
    forall p: nat :: t.Resident(p) <==> p == page || s.Resident(p)
  }

  // ---------- lists in the order of their keys ----------

  /** The page with the greatest key comes first. */
  ghost predicate Descending(order: seq<nat>, keys: seq<int>) {
    && (forall i | 0 <= i < |order| :: order[i] < |keys|)
    && forall i, j | 0 <= i < j < |order| :: keys[order[i]] > keys[order[j]]
  }

  lemma {:induction false} PutFirst(order: seq<nat>, keys: seq<int>, page: nat, n: int)
    requires Descending(order, keys) && page < |keys| && page !in order
    requires forall p | 0 <= p < |keys| :: keys[p] < n
    ensures Descending([page] + order, keys[page := n])
  {
    var next, keys' := [page] + order, keys[page := n];
    forall i, j | 0 <= i < j < |next|
      ensures keys'[next[i]] > keys'[next[j]]
    {
      assert next[j] == order[j - 1] && order[j - 1] in order;
      if i > 0 {
        assert next[i] == order[i - 1] && order[i - 1] in order;
      }
    }
  }

  lemma {:induction false} TakeOut(order: seq<nat>, keys: seq<int>, k: nat)
    requires Descending(order, keys) && k < |order|
    ensures Descending(Taken(order, k), keys)
  {
    var rest := Taken(order, k);
    forall i, j | 0 <= i < j < |rest|
      ensures keys[rest[i]] > keys[rest[j]]
    {
      assert rest[i] == order[if i < k then i else i + 1];
      assert rest[j] == order[if j < k then j else j + 1];
    }
  }

  /** The pages that faulted are moved or put to the front. */
  lemma {:induction false} ListKeys(m: Recency.Listed, page: nat, promote: bool, keys: seq<int>, n: int)
    requires Recency.Inv(m) && page < |m.pages.prot| == |keys|
    requires Descending(m.order, keys) && forall p | 0 <= p < |keys| :: keys[p] < n
    ensures Descending(Recency.Fault(m, page, promote).order,
                       if promote || !m.pages.Resident(page) then keys[page := n] else keys)
  {
    if m.pages.Resident(page) {
      var k :| 0 <= k < |m.order| && m.order[k] == page;
      WithoutAt(m.order, k);
      TakeOut(m.order, keys, k);
      TakenDistinct(m.order, k);
      if promote {
        PutFirst(Taken(m.order, k), keys, page, n);
      }
    } else {
      assert page !in m.order;
      if |m.order| < |m.pages.frames| {
        PutFirst(m.order, keys, page, n);
      } else {
        var last := |m.order| - 1;
        assert Descending(m.order[..last], keys);
        PutFirst(m.order[..last], keys, page, n);
      }
    }
  }

  /** Of the resident pages, v has the least key. */
  ghost predicate LeastKey(s: Pages, v: nat, keys: seq<int>) {
    v < |keys| && forall p: nat | s.Resident(p) && p != v :: p < |keys| && keys[v] < keys[p]
  }

  /** The last page of the list is the one whose key is the least. */
  lemma {:induction false} LastIsLeast(m: Recency.Listed, keys: seq<int>, p: nat)
    requires Recency.Inv(m) && Descending(m.order, keys) && m.pages.Resident(p) && p != m.order[|m.order| - 1]
    ensures m.order[|m.order| - 1] < |keys| && p < |keys| && keys[m.order[|m.order| - 1]] < keys[p]
  {
    var i :| 0 <= i < |m.order| && m.order[i] == p;
  }

  /** Who is resident after a fault. */
  lemma {:induction false} ListResidents(m: Recency.Listed, page: nat, promote: bool, p: nat)
    requires Recency.Inv(m) && page < |m.pages.prot|
    ensures var t := Recency.Fault(m, page, promote).pages;
            t.Resident(p) <==>
              p == page || (m.pages.Resident(p)
                            && (m.pages.Resident(page) || |m.order| < |m.pages.frames| || p != m.order[|m.order| - 1]))
  {
  }

  /** A page goes only if all frames are taken, and then the one with the least key. */
  lemma {:induction false} ListGoes(m: Recency.Listed, page: nat, promote: bool, keys: seq<int>) returns (v: nat)
    requires Recency.Inv(m) && page < |m.pages.prot| && Descending(m.order, keys)
    ensures var t := Recency.Fault(m, page, promote).pages;
            if !m.pages.Resident(page) && |m.order| == |m.pages.frames|
            then Replaced(m.pages, page, v, t) && LeastKey(m.pages, v, keys)
            else Added(m.pages, page, t)
  {
    v := if m.order == [] then 0 else m.order[|m.order| - 1];
    forall p: nat {
      ListResidents(m, page, promote, p);
    }
    if m.order != [] {
      forall p: nat | m.pages.Resident(p) && p != v
        ensures p < |keys| && keys[v] < keys[p]
      {
        LastIsLeast(m, keys, p);
      }
    }
  }

  lemma {:induction false} OrderSize(m: Recency.Listed, held: set<nat>)
    requires Recency.Inv(m) && forall p: nat :: p in held <==> m.pages.Resident(p)
    ensures |m.order| == |held|
  {
    DistinctSize(m.order);
    assert Elements(m.order) == held by {
      assert forall i | 0 <= i < |m.order| :: m.order[i] in held;
    }
  }

  // ---------- keys from the calls ----------

  function FaultKeys(calls: seq<Call>, size: nat, n: nat): (keys: seq<int>)
    requires n <= |calls|
    ensures |keys| == size && forall p | 0 <= p < size :: keys[p] == LastFault(calls, p, n) < n
  {
    seq(size, p requires 0 <= p < size => LastFault(calls, p, n))
  }

  ghost function LoadKeys(states: seq<V.Vm>, calls: seq<Call>, size: nat, n: nat): (keys: seq<int>)
    requires n <= |calls| < |states|
    ensures |keys| == size && forall p | 0 <= p < size :: keys[p] == LastLoad(states, calls, p, n) < n
  {
    seq(size, p requires 0 <= p < size => LastLoad(states, calls, p, n))
  }

  lemma {:induction false} FaultKeysStep(calls: seq<Call>, size: nat, n: nat)
    requires n < |calls| && (calls[n].FaultOn? ==> calls[n].page < size)
    ensures FaultKeys(calls, size, n + 1)
         == if calls[n].FaultOn? then FaultKeys(calls, size, n)[calls[n].page := n] else FaultKeys(calls, size, n)
  {
  }

  lemma {:induction false} LoadKeysStep(states: seq<V.Vm>, calls: seq<Call>, size: nat, n: nat)
    requires n < |calls| < |states| && (calls[n].FaultOn? ==> calls[n].page < size)
    ensures LoadKeys(states, calls, size, n + 1)
         == if calls[n].FaultOn? && !Resident(states[n], calls[n].page)
            then LoadKeys(states, calls, size, n)[calls[n].page := n]
            else LoadKeys(states, calls, size, n)
  {
  }

  // ---------- every state of a run ----------

  lemma {:induction false} StepKeeps(s: V.Vm, call: Call, dice: nat, t: V.Vm)
    requires Stepped(s, call, dice, t)
    ensures V.Inv(t) && V.SameShape(s, t)
    ensures call.FlushAll? ==> forall p: nat :: !Resident(t, p)
  {
    match call
    case FaultOn(page) => V.FaultKeeps(s, page, dice);
    case FlushAll => V.FlushKeeps(s);
  }

  lemma {:induction false} TrailKeeps(states: seq<V.Vm>, calls: seq<Call>, dice: nat -> nat, n: nat)
    requires Trail(states, calls, dice) && n <= |calls|
    ensures V.Inv(states[n]) && V.SameShape(states[0], states[n])
  {
    if n > 0 {
      TrailKeeps(states, calls, dice, n - 1);
      TrailStep(states, calls, dice, n - 1, n);
      StepShape(states[0], states[n - 1], calls[n - 1], dice(n - 1), states[n]);
    }
  }

  lemma {:induction false} TrailStep(states: seq<V.Vm>, calls: seq<Call>, dice: nat -> nat, n: nat, n': nat)
    requires Trail(states, calls, dice) && n < n' == n + 1 <= |calls|
    ensures Stepped(states[n], calls[n], dice(n), states[n'])
  {
    assert StepAt(states, calls, dice, n);
  }

  lemma {:induction false} StepShape(first: V.Vm, s: V.Vm, call: Call, dice: nat, t: V.Vm)
    requires V.SameShape(first, s) && Stepped(s, call, dice, t)
    ensures V.Inv(t) && V.SameShape(first, t)
  {
    StepKeeps(s, call, dice, t);
  }

  // ---------- LRU and FIFO ----------

  /** The list that the handler keeps, or that its ages stand for. */
  ghost predicate Lists(vm: V.Vm, l: Recency.Listed) {
    match vm
    case Lru(m) => m == l && Recency.Inv(l)
    case Ffifo(m) => m == l && Recency.Inv(l)
    case Fifo(m) => Matches(m, l)
    case Lfu(_) => false
    case Rand(_) => false
  }

  lemma {:induction false} NoneListed(vm: V.Vm) returns (l: Recency.Listed)
    requires V.Inv(vm) && (vm.Lru? || vm.Ffifo? || vm.Fifo?) && forall p: nat :: !Resident(vm, p)
    ensures Lists(vm, l) && l.order == [] && l.pages == V.View(vm)
  {
    match vm {
      case Lru(m) => l := m;
      case Ffifo(m) => l := m;
      case Fifo(m) => l :| Matches(m, l);
    }
    if l.order != [] {
      assert l.pages.Resident(l.order[0]);
      assert Resident(vm, l.order[0]);
    }
  }

  lemma {:induction false} ListFaults(s: V.Vm, l: Recency.Listed, page: nat, dice: nat)
    requires Lists(s, l) && V.Inv(s) && page < |V.View(s).prot|
    ensures l.pages == V.View(s) && Recency.Inv(l)
    ensures Lists(V.Fault(s, page, dice), Recency.Fault(l, page, !s.Ffifo?))
    ensures V.View(V.Fault(s, page, dice)) == Recency.Fault(l, page, !s.Ffifo?).pages
  {
    if s.Fifo? {
      FaultMatches(s.aged, l, page);
    } else {
      Recency.FaultKeeps(l, page, !s.Ffifo?);
    }
  }

  /** The keys that a policy's list is ordered by. */
  ghost function Keys(states: seq<V.Vm>, calls: seq<Call>, n: nat): (keys: seq<int>)
    requires n <= |calls| < |states|
    ensures |keys| == |V.View(states[0]).prot| && forall p | 0 <= p < |keys| :: keys[p] < n
  {
    if states[0].Ffifo? then LoadKeys(states, calls, |V.View(states[0]).prot|, n)
    else FaultKeys(calls, |V.View(states[0]).prot|, n)
  }

  lemma {:induction false} KeysStep(states: seq<V.Vm>, calls: seq<Call>, n: nat)
    requires n < |calls| < |states| && (calls[n].FaultOn? ==> calls[n].page < |V.View(states[0]).prot|)
    ensures Keys(states, calls, n + 1)
         == if calls[n].FaultOn? && (!states[0].Ffifo? || !Resident(states[n], calls[n].page))
            then Keys(states, calls, n)[calls[n].page := n]
            else Keys(states, calls, n)
  {
    FaultKeysStep(calls, |V.View(states[0]).prot|, n);
    LoadKeysStep(states, calls, |V.View(states[0]).prot|, n);
  }

  ghost predicate InOrder(vm: V.Vm, l: Recency.Listed, keys: seq<int>) {
    Lists(vm, l) && l.pages == V.View(vm) && Descending(l.order, keys)
  }

  /** Keys that follow each other by the calls. */
  ghost predicate Follow(states: seq<V.Vm>, calls: seq<Call>, keys: seq<seq<int>>) {
    && |states| == |keys| == |calls| + 1
    && (forall n | 0 <= n < |keys| :: Below(keys[n], |V.View(states[0]).prot|, n))
    && (forall n | 0 <= n < |calls| :: FollowAt(states, calls, keys, n))
  }

  ghost predicate FollowAt(states: seq<V.Vm>, calls: seq<Call>, keys: seq<seq<int>>, n: nat)
    requires n < |calls| && |states| == |keys| == |calls| + 1
  {
    if calls[n].FaultOn? && (!states[0].Ffifo? || !Resident(states[n], calls[n].page))
    then calls[n].page < |keys[n]| ==> keys[n + 1] == keys[n][calls[n].page := n]
    else keys[n + 1] == keys[n]
  }

  ghost predicate Below(keys: seq<int>, size: nat, n: int) {
    |keys| == size && forall p | 0 <= p < size :: keys[p] < n
  }

  /** At every moment the list is in the order of the keys. */
  lemma {:induction false} ListFollows(states: seq<V.Vm>, calls: seq<Call>, dice: nat -> nat, keys: seq<seq<int>>,
                                       n: nat)
    requires Trail(states, calls, dice) && Follow(states, calls, keys) && n <= |calls|
    requires states[0].Lru? || states[0].Ffifo? || states[0].Fifo?
    ensures exists l :: InOrder(states[n], l, keys[n])
  {
    if n == 0 {
      var l := NoneListed(states[0]);
      assert InOrder(states[0], l, keys[0]);
    } else {
      ListFollows(states, calls, dice, keys, n - 1);
      var before :| InOrder(states[n - 1], before, keys[n - 1]);
      var l := ListFollowsNext(states, calls, dice, keys, n - 1, n, before);
    }
  }

  lemma {:induction false} ListFollowsNext(states: seq<V.Vm>, calls: seq<Call>, dice: nat -> nat, keys: seq<seq<int>>,
                                           n: nat, n': nat, l: Recency.Listed)
    returns (next: Recency.Listed)
    requires Trail(states, calls, dice) && Follow(states, calls, keys) && n < n' == n + 1 <= |calls|
    requires InOrder(states[n], l, keys[n])
    ensures InOrder(states[n'], next, keys[n'])
  {
    TrailKeeps(states, calls, dice, n);
    TrailStep(states, calls, dice, n, n');
    assert Below(keys[n], |V.View(states[0]).prot|, n) && FollowAt(states, calls, keys, n);
    next := ListNext(states[0], states[n], calls[n], dice(n), states[n'], l, keys[n], keys[n'], n);
  }

  lemma {:induction false} ListNext(first: V.Vm, s: V.Vm, call: Call, dice: nat, t: V.Vm, l: Recency.Listed,
                                    keys: seq<int>, keys': seq<int>, n: int)
    returns (next: Recency.Listed)
    requires V.SameShape(first, s) && Stepped(s, call, dice, t) && InOrder(s, l, keys)
    requires Below(keys, |V.View(first).prot|, n)
    requires keys' == if call.FaultOn? && (!first.Ffifo? || !Resident(s, call.page)) then keys[call.page := n] else keys
    ensures InOrder(t, next, keys')
  {
    match call {
      case FaultOn(page) =>
        next := Recency.Fault(l, page, !s.Ffifo?);
        ListFaults(s, l, page, dice);
        ListKeys(l, page, !s.Ffifo?, keys, n);
      case FlushAll =>
        StepKeeps(s, call, dice, t);
        next := NoneListed(t);
    }
  }

  lemma {:induction false} ListOrdered(states: seq<V.Vm>, calls: seq<Call>, dice: nat -> nat, n: nat)
    returns (l: Recency.Listed)
    requires Trail(states, calls, dice) && n <= |calls|
    requires states[0].Lru? || states[0].Ffifo? || states[0].Fifo?
    ensures InOrder(states[n], l, Keys(states, calls, n))
  {
    var keys := seq(|states|, i requires 0 <= i <= |calls| => Keys(states, calls, i));
    forall i | 0 <= i < |calls|
      ensures FollowAt(states, calls, keys, i)
    {
      if calls[i].FaultOn? ==> calls[i].page < |keys[i]| {
        KeysStep(states, calls, i);
      } else {
        TrailKeeps(states, calls, dice, i);
        TrailStep(states, calls, dice, i, i + 1);
      }
    }
    ListFollows(states, calls, dice, keys, n);
    l :| InOrder(states[n], l, keys[n]);
  }

  /** A fault that finds every frame taken. */
  ghost predicate Full(vm: V.Vm, page: nat) {
    !Resident(vm, page) && |V.Held(vm)| == |V.View(vm).frames|
  }

  /** Under LRU, FIFO and FFIFO a page is lost only to a fault that finds every frame taken, and then
      it is the one with the least key. */
  lemma {:induction false} LeastGoes(states: seq<V.Vm>, calls: seq<Call>, dice: nat -> nat, n: nat) returns (v: nat)
    requires Trail(states, calls, dice) && n < |calls| && calls[n].FaultOn?
    requires states[0].Lru? || states[0].Ffifo? || states[0].Fifo?
    ensures if Full(states[n], calls[n].page)
            then && Replaced(V.View(states[n]), calls[n].page, v, V.View(states[n + 1]))
                 && LeastKey(V.View(states[n]), v, Keys(states, calls, n))
            else Added(V.View(states[n]), calls[n].page, V.View(states[n + 1]))
  {
    var l := ListOrdered(states, calls, dice, n);
    TrailKeeps(states, calls, dice, n);
    TrailStep(states, calls, dice, n, n + 1);
    v := StepGoes(states[n], calls[n].page, dice(n), states[n + 1], l, Keys(states, calls, n));
  }

  lemma {:induction false} StepGoes(s: V.Vm, page: nat, dice: nat, t: V.Vm, l: Recency.Listed, keys: seq<int>)
    returns (v: nat)
    requires Stepped(s, FaultOn(page), dice, t) && InOrder(s, l, keys)
    ensures if Full(s, page) then Replaced(V.View(s), page, v, V.View(t)) && LeastKey(V.View(s), v, keys)
            else Added(V.View(s), page, V.View(t))
  {
    ListFaults(s, l, page, dice);
    HeldSize(s, l);
    v := ListGoes(l, page, !s.Ffifo?, keys);
  }

  lemma {:induction false} HeldSize(s: V.Vm, l: Recency.Listed)
    requires l.pages == V.View(s) && Recency.Inv(l)
    ensures |V.Held(s)| == |l.order|
  {
    OrderSize(l, V.Held(s));
  }

  /** LRU and FIFO: the page that goes is the one whose last fault is the earliest. */
  lemma {:induction false} LeastRecentGoes(states: seq<V.Vm>, calls: seq<Call>, dice: nat -> nat, n: nat)
    returns (v: nat)
    requires Trail(states, calls, dice) && n < |calls| && calls[n].FaultOn?
    requires states[0].Lru? || states[0].Fifo?
    ensures if !Resident(states[n], calls[n].page) && |V.Held(states[n])| == |V.View(states[n]).frames|
            then && Replaced(V.View(states[n]), calls[n].page, v, V.View(states[n + 1]))
                 && forall p: nat | Resident(states[n], p) && p != v ::
                      LastFault(calls, v, n) < LastFault(calls, p, n)
            else Added(V.View(states[n]), calls[n].page, V.View(states[n + 1]))
  {
    v := LeastGoes(states, calls, dice, n);
  }

  /** FFIFO: the page that goes is the one that was loaded first. */
  lemma {:induction false} FirstLoadedGoes(states: seq<V.Vm>, calls: seq<Call>, dice: nat -> nat, n: nat)
    returns (v: nat)
    requires Trail(states, calls, dice) && n < |calls| && calls[n].FaultOn? && states[0].Ffifo?
    ensures if !Resident(states[n], calls[n].page) && |V.Held(states[n])| == |V.View(states[n]).frames|
            then && Replaced(V.View(states[n]), calls[n].page, v, V.View(states[n + 1]))
                 && forall p: nat | Resident(states[n], p) && p != v ::
                      LastLoad(states, calls, v, n) < LastLoad(states, calls, p, n)
            else Added(V.View(states[n]), calls[n].page, V.View(states[n + 1]))
  {
    v := LeastGoes(states, calls, dice, n);
  }

  // ---------- RAND ----------

  /** How many of the first n calls found their page without a frame. */
  ghost function Loads(states: seq<V.Vm>, calls: seq<Call>, n: nat): (c: nat)
    requires n <= |calls| < |states|
  {
    if n == 0 then 0
    else Loads(states, calls, n - 1)
         + if calls[n - 1].FaultOn? && !Resident(states[n - 1], calls[n - 1].page) then 1 else 0
  }

  /** In every bucket the newest page comes first, and the counter stops at the number of frames. */
  ghost predicate Bucketed(m: Probing.Hashed, keys: seq<int>, loads: nat) {
    && (forall b | 0 <= b < |m.chains| :: Descending(m.chains[b], keys))
    && m.count == if loads < |m.pages.frames| then loads else |m.pages.frames|
  }

  lemma {:induction false} OthersStay(order: seq<nat>, keys: seq<int>, page: nat, n: int)
    requires Descending(order, keys) && page < |keys| && page !in order
    ensures Descending(order, keys[page := n])
  {
    assert forall i | 0 <= i < |order| :: order[i] in order;
  }

  lemma {:induction false} Inserts(chains: seq<seq<nat>>, keys: seq<int>, page: nat, n: int)
    requires |chains| > 0 && page < |keys| && forall p | 0 <= p < |keys| :: keys[p] < n
    requires forall b | 0 <= b < |chains| :: Descending(chains[b], keys) && page !in chains[b]
    ensures forall b | 0 <= b < |chains| :: Descending(Probing.Insert(chains, page)[b], keys[page := n])
  {
    forall b | 0 <= b < |chains|
      ensures Descending(Probing.Insert(chains, page)[b], keys[page := n])
    {
      PutFirst(chains[b], keys, page, n);
      OthersStay(chains[b], keys, page, n);
    }
  }

  lemma {:induction false} Deletes(chains: seq<seq<nat>>, keys: seq<int>, b: nat)
    requires b < |chains| && chains[b] != [] && HashOf(chains[b][0], |chains|) == b
    requires forall c | 0 <= c < |chains| :: Descending(chains[c], keys)
    ensures forall c | 0 <= c < |chains| :: Descending(Probing.Delete(chains, chains[b][0])[c], keys)
    ensures Probing.Delete(chains, chains[b][0]) == chains[b := chains[b][1..]]
  {
  }

  lemma {:induction false} HashedKeys(m: Probing.Hashed, page: nat, dice: nat, keys: seq<int>, loads: nat, n: int)
    requires Probing.Inv(m) && Probing.Live(m) && page < |m.pages.prot| == |keys|
    requires Bucketed(m, keys, loads) && forall p | 0 <= p < |keys| :: keys[p] < n
    ensures var r := m.pages.Resident(page);
            Bucketed(Probing.Fault(m, page, dice), if r then keys else keys[page := n], if r then loads else loads + 1)
  {
    if !m.pages.Resident(page) {
      assert forall b | 0 <= b < |m.chains| :: page !in m.chains[b];
      if m.count < |m.pages.frames| {
        Inserts(m.chains, keys, page, n);
      } else {
        var b := Probing.Probe(m.chains, dice % |m.chains|);
        Deletes(m.chains, keys, b);
        Inserts(m.chains[b := m.chains[b][1..]], keys, page, n);
      }
    }
  }

  lemma {:induction false} NoneHashed(vm: V.Vm, keys: seq<int>, loads: nat)
    requires V.Inv(vm) && vm.Rand? && forall p: nat :: !Resident(vm, p)
    requires vm.hashed.count == if loads < |V.View(vm).frames| then loads else |V.View(vm).frames|
    ensures Bucketed(vm.hashed, keys, loads)
  {
    forall b | 0 <= b < |vm.hashed.chains|
      ensures vm.hashed.chains[b] == []
    {
      if vm.hashed.chains[b] != [] {
        assert Resident(vm, vm.hashed.chains[b][0]);
      }
    }
  }

  ghost predicate InBuckets(states: seq<V.Vm>, calls: seq<Call>, n: nat)
    requires n <= |calls| < |states|
  {
    && states[n].Rand?
    && Bucketed(states[n].hashed, LoadKeys(states, calls, |V.View(states[0]).prot|, n), Loads(states, calls, n))
  }

  lemma {:induction false} HashedOrdered(states: seq<V.Vm>, calls: seq<Call>, dice: nat -> nat, n: nat)
    requires Trail(states, calls, dice) && n <= |calls| && states[0].Rand? && states[0].hashed.count == 0
    ensures InBuckets(states, calls, n)
  {
    if n == 0 {
      V.InvShape(states[0]);
      NoneHashed(states[0], LoadKeys(states, calls, |V.View(states[0]).prot|, n), 0);
    } else {
      TrailKeeps(states, calls, dice, n - 1);
      HashedOrdered(states, calls, dice, n - 1);
      TrailStep(states, calls, dice, n - 1, n);
      HashedNext(states, calls, n - 1, n, dice(n - 1));
    }
  }

  lemma {:induction false} HashedNext(states: seq<V.Vm>, calls: seq<Call>, n: nat, n': nat, dice: nat)
    requires n < n' == n + 1 <= |calls| && |states| == |calls| + 1 && V.SameShape(states[0], states[n])
    requires Stepped(states[n], calls[n], dice, states[n']) && InBuckets(states, calls, n)
    ensures InBuckets(states, calls, n')
  {
    var size := |V.View(states[0]).prot|;
    LoadKeysStep(states, calls, size, n);
    match calls[n] {
      case FaultOn(page) =>
        HashedKeys(states[n].hashed, page, dice, LoadKeys(states, calls, size, n), Loads(states, calls, n), n);
      case FlushAll =>
        StepKeeps(states[n], calls[n], dice, states[n']);
        Probing.FlushToKeeps(states[n].hashed, |states[n].hashed.chains|);
        NoneHashed(states[n'], LoadKeys(states, calls, size, n'), Loads(states, calls, n'));
    }
  }

  /** Of two pages, v is in the nearer bucket, or the newer one in the same. */
  ghost predicate Sooner(v: nat, p: nat, dice: nat, f: nat, keys: seq<int>)
    requires f > 0 && v < |keys| && p < |keys|
  {
    var i, a, b := HashOf(dice, f), HashOf(v, f), HashOf(p, f);
    Probing.Away(i, a, f) < Probing.Away(i, b, f) || (a == b && keys[p] < keys[v])
  }

  lemma {:induction false} HeadSooner(m: Probing.Hashed, dice: nat, keys: seq<int>, p: nat)
    requires Probing.Inv(m) && !Probing.AllEmpty(m.chains) && |m.pages.prot| == |keys|
    requires forall b | 0 <= b < |m.chains| :: Descending(m.chains[b], keys)
    requires m.pages.Resident(p) && p != m.chains[Probing.Probe(m.chains, HashOf(dice, |m.chains|))][0]
    ensures var v := m.chains[Probing.Probe(m.chains, HashOf(dice, |m.chains|))][0];
            v < |keys| && Sooner(v, p, dice, |m.chains|, keys)
  {
    var i, b := HashOf(dice, |m.chains|), HashOf(p, |m.chains|);
    Probing.ProbeNearest(m.chains, i, b);
    var k :| 0 <= k < |m.chains[b]| && m.chains[b][k] == p;
  }

  /** The victim is in the nearest bucket, and the newest there. */
  lemma {:induction false} HashedGoes(m: Probing.Hashed, page: nat, dice: nat, keys: seq<int>, loads: nat)
    returns (v: nat)
    requires Probing.Inv(m) && Probing.Live(m) && page < |m.pages.prot| == |keys| && Bucketed(m, keys, loads)
    ensures |m.pages.frames| > 0
    ensures var t := Probing.Fault(m, page, dice).pages;
            if !m.pages.Resident(page) && loads >= |m.pages.frames|
            then && Replaced(m.pages, page, v, t) && v < |keys|
                 && forall p: nat | m.pages.Resident(p) && p != v ::
                      p < |keys| && Sooner(v, p, dice, |m.pages.frames|, keys)
            else Added(m.pages, page, t)
  {
    v := 0;
    if !m.pages.Resident(page) && loads >= |m.pages.frames| {
      v := m.chains[Probing.Probe(m.chains, HashOf(dice, |m.chains|))][0];
      assert m.pages.Resident(v);
      Probing.ReplaceResidents(m.pages, page, v);
      forall p: nat | m.pages.Resident(p) && p != v
        ensures p < |keys| && Sooner(v, p, dice, |m.pages.frames|, keys)
      {
        HeadSooner(m, dice, keys, p);
      }
    }
  }

  /** Pages are in buckets by their remainder. Going round from the random bucket, v's comes before
      p's, or they are in the same bucket and v is the newer one. */
  predicate Nearer(v: nat, p: nat, dice: nat, f: nat, newer: bool)
    requires f > 0
  {
    (v % f + f - dice % f) % f < (p % f + f - dice % f) % f || (v % f == p % f && newer)
  }

  lemma {:induction false} SoonerIs(v: nat, p: nat, dice: nat, f: nat, keys: seq<int>)
    requires f > 0 && v < |keys| && p < |keys| && Sooner(v, p, dice, f, keys)
    ensures Nearer(v, p, dice, f, keys[p] < keys[v])
  {
    var x, y := Probing.Away(HashOf(dice, f), HashOf(v, f), f), Probing.Away(HashOf(dice, f), HashOf(p, f), f);
  }

  lemma {:induction false} RandomStep(s: V.Vm, page: nat, dice: nat, t: V.Vm, keys: seq<int>, loads: nat)
    returns (v: nat)
    requires Stepped(s, FaultOn(page), dice, t) && s.Rand? && |V.View(s).prot| == |keys|
    requires Bucketed(s.hashed, keys, loads)
    ensures |V.View(s).frames| > 0
    ensures var f := |V.View(s).frames|;
            if !Resident(s, page) && loads >= f
            then && Replaced(V.View(s), page, v, V.View(t)) && v < |keys|
                 && forall p: nat | Resident(s, p) && p != v :: p < |keys| && Sooner(v, p, dice, f, keys)
            else Added(V.View(s), page, V.View(t))
  {
    v := HashedGoes(s.hashed, page, dice, keys, loads);
  }

  /** RAND: once as many loads as frames have been made, a load evicts a page. Going round from the
      random bucket, it is in the first bucket that has any, and was loaded last of those there. */
  lemma {:induction false} RandomGoes(states: seq<V.Vm>, calls: seq<Call>, dice: nat -> nat, n: nat) returns (v: nat)
    requires Trail(states, calls, dice) && n < |calls| && calls[n].FaultOn?
    requires states[0].Rand? && states[0].hashed.count == 0
    ensures |V.View(states[n]).frames| > 0
    ensures var f := |V.View(states[n]).frames|;
            if !Resident(states[n], calls[n].page) && Loads(states, calls, n) >= f
            then && Replaced(V.View(states[n]), calls[n].page, v, V.View(states[n + 1]))
                 && forall p: nat | Resident(states[n], p) && p != v ::
                      Nearer(v, p, dice(n), f, LastLoad(states, calls, p, n) < LastLoad(states, calls, v, n))
            else Added(V.View(states[n]), calls[n].page, V.View(states[n + 1]))
  {
    var keys := LoadKeys(states, calls, |V.View(states[0]).prot|, n);
    TrailKeeps(states, calls, dice, n);
    HashedOrdered(states, calls, dice, n);
    TrailStep(states, calls, dice, n, n + 1);
    v := RandomStep(states[n], calls[n].page, dice(n), states[n + 1], keys, Loads(states, calls, n));
    var f := |V.View(states[n]).frames|;
    if !Resident(states[n], calls[n].page) && Loads(states, calls, n) >= f {
      forall p: nat | Resident(states[n], p) && p != v
        ensures Nearer(v, p, dice(n), f, LastLoad(states, calls, p, n) < LastLoad(states, calls, v, n))
      {
        SoonerIs(v, p, dice(n), f, keys);
      }
    }
  }

  // ---------- LFU ----------

  /** How many of the calls from a up to n are faults on p. */
  function FaultsIn(calls: seq<Call>, p: nat, a: int, n: nat): (c: nat)
    requires n <= |calls|
  {
    if n == 0 || n <= a then 0 else FaultsIn(calls, p, a, n - 1) + if calls[n - 1] == FaultOn(p) then 1 else 0
  }

  /** How often p has faulted since it was last loaded, the load included. */
  ghost function Uses(states: seq<V.Vm>, calls: seq<Call>, p: nat, n: nat): (c: nat)
    requires n <= |calls| < |states|
  {
    FaultsIn(calls, p, LastLoad(states, calls, p, n), n)
  }

  lemma {:induction false} UsesStep(states: seq<V.Vm>, calls: seq<Call>, p: nat, n: nat)
    requires n < |calls| < |states|
    ensures Uses(states, calls, p, n + 1)
         == if calls[n] != FaultOn(p) then Uses(states, calls, p, n)
            else if Resident(states[n], p) then Uses(states, calls, p, n) + 1 else 1
    ensures LastFault(calls, p, n + 1) == if calls[n] == FaultOn(p) then n else LastFault(calls, p, n)
  {
    var a, b := LastLoad(states, calls, p, n), LastLoad(states, calls, p, n + 1);
    assert FaultsIn(calls, p, b, n + 1)
        == FaultsIn(calls, p, b, n) + if calls[n] == FaultOn(p) then 1 else 0;
    if calls[n] == FaultOn(p) && !Resident(states[n], p) {
      assert b == n && FaultsIn(calls, p, b, n) == 0;
    } else {
      assert b == a;
    }
  }

  /** The table that the handler's buckets stand for, read off the calls. */
  ghost predicate Tabled(states: seq<V.Vm>, calls: seq<Call>, n: nat, table: map<nat, Frequency.Use>)
    requires n <= |calls| < |states|
  {
    && states[n].Lfu? && Frequency.Matches(states[n].ranked.buckets, table, n)
    && forall p | p in table :: Recorded(states, calls, p, n, table[p])
  }

  ghost predicate Recorded(states: seq<V.Vm>, calls: seq<Call>, p: nat, n: nat, use: Frequency.Use)
    requires n <= |calls| < |states|
  {
    use.uses + 1 == Uses(states, calls, p, n) && use.stamp == LastFault(calls, p, n)
  }

  lemma {:induction false} NoneRanked(vm: V.Vm, n: nat)
    requires V.Inv(vm) && vm.Lfu? && forall p: nat :: !Resident(vm, p)
    ensures Frequency.Matches(vm.ranked.buckets, map[], n)
  {
    var bs := vm.ranked.buckets;
    if bs != [] {
      assert bs[0].pages[0] in Frequency.PageSet(bs);
      assert Resident(vm, bs[0].pages[0]);
    }
  }

  lemma {:induction false} RankedTable(states: seq<V.Vm>, calls: seq<Call>, dice: nat -> nat, n: nat)
    requires Trail(states, calls, dice) && n <= |calls| && states[0].Lfu?
    ensures exists table :: Tabled(states, calls, n, table)
  {
    if n == 0 {
      RankedStart(states, calls, dice, n);
    } else {
      RankedTable(states, calls, dice, n - 1);
      var before :| Tabled(states, calls, n - 1, before);
      TrailStep(states, calls, dice, n - 1, n);
      var table := RankedNext(states, calls, n - 1, n, dice(n - 1), before);
    }
  }

  lemma {:induction false} RankedStart(states: seq<V.Vm>, calls: seq<Call>, dice: nat -> nat, n: nat)
    requires Trail(states, calls, dice) && states[0].Lfu? && n == 0
    ensures Tabled(states, calls, n, map[])
  {
    NoneRanked(states[0], n);
  }

  lemma {:induction false} RankedNext(states: seq<V.Vm>, calls: seq<Call>, n: nat, n': nat, dice: nat,
                                      table: map<nat, Frequency.Use>)
    returns (next: map<nat, Frequency.Use>)
    requires n < n' == n + 1 <= |calls| && |states| == |calls| + 1
    requires Stepped(states[n], calls[n], dice, states[n']) && Tabled(states, calls, n, table)
    ensures Tabled(states, calls, n', next)
  {
    match calls[n] {
      case FaultOn(page) =>
        next := Frequency.FaultRanks(states[n].ranked, page, table, n);
        TableEntries(states, calls, n, n', table, next);
      case FlushAll =>
        StepKeeps(states[n], calls[n], dice, states[n']);
        NoneRanked(states[n'], n');
        next := map[];
    }
  }

  lemma {:induction false} InTable(vm: V.Vm, table: map<nat, Frequency.Use>, n: nat, p: nat)
    requires V.Inv(vm) && vm.Lfu? && Frequency.Matches(vm.ranked.buckets, table, n)
    ensures p in table <==> Resident(vm, p)
  {
    assert p in Frequency.PageSet(vm.ranked.buckets) <==> vm.ranked.pages.Resident(p);
  }

  lemma {:induction false} TableEntries(states: seq<V.Vm>, calls: seq<Call>, n: nat, n': nat,
                                        table: map<nat, Frequency.Use>, next: map<nat, Frequency.Use>)
    requires n < n' == n + 1 <= |calls| < |states| && calls[n].FaultOn? && V.Inv(states[n])
    requires Tabled(states, calls, n, table)
    requires Frequency.TableFault(table, n, calls[n].page, |V.View(states[n]).frames|, next)
    ensures forall p | p in next :: Recorded(states, calls, p, n', next[p])
  {
    forall p | p in next
      ensures Recorded(states, calls, p, n', next[p])
    {
      InTable(states[n], table, n, p);
      TableEntry(table, n, calls[n].page, |V.View(states[n]).frames|, next, p);
      assert p in table ==> Recorded(states, calls, p, n, table[p]);
      UsesStep(states, calls, p, n);
    }
  }

  /** What a fault does to one entry. */
  lemma {:induction false} TableEntry(table: map<nat, Frequency.Use>, n: nat, page: nat, frames: nat,
                                      next: map<nat, Frequency.Use>, p: nat)
    requires Frequency.TableFault(table, n, page, frames, next) && p in next
    ensures if p != page then p in table && next[p] == table[p]
            else next[p] == Frequency.Use(if p in table then table[p].uses + 1 else 0, n)
  {
  }

  /** v has faulted less often than p since it was loaded, or as often and its last fault is earlier. */
  ghost predicate UsedLess(states: seq<V.Vm>, calls: seq<Call>, v: nat, p: nat, n: nat)
    requires n <= |calls| < |states|
  {
    var cv, cp := Uses(states, calls, v, n), Uses(states, calls, p, n);
    cv < cp || (cv == cp && LastFault(calls, v, n) < LastFault(calls, p, n))
  }

  /** LFU: the page that goes is the one that faulted least often since it was loaded, and of those
      the one whose last fault is the earliest. */
  lemma {:induction false} LeastUsedGoes(states: seq<V.Vm>, calls: seq<Call>, dice: nat -> nat, n: nat) returns (v: nat)
    requires Trail(states, calls, dice) && n < |calls| && calls[n].FaultOn? && states[0].Lfu?
    ensures if !Resident(states[n], calls[n].page) && |V.Held(states[n])| == |V.View(states[n]).frames|
            then && Replaced(V.View(states[n]), calls[n].page, v, V.View(states[n + 1]))
                 && forall p: nat | Resident(states[n], p) && p != v :: UsedLess(states, calls, v, p, n)
            else Added(V.View(states[n]), calls[n].page, V.View(states[n + 1]))
  {
    RankedTable(states, calls, dice, n);
    var table :| Tabled(states, calls, n, table);
    TrailStep(states, calls, dice, n, n + 1);
    v := RankedGoes(states[n], calls[n].page, dice(n), states[n + 1], table, n);
    if Full(states[n], calls[n].page) {
      forall p: nat | Resident(states[n], p) && p != v
        ensures UsedLess(states, calls, v, p, n)
      {
        InTable(states[n], table, n, p);
        LeastIsUsedLess(states, calls, n, table, v, p);
      }
    }
  }

  lemma {:induction false} LeastIsUsedLess(states: seq<V.Vm>, calls: seq<Call>, n: nat, table: map<nat, Frequency.Use>,
                                           v: nat, p: nat)
    requires n <= |calls| < |states| && Tabled(states, calls, n, table)
    requires Frequency.IsLeast(table, v) && p in table && p != v
    ensures UsedLess(states, calls, v, p, n)
  {
    assert Recorded(states, calls, v, n, table[v]) && Recorded(states, calls, p, n, table[p]);
  }

  lemma {:induction false} RankedGoes(s: V.Vm, page: nat, dice: nat, t: V.Vm, table: map<nat, Frequency.Use>, n: nat)
    returns (v: nat)
    requires Stepped(s, FaultOn(page), dice, t) && s.Lfu? && Frequency.Matches(s.ranked.buckets, table, n)
    ensures if Full(s, page) then Replaced(V.View(s), page, v, V.View(t)) && Frequency.IsLeast(table, v)
            else Added(V.View(s), page, V.View(t))
  {
    var next := Frequency.FaultRanks(s.ranked, page, table, n);
    StepKeeps(s, FaultOn(page), dice, t);
    TableIsHeld(s, table, n);
    TableIsHeld(t, next, n + 1);
    v := TableGoes(V.View(s), V.View(t), table, next, n, page);
  }

  /** The table has the resident pages. */
  lemma {:induction false} TableIsHeld(vm: V.Vm, table: map<nat, Frequency.Use>, n: nat)
    requires V.Inv(vm) && vm.Lfu? && Frequency.Matches(vm.ranked.buckets, table, n)
    ensures (forall p: nat :: p in table <==> V.View(vm).Resident(p))
    ensures |table| == |V.Held(vm)| <= |V.View(vm).frames|
  {
    Frequency.TotalIsSize(vm.ranked.buckets);
    forall p: nat
      ensures p in table <==> V.View(vm).Resident(p)
    {
      InTable(vm, table, n, p);
    }
    assert table.Keys == V.Held(vm);
  }

  lemma {:induction false} TableGoes(s: Pages, t: Pages, table: map<nat, Frequency.Use>, next: map<nat, Frequency.Use>,
                                     n: nat, page: nat)
    returns (v: nat)
    requires forall p: nat :: p in table <==> s.Resident(p)
    requires forall p: nat :: p in next <==> t.Resident(p)
    requires Frequency.TableFault(table, n, page, |s.frames|, next) && |table| <= |s.frames|
    ensures if !s.Resident(page) && |table| == |s.frames|
            then Replaced(s, page, v, t) && Frequency.IsLeast(table, v)
            else Added(s, page, t)
  {
    v := 0;
    if page !in table && |table| == |s.frames| {
      v :| Frequency.IsLeast(table, v) && next == (table - {v})[page := Frequency.Use(0, n)];
    }
  }

  // ---------- frames ----------

  /** Which frame a fault gives to its page, when `used` frames are in use: the one it had, the next
      one, or the one of the page that goes. No other page gets another frame. */
  ghost predicate Framed(s: Pages, page: nat, t: Pages, used: nat) {
    && page < |s.mapping| == |t.mapping|
    && (forall p | 0 <= p < |s.mapping| && p != page :: t.mapping[p] == s.mapping[p])
    && (s.Resident(page) ==> t.mapping[page] == s.mapping[page])
    && (!s.Resident(page) && (forall v: nat | s.Resident(v) :: t.Resident(v)) ==> t.mapping[page] == used)
    && (forall v: nat | s.Resident(v) && !t.Resident(v) :: v < |s.mapping| && t.mapping[page] == s.mapping[v])
  }

  lemma {:induction false} ReplaceFrames(s: Pages, page: nat, victim: nat, used: nat)
    requires s.Sized() && page < |s.prot| && s.prot[page] == NoAccess && s.Resident(victim)
    requires s.mapping[victim] < |s.frames|
    ensures Framed(s, page, Replace(s, page, victim), used)
  {
    var t := Replace(s, page, victim);
    assert s.Resident(victim) && !t.Resident(victim);
    Probing.ReplaceResidents(s, page, victim);
  }

  lemma {:induction false} ListFrames(m: Recency.Listed, page: nat, promote: bool)
    requires Recency.Inv(m) && page < |m.pages.prot|
    ensures Framed(m.pages, page, Recency.Fault(m, page, promote).pages, |m.order|)
  {
    if !m.pages.Resident(page) && |m.order| == |m.pages.frames| {
      assert m.pages.Resident(m.order[|m.order| - 1]);
      ReplaceFrames(m.pages, page, m.order[|m.order| - 1], |m.order|);
    }
  }

  lemma {:induction false} RankedFrames(m: Frequency.Ranked, page: nat)
    requires Frequency.Inv(m) && page < |m.pages.prot|
    ensures Frequency.Shaped(m) && Framed(m.pages, page, Frequency.Fault(m, page).pages, Frequency.Total(m.buckets))
  {
    Frequency.TracksShaped(m);
    if !m.pages.Resident(page) && Frequency.Total(m.buckets) == |m.pages.frames| {
      Frequency.DropLeastKeeps(m.buckets);
      ReplaceFrames(m.pages, page, Frequency.Least(m.buckets), Frequency.Total(m.buckets));
    }
  }

  lemma {:induction false} HashedFrames(m: Probing.Hashed, page: nat, dice: nat)
    requires Probing.Inv(m) && Probing.Live(m) && page < |m.pages.prot|
    ensures Framed(m.pages, page, Probing.Fault(m, page, dice).pages, m.count)
  {
    if !m.pages.Resident(page) && m.count == |m.pages.frames| {
      var v := m.chains[Probing.Probe(m.chains, HashOf(dice, |m.chains|))][0];
      assert m.pages.Resident(v);
      ReplaceFrames(m.pages, page, v, m.count);
    }
  }

  /** A page that is loaded while no other goes gets the next frame: as many as there are resident
      pages are in use, and under RAND as many as were ever handed out. */
  lemma {:induction false} FrameGiven(s: V.Vm, page: nat, dice: nat, t: V.Vm)
    requires Stepped(s, FaultOn(page), dice, t)
    ensures Framed(V.View(s), page, V.View(t), if s.Rand? then s.hashed.count else |V.Held(s)|)
  {
    V.InvShape(s);
    match s {
      case Lru(m) =>
        HeldSize(s, m);
        ListFrames(m, page, true);
      case Ffifo(m) =>
        HeldSize(s, m);
        ListFrames(m, page, false);
      case Fifo(m) =>
        var l :| Matches(m, l);
        ListFaults(s, l, page, dice);
        HeldSize(s, l);
        ListFrames(l, page, true);
      case Lfu(m) =>
        RankedSize(s);
        RankedFrames(m, page);
      case Rand(m) =>
        HashedFrames(m, page, dice);
    }
  }

  lemma {:induction false} RankedSize(s: V.Vm)
    requires V.Inv(s) && s.Lfu?
    ensures Frequency.Total(s.ranked.buckets) == |V.Held(s)|
  {
    assert forall p: nat :: p in V.Held(s) <==> V.View(s).Resident(p);
    assert V.View(s) == s.ranked.pages;
    BucketsSize(s.ranked, V.Held(s));
  }

  lemma {:induction false} BucketsSize(m: Frequency.Ranked, held: set<nat>)
    requires Frequency.Inv(m) && forall p: nat :: p in held <==> m.pages.Resident(p)
    ensures Frequency.Total(m.buckets) == |held|
  {
    Frequency.TotalIsSize(m.buckets);
    assert Frequency.PageSet(m.buckets) == held;
  }
}
