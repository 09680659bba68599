/**
 The virtual memory as the program sees it, under any of the five replacement policies: an
 access that the page's permission does not allow faults, the handler runs, and the access
 is tried again. `RunIsFlat` is the point of the whole design: whatever the policy, whatever
 the random numbers, and however loads, stores and flushes are interleaved, the program
 cannot distinguish the paged memory from a flat array of blocks.
 */
module VirtualMemory {
  import opened Words
  import opened Paging
  import Recency
  import Ageing
  import Frequency
  import Probing
  import opened Hashing

  datatype Vm =
    | Fifo(aged: Ageing.Aged)
    | Ffifo(listed: Recency.Listed)
    | Lru(listed: Recency.Listed)
    | Lfu(ranked: Frequency.Ranked)
    | Rand(hashed: Probing.Hashed)

  function View(vm: Vm): (s: Pages) {
    match vm
    case Fifo(m) => m.pages
    case Ffifo(m) => m.pages
    case Lru(m) => m.pages
    case Lfu(m) => m.pages
    case Rand(m) => m.pages
  }

  /** The pages that have a frame. */
  ghost function Held(vm: Vm): (held: set<nat>) {
    set p: nat | p < |View(vm).prot| && View(vm).Resident(p)
  }

  ghost predicate Inv(vm: Vm) {
    match vm
    case Fifo(m) => exists l :: Ageing.Matches(m, l)
    case Ffifo(m) => Recency.Inv(m)
    case Lru(m) => Recency.Inv(m)
    case Lfu(m) => Frequency.Inv(m)
    case Rand(m) => Probing.Inv(m)
  }

  /** Only the RAND handler can fail to return, and only after a flush. */
  ghost predicate Live(vm: Vm) {
    vm.Rand? ==> Probing.Live(vm.hashed)
  }

  lemma {:induction false} InvShape(vm: Vm)
    requires Inv(vm)
    ensures Coherent(View(vm))
    ensures vm.Fifo? ==> Ageing.Shaped(vm.aged)
    ensures vm.Ffifo? || vm.Lru? ==> Recency.Shaped(vm.listed)
    ensures vm.Lfu? ==> Frequency.Shaped(vm.ranked)
    ensures vm.Rand? ==> Probing.Shaped(vm.hashed)
  {
    if vm.Lfu? {
      Frequency.TracksShaped(vm.ranked);
    }
  }

  ghost function Fault(vm: Vm, page: nat, dice: nat): (t: Vm)
    requires Inv(vm) && Live(vm) && page < |View(vm).prot|
  {
    InvShape(vm);
    match vm
    case Fifo(m) => Fifo(Ageing.Fault(m, page))
    case Ffifo(m) => Ffifo(Recency.Fault(m, page, false))
    case Lru(m) => Lru(Recency.Fault(m, page, true))
    case Lfu(m) => Lfu(Frequency.Fault(m, page))
    case Rand(m) => Rand(Probing.Fault(m, page, dice))
  }

  ghost function Flush(vm: Vm): (t: Vm)
    requires Inv(vm)
  {
    InvShape(vm);
    match vm
    case Fifo(m) => Fifo(Ageing.FlushFrom(m, 0))
    case Ffifo(m) => Ffifo(Recency.Flush(m))
    case Lru(m) => Lru(Recency.Flush(m))
    case Lfu(m) => Lfu(Frequency.Flush(m))
    case Rand(m) => Rand(Probing.Flush(m))
  }

  /** Same policy, same number of pages and frames, same block size. */
  ghost predicate SameShape(vm: Vm, t: Vm) {
    && (vm.Fifo? <==> t.Fifo?) && (vm.Ffifo? <==> t.Ffifo?) && (vm.Lru? <==> t.Lru?)
    && (vm.Lfu? <==> t.Lfu?) && (vm.Rand? <==> t.Rand?)
    && |View(t).prot| == |View(vm).prot|
    && |View(t).frames| == |View(vm).frames|
    && View(t).blockSize == View(vm).blockSize
  }

  /** Every handler keeps the memory, and gives the faulting page one permission more. */
  lemma {:induction false} FaultKeeps(vm: Vm, page: nat, dice: nat)
    requires Inv(vm) && Live(vm) && page < |View(vm).prot|
    ensures var t := Fault(vm, page, dice);
            && Inv(t) && Live(t) && SameShape(vm, t)
            && View(t).Sized() && View(vm).Sized() && Memory(View(t)) == Memory(View(vm))
            && View(t).prot[page] == (if View(vm).prot[page] == NoAccess then ReadOnly else ReadWrite)
  {
    InvShape(vm);
    FaultGrants(vm, page, dice);
    match vm
    case Fifo(m) =>
      var l :| Ageing.Matches(m, l);
      Ageing.FaultMatches(m, l, page);
      Recency.FaultKeeps(l, page, true);
    case Ffifo(m) => Recency.FaultKeeps(m, page, false);
    case Lru(m) => Recency.FaultKeeps(m, page, true);
    case Lfu(m) => Frequency.FaultKeeps(m, page);
    case Rand(m) => Probing.FaultKeeps(m, page, dice);
  }

  lemma {:induction false} FaultGrants(vm: Vm, page: nat, dice: nat)
    requires Inv(vm) && Live(vm) && page < |View(vm).prot|
    ensures var t := Fault(vm, page, dice);
            && SameShape(vm, t)
            && View(t).prot[page] == (if View(vm).prot[page] == NoAccess then ReadOnly else ReadWrite)
  {
    InvShape(vm);
    match vm
    case Fifo(m) => FifoGrants(m, page);
    case Ffifo(m) => ListGrants(m, page, false);
    case Lru(m) => ListGrants(m, page, true);
    case Lfu(m) => LfuGrants(m, page);
    case Rand(m) => RandGrants(m, page, dice);
  }

  /** The page gets one permission more, and the sizes stay. */
  ghost predicate Grants(s: Pages, page: nat, t: Pages)
    requires page < |s.prot|
  {
    && |t.prot| == |s.prot| && |t.frames| == |s.frames| && t.blockSize == s.blockSize
    && t.prot[page] == if s.prot[page] == NoAccess then ReadOnly else ReadWrite
  }

  lemma {:induction false} ListGrants(m: Recency.Listed, page: nat, promote: bool)
    requires Recency.Inv(m) && page < |m.pages.prot|
    ensures Recency.Shaped(m) && Grants(m.pages, page, Recency.Fault(m, page, promote).pages)
  {
  }

  lemma {:induction false} LfuGrants(m: Frequency.Ranked, page: nat)
    requires Frequency.Inv(m) && page < |m.pages.prot|
    ensures Frequency.Shaped(m) && Grants(m.pages, page, Frequency.Fault(m, page).pages)
  {
    Frequency.TracksShaped(m);
    if m.buckets != [] {
      Frequency.DropLeastKeeps(m.buckets);
    }
  }

  lemma {:induction false} RandGrants(m: Probing.Hashed, page: nat, dice: nat)
    requires Probing.Inv(m) && Probing.Live(m) && page < |m.pages.prot|
    ensures Probing.Shaped(m) && Grants(m.pages, page, Probing.Fault(m, page, dice).pages)
  {
    if !m.pages.Resident(page) && m.count == |m.pages.frames| {
      var b := Probing.Probe(m.chains, HashOf(dice, |m.chains|));
      assert m.pages.Resident(m.chains[b][0]);
    }
  }

  lemma {:induction false} FifoGrants(m: Ageing.Aged, page: nat)
    requires (exists l :: Ageing.Matches(m, l)) && page < |m.pages.prot|
    ensures Ageing.Shaped(m) && Grants(m.pages, page, Ageing.Fault(m, page).pages)
  {
    var l :| Ageing.Matches(m, l);
    Ageing.FaultMatches(m, l, page);
  }

  /** After a flush the backing store is the memory and every page is unmapped. The next fault
      comes to an end unless RAND had already handed out all frames. */
  lemma {:induction false} FlushKeeps(vm: Vm)
    requires Inv(vm)
    ensures var t := Flush(vm);
            && Inv(t) && SameShape(vm, t)
            && View(t).Sized() && View(vm).Sized() && Memory(View(t)) == Memory(View(vm)) == View(t).store
            && (forall p: nat :: !View(t).Resident(p))
            && (Live(t) <==> (vm.Rand? ==> vm.hashed.count < |View(vm).frames|))
  {
    InvShape(vm);
    match vm
    case Fifo(m) =>
      var l :| Ageing.Matches(m, l);
      Ageing.FlushMatches(m, l);
      Recency.FlushKeeps(l);
    case Ffifo(m) => Recency.FlushKeeps(m);
    case Lru(m) => Recency.FlushKeeps(m);
    case Lfu(m) => Frequency.FlushKeeps(m);
    case Rand(m) => Probing.FlushKeeps(m);
  }

  // ---------- accesses ----------

  predicate Allowed(prot: Prot, write: bool) {
    if write then prot == ReadWrite else prot != NoAccess
  }

  /** How many permissions are still missing. */
  function Missing(prot: Prot, write: bool): (n: nat)
    ensures n == 0 <==> Allowed(prot, write)
  {
    if Allowed(prot, write) then 0 else if write && prot == NoAccess then 2 else 1
  }

  datatype Settled = Settled(vm: Vm, faults: nat)

  /** The memory management unit: fault and try again until the access is allowed. `dice(k)`
      is the k-th random number drawn. */
  ghost function Access(vm: Vm, page: nat, write: bool, dice: nat -> nat, k: nat): (r: Settled)
    requires Inv(vm) && Live(vm) && page < |View(vm).prot|
    decreases Missing(View(vm).prot[page], write)
  {
    if Allowed(View(vm).prot[page], write) then Settled(vm, k)
    else
      FaultKeeps(vm, page, dice(k));
      Access(Fault(vm, page, dice(k)), page, write, dice, k + 1)
  }

  /** A load settles after at most one fault, a store after at most two, and neither the
      faults nor the retries change what is in memory. */
  lemma {:induction false} AccessKeeps(vm: Vm, page: nat, write: bool, dice: nat -> nat, k: nat)
    requires Inv(vm) && Live(vm) && page < |View(vm).prot|
    ensures var r := Access(vm, page, write, dice, k);
            && Inv(r.vm) && Live(r.vm) && SameShape(vm, r.vm)
            && Allowed(View(r.vm).prot[page], write)
            && View(r.vm).Sized() && View(vm).Sized() && Memory(View(r.vm)) == Memory(View(vm))
            && r.faults == k + Missing(View(vm).prot[page], write)
            && r.faults <= k + (if write then 2 else 1)
    decreases Missing(View(vm).prot[page], write)
  {
    InvShape(vm);
    if !Allowed(View(vm).prot[page], write) {
      FaultKeeps(vm, page, dice(k));
      AccessKeeps(Fault(vm, page, dice(k)), page, write, dice, k + 1);
    }
  }

  /** The page has a frame with such a byte. */
  predicate Storable(vm: Vm, page: nat, off: nat) {
    && page < |View(vm).mapping| && View(vm).mapping[page] < |View(vm).frames|
    && off < |View(vm).frames[View(vm).mapping[page]]|
  }

  /** The store instruction itself, once it is allowed. */
  function Written(vm: Vm, page: nat, off: nat, v: byte): (t: Vm)
    requires Storable(vm, page, off)
    ensures View(t) == Poke(View(vm), page, off, v)
  {
    var s := Poke(View(vm), page, off, v);
    match vm
    case Fifo(m) => Fifo(m.(pages := s))
    case Ffifo(m) => Ffifo(m.(pages := s))
    case Lru(m) => Lru(m.(pages := s))
    case Lfu(m) => Lfu(m.(pages := s))
    case Rand(m) => Rand(m.(pages := s))
  }

  lemma {:induction false} WrittenKeeps(vm: Vm, page: nat, off: nat, v: byte)
    requires Inv(vm) && Live(vm) && page < |View(vm).prot| && View(vm).prot[page] == ReadWrite
    requires Coherent(View(vm)) && off < View(vm).blockSize
    ensures Inv(Written(vm, page, off, v)) && Live(Written(vm, page, off, v))
        && SameShape(vm, Written(vm, page, off, v))
    ensures View(Written(vm, page, off, v)).Sized()
    ensures Memory(View(Written(vm, page, off, v))) == Memory(View(vm))[page := Memory(View(vm))[page][off := v]]
  {
    PokeWrites(View(vm), page, off, v);
    var s, t := View(vm), View(Written(vm, page, off, v));
    assert forall p: nat :: t.Resident(p) <==> s.Resident(p);
    if vm.Fifo? {
      var l :| Ageing.Matches(vm.aged, l);
      FifoWritten(vm.aged, l, t);
    }
  }

  lemma {:induction false} FifoWritten(m: Ageing.Aged, l: Recency.Listed, t: Pages)
    requires Ageing.Matches(m, l) && Coherent(t)
    requires t.mapping == m.pages.mapping && t.prot == m.pages.prot && |t.frames| == |m.pages.frames|
    ensures Ageing.Matches(m.(pages := t), l.(pages := t))
  {
    var n, k := m.(pages := t), l.(pages := t);
    assert forall p: nat :: t.Resident(p) <==> m.pages.Resident(p);
    assert forall p | 0 <= p < |t.mapping| :: Ageing.Age(n, p) == Ageing.Age(m, p);
  }

  // ---------- whole runs ----------

  datatype Op = Get(page: nat, off: nat) | Put(page: nat, off: nat, value: byte) | FlushAll

  predicate InRange(op: Op, npages: nat, blockSize: nat) {
    op.FlushAll? || (op.page < npages && op.off < blockSize)
  }

  ghost predicate AllInRange(ops: seq<Op>, npages: nat, blockSize: nat) {
    forall i | 0 <= i < |ops| :: InRange(ops[i], npages, blockSize)
  }

  ghost predicate Uniform(mem: seq<Block>, blockSize: nat) {
    forall p | 0 <= p < |mem| :: |mem[p]| == blockSize
  }

  /** The specification: a flat memory, where a flush does nothing. */
  ghost function FlatStep(mem: seq<Block>, op: Op, blockSize: nat): (r: seq<Block>)
    requires Uniform(mem, blockSize) && InRange(op, |mem|, blockSize)
    ensures Uniform(r, blockSize) && |r| == |mem|
  {
    if op.Put? then mem[op.page := mem[op.page][op.off := op.value]] else mem
  }

  /** The operation finds its page in a frame. */
  predicate Answers(s: Pages, op: Op) {
    op.Get? ==>
      && op.page < |s.mapping| && s.mapping[op.page] < |s.frames|
      && op.off < |s.frames[s.mapping[op.page]]|
  }

  /** What the operation returns, from the frame. */
  function Answer(s: Pages, op: Op): (out: seq<byte>)
    requires Answers(s, op)
    ensures |out| == if op.Get? then 1 else 0
  {
    if op.Get? then [s.frames[s.mapping[op.page]][op.off]] else []
  }

  /** What it returns on the flat memory. */
  ghost function FlatAnswer(mem: seq<Block>, op: Op, blockSize: nat): (out: seq<byte>)
    requires Uniform(mem, blockSize) && InRange(op, |mem|, blockSize)
    ensures |out| == if op.Get? then 1 else 0
  {
    if op.Get? then [mem[op.page][op.off]] else []
  }

  /** The values the gets return, in order. */
  ghost function FlatRun(mem: seq<Block>, ops: seq<Op>, blockSize: nat): (outs: seq<byte>)
    requires Uniform(mem, blockSize) && AllInRange(ops, |mem|, blockSize)
    decreases |ops|
  {
    if |ops| == 0 then []
    else
      assert InRange(ops[0], |mem|, blockSize);
      FlatAnswer(mem, ops[0], blockSize) + FlatRun(FlatStep(mem, ops[0], blockSize), ops[1..], blockSize)
  }

  /** What the program gets from the paged memory; `done` counts the operations that finished. */
  datatype Trace = Trace(outs: seq<byte>, done: nat, vm: Vm)

  /** One operation more at the beginning. */
  function Then(out: seq<byte>, rest: Trace): (r: Trace) {
    Trace(out + rest.outs, rest.done + 1, rest.vm)
  }

  /** There is nothing left to do, or the next load or store never returns. */
  ghost predicate Halts(vm: Vm, ops: seq<Op>) {
    |ops| == 0 || (!ops[0].FlushAll? && !Live(vm))
  }

  ghost predicate Ready(vm: Vm, ops: seq<Op>) {
    && Inv(vm)
    && View(vm).Sized()
    && AllInRange(ops, |View(vm).prot|, View(vm).blockSize)
  }

  ghost function StepVm(vm: Vm, op: Op, dice: nat -> nat, k: nat): (r: Settled)
    requires Inv(vm) && InRange(op, |View(vm).prot|, View(vm).blockSize) && (op.FlushAll? || Live(vm))
  {
    InvShape(vm);
    match op
    case FlushAll => Settled(Flush(vm), k)
    case Get(page, off) => Access(vm, page, false, dice, k)
    case Put(page, off, v) =>
      AccessKeeps(vm, page, true, dice, k);
      var r := Access(vm, page, true, dice, k);
      r.(vm := Written(r.vm, page, off, v))
  }

  /** One operation does to the memory what the flat memory would do. */
  lemma {:induction false} StepIsFlat(vm: Vm, op: Op, dice: nat -> nat, k: nat)
    requires Inv(vm) && InRange(op, |View(vm).prot|, View(vm).blockSize) && (op.FlushAll? || Live(vm))
    ensures var t := StepVm(vm, op, dice, k).vm;
            && Inv(t) && SameShape(vm, t)
            && View(t).Sized() && View(vm).Sized()
            && Memory(View(t)) == FlatStep(Memory(View(vm)), op, View(vm).blockSize)
            && (Live(vm) && !(vm.Rand? && op.FlushAll?) ==> Live(t))
            && (op.Get? ==> View(t).Resident(op.page))
  {
    InvShape(vm);
    match op
    case FlushAll =>
      FlushKeeps(vm);
    case Get(page, off) =>
      AccessKeeps(vm, page, false, dice, k);
    case Put(page, off, v) =>
      AccessKeeps(vm, page, true, dice, k);
      var r := Access(vm, page, true, dice, k);
      InvShape(r.vm);
      WrittenKeeps(r.vm, page, off, v);
  }

  /** One operation of a run: it returns what the flat memory would return, and the machine is
      ready for the others. */
  lemma {:induction false} StepServes(vm: Vm, ops: seq<Op>, dice: nat -> nat, k: nat)
    requires Ready(vm, ops) && !Halts(vm, ops)
    ensures var t := StepVm(vm, ops[0], dice, k).vm;
            && Ready(t, ops[1..]) && t.Rand? == vm.Rand?
            && View(t).blockSize == View(vm).blockSize && Uniform(Memory(View(vm)), View(vm).blockSize)
            && Memory(View(t)) == FlatStep(Memory(View(vm)), ops[0], View(vm).blockSize)
            && (Live(vm) && !(vm.Rand? && ops[0].FlushAll?) ==> Live(t))
            && Answers(View(t), ops[0])
            && Answer(View(t), ops[0]) == FlatAnswer(Memory(View(vm)), ops[0], View(vm).blockSize)
  {
    ReadyUniform(vm, ops);
    StepIsFlat(vm, ops[0], dice, k);
    var t := StepVm(vm, ops[0], dice, k).vm;
    if ops[0].Get? {
      InvShape(t);
      assert Content(View(t), ops[0].page) == Memory(View(t))[ops[0].page];
    }
  }

  ghost function Run(vm: Vm, ops: seq<Op>, dice: nat -> nat, k: nat): (r: Trace)
    requires Ready(vm, ops)
    decreases |ops|
  {
    if Halts(vm, ops) then Trace([], 0, vm)
    else
      StepServes(vm, ops, dice, k);
      var t := StepVm(vm, ops[0], dice, k);
      Then(Answer(View(t.vm), ops[0]), Run(t.vm, ops[1..], dice, t.faults))
  }

  /** One operation, then the rest of the run. */
  lemma {:induction false} RunUnfolds(vm: Vm, ops: seq<Op>, dice: nat -> nat, k: nat)
    requires Ready(vm, ops) && !Halts(vm, ops)
    ensures var t := StepVm(vm, ops[0], dice, k);
            && Ready(t.vm, ops[1..]) && Answers(View(t.vm), ops[0])
            && Run(vm, ops, dice, k) == Then(Answer(View(t.vm), ops[0]), Run(t.vm, ops[1..], dice, t.faults))
  {
    StepServes(vm, ops, dice, k);
  }

  /** No operation is left unfinished, except that RAND may stop after a flush. */
  lemma {:induction false} RunFinishes(vm: Vm, ops: seq<Op>, dice: nat -> nat, k: nat)
    requires Ready(vm, ops)
    ensures Run(vm, ops, dice, k).done <= |ops|
    ensures Live(vm) && !(vm.Rand? && FlushAll in ops) ==> Run(vm, ops, dice, k).done == |ops|
    decreases |ops|
  {
    if !Halts(vm, ops) {
      var t := StepVm(vm, ops[0], dice, k);
      StepServes(vm, ops, dice, k);
      RunUnfolds(vm, ops, dice, k);
      RunFinishes(t.vm, ops[1..], dice, t.faults);
    }
  }

  /** The paged memory is a flat memory: everything a get returns is the last value put there. */
  lemma {:induction false} RunIsFlat(vm: Vm, ops: seq<Op>, dice: nat -> nat, k: nat)
    requires Ready(vm, ops)
    ensures Run(vm, ops, dice, k).done <= |ops| && Uniform(Memory(View(vm)), View(vm).blockSize)
    ensures Run(vm, ops, dice, k).outs
         == FlatRun(Memory(View(vm)), ops[..Run(vm, ops, dice, k).done], View(vm).blockSize)
    ensures Live(vm) && !(vm.Rand? && FlushAll in ops) ==> Run(vm, ops, dice, k).done == |ops|
  {
    RunFinishes(vm, ops, dice, k);
    RunOuts(vm, ops, dice, k);
  }

  /** What a run returns is what the flat memory returns. */
  ghost predicate Flat(r: Trace, mem: seq<Block>, ops: seq<Op>, blockSize: nat) {
    && r.done <= |ops| && Uniform(mem, blockSize) && AllInRange(ops, |mem|, blockSize)
    && r.outs == FlatRun(mem, ops[..r.done], blockSize)
  }

  lemma {:induction false} RunOuts(vm: Vm, ops: seq<Op>, dice: nat -> nat, k: nat)
    requires Ready(vm, ops)
    ensures Flat(Run(vm, ops, dice, k), Memory(View(vm)), ops, View(vm).blockSize)
    decreases |ops|
  {
    ReadyUniform(vm, ops);
    if !Halts(vm, ops) {
      var t := StepVm(vm, ops[0], dice, k);
      StepServes(vm, ops, dice, k);
      RunUnfolds(vm, ops, dice, k);
      RunOuts(t.vm, ops[1..], dice, t.faults);
      FlatThen(Run(t.vm, ops[1..], dice, t.faults), Memory(View(vm)), ops, View(vm).blockSize);
    }
  }

  lemma {:induction false} FlatThen(rest: Trace, mem: seq<Block>, ops: seq<Op>, blockSize: nat)
    requires Uniform(mem, blockSize) && AllInRange(ops, |mem|, blockSize) && |ops| > 0
    requires InRange(ops[0], |mem|, blockSize) && Flat(rest, FlatStep(mem, ops[0], blockSize), ops[1..], blockSize)
    ensures Flat(Then(FlatAnswer(mem, ops[0], blockSize), rest), mem, ops, blockSize)
  {
    FlatRunStep(mem, ops, rest.done, blockSize);
  }

  lemma {:induction false} ReadyUniform(vm: Vm, ops: seq<Op>)
    requires Ready(vm, ops)
    ensures Uniform(Memory(View(vm)), View(vm).blockSize)
  {
    InvShape(vm);
  }

  lemma {:induction false} FlatRunStep(mem: seq<Block>, ops: seq<Op>, done: nat, blockSize: nat)
    requires Uniform(mem, blockSize) && AllInRange(ops, |mem|, blockSize) && done < |ops|
    ensures InRange(ops[0], |mem|, blockSize)
    ensures FlatRun(mem, ops[..done + 1], blockSize)
         == FlatAnswer(mem, ops[0], blockSize)
            + FlatRun(FlatStep(mem, ops[0], blockSize), ops[1..][..done], blockSize)
  {
    assert ops[..done + 1][1..] == ops[1..][..done];
  }
}
