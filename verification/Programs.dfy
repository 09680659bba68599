/**
 Programs that run on the page-fault handlers as they are programmed, over linked lists, hash
 chains and arrays. A load or store that is not allowed faults until it is; `Execute` starts from
 an empty page table and performs any sequence of loads, stores and flushes. What the loads return
 is what they would return on a flat memory, by the theorems about `VirtualMemory`, whose machine
 every step of the handlers follows.
 */
module Programs {
  import opened Words
  import opened Paging
  import opened PageTables
  import opened ListPagers
  import opened AgePagers
  import opened LfuPagers
  import opened RandPagers
  import RandRuns
  import V = VirtualMemory

  // ---------- the program's side ----------

  /** The operations are possible on a memory of this many blocks of this size. */
  ghost predicate Program(ops: seq<V.Op>, contents: seq<Block>, blockSize: nat) {
    V.Uniform(contents, blockSize) && V.AllInRange(ops, |contents|, blockSize)
  }

  /** The first i operations have returned these values, and the machine is at vm. */
  ghost predicate Ran(contents: seq<Block>, blockSize: nat, ops: seq<V.Op>, i: nat, vm: V.Vm, outs: seq<byte>)
    requires Program(ops, contents, blockSize) && i <= |ops|
  {
    && V.Ready(vm, ops[i..]) && |V.View(vm).prot| == |contents| && V.View(vm).blockSize == blockSize
    && V.Uniform(Memory(V.View(vm)), blockSize)
    && outs + V.FlatRun(Memory(V.View(vm)), ops[i..], blockSize) == V.FlatRun(contents, ops, blockSize)
  }

  lemma {:induction false} RanStart(contents: seq<Block>, blockSize: nat, ops: seq<V.Op>, vm: V.Vm)
    requires Program(ops, contents, blockSize) && V.Inv(vm) && V.View(vm).Sized()
    requires Memory(V.View(vm)) == contents && V.View(vm).blockSize == blockSize
    ensures Ran(contents, blockSize, ops, 0, vm, [])
  {
    assert ops[0..] == ops;
    assert [] + V.FlatRun(contents, ops, blockSize) == V.FlatRun(contents, ops, blockSize);
  }

  /** One operation more. */
  lemma {:induction false} RanStep(contents: seq<Block>, blockSize: nat, ops: seq<V.Op>, i: nat, vm: V.Vm,
                                   outs: seq<byte>, dice: nat -> nat, k: nat)
    requires Program(ops, contents, blockSize) && i < |ops| && Ran(contents, blockSize, ops, i, vm, outs)
    requires ops[i].FlushAll? || V.Live(vm)
    ensures var t := V.StepVm(vm, ops[i], dice, k).vm;
            && V.Answers(V.View(t), ops[i])
            && Ran(contents, blockSize, ops, i + 1, t, outs + V.Answer(V.View(t), ops[i]))
  {
    var rest, mem := ops[i..], Memory(V.View(vm));
    assert rest[0] == ops[i] && rest[1..] == ops[i + 1..];
    V.StepServes(vm, rest, dice, k);
    V.StepIsFlat(vm, ops[i], dice, k);
    FlatUnfolds(mem, rest, blockSize, outs);
  }

  lemma {:induction false} FlatUnfolds(mem: seq<Block>, ops: seq<V.Op>, blockSize: nat, outs: seq<byte>)
    requires V.Uniform(mem, blockSize) && V.AllInRange(ops, |mem|, blockSize) && |ops| > 0
    ensures V.InRange(ops[0], |mem|, blockSize)
    ensures var rest := V.FlatRun(V.FlatStep(mem, ops[0], blockSize), ops[1..], blockSize);
            outs + V.FlatRun(mem, ops, blockSize) == outs + V.FlatAnswer(mem, ops[0], blockSize) + rest
  {
  }

  lemma {:induction false} RanAll(contents: seq<Block>, blockSize: nat, ops: seq<V.Op>, vm: V.Vm, outs: seq<byte>)
    requires Program(ops, contents, blockSize) && Ran(contents, blockSize, ops, |ops|, vm, outs)
    ensures outs == V.FlatRun(contents, ops, blockSize)
  {
    assert ops[|ops|..] == [];
    assert outs + [] == outs;
  }

  /** The next fault of an access, or the end of it. */
  lemma {:induction false} AccessUnfolds(vm: V.Vm, page: nat, write: bool, dice: nat -> nat, k: nat)
    requires V.Inv(vm) && V.Live(vm) && page < |V.View(vm).prot|
    ensures V.Allowed(V.View(vm).prot[page], write) ==> V.Access(vm, page, write, dice, k) == V.Settled(vm, k)
    ensures !V.Allowed(V.View(vm).prot[page], write) ==>
              var t := V.Fault(vm, page, dice(k));
              && V.Inv(t) && V.Live(t) && |V.View(t).prot| == |V.View(vm).prot|
              && V.Missing(V.View(t).prot[page], write) < V.Missing(V.View(vm).prot[page], write)
              && V.Access(vm, page, write, dice, k) == V.Access(t, page, write, dice, k + 1)
  {
    V.FaultKeeps(vm, page, dice(k));
  }

  /** A store to a page that allows it finds its byte, and keeps the machine as it should be. */
  lemma {:induction false} StoreKeeps(vm: V.Vm, page: nat, off: nat, v: byte)
    requires V.Inv(vm) && V.Live(vm) && page < |V.View(vm).prot| && V.View(vm).prot[page] == ReadWrite
    requires off < V.View(vm).blockSize
    ensures V.Storable(vm, page, off) && V.Inv(V.Written(vm, page, off, v))
  {
    V.InvShape(vm);
    V.WrittenKeeps(vm, page, off, v);
  }

  /** What an operation consists of. */
  lemma {:induction false} StepCases(vm: V.Vm, op: V.Op, dice: nat -> nat, k: nat)
    requires V.Ready(vm, [op]) && V.InRange(op, |V.View(vm).prot|, V.View(vm).blockSize)
    requires op.FlushAll? || V.Live(vm)
    ensures V.Answers(V.View(V.StepVm(vm, op, dice, k).vm), op)
    ensures op.FlushAll? ==> V.StepVm(vm, op, dice, k) == V.Settled(V.Flush(vm), k)
    ensures op.Get? ==> V.StepVm(vm, op, dice, k) == V.Access(vm, op.page, false, dice, k)
    ensures op.Put? ==>
              var r := V.Access(vm, op.page, true, dice, k);
              && V.Inv(r.vm) && V.Live(r.vm) && |V.View(r.vm).prot| == |V.View(vm).prot|
              && V.View(r.vm).prot[op.page] == ReadWrite && V.View(r.vm).blockSize == V.View(vm).blockSize
              && V.Storable(r.vm, op.page, op.off) && V.Inv(V.Written(r.vm, op.page, op.off, op.value))
              && V.StepVm(vm, op, dice, k) == V.Settled(V.Written(r.vm, op.page, op.off, op.value), r.faults)
  {
    V.StepServes(vm, [op], dice, k);
    if op.Put? {
      V.AccessKeeps(vm, op.page, true, dice, k);
      StoreKeeps(V.Access(vm, op.page, true, dice, k).vm, op.page, op.off, op.value);
    }
  }

  // ---------- the handlers ----------

  /** A page-fault handler and its data; LRU promotes a page that faults again, FFIFO does not. */
  datatype Handler =
    | Listing(lists: ListPager, promote: bool)
    | Ageing(ages: AgePager)
    | Counting(counts: LfuPager)
    | Hashing(hashes: RandPager)

  function Table(h: Handler): (pt: PageTable) {
    match h
    case Listing(p, _) => p.pt
    case Ageing(p) => p.pt
    case Counting(p) => p.pt
    case Hashing(p) => p.pt
  }

  /** The objects a handler always has. */
  ghost function Roots(h: Handler): (r: set<object>) {
    Table(h).Arrays() +
    match h
    case Listing(p, _) =>
      {p.pages.list as object, p.pages.hash as object, p.pages.hash.heads as object, p.pages.hash.counts as object}
    case Ageing(p) =>
      {p.frameState as object, p.framePage as object}
    case Counting(p) =>
      {p.pages.list as object, p.pages.hash as object, p.pages.hash.heads as object, p.pages.hash.counts as object}
    case Hashing(p) =>
      {p as object, p.hash as object, p.hash.heads as object, p.hash.counts as object}
  }

  /** The nodes of its lists and chains. */
  ghost function Nodes(h: Handler, lay: Layout): (r: set<object>)
    reads Roots(h)
  {
    match h
    case Listing(p, _) =>
      var items: set<object>, entries: set<object> := p.pages.list.repr, p.pages.hash.repr;
      items + entries
    case Ageing(p) => {}
    case Counting(p) =>
      var buckets: set<object>, items: set<object> := lay.freqRepr, lay.itemRepr;
      var entries: set<object> := p.pages.hash.repr;
      buckets + items + entries
    case Hashing(p) => p.hash.repr
  }

  /** The handler is in order, and at this state of the machine. */
  ghost predicate At(h: Handler, lay: Layout, vm: V.Vm)
    reads Roots(h), Nodes(h, lay)
  {
    match h
    case Listing(p, promote) => p.Valid() && vm == if promote then V.Lru(p.Machine()) else V.Ffifo(p.Machine())
    case Ageing(p) => p.Valid() && vm == V.Fifo(p.Machine())
    case Counting(p) => vm.Lfu? && p.Valid(lay, vm.ranked.buckets) && vm.ranked == p.Machine(vm.ranked.buckets)
    case Hashing(p) => p.Valid() && vm == V.Rand(p.Machine())
  }

  /** A handler that is in order stands for a machine that is. */
  lemma {:induction false} AtInv(h: Handler, lay: Layout, vm: V.Vm)
    requires At(h, lay, vm)
    ensures V.Inv(vm) && V.View(vm) == Table(h).View() && Table(h).Shaped()
  {
  }

  method ListFault(h: Handler, page: nat, dice: nat, ghost lay: Layout, ghost vm: V.Vm) returns (ghost next: Layout)
    requires h.Listing? && At(h, lay, vm) && V.Inv(vm) && V.Live(vm) && page < |V.View(vm).prot|
    modifies Roots(h), Nodes(h, lay)
    ensures At(h, next, V.Fault(vm, page, dice))
    ensures forall n | n in Nodes(h, next) :: n in old(Nodes(h, lay)) || fresh(n)
  {
    ghost var nodes := Nodes(h, lay);
    h.lists.Fault(page, h.promote);
    next := lay;
    forall n | n in Nodes(h, next)
      ensures n in nodes || fresh(n)
    {
      if n in h.lists.pages.list.repr {
      } else {
        assert n in h.lists.pages.hash.repr;
      }
    }
  }

  method AgeFault(h: Handler, page: nat, dice: nat, ghost lay: Layout, ghost vm: V.Vm) returns (ghost next: Layout)
    requires h.Ageing? && At(h, lay, vm) && V.Inv(vm) && V.Live(vm) && page < |V.View(vm).prot|
    modifies Roots(h), Nodes(h, lay)
    ensures At(h, next, V.Fault(vm, page, dice))
    ensures forall n | n in Nodes(h, next) :: n in old(Nodes(h, lay)) || fresh(n)
  {
    h.ages.Fault(page);
    next := lay;
  }

  method CountFault(h: Handler, page: nat, dice: nat, ghost lay: Layout, ghost vm: V.Vm) returns (ghost next: Layout)
    requires h.Counting? && At(h, lay, vm) && V.Inv(vm) && V.Live(vm) && page < |V.View(vm).prot|
    modifies Roots(h), Nodes(h, lay)
    ensures At(h, next, V.Fault(vm, page, dice))
    ensures forall n | n in Nodes(h, next) :: n in old(Nodes(h, lay)) || fresh(n)
  {
    ghost var nodes := Nodes(h, lay);
    next := h.counts.Fault(page, lay, vm.ranked.buckets);
    forall n | n in Nodes(h, next)
      ensures n in nodes || fresh(n)
    {
      if n in next.freqRepr {
      } else if n in next.itemRepr {
      } else {
        assert n in h.counts.pages.hash.repr;
      }
    }
  }

  method HashFault(h: Handler, page: nat, dice: nat, ghost lay: Layout, ghost vm: V.Vm) returns (ghost next: Layout)
    requires h.Hashing? && At(h, lay, vm) && V.Inv(vm) && V.Live(vm) && page < |V.View(vm).prot|
    modifies Roots(h), Nodes(h, lay)
    ensures At(h, next, V.Fault(vm, page, dice))
    ensures forall n | n in Nodes(h, next) :: n in old(Nodes(h, lay)) || fresh(n)
  {
    h.hashes.Fault(page, dice);
    next := lay;
  }

  /** A fault, as a step of the machine. */
  method Fault(h: Handler, page: nat, dice: nat, ghost lay: Layout, ghost vm: V.Vm) returns (ghost next: Layout)
    requires At(h, lay, vm) && V.Inv(vm) && V.Live(vm) && page < |V.View(vm).prot|
    modifies Roots(h), Nodes(h, lay)
    ensures At(h, next, V.Fault(vm, page, dice))
    ensures forall n | n in Nodes(h, next) :: n in old(Nodes(h, lay)) || fresh(n)
  {
    match h {
      case Listing(_, _) => next := ListFault(h, page, dice, lay, vm);
      case Ageing(_) => next := AgeFault(h, page, dice, lay, vm);
      case Counting(_) => next := CountFault(h, page, dice, lay, vm);
      case Hashing(_) => next := HashFault(h, page, dice, lay, vm);
    }
  }

  method ListFlush(h: Handler, ghost lay: Layout, ghost vm: V.Vm) returns (ghost next: Layout)
    requires h.Listing? && At(h, lay, vm) && V.Inv(vm)
    modifies Roots(h), Nodes(h, lay)
    ensures At(h, next, V.Flush(vm))
    ensures forall n | n in Nodes(h, next) :: n in old(Nodes(h, lay)) || fresh(n)
  {
    h.lists.Flush();
    next := lay;
  }

  method AgeFlush(h: Handler, ghost lay: Layout, ghost vm: V.Vm) returns (ghost next: Layout)
    requires h.Ageing? && At(h, lay, vm) && V.Inv(vm)
    modifies Roots(h), Nodes(h, lay)
    ensures At(h, next, V.Flush(vm))
    ensures forall n | n in Nodes(h, next) :: n in old(Nodes(h, lay)) || fresh(n)
  {
    h.ages.Flush();
    next := lay;
  }

  method CountFlush(h: Handler, ghost lay: Layout, ghost vm: V.Vm) returns (ghost next: Layout)
    requires h.Counting? && At(h, lay, vm) && V.Inv(vm)
    modifies Roots(h), Nodes(h, lay)
    ensures At(h, next, V.Flush(vm))
    ensures forall n | n in Nodes(h, next) :: n in old(Nodes(h, lay)) || fresh(n)
  {
    next := h.counts.Flush(lay, vm.ranked.buckets);
  }

  method HashFlush(h: Handler, ghost lay: Layout, ghost vm: V.Vm) returns (ghost next: Layout)
    requires h.Hashing? && At(h, lay, vm) && V.Inv(vm)
    modifies Roots(h), Nodes(h, lay)
    ensures At(h, next, V.Flush(vm))
    ensures forall n | n in Nodes(h, next) :: n in old(Nodes(h, lay)) || fresh(n)
  {
    h.hashes.Flush();
    next := lay;
  }

  /** A flush, as a step of the machine. */
  method Flush(h: Handler, ghost lay: Layout, ghost vm: V.Vm) returns (ghost next: Layout)
    requires At(h, lay, vm) && V.Inv(vm)
    modifies Roots(h), Nodes(h, lay)
    ensures At(h, next, V.Flush(vm))
    ensures forall n | n in Nodes(h, next) :: n in old(Nodes(h, lay)) || fresh(n)
  {
    match h {
      case Listing(_, _) => next := ListFlush(h, lay, vm);
      case Ageing(_) => next := AgeFlush(h, lay, vm);
      case Counting(_) => next := CountFlush(h, lay, vm);
      case Hashing(_) => next := HashFlush(h, lay, vm);
    }
  }

  method ListStore(h: Handler, page: nat, off: nat, v: byte, ghost lay: Layout, ghost vm: V.Vm)
    requires h.Listing? && At(h, lay, vm) && V.Storable(vm, page, off) && V.Inv(V.Written(vm, page, off, v))
    modifies Table(h).frames
    ensures At(h, lay, V.Written(vm, page, off, v)) && Nodes(h, lay) == old(Nodes(h, lay))
  {
    h.lists.pt.PokeByte(page, off, v);
  }

  method AgeStore(h: Handler, page: nat, off: nat, v: byte, ghost lay: Layout, ghost vm: V.Vm)
    requires h.Ageing? && At(h, lay, vm) && V.Storable(vm, page, off) && V.Inv(V.Written(vm, page, off, v))
    modifies Table(h).frames
    ensures At(h, lay, V.Written(vm, page, off, v)) && Nodes(h, lay) == old(Nodes(h, lay))
  {
    ghost var ages, pages := h.ages.frameState[..], h.ages.framePage[..];
    h.ages.pt.PokeByte(page, off, v);
    assert h.ages.frameState[..] == ages && h.ages.framePage[..] == pages;
    assert h.ages.Machine() == V.Written(vm, page, off, v).aged;
  }

  method CountStore(h: Handler, page: nat, off: nat, v: byte, ghost lay: Layout, ghost vm: V.Vm)
    requires h.Counting? && At(h, lay, vm) && V.Storable(vm, page, off) && V.Inv(V.Written(vm, page, off, v))
    modifies Table(h).frames
    ensures At(h, lay, V.Written(vm, page, off, v)) && Nodes(h, lay) == old(Nodes(h, lay))
  {
    h.counts.pt.PokeByte(page, off, v);
    assert h.counts.pages.Valid(lay, vm.ranked.buckets);
    assert h.counts.Machine(vm.ranked.buckets) == V.Written(vm, page, off, v).ranked;
  }

  method HashStore(h: Handler, page: nat, off: nat, v: byte, ghost lay: Layout, ghost vm: V.Vm)
    requires h.Hashing? && At(h, lay, vm) && V.Storable(vm, page, off) && V.Inv(V.Written(vm, page, off, v))
    modifies Table(h).frames
    ensures At(h, lay, V.Written(vm, page, off, v)) && Nodes(h, lay) == old(Nodes(h, lay))
  {
    h.hashes.pt.PokeByte(page, off, v);
  }

  /** The store itself, once it is allowed. */
  method Store(h: Handler, page: nat, off: nat, v: byte, ghost lay: Layout, ghost vm: V.Vm)
    requires At(h, lay, vm) && V.Storable(vm, page, off) && V.Inv(V.Written(vm, page, off, v))
    modifies Table(h).frames
    ensures At(h, lay, V.Written(vm, page, off, v)) && Nodes(h, lay) == old(Nodes(h, lay))
  {
    match h {
      case Listing(_, _) => ListStore(h, page, off, v, lay, vm);
      case Ageing(_) => AgeStore(h, page, off, v, lay, vm);
      case Counting(_) => CountStore(h, page, off, v, lay, vm);
      case Hashing(_) => HashStore(h, page, off, v, lay, vm);
    }
  }

  /** Fault and try again until the access is allowed. */
  method Settle(h: Handler, page: nat, write: bool, dice: nat -> nat, k: nat, ghost lay: Layout, ghost vm: V.Vm)
    returns (j: nat, ghost next: Layout)
    requires At(h, lay, vm) && V.Inv(vm) && V.Live(vm) && page < |V.View(vm).prot|
    modifies Roots(h), Nodes(h, lay)
    ensures var r := V.Access(vm, page, write, dice, k); At(h, next, r.vm) && j == r.faults
    ensures forall n | n in Nodes(h, next) :: n in old(Nodes(h, lay)) || fresh(n)
    decreases V.Missing(V.View(vm).prot[page], write)
  {
    AccessUnfolds(vm, page, write, dice, k);
    AtInv(h, lay, vm);
    if V.Allowed(Table(h).prot[page], write) {
      j, next := k, lay;
    } else {
      next := Fault(h, page, dice(k), lay, vm);
      j, next := Settle(h, page, write, dice, k + 1, next, V.Fault(vm, page, dice(k)));
    }
  }

  method Get(h: Handler, op: V.Op, dice: nat -> nat, k: nat, ghost lay: Layout, ghost vm: V.Vm)
    returns (out: seq<byte>, j: nat, ghost next: Layout)
    requires At(h, lay, vm) && V.Ready(vm, [op]) && V.InRange(op, |V.View(vm).prot|, V.View(vm).blockSize)
    requires op.Get? && V.Live(vm)
    modifies Roots(h), Nodes(h, lay)
    ensures var r := V.StepVm(vm, op, dice, k);
            At(h, next, r.vm) && j == r.faults && V.Answers(V.View(r.vm), op) && out == V.Answer(V.View(r.vm), op)
    ensures forall n | n in Nodes(h, next) :: n in old(Nodes(h, lay)) || fresh(n)
  {
    StepCases(vm, op, dice, k);
    j, next := Settle(h, op.page, false, dice, k, lay, vm);
    AtInv(h, next, V.StepVm(vm, op, dice, k).vm);
    out := [Table(h).Peek(op.page, op.off)];
  }

  method Put(h: Handler, op: V.Op, dice: nat -> nat, k: nat, ghost lay: Layout, ghost vm: V.Vm)
    returns (j: nat, ghost next: Layout)
    requires At(h, lay, vm) && V.Ready(vm, [op]) && V.InRange(op, |V.View(vm).prot|, V.View(vm).blockSize)
    requires op.Put? && V.Live(vm)
    modifies Roots(h), Nodes(h, lay)
    ensures var r := V.StepVm(vm, op, dice, k); At(h, next, r.vm) && j == r.faults
    ensures forall n | n in Nodes(h, next) :: n in old(Nodes(h, lay)) || fresh(n)
  {
    StepCases(vm, op, dice, k);
    j, next := Settle(h, op.page, true, dice, k, lay, vm);
    Store(h, op.page, op.off, op.value, next, V.Access(vm, op.page, true, dice, k).vm);
  }

  /** One operation of a program, as a step of the machine. */
  method Perform(h: Handler, op: V.Op, dice: nat -> nat, k: nat, ghost lay: Layout, ghost vm: V.Vm)
    returns (out: seq<byte>, j: nat, ghost next: Layout)
    requires At(h, lay, vm) && V.Ready(vm, [op]) && V.InRange(op, |V.View(vm).prot|, V.View(vm).blockSize)
    requires op.FlushAll? || V.Live(vm)
    modifies Roots(h), Nodes(h, lay)
    ensures var r := V.StepVm(vm, op, dice, k);
            At(h, next, r.vm) && j == r.faults && V.Answers(V.View(r.vm), op) && out == V.Answer(V.View(r.vm), op)
    ensures forall n | n in Nodes(h, next) :: n in old(Nodes(h, lay)) || fresh(n)
  {
    if op.Get? {
      out, j, next := Get(h, op, dice, k, lay, vm);
    } else if op.Put? {
      j, next := Put(h, op, dice, k, lay, vm);
      out := [];
    } else {
      next := Flush(h, lay, vm);
      out, j := [], k;
    }
  }

  /** The rest of the program gets through. */
  ghost predicate Finishes(vm: V.Vm, ops: seq<V.Op>) {
    vm.Rand? ==> RandRuns.GoesOn(vm, ops)
  }

  /** The operations from the i-th on. */
  method Proceed(h: Handler, ops: seq<V.Op>, i: nat, outs: seq<byte>, dice: nat -> nat, k: nat,
                 ghost contents: seq<Block>, ghost blockSize: nat, ghost lay: Layout, ghost vm: V.Vm)
    returns (all: seq<byte>)
    requires At(h, lay, vm) && Program(ops, contents, blockSize) && i <= |ops|
    requires Ran(contents, blockSize, ops, i, vm, outs) && Finishes(vm, ops[i..])
    modifies Roots(h), Nodes(h, lay)
    ensures all == V.FlatRun(contents, ops, blockSize)
    decreases |ops| - i
  {
    if i == |ops| {
      RanAll(contents, blockSize, ops, vm, outs);
      all := outs;
    } else {
      FinishStep(vm, ops, i, dice, k);
      RanStep(contents, blockSize, ops, i, vm, outs, dice, k);
      var out, j;
      ghost var next;
      out, j, next := Perform(h, ops[i], dice, k, lay, vm);
      all := Proceed(h, ops, i + 1, outs + out, dice, j, contents, blockSize, next, V.StepVm(vm, ops[i], dice, k).vm);
    }
  }

  /** The next operation finishes, and so do those after it. */
  lemma {:induction false} FinishStep(vm: V.Vm, ops: seq<V.Op>, i: nat, dice: nat -> nat, k: nat)
    requires i < |ops| && V.Ready(vm, ops[i..]) && Finishes(vm, ops[i..])
    ensures V.InRange(ops[i], |V.View(vm).prot|, V.View(vm).blockSize) && V.Ready(vm, [ops[i]])
    ensures ops[i].FlushAll? || V.Live(vm)
    ensures Finishes(V.StepVm(vm, ops[i], dice, k).vm, ops[i + 1..])
  {
    var rest := ops[i..];
    assert rest[0] == ops[i] && rest[1..] == ops[i + 1..];
    if vm.Rand? {
      RandRuns.GoesOnStep(vm, rest, dice, k);
    } else {
      V.StepServes(vm, rest, dice, k);
    }
  }

  // ---------- whole programs ----------

  datatype Policy = Lru | Ffifo | Fifo | Lfu | Rand

  /** No bucket and no node of the LFU list. */
  ghost const NOTHING: Layout := Layout([], [], {}, {})

  /** The machine after `init_virtual_memory`. */
  ghost predicate Boots(vm: V.Vm, contents: seq<Block>, nframes: nat, blockSize: nat) {
    && V.Inv(vm) && V.View(vm).Sized() && Memory(V.View(vm)) == contents && V.View(vm).blockSize == blockSize
    && |V.View(vm).frames| == nframes > 0 && V.Held(vm) == {} && (vm.Rand? ==> vm.hashed.count == 0)
  }

  method StartList(contents: seq<Block>, junk: Block, nframes: nat, blockSize: nat, promote: bool)
    returns (h: Handler, ghost vm: V.Vm)
    requires nframes > 0 && |junk| == blockSize && V.Uniform(contents, blockSize)
    ensures fresh(Roots(h)) && Nodes(h, NOTHING) == {} && At(h, NOTHING, vm) && Boots(vm, contents, nframes, blockSize)
    ensures if promote then vm.Lru? else vm.Ffifo?
  {
    var pager := new ListPager(|contents|, nframes, blockSize, contents, junk);
    h, vm := Listing(pager, promote), if promote then V.Lru(pager.Machine()) else V.Ffifo(pager.Machine());
  }

  method StartAge(contents: seq<Block>, junk: Block, nframes: nat, blockSize: nat)
    returns (h: Handler, ghost vm: V.Vm)
    requires nframes > 0 && |junk| == blockSize && V.Uniform(contents, blockSize) && |contents| > 0
    ensures fresh(Roots(h)) && Nodes(h, NOTHING) == {} && At(h, NOTHING, vm) && Boots(vm, contents, nframes, blockSize)
    ensures vm.Fifo?
  {
    var pager := new AgePager(|contents|, nframes, blockSize, contents, junk);
    h, vm := Ageing(pager), V.Fifo(pager.Machine());
  }

  method StartCount(contents: seq<Block>, junk: Block, nframes: nat, blockSize: nat)
    returns (h: Handler, ghost vm: V.Vm)
    requires nframes > 0 && |junk| == blockSize && V.Uniform(contents, blockSize)
    ensures fresh(Roots(h)) && Nodes(h, NOTHING) == {} && At(h, NOTHING, vm) && Boots(vm, contents, nframes, blockSize)
    ensures vm.Lfu?
  {
    var pager := new LfuPager(|contents|, nframes, blockSize, contents, junk);
    h, vm := Counting(pager), V.Lfu(pager.Machine([]));
  }

  method StartHash(contents: seq<Block>, junk: Block, nframes: nat, blockSize: nat)
    returns (h: Handler, ghost vm: V.Vm)
    requires nframes > 0 && |junk| == blockSize && V.Uniform(contents, blockSize)
    ensures fresh(Roots(h)) && Nodes(h, NOTHING) == {} && At(h, NOTHING, vm) && Boots(vm, contents, nframes, blockSize)
    ensures vm.Rand?
  {
    var pager := new RandPager(|contents|, nframes, blockSize, contents, junk);
    h, vm := Hashing(pager), V.Rand(pager.Machine());
  }

  /** `init_virtual_memory` under the given policy. */
  method Start(policy: Policy, contents: seq<Block>, junk: Block, nframes: nat, blockSize: nat)
    returns (h: Handler, ghost vm: V.Vm)
    requires nframes > 0 && |junk| == blockSize && V.Uniform(contents, blockSize) && (policy.Fifo? ==> |contents| > 0)
    ensures fresh(Roots(h)) && Nodes(h, NOTHING) == {} && At(h, NOTHING, vm) && Boots(vm, contents, nframes, blockSize)
    ensures match policy
            case Lru => vm.Lru?
            case Ffifo => vm.Ffifo?
            case Fifo => vm.Fifo?
            case Lfu => vm.Lfu?
            case Rand => vm.Rand?
  {
    match policy {
      case Lru => h, vm := StartList(contents, junk, nframes, blockSize, true);
      case Ffifo => h, vm := StartList(contents, junk, nframes, blockSize, false);
      case Fifo => h, vm := StartAge(contents, junk, nframes, blockSize);
      case Lfu => h, vm := StartCount(contents, junk, nframes, blockSize);
      case Rand => h, vm := StartHash(contents, junk, nframes, blockSize);
    }
  }

  /** Whatever the policy and the random numbers, a program that runs on the handlers gets what it
      would get from a flat memory. Under RAND it must not load or store after a flush at which
      every frame had been handed out: `RandRuns.RandStopsIff` shows that it would not finish. */
  method Execute(policy: Policy, contents: seq<Block>, junk: Block, nframes: nat, blockSize: nat, ops: seq<V.Op>,
                 dice: nat -> nat)
    returns (outs: seq<byte>)
    requires nframes > 0 && |junk| == blockSize && Program(ops, contents, blockSize)
    requires policy.Fifo? ==> |contents| > 0
    requires policy.Rand? ==> !RandRuns.Stops({}, 0, nframes, ops)
    ensures outs == V.FlatRun(contents, ops, blockSize)
  {
    var h;
    ghost var vm;
    h, vm := Start(policy, contents, junk, nframes, blockSize);
    RanStart(contents, blockSize, ops, vm);
    assert ops[0..] == ops;
    outs := Proceed(h, ops, 0, [], dice, 0, contents, blockSize, NOTHING, vm);
  }
}
