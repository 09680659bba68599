/**
 The paged memory with its backing store on the level 4 RAID memory. Whenever a handler reads a
 page back, the answer of one host may be missing, a different one every time.
 `RaidRunIsFlat` shows that the program still sees a flat memory.
 */
module RaidPaging {
  import opened Words
  import opened Paging
  import opened VirtualMemory
  import opened Raid

  /** What the hosts hold for one page. */
  type Disk = seq<seq<byte>>

  /** The hosts hold these pages, with the parity on the last host. */
  ghost predicate Backs(disks: seq<Disk>, store: seq<Block>, size: nat, n: nat) {
    && n >= 2 && |disks| == |store|
    && forall p | 0 <= p < |store| :: Backing(disks[p], store[p], size, n)
  }

  ghost predicate Backing(disk: Disk, page: Block, size: nat, n: nat)
    requires n >= 2
  {
    CutCovers(size, n - 1);
    |page| == size && disk == Layout(page, CutOf(size, n - 1), n - 1)
  }

  /** Which host does not answer when a page is read. */
  type Loss = nat -> Lost

  ghost predicate OneLost(loss: Loss, n: nat) {
    forall p: nat :: loss(p).Host? ==> loss(p).index < n
  }

  /** The pages as they are read. */
  ghost function Seen(disks: seq<Disk>, size: nat, n: nat, loss: Loss): (store: seq<Block>)
    requires n >= 2 && OneLost(loss, n)
    requires forall p | 0 <= p < |disks| :: Rows(disks[p], CutOf(size, n - 1), size)
  {
    seq(|disks|, p requires 0 <= p < |disks| => Recovered(disks[p], CutOf(size, n - 1), size, n - 1, loss(p)))
  }

  lemma {:induction false} SeenIsStore(disks: seq<Disk>, store: seq<Block>, size: nat, n: nat, loss: Loss)
    requires Backs(disks, store, size, n) && OneLost(loss, n)
    ensures forall p | 0 <= p < |disks| :: Rows(disks[p], CutOf(size, n - 1), size)
    ensures Seen(disks, size, n, loss) == store
  {
    CutCovers(size, n - 1);
    forall p | 0 <= p < |disks|
      ensures Rows(disks[p], CutOf(size, n - 1), size)
      ensures Recovered(disks[p], CutOf(size, n - 1), size, n - 1, loss(p)) == store[p]
    {
      assert Backing(disks[p], store[p], size, n);
      LevelFourRecovers(store[p], n, loss(p));
    }
  }

  /** The hosts after the pages that changed have been written to them. */
  ghost function Saved(disks: seq<Disk>, before: seq<Block>, store: seq<Block>, size: nat, n: nat): (r: seq<Disk>)
    requires n >= 2 && |disks| == |before| == |store| && forall p | 0 <= p < |store| :: |store[p]| == size
  {
    CutCovers(size, n - 1);
    seq(|disks|, p requires 0 <= p < |disks| =>
      if store[p] == before[p] then disks[p] else Layout(store[p], CutOf(size, n - 1), n - 1))
  }

  lemma {:induction false} SavedBacks(disks: seq<Disk>, before: seq<Block>, store: seq<Block>, size: nat, n: nat)
    requires Backs(disks, before, size, n) && |store| == |before| && forall p | 0 <= p < |store| :: |store[p]| == size
    ensures Backs(Saved(disks, before, store, size, n), store, size, n)
  {
    var saved := Saved(disks, before, store, size, n);
    forall p | 0 <= p < |store|
      ensures Backing(saved[p], store[p], size, n)
    {
      assert Backing(disks[p], before[p], size, n);
    }
  }

  function WithStore(vm: Vm, store: seq<Block>): (t: Vm) {
    match vm
    case Fifo(m) => Fifo(m.(pages := m.pages.(store := store)))
    case Ffifo(m) => Ffifo(m.(pages := m.pages.(store := store)))
    case Lru(m) => Lru(m.(pages := m.pages.(store := store)))
    case Lfu(m) => Lfu(m.(pages := m.pages.(store := store)))
    case Rand(m) => Rand(m.(pages := m.pages.(store := store)))
  }

  /** The losses of a run: one for every operation. */
  ghost predicate OneLostAlways(losses: nat -> Loss, n: nat) {
    forall i: nat :: OneLost(losses(i), n)
  }

  /** The machine with its store on the hosts. */
  ghost predicate Mounted(vm: Vm, disks: seq<Disk>, ops: seq<Op>, n: nat) {
    VirtualMemory.Ready(vm, ops) && Backs(disks, View(vm).store, View(vm).blockSize, n)
  }

  /** The machine as the handlers see it: its pages come from the hosts. */
  ghost function Reading(vm: Vm, disks: seq<Disk>, ops: seq<Op>, n: nat, loss: Loss): (reading: Vm)
    requires Mounted(vm, disks, ops, n) && OneLost(loss, n)
    ensures reading == vm
  {
    SeenIsStore(disks, View(vm).store, View(vm).blockSize, n, loss);
    WithStore(vm, Seen(disks, View(vm).blockSize, n, loss))
  }

  /** The hosts after one operation. */
  ghost function StepDisks(vm: Vm, disks: seq<Disk>, ops: seq<Op>, t: Vm, n: nat): (disks': seq<Disk>)
    requires Mounted(vm, disks, ops, n) && Inv(t) && SameShape(vm, t)
    ensures Backs(disks', View(t).store, View(t).blockSize, n)
  {
    InvShape(t);
    SavedBacks(disks, View(vm).store, View(t).store, View(vm).blockSize, n);
    Saved(disks, View(vm).store, View(t).store, View(vm).blockSize, n)
  }

  /** One operation keeps the machine mounted. */
  lemma {:induction false} StepMounted(vm: Vm, disks: seq<Disk>, ops: seq<Op>, dice: nat -> nat, k: nat, n: nat)
    requires Mounted(vm, disks, ops, n) && !Halts(vm, ops)
    ensures var t := StepVm(vm, ops[0], dice, k).vm;
            && Inv(t) && SameShape(vm, t) && Answers(View(t), ops[0])
            && Mounted(t, StepDisks(vm, disks, ops, t, n), ops[1..], n)
  {
    StepServes(vm, ops, dice, k);
    StepIsFlat(vm, ops[0], dice, k);
  }

  /** The run of `VirtualMemory`, with every page read from the hosts and saved to them. */
  ghost function RaidRun(vm: Vm, disks: seq<Disk>, ops: seq<Op>, dice: nat -> nat, k: nat, n: nat, losses: nat -> Loss,
                         i: nat): (r: Trace)
    requires Mounted(vm, disks, ops, n) && OneLostAlways(losses, n)
    decreases |ops|
  {
    var reading := Reading(vm, disks, ops, n, losses(i));
    if Halts(reading, ops) then Trace([], 0, reading)
    else
      StepMounted(vm, disks, ops, dice, k, n);
      var t := StepVm(reading, ops[0], dice, k);
      Then(Answer(View(t.vm), ops[0]),
           RaidRun(t.vm, StepDisks(vm, disks, ops, t.vm, n), ops[1..], dice, t.faults, n, losses, i + 1))
  }

  /** One operation, then the rest of the run. */
  lemma {:induction false} RaidUnfolds(vm: Vm, disks: seq<Disk>, ops: seq<Op>, dice: nat -> nat, k: nat, n: nat,
                                       losses: nat -> Loss, i: nat)
    requires Mounted(vm, disks, ops, n) && OneLostAlways(losses, n) && !Halts(vm, ops)
    ensures var t := StepVm(vm, ops[0], dice, k);
            && Inv(t.vm) && SameShape(vm, t.vm) && Answers(View(t.vm), ops[0])
            && Mounted(t.vm, StepDisks(vm, disks, ops, t.vm, n), ops[1..], n)
            && RaidRun(vm, disks, ops, dice, k, n, losses, i)
            == Then(Answer(View(t.vm), ops[0]), RaidRun(t.vm, StepDisks(vm, disks, ops, t.vm, n), ops[1..], dice,
                                                        t.faults, n, losses, i + 1))
  {
    StepMounted(vm, disks, ops, dice, k, n);
  }

  lemma {:induction false} RaidRunIsRun(vm: Vm, disks: seq<Disk>, ops: seq<Op>, dice: nat -> nat, k: nat, n: nat,
                                        losses: nat -> Loss, i: nat)
    requires Mounted(vm, disks, ops, n) && OneLostAlways(losses, n)
    ensures RaidRun(vm, disks, ops, dice, k, n, losses, i) == Run(vm, ops, dice, k)
    decreases |ops|
  {
    if !Halts(vm, ops) {
      var t := StepVm(vm, ops[0], dice, k);
      RunUnfolds(vm, ops, dice, k);
      RaidUnfolds(vm, disks, ops, dice, k, n, losses, i);
      RaidRunIsRun(t.vm, StepDisks(vm, disks, ops, t.vm, n), ops[1..], dice, t.faults, n, losses, i + 1);
    }
  }

  /** Whatever the policy, the operations, the random numbers and the hosts that fail to answer,
      the program sees a flat memory. */
  lemma {:induction false} RaidRunIsFlat(vm: Vm, disks: seq<Disk>, ops: seq<Op>, dice: nat -> nat, k: nat, n: nat,
                                         losses: nat -> Loss, i: nat)
    requires Mounted(vm, disks, ops, n) && OneLostAlways(losses, n)
    ensures var r := RaidRun(vm, disks, ops, dice, k, n, losses, i);
            && r.done <= |ops| && Uniform(Memory(View(vm)), View(vm).blockSize)
            && r.outs == FlatRun(Memory(View(vm)), ops[..r.done], View(vm).blockSize)
            && (Live(vm) && !(vm.Rand? && FlushAll in ops) ==> r.done == |ops|)
  {
    RaidRunIsRun(vm, disks, ops, dice, k, n, losses, i);
    RunIsFlat(vm, ops, dice, k);
  }
}
