/**
 When a run under RAND is left unfinished. The flush does not give back the frames that were
 handed out, so `Stops` can be computed from the operations alone: some load or store comes
 after a flush at which every frame had been handed out. `RandStopsIff` shows that this is
 exactly when the handler fails to return, and `RandGetsStuck` is the smallest such program.
 */
module RandRuns {
  import opened Paging
  import opened VirtualMemory
  import Probing

  /** How many frames have been handed out after these operations. */
  function Handed(held: set<nat>, count: nat, frames: nat, ops: seq<Op>): (n: nat)
    decreases |ops|
  {
    if ops == [] then count
    else if ops[0].FlushAll? then Handed({}, count, frames, ops[1..])
    else if ops[0].page in held || count == frames then Handed(held, count, frames, ops[1..])
    else Handed(held + {ops[0].page}, count + 1, frames, ops[1..])
  }

  /** A load or a store follows a flush at which every frame had been handed out. */
  ghost predicate Stops(held: set<nat>, count: nat, frames: nat, ops: seq<Op>) {
    exists i, j | 0 <= i < j < |ops| ::
      ops[i].FlushAll? && !ops[j].FlushAll? && Handed(held, count, frames, ops[..i]) == frames
  }

  lemma {:induction false} HandedFull(held: set<nat>, frames: nat, ops: seq<Op>)
    ensures Handed(held, frames, frames, ops) == frames
    decreases |ops|
  {
    if ops != [] {
      HandedFull(if ops[0].FlushAll? then {} else held, frames, ops[1..]);
    }
  }

  /** Once every frame has been handed out, it does not matter which pages have one. */
  lemma {:induction false} StopsFull(held: set<nat>, held': set<nat>, frames: nat, ops: seq<Op>)
    ensures Stops(held, frames, frames, ops) <==> Stops(held', frames, frames, ops)
  {
    forall i | 0 <= i <= |ops|
      ensures Handed(held, frames, frames, ops[..i]) == frames == Handed(held', frames, frames, ops[..i])
    {
      HandedFull(held, frames, ops[..i]);
      HandedFull(held', frames, ops[..i]);
    }
  }

  /** The first operation is not the flush in question: look at the others. */
  lemma {:induction false} StopsLater(held: set<nat>, count: nat, held': set<nat>, count': nat, frames: nat,
                                      ops: seq<Op>)
    requires |ops| > 0
    requires forall i: nat | 0 < i <= |ops| ::
        Handed(held, count, frames, ops[..i]) == Handed(held', count', frames, ops[1..][..i - 1])
    requires ops[0].FlushAll? ==> count != frames
    ensures Stops(held, count, frames, ops) <==> Stops(held', count', frames, ops[1..])
  {
    var rest := ops[1..];
    if Stops(held, count, frames, ops) {
      var i, j :| 0 <= i < j < |ops| && ops[i].FlushAll? && !ops[j].FlushAll?
                  && Handed(held, count, frames, ops[..i]) == frames;
      assert ops[..0] == [];
      assert rest[i - 1].FlushAll? && !rest[j - 1].FlushAll?;
    }
    if Stops(held', count', frames, rest) {
      var i, j :| 0 <= i < j < |rest| && rest[i].FlushAll? && !rest[j].FlushAll?
                  && Handed(held', count', frames, rest[..i]) == frames;
      assert ops[i + 1].FlushAll? && !ops[j + 1].FlushAll?;
    }
  }

  lemma {:induction false} HandedStep(held: set<nat>, count: nat, frames: nat, ops: seq<Op>, i: nat)
    requires 0 < i <= |ops|
    ensures Handed(held, count, frames, ops[..i]) ==
            if ops[0].FlushAll? then Handed({}, count, frames, ops[1..][..i - 1])
            else if ops[0].page in held || count == frames then Handed(held, count, frames, ops[1..][..i - 1])
            else Handed(held + {ops[0].page}, count + 1, frames, ops[1..][..i - 1])
  {
    assert ops[..i][1..] == ops[1..][..i - 1];
  }

  lemma {:induction false} StopsStep(held: set<nat>, count: nat, frames: nat, ops: seq<Op>)
    requires |ops| > 0 && (ops[0].FlushAll? ==> count != frames)
    ensures Stops(held, count, frames, ops) <==>
            if ops[0].FlushAll? then Stops({}, count, frames, ops[1..])
            else if ops[0].page in held || count == frames then Stops(held, count, frames, ops[1..])
            else Stops(held + {ops[0].page}, count + 1, frames, ops[1..])
  {
    forall i: nat | 0 < i <= |ops| {
      HandedStep(held, count, frames, ops, i);
    }
    if ops[0].FlushAll? {
      StopsLater(held, count, {}, count, frames, ops);
    } else if ops[0].page in held || count == frames {
      StopsLater(held, count, held, count, frames, ops);
    } else {
      StopsLater(held, count, held + {ops[0].page}, count + 1, frames, ops);
    }
  }

  // ---------- what an operation hands out ----------

  /** What an access to a page does to the counter and, while frames are left, to the pages held. */
  ghost predicate Accessed(vm: Vm, page: nat, t: Vm)
    requires vm.Rand? && t.Rand?
  {
    var full := vm.hashed.count == |View(vm).frames|;
    && |View(t).frames| == |View(vm).frames|
    && t.hashed.count == (if page in Held(vm) || full then vm.hashed.count else vm.hashed.count + 1)
    && (!full ==> Held(t) == Held(vm) + {page})
  }

  lemma {:induction false} FaultAccesses(vm: Vm, page: nat, dice: nat)
    requires vm.Rand? && Inv(vm) && Live(vm) && page < |View(vm).prot|
    ensures Fault(vm, page, dice).Rand? && Accessed(vm, page, Fault(vm, page, dice))
  {
    InvShape(vm);
    HashedFault(vm.hashed, page, dice);
    var t := Fault(vm, page, dice);
    if vm.hashed.count < |View(vm).frames| {
      assert Held(t) == Held(vm) + {page};
    }
  }

  /** A fault hands out a frame if the page has none and one is left. */
  lemma {:induction false} HashedFault(m: Probing.Hashed, page: nat, dice: nat)
    requires Probing.Inv(m) && Probing.Live(m) && page < |m.pages.prot|
    ensures var t := Probing.Fault(m, page, dice);
            && |t.pages.prot| == |m.pages.prot| && |t.pages.frames| == |m.pages.frames|
            && t.count == (if m.pages.Resident(page) || m.count == |m.pages.frames| then m.count else m.count + 1)
            && (m.count < |m.pages.frames| ==>
                  forall p: nat :: t.pages.Resident(p) <==> m.pages.Resident(p) || p == page)
  {
  }

  lemma {:induction false} AccessHands(vm: Vm, page: nat, write: bool, dice: nat -> nat, k: nat)
    requires vm.Rand? && Inv(vm) && Live(vm) && page < |View(vm).prot|
    ensures var t := Access(vm, page, write, dice, k).vm; t.Rand? && Accessed(vm, page, t)
    decreases Missing(View(vm).prot[page], write)
  {
    InvShape(vm);
    if Allowed(View(vm).prot[page], write) {
      assert Held(vm) == Held(vm) + {page};
    } else {
      FaultKeeps(vm, page, dice(k));
      FaultAccesses(vm, page, dice(k));
      AccessHands(Fault(vm, page, dice(k)), page, write, dice, k + 1);
      assert page in Held(Fault(vm, page, dice(k)));
    }
  }

  /** One operation, as `Handed` counts it. */
  lemma {:induction false} StepHands(vm: Vm, op: Op, dice: nat -> nat, k: nat)
    requires vm.Rand? && Inv(vm) && InRange(op, |View(vm).prot|, View(vm).blockSize) && (op.FlushAll? || Live(vm))
    ensures var t := StepVm(vm, op, dice, k).vm;
            && t.Rand?
            && (!op.FlushAll? ==> Accessed(vm, op.page, t))
            && (op.FlushAll? ==>
                  t.hashed.count == vm.hashed.count && |View(t).frames| == |View(vm).frames| && Held(t) == {})
  {
    InvShape(vm);
    match op
    case FlushAll =>
      FlushKeeps(vm);
      Probing.FlushToKeeps(vm.hashed, |vm.hashed.chains|);
    case Get(page, off) =>
      AccessHands(vm, page, false, dice, k);
    case Put(page, off, v) =>
      AccessHands(vm, page, true, dice, k);
      AccessKeeps(vm, page, true, dice, k);
      var r := Access(vm, page, true, dice, k).vm;
      assert Held(Written(r, page, off, v)) == Held(r);
  }

  // ---------- whole runs ----------

  /** There is a load or a store. */
  predicate SomeAccess(ops: seq<Op>)
    decreases |ops|
  {
    ops != [] && (!ops[0].FlushAll? || SomeAccess(ops[1..]))
  }

  lemma {:induction false} SomeAccessAt(ops: seq<Op>, j: nat)
    requires j < |ops| && !ops[j].FlushAll?
    ensures SomeAccess(ops)
    decreases |ops|
  {
    if j > 0 {
      SomeAccessAt(ops[1..], j - 1);
    }
  }

  lemma {:induction false} WhereAccess(ops: seq<Op>) returns (j: nat)
    requires SomeAccess(ops)
    ensures j < |ops| && !ops[j].FlushAll?
    decreases |ops|
  {
    j := 0;
    if ops[0].FlushAll? {
      j := WhereAccess(ops[1..]);
      j := j + 1;
    }
  }

  /** A run that is stuck only gets through flushes. */
  lemma {:induction false} StuckIff(vm: Vm, ops: seq<Op>, dice: nat -> nat, k: nat)
    requires Ready(vm, ops) && vm.Rand? && !Live(vm)
    ensures Run(vm, ops, dice, k).done < |ops| <==> SomeAccess(ops)
    decreases |ops|
  {
    if |ops| > 0 && ops[0].FlushAll? {
      var t := StepVm(vm, ops[0], dice, k);
      StepServes(vm, ops, dice, k);
      RunUnfolds(vm, ops, dice, k);
      FlushKeeps(vm);
      StuckIff(t.vm, ops[1..], dice, t.faults);
    }
  }

  /** A flush at which every frame had been handed out: stuck at the next load or store. */
  lemma {:induction false} StopsAtOnce(held: set<nat>, frames: nat, ops: seq<Op>)
    requires |ops| > 0 && ops[0].FlushAll?
    ensures Stops(held, frames, frames, ops) <==> SomeAccess(ops[1..])
  {
    if Stops(held, frames, frames, ops) {
      var i, j :| 0 <= i < j < |ops| && ops[i].FlushAll? && !ops[j].FlushAll?
                  && Handed(held, frames, frames, ops[..i]) == frames;
      SomeAccessAt(ops[1..], j - 1);
    }
    if SomeAccess(ops[1..]) {
      var j := WhereAccess(ops[1..]);
      assert ops[0].FlushAll? && !ops[j + 1].FlushAll?;
      assert Handed(held, frames, frames, ops[..0]) == frames;
    }
  }

  /** An operation, other than such a flush, leaves the question to the operations after it. */
  lemma {:induction false} StopsNext(vm: Vm, ops: seq<Op>, dice: nat -> nat, k: nat)
    requires Ready(vm, ops) && vm.Rand? && Live(vm) && |ops| > 0
    requires ops[0].FlushAll? ==> vm.hashed.count != |View(vm).frames|
    ensures var t := StepVm(vm, ops[0], dice, k).vm;
            t.Rand? && (Stops(Held(vm), vm.hashed.count, |View(vm).frames|, ops)
                        <==> Stops(Held(t), t.hashed.count, |View(t).frames|, ops[1..]))
  {
    var t, n := StepVm(vm, ops[0], dice, k).vm, |View(vm).frames|;
    StepHands(vm, ops[0], dice, k);
    StopsStep(Held(vm), vm.hashed.count, n, ops);
    if vm.hashed.count == n {
      StopsFull(Held(vm), Held(t), n, ops[1..]);
    } else if !ops[0].FlushAll? && ops[0].page in Held(vm) {
      assert Held(t) == Held(vm);
    }
  }

  /** A flush when every frame has been handed out. */
  lemma {:induction false} StopsNow(vm: Vm, ops: seq<Op>, dice: nat -> nat, k: nat)
    requires Ready(vm, ops) && vm.Rand? && |ops| > 0 && ops[0].FlushAll? && vm.hashed.count == |View(vm).frames|
    ensures Run(vm, ops, dice, k).done < |ops| <==> Stops(Held(vm), vm.hashed.count, |View(vm).frames|, ops)
  {
    var t := StepVm(vm, ops[0], dice, k);
    StepServes(vm, ops, dice, k);
    RunUnfolds(vm, ops, dice, k);
    FlushKeeps(vm);
    StuckIff(t.vm, ops[1..], dice, t.faults);
    StopsAtOnce(Held(vm), |View(vm).frames|, ops);
  }

  /** A run under RAND is left unfinished if and only if a load or a store follows a flush at
      which every frame had been handed out, whatever the random numbers. */
  lemma {:induction false} RandStopsIff(vm: Vm, ops: seq<Op>, dice: nat -> nat, k: nat)
    requires Ready(vm, ops) && vm.Rand? && Live(vm)
    ensures Run(vm, ops, dice, k).done < |ops| <==> Stops(Held(vm), vm.hashed.count, |View(vm).frames|, ops)
    decreases |ops|
  {
    if |ops| > 0 {
      if ops[0].FlushAll? && vm.hashed.count == |View(vm).frames| {
        StopsNow(vm, ops, dice, k);
      } else {
        var t := StepVm(vm, ops[0], dice, k);
        StepServes(vm, ops, dice, k);
        RunUnfolds(vm, ops, dice, k);
        StopsNext(vm, ops, dice, k);
        StepLives(vm, ops[0], dice, k);
        RandStopsIff(t.vm, ops[1..], dice, t.faults);
      }
    }
  }

  lemma {:induction false} StepLives(vm: Vm, op: Op, dice: nat -> nat, k: nat)
    requires vm.Rand? && Inv(vm) && Live(vm) && InRange(op, |View(vm).prot|, View(vm).blockSize)
    requires op.FlushAll? ==> vm.hashed.count != |View(vm).frames|
    ensures Live(StepVm(vm, op, dice, k).vm)
  {
    InvShape(vm);
    if op.FlushAll? {
      FlushKeeps(vm);
    } else {
      StepIsFlat(vm, op, dice, k);
    }
  }

  /** One page and one frame. */
  ghost function Smallest(): (vm: Vm)
    ensures vm.Rand? && vm.hashed.count == 0 && |View(vm).frames| == 1 && Held(vm) == {}
    ensures Inv(vm) && Live(vm) && View(vm).Sized() && |View(vm).prot| == 1 == View(vm).blockSize
  {
    var s := Pages([0], [NoAccess], [[0]], [[0]], 1);
    assert forall p: nat :: !s.Resident(p);
    Rand(Probing.Hashed(s, [[]], 0))
  }

  /** Load, flush, load: the second load never returns. */
  lemma {:induction false} RandGetsStuck(dice: nat -> nat)
    ensures var ops := [Get(0, 0), FlushAll, Get(0, 0)];
            Ready(Smallest(), ops) && Run(Smallest(), ops, dice, 0).done == 2
  {
    var vm, ops := Smallest(), [Get(0, 0), FlushAll, Get(0, 0)];
    RandStopsIff(vm, ops, dice, 0);
    assert Stops({}, 0, 1, ops) by {
      assert ops[..1] == [Get(0, 0)];
      assert ops[1].FlushAll? && !ops[2].FlushAll?;
      assert Handed({}, 0, 1, ops[..1]) == 1;
    }
    RunUnfolds(vm, ops, dice, 0);
    var t := StepVm(vm, ops[0], dice, 0);
    RunUnfolds(t.vm, ops[1..], dice, t.faults);
  }

  // ---------- runs that go on ----------

  /** The operations that are left will all finish. */
  ghost predicate GoesOn(vm: Vm, ops: seq<Op>)
    requires vm.Rand?
  {
    if Live(vm) then !Stops(Held(vm), vm.hashed.count, |View(vm).frames|, ops) else !SomeAccess(ops)
  }

  /** The next operation finishes, and so do those after it. */
  lemma {:induction false} GoesOnStep(vm: Vm, ops: seq<Op>, dice: nat -> nat, k: nat)
    requires Ready(vm, ops) && vm.Rand? && |ops| > 0 && GoesOn(vm, ops)
    ensures ops[0].FlushAll? || Live(vm)
    ensures var t := StepVm(vm, ops[0], dice, k).vm; t.Rand? && GoesOn(t, ops[1..])
  {
    StepHands(vm, ops[0], dice, k);
    if ops[0].FlushAll? {
      FlushKeeps(vm);
    }
    if !Live(vm) || (ops[0].FlushAll? && vm.hashed.count == |View(vm).frames|) {
      if Live(vm) {
        StopsAtOnce(Held(vm), |View(vm).frames|, ops);
      }
    } else {
      StopsNext(vm, ops, dice, k);
      StepLives(vm, ops[0], dice, k);
    }
  }
}
