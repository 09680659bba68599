/**
 The simulator as it is programmed: a page directory whose second-level tables are made when
 they are first needed, and arrays for the core map and physical memory. Seen as one flat table,
 it does what `Simulation` says, and the replay loops below produce the runs about which
 `Opt` and `LruStack` prove their theorems.
 */
module Machines {
  import opened Simulation
  import opened Opt
  import opened LruStack
  import opened LruQueues

  const PTRS_PER_PGDIR: nat := 4096
  const PTRS_PER_PGTBL: nat := 4096
  const PAGES: nat := PTRS_PER_PGDIR * PTRS_PER_PGTBL

  /** Second-level tables are either absent, written [], or complete. */
  ghost predicate Tabled(dir: seq<seq<Pte>>) {
    |dir| == PTRS_PER_PGDIR && forall i | 0 <= i < |dir| :: dir[i] == [] || |dir[i]| == PTRS_PER_PGTBL
  }

  /** The entry of a page; a page without a second-level table has a blank one. */
  function EntryIn(dir: seq<seq<Pte>>, page: nat): (p: Pte)
    requires Tabled(dir) && page < PAGES
  {
    var table := dir[page / PTRS_PER_PGTBL];
    if table == [] then BLANK else table[page % PTRS_PER_PGTBL]
  }

  /** The directory as one flat table. */
  ghost function Flat(dir: seq<seq<Pte>>): (ptes: seq<Pte>)
    requires Tabled(dir)
  {
    seq(PAGES, page requires 0 <= page < PAGES => EntryIn(dir, page))
  }

  /** Making a second-level table changes no entry. */
  lemma {:induction false} FlatMake(dir: seq<seq<Pte>>, i: nat)
    requires Tabled(dir) && i < PTRS_PER_PGDIR && dir[i] == []
    ensures var dir' := dir[i := seq(PTRS_PER_PGTBL, _ => BLANK)];
            Tabled(dir') && Flat(dir') == Flat(dir)
  {
  }

  /** Different pages have different places. */
  lemma {:induction false} FlatSet(dir: seq<seq<Pte>>, page: nat, pte: Pte)
    requires Tabled(dir) && page < PAGES && dir[page / PTRS_PER_PGTBL] != []
    ensures var i, j := page / PTRS_PER_PGTBL, page % PTRS_PER_PGTBL;
            var dir' := dir[i := dir[i][j := pte]];
            Tabled(dir') && Flat(dir') == Flat(dir)[page := pte]
  {
    var i, j := page / PTRS_PER_PGTBL, page % PTRS_PER_PGTBL;
    var dir' := dir[i := dir[i][j := pte]];
    forall q: nat | q < PAGES
      ensures EntryIn(dir', q) == if q == page then pte else EntryIn(dir, q)
    {
      assert q / PTRS_PER_PGTBL == i && q % PTRS_PER_PGTBL == j ==> q == page;
    }
  }

  /** After a reference its page is in some frame. */
  lemma {:induction false} StepFrame(s: Sim, line: Line, victim: nat)
    requires Inv(s) && PageOf(line.vaddr) < |s.ptes| && victim < |s.coremap|
    ensures Shaped(s)
    ensures var t := Reference(s, line.vaddr, line.write, victim);
            |t.ptes| == |s.ptes| && t.ptes[PageOf(line.vaddr)].frame < |s.coremap|
  {
    ReferenceKeeps(s, line.vaddr, line.write, victim);
    InvShaped(Reference(s, line.vaddr, line.write, victim));
  }

  class Machine {
    const pgdir: array<seq<Pte>>
    const coremap: array<CoreFrame>
    const physmem: array<PageData>
    var swap: seq<PageData>
    var counts: Counts

    ghost predicate Valid()
      reads this, pgdir
    {
      pgdir.Length == PTRS_PER_PGDIR && Tabled(pgdir[..]) && physmem.Length == coremap.Length > 0
    }

    ghost function View(): (s: Sim)
      requires Valid()
      reads this, pgdir, coremap, physmem
    {
      Sim(Flat(pgdir[..]), coremap[..], physmem[..], swap, counts)
    }

    constructor (frames: nat)
      requires frames > 0
      ensures Valid() && fresh(pgdir) && fresh(coremap) && fresh(physmem) && coremap.Length == frames
      ensures Fresh(View()) && |View().ptes| == PAGES
    {
      pgdir := new seq<Pte>[PTRS_PER_PGDIR](_ => []);
      coremap := new CoreFrame[frames](_ => CoreFrame(false, 0, 0));
      physmem := new PageData[frames](_ => PageData(0, 0));
      swap := [];
      counts := Counts(0, 0, 0, 0, 0);
    }

    /** The entry of a page. */
    function Entry(page: nat): (p: Pte)
      requires Valid() && page < PAGES
      reads this, pgdir
      ensures p == Flat(pgdir[..])[page]
    {
      var table := pgdir[page / PTRS_PER_PGTBL];
      if table == [] then BLANK else table[page % PTRS_PER_PGTBL]
    }

    /** Store through the pointer to an entry, making the second-level table if there is none. */
    method SetEntry(page: nat, pte: Pte)
      requires Valid() && page < PAGES
      modifies pgdir
      ensures Valid() && View() == old(View()).(ptes := old(View()).ptes[page := pte])
    {
      var i, j := page / PTRS_PER_PGTBL, page % PTRS_PER_PGTBL;
      ghost var dir := pgdir[..];
      if pgdir[i] == [] {
        FlatMake(dir, i);
        dir := dir[i := seq(PTRS_PER_PGTBL, _ => BLANK)];
        pgdir[i] := seq(PTRS_PER_PGTBL, _ => BLANK);
      }
      assert pgdir[..] == dir;
      FlatSet(dir, page, pte);
      pgdir[i] := pgdir[i][j := pte];
      assert pgdir[..] == dir[i := dir[i][j := pte]];
    }

    /** The loop of `allocate_frame`. */
    method FindFree() returns (frame: nat)
      ensures frame == FreeFrom(coremap[..], 0)
    {
      frame := 0;
      while frame < coremap.Length && coremap[frame].inUse
        invariant frame <= coremap.Length && FreeFrom(coremap[..], 0) == FreeFrom(coremap[..], frame)
      {
        frame := frame + 1;
      }
    }

    /** `swap_pageout`. */
    method PageOut(page: nat, frame: nat)
      requires Valid() && Shaped(View()) && page < PAGES && frame < coremap.Length
      modifies this`swap, pgdir
      ensures Valid() && View() == Simulation.PageOut(old(View()), page, frame)
    {
      var p := Entry(page);
      if p.swap.None? {
        SetEntry(page, p.(swap := Some(|swap|)));
        swap := swap + [physmem[frame]];
      } else {
        swap := swap[p.swap.value := physmem[frame]];
      }
    }

    /** The second half of `allocate_frame`. */
    method EvictFrame(victim: nat)
      requires Valid() && Shaped(View()) && victim < coremap.Length && coremap[victim].inUse
      modifies this`swap, this`counts, pgdir
      ensures Valid() && View() == Evict(old(View()), victim)
    {
      var page := coremap[victim].page;
      assert View().coremap[victim] == coremap[victim];
      if Entry(page).dirty {
        PageOut(page, victim);
        SetEntry(page, Entry(page).(valid := false, onSwap := true));
        counts := counts.(dirty := counts.dirty + 1);
      } else {
        SetEntry(page, Entry(page).(valid := false));
        counts := counts.(clean := counts.clean + 1);
      }
    }

    /** The two miss cases of `find_physpage`, once there is a frame. */
    method BringIn(page: nat, vaddr: nat, frame: nat)
      requires Valid() && Shaped(View()) && page < PAGES && frame < coremap.Length
      modifies pgdir, coremap, physmem
      ensures Valid() && View() == Bring(old(View()), page, vaddr, frame)
    {
      var p := Entry(page);
      if !p.onSwap {
        physmem[frame] := PageData(0, vaddr);
        SetEntry(page, Pte(frame, false, true, false, false, p.swap));
      } else {
        physmem[frame] := swap[p.swap.value];
        SetEntry(page, Pte(frame, false, false, false, true, p.swap));
      }
      coremap[frame] := CoreFrame(true, page, Align(vaddr));
    }

    method Load(page: nat, vaddr: nat, victim: nat)
      requires Valid() && Shaped(View()) && page < PAGES && !Entry(page).valid && victim < coremap.Length
      modifies this`swap, this`counts, pgdir, coremap, physmem
      ensures Valid() && View() == Miss(old(View()), page, vaddr, victim)
    {
      RoomShape(View(), victim);
      var frame := FindFree();
      if frame == coremap.Length {
        EvictFrame(victim);
        frame := victim;
      }
      BringIn(page, vaddr, frame);
      counts := counts.(misses := counts.misses + 1);
    }

    method Mark(page: nat, write: bool)
      requires Valid() && page < PAGES && Entry(page).frame < coremap.Length
      modifies this`counts, pgdir, physmem
      ensures Valid() && View() == Touch(old(View()), page, write)
    {
      var p := Entry(page);
      counts := counts.(refs := counts.refs + 1);
      SetEntry(page, p.(valid := true, referenced := true, dirty := p.dirty || write));
      if write {
        physmem[p.frame] := physmem[p.frame].(version := physmem[p.frame].version + 1);
      }
    }

    /** `access_mem`; the victim is what the policy's evict function returns, if it is called. */
    method Access(vaddr: nat, write: bool, victim: nat)
      requires Valid() && Inv(View()) && PageOf(vaddr) < PAGES && victim < coremap.Length
      modifies this`swap, this`counts, pgdir, coremap, physmem
      ensures Valid() && old(Shaped(View())) && View() == Reference(old(View()), vaddr, write, victim)
    {
      InvShaped(View());
      var page := PageOf(vaddr);
      if Entry(page).valid {
        counts := counts.(hits := counts.hits + 1);
      } else {
        Load(page, vaddr, victim);
      }
      Mark(page, write);
    }

    /** One line of the trace; also returns the frame that the policy's ref function is told. */
    method Step(line: Line, victim: nat, ghost s: Sim) returns (frame: nat, ghost t: Sim)
      requires Valid() && View() == s && Inv(s) && PageOf(line.vaddr) < PAGES && victim < coremap.Length
      modifies this`swap, this`counts, pgdir, coremap, physmem
      ensures Valid() && View() == t && Stepped(s, line, victim, t)
      ensures PageOf(line.vaddr) < |t.ptes| && frame == t.ptes[PageOf(line.vaddr)].frame < coremap.Length
    {
      StepFrame(s, line, victim);
      Access(line.vaddr, line.write, victim);
      t := View();
      frame := Entry(PageOf(line.vaddr)).frame;
    }

    /** Will the next reference call the policy's evict function? */
    method NeedsEviction(line: Line) returns (needed: bool)
      requires Valid() && PageOf(line.vaddr) < PAGES
      ensures needed <==> NeedsVictim(View(), line)
    {
      var free := FindFree();
      needed := free == coremap.Length && !Entry(PageOf(line.vaddr)).valid;
    }
  }

  // ---------- replay ----------

  /** Appending one step to a run. */
  lemma {:induction false} RunExtends(states: seq<Sim>, lines: seq<Line>, victims: seq<nat>, line: Line, victim: nat,
                                      t: Sim)
    requires Run(states, lines, victims) && Stepped(states[|lines|], line, victim, t)
    ensures Run(states + [t], lines + [line], victims + [victim])
  {
    var states', lines', victims' := states + [t], lines + [line], victims + [victim];
    forall i | 0 <= i < |lines'|
      ensures Stepped(states'[i], lines'[i], victims'[i], states'[i + 1])
    {
      if i < |lines| {
        assert Stepped(states[i], lines[i], victims[i], states[i + 1]);
      }
    }
  }

  lemma {:induction false} LruExtends(states: seq<Sim>, queues: seq<seq<nat>>, lines: seq<Line>, victims: seq<nat>,
                                      line: Line, victim: nat, t: Sim, queue: seq<nat>)
    requires LruRun(states, queues, lines, victims) && Stepped(states[|lines|], line, victim, t)
    requires LruStep(states[|lines|], queues[|lines|], line, victim, t, queue)
    ensures LruRun(states + [t], queues + [queue], lines + [line], victims + [victim])
  {
    RunExtends(states, lines, victims, line, victim, t);
    var states', queues', lines', victims' := states + [t], queues + [queue], lines + [line], victims + [victim];
    forall i | 0 <= i < |lines'|
      ensures LruStep(states'[i], queues'[i], lines'[i], victims'[i], states'[i + 1], queues'[i + 1])
    {
      if i < |lines| {
        assert LruStep(states[i], queues[i], lines[i], victims[i], states[i + 1], queues[i + 1]);
      }
    }
  }

  /** The victim, taken from the queue if the reference needs one. */
  method ChooseLru(machine: Machine, queue: Queue, line: Line, ghost s: Sim, ghost pages: seq<nat>)
    returns (victim: nat)
    requires machine.Valid() && machine.View() == s && queue.Valid() && PageOf(line.vaddr) < PAGES
    requires Holds(s, queue.Contents(), pages)
    modifies queue, queue.refed
    ensures queue.Valid() && queue.repr == old(queue.repr)
    ensures victim < |s.coremap|
    ensures if NeedsVictim(s, line) then [victim] + queue.Contents() == old(queue.Contents())
            else queue.Contents() == old(queue.Contents())
  {
    var needed := machine.NeedsEviction(line);
    victim := 0;
    if needed {
      assert s.coremap[0].inUse;
      assert 0 in queue.Contents();
      victim := queue.Evict();
      assert old(queue.Contents())[0] == victim;
    }
  }

  /** One line of the trace under LRU. */
  method StepLru(machine: Machine, queue: Queue, line: Line, ghost s: Sim, ghost pages: seq<nat>)
    returns (victim: nat, ghost t: Sim)
    requires machine.Valid() && machine.View() == s && queue.Valid() && PageOf(line.vaddr) < PAGES
    requires queue.refed.Length == |s.coremap| && Inv(s) && Holds(s, queue.Contents(), pages)
    modifies machine`swap, machine`counts, machine.pgdir, machine.coremap, machine.physmem
    modifies queue, queue.refed, queue.repr
    ensures machine.Valid() && machine.View() == t && queue.Valid()
    ensures Stepped(s, line, victim, t) && LruStep(s, old(queue.Contents()), line, victim, t, queue.Contents())
    ensures forall n | n in queue.repr :: n in old(queue.repr) || fresh(n)
  {
    victim := ChooseLru(machine, queue, line, s, pages);
    var frame;
    frame, t := machine.Step(line, victim, s);
    queue.Ref(frame);
  }

  /** The run that a replay has produced so far, and the machine and the queue at its end. */
  ghost predicate ReplayedLru(machine: Machine, queue: Queue, states: seq<Sim>, queues: seq<seq<nat>>, lines: seq<Line>,
                              victims: seq<nat>)
    reads machine, machine.pgdir, machine.coremap, machine.physmem, queue, queue.refed, queue.repr
  {
    && machine.Valid() && queue.Valid() && queue.refed.Length == machine.coremap.Length
    && LruRun(states, queues, lines, victims) && |states[0].coremap| == machine.coremap.Length
    && machine.View() == states[|lines|] && queue.Contents() == queues[|lines|]
  }

  method AdvanceLru(machine: Machine, queue: Queue, line: Line, ghost states: seq<Sim>, ghost queues: seq<seq<nat>>,
                    ghost lines: seq<Line>, ghost victims: seq<nat>)
    returns (ghost states': seq<Sim>, ghost queues': seq<seq<nat>>, ghost victims': seq<nat>)
    requires ReplayedLru(machine, queue, states, queues, lines, victims) && PageOf(line.vaddr) < PAGES
    modifies machine`swap, machine`counts, machine.pgdir, machine.coremap, machine.physmem
    modifies queue, queue.refed, queue.repr
    ensures ReplayedLru(machine, queue, states', queues', lines + [line], victims')
    ensures forall n | n in queue.repr :: n in old(queue.repr) || fresh(n)
  {
    ghost var n := |lines|;
    RunCoherent(states, lines, victims, n);
    RunKeepsRecent(states, queues, lines, victims, n);
    var victim, t := StepLru(machine, queue, line, states[n], Last(History(PagesOf(lines), n), |states[0].coremap|));
    LruExtends(states, queues, lines, victims, line, victim, t, queue.Contents());
    states', queues', victims' := states + [t], queues + [queue.Contents()], victims + [victim];
  }

  /** Replay a trace under LRU: the machine goes through an LRU run. */
  method ReplayLru(lines: seq<Line>, frames: nat)
    returns (machine: Machine, ghost states: seq<Sim>, ghost queues: seq<seq<nat>>, ghost victims: seq<nat>)
    requires frames > 0 && forall i | 0 <= i < |lines| :: PageOf(lines[i].vaddr) < PAGES
    ensures machine.Valid() && LruRun(states, queues, lines, victims)
    ensures machine.View() == states[|lines|] && |states[0].coremap| == frames
  {
    machine := new Machine(frames);
    var queue := new Queue(frames);
    states, queues, victims := [machine.View()], [[]], [];
    assert lines[..0] == [];
    for i := 0 to |lines|
      invariant fresh(machine) && fresh(machine.pgdir) && fresh(machine.coremap) && fresh(machine.physmem)
      invariant fresh(queue) && fresh(queue.refed) && fresh(queue.repr)
      invariant machine.coremap.Length == frames
      invariant ReplayedLru(machine, queue, states, queues, lines[..i], victims)
    {
      states, queues, victims := AdvanceLru(machine, queue, lines[i], states, queues, lines[..i], victims);
      assert lines[..i + 1] == lines[..i] + [lines[i]];
    }
    assert lines[..|lines|] == lines;
  }

  /** The part of a run under OPT that has been made so far: the policy looks at the whole trace. */
  ghost predicate OptSoFar(states: seq<Sim>, lines: seq<Line>, n: nat, victims: seq<nat>) {
    && n <= |lines| && Run(states, lines[..n], victims)
    && forall i {:trigger victims[i]} | 0 <= i < n && NeedsVictim(states[i], lines[i]) ::
         Picks(states[i].coremap, Addresses(lines), i, victims[i])
  }

  lemma {:induction false} OptExtends(states: seq<Sim>, lines: seq<Line>, n: nat, victims: seq<nat>, victim: nat,
                                      t: Sim)
    requires OptSoFar(states, lines, n, victims) && n < |lines| && Stepped(states[n], lines[n], victim, t)
    requires NeedsVictim(states[n], lines[n]) ==> Picks(states[n].coremap, Addresses(lines), n, victim)
    ensures OptSoFar(states + [t], lines, n + 1, victims + [victim])
  {
    RunExtends(states, lines[..n], victims, lines[n], victim, t);
    assert lines[..n + 1] == lines[..n] + [lines[n]];
    forall i | 0 <= i < n + 1 && NeedsVictim((states + [t])[i], lines[i])
      ensures Picks((states + [t])[i].coremap, Addresses(lines), i, (victims + [victim])[i])
    {
      if i < n {
        assert Picks(states[i].coremap, Addresses(lines), i, victims[i]);
      }
    }
  }

  ghost predicate ReplayedOpt(machine: Machine, policy: Policy, states: seq<Sim>, lines: seq<Line>, n: nat,
                              victims: seq<nat>)
    reads machine, machine.pgdir, machine.coremap, machine.physmem, policy
  {
    && machine.Valid() && policy.Valid() && policy.dist.Length == machine.coremap.Length
    && policy.trace == Addresses(lines) && (n < |lines| ==> policy.curr == n)
    && OptSoFar(states, lines, n, victims) && |states[0].coremap| == machine.coremap.Length
    && machine.View() == states[n]
  }

  /** The victim that OPT names, if the reference needs one. */
  method ChooseOpt(machine: Machine, policy: Policy, line: Line, ghost s: Sim) returns (victim: nat)
    requires machine.Valid() && machine.View() == s && PageOf(line.vaddr) < PAGES
    requires policy.Valid() && policy.trace != [] && policy.dist.Length == machine.coremap.Length
    modifies policy.dist
    ensures victim < |s.coremap|
    ensures NeedsVictim(s, line) ==> Picks(s.coremap, policy.trace, policy.curr, victim)
  {
    var needed := machine.NeedsEviction(line);
    victim := 0;
    if needed {
      victim := policy.Evict(machine.coremap[..]);
    }
  }

  method AdvanceOpt(machine: Machine, policy: Policy, lines: seq<Line>, n: nat, ghost states: seq<Sim>,
                    ghost victims: seq<nat>)
    returns (ghost states': seq<Sim>, ghost victims': seq<nat>)
    requires ReplayedOpt(machine, policy, states, lines, n, victims) && n < |lines| && PageOf(lines[n].vaddr) < PAGES
    modifies machine`swap, machine`counts, machine.pgdir, machine.coremap, machine.physmem, policy`curr, policy.dist
    ensures ReplayedOpt(machine, policy, states', lines, n + 1, victims')
  {
    RunCoherent(states, lines[..n], victims, n);
    var victim := ChooseOpt(machine, policy, lines[n], states[n]);
    var _, t := machine.Step(lines[n], victim, states[n]);
    OptExtends(states, lines, n, victims, victim, t);
    policy.Ref();
    states', victims' := states + [t], victims + [victim];
  }

  /** Replay a trace under OPT: the machine goes through an OPT run, so by `OptFewestMisses` no
      policy ends with a lower miss counter. */
  method ReplayOpt(lines: seq<Line>, frames: nat)
    returns (machine: Machine, ghost states: seq<Sim>, ghost victims: seq<nat>)
    requires frames > 0 && forall i | 0 <= i < |lines| :: PageOf(lines[i].vaddr) < PAGES
    ensures machine.Valid() && OptRun(states, lines, victims)
    ensures machine.View() == states[|lines|] && |states[0].coremap| == frames
  {
    machine := new Machine(frames);
    var policy := new Policy(lines, frames);
    states, victims := [machine.View()], [];
    assert lines[..0] == [];
    for i := 0 to |lines|
      invariant fresh(machine) && fresh(machine.pgdir) && fresh(machine.coremap) && fresh(machine.physmem)
      invariant fresh(policy) && fresh(policy.dist) && machine.coremap.Length == frames
      invariant ReplayedOpt(machine, policy, states, lines, i, victims)
    {
      states, victims := AdvanceOpt(machine, policy, lines, i, states, victims);
    }
    assert lines[..|lines|] == lines;
  }
}
