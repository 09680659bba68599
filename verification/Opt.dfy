/**
 The simulator's OPT policy: for every frame, look ahead in the trace for the next reference
 to the page it holds, and evict the first frame that is needed last. `OptFewestMisses` ties it
 to the simulator: whatever any other policy evicts, its miss counter is never below OPT's.
 */
module Opt {
  import opened Simulation
  import opened Belady

  /** The pages and the page-aligned addresses that a trace refers to. */
  function PagesOf(lines: seq<Line>): (pages: seq<nat>) {
    seq(|lines|, i requires 0 <= i < |lines| => PageOf(lines[i].vaddr))
  }

  function Addresses(lines: seq<Line>): (trace: seq<nat>) {
    seq(|lines|, i requires 0 <= i < |lines| => Align(lines[i].vaddr))
  }

  /** The first frame whose page is needed last. */
  ghost predicate Picks(coremap: seq<CoreFrame>, trace: seq<nat>, k: nat, victim: nat)
    requires k < |trace|
  {
    && victim < |coremap|
    && (forall f | 0 <= f < |coremap| ::
          NextUse(trace, k + 1, coremap[f].vaddr) <= NextUse(trace, k + 1, coremap[victim].vaddr))
    && (forall f | 0 <= f < victim ::
          NextUse(trace, k + 1, coremap[f].vaddr) < NextUse(trace, k + 1, coremap[victim].vaddr))
  }

  class Policy {
    const trace: seq<nat>
    var curr: nat
    const dist: array<nat>

    /** The current position is a reference of the trace, unless the trace is empty. */
    ghost predicate Valid()
      reads this
    {
      curr < |trace| || curr == |trace| == 0
    }

    /** `opt_init`: collect the aligned addresses of the trace. */
    constructor (lines: seq<Line>, frames: nat)
      ensures Valid() && fresh(dist)
      ensures trace == Addresses(lines) && curr == 0 && dist.Length == frames
    {
      var list: seq<nat> := [];
      for i := 0 to |lines|
        invariant list == Addresses(lines)[..i]
      {
        list := list + [Align(lines[i].vaddr)];
      }
      trace := list;
      curr := 0;
      dist := new nat[frames];
    }

    /** How far ahead the next reference to an address is, if there is one. */
    method Distance(vaddr: nat) returns (found: bool, distance: nat)
      requires Valid() && trace != []
      ensures curr + 1 + distance == NextUse(trace, curr + 1, vaddr)
      ensures found <==> NextUse(trace, curr + 1, vaddr) < |trace|
    {
      distance := 0;
      var p := curr + 1;
      while p < |trace| && trace[p] != vaddr
        invariant p == curr + 1 + distance <= |trace|
        invariant NextUse(trace, curr + 1, vaddr) == NextUse(trace, p, vaddr)
      {
        distance := distance + 1;
        p := p + 1;
      }
      found := p < |trace|;
    }

    /** `opt_evict`. */
    method Evict(coremap: seq<CoreFrame>) returns (victim: nat)
      requires Valid() && trace != [] && 0 < |coremap| == dist.Length
      modifies dist
      ensures Picks(coremap, trace, curr, victim)
    {
      for i := 0 to |coremap|
        invariant forall f | 0 <= f < i ::
            NextUse(trace, curr + 1, coremap[f].vaddr) == curr + 1 + dist[f] < |trace|
      {
        var found, distance := Distance(coremap[i].vaddr);
        if !found {
          return i;
        }
        dist[i] := distance;
      }
      victim := Longest();
    }

    /** The second loop of `opt_evict`: the first longest distance. */
    method Longest() returns (longest: nat)
      requires dist.Length > 0
      ensures longest < dist.Length
      ensures forall f | 0 <= f < dist.Length :: dist[f] <= dist[longest]
      ensures forall f | 0 <= f < longest :: dist[f] < dist[longest]
    {
      var longestDist := -1;
      var longestFrame := -1;
      for i := 0 to dist.Length
        invariant if i == 0 then longestDist == longestFrame == -1
                  else 0 <= longestFrame < i && longestDist == dist[longestFrame]
        invariant forall f | 0 <= f < i :: dist[f] <= longestDist
        invariant forall f | 0 <= f < longestFrame :: dist[f] < longestDist
      {
        if dist[i] > longestDist {
          longestFrame := i;
          longestDist := dist[i];
        }
      }
      longest := longestFrame;
    }

    /** `opt_ref`: the next position, going round at the end. */
    method Ref()
      requires Valid() && trace != []
      modifies this`curr
      ensures Valid()
      ensures curr == if old(curr) + 1 < |trace| then old(curr) + 1 else 0
    {
      curr := curr + 1;
      if curr == |trace| {
        curr := 0;
      }
    }
  }

  // ---------- the simulator under OPT ----------

  lemma {:induction false} NextUseAligned(lines: seq<Line>, k: nat, p: nat)
    requires k <= |lines|
    ensures NextUse(Addresses(lines), k, p * PAGE_SIZE) == NextUse(PagesOf(lines), k, p)
    decreases |lines| - k
  {
    if k < |lines| {
      assert Addresses(lines)[k] == p * PAGE_SIZE <==> PagesOf(lines)[k] == p;
      NextUseAligned(lines, k + 1, p);
    }
  }

  /** A run whose victims, where one is needed, are OPT's. */
  ghost predicate OptRun(states: seq<Sim>, lines: seq<Line>, victims: seq<nat>) {
    && Run(states, lines, victims)
    && forall i {:trigger victims[i]} | 0 <= i < |lines| && NeedsVictim(states[i], lines[i]) ::
         Picks(states[i].coremap, Addresses(lines), i, victims[i])
  }

  ghost predicate NeedsVictim(s: Sim, line: Line) {
    FreeFrom(s.coremap, 0) == |s.coremap| && PageOf(line.vaddr) !in Residents(s)
  }

  /** The resident pages at every moment of a run. */
  ghost function Caches(states: seq<Sim>): (caches: seq<set<nat>>) {
    seq(|states|, i requires 0 <= i < |states| => Residents(states[i]))
  }

  /** What the victim's frame says about the resident pages. */
  lemma {:induction false} PicksFarthest(s: Sim, lines: seq<Line>, k: nat, victim: nat)
    requires Inv(s) && Packed(s) && FreeFrom(s.coremap, 0) == |s.coremap| && k < |lines|
    requires Picks(s.coremap, Addresses(lines), k, victim)
    ensures IsFarthest(Residents(s), PagesOf(lines), k + 1, s.coremap[victim].page)
  {
    var v := s.coremap[victim].page;
    NextUseAligned(lines, k + 1, v);
    forall p | p in Residents(s)
      ensures NextUse(PagesOf(lines), k + 1, p) <= NextUse(PagesOf(lines), k + 1, v)
    {
      NextUseAligned(lines, k + 1, p);
      assert s.coremap[s.ptes[p].frame].vaddr == p * PAGE_SIZE;
    }
  }

  /** The size of the machine does not change. */
  lemma {:induction false} RunShape(states: seq<Sim>, lines: seq<Line>, victims: seq<nat>, n: nat)
    requires Run(states, lines, victims) && n <= |lines|
    ensures |states[n].coremap| == |states[0].coremap| > 0 && |states[n].ptes| == |states[0].ptes|
  {
    if n > 0 {
      RunShape(states, lines, victims, n - 1);
      RunCoherent(states, lines, victims, n - 1);
      StepShape(states[n - 1], lines[n - 1], victims[n - 1], states[n]);
    }
  }

  lemma {:induction false} StepShape(s: Sim, line: Line, victim: nat, t: Sim)
    requires Inv(s) && Stepped(s, line, victim, t)
    ensures |t.coremap| == |s.coremap| && |t.ptes| == |s.ptes|
  {
    ReferenceKeeps(s, line.vaddr, line.write, victim);
  }

  /** What one step does to the resident pages and the miss counter. */
  lemma {:induction false} StepCache(s: Sim, line: Line, victim: nat, t: Sim)
    requires Inv(s) && Tallied(s) && Stepped(s, line, victim, t)
    ensures Residents(t) == Demand(Residents(s), PageOf(line.vaddr), |s.coremap|, s.coremap[victim].page)
    ensures t.counts.misses == s.counts.misses + Bit(PageOf(line.vaddr) !in Residents(s))
    ensures Legal(Residents(s), PageOf(line.vaddr), |s.coremap|, Residents(t))
  {
    ReferenceResidents(s, line.vaddr, line.write, victim);
    StepShape(s, line, victim, t);
  }

  /** Every run is one of the schedules that OPT is compared with. */
  lemma {:induction false} RunIsSchedule(states: seq<Sim>, lines: seq<Line>, victims: seq<nat>)
    requires Run(states, lines, victims)
    ensures Schedule(Caches(states), PagesOf(lines), |states[0].coremap|)
  {
    FreshInv(states[0]);
    forall i | 0 <= i < |lines|
      ensures Legal(Residents(states[i]), PagesOf(lines)[i], |states[0].coremap|, Residents(states[i + 1]))
    {
      RunStep(states, lines, victims, i);
    }
  }

  lemma {:induction false} RunStep(states: seq<Sim>, lines: seq<Line>, victims: seq<nat>, i: nat)
    requires Run(states, lines, victims) && i < |lines|
    ensures Legal(Residents(states[i]), PageOf(lines[i].vaddr), |states[0].coremap|, Residents(states[i + 1]))
    ensures states[i + 1].counts.misses
        == states[i].counts.misses + Bit(PageOf(lines[i].vaddr) !in Residents(states[i]))
    ensures victims[i] < |states[i].coremap|
    ensures Residents(states[i + 1]) == Demand(Residents(states[i]), PageOf(lines[i].vaddr), |states[0].coremap|,
                                               states[i].coremap[victims[i]].page)
  {
    RunCoherent(states, lines, victims, i);
    RunShape(states, lines, victims, i);
    assert Stepped(states[i], lines[i], victims[i], states[i + 1]);
    StepCache(states[i], lines[i], victims[i], states[i + 1]);
  }

  /** The miss counter of the simulator counts the misses of the schedule. */
  lemma {:induction false} RunMisses(states: seq<Sim>, lines: seq<Line>, victims: seq<nat>, n: nat)
    requires Run(states, lines, victims) && n <= |lines|
    ensures states[n].counts.misses == Misses(Caches(states), PagesOf(lines), n)
  {
    if n > 0 {
      RunMisses(states, lines, victims, n - 1);
      RunMissesStep(states, lines, victims, n - 1);
    }
  }

  lemma {:induction false} RunMissesStep(states: seq<Sim>, lines: seq<Line>, victims: seq<nat>, i: nat)
    requires Run(states, lines, victims) && i < |lines|
    ensures states[i + 1].counts.misses == states[i].counts.misses + Bit(PagesOf(lines)[i] !in Caches(states)[i])
  {
    RunStep(states, lines, victims, i);
  }

  /** A run under the OPT policy makes OPT's steps. */
  lemma {:induction false} OptRunStep(states: seq<Sim>, lines: seq<Line>, victims: seq<nat>, i: nat)
    requires OptRun(states, lines, victims) && i < |lines|
    ensures OptStep(Residents(states[i]), PagesOf(lines), i, |states[0].coremap|, Residents(states[i + 1]))
  {
    RunStep(states, lines, victims, i);
    RunCoherent(states, lines, victims, i);
    RunShape(states, lines, victims, i);
    if NeedsVictim(states[i], lines[i]) {
      assert Picks(states[i].coremap, Addresses(lines), i, victims[i]);
      PicksFarthest(states[i], lines, i, victims[i]);
    }
  }

  lemma {:induction false} OptRunIsOptSchedule(states: seq<Sim>, lines: seq<Line>, victims: seq<nat>)
    requires OptRun(states, lines, victims)
    ensures OptSchedule(Caches(states), PagesOf(lines), |states[0].coremap|)
  {
    FreshInv(states[0]);
    forall i | 0 <= i < |lines|
      ensures OptStep(Residents(states[i]), PagesOf(lines), i, |states[0].coremap|, Residents(states[i + 1]))
    {
      OptRunStep(states, lines, victims, i);
    }
  }

  /** Whatever the other policy evicts, its miss counter is never below OPT's. */
  lemma {:induction false} OptFewestMisses(optStates: seq<Sim>, optVictims: seq<nat>, states: seq<Sim>,
                                           victims: seq<nat>, lines: seq<Line>, n: nat)
    requires OptRun(optStates, lines, optVictims) && Run(states, lines, victims)
    requires |optStates[0].coremap| == |states[0].coremap| && n <= |lines|
    ensures optStates[n].counts.misses <= states[n].counts.misses
  {
    RunIsSchedule(states, lines, victims);
    OptRunIsOptSchedule(optStates, lines, optVictims);
    RunMisses(states, lines, victims, n);
    RunMisses(optStates, lines, optVictims, n);
    OptIsOptimal(Caches(optStates), Caches(states), PagesOf(lines), |states[0].coremap|, n);
  }
}
