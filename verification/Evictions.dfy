/**
 What the simulator's counters say, told from the trace and the resident pages alone. A dirty
 eviction is one whose page was zero-filled when it last came in, because no line had touched it
 before, or has been written since. `RunCounts` shows, for every trace and every policy, that the
 counters of hits, misses, clean and dirty evictions are exactly the numbers of such lines.
 */
module Evictions {
  import opened Simulation

  ghost predicate Touches(lines: seq<Line>, p: nat, b: nat)
    requires b < |lines|
  {
    PageOf(lines[b].vaddr) == p
  }

  /** Line a brings page p into memory. */
  ghost predicate Arrives(states: seq<Sim>, lines: seq<Line>, p: nat, a: nat)
    requires a < |lines| < |states|
  {
    Touches(lines, p, a) && p !in Residents(states[a])
  }

  ghost predicate LastArrival(states: seq<Sim>, lines: seq<Line>, p: nat, a: nat, n: nat)
    requires n <= |lines| < |states|
  {
    a < n && Arrives(states, lines, p, a) && forall b | a < b < n :: !Arrives(states, lines, p, b)
  }

  /** No line before a touches p: it is zero-filled when it comes in. */
  ghost predicate First(lines: seq<Line>, p: nat, a: nat)
    requires a <= |lines|
  {
    forall b | 0 <= b < a :: !Touches(lines, p, b)
  }

  ghost predicate WrittenIn(lines: seq<Line>, p: nat, a: nat, n: nat)
    requires n <= |lines|
  {
    exists b | a <= b < n :: Touches(lines, p, b) && lines[b].write
  }

  /** p was zero-filled when it last came in, or has been written since. */
  ghost predicate Soiled(states: seq<Sim>, lines: seq<Line>, p: nat, n: nat)
    requires n <= |lines| < |states|
  {
    exists a: nat :: LastArrival(states, lines, p, a, n) && (First(lines, p, a) || WrittenIn(lines, p, a, n))
  }

  // ---------- one line ----------

  /** What a reference does to the flags of the page it refers to, and of the others. */
  lemma {:induction false} FlagsAfter(s: Sim, vaddr: nat, write: bool, victim: nat, p: nat)
    requires Inv(s) && PageOf(vaddr) < |s.ptes| && victim < |s.coremap| && p < |s.ptes|
    ensures Shaped(s) && |Reference(s, vaddr, write, victim).ptes| == |s.ptes|
    ensures var o, e := s.ptes[p], Reference(s, vaddr, write, victim).ptes[p];
            if p == PageOf(vaddr)
            then e.valid && e.referenced && e.dirty == (write || if o.valid then o.dirty else !o.onSwap)
            else && (e.valid ==> o.valid && e.dirty == o.dirty && e.referenced == o.referenced)
                 && (e.valid || e.onSwap <==> o.valid || o.onSwap)
  {
    InvShaped(s);
  }

  /** Every frame is taken, and the page is in none of them. */
  ghost predicate Evicts(s: Sim, page: nat) {
    page !in Residents(s) && |Residents(s)| == |s.coremap|
  }

  /** What a reference does to the counters of evictions. */
  lemma {:induction false} CountsAfter(s: Sim, vaddr: nat, write: bool, victim: nat)
    requires Inv(s) && Tallied(s) && PageOf(vaddr) < |s.ptes| && victim < |s.coremap|
    ensures Shaped(s) && (Evicts(s, PageOf(vaddr)) ==> s.coremap[victim].page < |s.ptes|)
    ensures var c, d := s.counts, Reference(s, vaddr, write, victim).counts;
            var evicts := Evicts(s, PageOf(vaddr));
            && d.dirty == c.dirty + (if evicts && s.ptes[s.coremap[victim].page].dirty then 1 else 0)
            && d.clean == c.clean + (if evicts && !s.ptes[s.coremap[victim].page].dirty then 1 else 0)
            && d.hits == c.hits + (if PageOf(vaddr) in Residents(s) then 1 else 0)
            && d.misses == c.misses + (if PageOf(vaddr) in Residents(s) then 0 else 1)
  {
    InvShaped(s);
    if FreeFrom(s.coremap, 0) == |s.coremap| {
      assert s.coremap[victim].inUse;
    }
  }

  /** The page that goes is the victim's. */
  lemma {:induction false} LostPage(s: Sim, vaddr: nat, write: bool, victim: nat, q: nat)
    requires Inv(s) && Shaped(s) && Tallied(s) && PageOf(vaddr) < |s.ptes| && victim < |s.coremap|
    requires Evicts(s, PageOf(vaddr))
    ensures q in Residents(s) && q !in Residents(Reference(s, vaddr, write, victim)) <==> q == s.coremap[victim].page
  {
    ReferenceResidents(s, vaddr, write, victim);
    assert s.coremap[victim].inUse;
  }

  // ---------- the flags, from the trace ----------

  /** The flags of every page are what the trace says. */
  ghost predicate Flagged(states: seq<Sim>, lines: seq<Line>, n: nat)
    requires n <= |lines| < |states|
  {
    forall p: nat | p < |states[n].ptes| :: FlaggedAt(states, lines, p, n)
  }

  ghost predicate FlaggedAt(states: seq<Sim>, lines: seq<Line>, p: nat, n: nat)
    requires n <= |lines| < |states| && p < |states[n].ptes|
  {
    var e := states[n].ptes[p];
    && (e.valid || e.onSwap <==> !First(lines, p, n))
    && (e.valid ==> e.referenced && exists a: nat :: LastArrival(states, lines, p, a, n))
    && (e.valid ==> (e.dirty <==> Soiled(states, lines, p, n)))
  }

  /** A line that does not touch p changes nothing of this. */
  lemma {:induction false} OtherLine(states: seq<Sim>, lines: seq<Line>, p: nat, n: nat)
    requires n < |lines| < |states| && !Touches(lines, p, n)
    ensures First(lines, p, n + 1) <==> First(lines, p, n)
    ensures forall a: nat :: LastArrival(states, lines, p, a, n + 1) <==> LastArrival(states, lines, p, a, n)
    ensures Soiled(states, lines, p, n + 1) <==> Soiled(states, lines, p, n)
  {
    assert !Arrives(states, lines, p, n);
    forall a: nat
      ensures LastArrival(states, lines, p, a, n + 1) <==> LastArrival(states, lines, p, a, n)
      ensures WrittenIn(lines, p, a, n + 1) <==> WrittenIn(lines, p, a, n)
    {
    }
    if Soiled(states, lines, p, n + 1) {
      var a: nat :| LastArrival(states, lines, p, a, n + 1) && (First(lines, p, a) || WrittenIn(lines, p, a, n + 1));
      assert LastArrival(states, lines, p, a, n);
    }
    if Soiled(states, lines, p, n) {
      var a: nat :| LastArrival(states, lines, p, a, n) && (First(lines, p, a) || WrittenIn(lines, p, a, n));
      assert LastArrival(states, lines, p, a, n + 1);
    }
  }

  /** A line that finds p in memory. */
  lemma {:induction false} HitLine(states: seq<Sim>, lines: seq<Line>, p: nat, n: nat, a: nat)
    requires n < |lines| < |states| && Touches(lines, p, n) && p in Residents(states[n])
    requires LastArrival(states, lines, p, a, n)
    ensures !First(lines, p, n + 1) && LastArrival(states, lines, p, a, n + 1)
    ensures Soiled(states, lines, p, n + 1) <==> Soiled(states, lines, p, n) || lines[n].write
  {
    OneArrival(states, lines, p, a, n);
    OneArrival(states, lines, p, a, n + 1);
    assert WrittenIn(lines, p, a, n + 1) <==> WrittenIn(lines, p, a, n) || lines[n].write;
  }

  /** There is one last arrival. */
  lemma {:induction false} OneArrival(states: seq<Sim>, lines: seq<Line>, p: nat, a: nat, n: nat)
    requires n <= |lines| < |states| && LastArrival(states, lines, p, a, n)
    ensures forall b: nat | LastArrival(states, lines, p, b, n) :: b == a
    ensures Soiled(states, lines, p, n) <==> First(lines, p, a) || WrittenIn(lines, p, a, n)
  {
    forall b: nat | LastArrival(states, lines, p, b, n)
      ensures b == a
    {
      assert Arrives(states, lines, p, a) && Arrives(states, lines, p, b);
    }
  }

  /** A line that brings p in. */
  lemma {:induction false} MissLine(states: seq<Sim>, lines: seq<Line>, p: nat, n: nat)
    requires n < |lines| < |states| && Arrives(states, lines, p, n)
    ensures !First(lines, p, n + 1) && LastArrival(states, lines, p, n, n + 1)
    ensures Soiled(states, lines, p, n + 1) <==> First(lines, p, n) || lines[n].write
  {
    OneArrival(states, lines, p, n, n + 1);
  }

  lemma {:induction false} StepFlags(states: seq<Sim>, lines: seq<Line>, victim: nat, n: nat, n': nat)
    requires n < n' == n + 1 <= |lines| < |states| && Inv(states[n]) && Flagged(states, lines, n)
    requires Stepped(states[n], lines[n], victim, states[n'])
    ensures Flagged(states, lines, n')
  {
    forall p: nat | p < |states[n'].ptes|
      ensures FlaggedAt(states, lines, p, n')
    {
      FlagsAfter(states[n], lines[n].vaddr, lines[n].write, victim, p);
      assert FlaggedAt(states, lines, p, n);
      StepFlag(states, lines, p, n, n');
    }
  }

  lemma {:induction false} StepFlag(states: seq<Sim>, lines: seq<Line>, p: nat, n: nat, n': nat)
    requires n < n' == n + 1 <= |lines| < |states| && p < |states[n].ptes| && p < |states[n'].ptes|
    requires FlaggedAt(states, lines, p, n)
    requires var o, e := states[n].ptes[p], states[n'].ptes[p];
             if p == PageOf(lines[n].vaddr)
             then e.valid && e.referenced && e.dirty == (lines[n].write || if o.valid then o.dirty else !o.onSwap)
             else && (e.valid ==> o.valid && e.dirty == o.dirty && e.referenced == o.referenced)
                  && (e.valid || e.onSwap <==> o.valid || o.onSwap)
    ensures FlaggedAt(states, lines, p, n')
  {
    if !Touches(lines, p, n) {
      OtherLine(states, lines, p, n);
    } else if p in Residents(states[n]) {
      var a: nat :| LastArrival(states, lines, p, a, n);
      HitLine(states, lines, p, n, a);
    } else {
      MissLine(states, lines, p, n);
    }
  }

  // ---------- whole traces ----------

  /** Line i evicts a page, and the page is soiled. */
  ghost predicate DirtyEviction(states: seq<Sim>, lines: seq<Line>, i: nat)
    requires i < |lines| < |states|
  {
    && Evicts(states[i], PageOf(lines[i].vaddr))
    && exists q :: q in Residents(states[i]) && q !in Residents(states[i + 1]) && Soiled(states, lines, q, i)
  }

  /** Line i evicts a page, and the page is not soiled. */
  ghost predicate CleanEviction(states: seq<Sim>, lines: seq<Line>, i: nat)
    requires i < |lines| < |states|
  {
    && Evicts(states[i], PageOf(lines[i].vaddr))
    && exists q :: q in Residents(states[i]) && q !in Residents(states[i + 1]) && !Soiled(states, lines, q, i)
  }

  /** The numbers of hits, misses, clean and dirty evictions among the first n lines. */
  ghost function Tally(states: seq<Sim>, lines: seq<Line>, n: nat): (c: Counts)
    requires n <= |lines| < |states|
  {
    if n == 0 then Counts(0, 0, 0, 0, 0)
    else
      var c, hit := Tally(states, lines, n - 1), PageOf(lines[n - 1].vaddr) in Residents(states[n - 1]);
      Counts(c.hits + (if hit then 1 else 0), c.misses + (if hit then 0 else 1), c.refs + 1,
             c.clean + (if CleanEviction(states, lines, n - 1) then 1 else 0),
             c.dirty + (if DirtyEviction(states, lines, n - 1) then 1 else 0))
  }

  ghost predicate Counted(states: seq<Sim>, lines: seq<Line>, n: nat)
    requires n <= |lines| < |states|
  {
    Flagged(states, lines, n) && states[n].counts == Tally(states, lines, n)
  }

  lemma {:induction false} StepCounted(states: seq<Sim>, lines: seq<Line>, victim: nat, n: nat, n': nat)
    requires n < n' == n + 1 <= |lines| < |states| && Inv(states[n]) && Tallied(states[n]) && Counted(states, lines, n)
    requires Stepped(states[n], lines[n], victim, states[n'])
    ensures Counted(states, lines, n')
  {
    StepFlags(states, lines, victim, n, n');
    StepTallies(states[n], lines[n], victim, states[n']);
    StepCounts(states, lines, victim, n, n');
  }

  lemma {:induction false} StepCounts(states: seq<Sim>, lines: seq<Line>, victim: nat, n: nat, n': nat)
    requires n < n' == n + 1 <= |lines| < |states| && Inv(states[n]) && Tallied(states[n]) && Counted(states, lines, n)
    requires Stepped(states[n], lines[n], victim, states[n'])
    requires states[n'].counts.refs == states[n].counts.refs + 1
    ensures states[n'].counts == Tally(states, lines, n')
  {
    var s, page := states[n], PageOf(lines[n].vaddr);
    CountsAfter(s, lines[n].vaddr, lines[n].write, victim);
    if Evicts(s, page) {
      var v := s.coremap[victim].page;
      forall q: nat
        ensures q in Residents(s) && q !in Residents(states[n']) <==> q == v
      {
        LostPage(s, lines[n].vaddr, lines[n].write, victim, q);
      }
      assert FlaggedAt(states, lines, v, n);
      assert DirtyEviction(states, lines, n) <==> Soiled(states, lines, v, n);
      assert CleanEviction(states, lines, n) <==> !Soiled(states, lines, v, n);
    }
  }

  /** For every trace, every policy and every moment, the counters count what they are named after. */
  lemma {:induction false} RunCounts(states: seq<Sim>, lines: seq<Line>, victims: seq<nat>, n: nat)
    requires Run(states, lines, victims) && n <= |lines|
    ensures states[n].counts == Tally(states, lines, n)
    ensures Flagged(states, lines, n)
  {
    if n == 0 {
      assert First(lines, 0, 0);
      assert forall p: nat | p < |states[0].ptes| :: FlaggedAt(states, lines, p, 0);
    } else {
      RunCounts(states, lines, victims, n - 1);
      RunCoherent(states, lines, victims, n - 1);
      assert Stepped(states[n - 1], lines[n - 1], victims[n - 1], states[n]);
      StepCounted(states, lines, victims[n - 1], n - 1, n);
    }
  }

  // ---------- swap slots ----------

  /** The pages that have a slot on swap. */
  ghost function Slots(s: Sim): (r: set<nat>) {
    set p: nat | p < |s.ptes| && s.ptes[p].swap.Some?
  }

  /** What an eviction does to the slots: the page keeps its slot, or gets the next one. */
  lemma {:induction false} EvictSlots(s: Sim, victim: nat)
    requires Inv(s) && Shaped(s) && victim < |s.coremap| && s.coremap[victim].inUse
    ensures var t, v := Evict(s, victim), s.coremap[victim].page;
            && |t.ptes| == |s.ptes| && Slots(t) == Slots(s) + {v}
            && (forall p: nat | p in Slots(s) :: t.ptes[p].swap == s.ptes[p].swap)
            && |t.swap| == |s.swap| + if v in Slots(s) then 0 else 1
  {
    var t, v := Evict(s, victim), s.coremap[victim].page;
    assert s.ptes[v].valid;
    assert forall p: nat | p < |s.ptes| && p != v :: t.ptes[p] == s.ptes[p];
    assert v in Slots(t);
  }

  /** The pages that were in memory and are not any more. */
  ghost function Lost(s: Sim, t: Sim): (r: set<nat>) {
    Residents(s) - Residents(t)
  }

  /** The same slots, with the same contents. */
  ghost predicate SameSlots(s: Sim, t: Sim) {
    && |t.ptes| == |s.ptes| && t.swap == s.swap
    && forall p | 0 <= p < |s.ptes| :: t.ptes[p].swap == s.ptes[p].swap
  }

  lemma {:induction false} SameSlotSet(s: Sim, t: Sim)
    requires SameSlots(s, t)
    ensures Slots(t) == Slots(s)
  {
  }

  /** Bringing a page in and touching it leaves the slots alone. */
  lemma {:induction false} RoomSlots(s: Sim, vaddr: nat, write: bool, victim: nat)
    requires Shaped(s) && PageOf(vaddr) < |s.ptes| && victim < |s.coremap|
    ensures SameSlots(if s.ptes[PageOf(vaddr)].valid then s else Room(s, victim).0, Reference(s, vaddr, write, victim))
  {
    RoomShape(s, victim);
  }

  /** The page that goes has a slot of its own afterwards, and every slot given before is kept. */
  ghost predicate SlotsGrow(s: Sim, t: Sim) {
    && |t.ptes| == |s.ptes| && Slots(t) == Slots(s) + Lost(s, t)
    && (forall p: nat | p in Slots(s) :: t.ptes[p].swap == s.ptes[p].swap)
    && |t.swap| == |s.swap| + |Slots(t)| - |Slots(s)|
  }

  lemma {:induction false} ReferenceSlots(s: Sim, vaddr: nat, write: bool, victim: nat)
    requires Inv(s) && Shaped(s) && Tallied(s) && PageOf(vaddr) < |s.ptes| && victim < |s.coremap|
    ensures SlotsGrow(s, Reference(s, vaddr, write, victim))
  {
    var t, page := Reference(s, vaddr, write, victim), PageOf(vaddr);
    RoomSlots(s, vaddr, write, victim);
    ReferenceResidents(s, vaddr, write, victim);
    if Evicts(s, page) {
      LostSlots(s, victim, page, t);
    } else {
      SameSlotSet(s, t);
      assert Lost(s, t) == {};
    }
  }

  lemma {:induction false} LostSlots(s: Sim, victim: nat, page: nat, t: Sim)
    requires Inv(s) && Shaped(s) && Tallied(s) && victim < |s.coremap| && Evicts(s, page)
    requires SameSlots(Room(s, victim).0, t) && Residents(t) == Residents(s) - {s.coremap[victim].page} + {page}
    ensures SlotsGrow(s, t)
  {
    assert s.coremap[victim].inUse;
    var r, v := Evict(s, victim), s.coremap[victim].page;
    assert Room(s, victim).0 == r;
    EvictSlots(s, victim);
    SameSlotSet(r, t);
    assert v in Residents(s);
    assert Lost(s, t) == {v};
    OneMore(Slots(s), v);
  }

  lemma {:induction false} OneMore(a: set<nat>, x: nat)
    ensures |a + {x}| == |a| + if x in a then 0 else 1
  {
    if x in a {
      assert a + {x} == a;
    }
  }

  /** The pages that one of the first n lines evicted. */
  ghost function Evicted(states: seq<Sim>, n: nat): (r: set<nat>)
    requires n < |states|
  {
    if n == 0 then {} else Evicted(states, n - 1) + Lost(states[n - 1], states[n])
  }

  /** These pages have a slot, no other does, and there are no other slots. */
  ghost predicate AllSlots(s: Sim, pages: set<nat>) {
    Slots(s) == pages && |s.swap| == |pages|
  }

  lemma {:induction false} GrowAll(s: Sim, t: Sim, pages: set<nat>)
    requires AllSlots(s, pages) && SlotsGrow(s, t)
    ensures AllSlots(t, pages + Lost(s, t))
  {
  }

  /** For every trace, every policy and every moment: the pages that were ever evicted have a slot on
      swap, no other page has one, and no slot is wasted. */
  lemma {:induction false} RunSlots(states: seq<Sim>, lines: seq<Line>, victims: seq<nat>, n: nat)
    requires Run(states, lines, victims) && n <= |lines|
    ensures AllSlots(states[n], Evicted(states, n))
  {
    if n == 0 {
      FreshSlots(states[0]);
    } else {
      RunSlots(states, lines, victims, n - 1);
      SlotsNext(states, lines, victims, n - 1, n);
    }
  }

  lemma {:induction false} SlotsNext(states: seq<Sim>, lines: seq<Line>, victims: seq<nat>, n: nat, n': nat)
    requires Run(states, lines, victims) && n < n' == n + 1 <= |lines| && AllSlots(states[n], Evicted(states, n))
    ensures AllSlots(states[n'], Evicted(states, n'))
  {
    StepSlots(states, lines, victims, n, n');
    EvictedStep(states, n, n');
    GrowAll(states[n], states[n'], Evicted(states, n));
  }

  lemma {:induction false} FreshSlots(s: Sim)
    requires Fresh(s)
    ensures AllSlots(s, {})
  {
    assert Slots(s) == {};
  }

  lemma {:induction false} EvictedStep(states: seq<Sim>, n: nat, n': nat)
    requires n < n' == n + 1 < |states|
    ensures Evicted(states, n') == Evicted(states, n) + Lost(states[n], states[n'])
  {
  }

  /** Every line keeps the slots given before. */
  lemma {:induction false} StepSlots(states: seq<Sim>, lines: seq<Line>, victims: seq<nat>, n: nat, n': nat)
    requires Run(states, lines, victims) && n < n' == n + 1 <= |lines|
    ensures SlotsGrow(states[n], states[n'])
  {
    RunCoherent(states, lines, victims, n);
    assert Stepped(states[n], lines[n], victims[n], states[n']);
    ReferenceSlots(states[n], lines[n].vaddr, lines[n].write, victims[n]);
  }
}
