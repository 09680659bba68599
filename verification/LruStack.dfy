/**
 The simulator's LRU policy keeps a queue of frames, the least recently referenced one first.
 `RunKeepsRecent` shows, for every trace, that the frames hold exactly the most recently
 referenced pages, in the order of the queue. It follows that a reference hits if and only if
 fewer distinct pages than there are frames were referenced since (`HitIffRecent`), and that
 more frames never cost a hit (`NoAnomaly`).
 */
module LruStack {
  import opened Simulation
  import opened Sequences
  import opened Opt

  // ---------- the pages in the order of their last reference ----------

  /** The pages referenced by the first n references, the one referenced last at the end. */
  function History(trace: seq<nat>, n: nat): (h: seq<nat>)
    requires n <= |trace|
  {
    if n == 0 then [] else Without(History(trace, n - 1), trace[n - 1]) + [trace[n - 1]]
  }

  /** The distinct pages among the first n references that came after the last one to p. */
  ghost function Since(trace: seq<nat>, n: nat, p: nat): (s: set<nat>)
    requires n <= |trace|
  {
    if n == 0 || trace[n - 1] == p then {} else Since(trace, n - 1, p) + {trace[n - 1]}
  }

  /** The last m entries. */
  function Last(s: seq<nat>, m: nat): (r: seq<nat>)
    ensures |r| == if |s| <= m then |s| else m
  {
    if |s| <= m then s else s[|s| - m..]
  }

  lemma {:induction false} HistoryDistinct(trace: seq<nat>, n: nat)
    requires n <= |trace|
    ensures Distinct(History(trace, n))
    ensures forall p :: p in History(trace, n) <==> p in trace[..n]
  {
    if n > 0 {
      HistoryDistinct(trace, n - 1);
      WithoutMembers(History(trace, n - 1), trace[n - 1]);
      assert trace[..n] == trace[..n - 1] + [trace[n - 1]];
      var h := Without(History(trace, n - 1), trace[n - 1]);
      assert forall i | 0 <= i < |h| :: h[i] in h;
    }
  }

  lemma {:induction false} ElementsCat(a: seq<nat>, b: seq<nat>)
    ensures Elements(a + b) == Elements(a) + Elements(b)
  {
  }

  /** Cut a list at one of its entries. */
  lemma {:induction false} CutAt(h: seq<nat>, p: nat) returns (a: seq<nat>, b: seq<nat>)
    requires Distinct(h) && p in h
    ensures h == a + [p] + b && p !in a && p !in b && Without(h, p) == a + b
  {
    var j :| 0 <= j < |h| && h[j] == p;
    WithoutAt(h, j);
    a, b := h[..j], h[j + 1..];
  }

  /** Moving p to the end: what is listed after the entry k then. */
  lemma {:induction false} AfterMoved(a: seq<nat>, b: seq<nat>, p: nat, k: nat)
    requires k < |a| + |b|
    ensures var k' := if k < |a| then k else k + 1;
            && (a + [p] + b)[k'] == (a + b + [p])[k]
            && Elements((a + b + [p])[k + 1..]) == Elements((a + [p] + b)[k' + 1..]) + {p}
  {
    if k < |a| {
      assert (a + [p] + b)[k + 1..] == a[k + 1..] + [p] + b;
      assert (a + b + [p])[k + 1..] == a[k + 1..] + b + [p];
      ElementsCat(a[k + 1..], [p]);
      ElementsCat(a[k + 1..] + [p], b);
      ElementsCat(a[k + 1..], b);
      ElementsCat(a[k + 1..] + b, [p]);
    } else {
      var rest := b[k - |a| + 1..];
      assert (a + b + [p])[k + 1..] == rest + [p];
      assert (a + [p] + b)[k + 2..] == rest;
      ElementsCat(rest, [p]);
    }
  }

  /** The pages listed after h[k] are those referenced since h[k] was. */
  lemma {:induction false} HistorySince(trace: seq<nat>, n: nat, k: nat)
    requires n <= |trace| && k < |History(trace, n)|
    ensures Elements(History(trace, n)[k + 1..]) == Since(trace, n, History(trace, n)[k])
  {
    HistoryDistinct(trace, n - 1);
    var k' := AfterStep(History(trace, n - 1), trace[n - 1], k);
    if k < |History(trace, n)| - 1 {
      HistorySince(trace, n - 1, k');
    }
  }

  /** What is listed after an entry once p has gone to the end. */
  lemma {:induction false} AfterStep(h: seq<nat>, p: nat, k: nat) returns (k': nat)
    requires Distinct(h) && k < |Without(h, p)| + 1
    ensures var h' := Without(h, p) + [p];
            if k == |h'| - 1 then h'[k] == p && Elements(h'[k + 1..]) == {}
            else k' < |h| && h'[k] == h[k'] != p && Elements(h'[k + 1..]) == Elements(h[k' + 1..]) + {p}
  {
    k' := k;
    var h' := Without(h, p) + [p];
    if k == |h'| - 1 {
      assert h'[k + 1..] == [];
    } else if p in h {
      var a, b := CutAt(h, p);
      AfterMoved(a, b, p, k);
      k' := if k < |a| then k else k + 1;
    } else {
      AfterAdded(h, p, k);
    }
  }

  lemma {:induction false} AfterAdded(h: seq<nat>, p: nat, k: nat)
    requires k < |h|
    ensures Elements((h + [p])[k + 1..]) == Elements(h[k + 1..]) + {p}
  {
    assert (h + [p])[k + 1..] == h[k + 1..] + [p];
    ElementsCat(h[k + 1..], [p]);
  }

  lemma {:induction false} LastCat(a: seq<nat>, b: seq<nat>, m: nat)
    ensures Last(a + b, m) == if |b| < m then Last(a, m - |b|) + b else Last(b, m)
  {
  }

  /** The last m pages after a reference to p. */
  function Referenced(l: seq<nat>, m: nat, p: nat): (r: seq<nat>)
    requires m > 0
  {
    if p in l then Without(l, p) + [p] else if |l| < m then l + [p] else l[1..] + [p]
  }

  lemma {:induction false} LastStep(h: seq<nat>, m: nat, p: nat)
    requires Distinct(h) && m > 0
    ensures Last(Without(h, p) + [p], m) == Referenced(Last(h, m), m, p)
  {
    if p in h {
      var a, b := CutAt(h, p);
      if |b| < m {
        LastRecent(a, b, m, p);
      } else {
        LastOld(a, b, m, p);
      }
    } else {
      LastNew(h, m, p);
    }
  }

  lemma {:induction false} HistoryStep(trace: seq<nat>, n: nat, m: nat)
    requires n < |trace| && m > 0
    ensures Last(History(trace, n + 1), m) == Referenced(Last(History(trace, n), m), m, trace[n])
  {
    HistoryDistinct(trace, n);
    LastStep(History(trace, n), m, trace[n]);
  }

  lemma {:induction false} LastNew(h: seq<nat>, m: nat, p: nat)
    requires m > 0 && p !in h
    ensures p !in Last(h, m) && Last(h + [p], m) == Referenced(Last(h, m), m, p)
  {
    LastCat(h, [p], m);
  }

  lemma {:induction false} LastRecent(a: seq<nat>, b: seq<nat>, m: nat, p: nat)
    requires |b| < m && p !in a && p !in b
    ensures p in Last(a + [p] + b, m)
    ensures Last(a + b + [p], m) == Referenced(Last(a + [p] + b, m), m, p)
  {
    var c := Last(a, m - |b| - 1);
    LastSplit(a, [p], b, m);
    LastSplit(a, b, [p], m);
    WithoutMiddle(c, p, b);
  }

  lemma {:induction false} LastSplit(a: seq<nat>, b: seq<nat>, c: seq<nat>, m: nat)
    requires |b| + |c| <= m
    ensures Last(a + b + c, m) == Last(a, m - |b| - |c|) + b + c
    ensures forall x | x in Last(a, m - |b| - |c|) :: x in a
  {
  }

  lemma {:induction false} WithoutMiddle(a: seq<nat>, p: nat, b: seq<nat>)
    requires p !in a
    ensures p in a + [p] + b && Without(a + [p] + b, p) == a + b
  {
    var s := a + [p] + b;
    assert forall i | 0 <= i < |a| :: s[i] == a[i];
    assert s[|a|] == p;
    WithoutAt(s, |a|);
  }

  lemma {:induction false} LastOld(a: seq<nat>, b: seq<nat>, m: nat, p: nat)
    requires 0 < m <= |b| && p !in b
    ensures p !in Last(a + [p] + b, m)
    ensures Last(a + b + [p], m) == Referenced(Last(a + [p] + b, m), m, p)
  {
    LastCat(a + [p], b, m);
    LastCat(a, b + [p], m);
    assert a + b + [p] == a + (b + [p]);
  }

  /** The last m pages are those with fewer than m pages referenced since. */
  lemma {:induction false} LastIffRecent(trace: seq<nat>, n: nat, m: nat, p: nat)
    requires n <= |trace|
    ensures p in Last(History(trace, n), m) <==> p in trace[..n] && |Since(trace, n, p)| < m
  {
    var h := History(trace, n);
    HistoryDistinct(trace, n);
    if p in h {
      var k :| 0 <= k < |h| && h[k] == p;
      HistorySince(trace, n, k);
      DistinctSize(h[k + 1..]);
      InLast(h, m, k);
    }
  }

  lemma {:induction false} InLast(h: seq<nat>, m: nat, k: nat)
    requires Distinct(h) && k < |h|
    ensures h[k] in Last(h, m) <==> |h| - k <= m
  {
    var l := Last(h, m);
    if |h| - k <= |l| {
      assert l[k - (|h| - |l|)] == h[k];
    }
  }

  lemma {:induction false} LastGrows(s: seq<nat>, m: nat, m': nat)
    requires m <= m'
    ensures Elements(Last(s, m)) <= Elements(Last(s, m'))
  {
    var l, l' := Last(s, m), Last(s, m');
    assert l == l'[|l'| - |l|..];
  }

  // ---------- the simulator under LRU ----------

  /** `lru_ref`: the frame goes to the tail of the queue. */
  function Touched(queue: seq<nat>, frame: nat): (q: seq<nat>) {
    Without(queue, frame) + [frame]
  }

  ghost predicate Frames(coremap: seq<CoreFrame>, queue: seq<nat>) {
    forall i | 0 <= i < |queue| :: queue[i] < |coremap|
  }

  /** The pages in the frames of the queue. */
  ghost function PagesIn(coremap: seq<CoreFrame>, queue: seq<nat>): (pages: seq<nat>)
    requires Frames(coremap, queue)
  {
    seq(|queue|, i requires 0 <= i < |queue| => coremap[queue[i]].page)
  }

  /** The queue lists the frames in use, each once, and they hold these pages. */
  ghost predicate Holds(s: Sim, queue: seq<nat>, pages: seq<nat>) {
    && Distinct(queue) && Frames(s.coremap, queue)
    && (forall f: nat | f < |s.coremap| :: f in queue <==> s.coremap[f].inUse)
    && PagesIn(s.coremap, queue) == pages
  }

  /** One line of the trace under LRU: the victim, if one is needed, comes from the head of the
      queue, and the frame that was referenced goes to its tail. */
  ghost predicate LruStep(s: Sim, queue: seq<nat>, line: Line, victim: nat, t: Sim, queue': seq<nat>) {
    && PageOf(line.vaddr) < |t.ptes|
    && var frame := t.ptes[PageOf(line.vaddr)].frame;
       if NeedsVictim(s, line) then queue != [] && victim == queue[0] && queue' == Touched(queue[1..], frame)
       else queue' == Touched(queue, frame)
  }

  ghost predicate LruRun(states: seq<Sim>, queues: seq<seq<nat>>, lines: seq<Line>, victims: seq<nat>) {
    && Run(states, lines, victims) && |queues| == |states| && queues[0] == []
    && forall i {:trigger victims[i]} | 0 <= i < |lines| ::
         LruStep(states[i], queues[i], lines[i], victims[i], states[i + 1], queues[i + 1])
  }

  lemma {:induction false} PagesInWithout(coremap: seq<CoreFrame>, queue: seq<nat>, k: nat)
    requires Distinct(queue) && Frames(coremap, queue) && Distinct(PagesIn(coremap, queue)) && k < |queue|
    ensures Frames(coremap, Without(queue, queue[k]))
    ensures PagesIn(coremap, Without(queue, queue[k])) == Without(PagesIn(coremap, queue), coremap[queue[k]].page)
  {
    WithoutAt(queue, k);
    PagesInTaken(coremap, queue, k);
    WithoutAt(PagesIn(coremap, queue), k);
  }

  lemma {:induction false} PagesInTaken(coremap: seq<CoreFrame>, queue: seq<nat>, k: nat)
    requires Frames(coremap, queue) && k < |queue|
    ensures Frames(coremap, Taken(queue, k))
    ensures PagesIn(coremap, Taken(queue, k)) == Taken(PagesIn(coremap, queue), k)
  {
  }

  /** The frames in use hold different pages. */
  lemma {:induction false} HoldsDistinct(s: Sim, queue: seq<nat>, pages: seq<nat>)
    requires Simulation.Inv(s) && Holds(s, queue, pages)
    ensures Distinct(pages) && Elements(pages) == Residents(s)
  {
    forall i, j | 0 <= i < j < |queue|
      ensures pages[i] != pages[j]
    {
      assert queue[i] in queue && queue[j] in queue;
    }
    HoldsResidents(s, queue, pages);
  }

  lemma {:induction false} HoldsResidents(s: Sim, queue: seq<nat>, pages: seq<nat>)
    requires Simulation.Inv(s) && Holds(s, queue, pages)
    ensures Elements(pages) == Residents(s)
  {
    forall p | p in Residents(s)
      ensures p in pages
    {
      var f := s.ptes[p].frame;
      assert f in queue;
      var i :| 0 <= i < |queue| && queue[i] == f;
      assert pages[i] == p;
    }
    forall i | 0 <= i < |queue|
      ensures pages[i] in Residents(s)
    {
      assert queue[i] in queue;
    }
  }

  lemma {:induction false} HitHolds(s: Sim, queue: seq<nat>, pages: seq<nat>, page: nat)
    requires Simulation.Inv(s) && Holds(s, queue, pages) && page < |s.ptes| && s.ptes[page].valid
    ensures Holds(s, Touched(queue, s.ptes[page].frame), Without(pages, page) + [page])
    ensures page in pages
  {
    var f := s.ptes[page].frame;
    assert f in queue;
    var k :| 0 <= k < |queue| && queue[k] == f;
    assert pages[k] == page;
    HoldsDistinct(s, queue, pages);
    PagesInWithout(s.coremap, queue, k);
    TouchedMembers(queue, f);
    PagesInMore(s.coremap, Without(queue, f), f);
  }

  lemma {:induction false} PagesInMore(coremap: seq<CoreFrame>, queue: seq<nat>, f: nat)
    requires Frames(coremap, queue) && f < |coremap|
    ensures Frames(coremap, queue + [f]) && PagesIn(coremap, queue + [f]) == PagesIn(coremap, queue) + [coremap[f].page]
  {
  }

  lemma {:induction false} TouchedMembers(queue: seq<nat>, f: nat)
    requires Distinct(queue) && f in queue
    ensures Distinct(Touched(queue, f))
    ensures forall g :: g in Touched(queue, f) <==> g in queue
  {
    WithoutMembers(queue, f);
    assert forall i | 0 <= i < |Without(queue, f)| :: Without(queue, f)[i] in Without(queue, f);
  }

  lemma {:induction false} FillHolds(s: Sim, queue: seq<nat>, pages: seq<nat>, t: Sim, frame: nat, page: nat)
    requires Holds(s, queue, pages) && frame < |s.coremap| && frame !in queue
    requires |t.coremap| == |s.coremap| && t.coremap[frame].inUse && t.coremap[frame].page == page
    requires forall f | 0 <= f < |s.coremap| && f != frame :: t.coremap[f] == s.coremap[f]
    ensures Holds(t, queue + [frame], pages + [page])
  {
    assert forall f :: f in queue + [frame] <==> f in queue || f == frame;
    assert forall i | 0 <= i < |queue| :: queue[i] in queue;
  }

  lemma {:induction false} DropHolds(s: Sim, queue: seq<nat>, pages: seq<nat>)
    requires Holds(s, queue, pages) && queue != []
    ensures queue[0] < |s.coremap| && queue[0] !in queue[1..]
    ensures Holds(s.(coremap := s.coremap[queue[0] := s.coremap[queue[0]].(inUse := false)]), queue[1..], pages[1..])
  {
    assert forall f :: f in queue <==> f == queue[0] || f in queue[1..];
  }

  /** The simulator's step: where the page ends up, and what happens to the core map. */
  lemma {:induction false} StepFrames(s: Sim, line: Line, victim: nat, t: Sim)
    requires Simulation.Inv(s) && Stepped(s, line, victim, t)
    ensures |t.coremap| == |s.coremap| && |t.ptes| == |s.ptes|
    ensures var page := PageOf(line.vaddr);
            var frame := t.ptes[page].frame;
            if s.ptes[page].valid then t.coremap == s.coremap && frame == s.ptes[page].frame
            else
              && frame == (if FreeFrom(s.coremap, 0) < |s.coremap| then FreeFrom(s.coremap, 0) else victim)
              && t.coremap == s.coremap[frame := CoreFrame(true, page, Align(line.vaddr))]
  {
  }

  lemma {:induction false} StepHolds(s: Sim, queue: seq<nat>, pages: seq<nat>, line: Line, victim: nat, t: Sim,
                                     queue': seq<nat>)
    requires Simulation.Inv(s) && Tallied(s) && Stepped(s, line, victim, t)
    requires LruStep(s, queue, line, victim, t, queue') && Holds(s, queue, pages)
    ensures Holds(t, queue', Referenced(pages, |s.coremap|, PageOf(line.vaddr)))
  {
    var page := PageOf(line.vaddr);
    StepFrames(s, line, victim, t);
    HoldsDistinct(s, queue, pages);
    DistinctSize(pages);
    if s.ptes[page].valid {
      HitHolds(s, queue, pages, page);
    } else if FreeFrom(s.coremap, 0) < |s.coremap| {
      FillHolds(s, queue, pages, t, FreeFrom(s.coremap, 0), page);
    } else {
      SwapHolds(s, queue, pages, t, page, Align(line.vaddr));
    }
  }

  lemma {:induction false} SwapHolds(s: Sim, queue: seq<nat>, pages: seq<nat>, t: Sim, page: nat, vaddr: nat)
    requires Holds(s, queue, pages) && queue != []
    requires t.coremap == s.coremap[queue[0] := CoreFrame(true, page, vaddr)]
    ensures Holds(t, Touched(queue[1..], queue[0]), pages[1..] + [page])
  {
    DropHolds(s, queue, pages);
    var s' := s.(coremap := s.coremap[queue[0] := s.coremap[queue[0]].(inUse := false)]);
    FillHolds(s', queue[1..], pages[1..], t, queue[0], page);
  }

  /** Lists of pages that follow each other by the references of a trace. */
  ghost predicate Follow(lists: seq<seq<nat>>, m: nat, trace: seq<nat>) {
    && |lists| == |trace| + 1 && m > 0 && lists[0] == []
    && forall i {:trigger trace[i]} | 0 <= i < |trace| :: lists[i + 1] == Referenced(lists[i], m, trace[i])
  }

  /** The frames of the queue hold such lists. */
  lemma {:induction false} RunHolds(states: seq<Sim>, queues: seq<seq<nat>>, lines: seq<Line>, victims: seq<nat>,
                                    lists: seq<seq<nat>>, n: nat)
    requires LruRun(states, queues, lines, victims) && n <= |lines|
    requires Follow(lists, |states[0].coremap|, PagesOf(lines))
    ensures Holds(states[n], queues[n], lists[n])
  {
    if n == 0 {
      assert PagesIn(states[0].coremap, []) == [];
    } else {
      RunHolds(states, queues, lines, victims, lists, n - 1);
      RunStepHolds(states, queues, lines, victims, n - 1, lists[n - 1]);
      assert lists[n] == Referenced(lists[n - 1], |states[0].coremap|, PagesOf(lines)[n - 1]);
    }
  }

  /** Under LRU the frames of the queue hold, in the same order, the most recently referenced pages. */
  lemma {:induction false} RunKeepsRecent(states: seq<Sim>, queues: seq<seq<nat>>, lines: seq<Line>, victims: seq<nat>,
                                          n: nat)
    requires LruRun(states, queues, lines, victims) && n <= |lines|
    ensures Holds(states[n], queues[n], Last(History(PagesOf(lines), n), |states[0].coremap|))
  {
    var trace, m := PagesOf(lines), |states[0].coremap|;
    var lists := seq(|trace| + 1, i requires 0 <= i <= |trace| => Last(History(trace, i), m));
    HistoryFollows(trace, m, lists);
    RunHolds(states, queues, lines, victims, lists, n);
  }

  lemma {:induction false} HistoryFollows(trace: seq<nat>, m: nat, lists: seq<seq<nat>>)
    requires m > 0 && |lists| == |trace| + 1
    requires forall i | 0 <= i <= |trace| :: lists[i] == Last(History(trace, i), m)
    ensures Follow(lists, m, trace)
  {
    forall i | 0 <= i < |trace|
      ensures lists[i + 1] == Referenced(lists[i], m, trace[i])
    {
      HistoryStep(trace, i, m);
    }
  }

  lemma {:induction false} RunStepHolds(states: seq<Sim>, queues: seq<seq<nat>>, lines: seq<Line>, victims: seq<nat>,
                                        i: nat, pages: seq<nat>)
    requires LruRun(states, queues, lines, victims) && i < |lines|
    requires Holds(states[i], queues[i], pages) && |states[0].coremap| > 0
    ensures Holds(states[i + 1], queues[i + 1], Referenced(pages, |states[0].coremap|, PagesOf(lines)[i]))
  {
    RunCoherent(states, lines, victims, i);
    RunShape(states, lines, victims, i);
    assert LruStep(states[i], queues[i], lines[i], victims[i], states[i + 1], queues[i + 1]);
    assert Stepped(states[i], lines[i], victims[i], states[i + 1]);
    StepHolds(states[i], queues[i], pages, lines[i], victims[i], states[i + 1], queues[i + 1]);
  }

  lemma {:induction false} LruResidents(states: seq<Sim>, queues: seq<seq<nat>>, lines: seq<Line>, victims: seq<nat>,
                                        n: nat)
    requires LruRun(states, queues, lines, victims) && n <= |lines|
    ensures Residents(states[n]) == Elements(Last(History(PagesOf(lines), n), |states[0].coremap|))
  {
    RunKeepsRecent(states, queues, lines, victims, n);
    RunCoherent(states, lines, victims, n);
    HoldsDistinct(states[n], queues[n], Last(History(PagesOf(lines), n), |states[0].coremap|));
  }

  /** A page is resident, and so a reference to it hits, if and only if it was referenced before
      and fewer distinct pages than there are frames were referenced since. */
  lemma {:induction false} HitIffRecent(states: seq<Sim>, queues: seq<seq<nat>>, lines: seq<Line>, victims: seq<nat>,
                                        n: nat, p: nat)
    requires LruRun(states, queues, lines, victims) && n <= |lines|
    ensures p in Residents(states[n])
       <==> p in PagesOf(lines)[..n] && |Since(PagesOf(lines), n, p)| < |states[0].coremap|
  {
    LruResidents(states, queues, lines, victims, n);
    LastIffRecent(PagesOf(lines), n, |states[0].coremap|, p);
  }

  /** Inclusion: on the same trace, the larger memory holds every page that the smaller one does. */
  lemma {:induction false} Inclusion(states: seq<Sim>, queues: seq<seq<nat>>, victims: seq<nat>, states': seq<Sim>,
                                     queues': seq<seq<nat>>, victims': seq<nat>, lines: seq<Line>, n: nat)
    requires LruRun(states, queues, lines, victims) && LruRun(states', queues', lines, victims') && n <= |lines|
    requires |states[0].coremap| <= |states'[0].coremap|
    ensures Residents(states[n]) <= Residents(states'[n])
  {
    LruResidents(states, queues, lines, victims, n);
    LruResidents(states', queues', lines, victims', n);
    LastGrows(History(PagesOf(lines), n), |states[0].coremap|, |states'[0].coremap|);
  }

  /** More frames never cost LRU a hit: its misses do not grow with memory. */
  lemma {:induction false} NoAnomaly(states: seq<Sim>, queues: seq<seq<nat>>, victims: seq<nat>, states': seq<Sim>,
                                     queues': seq<seq<nat>>, victims': seq<nat>, lines: seq<Line>, n: nat)
    requires LruRun(states, queues, lines, victims) && LruRun(states', queues', lines, victims') && n <= |lines|
    requires |states[0].coremap| <= |states'[0].coremap|
    ensures states'[n].counts.misses <= states[n].counts.misses
  {
    if n > 0 {
      NoAnomaly(states, queues, victims, states', queues', victims', lines, n - 1);
      Inclusion(states, queues, victims, states', queues', victims', lines, n - 1);
      RunMissesStep(states, lines, victims, n - 1);
      RunMissesStep(states', lines, victims', n - 1);
    }
  }
}
