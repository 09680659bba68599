/**
 Why the OPT policy of the simulator is called optimal. A schedule says which pages are in
 memory before each reference of a trace; `Legal` is all that any demand-paging policy can do.
 OPT evicts the page whose next use is farthest away, and `OptIsOptimal` shows that no
 schedule with as many frames has fewer misses on the same trace.

 The proof keeps, along the trace, the other schedule's misses minus OPT's: that difference
 never gets negative, and for every deadline d the other schedule holds at most that many
 more pages needed by d than OPT does.
 */
module Belady {
  import opened Sequences

  /** The position of the next reference to p at or after k, |trace| if there is none. */
  function NextUse(trace: seq<nat>, k: nat, p: nat): (j: nat)
    requires k <= |trace|
    ensures k <= j <= |trace|
    ensures j < |trace| ==> trace[j] == p
    decreases |trace| - k
  {
    if k == |trace| || trace[k] == p then k else NextUse(trace, k + 1, p)
  }

  /** NextUse is the first use: p is not referenced before it. */
  lemma {:induction false} NextUseIsFirst(trace: seq<nat>, k: nat, p: nat, i: nat)
    requires k <= |trace| && k <= i < NextUse(trace, k, p)
    ensures trace[i] != p
    decreases |trace| - k
  {
    if i > k {
      NextUseIsFirst(trace, k + 1, p, i);
    }
  }

  /** The pages of a cache that are needed by time d. */
  ghost function Soon(cache: set<nat>, trace: seq<nat>, k: nat, d: nat): (r: set<nat>)
    requires k <= |trace|
  {
    set p | p in cache && NextUse(trace, k, p) <= d
  }

  ghost function Count(cache: set<nat>, trace: seq<nat>, k: nat, d: nat): (n: nat)
    requires k <= |trace|
  {
    |Soon(cache, trace, k, d)|
  }

  /** What any policy may do at a reference: keep some of the pages it has, and the new one. */
  ghost predicate Legal(cache: set<nat>, page: nat, frames: nat, next: set<nat>) {
    page in next && next <= cache + {page} && |next| <= frames
  }

  /** What OPT does: nothing on a hit; use a free frame; or evict a page of farthest next use. */
  ghost predicate OptStep(cache: set<nat>, trace: seq<nat>, k: nat, frames: nat, next: set<nat>)
    requires k < |trace|
  {
    if trace[k] in cache then next == cache
    else if |cache| < frames then next == cache + {trace[k]}
    else exists victim :: IsFarthest(cache, trace, k + 1, victim) && next == cache - {victim} + {trace[k]}
  }

  ghost predicate IsFarthest(cache: set<nat>, trace: seq<nat>, k: nat, victim: nat)
    requires k <= |trace|
  {
    victim in cache && forall p | p in cache :: NextUse(trace, k, p) <= NextUse(trace, k, victim)
  }

  function Bit(b: bool): (n: nat) {
    if b then 1 else 0
  }

  // ---------- one reference ----------

  /** The page just referenced moves from time k to its next use; nothing else moves. */
  lemma {:induction false} SoonStep(cache: set<nat>, trace: seq<nat>, k: nat, d: nat)
    requires k < |trace| && k < d
    ensures Soon(cache, trace, k + 1, d) - {trace[k]} == Soon(cache, trace, k, d) - {trace[k]}
    ensures trace[k] in Soon(cache, trace, k, d) <==> trace[k] in cache
  {
    assert forall p | p != trace[k] :: NextUse(trace, k, p) == NextUse(trace, k + 1, p);
  }

  /** An upper bound for any legal step. */
  lemma {:induction false} LegalBound(cache: set<nat>, trace: seq<nat>, k: nat, frames: nat, next: set<nat>, d: nat)
    requires k < |trace| && k < d && Legal(cache, trace[k], frames, next)
    ensures Count(next, trace, k + 1, d)
         <= Count(cache, trace, k, d) - Bit(trace[k] in cache) + Bit(NextUse(trace, k + 1, trace[k]) <= d)
    ensures Count(next, trace, k + 1, d) <= frames - 1 + Bit(NextUse(trace, k + 1, trace[k]) <= d)
  {
    var page := trace[k];
    var s, t := Soon(next, trace, k + 1, d), Soon(cache, trace, k, d);
    SoonStep(cache, trace, k, d);
    assert s - {page} <= t - {page};
    Size(s, page);
    Size(t, page);
    SubsetSize(s - {page}, t - {page});
    assert s - {page} <= next - {page};
    SubsetSize(s - {page}, next - {page});
  }

  lemma {:induction false} Size(s: set<nat>, p: nat)
    ensures |s| == |s - {p}| + Bit(p in s)
  {
    if p in s {
      assert s == (s - {p}) + {p};
    } else {
      assert s == s - {p};
    }
  }

  /** A lower bound for OPT's step, when it evicts nothing. */
  lemma {:induction false} OptKeepsAll(cache: set<nat>, trace: seq<nat>, k: nat, d: nat)
    requires k < |trace| && k < d
    ensures Count(cache + {trace[k]}, trace, k + 1, d)
         == Count(cache, trace, k, d) - Bit(trace[k] in cache) + Bit(NextUse(trace, k + 1, trace[k]) <= d)
  {
    var page := trace[k];
    var s, t := Soon(cache + {page}, trace, k + 1, d), Soon(cache, trace, k, d);
    SoonStep(cache, trace, k, d);
    SoonStep(cache + {page}, trace, k, d);
    assert s - {page} == t - {page};
    Size(s, page);
    Size(t, page);
  }

  /** When OPT evicts, nothing needed before the victim's next use is lost ... */
  lemma {:induction false} EvictEarly(cache: set<nat>, trace: seq<nat>, k: nat, victim: nat, d: nat)
    requires k < |trace| && k < d < NextUse(trace, k + 1, victim) && trace[k] !in cache && victim in cache
    ensures Count(cache - {victim} + {trace[k]}, trace, k + 1, d)
         == Count(cache, trace, k, d) + Bit(NextUse(trace, k + 1, trace[k]) <= d)
  {
    OptKeepsAll(cache, trace, k, d);
    assert Soon(cache - {victim} + {trace[k]}, trace, k + 1, d) == Soon(cache + {trace[k]}, trace, k + 1, d);
  }

  /** ... and from then on every page kept is needed by d, so the cache is as full as it can be. */
  lemma {:induction false} EvictLate(cache: set<nat>, trace: seq<nat>, k: nat, victim: nat, d: nat)
    requires k < |trace| && trace[k] !in cache && NextUse(trace, k + 1, victim) <= d
    requires IsFarthest(cache, trace, k + 1, victim)
    ensures Count(cache - {victim} + {trace[k]}, trace, k + 1, d)
         == |cache| - 1 + Bit(NextUse(trace, k + 1, trace[k]) <= d)
  {
    var s := Soon(cache - {victim} + {trace[k]}, trace, k + 1, d);
    Size(s, trace[k]);
    assert s - {trace[k]} == cache - {victim};
    Size(cache, victim);
  }

  // ---------- the invariant ----------

  /** OPT has cache a, the other schedule has cache b and `lead` more misses so far. */
  ghost predicate Ahead(a: set<nat>, b: set<nat>, trace: seq<nat>, k: nat, lead: int)
    requires k <= |trace|
  {
    && lead >= 0
    && forall d: nat {:trigger Count(b, trace, k, d)} | k <= d <= |trace| ::
       Count(b, trace, k, d) <= Count(a, trace, k, d) + lead
  }

  /** At the deadline k only the page referenced there can be needed, so OPT leads when it
      misses and the other schedule does not. */
  lemma {:induction false} SoonNow(cache: set<nat>, trace: seq<nat>, k: nat)
    requires k < |trace|
    ensures Count(cache, trace, k, k) == Bit(trace[k] in cache)
  {
    var s := Soon(cache, trace, k, k);
    if trace[k] in cache {
      assert s == {trace[k]};
    } else {
      assert s == {};
    }
  }

  lemma {:induction false} AheadStep(a: set<nat>, b: set<nat>, trace: seq<nat>, k: nat, frames: nat, a': set<nat>,
                                     b': set<nat>, lead: int)
    requires k < |trace| && |a| <= frames && frames > 0
    requires Ahead(a, b, trace, k, lead)
    requires OptStep(a, trace, k, frames, a') && Legal(b, trace[k], frames, b')
    ensures |a'| <= frames
    ensures Ahead(a', b', trace, k + 1, lead + Bit(trace[k] !in b) - Bit(trace[k] !in a))
  {
    SoonNow(a, trace, k);
    SoonNow(b, trace, k);
    var lead' := lead + Bit(trace[k] !in b) - Bit(trace[k] !in a);
    assert lead' >= 0 by {
      assert Count(b, trace, k, k) <= Count(a, trace, k, k) + lead;
    }
    var next := k + 1;
    forall d: nat | next <= d <= |trace|
      ensures Count(b', trace, next, d) <= Count(a', trace, next, d) + lead'
    {
      AheadAt(a, b, trace, k, frames, a', b', lead, d);
    }
    OptFits(a, trace, k, frames, a');
  }

  lemma {:induction false} OptFits(a: set<nat>, trace: seq<nat>, k: nat, frames: nat, a': set<nat>)
    requires k < |trace| && |a| <= frames && frames > 0 && OptStep(a, trace, k, frames, a')
    ensures |a'| <= frames && trace[k] in a'
  {
    if trace[k] !in a && |a| == frames {
      var victim :| IsFarthest(a, trace, k + 1, victim) && a' == a - {victim} + {trace[k]};
    }
  }

  lemma {:induction false} AheadAt(a: set<nat>, b: set<nat>, trace: seq<nat>, k: nat, frames: nat, a': set<nat>,
                                   b': set<nat>, lead: int, d: nat)
    requires k < |trace| && k < d <= |trace| && |a| <= frames && frames > 0
    requires lead + Bit(trace[k] !in b) - Bit(trace[k] !in a) >= 0
    requires Count(b, trace, k, d) <= Count(a, trace, k, d) + lead
    requires OptStep(a, trace, k, frames, a') && Legal(b, trace[k], frames, b')
    ensures Count(b', trace, k + 1, d)
         <= Count(a', trace, k + 1, d) + lead + Bit(trace[k] !in b) - Bit(trace[k] !in a)
  {
    LegalBound(b, trace, k, frames, b', d);
    if trace[k] in a || |a| < frames {
      OptKeepsAll(a, trace, k, d);
      assert a' == a + {trace[k]};
    } else {
      var victim :| IsFarthest(a, trace, k + 1, victim) && a' == a - {victim} + {trace[k]};
      if d < NextUse(trace, k + 1, victim) {
        EvictEarly(a, trace, k, victim, d);
      } else {
        EvictLate(a, trace, k, victim, d);
      }
    }
  }

  // ---------- whole traces ----------

  /** A schedule: the cache before each reference, and at the end. It starts empty. */
  ghost predicate Schedule(caches: seq<set<nat>>, trace: seq<nat>, frames: nat) {
    && |caches| == |trace| + 1 && caches[0] == {}
    && forall i {:trigger trace[i]} | 0 <= i < |trace| :: Legal(caches[i], trace[i], frames, caches[i + 1])
  }

  ghost predicate OptSchedule(caches: seq<set<nat>>, trace: seq<nat>, frames: nat) {
    && |caches| == |trace| + 1 && caches[0] == {}
    && forall i {:trigger trace[i]} | 0 <= i < |trace| :: OptStep(caches[i], trace, i, frames, caches[i + 1])
  }

  /** The misses among the first n references. */
  ghost function Misses(caches: seq<set<nat>>, trace: seq<nat>, n: nat): (m: nat)
    requires n <= |trace| && |caches| > |trace|
  {
    if n == 0 then 0 else Misses(caches, trace, n - 1) + Bit(trace[n - 1] !in caches[n - 1])
  }

  lemma {:induction false} OptAhead(opt: seq<set<nat>>, caches: seq<set<nat>>, trace: seq<nat>, frames: nat, n: nat)
    requires frames > 0 && OptSchedule(opt, trace, frames) && Schedule(caches, trace, frames) && n <= |trace|
    ensures |opt[n]| <= frames
    ensures Ahead(opt[n], caches[n], trace, n, Misses(caches, trace, n) - Misses(opt, trace, n))
  {
    if n > 0 {
      OptAhead(opt, caches, trace, frames, n - 1);
      OptAheadNext(opt, caches, trace, frames, n - 1, n);
    }
  }

  lemma {:induction false} OptAheadNext(opt: seq<set<nat>>, caches: seq<set<nat>>, trace: seq<nat>, frames: nat, n: nat,
                                        n': nat)
    requires frames > 0 && OptSchedule(opt, trace, frames) && Schedule(caches, trace, frames)
    requires n < n' == n + 1 <= |trace| && |opt[n]| <= frames
    requires Ahead(opt[n], caches[n], trace, n, Misses(caches, trace, n) - Misses(opt, trace, n))
    ensures |opt[n']| <= frames
    ensures Ahead(opt[n'], caches[n'], trace, n', Misses(caches, trace, n') - Misses(opt, trace, n'))
  {
    assert OptStep(opt[n], trace, n, frames, opt[n']);
    assert Legal(caches[n], trace[n], frames, caches[n']);
    AheadStep(opt[n], caches[n], trace, n, frames, opt[n'], caches[n'],
              Misses(caches, trace, n) - Misses(opt, trace, n));
  }

  /** OPT is optimal: after every prefix of every trace, no schedule has fewer misses. */
  lemma {:induction false} OptIsOptimal(opt: seq<set<nat>>, caches: seq<set<nat>>, trace: seq<nat>, frames: nat, n: nat)
    requires frames > 0 && OptSchedule(opt, trace, frames) && Schedule(caches, trace, frames) && n <= |trace|
    ensures Misses(opt, trace, n) <= Misses(caches, trace, n)
  {
    OptAhead(opt, caches, trace, frames, n);
  }

  /** OPT itself is one of the policies it is compared with. */
  lemma {:induction false} OptIsLegal(opt: seq<set<nat>>, trace: seq<nat>, frames: nat)
    requires frames > 0 && OptSchedule(opt, trace, frames)
    ensures Schedule(opt, trace, frames)
  {
    forall i | 0 <= i < |trace|
      ensures Legal(opt[i], trace[i], frames, opt[i + 1])
    {
      SizeAt(opt, trace, frames, i);
      assert OptStep(opt[i], trace, i, frames, opt[i + 1]);
      OptFits(opt[i], trace, i, frames, opt[i + 1]);
    }
  }

  lemma {:induction false} SizeAt(opt: seq<set<nat>>, trace: seq<nat>, frames: nat, n: nat)
    requires frames > 0 && OptSchedule(opt, trace, frames) && n <= |trace|
    ensures |opt[n]| <= frames
  {
    if n > 0 {
      SizeAt(opt, trace, frames, n - 1);
      assert OptStep(opt[n - 1], trace, n - 1, frames, opt[n]);
      OptFits(opt[n - 1], trace, n - 1, frames, opt[n]);
    }
  }
}
