/**
 The simulator's CLOCK policy: a hand goes round the frames, clears the reference bits it passes
 and stops at the first frame whose bit is clear.
 */
module Clock {

  /** How many places after the hand frame f is, going round. */
  function Ahead(hand: nat, f: nat, n: nat): (d: nat)
    requires hand < n && f < n
    ensures d < n && d == (f + n - hand) % n
  {
    if hand <= f then f - hand else f + n - hand
  }

  lemma {:induction false} RoundIs(x: nat, n: nat)
    requires x < 2 * n
    ensures x % n == if x < n then x else x - n
  {
  }

  class Policy {
    const refed: array<bool>
    var hand: nat

    ghost predicate Valid()
      reads this
    {
      hand < refed.Length
    }

    /** `clock_init`. */
    constructor (frames: nat)
      requires frames > 0
      ensures Valid() && fresh(refed) && refed.Length == frames && hand == 0
      ensures forall f | 0 <= f < frames :: !refed[f]
    {
      refed := new bool[frames](_ => false);
      hand := 0;
    }

    /** `clock_ref`. */
    method Ref(frame: nat)
      requires Valid() && frame < refed.Length
      modifies refed
      ensures refed[..] == old(refed[..])[frame := true]
    {
      refed[frame] := true;
    }

    /** `clock_evict`: the first frame from the hand on whose bit is clear, the frame at the hand
        if none is. The victim is d places after the hand; the bits of the frames less than d places
        after it were set and are cleared, the victim's is set, and no other changes. */
    method Evict() returns (victim: nat, ghost d: nat)
      requires Valid()
      modifies this`hand, refed
      ensures Valid() && hand == victim
      ensures d <= refed.Length && victim == (old(hand) + d) % refed.Length
      ensures d == refed.Length || !old(refed[victim])
      ensures forall f | 0 <= f < refed.Length && (f + refed.Length - old(hand)) % refed.Length < d :: old(refed[f])
      ensures forall f | 0 <= f < refed.Length ::
          refed[f] == if f == victim then true
                      else if (f + refed.Length - old(hand)) % refed.Length < d then false
                      else old(refed[f])
    {
      victim, d := Search();
      RoundIs(old(hand) + d, refed.Length);
    }

    /** The loop, with the places counted by `Ahead`. */
    method Search() returns (i: nat, ghost d: nat)
      requires Valid()
      modifies this`hand, refed
      ensures hand == i < refed.Length && d <= refed.Length
      ensures i == if old(hand) + d < refed.Length then old(hand) + d else old(hand) + d - refed.Length
      ensures d == refed.Length || !old(refed[i])
      ensures forall f | 0 <= f < refed.Length && Ahead(old(hand), f, refed.Length) < d :: old(refed[f])
      ensures forall f | 0 <= f < refed.Length ::
          refed[f] == if f == i then true
                      else if Ahead(old(hand), f, refed.Length) < d then false
                      else old(refed[f])
    {
      i := hand;
      ghost var n := refed.Length;
      d := 0;
      while refed[i]
        invariant hand == old(hand) && 0 <= d <= n && i == if hand + d < n then hand + d else hand + d - n
        invariant forall f | 0 <= f < n && Ahead(hand, f, n) < d :: old(refed[f])
        invariant forall f | 0 <= f < n :: refed[f] == if Ahead(hand, f, n) < d then false else old(refed[f])
        decreases n - d
      {
        refed[i] := false;
        RoundIs(i + 1, n);
        i := (i + 1) % refed.Length;
        d := d + 1;
      }
      refed[i] := true;
      hand := i;
    }
  }
}
