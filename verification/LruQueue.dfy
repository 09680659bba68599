/**
 The linked queue of frames behind the simulator's LRU policy, with the bitmap of the frames
 that are in it. Its contents are a sequence of frame numbers, the next victim first.
 */
module LruQueues {
  import opened Sequences
  import opened LruStack

  class LlNode {
    const frame: nat
    var next: LlNode?

    constructor (frame: nat)
      ensures this.frame == frame && next == null
    {
      this.frame := frame;
      next := null;
    }
  }

  ghost function FramesOf(nodes: seq<LlNode>): (frames: seq<nat>) {
    seq(|nodes|, i requires 0 <= i < |nodes| => nodes[i].frame)
  }

  /** Each node points at the next one, the last one at nothing. */
  ghost predicate Chained(nodes: seq<LlNode>)
    reads nodes
  {
    forall i {:trigger nodes[i].next} | 0 <= i < |nodes| ::
      nodes[i].next == if i + 1 < |nodes| then nodes[i + 1] else null
  }

  /** The bitmap marks exactly the frames that are listed. */
  ghost predicate Marks(frames: seq<nat>, bits: seq<bool>) {
    && Distinct(frames)
    && (forall i | 0 <= i < |frames| :: frames[i] < |bits|)
    && forall f: nat | f < |bits| :: bits[f] <==> f in frames
  }

  lemma {:induction false} MarksDrop(frames: seq<nat>, bits: seq<bool>)
    requires Marks(frames, bits) && frames != []
    ensures Marks(frames[1..], bits[frames[0] := false])
  {
    assert forall f :: f in frames <==> f == frames[0] || f in frames[1..];
  }

  lemma {:induction false} MarksTouched(frames: seq<nat>, bits: seq<bool>, frame: nat)
    requires Marks(frames, bits) && frame < |bits|
    ensures Marks(Touched(frames, frame), bits[frame := true])
  {
    var touched := Touched(frames, frame);
    if frame in frames {
      TouchedMembers(frames, frame);
    } else {
      assert forall f :: f in touched <==> f in frames || f == frame;
    }
    assert forall i | 0 <= i < |touched| :: touched[i] in touched;
  }

  class Queue {
    var head: LlNode?
    var tail: LlNode?
    const refed: array<bool>
    ghost var nodes: seq<LlNode>
    ghost var repr: set<LlNode>

    ghost predicate Linked()
      reads this, repr
    {
      && (forall i | 0 <= i < |nodes| :: nodes[i] in repr)
      && Distinct(nodes) && Chained(nodes)
      && head == (if nodes == [] then null else nodes[0])
      && tail == (if nodes == [] then null else nodes[|nodes| - 1])
    }

    ghost predicate Valid()
      reads this, refed, repr
    {
      Linked() && Marks(Contents(), refed[..])
    }

    ghost function Contents(): (frames: seq<nat>)
      reads this
    {
      FramesOf(nodes)
    }

    /** `lru_init`. */
    constructor (frames: nat)
      ensures Valid() && fresh(refed) && refed.Length == frames && Contents() == [] && repr == {}
    {
      head := null;
      tail := null;
      nodes := [];
      repr := {};
      refed := new bool[frames](_ => false);
    }

    /** `lru_evict`: the frame at the head. */
    method Evict() returns (frame: nat)
      requires Valid() && Contents() != []
      modifies this, refed
      ensures Valid() && repr == old(repr)
      ensures [frame] + Contents() == old(Contents())
    {
      frame := head.frame;
      MarksDrop(Contents(), refed[..]);
      if head == tail {
        assert |nodes| == 1;
        tail := null;
      }
      refed[frame] := false;
      head := head.next;
      nodes := nodes[1..];
      assert Contents() == old(Contents())[1..];
      assert refed[..] == old(refed[..])[frame := false];
    }

    /** Append a node at the tail. */
    method Append(frame: nat)
      requires Linked()
      modifies this, repr
      ensures Linked() && |nodes| == |old(nodes)| + 1 && nodes[..|nodes| - 1] == old(nodes)
      ensures repr == old(repr) + {nodes[|nodes| - 1]} && fresh(nodes[|nodes| - 1])
          && Contents() == old(Contents()) + [frame]
    {
      var node := new LlNode(frame);
      if tail == null {
        head := node;
      } else {
        tail.next := node;
      }
      tail := node;
      nodes := nodes + [node];
      repr := repr + {node};
      assert Contents() == old(Contents()) + [frame];
    }

    /** The first node for this frame, which is not the last node, and the one before it. */
    method Find(frame: nat) returns (node: LlNode, prev: LlNode?, ghost k: nat)
      requires Linked() && nodes != [] && frame in FramesOf(nodes[..|nodes| - 1])
      ensures k < |nodes| - 1 && node == nodes[k] && prev == (if k == 0 then null else nodes[k - 1])
      ensures node.frame == frame && forall i | 0 <= i < k :: nodes[i].frame != frame
    {
      k := 0;
      node := head;
      prev := null;
      while node.frame != frame
        invariant k < |nodes| - 1 && node == nodes[k]
        invariant prev == if k == 0 then null else nodes[k - 1]
        invariant forall i | 0 <= i < k :: nodes[i].frame != frame
        decreases |nodes| - k
      {
        Ahead(nodes[..|nodes| - 1], frame, k);
        prev := node;
        node := node.next;
        k := k + 1;
      }
    }

    /** Unlink the first node for this frame. */
    method Remove(frame: nat)
      requires Linked() && nodes != [] && frame in FramesOf(nodes[..|nodes| - 1])
      modifies this, repr
      ensures Linked() && Contents() == Without(old(Contents()), frame)
      ensures repr == old(repr)
    {
      var node, prev, k := Find(frame);
      CutOut(nodes, k);
      Unlink(node, prev, k);
    }

    method Unlink(node: LlNode, prev: LlNode?, ghost k: nat)
      requires Linked() && k < |nodes| - 1 && node == nodes[k] && prev == (if k == 0 then null else nodes[k - 1])
      modifies this, repr
      ensures Linked() && nodes == Taken(old(nodes), k) && repr == old(repr)
    {
      TakenDistinct(nodes, k);
      if prev != null {
        prev.next := node.next;
      } else {
        head := node.next;
      }
      nodes := Taken(nodes, k);
    }

    /** Append a node for a frame that has one, then remove the old one. */
    method Requeue(frame: nat)
      requires Linked() && frame in Contents()
      modifies this, repr
      ensures Linked() && Contents() == Touched(old(Contents()), frame)
      ensures forall n | n in repr :: n in old(repr) || fresh(n)
    {
      WithoutInFront(Contents(), frame);
      Append(frame);
      assert FramesOf(nodes[..|nodes| - 1]) == old(Contents());
      Remove(frame);
    }

    /** `lru_ref`: the frame goes to the tail, and leaves its old place. */
    method Ref(frame: nat)
      requires Valid() && frame < refed.Length
      modifies this, refed, repr
      ensures Valid() && Contents() == Touched(old(Contents()), frame)
      ensures forall n | n in repr :: n in old(repr) || fresh(n)
    {
      MarksTouched(Contents(), refed[..], frame);
      if !refed[frame] {
        refed[frame] := true;
        Append(frame);
      } else {
        Requeue(frame);
      }
      assert refed[..] == old(refed[..])[frame := true];
    }
  }

  lemma {:induction false} CutOut(nodes: seq<LlNode>, k: nat)
    requires Distinct(nodes) && k < |nodes| && forall i | 0 <= i < k :: nodes[i].frame != nodes[k].frame
    ensures Distinct(Taken(nodes, k))
    ensures FramesOf(Taken(nodes, k)) == Without(FramesOf(nodes), nodes[k].frame)
  {
    WithoutAt(FramesOf(nodes), k);
  }

  lemma {:induction false} Ahead(nodes: seq<LlNode>, frame: nat, k: nat)
    requires frame in FramesOf(nodes) && k < |nodes| && forall i | 0 <= i <= k :: nodes[i].frame != frame
    ensures k + 1 < |nodes|
  {
    var j :| 0 <= j < |nodes| && FramesOf(nodes)[j] == frame;
    assert nodes[j].frame == frame;
  }

  lemma {:induction false} WithoutInFront(s: seq<nat>, x: nat)
    requires x in s
    ensures Without(s + [x], x) == Without(s, x) + [x]
  {
    if s[0] != x {
      WithoutInFront(s[1..], x);
      assert (s + [x])[1..] == s[1..] + [x];
    } else {
      assert (s + [x])[1..] == s[1..] + [x];
    }
  }
}
