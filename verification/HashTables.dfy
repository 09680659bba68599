/**
 The chained hash table that finds the list node of a page: one bucket per frame, new nodes
 at the head of their chain.
 */
module HashTables {
  import opened Hashing
  import opened Sequences

  datatype Found<V> = Item(item: V) | Null

  class HashNode<V> {
    const key: nat
    const item: V
    var next: HashNode?<V>

    constructor (key: nat, item: V)
      ensures this.key == key && this.item == item && this.next == null
    {
      this.key := key;
      this.item := item;
      this.next := null;
    }
  }

  ghost function ChainKeys<V>(nodes: seq<HashNode<V>>): (keys: seq<nat>)
    ensures |keys| == |nodes| && forall i | 0 <= i < |keys| :: keys[i] == nodes[i].key
  {
    seq(|nodes|, i requires 0 <= i < |nodes| => nodes[i].key)
  }

  /** Where the key is in the chain, |nodes| if it is not there. */
  ghost function Find<V>(nodes: seq<HashNode<V>>, key: nat): (k: nat)
    ensures k <= |nodes|
    ensures k < |nodes| ==> nodes[k].key == key
    ensures forall i | 0 <= i < k :: nodes[i].key != key
  {
    if |nodes| == 0 || nodes[0].key == key then 0 else Find(nodes[1..], key) + 1
  }

  ghost function Removed<V>(nodes: seq<HashNode<V>>, key: nat): (r: seq<HashNode<V>>) {
    var k := Find(nodes, key);
    if k == |nodes| then nodes else Taken(nodes, k)
  }

  ghost predicate Chained<V>(head: HashNode?<V>, nodes: seq<HashNode<V>>)
    reads nodes
  {
    && head == (if |nodes| == 0 then null else nodes[0])
    && (forall i {:trigger nodes[i].next} | 0 <= i < |nodes| ::
          nodes[i].next == if i == |nodes| - 1 then null else nodes[i + 1])
  }

  /** Every node is in the bucket of its key, and no key occurs twice. */
  ghost predicate Placed<V>(chains: seq<seq<HashNode<V>>>, repr: set<HashNode<V>>) {
    && |chains| > 0
    && (forall b, i | 0 <= b < |chains| && 0 <= i < |chains[b]| ::
          chains[b][i] in repr && HashOf(chains[b][i].key, |chains|) == b)
    && (forall b, i, j | 0 <= b < |chains| && 0 <= i < j < |chains[b]| ::
          chains[b][i].key != chains[b][j].key)
  }

  /** The chain has an entry for the key, and it is this one. */
  ghost predicate Maps<V>(nodes: seq<HashNode<V>>, key: nat, item: V) {
    Find(nodes, key) < |nodes| && nodes[Find(nodes, key)].item == item
  }

  /** The chains hold exactly the entries of the map. */
  ghost predicate Holds<V>(chains: seq<seq<HashNode<V>>>, index: map<nat, V>)
    requires |chains| > 0
  {
    forall key: nat {:trigger HashOf(key, |chains|)} ::
      var nodes := chains[HashOf(key, |chains|)];
      if key in index then Maps(nodes, key, index[key]) else Find(nodes, key) == |nodes|
  }

  lemma {:induction false} InsertPlaced<V>(chains: seq<seq<HashNode<V>>>, repr: set<HashNode<V>>, index: map<nat, V>,
                                           node: HashNode<V>)
    requires Placed(chains, repr) && Holds(chains, index) && node.key !in index
    ensures var b := HashOf(node.key, |chains|);
            && Placed(chains[b := [node] + chains[b]], repr + {node})
            && Holds(chains[b := [node] + chains[b]], index[node.key := node.item])
  {
    var b := HashOf(node.key, |chains|);
    var r: seq<seq<HashNode<V>>> := chains[b := [node] + chains[b]];
    assert Find(chains[b], node.key) == |chains[b]|;
    forall c, i, j | 0 <= c < |r| && 0 <= i < j < |r[c]|
      ensures r[c][i].key != r[c][j].key
    {
      if c == b {
        assert r[c][j] == chains[b][j - 1];
      }
    }
    assert ([node] + chains[b])[1..] == chains[b];
  }

  lemma {:induction false} RemovePlaced<V>(chains: seq<seq<HashNode<V>>>, repr: set<HashNode<V>>, b: nat, k: nat)
    requires Placed(chains, repr) && b < |chains| && k < |chains[b]|
    ensures Placed(chains[b := Taken(chains[b], k)], repr)
  {
    var rest := Taken(chains[b], k);
    assert forall i | 0 <= i < |rest| :: rest[i] == chains[b][if i < k then i else i + 1];
  }

  ghost predicate KeysDiffer<V>(nodes: seq<HashNode<V>>) {
    forall i, j | 0 <= i < j < |nodes| :: nodes[i].key != nodes[j].key
  }

  /** Taking out the k-th node takes out its key and nothing else. */
  lemma {:induction false} RemoveMaps<V>(nodes: seq<HashNode<V>>, k: nat, key: nat)
    requires k < |nodes| && KeysDiffer(nodes)
    ensures var rest := Taken(nodes, k);
            if key == nodes[k].key || Find(nodes, key) == |nodes| then Find(rest, key) == |rest|
            else Maps(rest, key, nodes[Find(nodes, key)].item)
  {
    var rest := Taken(nodes, k);
    assert forall i | 0 <= i < |rest| :: rest[i] == nodes[if i < k then i else i + 1];
    var f := Find(nodes, key);
    if key != nodes[k].key && f < |nodes| {
      var g := if f < k then f else f - 1;
      assert rest[g] == nodes[f];
    }
  }

  lemma {:induction false} RemoveHolds<V>(chains: seq<seq<HashNode<V>>>, repr: set<HashNode<V>>, index: map<nat, V>,
                                          b: nat, k: nat)
    requires Placed(chains, repr) && Holds(chains, index) && b < |chains| && k < |chains[b]|
    ensures Holds(chains[b := Taken(chains[b], k)], index - {chains[b][k].key})
  {
    var next := index - {chains[b][k].key};
    forall key: nat
      ensures var nodes := chains[b := Taken(chains[b], k)][HashOf(key, |chains|)];
              if key in next then Maps(nodes, key, next[key]) else Find(nodes, key) == |nodes|
    {
      assert key in next <==> key in index && key != chains[b][k].key;
      RemoveMaps(chains[b], k, key);
    }
  }

  class HashTable<V> {
    const heads: array<HashNode?<V>>
    const counts: array<int>
    ghost var chains: seq<seq<HashNode<V>>>
    ghost var repr: set<HashNode<V>>
    ghost var index: map<nat, V>

    /** The pointers spell out the chains. */
    ghost predicate Wired()
      reads this, heads, counts, repr
    {
      && heads.Length == counts.Length == |chains|
      && (forall b, i | 0 <= b < |chains| && 0 <= i < |chains[b]| :: chains[b][i] in repr)
      && (forall b | 0 <= b < |chains| :: Chained(heads[b], chains[b]) && counts[b] == |chains[b]|)
    }

    ghost predicate Valid()
      reads this, heads, counts, repr
    {
      Wired() && Placed(chains, repr) && Holds(chains, index)
    }

    constructor (n: nat)
      requires n > 0
      ensures Valid() && fresh(heads) && fresh(counts) && repr == {} && index == map[]
      ensures chains == seq(n, b => [])
    {
      heads := new HashNode?<V>[n](b => null);
      counts := new int[n](b => 0);
      chains := seq(n, b => []);
      repr := {};
      index := map[];
    }

    /** `insertHashNode`, as a map sees it. */
    method Insert(key: nat, item: V) returns (ghost node: HashNode<V>)
      requires Valid() && key !in index
      modifies this, heads, counts
      ensures Valid() && repr == old(repr) + {node} && fresh(node)
      ensures index == old(index)[key := item]
    {
      node := InsertFirst(key, item);
    }

    /** `deleteHashNode`, as a map sees it. */
    method Delete(key: nat)
      requires Valid()
      modifies this, heads, counts, repr
      ensures Valid() && repr == old(repr) && index == old(index) - {key}
    {
      DeleteFirst(key);
    }

    /** `insertHashNode`: the new node becomes the head of its chain. */
    method InsertFirst(key: nat, item: V) returns (ghost node: HashNode<V>)
      requires Valid() && key !in index
      modifies this, heads, counts
      ensures Valid() && repr == old(repr) + {node} && fresh(node)
      ensures index == old(index)[key := item]
      ensures node.key == key && node.item == item
      ensures var b := HashOf(key, |old(chains)|);
              chains == old(chains)[b := [node] + old(chains)[b]]
    {
      node := PushFront(key, item);
      InsertPlaced(old(chains), old(repr), index, node);
      index := index[key := item];
    }

    method PushFront(key: nat, item: V) returns (ghost node: HashNode<V>)
      requires Wired() && |chains| > 0
      modifies this`chains, this`repr, heads, counts
      ensures Wired() && repr == old(repr) + {node} && fresh(node)
      ensures node.key == key && node.item == item
      ensures var b := HashOf(key, |old(chains)|);
              chains == old(chains)[b := [node] + old(chains)[b]]
    {
      var b := HashOf(key, heads.Length);
      var added := new HashNode<V>(key, item);
      if heads[b] == null {
        heads[b] := added;
        counts[b] := 1;
      } else {
        added.next := heads[b];
        heads[b] := added;
        counts[b] := counts[b] + 1;
      }
      node := added;
      chains, repr := chains[b := [node] + chains[b]], repr + {node};
    }

    /** `getHashNode`: a null pointer for an empty chain. It dereferences one when the chain has
        nodes but not this key, so a caller has to know that the page is there. */
    method Get(key: nat) returns (found: Found<V>)
      requires Valid() && (key in index || chains[HashOf(key, |chains|)] == [])
      ensures found == if key in index then Item(index[key]) else Null
    {
      var b := HashOf(key, heads.Length);
      var node := heads[b];
      if node == null {
        return Null;
      }
      ghost var k := 0;
      assert Maps(chains[b], key, index[key]);
      while node != null && node.key != key
        invariant k <= Find(chains[b], key)
        invariant node == chains[b][k]
        decreases |chains[b]| - k
      {
        node := node.next;
        k := k + 1;
      }
      found := Item(node.item);
    }

    /** `deleteHashNode`; a key that is not there is ignored. */
    method DeleteFirst(key: nat)
      requires Valid()
      modifies this, heads, counts, repr
      ensures Valid() && repr == old(repr) && index == old(index) - {key}
      ensures var b := HashOf(key, |old(chains)|);
              chains == old(chains)[b := Removed(old(chains)[b], key)]
    {
      var b := HashOf(key, heads.Length);
      ghost var k := Find(chains[b], key);
      assert key in index <==> k < |chains[b]|;
      Take(key);
      if k < |old(chains)[b]| {
        RemovePlaced(old(chains), repr, b, k);
        RemoveHolds(old(chains), repr, index, b, k);
      }
      index := index - {key};
    }

    /** The search and the pointer updates of `deleteHashNode`. */
    method Take(key: nat)
      requires Wired() && Placed(chains, repr)
      modifies this`chains, heads, counts, repr
      ensures Wired()
      ensures var b := HashOf(key, |old(chains)|);
              chains == old(chains)[b := Removed(old(chains)[b], key)]
    {
      var b := HashOf(key, heads.Length);
      var node := heads[b];
      var temp := node;
      ghost var nodes := chains[b];
      ghost var k := 0;
      while node != null && node.key != key
        invariant k <= Find(nodes, key)
        invariant node == if k < |nodes| then nodes[k] else null
        invariant k > 0 ==> temp == nodes[k - 1]
        decreases |nodes| - k
      {
        temp := node;
        node := node.next;
        k := k + 1;
      }
      if node != null {
        Unlink(b, node, temp, k);
        counts[b] := counts[b] - 1;
        chains := chains[b := Taken(nodes, k)];
      }
    }

    /** Takes the k-th node out of bucket b; `temp` is the node before it, if there is one. */
    method Unlink(b: nat, node: HashNode<V>, temp: HashNode?<V>, ghost k: nat)
      requires Wired() && Placed(chains, repr)
      requires b < |chains| && k < |chains[b]| && node == chains[b][k]
      requires k > 0 ==> temp == chains[b][k - 1]
      modifies heads, repr
      ensures forall c | 0 <= c < |chains| && c != b :: Chained(heads[c], chains[c])
      ensures Chained(heads[b], Taken(chains[b], k))
    {
      if node == heads[b] {
        assert k == 0;
        heads[b] := node.next;
      } else {
        temp.next := node.next;
      }
    }
  }
}
