/**
  The chained hash table.  Every operation runs under the lock of its bucket, so
  operations are modelled one at a time.
  */
module HashTable {
  import opened Hash

  class Node {
    const key: string
    const keySize: nat
    var value: string
    var valueSize: nat
    var next: Node?

    constructor (key: string, value: string, next: Node?)
      ensures this.key == key && this.keySize == |key|
      ensures this.value == value && this.valueSize == |value| && this.next == next
    {
      this.key, this.keySize := key, |key|;
      this.value, this.valueSize := value, |value|;
      this.next := next;
    }
  }

  function Sum(sizes: seq<nat>): nat {
    if sizes == [] then 0 else Sum(sizes[..|sizes| - 1]) + sizes[|sizes| - 1]
  }

  lemma {:induction false} SumUpdate(sizes: seq<nat>, i: nat, n: nat)
    requires i < |sizes|
    ensures Sum(sizes[i := n]) == Sum(sizes) - sizes[i] + n
  {
    var m := |sizes| - 1;
    if i < m {
      SumUpdate(sizes[..m], i, n);
      assert sizes[i := n][..m] == sizes[..m][i := n];
    } else {
      assert sizes[i := n][..m] == sizes[..m];
    }
  }

  lemma {:induction false} SumZero(sizes: seq<nat>)
    requires forall i | 0 <= i < |sizes| :: sizes[i] == 0
    ensures Sum(sizes) == 0
  {
    if sizes != [] { SumZero(sizes[..|sizes| - 1]); }
  }

  /** A position in the table: which bucket, and which node of it. */
  datatype Place = Place(bucket: nat, pos: nat)

  class Table {
    const hashSize: nat
    const buckets: array<Node?>
    const bucketSizes: array<nat>
    var totalEntries: nat
    ghost var chains: seq<seq<Node>>
    ghost var nodes: set<Node>
    ghost var Contents: map<string, string>

    static ghost function NodeAt(chain: seq<Node>, j: nat): Node? {
      if j < |chain| then chain[j] else null
    }

    static ghost predicate LinkAt(chain: seq<Node>, j: nat)
      reads chain
    {
      j < |chain| ==> chain[j].next == NodeAt(chain, j + 1)
    }

    /** chain is the linked list that starts at first. */
    static ghost predicate Linked(first: Node?, chain: seq<Node>)
      reads chain
    {
      first == NodeAt(chain, 0) && forall j: nat {:trigger LinkAt(chain, j)} :: LinkAt(chain, j)
    }

    /** The nodes of bucket i: their keys hash to it, occur once, and carry the values of the map. */
    ghost predicate Entries(i: nat, chain: seq<Node>)
      requires hashSize > 0
      reads `nodes, `Contents, chain
    {
      && (forall j | 0 <= j < |chain| :: Entry(i, chain[j]))
      && (forall j, k | 0 <= j < k < |chain| :: chain[j].key != chain[k].key)
      && (forall key | key in Contents && HashOf(key, hashSize) == i :: Occurs(key, chain))
    }

    ghost predicate Entry(i: nat, n: Node)
      requires hashSize > 0
      reads `nodes, `Contents, n
    {
      && n in nodes && HashOf(n.key, hashSize) == i
      && n.keySize == |n.key| && n.valueSize == |n.value|
      && n.key in Contents && Contents[n.key] == n.value
    }

    static ghost predicate Occurs(key: string, chain: seq<Node>) {
      exists j :: 0 <= j < |chain| && chain[j].key == key
    }

    ghost predicate Shape()
      reads `chains
    {
      hashSize > 0 && buckets.Length == bucketSizes.Length == |chains| == hashSize
    }

    ghost predicate BucketOK(i: nat)
      requires Shape()
      reads `chains, `nodes, `Contents, buckets, nodes
    {
      i < hashSize ==>
        && (forall j | 0 <= j < |chains[i]| :: chains[i][j] in nodes)
        && Linked(buckets[i], chains[i]) && Entries(i, chains[i])
    }

    /** Every key is in one node, in the bucket it hashes to, and the nodes hold the map. */
    ghost predicate Structure()
      reads `chains, `nodes, `Contents, buckets, nodes
    {
      Shape() && forall i: nat {:trigger BucketOK(i)} :: BucketOK(i)
    }

    /** The redundant counters. */
    ghost predicate Counts()
      requires Shape()
      reads this, bucketSizes
    {
      && (forall i | 0 <= i < hashSize :: bucketSizes[i] == |chains[i]|)
      && totalEntries == |Contents| == Sum(bucketSizes[..])
    }

    ghost predicate Valid()
      reads this, buckets, bucketSizes, nodes
    {
      Structure() && Counts()
    }

    constructor (size: nat)
      requires size > 0
      ensures Valid() && Contents == map[] && hashSize == size && fresh(buckets) && fresh(bucketSizes) && nodes == {}
    {
      hashSize, totalEntries := size, 0;
      buckets := new Node?[size](_ => null);
      bucketSizes := new nat[size](_ => 0);
      chains, nodes, Contents := seq(size, _ => []), {}, map[];
      new;
      SumZero(bucketSizes[..]);
    }

    /** The loop of all four operations: along the chain of the key's bucket. */
    method FindNode(key: string, index: nat) returns (prev: Node?, node: Node?, ghost j: nat)
      requires Valid() && index == HashOf(key, hashSize)
      ensures node == null ==> key !in Contents
      ensures node != null ==>
                && j < |chains[index]| && node == chains[index][j] && node.key == key
                && prev == (if j == 0 then null else chains[index][j - 1])
                && node in nodes && key in Contents && node.value == Contents[key]
    {
      ghost var chain := chains[index];
      assert BucketOK(index);
      assert forall k | 0 <= k < |chain| :: Entry(index, chain[k]);
      prev, node, j := null, buckets[index], 0;
      while node != null
        invariant j <= |chain| && node == NodeAt(chain, j)
        invariant prev == if j == 0 then null else chain[j - 1]
        invariant forall k | 0 <= k < j :: chain[k].key != key
        decreases |chain| - j
      {
        if node.key == key {
          return;
        }
        assert LinkAt(chain, j);
        prev := node;
        node := node.next;
        j := j + 1;
      }
    }

    method Search(key: string) returns (ret: int, value: string)
      requires Valid()
      ensures if key in Contents then ret == 1 && value == Contents[key] else ret == 0
    {
      var index := ComputeHash(key, hashSize);
      var _, node, j := FindNode(key, index);
      if node != null {
        return 1, node.value;
      }
      return 0, "";
    }

    /** A bucket whose list, nodes and keys are untouched stays in order. */
    twostate lemma KeepBucket(i: nat)
      requires old(Shape()) && Shape() && i < hashSize && old(BucketOK(i))
      requires buckets[i] == old(buckets[i]) && chains[i] == old(chains[i])
      requires old(nodes) <= nodes && forall j | 0 <= j < |chains[i]| :: unchanged(chains[i][j])
      requires forall key | HashOf(key, hashSize) == i ::
                 && (key in Contents <==> key in old(Contents))
                 && (key in Contents ==> Contents[key] == old(Contents)[key])
      ensures BucketOK(i)
    {
      forall j: nat ensures LinkAt(chains[i], j) { assert old(LinkAt(chains[i], j)); }
      forall j | 0 <= j < |chains[i]| ensures Entry(i, chains[i][j]) { assert old(Entry(i, chains[i][j])); }
    }

    /** The maps differ at most in keys of bucket index. */
    ghost predicate SameElsewhere(C: map<string, string>, D: map<string, string>, index: nat)
      requires hashSize > 0
    {
      forall key | HashOf(key, hashSize) != index :: (key in C <==> key in D) && (key in D ==> C[key] == D[key])
    }

    lemma OneKeyElsewhere(C: map<string, string>, key: string, value: string)
      requires hashSize > 0
      ensures SameElsewhere(C, C[key := value], HashOf(key, hashSize))
      ensures SameElsewhere(C, C - {key}, HashOf(key, hashSize))
    {
    }

    /** Changes confined to bucket index, its nodes and its keys leave the other buckets in order. */
    twostate lemma OthersKept(index: nat)
      requires old(Structure()) && Shape() && old(nodes) <= nodes
      requires forall i | 0 <= i < hashSize && i != index ::
                 buckets[i] == old(buckets[i]) && chains[i] == old(chains[i])
      requires forall n | n in old(nodes) && HashOf(n.key, hashSize) != index :: unchanged(n)
      requires SameElsewhere(old(Contents), Contents, index)
      ensures forall i: nat {:trigger BucketOK(i)} | i != index :: BucketOK(i)
    {
      forall i: nat | i != index ensures BucketOK(i) {
        if i < hashSize {
          assert old(BucketOK(i));
          forall k | 0 <= k < |chains[i]| ensures unchanged(chains[i][k]) { assert old(Entry(i, chains[i][k])); }
          KeepBucket(i);
        }
      }
    }

    static lemma LinkedCons(n: Node, first: Node?, chain: seq<Node>)
      requires Linked(first, chain) && n.next == first
      ensures Linked(n, [n] + chain)
    {
      forall j: nat ensures LinkAt([n] + chain, j) {
        if j > 0 { assert LinkAt(chain, j - 1); }
      }
    }

    static lemma OneMore(m: map<string, string>, key: string, value: string)
      requires key !in m
      ensures |m[key := value]| == |m| + 1
    {
      assert m[key := value].Keys == m.Keys + {key};
    }

    static lemma OneLess(m: map<string, string>, key: string)
      requires key in m
      ensures |m - {key}| == |m| - 1
    {
      assert (m - {key}).Keys == m.Keys - {key};
    }

    /** The counting at the end of Insert and Delete, when bucket index has one node more or less. */
    method Recount(index: nat, more: bool, ghost entries: nat)
      requires Shape() && index < hashSize && totalEntries == entries == Sum(bucketSizes[..])
      requires forall i | 0 <= i < hashSize && i != index :: bucketSizes[i] == |chains[i]|
      requires if more then bucketSizes[index] + 1 == |chains[index]| && |Contents| == entries + 1
               else bucketSizes[index] == |chains[index]| + 1 && |Contents| + 1 == entries
      modifies `totalEntries, bucketSizes
      ensures Counts()
    {
      ghost var was := bucketSizes[..];
      if more {
        bucketSizes[index] := bucketSizes[index] + 1;
        totalEntries := totalEntries + 1;
      } else {
        bucketSizes[index] := bucketSizes[index] - 1;
        totalEntries := totalEntries - 1;
      }
      SumUpdate(was, index, bucketSizes[index]);
      assert bucketSizes[..] == was[index := bucketSizes[index]];
    }

    /** The node of Insert is entered in front of its bucket. */
    method Enter(newNode: Node, index: nat)
      requires Structure() && index == HashOf(newNode.key, hashSize)
      requires newNode.key !in Contents && newNode.next == buckets[index]
      requires newNode.keySize == |newNode.key| && newNode.valueSize == |newNode.value|
      modifies `chains, `nodes, `Contents, buckets
      ensures Structure() && nodes == old(nodes) + {newNode} && Contents == old(Contents)[newNode.key := newNode.value]
      ensures chains == old(chains)[index := [newNode] + old(chains[index])]
    {
      ghost var chain := [newNode] + chains[index];
      assert BucketOK(index);
      LinkedCons(newNode, buckets[index], chains[index]);
      buckets[index] := newNode;
      chains := chains[index := chain];
      nodes := nodes + {newNode};
      Contents := Contents[newNode.key := newNode.value];
      OneKeyElsewhere(old(Contents), newNode.key, newNode.value);
      OthersKept(index);
      assert old(BucketOK(index));
      EnteredEntries(index);
      Assemble(index);
    }

    twostate lemma EnteredEntries(index: nat)
      requires old(Shape()) && Shape() && index < hashSize && old(BucketOK(index)) && old(nodes) <= nodes
      requires |chains[index]| > 0 && chains[index][1..] == old(chains[index]) && Entry(index, chains[index][0])
      requires var key := chains[index][0].key; key !in old(Contents) && Contents == old(Contents)[key := Contents[key]]
      requires forall j | 0 <= j < |old(chains[index])| :: unchanged(old(chains[index])[j])
      ensures Entries(index, chains[index])
    {
      var chain, was := chains[index], old(chains[index]);
      var key := chain[0].key;
      forall j | 0 <= j < |chain| ensures Entry(index, chain[j]) && (j > 0 ==> chain[j].key != key) {
        if j > 0 { assert chain[j] == was[j - 1] && old(Entry(index, was[j - 1])); }
      }
      forall j, k | 0 <= j < k < |chain| ensures chain[j].key != chain[k].key {
        assert chain[k] == was[k - 1] && (j > 0 ==> chain[j] == was[j - 1]);
      }
      forall k | k in Contents && HashOf(k, hashSize) == index ensures Occurs(k, chain) {
        if k == key {
          assert chain[0].key == k;
        } else {
          assert Occurs(k, was);
          var j :| 0 <= j < |was| && was[j].key == k;
          assert chain[j + 1].key == k;
        }
      }
    }

    /** What Insert does with the node it allocated. */
    method Add(newNode: Node, index: nat)
      requires Valid() && index == HashOf(newNode.key, hashSize)
      requires newNode.key !in Contents && newNode.next == buckets[index]
      requires newNode.keySize == |newNode.key| && newNode.valueSize == |newNode.value|
      modifies this, buckets, bucketSizes
      ensures Valid() && nodes == old(nodes) + {newNode} && Contents == old(Contents)[newNode.key := newNode.value]
    {
      ghost var entries := totalEntries;
      OneMore(Contents, newNode.key, newNode.value);
      Enter(newNode, index);
      Recount(index, true, entries);
    }

    /** alloc says whether the allocation of the new node succeeds. */
    method Insert(key: string, value: string, alloc: bool) returns (ret: int)
      requires Valid()
      modifies this, buckets, bucketSizes
      ensures Valid() && fresh(nodes - old(nodes))
      ensures ret == if key in old(Contents) then 0 else if alloc then 1 else -1
      ensures Contents == if ret == 1 then old(Contents)[key := value] else old(Contents)
    {
      var index := ComputeHash(key, hashSize);
      var _, node, j := FindNode(key, index);
      if node != null {
        return 0;
      }
      if !alloc {
        return -1;
      }
      var newNode := new Node(key, value, buckets[index]);
      Add(newNode, index);
      return 1;
    }

    /** alloc says whether the copy of the value succeeds. */
    method Update(key: string, value: string, alloc: bool) returns (ret: int)
      requires Valid()
      modifies this, nodes
      ensures Valid() && nodes == old(nodes)
      ensures ret == if key !in old(Contents) then 0 else if alloc then 1 else -1
      ensures Contents == if ret == 1 then old(Contents)[key := value] else old(Contents)
    {
      var index := ComputeHash(key, hashSize);
      var _, node, j := FindNode(key, index);
      if node == null {
        return 0;
      }
      if !alloc {
        return -1;
      }
      Alter(node, value, index, Place(index, j));
      return 1;
    }

    /** What Update does with the node it found. */
    method Alter(node: Node, value: string, index: nat, ghost at: Place)
      requires Structure() && index == at.bucket < hashSize && at.pos < |chains[index]| && node == chains[index][at.pos]
      modifies `Contents, node`value, node`valueSize
      ensures Structure() && node.key in old(Contents) && Contents == old(Contents)[node.key := value]
      ensures |Contents| == |old(Contents)|
    {
      assert BucketOK(index) && Entry(index, node);
      node.value := value;
      node.valueSize := |value|;
      Contents := Contents[node.key := value];
      assert Contents.Keys == old(Contents).Keys;
      OneKeyElsewhere(old(Contents), node.key, value);
      OthersKept(index);
      assert old(BucketOK(index));
      UpdatedBucket(at);
    }

    twostate lemma UpdatedBucket(at: Place)
      requires old(Shape()) && Shape() && at.bucket < hashSize && old(BucketOK(at.bucket)) && nodes == old(nodes)
      requires chains == old(chains) && buckets[at.bucket] == old(buckets[at.bucket])
      requires at.pos < |chains[at.bucket]| && chains[at.bucket][at.pos].next == old(chains[at.bucket][at.pos].next)
      requires var key := chains[at.bucket][at.pos].key;
               && key in Contents && Contents == old(Contents)[key := Contents[key]] && key in old(Contents)
               && chains[at.bucket][at.pos].value == Contents[key]
               && chains[at.bucket][at.pos].valueSize == |Contents[key]|
      requires forall k | 0 <= k < |chains[at.bucket]| && k != at.pos :: unchanged(chains[at.bucket][k])
      ensures BucketOK(at.bucket)
    {
      var chain := chains[at.bucket];
      forall k: nat ensures LinkAt(chain, k) { assert old(LinkAt(chain, k)); }
      forall k | 0 <= k < |chain| ensures Entry(at.bucket, chain[k]) { assert old(Entry(at.bucket, chain[k])); }
    }

    method Delete(key: string) returns (ret: int)
      requires Valid()
      modifies this, buckets, bucketSizes, nodes
      ensures Valid() && nodes == old(nodes)
      ensures ret == if key in old(Contents) then 1 else 0
      ensures Contents == old(Contents) - {key}
    {
      var index := ComputeHash(key, hashSize);
      var prev, node, j := FindNode(key, index);
      if node == null {
        assert Contents - {key} == Contents;
        return 0;
      }
      Drop(prev, node, index, Place(index, j));
      return 1;
    }

    /** The removal and the counting. */
    method Drop(prev: Node?, node: Node, index: nat, ghost at: Place)
      requires Valid() && index == at.bucket < hashSize && at.pos < |chains[index]| && node == chains[index][at.pos]
      requires prev == if at.pos == 0 then null else chains[index][at.pos - 1]
      modifies this, buckets, bucketSizes, nodes
      ensures Valid() && nodes == old(nodes)
      ensures node.key in old(Contents) && Contents == old(Contents) - {node.key}
    {
      ghost var entries := totalEntries;
      Remove(prev, node, index, at);
      OneLess(old(Contents), node.key);
      Recount(index, false, entries);
    }

    /** What Delete does with the node it found. */
    method Remove(prev: Node?, node: Node, index: nat, ghost at: Place)
      requires Structure() && index == at.bucket < hashSize && at.pos < |chains[index]| && node == chains[index][at.pos]
      requires prev == if at.pos == 0 then null else chains[index][at.pos - 1]
      modifies `chains, `Contents, buckets, nodes`next
      ensures Structure() && Contents == old(Contents) - {node.key} && node.key in old(Contents)
      ensures chains == old(chains)[index := old(chains[index])[..at.pos] + old(chains[index])[at.pos + 1..]]
    {
      ghost var was := chains[index];
      assert BucketOK(index) && Entry(index, node);
      Unlink(prev, node, index, at);
      chains := chains[index := was[..at.pos] + was[at.pos + 1..]];
      Contents := Contents - {node.key};
      Shortened(at);
    }

    /** The table after the relinking, with the ghost fields brought up to date. */
    twostate lemma Shortened(at: Place)
      requires old(Structure()) && Shape() && at.bucket < hashSize && at.pos < |old(chains[at.bucket])|
      requires nodes == old(nodes)
      requires var was := old(chains[at.bucket]);
               && chains == old(chains)[at.bucket := was[..at.pos] + was[at.pos + 1..]]
               && Contents == old(Contents) - {was[at.pos].key} && HashOf(was[at.pos].key, hashSize) == at.bucket
      requires Linked(buckets[at.bucket], chains[at.bucket])
      requires forall i | 0 <= i < hashSize && i != at.bucket :: buckets[i] == old(buckets[i])
      requires forall n | n in nodes :: n.value == old(n.value) && n.valueSize == old(n.valueSize)
      requires forall n | n in nodes && HashOf(n.key, hashSize) != at.bucket :: unchanged(n)
      ensures Structure()
    {
      OneKeyElsewhere(old(Contents), old(chains[at.bucket])[at.pos].key, "");
      OthersKept(at.bucket);
      assert old(BucketOK(at.bucket));
      ShorterEntries(at);
      Assemble(at.bucket);
    }

    /** One bucket put right again makes the table right. */
    lemma Assemble(index: nat)
      requires Shape() && index < hashSize
      requires Linked(buckets[index], chains[index]) && Entries(index, chains[index])
      requires forall i: nat {:trigger BucketOK(i)} | i != index :: BucketOK(i)
      ensures Structure()
    {
    }

    /** The relinking of Delete. */
    method Unlink(prev: Node?, node: Node, index: nat, ghost at: Place)
      requires Structure() && index == at.bucket < hashSize && at.pos < |chains[index]| && node == chains[index][at.pos]
      requires prev == if at.pos == 0 then null else chains[index][at.pos - 1]
      modifies buckets, nodes`next
      ensures Linked(buckets[index], chains[index][..at.pos] + chains[index][at.pos + 1..])
      ensures forall i | 0 <= i < hashSize && i != index :: buckets[i] == old(buckets[i])
      ensures forall n | n in nodes && HashOf(n.key, hashSize) != index :: n.next == old(n.next)
    {
      assert BucketOK(index) && (prev != null ==> Entry(index, prev));
      if prev != null {
        prev.next := node.next;
      } else {
        buckets[index] := node.next;
      }
      CutLinked(at);
    }

    /** The node at place at is cut out of its chain; keys tell the nodes of a chain apart. */
    twostate lemma CutLinked(at: Place)
      requires old(Shape()) && Shape() && at.bucket < hashSize && at.pos < |chains[at.bucket]|
      requires chains == old(chains) && old(BucketOK(at.bucket))
      requires var was := chains[at.bucket];
               && buckets[at.bucket] == (if at.pos == 0 then old(was[0].next) else old(buckets[at.bucket]))
               && (at.pos > 0 ==> was[at.pos - 1].next == old(was[at.pos].next))
               && forall k | 0 <= k < |was| && k != at.pos - 1 :: was[k].next == old(was[k].next)
      ensures Linked(buckets[at.bucket], chains[at.bucket][..at.pos] + chains[at.bucket][at.pos + 1..])
    {
      var was := chains[at.bucket];
      var chain := was[..at.pos] + was[at.pos + 1..];
      assert old(LinkAt(was, at.pos));
      forall k: nat ensures LinkAt(chain, k) {
        assert old(LinkAt(was, k)) && old(LinkAt(was, k + 1));
      }
    }

    twostate lemma ShorterEntries(at: Place)
      requires old(Shape()) && Shape() && at.bucket < hashSize && nodes == old(nodes)
      requires old(Entries(at.bucket, chains[at.bucket]))
      requires at.pos < |old(chains[at.bucket])|
      requires var was := old(chains[at.bucket]);
               && chains[at.bucket] == was[..at.pos] + was[at.pos + 1..]
               && (forall k | 0 <= k < |was| ::
                     was[k].value == old(was[k].value) && was[k].valueSize == old(was[k].valueSize))
               && Contents == old(Contents) - {was[at.pos].key}
      ensures Entries(at.bucket, chains[at.bucket])
    {
      var chain, was := chains[at.bucket], old(chains[at.bucket]);
      forall k | 0 <= k < |chain| ensures Entry(at.bucket, chain[k]) {
        assert old(Entry(at.bucket, was[if k < at.pos then k else k + 1]));
      }
      forall x | x in Contents && HashOf(x, hashSize) == at.bucket ensures Occurs(x, chain) {
        StillOccurs(x, was, at.pos);
      }
    }

    /** Cutting one node out of a chain loses no other key. */
    static lemma StillOccurs(x: string, was: seq<Node>, pos: nat)
      requires Occurs(x, was) && pos < |was| && was[pos].key != x
      ensures Occurs(x, was[..pos] + was[pos + 1..])
    {
      var k :| 0 <= k < |was| && was[k].key == x;
      assert (was[..pos] + was[pos + 1..])[if k < pos then k else k - 1] == was[k];
    }

    /** A key of the map is in exactly one node of the table, which is in the bucket the hash names. */
    lemma EachKeyInOneNode(key: string)
      requires Valid() && key in Contents
      ensures exists j :: 0 <= j < |chains[HashOf(key, hashSize)]| && chains[HashOf(key, hashSize)][j].key == key
      ensures forall i, j, k | 0 <= i < hashSize && 0 <= j < |chains[i]| && chains[i][j].key == key ::
                i == HashOf(key, hashSize) && (0 <= k < |chains[i]| && chains[i][k].key == key ==> k == j)
      ensures totalEntries == |Contents| == Sum(bucketSizes[..])
    {
      assert BucketOK(HashOf(key, hashSize));
      forall i, j, k | 0 <= i < hashSize && 0 <= j < |chains[i]| && chains[i][j].key == key
        ensures i == HashOf(key, hashSize) && (0 <= k < |chains[i]| && chains[i][k].key == key ==> k == j)
      {
        assert BucketOK(i) && Entry(i, chains[i][j]);
      }
    }
  }
}
