/** The hash table of hashtable.c: an array of bucket heads, each the first
    node of a singly linked chain of `struct bucket` nodes, grown by doubling
    and relinking every node once half the slots are used.

    Besides the concrete fields the table keeps, as ghost state, the nodes of
    each chain in order (`chains`), the key/value pairs they hold (`entries`,
    the representation the lemmas of module Chains reason about) and the map
    from keys to values that the whole table stands for (`Contents`). */
module Hashtable {
  import opened CStrings
  import opened Values
  import opened Hashing
  import opened Chains

  /** `struct bucket`: one node of a chain. Its key is the table's own copy
      and is never written after the node is made. */
  class Node {
    const key: CString
    var value: Value
    var next: Node?

    constructor (key: CString, value: Value)
      ensures this.key == key && this.value == value && next == null
    {
      this.key := key;
      this.value := value;
      next := null;
    }
  }

  /** Following `next` links from `head` visits exactly `nodes`, in order,
      and then arrives at `end`. */
  ghost predicate Path(head: Node?, nodes: seq<Node>, end: Node?)
    reads nodes`next
    decreases |nodes|
  {
    if nodes == [] then head == end else head == nodes[0] && Path(nodes[0].next, nodes[1..], end)
  }

  /** The chain starting at `head` visits exactly `nodes` and ends in null. */
  ghost predicate IsChain(head: Node?, nodes: seq<Node>)
    reads nodes`next
  {
    Path(head, nodes, null)
  }

  /** The nodes carry the keys of `c`, one for one. Keys never change, so
      this does not depend on the state of the heap. */
  ghost predicate HoldsKeys(nodes: seq<Node>, c: seq<Entry<CString>>) {
    |nodes| == |c| && forall j :: 0 <= j < |nodes| ==> nodes[j].key == c[j].key
  }

  /** The nodes hold the pairs `c`, one for one. */
  ghost predicate Mirrors(nodes: seq<Node>, c: seq<Entry<CString>>)
    reads nodes`value
  {
    HoldsKeys(nodes, c) && forall j :: 0 <= j < |nodes| ==> nodes[j].value == c[j].value
  }

  /** No node of `s` is a node of `t`. */
  ghost predicate Apart(s: seq<Node>, t: seq<Node>) {
    forall n :: n in s ==> n !in t
  }

  /** Every node of `s` is one of the objects `r`. */
  ghost predicate Within(s: seq<Node>, r: set<object>) {
    forall n :: n in s ==> n in r
  }

  /** What is apart from `t` stays apart once its first `k` nodes are dropped. */
  lemma ApartDrop(s: seq<Node>, t: seq<Node>, k: nat)
    requires Apart(s, t) && k <= |s|
    ensures Apart(s[k..], t)
  {
    forall n | n in s[k..] ensures n !in t {
      var x :| 0 <= x < |s| - k && s[k..][x] == n;
      assert s[k + x] == n;
    }
  }

  /** Nodes whose keys differ are different nodes. */
  lemma ApartByKeys(s: seq<Node>, cs: seq<Entry<CString>>, t: seq<Node>, ct: seq<Entry<CString>>)
    requires HoldsKeys(s, cs) && HoldsKeys(t, ct)
    requires forall x, y :: 0 <= x < |cs| && 0 <= y < |ct| ==> cs[x].key != ct[y].key
    ensures Apart(s, t)
  {
    forall n | n in s ensures n !in t {
      var x :| 0 <= x < |s| && s[x] == n;
      forall y | 0 <= y < |t| ensures t[y] != n {
        assert cs[x].key != ct[y].key;
      }
    }
  }

  ghost predicate Distinct(nodes: seq<Node>) {
    forall j1, j2 :: 0 <= j1 < j2 < |nodes| ==> nodes[j1] != nodes[j2]
  }

  /** Two paths one after the other make one path. */
  lemma {:induction false} PathConcat(head: Node?, s1: seq<Node>, mid: Node?, s2: seq<Node>, end: Node?)
    requires Path(head, s1, mid) && Path(mid, s2, end)
    ensures Path(head, s1 + s2, end)
    decreases |s1|
  {
    if s1 == [] {
      assert s1 + s2 == s2;
    } else {
      PathConcat(s1[0].next, s1[1..], mid, s2, end);
      var s := s1 + s2;
      assert s[0] == s1[0] && s[1..] == s1[1..] + s2;
      assert Path(s[0].next, s[1..], end);
    }
  }

  /** Entries of two different buckets of a well-formed table have different keys. */
  lemma SlotsApart(es: seq<seq<Entry<CString>>>, b1: nat, b2: nat, hash: CString -> nat)
    requires WellFormed(es, hash) && b1 < |es| && b2 < |es| && b1 != b2
    ensures forall x, y :: 0 <= x < |es[b1]| && 0 <= y < |es[b2]| ==> es[b1][x].key != es[b2][y].key
  {
    forall x, y | 0 <= x < |es[b1]| && 0 <= y < |es[b2]| ensures es[b1][x].key != es[b2][y].key {
      assert Slot(hash, es[b1][x].key, |es|) == b1 && Slot(hash, es[b2][y].key, |es|) == b2;
    }
  }

  // The lemmas below compare the heap before and after a step. Each takes
  // the objects it talks about bundled into one value (Seg, Relink, Pending,
  // Layout, Touch, Frame): with Dafny 4.11, a call to a two-state lemma with
  // several parameters makes the solver fail once contradictory-assumption
  // checking is on, and one parameter avoids that.

  /** A segment of links: from `head` through `nodes` to `end`. */
  datatype Seg = Seg(head: Node?, nodes: seq<Node>, end: Node?)

  /** A path stays a path while none of its nodes' links change. */
  twostate lemma {:induction false} PathKept(s: Seg)
    requires old(Path(s.head, s.nodes, s.end))
    requires forall n :: n in s.nodes ==> n.next == old(n.next)
    ensures Path(s.head, s.nodes, s.end)
    decreases |s.nodes|
  {
    if s.nodes != [] {
      assert s.nodes[0] in s.nodes;
      forall n | n in s.nodes[1..] ensures n.next == old(n.next) {
        var k :| 0 <= k < |s.nodes| - 1 && s.nodes[1..][k] == n;
        assert s.nodes[k + 1] == n;
      }
      PathKept(Seg(s.nodes[0].next, s.nodes[1..], s.end));
    }
  }


  /** A chain is empty exactly when its head is null; otherwise it is its
      head followed by the chain from the head's `next`. */
  lemma ChainStep(head: Node?, nodes: seq<Node>)
    requires IsChain(head, nodes)
    ensures head == null <==> nodes == []
    ensures head != null ==> head == nodes[0] && IsChain(head.next, nodes[1..])
  {
  }

  /** The nodes of a chain are determined by its head. */
  lemma {:induction false} ChainUnique(head: Node?, s1: seq<Node>, s2: seq<Node>)
    requires IsChain(head, s1) && IsChain(head, s2)
    ensures s1 == s2
    decreases |s1|
  {
    if s1 != [] {
      ChainUnique(s1[0].next, s1[1..], s2[1..]);
      assert s1 == [s1[0]] + s1[1..] && s2 == [s2[0]] + s2[1..];
    }
  }

  /** Every suffix of a chain is the chain from its first node. */
  lemma {:induction false} ChainSuffix(head: Node?, nodes: seq<Node>, k: nat)
    requires IsChain(head, nodes) && k < |nodes|
    ensures IsChain(nodes[k], nodes[k..])
    decreases k
  {
    if k > 0 {
      ChainSuffix(nodes[0].next, nodes[1..], k - 1);
      assert nodes[1..][k - 1..] == nodes[k..];
    }
  }

  /** The link out of node `k`: the next node of the chain, or null after the last. */
  lemma ChainLink(head: Node?, nodes: seq<Node>, k: nat)
    requires IsChain(head, nodes) && k < |nodes|
    ensures nodes[k].next == if k + 1 < |nodes| then nodes[k + 1] else null
  {
    ChainSuffix(head, nodes, k);
    ChainStep(nodes[k], nodes[k..]);
    assert nodes[k..][1..] == nodes[k + 1..];
    ChainStep(nodes[k].next, nodes[k + 1..]);
    if k + 1 < |nodes| {
      assert nodes[k + 1..][0] == nodes[k + 1];
    }
  }

  /** A chain ending in null has no cycle: were a node met twice, the chains
      from its two places would coincide although their lengths differ. */
  lemma ChainDistinct(head: Node?, nodes: seq<Node>)
    requires IsChain(head, nodes)
    ensures Distinct(nodes)
  {
    forall j1, j2 | 0 <= j1 < j2 < |nodes| ensures nodes[j1] != nodes[j2] {
      ChainSuffix(head, nodes, j1);
      ChainSuffix(head, nodes, j2);
      if nodes[j1] == nodes[j2] {
        ChainUnique(nodes[j1], nodes[j1..], nodes[j2..]);
      }
    }
  }

  /** The head of a chain occurs nowhere in the rest of it. */
  lemma HeadNotInTail(head: Node, nodes: seq<Node>)
    requires IsChain(head, nodes)
    ensures nodes != [] && head !in nodes[1..]
  {
    ChainDistinct(head, nodes);
    forall j | 0 <= j < |nodes| - 1 ensures nodes[1..][j] != head {
      assert nodes[1..][j] == nodes[j + 1];
    }
  }

  /** Mirroring, one node at a time from the head. */
  lemma MirrorsCons(nodes: seq<Node>, c: seq<Entry<CString>>)
    requires nodes != [] && c != [] && Mirrors(nodes[1..], c[1..])
    requires nodes[0].key == c[0].key && nodes[0].value == c[0].value
    ensures Mirrors(nodes, c)
  {
    forall j | 1 <= j < |nodes| ensures nodes[j].key == c[j].key && nodes[j].value == c[j].value {
      assert nodes[1..][j - 1] == nodes[j] && c[1..][j - 1] == c[j];
    }
  }

  lemma WithoutCons<T>(s: seq<T>, at: nat)
    requires 0 < at < |s|
    ensures Without(s, at) == [s[0]] + Without(s[1..], at - 1)
  {
  }

  lemma MirrorsWithout(nodes: seq<Node>, c: seq<Entry<CString>>, at: nat)
    requires Mirrors(nodes, c) && at < |c|
    ensures Mirrors(Without(nodes, at), Without(c, at))
  {
    var ns, cs := Without(nodes, at), Without(c, at);
    forall j | 0 <= j < |ns| ensures ns[j].key == cs[j].key && ns[j].value == cs[j].value {
      if j < at {
        assert ns[j] == nodes[j] && cs[j] == c[j];
      } else {
        assert ns[j] == nodes[j + 1] && cs[j] == c[j + 1];
      }
    }
  }

  lemma InKeysCons(c: seq<Entry<CString>>, k: CString)
    requires c != []
    ensures k in Keys(c) <==> k == c[0].key || k in Keys(c[1..])
  {
    assert Keys(c) == [c[0].key] + Keys(c[1..]);
  }

  /** bucket_insert: walk to the last node of a non-empty chain and link
      `inserted` behind it. Only the last node's link changes: the path from
      `bucket` now leads through the old nodes to `inserted`. */
  method BucketInsert(bucket: Node, inserted: Node, ghost nodes: seq<Node>)
    requires IsChain(bucket, nodes)
    modifies nodes`next
    ensures Path(bucket, nodes, inserted)
    decreases |nodes|
  {
    HeadNotInTail(bucket, nodes);
    ChainStep(bucket, nodes);
    ChainStep(bucket.next, nodes[1..]);
    if bucket.next == null {
      bucket.next := inserted;
    } else {
      BucketInsert(bucket.next, inserted, nodes[1..]);
    }
  }

  /** bucket_try_replace: walk the chain from `bucket` (which may be null)
      and overwrite the value of the node whose key equals `key`. It succeeds
      exactly when the chain holds the key, and then the one pair with that
      key carries the new value. Links never change. */
  method BucketTryReplace(bucket: Node?, key: CString, value: Value,
                          ghost nodes: seq<Node>, ghost c: seq<Entry<CString>>)
      returns (replaced: bool, ghost at: nat)
    requires IsChain(bucket, nodes) && Mirrors(nodes, c)
    modifies nodes`value
    ensures replaced <==> key in Keys(c)
    ensures replaced ==> at < |c| && c[at].key == key && Mirrors(nodes, c[at := Entry(key, value)])
    ensures !replaced ==> Mirrors(nodes, c)
    decreases |nodes|
  {
    ChainStep(bucket, nodes);
    if bucket == null {
      return false, 0;
    }
    HeadNotInTail(bucket, nodes);
    var eq := StringEqual(bucket.key, key);
    if eq {
      bucket.value := value;
      assert c[0 := Entry(key, value)][1..] == c[1..];
      MirrorsCons(nodes, c[0 := Entry(key, value)]);
      return true, 0;
    }
    ghost var rest := c[1..];
    assert Mirrors(nodes[1..], rest);
    replaced, at := BucketTryReplace(bucket.next, key, value, nodes[1..], rest);
    InKeysCons(c, key);
    if replaced {
      ghost var e := Entry(key, value);
      assert c[at + 1 := e][1..] == rest[at := e];
      MirrorsCons(nodes, c[at + 1 := e]);
    } else {
      MirrorsCons(nodes, c);
    }
    at := at + 1;
  }

  /** bucket_remove: look for `key` among the nodes AFTER `bucket` (the head
      is the caller's business) and unlink the first node holding it. It
      succeeds exactly when a later node holds the key; otherwise nothing
      changes. Only links change, so the nodes keep their pairs. */
  method BucketRemove(bucket: Node, key: CString, ghost nodes: seq<Node>, ghost c: seq<Entry<CString>>)
      returns (removed: bool, ghost at: nat)
    requires IsChain(bucket, nodes) && Mirrors(nodes, c)
    modifies nodes`next
    ensures removed <==> key in Keys(c[1..])
    ensures removed ==> 0 < at < |c| && c[at].key == key && IsChain(bucket, Without(nodes, at))
    ensures !removed ==> IsChain(bucket, nodes)
    decreases |nodes|
  {
    HeadNotInTail(bucket, nodes);
    ChainStep(bucket, nodes);
    var after := bucket.next;
    ChainStep(after, nodes[1..]);
    if after == null {
      return false, 0;
    }
    var eq := StringEqual(after.key, key);
    if eq {
      ghost var rest := nodes[2..];
      assert rest == nodes[1..][1..];
      assert bucket !in rest;
      bucket.next := after.next;
      assert Without(nodes, 1) == [bucket] + rest;
      assert c[1..][0] == c[1];
      return true, 1;
    }
    removed, at := BucketRemove(after, key, nodes[1..], c[1..]);
    InKeysCons(c[1..], key);
    if removed {
      WithoutCons(nodes, at + 1);
      at := at + 1;
    }
  }

  /** Mirroring extends by one node at the tail. */
  lemma MirrorsSnoc(nodes: seq<Node>, c: seq<Entry<CString>>, n: Node, e: Entry<CString>)
    requires Mirrors(nodes, c) && n.key == e.key && n.value == e.value
    ensures Mirrors(nodes + [n], c + [e])
  {
  }

  /** The loop of hashtable_contains on one chain: walk it until a node
      holds the key or the chain ends. */
  method Search(head: Node?, key: CString, ghost nodes: seq<Node>, ghost c: seq<Entry<CString>>)
      returns (found: bool)
    requires IsChain(head, nodes) && Mirrors(nodes, c)
    ensures found <==> key in Keys(c)
  {
    var curr := head;
    ghost var j := 0;
    ChainStep(curr, nodes);
    while curr != null
      invariant 0 <= j <= |nodes| && curr == if j < |nodes| then nodes[j] else null
      invariant forall j' :: 0 <= j' < j ==> c[j'].key != key
      decreases |nodes| - j
    {
      var eq := StringEqual(curr.key, key);
      if eq {
        assert Keys(c)[j] == key;
        return true;
      }
      ChainLink(head, nodes, j);
      curr := curr.next;
      j := j + 1;
    }
    return false;
  }

  /** The walk of hashtable_get once the key is known to be present: follow
      the chain until a node with the key, which must come before the end, and
      give back its value. */
  method FindValue(head: Node?, key: CString, ghost nodes: seq<Node>, ghost c: seq<Entry<CString>>,
                   ghost target: nat)
      returns (v: Value, ghost at: nat)
    requires IsChain(head, nodes) && Mirrors(nodes, c)
    requires target < |c| && c[target].key == key
    ensures at <= target && c[at].key == key && v == c[at].value
    ensures forall j :: 0 <= j < at ==> c[j].key != key
  {
    var curr := head;
    at := 0;
    ChainStep(head, nodes);
    var eq := StringEqual(curr.key, key);
    while !eq
      invariant at <= target && curr == nodes[at]
      invariant eq <==> c[at].key == key
      invariant forall j :: 0 <= j < at ==> c[j].key != key
      decreases target - at
    {
      assert at < target;
      ChainLink(head, nodes, at);
      curr := curr.next;
      at := at + 1;
      eq := StringEqual(curr.key, key);
    }
    v := curr.value;
  }

  /** The bucket index hashtable.c computes, `hash_string(key) % size`, is
      the slot the chain lemmas place the key in. */
  lemma SlotOfHash(key: CString, h: bv64, size: nat)
    requires h == Hash(key) && size > 0
    ensures (h as int) % size == Slot(HashCode, key, size)
  {
  }

  /** Nodes whose keys a map does not bind and nodes whose keys it binds are
      different nodes. */
  lemma ApartByMap(s: seq<Node>, cs: seq<Entry<CString>>, t: seq<Node>, ct: seq<Entry<CString>>,
                   m: map<CString, Value>)
    requires HoldsKeys(s, cs) && HoldsKeys(t, ct)
    requires forall x :: 0 <= x < |cs| ==> cs[x].key !in m
    requires forall y :: 0 <= y < |ct| ==> ct[y].key in m
    ensures Apart(s, t)
  {
    ApartByKeys(s, cs, t, ct);
  }

  /** The chains of different buckets of a well-formed table share no node. */
  lemma BucketsApart(es: seq<seq<Entry<CString>>>, cs: seq<seq<Node>>, b: nat)
    requires WellFormed(es, HashCode) && |cs| == |es| && b < |es|
    requires forall i :: 0 <= i < |es| ==> HoldsKeys(cs[i], es[i])
    ensures forall i :: 0 <= i < |cs| && i != b ==> Apart(cs[i], cs[b])
  {
    forall i | 0 <= i < |cs| && i != b ensures Apart(cs[i], cs[b]) {
      SlotsApart(es, i, b, HashCode);
      ApartByKeys(cs[i], es[i], cs[b], es[b]);
    }
  }

  /** The nodes of bucket `b` of a well-formed table have keys the table binds. */
  lemma ChainKeysBound(es: seq<seq<Entry<CString>>>, b: nat)
    requires WellFormed(es, HashCode) && b < |es|
    ensures forall y :: 0 <= y < |es[b]| ==> es[b][y].key in TableMap(es)
  {
    forall y | 0 <= y < |es[b]| ensures es[b][y].key in TableMap(es) {
      EntryBound(es, b, y, HashCode);
    }
  }

  /** The old nodes rehash has still to move, from node `j` of bucket `i` on,
      share no node with the new chains, whose keys are the moved ones. */
  lemma PendingApart(es: seq<seq<Entry<CString>>>, cs: seq<seq<Node>>, i: nat, j: nat,
                     ges: seq<seq<Entry<CString>>>, gcs: seq<seq<Node>>, b: nat)
    requires WellFormed(es, HashCode) && |cs| == |es| && i < |es| && j <= |es[i]|
    requires forall i' :: 0 <= i' < |es| ==> HoldsKeys(cs[i'], es[i'])
    requires HoldsKeys(cs[i], es[i])
    requires WellFormed(ges, HashCode) && |gcs| == |ges| && b < |ges| && HoldsKeys(gcs[b], ges[b])
    requires TableMap(ges) == TableMap(Moved(es, i, j))
    ensures Apart(cs[i][j..], gcs[b])
    ensures j < |cs[i]| ==> Apart(cs[i][j + 1..], gcs[b])
    ensures forall i' :: i < i' < |cs| ==> Apart(cs[i'], gcs[b])
  {
    ChainKeysBound(ges, b);
    var rest := es[i][j..];
    assert HoldsKeys(cs[i][j..], rest);
    forall x | 0 <= x < |rest| ensures rest[x].key !in TableMap(ges) {
      assert rest[x] == es[i][j + x];
      PendingKeyFresh(es, i, j, i, j + x, HashCode);
    }
    ApartByMap(cs[i][j..], rest, gcs[b], ges[b], TableMap(ges));
    if j < |cs[i]| {
      ApartDrop(cs[i][j..], gcs[b], 1);
      assert cs[i][j..][1..] == cs[i][j + 1..];
    }
    forall i' | i < i' < |cs| ensures Apart(cs[i'], gcs[b]) {
      forall x | 0 <= x < |es[i']| ensures es[i'][x].key !in TableMap(ges) {
        PendingKeyFresh(es, i, j, i', x, HashCode);
      }
      ApartByMap(cs[i'], es[i'], gcs[b], ges[b], TableMap(ges));
    }
  }

  /** Node `j` of old bucket `i` is none of the old nodes after it. */
  lemma NodeAheadOfRest(es: seq<seq<Entry<CString>>>, cs: seq<seq<Node>>, i: nat, j: nat)
    requires WellFormed(es, HashCode) && |cs| == |es| && i < |es| && j < |es[i]|
    requires forall i' :: 0 <= i' < |es| ==> HoldsKeys(cs[i'], es[i'])
    requires HoldsKeys(cs[i], es[i])
    ensures cs[i][j] !in cs[i][j + 1..]
    ensures forall i' :: i < i' < |cs| ==> cs[i][j] !in cs[i']
  {
    forall x | j < x < |cs[i]| ensures cs[i][x] != cs[i][j] {
      assert es[i][x].key != es[i][j].key;
    }
    BucketsApart(es, cs, i);
  }

  /** Node `j` of old bucket `i`, not yet moved, is in no new chain. */
  lemma NodeNotMoved(es: seq<seq<Entry<CString>>>, cs: seq<seq<Node>>, i: nat, j: nat,
                     ges: seq<seq<Entry<CString>>>, gcs: seq<seq<Node>>)
    requires WellFormed(es, HashCode) && |cs| == |es| && i < |es| && j < |es[i]|
    requires HoldsKeys(cs[i], es[i])
    requires WellFormed(ges, HashCode) && |gcs| == |ges|
    requires forall b :: 0 <= b < |ges| ==> HoldsKeys(gcs[b], ges[b])
    requires TableMap(ges) == TableMap(Moved(es, i, j))
    ensures forall b :: 0 <= b < |gcs| ==> cs[i][j] !in gcs[b]
  {
    PendingKeyFresh(es, i, j, i, j, HashCode);
    forall b | 0 <= b < |gcs| ensures cs[i][j] !in gcs[b] {
      ChainKeysBound(ges, b);
      ApartByMap([cs[i][j]], [es[i][j]], gcs[b], ges[b], TableMap(ges));
    }
  }

  /** The tail insertion hashtable_insert and hashtable_rehash both make:
      an empty bucket takes `node` as its head, otherwise bucket_insert links
      it behind the last node. Only bucket `index` and the chain's links
      change. */
  method Link(heads: array<Node?>, index: nat, node: Node, ghost chain: seq<Node>)
    requires index < heads.Length && IsChain(heads[index], chain)
    modifies heads, chain`next
    ensures Path(heads[index], chain, node)
    ensures forall b :: 0 <= b < heads.Length && b != index ==> heads[b] == old(heads[b])
  {
    if heads[index] == null {
      ChainStep(heads[index], chain);
      heads[index] := node;
    } else {
      BucketInsert(heads[index], node, chain);
    }
  }

  /** One round of hashtable_rehash's inner loop: link `curr` at the tail
      of the chain of its bucket in the new array `grown` and clear its own
      link, handing back the node that followed it. */
  method MoveNode(grown: array<Node?>, curr: Node, ghost gc: seq<Node>)
      returns (next: Node?, index: nat)
    requires grown.Length > 0
    requires IsChain(grown[Slot(HashCode, curr.key, grown.Length)], gc) && curr !in gc
    modifies grown, gc`next, curr`next
    ensures index == Slot(HashCode, curr.key, grown.Length)
    ensures next == old(curr.next)
    ensures IsChain(grown[index], gc + [curr])
    ensures forall b :: 0 <= b < grown.Length && b != index ==> grown[b] == old(grown[b])
    ensures forall n: Node :: old(allocated(n)) && n !in gc && n != curr ==> n.next == old(n.next)
    ensures forall n: Node :: old(allocated(n)) ==> n.value == old(n.value)
  {
    var h := HashString(curr.key);
    index := (h as int) % grown.Length;
    SlotOfHash(curr.key, h, grown.Length);
    Link(grown, index, curr, gc);
    next := curr.next;
    curr.next := null;
    assert [curr][1..] == [];
    PathConcat(grown[index], gc, curr, [curr], null);
  }

  /** Node `node` relinked at the tail of new chain `index` of `grown`,
      whose chains were `before` and are `after` now. */
  datatype Relink = Relink(grown: array<Node?>, before: seq<seq<Node>>, index: nat, node: Node,
                           after: seq<seq<Node>>)

  /** The new chains other than `index` keep their links when only the
      links of chain `index` and of `node` change, and chain `index` has
      grown by `node` at its tail. */
  twostate lemma NewChainsKept(r: Relink)
    requires |r.before| == r.grown.Length && r.index < |r.before|
    requires r.after == r.before[r.index := r.before[r.index] + [r.node]]
    requires old(forall b :: 0 <= b < |r.before| ==> IsChain(r.grown[b], r.before[b]))
    requires forall b :: 0 <= b < |r.before| && b != r.index ==>
               Apart(r.before[b], r.before[r.index]) && r.node !in r.before[b]
    requires forall b :: 0 <= b < |r.before| && b != r.index ==> r.grown[b] == old(r.grown[b])
    requires forall n: Node :: old(allocated(n)) && n !in r.before[r.index] && n != r.node ==> n.next == old(n.next)
    requires IsChain(r.grown[r.index], r.before[r.index] + [r.node])
    ensures forall b :: 0 <= b < |r.after| ==> IsChain(r.grown[b], r.after[b])
  {
    forall b | 0 <= b < |r.before| && b != r.index ensures IsChain(r.grown[b], r.before[b]) {
      PathKept(Seg(old(r.grown[b]), r.before[b], null));
    }
  }

  /** Old chain `i` of `buckets`, whose node `j` has been relinked onto the
      new chain `target`; `next` is the node that followed it. */
  datatype Pending = Pending(buckets: array<Node?>, cs: seq<seq<Node>>, i: nat, j: nat, node: Node,
                             next: Node?, target: seq<Node>)

  /** The old nodes still to be moved keep their links: node `j` of old
      chain `i` has gone, the rest of that chain now starts at `next`, and
      the old chains after `i` are untouched. */
  twostate lemma OldChainsKept(p: Pending)
    requires p.buckets.Length == |p.cs| && p.i < |p.cs| && p.j < |p.cs[p.i]| && p.cs[p.i][p.j] == p.node
    requires unchanged(p.buckets)
    requires old(IsChain(p.node.next, p.cs[p.i][p.j + 1..]) && p.next == p.node.next)
    requires old(forall b :: p.i < b < |p.cs| ==> IsChain(p.buckets[b], p.cs[b]))
    requires Apart(p.cs[p.i][p.j + 1..], p.target) && p.node !in p.cs[p.i][p.j + 1..]
    requires forall b :: p.i < b < |p.cs| ==> Apart(p.cs[b], p.target) && p.node !in p.cs[b]
    requires forall n: Node :: old(allocated(n)) && n !in p.target && n != p.node ==> n.next == old(n.next)
    ensures IsChain(p.next, p.cs[p.i][p.j + 1..])
    ensures forall b :: p.i < b < |p.cs| ==> IsChain(p.buckets[b], p.cs[b])
  {
    PathKept(Seg(p.next, p.cs[p.i][p.j + 1..], null));
    forall b | p.i < b < |p.cs| ensures IsChain(p.buckets[b], p.cs[b]) {
      PathKept(Seg(p.buckets[b], p.cs[b], null));
    }
  }

  /** The chains of a bucket array and the pairs they hold, bucket by bucket. */
  datatype Layout = Layout(chains: seq<seq<Node>>, pairs: seq<seq<Entry<CString>>>)

  /** Chains keep mirroring their pairs while no value changes. */
  twostate lemma MirrorsAllKept(l: Layout)
    requires |l.chains| == |l.pairs|
    requires old(forall b :: 0 <= b < |l.chains| ==> Mirrors(l.chains[b], l.pairs[b]))
    requires forall n: Node :: old(allocated(n)) ==> n.value == old(n.value)
    ensures forall b :: 0 <= b < |l.chains| ==> Mirrors(l.chains[b], l.pairs[b])
  {
    forall b, x | 0 <= b < |l.chains| && 0 <= x < |l.chains[b]|
      ensures l.chains[b][x].value == l.pairs[b][x].value
    {
      assert old(Mirrors(l.chains[b], l.pairs[b]));
    }
  }

  /** Appending a node to chain `index` and its pair to the pairs of that
      chain keeps every chain mirroring its pairs. */
  lemma MirrorsExtend(gcs: seq<seq<Node>>, ges: seq<seq<Entry<CString>>>, index: nat,
                      node: Node, e: Entry<CString>,
                      gcs': seq<seq<Node>>, ges': seq<seq<Entry<CString>>>)
    requires |gcs| == |ges| && index < |gcs|
    requires forall b :: 0 <= b < |gcs| ==> Mirrors(gcs[b], ges[b])
    requires node.key == e.key && node.value == e.value
    requires gcs' == gcs[index := gcs[index] + [node]] && ges' == ges[index := ges[index] + [e]]
    ensures forall b :: 0 <= b < |gcs'| ==> Mirrors(gcs'[b], ges'[b]) && HoldsKeys(gcs'[b], ges'[b])
  {
    MirrorsSnoc(gcs[index], ges[index], node, e);
  }

  /** hashtable_create and hashtable_rehash allocate the bucket array with
      every bucket null: a table in shape with no nodes and no pairs. */
  method NewBuckets(n: nat, ghost pool: set<Node>) returns (a: array<Node?>, ghost cs: seq<seq<Node>>,
                                                         ghost es: seq<seq<Entry<CString>>>)
    requires n > 0
    ensures fresh(a) && a.Length == n && Shape(a, cs, es, pool)
    ensures WellFormed(es, HashCode) && TableMap(es) == map[] && TotalCount(es) == 0
  {
    a := new Node?[n];
    for x := 0 to n
      invariant forall y :: 0 <= y < x ==> a[y] == null
    {
      a[x] := null;
    }
    cs := seq(n, _ => []);
    es := EmptyTable(n, HashCode);
    forall b | 0 <= b < n ensures IsChain(a[b], cs[b]) {
      assert cs[b] == [];
    }
  }

  /** Before node `j` of old chain `i` moves to new chain `index`, nothing
      it meets is shared: the node is in no new chain, new chain `index`
      shares no node with the other new chains, and neither it nor the node
      is among the old nodes still to be moved. */
  lemma BeforeMove(es: seq<seq<Entry<CString>>>, cs: seq<seq<Node>>, i: nat, j: nat,
                   ges: seq<seq<Entry<CString>>>, gcs: seq<seq<Node>>, index: nat)
    requires WellFormed(es, HashCode) && |cs| == |es| && i < |es| && j < |cs[i]| == |es[i]|
    requires forall b :: 0 <= b < |es| ==> HoldsKeys(cs[b], es[b])
    requires WellFormed(ges, HashCode) && |gcs| == |ges| && index < |ges|
    requires forall b :: 0 <= b < |ges| ==> HoldsKeys(gcs[b], ges[b])
    requires TableMap(ges) == TableMap(Moved(es, i, j))
    ensures forall b :: 0 <= b < |gcs| ==> cs[i][j] !in gcs[b]
    ensures forall b :: 0 <= b < |gcs| && b != index ==> Apart(gcs[b], gcs[index])
    ensures Apart(cs[i][j + 1..], gcs[index]) && cs[i][j] !in cs[i][j + 1..]
    ensures forall b :: i < b < |cs| ==> Apart(cs[b], gcs[index]) && cs[i][j] !in cs[b]
  {
    assert HoldsKeys(cs[i], es[i]);
    NodeNotMoved(es, cs, i, j, ges, gcs);
    NodeAheadOfRest(es, cs, i, j);
    PendingApart(es, cs, i, j, ges, gcs, index);
    BucketsApart(ges, gcs, index);
  }

  /** `curr` moved to the tail of new chain `index`: the new chains with it
      appended head the new array and hold the pairs with its pair
      appended. Only the links of chain `index` and of `curr` change. */
  method Relocate(grown: array<Node?>, curr: Node, ghost e: Entry<CString>, ghost index: nat,
                  ghost gcs: seq<seq<Node>>, ghost ges: seq<seq<Entry<CString>>>)
      returns (next: Node?, ghost gcs': seq<seq<Node>>, ghost ges': seq<seq<Entry<CString>>>)
    requires |gcs| == |ges| == grown.Length > 0
    requires index == Slot(HashCode, curr.key, grown.Length)
    requires curr.key == e.key && curr.value == e.value
    requires forall b :: 0 <= b < |gcs| ==> IsChain(grown[b], gcs[b])
    requires forall b :: 0 <= b < |gcs| ==> Mirrors(gcs[b], ges[b])
    requires forall b :: 0 <= b < |gcs| ==> curr !in gcs[b]
    requires forall b :: 0 <= b < |gcs| && b != index ==> Apart(gcs[b], gcs[index])
    modifies grown, gcs[index]`next, curr`next
    ensures next == old(curr.next)
    ensures gcs' == gcs[index := gcs[index] + [curr]] && ges' == ges[index := ges[index] + [e]]
    ensures forall b :: 0 <= b < |gcs'| ==> IsChain(grown[b], gcs'[b])
    ensures forall b :: 0 <= b < |gcs'| ==> Mirrors(gcs'[b], ges'[b]) && HoldsKeys(gcs'[b], ges'[b])
    ensures forall n: Node :: old(allocated(n)) && n !in gcs[index] && n != curr ==> n.next == old(n.next)
    ensures forall n: Node :: old(allocated(n)) ==> n.value == old(n.value)
  {
    label before:
    var index';
    next, index' := MoveNode(grown, curr, gcs[index]);
    gcs', ges' := gcs[index := gcs[index] + [curr]], ges[index := ges[index] + [e]];
    NewChainsKept@before(Relink(grown, gcs, index, curr, gcs'));
    MirrorsAllKept@before(Layout(gcs, ges));
    MirrorsExtend(gcs, ges, index, curr, e, gcs', ges');
  }

  /** One round of the inner loop of hashtable_rehash, on the heap: move
      `curr`, node `j` of old chain `i`, to the tail of new chain `index`
      and step to the node that followed it. The nodes it meets on the way
      are apart, as BeforeMove shows. */
  method MoveStep(buckets: array<Node?>, grown: array<Node?>, ghost cs: seq<seq<Node>>,
                  ghost es: seq<seq<Entry<CString>>>, ghost pool: set<Node>, ghost i: nat, ghost j: nat,
                  curr: Node, ghost index: nat, ghost gcs: seq<seq<Node>>, ghost ges: seq<seq<Entry<CString>>>)
      returns (next: Node?, ghost gcs': seq<seq<Node>>, ghost ges': seq<seq<Entry<CString>>>)
    requires buckets != grown && buckets.Length == |cs| == |es| && i < |es|
    requires j < |cs[i]| == |es[i]| && cs[i][j] == curr && IsChain(curr.next, cs[i][j + 1..])
    requires forall b :: 0 <= b < |cs| ==> Within(cs[b], pool)
    requires forall b :: 0 <= b < |cs| ==> Mirrors(cs[b], es[b]) && HoldsKeys(cs[b], es[b])
    requires forall b :: i < b < |cs| ==> IsChain(buckets[b], cs[b])
    requires |gcs| == |ges| == grown.Length > 0 && index == Slot(HashCode, curr.key, grown.Length)
    requires forall b :: 0 <= b < |gcs| ==> IsChain(grown[b], gcs[b])
    requires forall b :: 0 <= b < |gcs| ==> Mirrors(gcs[b], ges[b]) && Within(gcs[b], pool)
    requires forall b :: 0 <= b < |gcs| ==> curr !in gcs[b]
    requires forall b :: 0 <= b < |gcs| && b != index ==> Apart(gcs[b], gcs[index])
    requires Apart(cs[i][j + 1..], gcs[index]) && curr !in cs[i][j + 1..]
    requires forall b :: i < b < |cs| ==> Apart(cs[b], gcs[index]) && curr !in cs[b]
    modifies grown, pool`next
    ensures forall b :: 0 <= b < |cs| ==> Mirrors(cs[b], es[b]) && HoldsKeys(cs[b], es[b])
    ensures IsChain(next, cs[i][j + 1..])
    ensures forall b :: i < b < |cs| ==> IsChain(buckets[b], cs[b])
    ensures gcs' == gcs[index := gcs[index] + [curr]] && ges' == ges[index := ges[index] + [es[i][j]]]
    ensures forall b :: 0 <= b < |gcs'| ==> IsChain(grown[b], gcs'[b])
    ensures forall b :: 0 <= b < |gcs'| ==> Mirrors(gcs'[b], ges'[b]) && HoldsKeys(gcs'[b], ges'[b])
    ensures forall b :: 0 <= b < |gcs'| ==> Within(gcs'[b], pool)
  {
    assert curr in cs[i] && Mirrors(cs[i], es[i]);
    label before:
    next, gcs', ges' := Relocate(grown, curr, es[i][j], index, gcs, ges);
    OldChainsKept@before(Pending(buckets, cs, i, j, curr, next, gcs[index]));
    MirrorsAllKept@before(Layout(cs, es));
  }

  /** One pass of the inner loop of hashtable_rehash: node `j` of old chain
      `i` moves to the tail of the new chain of its slot, and the new chains
      then hold what was moved up to and including it. */
  method MoveRound(buckets: array<Node?>, grown: array<Node?>, ghost cs: seq<seq<Node>>,
                   ghost es: seq<seq<Entry<CString>>>, ghost pool: set<Node>, ghost i: nat, ghost j: nat,
                   curr: Node, ghost gcs: seq<seq<Node>>, ghost ges: seq<seq<Entry<CString>>>)
      returns (next: Node?, ghost gcs': seq<seq<Node>>, ghost ges': seq<seq<Entry<CString>>>)
    requires buckets != grown && buckets.Length == |cs| == |es| && i < |es|
    requires WellFormed(es, HashCode)
    requires forall b :: 0 <= b < |cs| ==> Within(cs[b], pool)
    requires j <= |cs[i]| == |es[i]| && IsChain(curr, cs[i][j..])
    requires |gcs| == |ges| == grown.Length
    requires forall b :: 0 <= b < |gcs| ==> IsChain(grown[b], gcs[b])
    requires forall b :: 0 <= b < |gcs| ==> Mirrors(gcs[b], ges[b]) && HoldsKeys(gcs[b], ges[b])
    requires forall b :: 0 <= b < |gcs| ==> Within(gcs[b], pool)
    requires WellFormed(ges, HashCode)
    requires TableMap(ges) == TableMap(Moved(es, i, j)) && TotalCount(ges) == TotalCount(Moved(es, i, j))
    requires forall b :: i < b < |cs| ==> IsChain(buckets[b], cs[b])
    requires forall b :: 0 <= b < |cs| ==> Mirrors(cs[b], es[b]) && HoldsKeys(cs[b], es[b])
    modifies grown, pool`next
    ensures j + 1 <= |cs[i]| && IsChain(next, cs[i][j + 1..])
    ensures |gcs'| == |ges'| == grown.Length
    ensures forall b :: 0 <= b < |gcs'| ==> IsChain(grown[b], gcs'[b])
    ensures forall b :: 0 <= b < |gcs'| ==> Mirrors(gcs'[b], ges'[b]) && HoldsKeys(gcs'[b], ges'[b])
    ensures forall b :: 0 <= b < |gcs'| ==> Within(gcs'[b], pool)
    ensures WellFormed(ges', HashCode)
    ensures TableMap(ges') == TableMap(Moved(es, i, j + 1)) && TotalCount(ges') == TotalCount(Moved(es, i, j + 1))
    ensures forall b :: i < b < |cs| ==> IsChain(buckets[b], cs[b])
    ensures forall b :: 0 <= b < |cs| ==> Mirrors(cs[b], es[b]) && HoldsKeys(cs[b], es[b])
  {
    ChainStep(curr, cs[i][j..]);
    assert cs[i][j..][0] == cs[i][j] && cs[i][j..][1..] == cs[i][j + 1..];
    assert cs[i][j].key == es[i][j].key;
    ghost var index := Slot(HashCode, es[i][j].key, |ges|);
    BeforeMove(es, cs, i, j, ges, gcs, index);
    RehashStep(es, i, j, ges, HashCode);
    next, gcs', ges' := MoveStep(buckets, grown, cs, es, pool, i, j, curr, index, gcs, ges);
  }

  /** The inner loop of hashtable_rehash for old bucket `i`: move its nodes,
      head first, each to the tail of its chain in `grown`. Before, the new
      chains hold what was moved from the buckets before `i`; after, also
      what bucket `i` held. The old chains after `i` keep their links. */
  method MoveChain(buckets: array<Node?>, grown: array<Node?>, ghost cs: seq<seq<Node>>,
                   ghost es: seq<seq<Entry<CString>>>, ghost pool: set<Node>, i: nat,
                   ghost gcs0: seq<seq<Node>>, ghost ges0: seq<seq<Entry<CString>>>)
      returns (ghost gcs: seq<seq<Node>>, ghost ges: seq<seq<Entry<CString>>>)
    requires buckets != grown && buckets.Length == |cs| == |es| && i < |es|
    requires WellFormed(es, HashCode)
    requires forall b :: 0 <= b < |cs| ==> Within(cs[b], pool)
    requires forall b :: 0 <= b < |cs| ==> Mirrors(cs[b], es[b]) && HoldsKeys(cs[b], es[b])
    requires forall b :: i <= b < |cs| ==> IsChain(buckets[b], cs[b])
    requires grown.Length > 0 && |gcs0| == |ges0| == grown.Length
    requires forall b :: 0 <= b < |gcs0| ==> IsChain(grown[b], gcs0[b])
    requires forall b :: 0 <= b < |gcs0| ==> Mirrors(gcs0[b], ges0[b]) && Within(gcs0[b], pool)
    requires WellFormed(ges0, HashCode)
    requires TableMap(ges0) == TableMap(es[..i]) && TotalCount(ges0) == TotalCount(es[..i])
    modifies grown, pool`next
    ensures |gcs| == |ges| == grown.Length
    ensures forall b :: 0 <= b < |gcs| ==> IsChain(grown[b], gcs[b])
    ensures forall b :: 0 <= b < |gcs| ==> Mirrors(gcs[b], ges[b]) && Within(gcs[b], pool)
    ensures WellFormed(ges, HashCode)
    ensures TableMap(ges) == TableMap(es[..i + 1]) && TotalCount(ges) == TotalCount(es[..i + 1])
    ensures forall b :: i < b < |cs| ==> IsChain(buckets[b], cs[b])
    ensures forall b :: 0 <= b < |cs| ==> Mirrors(cs[b], es[b]) && HoldsKeys(cs[b], es[b])
  {
    gcs, ges := gcs0, ges0;
    assert HoldsKeys(cs[i], es[i]);
    var curr := buckets[i];
    ghost var j := 0;
    MovedNone(es, i);
    while curr != null
      invariant j <= |cs[i]| == |es[i]| && IsChain(curr, cs[i][j..])
      invariant |gcs| == |ges| == grown.Length
      invariant forall b :: 0 <= b < |gcs| ==> IsChain(grown[b], gcs[b])
      invariant forall b :: 0 <= b < |gcs| ==> Mirrors(gcs[b], ges[b]) && HoldsKeys(gcs[b], ges[b])
      invariant forall b :: 0 <= b < |gcs| ==> Within(gcs[b], pool)
      invariant WellFormed(ges, HashCode)
      invariant TableMap(ges) == TableMap(Moved(es, i, j)) && TotalCount(ges) == TotalCount(Moved(es, i, j))
      invariant forall b :: i < b < |cs| ==> IsChain(buckets[b], cs[b])
      invariant forall b :: 0 <= b < |cs| ==> Mirrors(cs[b], es[b]) && HoldsKeys(cs[b], es[b])
      decreases |cs[i]| - j
    {
      curr, gcs, ges := MoveRound(buckets, grown, cs, es, pool, i, j, curr, gcs, ges);
      j := j + 1;
    }
    ChainStep(curr, cs[i][j..]);
    MovedWhole(es, i);
  }

  /** hashtable_rehash on the bucket arrays: a new array of twice the
      length, every node of every old chain relinked, in order, at the tail
      of the chain of its new bucket `hash % (2 * size)`, its own link
      cleared. Only links change; the new array holds exactly the old
      table's pairs. */
  method RehashChains(buckets: array<Node?>, ghost cs: seq<seq<Node>>,
                      ghost es: seq<seq<Entry<CString>>>, ghost pool: set<Node>)
      returns (grown: array<Node?>, ghost gcs: seq<seq<Node>>, ghost ges: seq<seq<Entry<CString>>>)
    requires buckets.Length == |cs| == |es|
    requires forall b :: 0 <= b < |cs| ==> IsChain(buckets[b], cs[b]) && Mirrors(cs[b], es[b])
    requires forall b :: 0 <= b < |cs| ==> Within(cs[b], pool)
    requires WellFormed(es, HashCode)
    modifies pool`next
    ensures fresh(grown) && grown.Length == 2 * |es| && Shape(grown, gcs, ges, pool)
    ensures WellFormed(ges, HashCode) && TableMap(ges) == TableMap(es) && TotalCount(ges) == TotalCount(es)
  {
    var size := buckets.Length;
    grown, gcs, ges := NewBuckets(size * 2, pool);
    assert es[..0] == [];
    for i := 0 to size
      invariant grown.Length == 2 * size && Shape(grown, gcs, ges, pool)
      invariant WellFormed(ges, HashCode)
      invariant TableMap(ges) == TableMap(es[..i]) && TotalCount(ges) == TotalCount(es[..i])
      invariant forall b :: i <= b < size ==> IsChain(buckets[b], cs[b])
      invariant forall b :: 0 <= b < size ==> Mirrors(cs[b], es[b]) && HoldsKeys(cs[b], es[b])
    {
      gcs, ges := MoveChain(buckets, grown, cs, es, pool, i, gcs, ges);
    }
    assert es[..size] == es;
  }

  /** The heap shape of a table: bucket `i` of `heads` heads a null-terminated
      chain of the nodes `chains[i]`, all of them among `nodes`, which hold
      the pairs `entries[i]` one for one. */
  ghost predicate Shape(heads: array<Node?>, chains: seq<seq<Node>>, entries: seq<seq<Entry<CString>>>,
                        nodes: set<Node>)
    reads heads, nodes
  {
    heads.Length == |chains| == |entries| &&
    (forall i :: 0 <= i < |chains| ==> Within(chains[i], nodes)) &&
    (forall i :: 0 <= i < |chains| ==> IsChain(heads[i], chains[i]) && Mirrors(chains[i], entries[i]))
  }

  /** A bucket array with its chains, their pairs and the set of nodes. */
  datatype Frame = Frame(heads: array<Node?>, chains: seq<seq<Node>>, entries: seq<seq<Entry<CString>>>,
                         nodes: set<Node>)

  /** A step that touches neither the bucket array nor any node keeps the shape. */
  twostate lemma ShapeKept(f: Frame)
    requires old(Shape(f.heads, f.chains, f.entries, f.nodes))
    requires forall i :: 0 <= i < f.heads.Length ==> f.heads[i] == old(f.heads[i])
    requires forall n :: n in f.nodes ==> n.next == old(n.next) && n.value == old(n.value)
    ensures Shape(f.heads, f.chains, f.entries, f.nodes)
  {
    forall i | 0 <= i < |f.chains| ensures IsChain(f.heads[i], f.chains[i]) && Mirrors(f.chains[i], f.entries[i]) {
      PathKept(Seg(f.heads[i], f.chains[i], null));
    }
  }

  /** A bucket array is in shape again once the bucket at `index` heads a
      chain of `chain` holding `pairs`, and all other buckets are as before. */
  lemma ShapeReplace(heads: array<Node?>, chains: seq<seq<Node>>, entries: seq<seq<Entry<CString>>>,
                     nodes: set<Node>, index: nat, chain: seq<Node>, pairs: seq<Entry<CString>>, nodes': set<Node>)
    requires heads.Length == |chains| == |entries| && index < |chains| && nodes <= nodes'
    requires forall b :: 0 <= b < |chains| && b != index ==> Within(chains[b], nodes)
    requires forall b :: 0 <= b < |chains| && b != index ==>
               IsChain(heads[b], chains[b]) && Mirrors(chains[b], entries[b])
    requires IsChain(heads[index], chain) && Mirrors(chain, pairs) && Within(chain, nodes')
    ensures Shape(heads, chains[index := chain], entries[index := pairs], nodes')
  {
    var cs, es := chains[index := chain], entries[index := pairs];
    forall b | 0 <= b < |cs| ensures Within(cs[b], nodes') {
      if b != index {
        assert Within(chains[b], nodes);
      }
    }
  }

  /** The chains of a table in shape share no node: a node's key fixes its bucket. */
  lemma ShapeApart(heads: array<Node?>, chains: seq<seq<Node>>, entries: seq<seq<Entry<CString>>>,
                   nodes: set<Node>, b: nat)
    requires Shape(heads, chains, entries, nodes) && WellFormed(entries, HashCode) && b < |chains|
    ensures forall i :: 0 <= i < |chains| && i != b ==> Apart(chains[i], chains[b])
  {
    BucketsApart(entries, chains, b);
  }

  /** Bucket `index` of the bucket array `heads`, with the chains of all
      its buckets and the pairs they hold. */
  datatype Touch = Touch(heads: array<Node?>, chains: seq<seq<Node>>, pairs: seq<seq<Entry<CString>>>,
                         index: nat)

  /** While only bucket `index` and the links and values of its own nodes
      change, every other bucket still heads its chain and every other
      chain still holds its pairs. */
  twostate lemma OthersKept(t: Touch)
    requires t.heads.Length == |t.chains| == |t.pairs| && t.index < |t.chains|
    requires forall b :: 0 <= b < |t.chains| && b != t.index ==> Apart(t.chains[b], t.chains[t.index])
    requires forall b :: 0 <= b < |t.chains| && b != t.index ==> t.heads[b] == old(t.heads[b])
    requires forall n: Node :: old(allocated(n)) && n !in t.chains[t.index] ==>
               n.next == old(n.next) && n.value == old(n.value)
    requires old(forall b :: 0 <= b < |t.chains| ==> IsChain(t.heads[b], t.chains[b]) && Mirrors(t.chains[b], t.pairs[b]))
    ensures forall b :: 0 <= b < |t.chains| && b != t.index ==>
              IsChain(t.heads[b], t.chains[b]) && Mirrors(t.chains[b], t.pairs[b])
  {
    forall b | 0 <= b < |t.chains| && b != t.index
      ensures IsChain(t.heads[b], t.chains[b]) && Mirrors(t.chains[b], t.pairs[b])
    {
      PathKept(Seg(old(t.heads[b]), t.chains[b], null));
      assert old(Mirrors(t.chains[b], t.pairs[b]));
      forall x | 0 <= x < |t.chains[b]| ensures t.chains[b][x].value == t.pairs[b][x].value {
        assert t.chains[b][x] in t.chains[b];
      }
    }
  }

  /** The first half of hashtable_insert after the load check: bucket_try_replace
      on the key's bucket. It succeeds exactly when the key is present, and
      then the key is bound to the new value; the links and the count do not
      change. */
  method Replace(heads: array<Node?>, ghost chains: seq<seq<Node>>, ghost entries: seq<seq<Entry<CString>>>,
                 ghost nodes: set<Node>, index: nat, key: CString, value: Value)
      returns (replaced: bool, ghost entries': seq<seq<Entry<CString>>>)
    requires Shape(heads, chains, entries, nodes) && WellFormed(entries, HashCode)
    requires index == Slot(HashCode, key, |entries|)
    modifies nodes`value
    ensures replaced <==> key in TableMap(entries)
    ensures Shape(heads, chains, entries', nodes) && WellFormed(entries', HashCode)
    ensures replaced ==> TableMap(entries') == TableMap(entries)[key := value]
    ensures !replaced ==> entries' == entries
    ensures TotalCount(entries') == TotalCount(entries)
  {
    LookupInBucket(entries, key, HashCode);
    ShapeApart(heads, chains, entries, nodes, index);
    label before:
    ghost var at;
    replaced, at := BucketTryReplace(heads[index], key, value, chains[index], entries[index]);
    OthersKept@before(Touch(heads, chains, entries, index));
    PathKept@before(Seg(heads[index], chains[index], null));
    entries' := entries;
    if replaced {
      Overwrite(entries, key, at, value, HashCode);
      entries' := entries[index := entries[index][at := Entry(key, value)]];
    }
  }

  /** The second half of hashtable_insert, for an absent key: a new node
      holding a copy of the key and the value, linked at the tail of the
      key's bucket. The key becomes bound and the count grows by one. */
  method Add(heads: array<Node?>, ghost chains: seq<seq<Node>>, ghost entries: seq<seq<Entry<CString>>>,
             ghost nodes: set<Node>, index: nat, key: CString, value: Value)
      returns (ghost chains': seq<seq<Node>>, ghost entries': seq<seq<Entry<CString>>>, ghost node: Node)
    requires Shape(heads, chains, entries, nodes) && WellFormed(entries, HashCode)
    requires index == Slot(HashCode, key, |entries|) && key !in TableMap(entries)
    modifies heads, nodes`next
    ensures fresh(node) && node.key == key && node.value == value
    ensures chains' == chains[index := chains[index] + [node]]
    ensures entries' == entries[index := entries[index] + [Entry(key, value)]]
    ensures Shape(heads, chains', entries', nodes + {node}) && WellFormed(entries', HashCode)
    ensures TableMap(entries') == TableMap(entries)[key := value]
    ensures TotalCount(entries') == TotalCount(entries) + 1
  {
    ShapeApart(heads, chains, entries, nodes, index);
    var copy := CopyString(key);
    var created := new Node(copy, value);
    node := created;
    Attach(heads, chains, entries, nodes, index, created);
    Append(entries, key, value, HashCode);
    chains' := chains[index := chains[index] + [node]];
    entries' := entries[index := entries[index] + [Entry(key, value)]];
  }

  /** Link a new, unlinked node at the tail of bucket `index`: the bucket's
      chain and pairs grow by the node and its pair, and nothing else moves. */
  method Attach(heads: array<Node?>, ghost chains: seq<seq<Node>>, ghost entries: seq<seq<Entry<CString>>>,
                ghost nodes: set<Node>, index: nat, node: Node)
    requires Shape(heads, chains, entries, nodes) && index < |chains|
    requires forall b :: 0 <= b < |chains| && b != index ==> Apart(chains[b], chains[index])
    requires node !in nodes && node.next == null
    modifies heads, nodes`next
    ensures Shape(heads, chains[index := chains[index] + [node]],
                  entries[index := entries[index] + [Entry(node.key, node.value)]], nodes + {node})
  {
    ghost var chain := chains[index];
    MirrorsSnoc(chain, entries[index], node, Entry(node.key, node.value));
    label linked:
    Link(heads, index, node, chain);
    assert [node][1..] == [];
    PathConcat(heads[index], chain, node, [node], null);
    OthersKept@linked(Touch(heads, chains, entries, index));
    ShapeReplace(heads, chains, entries, nodes, index, chain + [node], entries[index] + [Entry(node.key, node.value)],
                 nodes + {node});
  }

  /** hashtable_remove on the bucket array: unlink the node holding the key,
      from the head of its bucket or, through bucket_remove, from further
      down. It succeeds exactly when the key is present, and then the key
      is unbound and the count drops by one; otherwise nothing changes. */
  method Delete(heads: array<Node?>, ghost chains: seq<seq<Node>>, ghost entries: seq<seq<Entry<CString>>>,
                ghost nodes: set<Node>, key: CString)
      returns (removed: bool, ghost chains': seq<seq<Node>>, ghost entries': seq<seq<Entry<CString>>>)
    requires Shape(heads, chains, entries, nodes) && WellFormed(entries, HashCode)
    modifies heads, nodes`next
    ensures removed <==> key in TableMap(entries)
    ensures Shape(heads, chains', entries', nodes) && WellFormed(entries', HashCode)
    ensures TableMap(entries') == TableMap(entries) - {key}
    ensures TotalCount(entries') == TotalCount(entries) - (if removed then 1 else 0)
  {
    var h := HashString(key);
    var index := (h as int) % heads.Length;
    SlotOfHash(key, h, heads.Length);
    LookupInBucket(entries, key, HashCode);
    chains', entries' := chains, entries;
    var head := heads[index];
    ChainStep(head, chains[index]);
    if head == null {
      assert Keys(entries[index]) == [];
      assert TableMap(entries) - {key} == TableMap(entries);
      return false, chains', entries';
    }
    InKeysCons(entries[index], key);
    var eq := StringEqual(head.key, key);
    ghost var at;
    removed, at := Detach(heads, chains, entries, nodes, index, key, eq);
    if removed {
      Unlink(entries, key, at, HashCode);
      chains' := chains[index := Without(chains[index], at)];
      entries' := entries[index := Without(entries[index], at)];
    } else {
      assert TableMap(entries) - {key} == TableMap(entries);
    }
  }

  /** The unlinking in hashtable_remove once the key's bucket `index` is
      known to be non-empty and `eq` tells whether its first node holds the
      key: the first node leaves the bucket, or else bucket_remove unlinks
      the first later node holding the key. */
  method Detach(heads: array<Node?>, ghost chains: seq<seq<Node>>, ghost entries: seq<seq<Entry<CString>>>,
                ghost nodes: set<Node>, index: nat, key: CString, eq: bool)
      returns (removed: bool, ghost at: nat)
    requires Shape(heads, chains, entries, nodes) && WellFormed(entries, HashCode) && index < |chains|
    requires heads[index] != null && (eq <==> heads[index].key == key)
    modifies heads, nodes`next
    ensures removed <==> key in Keys(entries[index])
    ensures removed ==> at < |entries[index]| && entries[index][at].key == key &&
                        Shape(heads, chains[index := Without(chains[index], at)],
                              entries[index := Without(entries[index], at)], nodes)
    ensures !removed ==> Shape(heads, chains, entries, nodes)
  {
    ChainStep(heads[index], chains[index]);
    InKeysCons(entries[index], key);
    if eq {
      UnlinkFirst(heads, chains, entries, nodes, index);
      removed, at := true, 0;
    } else {
      removed, at := UnlinkLater(heads, chains, entries, nodes, index, key);
    }
  }

  /** The head case of hashtable_remove: bucket `index` starts at the node
      after its first one, which drops out of the bucket's chain. */
  method UnlinkFirst(heads: array<Node?>, ghost chains: seq<seq<Node>>, ghost entries: seq<seq<Entry<CString>>>,
                     ghost nodes: set<Node>, index: nat)
    requires Shape(heads, chains, entries, nodes) && WellFormed(entries, HashCode) && index < |chains|
    requires heads[index] != null
    modifies heads
    ensures chains[index] != [] && entries[index] != []
    ensures Shape(heads, chains[index := Without(chains[index], 0)], entries[index := Without(entries[index], 0)], nodes)
  {
    ghost var chain, c := chains[index], entries[index];
    ShapeApart(heads, chains, entries, nodes, index);
    var head := heads[index];
    ChainStep(head, chain);
    label before:
    heads[index] := head.next;
    PathKept@before(Seg(head.next, chain[1..], null));
    OthersKept@before(Touch(heads, chains, entries, index));
    MirrorsWithout(chain, c, 0);
    assert Without(chain, 0) == chain[1..];
    ShapeReplace(heads, chains, entries, nodes, index, Without(chain, 0), Without(c, 0), nodes);
  }

  /** The other case of hashtable_remove: bucket_remove unlinks the first
      node after the head of bucket `index` that holds the key, if any. */
  method UnlinkLater(heads: array<Node?>, ghost chains: seq<seq<Node>>, ghost entries: seq<seq<Entry<CString>>>,
                     ghost nodes: set<Node>, index: nat, key: CString)
      returns (removed: bool, ghost at: nat)
    requires Shape(heads, chains, entries, nodes) && WellFormed(entries, HashCode) && index < |chains|
    requires heads[index] != null
    modifies nodes`next
    ensures entries[index] != []
    ensures removed <==> key in Keys(entries[index][1..])
    ensures removed ==> 0 < at < |entries[index]| && entries[index][at].key == key &&
                        Shape(heads, chains[index := Without(chains[index], at)],
                              entries[index := Without(entries[index], at)], nodes)
    ensures !removed ==> Shape(heads, chains, entries, nodes)
  {
    ghost var chain, c := chains[index], entries[index];
    ShapeApart(heads, chains, entries, nodes, index);
    ChainStep(heads[index], chain);
    label before:
    removed, at := BucketRemove(heads[index], key, chain, c);
    OthersKept@before(Touch(heads, chains, entries, index));
    if removed {
      assert Within(Without(chain, at), nodes) by {
        forall n | n in Without(chain, at) ensures n in nodes {
          assert n in chain[..at] || n in chain[at + 1..];
        }
      }
      MirrorsWithout(chain, c, at);
      ShapeReplace(heads, chains, entries, nodes, index, Without(chain, at), Without(c, at), nodes);
    } else {
      ShapeReplace(heads, chains, entries, nodes, index, chain, c, nodes);
      assert chains[index := chain] == chains && entries[index := c] == entries;
    }
  }

  /** `struct hashtable`: the bucket array, its length and the number of nodes. */
  class Table {
    var buckets: array<Node?>
    var size: nat
    var count: nat

    ghost var chains: seq<seq<Node>>
    ghost var entries: seq<seq<Entry<CString>>>
    ghost var Nodes: set<Node>
    ghost var Repr: set<object>

    /** The bucket array is in shape, its pairs satisfy the table invariant
        of module Chains, `count` counts them, and there are never more
        nodes than buckets. */
    ghost predicate Valid()
      reads this, Repr
      ensures Valid() ==> this in Repr
    {
      this in Repr && buckets in Repr && (forall n :: n in Nodes ==> n in Repr) &&
      buckets.Length == size && Shape(buckets, chains, entries, Nodes) &&
      WellFormed(entries, HashCode) &&
      count == TotalCount(entries) && count <= size
    }

    /** The map from keys to values that the table stands for. */
    ghost function Contents(): map<CString, Value>
      reads this
    {
      TableMap(entries)
    }

    /** hashtable_create: `initialSize` empty buckets (the source's
        HASHTABLE_INITIAL_SIZE), no nodes. */
    constructor (initialSize: nat)
      requires initialSize > 0
      ensures Valid() && fresh(Repr)
      ensures Contents() == map[] && size == initialSize && count == 0
    {
      var a;
      ghost var cs, es;
      a, cs, es := NewBuckets(initialSize, {});
      buckets := a;
      size := initialSize;
      count := 0;
      chains, entries := cs, es;
      Nodes := {};
      Repr := {this, a};
    }

    /** Record a new state of the table: its bucket array, the layout of
        its nodes and its count. */
    method Adopt(heads: array<Node?>, ghost cs: seq<seq<Node>>, ghost es: seq<seq<Entry<CString>>>,
                 ghost ns: set<Node>, n: nat, ghost extra: set<object>)
      requires Shape(heads, cs, es, ns)
      modifies this
      ensures Shape(heads, cs, es, ns)
      ensures buckets == heads && size == heads.Length && count == n
      ensures chains == cs && entries == es && Nodes == ns && Repr == old(Repr) + extra
    {
      label before:
      buckets, size, count := heads, heads.Length, n;
      chains, entries, Nodes := cs, es, ns;
      Repr := Repr + extra;
      ShapeKept@before(Frame(heads, cs, es, ns));
    }

    /** Record a new layout of the nodes, with the objects it adds to the
        table's footprint. */
    ghost method Relayout(cs: seq<seq<Node>>, es: seq<seq<Entry<CString>>>, ns: set<Node>, extra: set<object>)
      requires Shape(buckets, cs, es, ns)
      modifies this
      ensures Shape(buckets, cs, es, ns)
      ensures buckets == old(buckets) && size == old(size) && count == old(count)
      ensures chains == cs && entries == es && Nodes == ns && Repr == old(Repr) + extra
    {
      chains, entries, Nodes := cs, es, ns;
      Repr := Repr + extra;
    }

    /** hashtable_get_count: the number of keys. */
    method GetCount() returns (n: nat)
      requires Valid()
      ensures n == count && n == |Contents()|
    {
      CountIsSize(entries, HashCode);
      n := count;
    }

    /** hashtable_get_size: the number of buckets. */
    method GetSize() returns (n: nat)
      requires Valid()
      ensures n == size && n > 0
    {
      n := size;
    }

    /** hashtable_rehash: double the bucket array and relink every node
        into the bucket its hash picks in the larger array. The keys, the
        values and the count stay as they were. */
    method Rehash()
      requires Valid()
      modifies Repr
      ensures Valid() && fresh(Repr - old(Repr))
      ensures Contents() == old(Contents()) && count == old(count) && size == 2 * old(size)
    {
      var grown;
      ghost var gcs, ges;
      grown, gcs, ges := RehashChains(buckets, chains, entries, Nodes);
      Adopt(grown, gcs, ges, Nodes, count, {grown});
    }

    /** hashtable_insert: first rehash if the load factor `count / size` has
        reached one half; then overwrite the value of the key's node if
        there is one, and otherwise link a new node with a copy of the key at
        the tail of the key's bucket. The result says whether a node was
        created, which happens exactly when the key was absent. */
    method Insert(key: CString, value: Value) returns (created: bool)
      requires Valid()
      modifies Repr
      ensures Valid() && fresh(Repr - old(Repr))
      ensures created <==> key !in old(Contents())
      ensures Contents() == old(Contents())[key := value]
      ensures count == old(count) + (if created then 1 else 0)
      ensures size == if 2 * old(count) >= old(size) then 2 * old(size) else old(size)
    {
      if 2 * count >= size {
        Rehash();
      }
      var h := HashString(key);
      var index := (h as int) % size;
      SlotOfHash(key, h, size);
      var replaced := TryReplace(index, key, value);
      if replaced {
        return false;
      }
      AddNode(index, key, value);
      return true;
    }

    /** The bucket_try_replace step of hashtable_insert on bucket `index`,
        the key's bucket: it succeeds exactly when the key is present, and
        then binds it to `value`. */
    method TryReplace(index: nat, key: CString, value: Value) returns (replaced: bool)
      requires Valid() && index == Slot(HashCode, key, size)
      modifies Repr
      ensures Valid() && Repr == old(Repr)
      ensures replaced <==> key in old(Contents())
      ensures Contents() == if replaced then old(Contents())[key := value] else old(Contents())
      ensures count == old(count) && size == old(size)
    {
      ghost var es;
      replaced, es := Replace(buckets, chains, entries, Nodes, index, key, value);
      Relayout(chains, es, Nodes, {});
    }

    /** The tail of hashtable_insert for an absent key: a new node in bucket
        `index`, the key's bucket, and one more in the count. */
    method AddNode(index: nat, key: CString, value: Value)
      requires Valid() && index == Slot(HashCode, key, size) && key !in Contents() && count < size
      modifies Repr
      ensures Valid() && fresh(Repr - old(Repr))
      ensures Contents() == old(Contents())[key := value]
      ensures count == old(count) + 1 && size == old(size)
    {
      ghost var cs, es, node;
      cs, es, node := Add(buckets, chains, entries, Nodes, index, key, value);
      Adopt(buckets, cs, es, Nodes + {node}, count + 1, {node});
    }

    /** hashtable_remove: the result says whether the key was present; the
        count drops exactly then. */
    method Remove(key: CString) returns (removed: bool)
      requires Valid()
      modifies Repr
      ensures Valid() && Repr == old(Repr)
      ensures removed <==> key in old(Contents())
      ensures Contents() == old(Contents()) - {key}
      ensures count == old(count) - (if removed then 1 else 0) && size == old(size)
    {
      ghost var cs, es;
      removed, cs, es := Delete(buckets, chains, entries, Nodes, key);
      Relayout(cs, es, Nodes, {});
      if removed {
        count := count - 1;
      }
    }

    // hashtable_set_*: insert a value made by the matching value_make_*.

    method SetNil(key: CString)
      requires Valid()
      modifies Repr
      ensures Valid() && fresh(Repr - old(Repr))
      ensures Contents() == old(Contents())[key := MakeNil()]
    {
      var _ := Insert(key, MakeNil());
    }

    method SetBoolean(key: CString, b: bool)
      requires Valid()
      modifies Repr
      ensures Valid() && fresh(Repr - old(Repr))
      ensures Contents() == old(Contents())[key := MakeBoolean(b)]
    {
      var _ := Insert(key, MakeBoolean(b));
    }

    method SetInteger(key: CString, i: int64)
      requires Valid()
      modifies Repr
      ensures Valid() && fresh(Repr - old(Repr))
      ensures Contents() == old(Contents())[key := MakeInteger(i)]
    {
      var _ := Insert(key, MakeInteger(i));
    }

    method SetReal(key: CString, d: Double)
      requires Valid()
      modifies Repr
      ensures Valid() && fresh(Repr - old(Repr))
      ensures Contents() == old(Contents())[key := MakeReal(d)]
    {
      var _ := Insert(key, MakeReal(d));
    }

    method SetCustom(key: CString, h: Handle)
      requires Valid()
      modifies Repr
      ensures Valid() && fresh(Repr - old(Repr))
      ensures Contents() == old(Contents())[key := MakeCustom(h)]
    {
      var _ := Insert(key, MakeCustom(h));
    }

    /** hashtable_contains: walk the key's bucket until a node with the key
        turns up. */
    method Contains(key: CString) returns (found: bool)
      requires Valid()
      ensures found <==> key in Contents()
    {
      var h := HashString(key);
      var index := (h as int) % size;
      SlotOfHash(key, h, size);
      LookupInBucket(entries, key, HashCode);
      found := Search(buckets[index], key, chains[index], entries[index]);
    }

    /** hashtable_get: Nil for an absent key; otherwise walk the key's
        bucket, which is known to hold it, to the node with the key. */
    method Get(key: CString) returns (v: Value)
      requires Valid()
      ensures key in Contents() ==> v == Contents()[key]
      ensures key !in Contents() ==> v == MakeNil()
    {
      var found := Contains(key);
      if !found {
        return MakeNil();
      }
      var h := HashString(key);
      var index := (h as int) % size;
      SlotOfHash(key, h, size);
      LookupInBucket(entries, key, HashCode);
      ghost var target :| 0 <= target < |entries[index]| && Keys(entries[index])[target] == key;
      ghost var at;
      v, at := FindValue(buckets[index], key, chains[index], entries[index], target);
    }
  }

  // How the operations compose, seen from a caller of the table.

  /** Whatever the table held, hashtable_get returns the value just stored
      by hashtable_insert under the same key. */
  method InsertThenGet(t: Table, key: CString, value: Value) returns (v: Value)
    requires t.Valid()
    modifies t.Repr
    ensures t.Valid() && v == value
  {
    var _ := t.Insert(key, value);
    v := t.Get(key);
  }

  /** After hashtable_remove the key is absent, and hashtable_get falls back
      to Nil. */
  method RemoveThenGet(t: Table, key: CString) returns (found: bool, v: Value)
    requires t.Valid()
    modifies t.Repr
    ensures t.Valid() && !found && v == MakeNil()
  {
    var _ := t.Remove(key);
    found := t.Contains(key);
    v := t.Get(key);
  }
}
