/** The table seen as values: bucket `i` holds the sequence of entries of its
    chain, head first. This module defines the key-to-value map a table of
    chains stands for, the structural invariant of the table, and what each
    change to one chain (overwrite, append, unlink) or to the bucket count
    (rehash) does to that map. */
module Chains {
  import opened Values
  
  /** The slot of a key in a table of `size` slots: `hash(key) % size`. The
      chain lemmas hold for any hash function; the table uses FNV-1a. */
  function Slot<K>(hash: K -> nat, key: K, size: nat): (i: nat)
    requires size > 0
    ensures i < size
  {
    hash(key) % size
  }

  /** The key and value of one chain node. */
  datatype Entry<K> = Entry(key: K, value: Value)

  /** The keys of a chain, in chain order. */
  function Keys<K>(c: seq<Entry<K>>): (ks: seq<K>)
    ensures |ks| == |c| && forall j :: 0 <= j < |c| ==> ks[j] == c[j].key
  {
    if c == [] then [] else [c[0].key] + Keys(c[1..])
  }

  /** What a chain maps its keys to: a walk from the head stops at the first
      node with the key, so an earlier node wins over a later one. */
  function ChainMap<K(==)>(c: seq<Entry<K>>): map<K, Value>
  {
    if c == [] then map[] else ChainMap(c[1..])[c[0].key := c[0].value]
  }

  /** The map a whole bucket array stands for: the union of its chains' maps. */
  function TableMap<K(==)>(es: seq<seq<Entry<K>>>): map<K, Value>
  {
    if es == [] then map[] else TableMap(es[..|es| - 1]) + ChainMap(es[|es| - 1])
  }

  /** The number of nodes in all chains. */
  function TotalCount<K>(es: seq<seq<Entry<K>>>): nat
  {
    if es == [] then 0 else TotalCount(es[..|es| - 1]) + |es[|es| - 1]|
  }

  /** No key appears twice in a chain. */
  ghost predicate UniqueKeys<K>(c: seq<Entry<K>>) {
    forall j1, j2 :: 0 <= j1 < j2 < |c| ==> c[j1].key != c[j2].key
  }

  /** Every entry of `es` lies in the bucket its key hashes to among `size` slots. */
  ghost predicate Placed<K>(es: seq<seq<Entry<K>>>, size: nat, hash: K -> nat)
    requires size > 0
  {
    forall i, j :: 0 <= i < |es| && 0 <= j < |es[i]| ==> Slot(hash, es[i][j].key, size) == i
  }

  /** The table invariant: at least one bucket, every entry in the bucket of
      its hash, and no key twice in a chain (so, with placement, nowhere twice). */
  ghost predicate WellFormed<K>(es: seq<seq<Entry<K>>>, hash: K -> nat) {
    |es| > 0 && Placed(es, |es|, hash) && forall i :: 0 <= i < |es| ==> UniqueKeys(es[i])
  }

  /** A table of `size` empty chains. */
  function EmptyTable<K>(size: nat, hash: K -> nat): (es: seq<seq<Entry<K>>>)
    requires size > 0
    ensures |es| == size && WellFormed(es, hash)
    ensures TableMap(es) == map[] && TotalCount(es) == 0
  {
    var es := seq(size, _ => []);
    EmptyTableMaps(es);
    es
  }

  lemma {:induction false} EmptyTableMaps<K>(es: seq<seq<Entry<K>>>)
    requires forall i :: 0 <= i < |es| ==> es[i] == []
    ensures TableMap(es) == map[] && TotalCount(es) == 0
    decreases |es|
  {
    if es != [] {
      EmptyTableMaps(es[..|es| - 1]);
    }
  }

  // ---- chains ------------------------------------------------------------

  /** A key is in a chain's map exactly when some node carries it; with no
      key twice, the map gives each node's own value. */
  lemma {:induction false} ChainMapAt<K>(c: seq<Entry<K>>)
    ensures forall k :: k in ChainMap(c) <==> k in Keys(c)
    ensures UniqueKeys(c) ==> forall j :: 0 <= j < |c| ==> ChainMap(c)[c[j].key] == c[j].value
    decreases |c|
  {
    if c != [] {
      ChainMapAt(c[1..]);
      if UniqueKeys(c) {
        assert UniqueKeys(c[1..]);
        forall j | 0 <= j < |c|
          ensures ChainMap(c)[c[j].key] == c[j].value
        {
          if j > 0 {
            assert c[1..][j - 1] == c[j];
            assert c[j].key != c[0].key;
          }
        }
      }
    }
  }

  /** Appending a node with a new key at the tail adds that key to the map. */
  lemma {:induction false} ChainMapAppend<K>(c: seq<Entry<K>>, e: Entry<K>)
    requires e.key !in Keys(c)
    ensures ChainMap(c + [e]) == ChainMap(c)[e.key := e.value]
    decreases |c|
  {
    if c == [] {
      assert [e][1..] == [];
    } else {
      assert (c + [e])[1..] == c[1..] + [e];
      ChainMapAppend(c[1..], e);
    }
  }

  /** Overwriting the value of the node holding `k` rebinds `k`. */
  lemma {:induction false} ChainMapOverwrite<K>(c: seq<Entry<K>>, j: nat, v: Value)
    requires j < |c| && UniqueKeys(c)
    ensures UniqueKeys(c[j := Entry(c[j].key, v)])
    ensures ChainMap(c[j := Entry(c[j].key, v)]) == ChainMap(c)[c[j].key := v]
    decreases |c|
  {
    var c' := c[j := Entry(c[j].key, v)];
    if j == 0 {
      assert c'[1..] == c[1..];
    } else {
      assert c'[1..] == c[1..][j - 1 := Entry(c[j].key, v)];
      assert UniqueKeys(c[1..]);
      ChainMapOverwrite(c[1..], j - 1, v);
      assert c[j].key != c[0].key;
    }
  }

  /** The sequence `s` with its element at `at` dropped. */
  function Without<T>(s: seq<T>, at: nat): (r: seq<T>)
    requires at < |s|
    ensures |r| == |s| - 1
  {
    s[..at] + s[at + 1..]
  }

  /** Unlinking a node keeps the remaining keys distinct. */
  lemma UniqueKeysUnlink<K>(c: seq<Entry<K>>, j: nat)
    requires j < |c| && UniqueKeys(c)
    ensures UniqueKeys(Without(c, j))
  {
    var c' := Without(c, j);
    forall j1, j2 | 0 <= j1 < j2 < |c'| ensures c'[j1].key != c'[j2].key {
      var o1 := if j1 < j then j1 else j1 + 1;
      var o2 := if j2 < j then j2 else j2 + 1;
      assert c'[j1] == c[o1] && c'[j2] == c[o2] && o1 < o2;
    }
  }

  /** In a chain with distinct keys, the head's key is not bound by the rest. */
  lemma HeadKeyFresh<K>(c: seq<Entry<K>>)
    requires c != [] && UniqueKeys(c)
    ensures c[0].key !in ChainMap(c[1..])
  {
    ChainMapAt(c[1..]);
    forall i | 0 <= i < |c| - 1 ensures Keys(c[1..])[i] != c[0].key {
      assert c[1..][i] == c[i + 1];
    }
  }

  /** Binding a fresh key and then dropping it gives back the map. */
  lemma UpdateThenDrop<K>(m: map<K, Value>, k: K, v: Value)
    requires k !in m
    ensures m[k := v] - {k} == m
  {
    MapExt(m[k := v] - {k}, m);
  }

  /** Without its head, a chain with distinct keys maps all but the head's key. */
  lemma ChainMapDropHead<K>(c: seq<Entry<K>>)
    requires c != [] && UniqueKeys(c)
    ensures ChainMap(c[1..]) == ChainMap(c) - {c[0].key}
  {
    HeadKeyFresh(c);
    UpdateThenDrop(ChainMap(c[1..]), c[0].key, c[0].value);
  }

  /** Unlinking the node holding `k` removes `k` and nothing else. */
  lemma {:induction false} ChainMapUnlink<K>(c: seq<Entry<K>>, j: nat)
    requires j < |c| && UniqueKeys(c)
    ensures ChainMap(Without(c, j)) == ChainMap(c) - {c[j].key}
    decreases |c|
  {
    var c' := Without(c, j);
    if j == 0 {
      assert c' == c[1..];
      ChainMapDropHead(c);
    } else {
      assert c'[0] == c[0];
      assert c'[1..] == c[1..][..j - 1] + c[1..][j..];
      assert UniqueKeys(c[1..]);
      ChainMapUnlink(c[1..], j - 1);
      var kj := c[j].key;
      assert kj != c[0].key;
      var m := ChainMap(c[1..]);
      assert ChainMap(c') == (m - {kj})[c[0].key := c[0].value];
      assert (m - {kj})[c[0].key := c[0].value] == m[c[0].key := c[0].value] - {kj};
    }
  }

  // ---- tables ------------------------------------------------------------

  /** Lookup goes through the key's own bucket: in a table whose entries are
      placed, `k` is bound exactly when its bucket's chain binds it, and to
      the same value. Stated for a prefix of the buckets of a `size`-slot table. */
  lemma {:induction false} TableMapAt<K>(es: seq<seq<Entry<K>>>, size: nat, k: K, hash: K -> nat)
    requires size > 0 && |es| <= size && Placed(es, size, hash)
    ensures k in TableMap(es) <==> Slot(hash, k, size) < |es| && k in ChainMap(es[Slot(hash, k, size)])
    ensures k in TableMap(es) ==> TableMap(es)[k] == ChainMap(es[Slot(hash, k, size)])[k]
    decreases |es|
  {
    if es != [] {
      var pre, last := es[..|es| - 1], es[|es| - 1];
      assert Placed(pre, size, hash);
      TableMapAt(pre, size, k, hash);
      ChainMapAt(last);
      if k in ChainMap(last) {
        var j :| 0 <= j < |last| && Keys(last)[j] == k;
        assert Slot(hash, last[j].key, size) == |es| - 1;
      }
    }
  }

  /** The map of a well-formed table, key by key. */
  lemma LookupInBucket<K>(es: seq<seq<Entry<K>>>, k: K, hash: K -> nat)
    requires WellFormed(es, hash)
    ensures k in TableMap(es) <==> k in Keys(es[Slot(hash, k, |es|)])
    ensures forall j :: 0 <= j < |es[Slot(hash, k, |es|)]| && es[Slot(hash, k, |es|)][j].key == k ==>
              k in TableMap(es) && TableMap(es)[k] == es[Slot(hash, k, |es|)][j].value
  {
    TableMapAt(es, |es|, k, hash);
    ChainMapAt(es[Slot(hash, k, |es|)]);
  }

  /** Replacing chain `b` by one whose keys all belong to bucket `b` keeps every entry placed. */
  lemma PlacedReplaceChain<K>(es: seq<seq<Entry<K>>>, b: nat, c: seq<Entry<K>>, hash: K -> nat)
    requires |es| > 0 && Placed(es, |es|, hash) && b < |es|
    requires forall j :: 0 <= j < |c| ==> Slot(hash, c[j].key, |es|) == b
    ensures Placed(es[b := c], |es|, hash)
  {
  }

  /** Two placed tables of the same size whose chain maps agree except in
      bucket `b` have the same map at every key outside bucket `b`, and at
      keys of bucket `b` each table maps what its chain `b` maps. */
  lemma LookupBoth<K>(es: seq<seq<Entry<K>>>, es': seq<seq<Entry<K>>>, b: nat, k: K, hash: K -> nat)
    requires |es| > 0 && |es'| == |es| && b < |es|
    requires Placed(es, |es|, hash) && Placed(es', |es|, hash)
    requires forall i :: 0 <= i < |es| && i != b ==> es'[i] == es[i]
    ensures Slot(hash, k, |es|) != b ==>
              (k in TableMap(es') <==> k in TableMap(es)) &&
              (k in TableMap(es) ==> TableMap(es')[k] == TableMap(es)[k])
    ensures Slot(hash, k, |es|) == b ==>
              (k in TableMap(es') <==> k in ChainMap(es'[b])) &&
              (k in TableMap(es') ==> TableMap(es')[k] == ChainMap(es'[b])[k]) &&
              (k in TableMap(es) <==> k in ChainMap(es[b])) &&
              (k in TableMap(es) ==> TableMap(es)[k] == ChainMap(es[b])[k])
  {
    TableMapAt(es, |es|, k, hash);
    TableMapAt(es', |es|, k, hash);
  }

  /** Replacing chain `b` changes the node count by the difference in length. */
  lemma {:induction false} TotalCountReplaceChain<K>(es: seq<seq<Entry<K>>>, b: nat, c: seq<Entry<K>>)
    requires b < |es|
    ensures TotalCount(es[b := c]) == TotalCount(es) - |es[b]| + |c|
    decreases |es|
  {
    var es' := es[b := c];
    if b < |es| - 1 {
      assert es'[..|es'| - 1] == es[..|es| - 1][b := c];
      TotalCountReplaceChain(es[..|es| - 1], b, c);
    } else {
      assert es'[..|es'| - 1] == es[..|es| - 1];
    }
  }

  /** Two maps with the same keys and the same value at each key are equal. */
  lemma MapExt<K>(a: map<K, Value>, b: map<K, Value>)
    requires forall k :: k in a <==> k in b
    requires forall k :: k in a ==> k in b && a[k] == b[k]
    ensures a == b
  {
  }

  /** hashtable_insert on a present key: overwriting the node's value keeps
      the invariant and the count, and rebinds the key. */
  lemma Overwrite<K>(es: seq<seq<Entry<K>>>, k: K, j: nat, v: Value, hash: K -> nat)
    requires WellFormed(es, hash)
    requires j < |es[Slot(hash, k, |es|)]| && es[Slot(hash, k, |es|)][j].key == k
    ensures var b := Slot(hash, k, |es|);
            var es' := es[b := es[b][j := Entry(k, v)]];
            WellFormed(es', hash) && TableMap(es') == TableMap(es)[k := v] && TotalCount(es') == TotalCount(es)
  {
    var b := Slot(hash, k, |es|);
    var c := es[b][j := Entry(k, v)];
    var es' := es[b := c];
    ChainMapOverwrite(es[b], j, v);
    TotalCountReplaceChain(es, b, c);
    PlacedReplaceChain(es, b, c, hash);
    var t, t', m := TableMap(es), TableMap(es'), TableMap(es)[k := v];
    forall k' ensures k' in t' <==> k' in m {
      LookupBoth(es, es', b, k', hash);
    }
    forall k' | k' in t' ensures k' in m && t'[k'] == m[k'] {
      LookupBoth(es, es', b, k', hash);
    }
    MapExt(t', m);
  }

  /** hashtable_insert on an absent key: appending a node at the tail of its
      bucket keeps the invariant, adds one to the count and binds the key. */
  lemma Append<K>(es: seq<seq<Entry<K>>>, k: K, v: Value, hash: K -> nat)
    requires WellFormed(es, hash) && k !in TableMap(es)
    ensures var b := Slot(hash, k, |es|);
            var es' := es[b := es[b] + [Entry(k, v)]];
            WellFormed(es', hash) && TableMap(es') == TableMap(es)[k := v] && TotalCount(es') == TotalCount(es) + 1
  {
    var b := Slot(hash, k, |es|);
    var c := es[b] + [Entry(k, v)];
    var es' := es[b := c];
    LookupInBucket(es, k, hash);
    ChainMapAppend(es[b], Entry(k, v));
    TotalCountReplaceChain(es, b, c);
    assert Keys(c) == Keys(es[b]) + [k];
    PlacedReplaceChain(es, b, c, hash);
    var t, t', m := TableMap(es), TableMap(es'), TableMap(es)[k := v];
    forall k' ensures k' in t' <==> k' in m {
      LookupBoth(es, es', b, k', hash);
    }
    forall k' | k' in t' ensures k' in m && t'[k'] == m[k'] {
      LookupBoth(es, es', b, k', hash);
    }
    MapExt(t', m);
  }

  /** hashtable_remove on a present key: unlinking its node keeps the
      invariant, takes one off the count and unbinds the key. */
  lemma Unlink<K>(es: seq<seq<Entry<K>>>, k: K, j: nat, hash: K -> nat)
    requires WellFormed(es, hash)
    requires j < |es[Slot(hash, k, |es|)]| && es[Slot(hash, k, |es|)][j].key == k
    ensures var b := Slot(hash, k, |es|);
            var es' := es[b := Without(es[b], j)];
            WellFormed(es', hash) && TableMap(es') == TableMap(es) - {k} && TotalCount(es') == TotalCount(es) - 1
  {
    var b := Slot(hash, k, |es|);
    var c := Without(es[b], j);
    var es' := es[b := c];
    ChainMapUnlink(es[b], j);
    UniqueKeysUnlink(es[b], j);
    TotalCountReplaceChain(es, b, c);
    forall j' | 0 <= j' < |c| ensures Slot(hash, c[j'].key, |es|) == b {
      if j' >= j { assert c[j'] == es[b][j' + 1]; }
    }
    PlacedReplaceChain(es, b, c, hash);
    var t, t', m := TableMap(es), TableMap(es'), TableMap(es) - {k};
    forall k' ensures k' in t' <==> k' in m {
      LookupBoth(es, es', b, k', hash);
    }
    forall k' | k' in t' ensures k' in m && t'[k'] == m[k'] {
      LookupBoth(es, es', b, k', hash);
    }
    MapExt(t', m);
  }

  // ---- rehash ------------------------------------------------------------

  /** The buckets before `i` of a table, followed by the first `j` nodes of
      bucket `i`: the part of the old table that rehash has already moved. */
  function Moved<K>(es: seq<seq<Entry<K>>>, i: nat, j: nat): seq<seq<Entry<K>>>
    requires i < |es| && j <= |es[i]|
  {
    es[..i] + [es[i][..j]]
  }

  /** Nothing of bucket `i` moved: the buckets before `i` are all there is. */
  lemma MovedNone<K>(es: seq<seq<Entry<K>>>, i: nat)
    requires i < |es|
    ensures TableMap(Moved(es, i, 0)) == TableMap(es[..i])
    ensures TotalCount(Moved(es, i, 0)) == TotalCount(es[..i])
  {
    var m := Moved(es, i, 0);
    assert m[..|m| - 1] == es[..i] && m[|m| - 1] == [];
  }

  /** All of bucket `i` moved: the buckets up to and including `i`. */
  lemma MovedWhole<K>(es: seq<seq<Entry<K>>>, i: nat)
    requires i < |es|
    ensures Moved(es, i, |es[i]|) == es[..i + 1]
  {
    assert es[i][..|es[i]|] == es[i];
  }

  /** Every entry's key is bound by the table it is in. */
  lemma EntryBound<K>(es: seq<seq<Entry<K>>>, b: nat, y: nat, hash: K -> nat)
    requires WellFormed(es, hash) && b < |es| && y < |es[b]|
    ensures es[b][y].key in TableMap(es)
  {
    assert Slot(hash, es[b][y].key, |es|) == b;
    LookupInBucket(es, es[b][y].key, hash);
  }

  /** A node rehash has not reached yet (node `x` of bucket `i2`, at or after
      node `j` of bucket `i`) has a key that the moved part does not bind. */
  lemma PendingKeyFresh<K>(es: seq<seq<Entry<K>>>, i: nat, j: nat, i2: nat, x: nat, hash: K -> nat)
    requires WellFormed(es, hash) && i < |es| && j <= |es[i]|
    requires (i < i2 < |es| && x < |es[i2]|) || (i2 == i && j <= x < |es[i]|)
    ensures es[i2][x].key !in TableMap(Moved(es, i, j))
  {
    var k := es[i2][x].key;
    var m: seq<seq<Entry<K>>> := Moved(es, i, j);
    assert Slot(hash, k, |es|) == i2;
    assert Placed(m, |es|, hash) by {
      forall b, y | 0 <= b < |m| && 0 <= y < |m[b]| ensures Slot(hash, m[b][y].key, |es|) == b {
        if b == i {
          assert m[b][y] == es[i][y];
        } else {
          assert m[b] == es[b];
        }
      }
    }
    TableMapAt(m, |es|, k, hash);
    if i2 == i {
      ChainMapAt(es[i][..j]);
      forall y | 0 <= y < j ensures Keys(es[i][..j])[y] != k {
        assert es[i][..j][y] == es[i][y];
      }
    }
  }

  /** The map of what has been moved, once one more node of bucket `i` is moved. */
  lemma {:induction false} MovedStep<K>(es: seq<seq<Entry<K>>>, i: nat, j: nat)
    requires i < |es| && j < |es[i]| && UniqueKeys(es[i])
    ensures es[i][j].key !in ChainMap(es[i][..j])
    ensures TableMap(Moved(es, i, j + 1)) == TableMap(Moved(es, i, j)) + ChainMap(es[i][..j + 1])
    ensures ChainMap(es[i][..j + 1]) == ChainMap(es[i][..j])[es[i][j].key := es[i][j].value]
    ensures TableMap(Moved(es, i, j)) == TableMap(es[..i]) + ChainMap(es[i][..j])
    ensures TotalCount(Moved(es, i, j + 1)) == TotalCount(Moved(es, i, j)) + 1
  {
    var a, b := Moved(es, i, j), Moved(es, i, j + 1);
    assert a[..|a| - 1] == es[..i] && a[|a| - 1] == es[i][..j];
    assert b[..|b| - 1] == es[..i] && b[|b| - 1] == es[i][..j + 1];
    var e := es[i][j];
    ChainMapAt(es[i][..j]);
    forall j' | 0 <= j' < j ensures Keys(es[i][..j])[j'] != e.key {
      assert es[i][..j][j'] == es[i][j'];
    }
    assert es[i][..j + 1] == es[i][..j] + [e];
    ChainMapAppend(es[i][..j], e);
  }

  /** One round of hashtable_rehash's inner loop: node `j` of old bucket `i`
      is appended to the tail of its bucket in the new table. If the new table
      holds exactly what has been moved so far, it still does afterwards. */
  lemma RehashStep<K>(es: seq<seq<Entry<K>>>, i: nat, j: nat, grown: seq<seq<Entry<K>>>, hash: K -> nat)
    requires WellFormed(es, hash) && i < |es| && j < |es[i]|
    requires WellFormed(grown, hash)
    requires TableMap(grown) == TableMap(Moved(es, i, j))
    requires TotalCount(grown) == TotalCount(Moved(es, i, j))
    ensures var e := es[i][j];
            var b := Slot(hash, e.key, |grown|);
            var grown' := grown[b := grown[b] + [e]];
            WellFormed(grown', hash) &&
            TableMap(grown') == TableMap(Moved(es, i, j + 1)) &&
            TotalCount(grown') == TotalCount(Moved(es, i, j + 1))
  {
    var e := es[i][j];
    MovedStep(es, i, j);
    assert Placed(es[..i], |es|, hash);
    TableMapAt(es[..i], |es|, e.key, hash);
    var a, c := TableMap(es[..i]), ChainMap(es[i][..j]);
    assert e.key !in a + c;
    Append(grown, e.key, e.value, hash);
    assert TableMap(grown) == a + c;
    var m1, m2 := (a + c)[e.key := e.value], a + c[e.key := e.value];
    assert forall k :: k in m1 ==> k in m2 && m1[k] == m2[k];
    MapExt(m1, m2);
  }

  // ---- count -------------------------------------------------------------

  /** A chain with distinct keys binds as many keys as it has nodes. */
  lemma {:induction false} ChainMapSize<K>(c: seq<Entry<K>>)
    requires UniqueKeys(c)
    ensures |ChainMap(c)| == |c|
    decreases |c|
  {
    if c != [] {
      assert UniqueKeys(c[1..]);
      ChainMapSize(c[1..]);
      HeadKeyFresh(c);
    }
  }

  /** In a well-formed table the node count is the number of keys bound:
      placement keeps different chains' keys apart. */
  lemma {:induction false} TableMapSize<K>(es: seq<seq<Entry<K>>>, size: nat, hash: K -> nat)
    requires size > 0 && |es| <= size && Placed(es, size, hash)
    requires forall i :: 0 <= i < |es| ==> UniqueKeys(es[i])
    ensures |TableMap(es)| == TotalCount(es)
    decreases |es|
  {
    if es != [] {
      var pre, last := es[..|es| - 1], es[|es| - 1];
      assert Placed(pre, size, hash);
      TableMapSize(pre, size, hash);
      ChainMapSize(last);
      var a, c := TableMap(pre), ChainMap(last);
      ChainMapSlot(last, |es| - 1, size, hash);
      forall k | k in c ensures k !in a {
        TableMapAt(pre, size, k, hash);
      }
      DisjointUnionSize(a, c);
    }
  }

  /** The keys a chain binds all hash to the chain's own bucket. */
  lemma {:induction false} ChainMapSlot<K>(c: seq<Entry<K>>, b: nat, size: nat, hash: K -> nat)
    requires size > 0
    requires forall j :: 0 <= j < |c| ==> Slot(hash, c[j].key, size) == b
    ensures forall k :: k in ChainMap(c) ==> Slot(hash, k, size) == b
    decreases |c|
  {
    if c != [] {
      assert Slot(hash, c[0].key, size) == b;
      ChainMapSlot(c[1..], b, size, hash);
    }
  }

  lemma DisjointUnionSize<K>(a: map<K, Value>, c: map<K, Value>)
    requires forall k :: k in c ==> k !in a
    ensures |a + c| == |a| + |c|
  {
    assert (a + c).Keys == a.Keys + c.Keys;
    assert a.Keys * c.Keys == {};
  }

  lemma CountIsSize<K>(es: seq<seq<Entry<K>>>, hash: K -> nat)
    requires WellFormed(es, hash)
    ensures |TableMap(es)| == TotalCount(es)
  {
    TableMapSize(es, |es|, hash);
  }
}
