/** Which key is in which bucket of a chained hash table (client_map.c, groups.c). */
module Buckets {
  import opened Base
  import Bits

  /** The bucket of a key in a table of `cap` buckets: `key & (cap - 1)`. */
  function Hash(cap: nat, key: nat): (h: nat)
    requires Bits.IsPow2(cap)
    ensures h == key % cap < cap
  {
    Bits.MaskIsMod(key, cap);
    Bits.And(key, cap - 1)
  }

  /** The keys bucket by bucket: each key of the map is in its own bucket, once, and nowhere else. */
  ghost predicate KeysOk(keys: seq<seq<nat>>, dom: set<nat>) {
    && Bits.IsPow2(|keys|)
    && (forall b {:trigger BucketOk(keys[b], b, |keys|, dom)} :: 0 <= b < |keys| ==> BucketOk(keys[b], b, |keys|, dom))
    && (forall k: nat {:trigger Hash(|keys|, k)} :: k in dom ==> k in keys[Hash(|keys|, k)])
  }

  ghost predicate BucketOk(ks: seq<nat>, b: nat, cap: nat, dom: set<nat>)
    requires Bits.IsPow2(cap)
  {
    NoDup(ks) && forall j :: 0 <= j < |ks| ==> ks[j] in dom && Hash(cap, ks[j]) == b
  }

  /** The keys with `id` at the head of its bucket. */
  ghost function LinkedKeys(keys: seq<seq<nat>>, id: nat): seq<seq<nat>>
    requires Bits.IsPow2(|keys|)
  {
    var h := Hash(|keys|, id);
    keys[h := [id] + keys[h]]
  }

  /** The keys without the one at position `j` of bucket `b`. */
  ghost function UnlinkedKeys(keys: seq<seq<nat>>, b: nat, j: nat): seq<seq<nat>>
    requires b < |keys| && j < |keys[b]|
  {
    keys[b := keys[b][..j] + keys[b][j + 1..]]
  }

  lemma KeysAdd(keys: seq<seq<nat>>, dom: set<nat>, id: nat)
    requires KeysOk(keys, dom) && id !in dom
    ensures KeysOk(LinkedKeys(keys, id), dom + {id})
  {
    var h, t := Hash(|keys|, id), LinkedKeys(keys, id);
    forall b | 0 <= b < |t| ensures BucketOk(t[b], b, |t|, dom + {id}) {
      assert BucketOk(keys[b], b, |keys|, dom);
    }
    forall k: nat | k in dom + {id} ensures k in t[Hash(|t|, k)] {
      if k == id { assert t[h][0] == id; }
    }
  }

  lemma KeysRemove(keys: seq<seq<nat>>, dom: set<nat>, b: nat, j: nat)
    requires KeysOk(keys, dom) && b < |keys| && j < |keys[b]|
    ensures KeysOk(UnlinkedKeys(keys, b, j), dom - {keys[b][j]})
  {
    var ks, id, t := keys[b], keys[b][j], UnlinkedKeys(keys, b, j);
    assert BucketOk(ks, b, |keys|, dom);
    forall c | 0 <= c < |t| ensures BucketOk(t[c], c, |t|, dom - {id}) {
      assert BucketOk(keys[c], c, |keys|, dom);
    }
    forall k: nat | k in dom - {id} ensures k in t[Hash(|t|, k)] {
      var i :| 0 <= i < |keys[Hash(|keys|, k)]| && keys[Hash(|keys|, k)][i] == k;
      if Hash(|keys|, k) == b { assert t[b][if i < j then i else i - 1] == k; }
    }
  }
}
