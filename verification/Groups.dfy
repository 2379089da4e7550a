/**
 Client groups (groups.h, groups.c): buckets of linked groups, each with its own set of client ids,
 proved to be a map from group ids to sets. The buckets of a new table count as NULL and their number
 as a power of two; `groups_insert` always returns false, so its result is not modelled.
 */
module Groups {
  import opened Base
  import opened Buckets
  import Bits
  import CidSet

  /** `struct grp`: neither its id nor its link ever changes. */
  class Group {
    const gid: u64
    const next: Group?
    const clientIds: CidSet.Set

    constructor (gid: u64, next: Group?)
      ensures this.gid == gid && this.next == next
      ensures fresh(clientIds) && fresh(clientIds.ids) && clientIds.Valid() && clientIds.Members == {}
    {
      this.gid := gid;
      this.next := next;
      this.clientIds := new CidSet.Set();
    }
  }

  type GroupMap = map<nat, Group>
  type Values = map<nat, set<u64>>

  /** The chain from `head` visits exactly the groups of `ks`, in order, and ends. */
  ghost predicate Linked(head: Group?, ks: seq<nat>, groups: GroupMap) {
    && (forall j :: 0 <= j < |ks| ==> ks[j] in groups)
    && head == At(ks, 0, groups)
    && (forall j {:trigger groups[ks[j]].next} :: 0 <= j < |ks| ==> groups[ks[j]].next == At(ks, j + 1, groups))
  }

  ghost function At(ks: seq<nat>, j: nat, groups: GroupMap): Group?
    requires forall i :: 0 <= i < |ks| ==> ks[i] in groups
  {
    if j < |ks| then groups[ks[j]] else null
  }

  ghost predicate Chained(buckets: seq<Group?>, keys: seq<seq<nat>>, groups: GroupMap) {
    var chained :=
      && |keys| == |buckets| && KeysOk(keys, groups.Keys)
      && (forall b {:trigger Linked(buckets[b], keys[b], groups)} ::
            0 <= b < |keys| ==> Linked(buckets[b], keys[b], groups))
      && (forall g :: g in groups ==> groups[g].gid == g);
    chained
  }

  /** A new group at the head of its bucket leaves every other chain as it was. */
  lemma ChainedAdd(buckets: seq<Group?>, keys: seq<seq<nat>>, groups: GroupMap, id: u64, group: Group)
    requires Chained(buckets, keys, groups) && id !in groups
    requires group.gid == id && group.next == buckets[Hash(|keys|, id)]
    ensures Chained(buckets[Hash(|keys|, id) := group], LinkedKeys(keys, id), groups[id := group])
  {
    var h := Hash(|keys|, id);
    var bs, t, m := buckets[h := group], LinkedKeys(keys, id), groups[id := group];
    KeysAdd(keys, groups.Keys, id);
    assert m.Keys == groups.Keys + {id};
    forall b | 0 <= b < |t| ensures Linked(bs[b], t[b], m) {
      assert Linked(buckets[b], keys[b], groups);
      assert forall j: nat :: j <= |keys[b]| ==> At(keys[b], j, m) == At(keys[b], j, groups);
      if b == h { assert forall j: nat :: 0 < j ==> At(t[b], j, m) == At(keys[b], j - 1, m); }
    }
  }

  /** Every group has a set of its own, sharing no memory with another, with the members `v` says. */
  ghost predicate SetsApart(groups: GroupMap, v: Values, repr: set<object>)
    reads repr
  {
    var apart :=
      && v.Keys == groups.Keys
      && (forall g :: g in groups ==> groups[g].clientIds in repr && groups[g].clientIds.ids in repr)
      && (forall g {:trigger SetIs(groups[g].clientIds, v[g])} :: g in groups ==> SetIs(groups[g].clientIds, v[g]))
      && (forall g, h {:trigger Apart(groups[g].clientIds, groups[h].clientIds)} ::
            g in groups && h in groups && g != h ==> Apart(groups[g].clientIds, groups[h].clientIds));
    apart
  }

  ghost predicate Apart(s: CidSet.Set, t: CidSet.Set)
    reads s, t
  {
    s != t && s.ids != t.ids
  }

  ghost predicate SetIs(s: CidSet.Set, members: set<u64>)
    reads s, s.ids
  {
    s.Members == members && s.Valid()
  }

  /** Taking one group away leaves the others on memory of their own. */
  lemma SetsWithout(groups: GroupMap, v: Values, repr: set<object>, gid: nat)
    requires SetsApart(groups, v, repr) && gid in groups
    ensures var own := groups[gid].clientIds;
            SetsApart(groups - {gid}, v - {gid}, repr - {own, own.ids}) && SetIs(own, v[gid]) && {own, own.ids} <= repr
  {
    var rest, w := groups - {gid}, v - {gid};
    assert SetIs(groups[gid].clientIds, v[gid]);
    forall g | g in rest ensures SetIs(rest[g].clientIds, w[g]) && rest[g].clientIds.ids != groups[gid].clientIds.ids {
      assert SetIs(groups[g].clientIds, v[g]) && Apart(groups[g].clientIds, groups[gid].clientIds);
    }
    forall g, h {:trigger Apart(rest[g].clientIds, rest[h].clientIds)} | g in rest && h in rest && g != h
      ensures Apart(rest[g].clientIds, rest[h].clientIds)
    {
      assert Apart(groups[g].clientIds, groups[h].clientIds);
    }
  }

  /** A group on memory of its own can be added. */
  lemma SetsWith(groups: GroupMap, v: Values, repr: set<object>, gid: nat, group: Group, members: set<u64>)
    requires SetsApart(groups, v, repr) && gid !in groups && SetIs(group.clientIds, members)
    requires group.clientIds !in repr && group.clientIds.ids !in repr
    ensures SetsApart(groups[gid := group], v[gid := members], repr + {group.clientIds, group.clientIds.ids})
  {
    var all, w := groups[gid := group], v[gid := members];
    forall g | g in all ensures SetIs(all[g].clientIds, w[g]) {
      if g != gid { assert SetIs(groups[g].clientIds, v[g]); }
    }
    forall g, h {:trigger Apart(all[g].clientIds, all[h].clientIds)} | g in all && h in all && g != h
      ensures Apart(all[g].clientIds, all[h].clientIds)
    {
      if g != gid && h != gid { assert Apart(groups[g].clientIds, groups[h].clientIds); }
    }
  }

  /** Adds to one group; no other group changes, whichever bucket it is in. */
  method AddTo(group: Group, cid: u64, ghost gid: nat, ghost groups: GroupMap, ghost v: Values, ghost repr: set<object>)
    returns (ok: bool)
    requires SetsApart(groups, v, repr) && gid in groups && groups[gid] == group
    modifies group.clientIds, group.clientIds.ids
    ensures group.clientIds.ids == old(group.clientIds.ids) || fresh(group.clientIds.ids)
    ensures ok <==> cid != CidSet.EMPTY_VAL
    ensures SetsApart(groups, Inserted(v, gid, cid), repr + {group.clientIds.ids})
  {
    SetsWithout(groups, v, repr, gid);
    ghost var others := repr - {group.clientIds, group.clientIds.ids};
    ok := group.clientIds.Insert(cid);
    ghost var members := group.clientIds.Members;
    SetsWith(groups - {gid}, v - {gid}, others, gid, group, members);
    Replaced(groups, gid, group);
    Replaced(v, gid, members);
    SetsGrow(groups, Inserted(v, gid, cid), others + {group.clientIds, group.clientIds.ids},
             repr + {group.clientIds.ids});
  }

  lemma Replaced<T>(m: map<nat, T>, k: nat, x: T)
    ensures (m - {k})[k := x] == m[k := x]
    ensures k in m && m[k] == x ==> m[k := x] == m
  {
  }

  lemma SetsGrow(groups: GroupMap, v: Values, repr: set<object>, more: set<object>)
    requires SetsApart(groups, v, repr) && repr <= more
    ensures SetsApart(groups, v, more)
  {
  }

  /** What one insertion does to the map of sets. */
  function Inserted(v: Values, gid: nat, cid: u64): Values {
    v[gid := (if gid in v then v[gid] else {}) + (if cid == CidSet.EMPTY_VAL then {} else {cid})]
  }

  /** The assignment to the head of the bucket. */
  method LinkAt(buckets: array<Group?>, i: nat, group: Group, ghost keys: seq<seq<nat>>, ghost groups: GroupMap)
    returns (ghost linked: seq<seq<nat>>)
    requires Chained(buckets[..], keys, groups) && group.gid !in groups
    requires i == Hash(buckets.Length, group.gid) && group.next == buckets[i]
    modifies buckets
    ensures Chained(buckets[..], linked, groups[group.gid := group])
  {
    ChainedAdd(buckets[..], keys, groups, group.gid, group);
    linked := LinkedKeys(keys, group.gid);
    ghost var bs := buckets[..];
    buckets[i] := group;
    assert buckets[..] == bs[i := group];
  }

  class Groups {
    const buckets: array<Group?>

    ghost var Keys: seq<seq<nat>>
    ghost var N: GroupMap
    /** The table as a value. */
    ghost var V: Values
    /** The memory of the sets. */
    ghost var Sets: set<object>

    ghost predicate Valid()
      reads this, buckets, Sets
    {
      && this !in Sets && buckets !in Sets
      && Chained(buckets[..], Keys, N)
      && SetsApart(N, V, Sets)
    }

    constructor (size: nat)
      requires Bits.IsPow2(size)
      ensures Valid() && fresh(buckets) && Sets == {} && V == map[]
    {
      buckets := new Group?[size](_ => null);
      Keys := seq(size, i => []);
      N, V, Sets := map[], map[], {};
    }

    /** The search both operations start with. */
    method Find(gid: u64) returns (group: Group?)
      requires Valid()
      ensures group == if gid in N then N[gid] else null
    {
      var i := Hash(buckets.Length, gid);
      group := buckets[i];
      ghost var ks, j := Keys[i], 0;
      assert Linked(buckets[..][i], ks, N);
      while group != null
        invariant 0 <= j <= |ks| && group == At(ks, j, N)
        invariant forall k :: 0 <= k < j ==> ks[k] != gid
        decreases |ks| - j
      {
        if group.gid == gid { break; }
        group := group.next;
        j := j + 1;
      }
    }

    /** Puts a new, empty group at the head of its bucket. */
    method Adopt(group: Group, i: nat)
      requires Valid() && group.gid !in N && i == Hash(buckets.Length, group.gid) && group.next == buckets[i]
      requires SetIs(group.clientIds, {}) && group.clientIds !in Sets && group.clientIds.ids !in Sets
      modifies this, buckets
      ensures Valid() && Sets == old(Sets) + {group.clientIds, group.clientIds.ids}
      ensures N == old(N)[group.gid := group] && V == old(V)[group.gid := {}]
    {
      SetsWith(N, V, Sets, group.gid, group, {});
      ghost var linked := LinkAt(buckets, i, group, Keys, N);
      Record(linked, N[group.gid := group], V[group.gid := {}], Sets + {group.clientIds, group.clientIds.ids});
    }

    ghost method Record(keys: seq<seq<nat>>, n: GroupMap, v: Values, sets: set<object>)
      requires Chained(buckets[..], keys, n) && SetsApart(n, v, sets) && this !in sets && buckets !in sets
      modifies this
      ensures Valid() && Keys == keys && N == n && V == v && Sets == sets
    {
      Keys, N, V, Sets := keys, n, v, sets;
    }

    method Create(gid: u64) returns (group: Group)
      requires Valid() && gid !in N
      modifies this, buckets
      ensures Valid() && fresh(Sets - old(Sets)) && old(Sets) <= Sets
      ensures N == old(N)[gid := group] && V == old(V)[gid := {}]
    {
      var i := Hash(buckets.Length, gid);
      group := new Group(gid, buckets[i]);
      Adopt(group, i);
    }

    /** The group, created if it is not there. */
    method Obtain(gid: u64) returns (group: Group)
      requires Valid()
      modifies this, buckets
      ensures Valid() && fresh(Sets - old(Sets)) && old(Sets) <= Sets
      ensures gid in N && N[gid] == group && group.clientIds in Sets && group.clientIds.ids in Sets
      ensures forall cid: u64 :: Inserted(V, gid, cid) == Inserted(old(V), gid, cid)
    {
      var found := Find(gid);
      if found == null {
        group := Create(gid);
      } else {
        group := found;
      }
    }

    method Extend(group: Group, ghost gid: nat, cid: u64) returns (ok: bool)
      requires Valid() && gid in N && N[gid] == group && group.clientIds in Sets && group.clientIds.ids in Sets
      modifies this`V, this`Sets, group.clientIds, group.clientIds.ids
      ensures Valid() && fresh(Sets - old(Sets))
      ensures ok <==> cid != CidSet.EMPTY_VAL
      ensures V == Inserted(old(V), gid, cid)
    {
      ghost var v := V;
      ok := AddTo(group, cid, gid, N, V, Sets);
      Sets, V := Sets + {group.clientIds.ids}, Inserted(v, gid, cid);
    }

    /** `groups_insert`; `ok` is false where the source exits because the id is the reserved one. */
    method Insert(gid: u64, cid: u64) returns (ok: bool)
      requires Valid()
      modifies this, buckets, Sets
      ensures Valid() && fresh(Sets - old(Sets))
      ensures ok <==> cid != 0xFFFF_FFFF_FFFF_FFFF
      ensures V == Inserted(old(V), gid, cid)
      ensures ok ==> V == old(V)[gid := (if gid in old(V) then old(V)[gid] else {}) + {cid}]
    {
      var group := Obtain(gid);
      ok := Extend(group, gid, cid);
    }

    /** `groups_get`: an iterator over exactly the members of the group, if it exists. */
    method Get(gid: u64) returns (iter: CidSet.Iter?)
      requires Valid()
      ensures iter == null <==> gid !in V
      ensures iter != null ==> iter.Valid() && NoDup(iter.Rest()) && (set x | x in iter.Rest()) == V[gid]
    {
      var group := Find(gid);
      if group == null { return null; }
      assert SetIs(group.clientIds, V[gid]);
      iter := new CidSet.Iter(group.clientIds);
      CidSet.ListedTable(group.clientIds.ids[..], group.clientIds.Members);
    }
  }

  // ------------------------------------------------------------------------ runs

  datatype Insertion = Insertion(gid: u64, cid: u64)

  /** The table after a sequence of insertions into an empty one. */
  function After(log: seq<Insertion>): Values {
    if |log| == 0 then map[]
    else
      var last := log[|log| - 1];
      Inserted(After(log[..|log| - 1]), last.gid, last.cid)
  }

  /** A group exists iff something was inserted into it, and holds exactly what was. */
  lemma {:induction false} AfterMeaning(log: seq<Insertion>, gid: u64)
    requires forall i :: 0 <= i < |log| ==> log[i].cid != 0xFFFF_FFFF_FFFF_FFFF
    ensures gid in After(log) <==> exists i :: 0 <= i < |log| && log[i].gid == gid
    ensures gid in After(log) ==> forall cid: u64 :: cid in After(log)[gid] <==> Insertion(gid, cid) in log
  {
    if |log| > 0 {
      var front, last := log[..|log| - 1], log[|log| - 1];
      AfterMeaning(front, gid);
      assert log == front + [last];
      assert gid in After(log) <==> gid in After(front) || gid == last.gid;
      if gid in After(front) {
        var i :| 0 <= i < |front| && front[i].gid == gid;
        assert log[i].gid == gid;
      }
      forall cid: u64 | gid in After(log) ensures cid in After(log)[gid] <==> Insertion(gid, cid) in log {
        assert Insertion(gid, cid) in log <==> Insertion(gid, cid) in front || Insertion(gid, cid) == last;
      }
    }
  }
}
