/**
 A hash set of client ids with open addressing and linear probing (cid_set.h, cid_set.c).

 `Table(ids, members)` relates the slots to the set they store; everything the class does is proved
 against it. The allocation is taken to have exactly `cap` slots.
 */
module CidSet {
  import opened Base
  import Bits

  const INIT_CAP := 8
  const HASH_MULT := 11400714819323198485
  const EMPTY_VAL: u64 := U64 - 1

  /** `(cid * HASH_MULT) & (cap - 1)` in 64-bit arithmetic. */
  function Hash(cid: u64, cap: nat): (h: nat)
    requires Bits.IsPow2(cap)
    ensures h == (cid * 11400714819323198485) % 0x1_0000_0000_0000_0000 % cap < cap
  {
    Bits.MaskIsMod((cid * HASH_MULT) % U64, cap);
    Bits.And((cid * HASH_MULT) % U64, cap - 1)
  }

  /** The slot after `i`: `(i + 1) & (cap - 1)`. */
  function After(i: nat, cap: nat): (n: nat)
    requires Bits.IsPow2(cap) && i < cap
    ensures n == if i + 1 == cap then 0 else i + 1
  {
    Bits.MaskIsMod(i + 1, cap);
    Bits.ModUnique(i + 1, cap, if i + 1 == cap then 1 else 0, if i + 1 == cap then 0 else i + 1);
    Bits.And(i + 1, cap - 1)
  }

  /** How many probes it takes to get from slot `h` to slot `i`. */
  function Dist(h: nat, i: nat, cap: nat): (d: nat)
    requires h < cap && i < cap
    ensures d < cap
  {
    if h <= i then i - h else i + cap - h
  }

  /** No slot on the probe path from `h` to `i` (exclusive) is empty. */
  ghost predicate Clear(ids: seq<u64>, h: nat, i: nat)
    requires h < |ids| && i < |ids|
  {
    forall k :: 0 <= k < |ids| && Dist(h, k, |ids|) < Dist(h, i, |ids|) ==> ids[k] != EMPTY_VAL
  }

  ghost predicate Table(ids: seq<u64>, members: set<u64>) {
    && Bits.IsPow2(|ids|)
    && EMPTY_VAL !in members
    && (forall x :: x in members ==> x in ids)
    && (forall i :: 0 <= i < |ids| && ids[i] != EMPTY_VAL ==> ids[i] in members)
    && (forall i, j :: 0 <= i < j < |ids| && ids[i] == ids[j] ==> ids[i] == EMPTY_VAL)
    && (forall i {:trigger HomeClear(ids, i)} :: 0 <= i < |ids| ==> HomeClear(ids, i))
  }

  /** No slot between that an id hashes to and the one it is in is empty. */
  ghost predicate HomeClear(ids: seq<u64>, i: nat)
    requires Bits.IsPow2(|ids|) && i < |ids|
  {
    ids[i] != EMPTY_VAL ==> Clear(ids, Hash(ids[i], |ids|), i)
  }

  /** A table with fewer members than slots has a free slot, so every probe loop ends. */
  lemma FreeSlot(ids: seq<u64>, members: set<u64>) returns (e: nat)
    requires Table(ids, members) && |members| < |ids|
    ensures e < |ids| && ids[e] == EMPTY_VAL
  {
    if forall i :: 0 <= i < |ids| ==> ids[i] != EMPTY_VAL {
      NoDupBound(ids, members);
      assert false;
    }
    e :| e < |ids| && ids[e] == EMPTY_VAL;
  }

  /** The probe for `id` has passed every slot before `i` without finding it or a free slot. */
  ghost predicate Passed(ids: seq<u64>, id: u64, i: nat)
    requires Bits.IsPow2(|ids|) && i < |ids|
  {
    PassedFrom(ids, Hash(id, |ids|), id, i)
  }

  ghost predicate PassedFrom(ids: seq<u64>, h: nat, id: u64, i: nat)
    requires h < |ids| && i < |ids|
  {
    forall k :: 0 <= k < |ids| && Dist(h, k, |ids|) < Dist(h, i, |ids|) ==> ids[k] != EMPTY_VAL && ids[k] != id
  }

  /** Reaching a free slot proves absence. */
  lemma ProbeMiss(ids: seq<u64>, members: set<u64>, id: u64, i: nat)
    requires Table(ids, members) && i < |ids| && Passed(ids, id, i) && ids[i] == EMPTY_VAL
    ensures id !in members
  {
    forall j | 0 <= j < |ids| ensures ids[j] == id ==> id == EMPTY_VAL {
      assert HomeClear(ids, j);
    }
  }

  /** Filling the free slot where the probe stopped adds exactly `id`. */
  lemma ProbeInsert(ids: seq<u64>, members: set<u64>, id: u64, i: nat)
    requires Table(ids, members) && i < |ids| && Passed(ids, id, i) && ids[i] == EMPTY_VAL
    requires id != EMPTY_VAL
    ensures Table(ids[i := id], members + {id})
    ensures |members + {id}| == |members| + 1
  {
    ProbeMiss(ids, members, id, i);
    InsertMembers(ids, members, id, i);
    InsertClear(ids, members, id, i);
  }

  lemma {:induction false} InsertMembers(ids: seq<u64>, members: set<u64>, id: u64, i: nat)
    requires i < |ids| && ids[i] == EMPTY_VAL && id != EMPTY_VAL && id !in members
    requires (forall x :: x in members ==> x in ids) && EMPTY_VAL !in members
    requires forall k :: 0 <= k < |ids| && ids[k] != EMPTY_VAL ==> ids[k] in members
    ensures var t := ids[i := id];
            && (forall x :: x in members + {id} ==> x in t)
            && (forall k :: 0 <= k < |t| && t[k] != EMPTY_VAL ==> t[k] in members + {id})
  {
    var t := ids[i := id];
    forall x | x in members + {id} ensures x in t {
      if x == id {
        assert t[i] == id;
      } else {
        var j :| 0 <= j < |ids| && ids[j] == x;
        assert t[j] == x;
      }
    }
  }

  lemma {:induction false} InsertClear(ids: seq<u64>, members: set<u64>, id: u64, i: nat)
    requires Table(ids, members) && i < |ids| && Passed(ids, id, i) && ids[i] == EMPTY_VAL
    requires id != EMPTY_VAL
    ensures var t := ids[i := id];
            forall j {:trigger HomeClear(t, j)} :: 0 <= j < |t| ==> HomeClear(t, j)
  {
    var t := ids[i := id];
    forall j | 0 <= j < |t| ensures HomeClear(t, j) {
      if j != i { assert HomeClear(ids, j); }
    }
  }

  /** One more probe: nearer to any free slot. */
  lemma {:induction false} ProbeNext(ids: seq<u64>, id: u64, i: nat, e: nat)
    requires Bits.IsPow2(|ids|) && i < |ids| && e < |ids| && ids[e] == EMPTY_VAL
    requires Passed(ids, id, i) && ids[i] != EMPTY_VAL && ids[i] != id
    ensures var h, n := Hash(id, |ids|), After(i, |ids|);
            && n < |ids| && Passed(ids, id, n)
            && Dist(h, n, |ids|) == Dist(h, i, |ids|) + 1 <= Dist(h, e, |ids|)
  {
    ProbeNextFrom(ids, Hash(id, |ids|), id, i, After(i, |ids|), e);
  }

  lemma {:induction false} ProbeNextFrom(ids: seq<u64>, h: nat, id: u64, i: nat, n: nat, e: nat)
    requires h < |ids| && i < |ids| && n == (if i + 1 == |ids| then 0 else i + 1) && e < |ids| && ids[e] == EMPTY_VAL
    requires PassedFrom(ids, h, id, i) && ids[i] != EMPTY_VAL && ids[i] != id
    ensures PassedFrom(ids, h, id, n)
    ensures Dist(h, n, |ids|) == Dist(h, i, |ids|) + 1 <= Dist(h, e, |ids|)
  {
    assert Dist(h, e, |ids|) >= Dist(h, i, |ids|) && e != i;
  }

  class Set {
    var len: nat
    var ids: array<u64>
    ghost var Members: set<u64>

    /** The slots store the set; enough for the probes to end. */
    ghost predicate Loose()
      reads this, ids
    {
      Table(ids[..], Members) && len == |Members| < ids.Length
    }

    /** At most three quarters full. */
    ghost predicate Valid()
      reads this, ids
    {
      Loose() && INIT_CAP <= ids.Length && ids.Length % 4 == 0 && 4 * len <= 3 * ids.Length
    }

    constructor ()
      ensures Valid() && Members == {} && fresh(ids) && ids.Length == 8
    {
      len := 0;
      ids := new u64[INIT_CAP](_ => EMPTY_VAL);
      Members := {};
      new;
      EmptyTable(ids[..]);
    }

    /** The probe loop: stops at `id`, or at the free slot that proves it absent. */
    method Probe(id: u64) returns (i: nat)
      requires Loose()
      ensures i < ids.Length && Passed(ids[..], id, i)
      ensures ids[i] == (if id in Members then id else EMPTY_VAL)
    {
      var cap := ids.Length;
      ghost var t := ids[..];
      ghost var e := FreeSlot(t, Members);
      i := Hash(id, cap);
      while ids[i] != EMPTY_VAL && ids[i] != id
        invariant 0 <= i < cap && Passed(t, id, i)
        decreases cap - Dist(Hash(id, cap), i, cap)
      {
        ProbeNext(t, id, i, e);
        i := After(i, cap);
      }
      if ids[i] == EMPTY_VAL { ProbeMiss(t, Members, id, i); }
    }

    method Exists(id: u64) returns (found: bool)
      requires Valid()
      ensures found <==> id in Members
    {
      var i := Probe(id);
      return ids[i] != EMPTY_VAL;
    }

    /** `insert`: the set without the load-factor check. */
    method InsertSlot(id: u64)
      requires Loose() && id != EMPTY_VAL && |Members| + 1 < ids.Length
      modifies this, ids
      ensures Loose() && Members == old(Members) + {id} && ids == old(ids)
    {
      var i := Probe(id);
      if ids[i] == id {
        assert Members == Members + {id};
        return;
      }
      ghost var t := ids[..];
      ProbeInsert(t, Members, id, i);
      ids[i] := id;
      assert ids[..] == t[i := id];
      len := len + 1;
      Members := Members + {id};
    }

    /** The copying loop of `cid_set_grow`. */
    method Refill(from: array<u64>, ghost all: set<u64>)
      requires Loose() && Members == {} && from != ids
      requires Table(from[..], all) && |all| + 1 < ids.Length
      modifies this, ids
      ensures Loose() && Members == all && ids == old(ids)
    {
      ghost var was := from[..];
      var i := 0;
      while i < from.Length
        invariant 0 <= i <= from.Length && ids == old(ids) && from[..] == was
        invariant Loose() && Members <= all
        invariant forall j :: 0 <= j < i && was[j] != EMPTY_VAL ==> was[j] in Members
      {
        if from[i] != EMPTY_VAL {
          SubsetSize(Members, all);
          assert was[i] in all;
          InsertSlot(from[i]);
        }
        i := i + 1;
      }
      assert Members == all;
    }

    /** Twice the slots, the same members. */
    method Grow()
      requires Valid()
      modifies this
      ensures Valid() && fresh(ids) && ids.Length == 2 * old(ids.Length)
      ensures Members == old(Members) && len == old(len)
      ensures 4 * len + 4 <= 3 * ids.Length
    {
      var from := ids;
      ghost var all := Members;
      Bits.DoublePow2(from.Length);
      ids := new u64[2 * from.Length](_ => EMPTY_VAL);
      len := 0;
      Members := {};
      EmptyTable(ids[..]);
      Refill(from, all);
    }

    /** With room for one more below the load factor. */
    method InsertBelow(id: u64)
      requires Valid() && id != EMPTY_VAL && 4 * len + 4 <= 3 * ids.Length
      modifies this, ids
      ensures Valid() && Members == old(Members) + {id} && ids == old(ids)
    {
      AddSize(Members, id);
      InsertSlot(id);
    }

    /**
     Returns false, changing nothing, where the source exits: for the one value that marks a free slot. The slots are
     doubled first if three quarters of them are filled.
     */
    method Insert(id: u64) returns (ok: bool)
      requires Valid()
      modifies this, ids
      ensures Valid() && (ids == old(ids) || fresh(ids))
      ensures ok <==> id != 0xFFFF_FFFF_FFFF_FFFF
      ensures Members == if ok then old(Members) + {id} else old(Members)
      ensures ids.Length == if ok && 4 * old(len) >= 3 * old(ids.Length) then 2 * old(ids.Length) else old(ids.Length)
    {
      ok := id != EMPTY_VAL;
      if ok {
        if 4 * len >= 3 * ids.Length {
          Grow();
        }
        InsertBelow(id);
      }
    }
  }

  lemma AddSize<T>(s: set<T>, x: T)
    ensures |s + {x}| <= |s| + 1
  {
    assert x in s ==> s + {x} == s;
  }

  lemma {:induction false} EmptyTable(ids: seq<u64>)
    requires Bits.IsPow2(|ids|) && forall i :: 0 <= i < |ids| ==> ids[i] == EMPTY_VAL
    ensures Table(ids, {})
  {
  }

  lemma {:induction false} SubsetSize<T>(a: set<T>, b: set<T>)
    requires a <= b
    ensures |a| <= |b|
  {
    if a != {} {
      var x :| x in a;
      SubsetSize(a - {x}, b - {x});
    }
  }

  // ------------------------------------------------------------------- iteration

  /** The stored ids in slot order. */
  function Listed(ids: seq<u64>): seq<u64> {
    if |ids| == 0 then []
    else if ids[0] == EMPTY_VAL then Listed(ids[1..])
    else [ids[0]] + Listed(ids[1..])
  }

  lemma {:induction false} ListedElements(ids: seq<u64>)
    ensures forall x :: x in Listed(ids) <==> x in ids && x != EMPTY_VAL
  {
    if |ids| > 0 {
      ListedElements(ids[1..]);
      assert ids == [ids[0]] + ids[1..];
    }
  }

  lemma {:induction false} ListedAppend(a: seq<u64>, b: seq<u64>)
    ensures Listed(a + b) == Listed(a) + Listed(b)
  {
    if |a| == 0 {
      assert a + b == b;
    } else {
      var x, t := a[0], a[1..];
      ListedAppend(t, b);
      assert a == [x] + t && a + b == [x] + (t + b);
      ListedCons(x, t);
      ListedCons(x, t + b);
    }
  }

  lemma {:induction false} ListedCons(x: u64, ids: seq<u64>)
    ensures Listed([x] + ids) == (if x == EMPTY_VAL then [] else [x]) + Listed(ids)
  {
    assert ([x] + ids)[1..] == ids;
  }

  /** Slot order: as many ids stand before one as there are slots before it that are not free. */
  lemma {:induction false} ListedAt(ids: seq<u64>, i: nat)
    requires i < |ids| && ids[i] != EMPTY_VAL
    ensures |Listed(ids[..i])| < |Listed(ids)| && Listed(ids)[|Listed(ids[..i])|] == ids[i]
  {
    assert ids == ids[..i] + ids[i..];
    ListedAppend(ids[..i], ids[i..]);
  }

  lemma {:induction false} ListedNoDup(ids: seq<u64>)
    requires forall i, j :: 0 <= i < j < |ids| && ids[i] == ids[j] ==> ids[i] == EMPTY_VAL
    ensures NoDup(Listed(ids))
  {
    if |ids| > 0 {
      ListedNoDup(ids[1..]);
      ListedElements(ids[1..]);
      assert ids[0] != EMPTY_VAL ==> ids[0] !in ids[1..];
    }
  }

  /** Slot order lists every member exactly once. */
  lemma {:induction false} ListedTable(ids: seq<u64>, members: set<u64>)
    requires Table(ids, members)
    ensures NoDup(Listed(ids))
    ensures (set x | x in Listed(ids)) == members
    ensures |Listed(ids)| == |members|
  {
    ListedNoDup(ids);
    ListedElements(ids);
    assert (set x | x in Listed(ids)) == members;
    NoDupSize(Listed(ids), members);
  }

  class Iter {
    var idx: nat
    var len: nat
    const ids: array<u64>

    /** `cid_set_iter`. */
    constructor (s: Set)
      ensures Valid() && ids == s.ids && Rest() == Listed(s.ids[..])
    {
      idx := 0;
      len := s.ids.Length;
      ids := s.ids;
      new;
      assert ids[0..len] == s.ids[..];
    }

    ghost predicate Valid()
      reads this
    {
      idx <= len == ids.Length
    }

    /** What is still to come. */
    ghost function Rest(): seq<u64>
      requires Valid()
      reads this, ids
    {
      Listed(ids[idx..len])
    }

    /** `cid_iter_next_batch`: the next `batchSize` members, or all that are left. */
    method NextBatch(batchSize: nat, batch: array<u64>) returns (n: nat)
      requires Valid() && batchSize <= batch.Length && batch != ids
      modifies this, batch
      ensures Valid() && len == old(len)
      ensures n == Min(batchSize, |old(Rest())|)
      ensures batch[..n] == old(Rest())[..n]
      ensures Rest() == old(Rest())[n..]
    {
      ghost var all := Rest();
      n := 0;
      while idx < len && n < batchSize
        invariant Valid() && len == old(len) && 0 <= n <= batchSize
        invariant all == batch[..n] + Rest()
        decreases len - idx
      {
        assert ids[idx..len] == [ids[idx]] + ids[idx + 1..len];
        if ids[idx] != EMPTY_VAL {
          batch[n] := ids[idx];
          n := n + 1;
        }
        idx := idx + 1;
      }
    }
  }

  /** The batches a list of calls returns, one after the other. */
  function Batches(rest: seq<u64>, sizes: seq<nat>): seq<seq<u64>> {
    if |sizes| == 0 then []
    else
      var n := Min(sizes[0], |rest|);
      [rest[..n]] + Batches(rest[n..], sizes[1..])
  }

  function Flatten(bs: seq<seq<u64>>): seq<u64> {
    if |bs| == 0 then [] else bs[0] + Flatten(bs[1..])
  }

  /** Whatever the batch sizes, the batches concatenate to a prefix of the members, without gap or repeat. */
  lemma {:induction false} BatchesConcat(rest: seq<u64>, sizes: seq<nat>)
    ensures Flatten(Batches(rest, sizes)) == rest[..Min(Sum(sizes), |rest|)]
    decreases |sizes|
  {
    if |sizes| > 0 {
      var n := Min(sizes[0], |rest|);
      BatchesConcat(rest[n..], sizes[1..]);
      var m := Min(Sum(sizes[1..]), |rest| - n);
      FlattenCons(rest[..n], Batches(rest[n..], sizes[1..]));
      PrefixSplit(rest, n, m);
    }
  }

  lemma {:induction false} FlattenCons(b: seq<u64>, bs: seq<seq<u64>>)
    ensures Flatten([b] + bs) == b + Flatten(bs)
  {
    assert ([b] + bs)[1..] == bs;
  }

  lemma {:induction false} PrefixSplit(s: seq<u64>, n: nat, m: nat)
    requires n + m <= |s|
    ensures s[..n] + s[n..][..m] == s[..n + m]
  {
  }

  /** Asking for as many ids as the set has, in batches of any sizes, yields every member exactly once. */
  lemma {:induction false} DrainYieldsMembers(ids: seq<u64>, members: set<u64>, sizes: seq<nat>)
    requires Table(ids, members) && Sum(sizes) >= |members|
    ensures var out := Flatten(Batches(Listed(ids), sizes));
            NoDup(out) && (set x | x in out) == members
  {
    ListedTable(ids, members);
    BatchesConcat(Listed(ids), sizes);
    assert Listed(ids)[..|members|] == Listed(ids);
  }

  /** A batch shorter than asked for leaves nothing behind. */
  lemma {:induction false} ShortBatchEnds(rest: seq<u64>, sizes: seq<nat>, i: nat)
    requires i < |sizes|
    ensures |Batches(rest, sizes)| == |sizes| && |Batches(rest, sizes)[i]| <= sizes[i]
    ensures |Batches(rest, sizes)[i]| < sizes[i] ==> forall j :: i < j < |sizes| ==> Batches(rest, sizes)[j] == []
    decreases |sizes|
  {
    var n := Min(sizes[0], |rest|);
    BatchCount(rest, sizes);
    if i > 0 {
      ShortBatchEnds(rest[n..], sizes[1..], i - 1);
    } else if n < sizes[0] {
      forall j | 0 < j < |sizes| ensures Batches(rest, sizes)[j] == [] {
        NothingLeft(rest[n..], sizes[1..], j - 1);
      }
    }
  }

  lemma {:induction false} BatchCount(rest: seq<u64>, sizes: seq<nat>)
    ensures |Batches(rest, sizes)| == |sizes|
    decreases |sizes|
  {
    if |sizes| > 0 { BatchCount(rest[Min(sizes[0], |rest|)..], sizes[1..]); }
  }

  lemma {:induction false} NothingLeft(rest: seq<u64>, sizes: seq<nat>, j: nat)
    requires |rest| == 0 && j < |sizes|
    ensures |Batches(rest, sizes)| == |sizes| && Batches(rest, sizes)[j] == []
    decreases |sizes|
  {
    BatchCount(rest, sizes);
    if j > 0 { NothingLeft(rest[0..], sizes[1..], j - 1); }
  }

  /** `calls` batches of `b` suffice once `calls * b` reaches the size of the set: the ceiling of len / b. */
  lemma {:induction false} FixedBatches(b: nat, calls: nat)
    ensures Sum(seq(calls, i => b)) == calls * b
  {
    if calls > 0 {
      FixedBatches(b, calls - 1);
      var sizes := seq(calls, i => b);
      assert sizes[1..] == seq(calls - 1, i => b);
      assert calls * b == b + (calls - 1) * b;
    }
  }

  lemma {:induction false} CeilingCallsSuffice(ids: seq<u64>, members: set<u64>, b: nat)
    requires Table(ids, members) && b > 0
    ensures var calls := (|members| + b - 1) / b;
            var out := Flatten(Batches(Listed(ids), seq(calls, i => b)));
            NoDup(out) && (set x | x in out) == members
  {
    var calls := (|members| + b - 1) / b;
    FixedBatches(b, calls);
    assert calls * b + (|members| + b - 1) % b == |members| + b - 1;
    DrainYieldsMembers(ids, members, seq(calls, i => b));
  }
}
