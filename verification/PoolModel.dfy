/** The operation pool as a value: stable ids and a LIFO list of returned ids (op_pool.h). */
module PoolModel {
  import opened Base
  import opened Ops

  datatype Pool = Pool(ops: seq<Operation>, free: seq<nat>)

  /** The entry `id` has been handed out and not returned. */
  predicate Out(p: Pool, id: nat) { id < |p.ops| && id !in p.free }

  /** Every returned id names a distinct entry that meets the pool contract. */
  ghost predicate PoolOk(p: Pool) {
    && NoDup(p.free)
    && (forall i :: 0 <= i < |p.free| ==> p.free[i] < |p.ops|)
    && (forall i :: 0 <= i < |p.free| ==>
          p.ops[p.free[i]].clientFd == -1 && p.ops[p.free[i]].buf == None)
  }

  /** The id `op_pool_new_entry` hands out next: the most recently returned, else a new one. */
  function NewId(p: Pool): nat {
    if |p.free| > 0 then p.free[|p.free| - 1] else |p.ops|
  }

  function TakeNew(p: Pool): Pool {
    if |p.free| > 0 then Pool(p.ops, p.free[..|p.free| - 1]) else Pool(p.ops + [BlankOp], p.free)
  }

  function Put(p: Pool, id: nat, op: Operation): Pool
    requires id < |p.ops|
  {
    Pool(p.ops[id := op], p.free)
  }

  function Return(p: Pool, id: nat): Pool { Pool(p.ops, p.free + [id]) }

  /** A checkout with its fields filled in. */
  function CheckOut(p: Pool, op: Operation): Pool
    requires PoolOk(p)
  {
    Put(TakeNew(p), NewId(p), op)
  }

  /** A checkout hands out an id nobody holds and disturbs no other holder. */
  lemma CheckOutFrame(p: Pool, op: Operation)
    requires PoolOk(p)
    ensures var q := CheckOut(p, op);
            && PoolOk(q)
            && !Out(p, NewId(p)) && Out(q, NewId(p)) && q.ops[NewId(p)] == op
            && (forall id: nat :: id != NewId(p) ==> (Out(q, id) <==> Out(p, id)))
            && (forall id: nat :: Out(p, id) ==> q.ops[id] == p.ops[id])
  {
    var q := CheckOut(p, op);
    if |p.free| > 0 {
      var n := |p.free| - 1;
      assert p.free == q.free + [p.free[n]];
      assert p.free[n] !in q.free;
    }
  }

  /** Giving one entry back makes exactly that entry free. */
  lemma ReturnFrame(p: Pool, id: nat, op: Operation)
    requires PoolOk(p) && Out(p, id)
    requires op.clientFd == -1 && op.buf == None
    ensures var q := Return(Put(p, id, op), id);
            && PoolOk(q) && !Out(q, id)
            && (forall i: nat :: i != id ==> (Out(q, i) <==> Out(p, i)))
            && (forall i: nat :: Out(q, i) ==> q.ops[i] == p.ops[i])
  {
    var q := Return(Put(p, id, op), id);
    assert forall i: nat :: i in q.free <==> i in p.free || i == id;
  }

  // ------------------------------------------------------- most recently returned first

  /** A checkout right after a return hands out the entry returned, and leaves the pool as it was before. */
  lemma LastReturnedFirst(p: Pool, id: nat)
    ensures NewId(Return(p, id)) == id && TakeNew(Return(p, id)) == p
  {
    assert (p.free + [id])[..|p.free|] == p.free;
  }

  function ReturnAll(p: Pool, ids: seq<nat>): Pool {
    if |ids| == 0 then p else Return(ReturnAll(p, ids[..|ids| - 1]), ids[|ids| - 1])
  }

  /** The ids that `n` checkouts hand out. */
  function HandOut(p: Pool, n: nat): seq<nat>
    decreases n
  {
    if n == 0 then [] else [NewId(p)] + HandOut(TakeNew(p), n - 1)
  }

  /** The pool after them. */
  function AfterTaking(p: Pool, n: nat): Pool
    decreases n
  {
    if n == 0 then p else AfterTaking(TakeNew(p), n - 1)
  }

  /** Entries returned one after the other come back from as many checkouts, the last returned first. */
  lemma {:induction false} ReturnedInReverse(p: Pool, ids: seq<nat>)
    ensures var n, out := |ids|, HandOut(ReturnAll(p, ids), |ids|);
            |out| == n && forall i :: 0 <= i < n ==> out[i] == ids[n - 1 - i]
    ensures AfterTaking(ReturnAll(p, ids), |ids|) == p
    decreases |ids|
  {
    if |ids| > 0 {
      var init := ids[..|ids| - 1];
      ReturnedInReverse(p, init);
      LastReturnedFirst(ReturnAll(p, init), ids[|ids| - 1]);
    }
  }
}
