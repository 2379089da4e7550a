/** The operation pool (op_pool.h, op_pool.c), proved to behave as `PoolModel.Pool`. */
module OpPool {
  import opened Base
  import O = Ops
  import M = PoolModel
  import Slab

  /** `struct op`. `pool_id` is assigned once, by the pool. */
  class Operation {
    const poolId: nat
    var kind: O.OpType
    var clientId: nat
    var clientFd: int
    var bufCap: nat
    var bufLen: nat
    var bufRef: Slab.BufRef?
    var processed: nat

    constructor (poolId: nat)
      ensures this.poolId == poolId && Value() == O.BlankOp && bufRef == null
    {
      this.poolId := poolId;
      kind, clientId, clientFd := O.OpAccept, 0, -1;
      bufCap, bufLen, bufRef, processed := 0, 0, null, 0;
    }

    ghost function Value(): O.Operation
      reads this
    {
      O.Operation(kind, clientId, clientFd, bufCap, bufLen,
                  if bufRef == null then None else Some(O.Ptr(bufRef.cap, bufRef.id)), processed)
    }

    /** Assigns every field but `pool_id`. */
    method Set(kind: O.OpType, clientId: nat, clientFd: int, bufCap: nat, bufLen: nat,
               bufRef: Slab.BufRef?, processed: nat)
      modifies this
      ensures this.kind == kind && this.clientId == clientId && this.clientFd == clientFd
      ensures this.bufCap == bufCap && this.bufLen == bufLen && this.bufRef == bufRef && this.processed == processed
    {
      this.kind, this.clientId, this.clientFd := kind, clientId, clientFd;
      this.bufCap, this.bufLen, this.bufRef, this.processed := bufCap, bufLen, bufRef, processed;
    }
  }

  class OpPool {
    var opsNextIdx: nat
    var ops: array<Operation?>
    var freeLen: nat
    var freeOpsIdx: array<nat>

    /** Every entry ever allocated, by its id. */
    ghost var All: seq<Operation>
    /** The pool as a value. */
    ghost var V: M.Pool
    ghost var Repr: set<object>

    ghost predicate Owned(op: Operation)
      reads this
    {
      op.poolId < |All| && All[op.poolId] == op
    }

    /** The `i`-th entry is as the value says. */
    ghost predicate OpOk(i: nat)
      reads this, Repr
    {
      i < |All| == |V.ops| && All[i] in Repr && All[i].Value() == V.ops[i]
    }

    ghost predicate Valid()
      reads this, Repr
    {
      && this in Repr && ops in Repr && freeOpsIdx in Repr
      && 0 < ops.Length && 0 < freeOpsIdx.Length
      && M.PoolOk(V)
      && opsNextIdx == |V.ops| == |All| <= ops.Length
      && (forall i :: 0 <= i < |All| ==> ops[i] == All[i])
      && (forall i :: 0 <= i < |All| ==> All[i] in Repr && All[i].poolId == i)
      && (forall i {:trigger OpOk(i)} :: 0 <= i < |All| ==> OpOk(i))
      && freeLen == |V.free| <= freeOpsIdx.Length
      && (forall i :: 0 <= i < freeLen ==> freeOpsIdx[i] == V.free[i])
    }

    /** `op_pool_init_with_cap`. */
    constructor (opsCap: nat, freeCap: nat)
      requires opsCap > 0 && freeCap > 0
      ensures Valid() && fresh(Repr) && V == M.Pool([], []) && All == []
    {
      opsNextIdx, freeLen := 0, 0;
      ops := new Operation?[opsCap](_ => null);
      freeOpsIdx := new nat[freeCap](_ => 0);
      V, All := M.Pool([], []), [];
      new;
      Repr := {this, ops, freeOpsIdx};
    }

    /** `op_pool_get`; its assert is the precondition. */
    method Get(poolId: nat) returns (op: Operation)
      requires Valid() && poolId < opsNextIdx
      ensures op.poolId == poolId && Owned(op) && op in Repr && op.Value() == V.ops[poolId]
    {
      op := ops[poolId];
      assert OpOk(poolId);
    }

    /** Doubles the array of entries if it is full. */
    method EnsureOpsRoom()
      requires Valid()
      modifies this
      ensures Valid() && fresh(Repr - old(Repr)) && V == old(V) && All == old(All)
      ensures ops == old(ops) || fresh(ops)
      ensures opsNextIdx < ops.Length
    {
      if opsNextIdx == ops.Length {
        var bigger := new Operation?[2 * ops.Length](_ => null);
        forall i | 0 <= i < opsNextIdx { bigger[i] := ops[i]; }
        ops := bigger;
        Repr := Repr + {bigger};
        forall i | 0 <= i < |All| ensures OpOk(i) {
          assert old(OpOk(i));
        }
      }
    }

    /** Doubles the free list if it is full; its order stays. */
    method EnsureFreeRoom()
      requires Valid()
      modifies this
      ensures Valid() && fresh(Repr - old(Repr)) && V == old(V) && All == old(All) && ops == old(ops)
      ensures freeOpsIdx == old(freeOpsIdx) || fresh(freeOpsIdx)
      ensures freeLen < freeOpsIdx.Length
    {
      if freeLen == freeOpsIdx.Length {
        var bigger := new nat[2 * freeOpsIdx.Length](_ => 0);
        forall i | 0 <= i < freeLen { bigger[i] := freeOpsIdx[i]; }
        freeOpsIdx := bigger;
        Repr := Repr + {bigger};
        forall i | 0 <= i < |All| ensures OpOk(i) {
          assert old(OpOk(i));
        }
      }
    }

    /** Appends a newly allocated entry. */
    method Allocate() returns (op: Operation)
      requires Valid() && V.free == []
      modifies this, ops
      ensures Valid() && fresh(Repr - old(Repr))
      ensures V == M.TakeNew(old(V)) && op.poolId == M.NewId(old(V)) && Owned(op) && op in Repr && fresh(op)
      ensures All == old(All) + [op]
    {
      EnsureOpsRoom();
      op := new Operation(opsNextIdx);
      ops[opsNextIdx] := op;
      Repr, All := Repr + {op}, All + [op];
      opsNextIdx := opsNextIdx + 1;
      V := M.TakeNew(V);
      forall i | 0 <= i < |All| ensures OpOk(i) {
        assert i < old(|All|) ==> old(OpOk(i));
      }
    }

    /** `op_pool_new_entry`: the most recently returned entry, else a new one; meets the pool contract. */
    method NewEntry() returns (op: Operation)
      requires Valid()
      modifies this, ops
      ensures Valid() && fresh(Repr - old(Repr))
      ensures V == M.TakeNew(old(V)) && op.poolId == M.NewId(old(V)) && Owned(op) && op in Repr
      ensures op.clientFd == -1 && op.bufRef == null && (All == old(All) || All == old(All) + [op])
      ensures if old(V.free) == [] then op.poolId == |old(V.ops)| && V.free == []
              else V.ops == old(V.ops) && old(V.free) == V.free + [op.poolId]
    {
      if freeLen != 0 {
        var id := freeOpsIdx[freeLen - 1];
        assert OpOk(id);
        freeLen := freeLen - 1;
        op := ops[id];
        V := M.TakeNew(V);
        forall i | 0 <= i < |All| ensures OpOk(i) {
          assert old(OpOk(i));
        }
      } else {
        op := Allocate();
        assert OpOk(op.poolId);
      }
    }

    /** `op_pool_return`; its two asserts and "not already free" are the precondition. */
    method Return(op: Operation)
      requires Valid() && Owned(op) && op.bufRef == null && op.clientFd == -1 && op.poolId !in V.free
      modifies this, freeOpsIdx
      ensures Valid() && fresh(Repr - old(Repr))
      ensures V == M.Return(old(V), op.poolId) && All == old(All)
      ensures V.ops == old(V.ops) && V.free == old(V.free) + [op.poolId]
    {
      assert OpOk(op.poolId);
      EnsureFreeRoom();
      freeOpsIdx[freeLen] := op.poolId;
      freeLen := freeLen + 1;
      V := M.Return(V, op.poolId);
      forall i | 0 <= i < |All| ensures OpOk(i) {
        assert old(OpOk(i));
      }
    }

    /** The fields of a checked-out entry, assigned by its user. */
    method Assign(op: Operation, kind: O.OpType, clientId: nat, clientFd: int, bufCap: nat, bufLen: nat,
                  bufRef: Slab.BufRef?, processed: nat)
      requires Valid() && Owned(op) && op in Repr && M.Out(V, op.poolId)
      modifies this`V, op
      ensures Valid() && Repr == old(Repr) && All == old(All) && op.bufRef == bufRef
      ensures op.poolId < |old(V).ops| && V == M.Put(old(V), op.poolId, op.Value())
      ensures op.Value() == O.Operation(kind, clientId, clientFd, bufCap, bufLen,
                                        if bufRef == null then None else Some(O.Ptr(bufRef.cap, bufRef.id)), processed)
    {
      op.Set(kind, clientId, clientFd, bufCap, bufLen, bufRef, processed);
      V := M.Put(V, op.poolId, op.Value());
      forall i | 0 <= i < |All| ensures OpOk(i) {
        assert old(OpOk(i));
      }
    }
  }
}
