/**
 The operations and buffers of the server (the memory half of server.c): the pool and the two slabs,
 with every operation's buffer pointer into the slab that allocated it.
 */
module Memory {
  import opened Base
  import O = Ops
  import P = PoolModel
  import S = SlabModel
  import opened Slab
  import opened OpPool
  import Protocol
  import M = ServerState

  /** The buffer pointer of an operation is NULL or points to a buffer of one of the slabs. */
  ghost predicate Owns(op: Operation, slab64: Slab, slab2k: Slab)
    reads op, slab64, slab2k
  {
    op.bufRef == null || slab64.Owned(op.bufRef) || slab2k.Owned(op.bufRef)
  }

  ghost predicate Owning(pool: OpPool, slab64: Slab, slab2k: Slab)
    reads pool, pool.All, slab64, slab2k
  {
    forall i {:trigger Owns(pool.All[i], slab64, slab2k)} :: 0 <= i < |pool.All| ==> Owns(pool.All[i], slab64, slab2k)
  }

  ghost predicate Apart(pool: OpPool, slab64: Slab, slab2k: Slab)
    reads pool, slab64, slab2k
  {
    pool.Repr !! slab64.Repr && pool.Repr !! slab2k.Repr && slab64.Repr !! slab2k.Repr
  }

  ghost predicate Ok(pool: OpPool, slab64: Slab, slab2k: Slab)
    reads pool, pool.Repr, pool.All, slab64, slab64.Repr, slab2k, slab2k.Repr
  {
    && Apart(pool, slab64, slab2k)
    && pool.Valid() && slab64.Valid() && slab2k.Valid()
    && slab64.bufCap == M.SMALL && slab2k.bufCap == M.LARGE
    && Owning(pool, slab64, slab2k)
  }

  ghost function V(slab64: Slab, slab2k: Slab): M.Mem
    reads slab64, slab2k
  {
    M.Mem(slab64.V, slab2k.V)
  }

  /** The buffer back to the slab its capacity selects. */
  method ReleaseBuf(pool: OpPool, slab64: Slab, slab2k: Slab, b: BufRef, cap: nat)
    requires Ok(pool, slab64, slab2k)
    requires if cap > M.SMALL then slab2k.Owned(b) && S.Taken(slab2k.V, b.id)
             else slab64.Owned(b) && S.Taken(slab64.V, b.id)
    modifies slab64.Repr, slab2k.Repr
    ensures Ok(pool, slab64, slab2k) && fresh(slab64.Repr - old(slab64.Repr)) && fresh(slab2k.Repr - old(slab2k.Repr))
    ensures V(slab64, slab2k) == 
              M.WithSlab(old(V(slab64, slab2k)), cap, S.Release(M.SlabFor(old(V(slab64, slab2k)), cap), b.id))
  {
    if cap > M.SMALL {
      slab2k.Release(b);
    } else {
      slab64.Release(b);
    }
    forall i | 0 <= i < |pool.All| ensures Owns(pool.All[i], slab64, slab2k) {
      assert old(Owns(pool.All[i], slab64, slab2k));
    }
  }

  /** The pool contract, then `op_pool_return`. */
  method ReturnOp(pool: OpPool, slab64: Slab, slab2k: Slab, op: Operation)
    requires Ok(pool, slab64, slab2k) && pool.Owned(op) && P.Out(pool.V, op.poolId)
    modifies pool.Repr
    ensures Ok(pool, slab64, slab2k) && fresh(pool.Repr - old(pool.Repr))
    ensures pool.V == P.Return(P.Put(old(pool.V), op.poolId, O.Cleared(old(pool.V).ops[op.poolId])), op.poolId)
  {
    assert pool.OpOk(op.poolId);
    pool.Assign(op, op.kind, op.clientId, -1, op.bufCap, op.bufLen, null, op.processed);
    pool.Return(op);
    forall i | 0 <= i < |pool.All| ensures Owns(pool.All[i], slab64, slab2k) {
      assert old(Owns(pool.All[i], slab64, slab2k));
    }
  }

  /** The operation holds a buffer, and `buf_cap` selects the slab it came from. */
  predicate Releasable(pool: P.Pool, mem: M.Mem, id: nat) {
    && P.Out(pool, id) && pool.ops[id].buf.Some?
    && pool.ops[id].buf.value.cap == M.SlabFor(mem, pool.ops[id].bufCap).bufCap
    && S.Taken(M.SlabFor(mem, pool.ops[id].bufCap), pool.ops[id].buf.value.idx)
  }

  /** The pointer of an operation, and the slab it points into. */
  lemma BufOf(pool: OpPool, slab64: Slab, slab2k: Slab, op: Operation)
    requires Ok(pool, slab64, slab2k) && pool.Owned(op) && Releasable(pool.V, V(slab64, slab2k), op.poolId)
    ensures op.Value() == pool.V.ops[op.poolId] && op.bufRef != null
    ensures if op.bufCap > M.SMALL then slab2k.Owned(op.bufRef) && S.Taken(slab2k.V, op.bufRef.id)
            else slab64.Owned(op.bufRef) && S.Taken(slab64.V, op.bufRef.id)
  {
    assert pool.OpOk(op.poolId) && Owns(pool.All[op.poolId], slab64, slab2k);
  }

  /** `free_op`: the buffer back to the slab its capacity selects, the operation back to the pool. */
  method FreeOp(pool: OpPool, slab64: Slab, slab2k: Slab, op: Operation)
    requires Ok(pool, slab64, slab2k) && pool.Owned(op) && Releasable(pool.V, V(slab64, slab2k), op.poolId)
    modifies pool.Repr, slab64.Repr, slab2k.Repr
    ensures Ok(pool, slab64, slab2k)
    ensures fresh(pool.Repr - old(pool.Repr)) && fresh(slab64.Repr - old(slab64.Repr))
            && fresh(slab2k.Repr - old(slab2k.Repr))
    ensures pool.V == P.Return(P.Put(old(pool.V), op.poolId, O.Cleared(old(pool.V).ops[op.poolId])), op.poolId)
    ensures var was := old(pool.V).ops[op.poolId];
            V(slab64, slab2k) == M.WithSlab(old(V(slab64, slab2k)), was.bufCap,
                                            S.Release(M.SlabFor(old(V(slab64, slab2k)), was.bufCap), was.buf.value.idx))
  {
    BufOf(pool, slab64, slab2k, op);
    ReleaseBuf(pool, slab64, slab2k, op.bufRef, op.bufCap);
    ReturnOp(pool, slab64, slab2k, op);
  }

  /** `op_pool_new_entry`. */
  method NewOp(pool: OpPool, slab64: Slab, slab2k: Slab) returns (op: Operation)
    requires Ok(pool, slab64, slab2k)
    modifies pool.Repr
    ensures Ok(pool, slab64, slab2k) && fresh(pool.Repr - old(pool.Repr))
    ensures old(pool.All) <= pool.All
    ensures pool.V == P.TakeNew(old(pool.V)) && op.poolId == P.NewId(old(pool.V)) && pool.Owned(op)
  {
    op := pool.NewEntry();
    forall i | 0 <= i < |pool.All| ensures Owns(pool.All[i], slab64, slab2k) {
      assert i < old(|pool.All|) ==> old(Owns(pool.All[i], slab64, slab2k));
    }
  }

  /** The fields of an operation in use. */
  method SetOp(pool: OpPool, slab64: Slab, slab2k: Slab, op: Operation,
               kind: O.OpType, clientId: nat, clientFd: int, bufCap: nat, bufLen: nat, bufRef: BufRef, processed: nat)
    requires Ok(pool, slab64, slab2k) && pool.Owned(op) && P.Out(pool.V, op.poolId)
    requires slab64.Owned(bufRef) || slab2k.Owned(bufRef)
    modifies pool.Repr
    ensures Ok(pool, slab64, slab2k) && fresh(pool.Repr - old(pool.Repr)) && pool.Owned(op) && op.bufRef == bufRef
    ensures old(pool.All) <= pool.All
    ensures pool.V == P.Put(old(pool.V), op.poolId,
                            O.Operation(kind, clientId, clientFd, bufCap, bufLen,
                                        Some(O.Ptr(bufRef.cap, bufRef.id)), processed))
  {
    pool.Assign(op, kind, clientId, clientFd, bufCap, bufLen, bufRef, processed);
    forall i | 0 <= i < |pool.All| ensures Owns(pool.All[i], slab64, slab2k) {
      assert old(Owns(pool.All[i], slab64, slab2k));
    }
  }

  /** `acquire_large_buf`, the buffer only. */
  method AcquireLarge(pool: OpPool, slab64: Slab, slab2k: Slab) returns (b: BufRef)
    requires Ok(pool, slab64, slab2k)
    modifies slab2k.Repr
    ensures Ok(pool, slab64, slab2k) && fresh(slab2k.Repr - old(slab2k.Repr))
    ensures slab2k.V == S.Acquire(old(slab2k.V), 1)
    ensures slab2k.Owned(b) && b.cap == M.LARGE && b.id == S.NextBuf(old(slab2k.V))
  {
    b := slab2k.Acquire(1);
    forall i | 0 <= i < |pool.All| ensures Owns(pool.All[i], slab64, slab2k) {
      assert old(Owns(pool.All[i], slab64, slab2k));
    }
  }

  /** `acquire_small_buf`, the buffer only. */
  method AcquireSmall(pool: OpPool, slab64: Slab, slab2k: Slab) returns (b: BufRef)
    requires Ok(pool, slab64, slab2k)
    modifies slab64.Repr
    ensures Ok(pool, slab64, slab2k) && fresh(slab64.Repr - old(slab64.Repr))
    ensures slab64.V == S.Acquire(old(slab64.V), 1)
    ensures slab64.Owned(b) && b.buf.Length == b.cap == M.SMALL && b.id == S.NextBuf(old(slab64.V))
  {
    b := slab64.Acquire(1);
    assert slab64.BufOk(b.id);
    forall i | 0 <= i < |pool.All| ensures Owns(pool.All[i], slab64, slab2k) {
      assert old(Owns(pool.All[i], slab64, slab2k));
    }
  }

  /** `ser_server_error` or `ser_set_username_response` on the bytes of a small buffer. */
  method Serialize(pool: OpPool, slab64: Slab, slab2k: Slab, b: BufRef, seqid: u64, error: Option<byte>)
    returns (n: nat)
    requires Ok(pool, slab64, slab2k) && slab64.Owned(b) && b.buf.Length == M.SMALL
    modifies slab64`V, b.buf
    ensures Ok(pool, slab64, slab2k) && slab64.Owned(b)
    ensures n == |M.AnswerBytes(seqid, error)|
    ensures b.id < |old(slab64.V).bufs| && |old(slab64.V).bufs[b.id].data| == M.SMALL
    ensures slab64.V == S.Write(old(slab64.V), b.id, 0, M.AnswerBytes(seqid, error))
  {
    assert slab64.BufOk(b.id);
    n := WriteAnswer(b.buf, seqid, error);
    forall i | 0 <= i < |slab64.All| && i != b.id ensures slab64.BufOk(i) {
      assert old(slab64.BufOk(i));
    }
    slab64.Written(b, M.AnswerBytes(seqid, error));
    forall i | 0 <= i < |pool.All| ensures Owns(pool.All[i], slab64, slab2k) {
      assert old(Owns(pool.All[i], slab64, slab2k));
    }
  }

  /** The serializer for an error code or for success. */
  method WriteAnswer(buf: array<byte>, seqid: u64, error: Option<byte>) returns (n: nat)
    requires buf.Length == M.SMALL
    modifies buf
    ensures n == |M.AnswerBytes(seqid, error)|
    ensures buf[..] == M.AnswerBytes(seqid, error) + old(buf[|M.AnswerBytes(seqid, error)|..])
  {
    match error {
      case Some(code) => n := Protocol.SerServerError(buf, seqid, code);
      case None => n := Protocol.SerSetUsernameResponse(buf, seqid);
    }
  }

  method StoreLarge(pool: OpPool, slab64: Slab, slab2k: Slab, b: BufRef, off: nat, bytes: seq<byte>)
    requires Ok(pool, slab64, slab2k) && slab2k.Owned(b) && off + |bytes| <= M.LARGE
    modifies slab2k.Repr
    ensures Ok(pool, slab64, slab2k) && fresh(slab2k.Repr - old(slab2k.Repr)) && slab2k.Owned(b)
    ensures b.id < |old(slab2k.V).bufs| && |old(slab2k.V).bufs[b.id].data| == M.LARGE
    ensures slab2k.V == S.Write(old(slab2k.V), b.id, off, bytes)
  {
    slab2k.Store(b, off, bytes);
    forall i | 0 <= i < |pool.All| ensures Owns(pool.All[i], slab64, slab2k) {
      assert old(Owns(pool.All[i], slab64, slab2k));
    }
  }

  /** A new operation with a large buffer, as `add_accept` fills it in. */
  method CheckOutLarge(pool: OpPool, slab64: Slab, slab2k: Slab, clientId: nat) returns (op: Operation)
    requires Ok(pool, slab64, slab2k)
    modifies pool.Repr, slab2k.Repr
    ensures Ok(pool, slab64, slab2k) && fresh(pool.Repr - old(pool.Repr)) && fresh(slab2k.Repr - old(slab2k.Repr))
    ensures old(pool.All) <= pool.All
    ensures op.poolId == P.NewId(old(pool.V)) && slab2k.V == S.Acquire(old(slab2k.V), 1)
    ensures pool.V == P.CheckOut(old(pool.V),
                                 O.Operation(O.OpAccept, clientId, -1, M.LARGE, 0,
                                             Some(O.Ptr(M.LARGE, S.NextBuf(old(slab2k.V)))), 0))
  {
    P.CheckOutFrame(pool.V, O.BlankOp);
    op := NewOp(pool, slab64, slab2k);
    var b := AcquireLarge(pool, slab64, slab2k);
    SetOp(pool, slab64, slab2k, op, O.OpAccept, clientId, -1, M.LARGE, 0, b, 0);
  }

  /** A small buffer that starts with the answer. */
  method FillSmall(pool: OpPool, slab64: Slab, slab2k: Slab, seqid: u64, error: Option<byte>)
    returns (b: BufRef, n: nat)
    requires Ok(pool, slab64, slab2k)
    modifies slab64.Repr
    ensures Ok(pool, slab64, slab2k) && fresh(slab64.Repr - old(slab64.Repr))
    ensures slab64.Owned(b) && b.cap == M.SMALL && b.id == S.NextBuf(old(slab64.V))
    ensures n == |M.AnswerBytes(seqid, error)|
    ensures var t := S.Acquire(old(slab64.V), 1);
            b.id < |t.bufs| && |t.bufs[b.id].data| == M.SMALL
            && slab64.V == S.Write(t, b.id, 0, M.AnswerBytes(seqid, error))
  {
    b := AcquireSmall(pool, slab64, slab2k);
    n := Serialize(pool, slab64, slab2k, b, seqid, error);
  }

  /** A new operation with a small buffer that holds the answer, as the two `send_` functions fill it in. */
  method CheckOutSmall(pool: OpPool, slab64: Slab, slab2k: Slab, clientFd: int, clientId: nat, seqid: u64,
                       error: Option<byte>)
    returns (op: Operation)
    requires Ok(pool, slab64, slab2k)
    modifies pool.Repr, slab64.Repr
    ensures Ok(pool, slab64, slab2k) && fresh(pool.Repr - old(pool.Repr)) && fresh(slab64.Repr - old(slab64.Repr))
    ensures old(pool.All) <= pool.All
    ensures op.poolId == P.NewId(old(pool.V))
    ensures pool.V == P.CheckOut(old(pool.V),
                                 O.Operation(O.OpWrite, clientId, clientFd, M.SMALL, |M.AnswerBytes(seqid, error)|,
                                             Some(O.Ptr(M.SMALL, S.NextBuf(old(slab64.V)))), 0))
    ensures var t, b := S.Acquire(old(slab64.V), 1), S.NextBuf(old(slab64.V));
            b < |t.bufs| && |t.bufs[b].data| == M.SMALL && slab64.V == S.Write(t, b, 0, M.AnswerBytes(seqid, error))
  {
    P.CheckOutFrame(pool.V, O.BlankOp);
    op := NewOp(pool, slab64, slab2k);
    var b, n := FillSmall(pool, slab64, slab2k, seqid, error);
    SetOp(pool, slab64, slab2k, op, O.OpWrite, clientId, clientFd, M.SMALL, n, b, 0);
  }
}
