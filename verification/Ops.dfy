/** One asynchronous operation (op.h, op.c). */
module Ops {
  import opened Base

  datatype OpType = OpAccept | OpRead | OpWrite

  /** A `BufRef *`: the capacity of the slab that allocated it, and its allocation number there. */
  datatype Ptr = Ptr(cap: nat, idx: nat)

  datatype Operation = Operation(
    kind: OpType,
    clientId: nat,
    clientFd: int,
    bufCap: nat,
    bufLen: nat,
    buf: Option<Ptr>,
    processed: nat)

  /** An entry nobody has filled in. */
  const BlankOp := Operation(OpAccept, 0, -1, 0, 0, None, 0)

  /** What `free_op` leaves of an operation before it returns it. */
  function Cleared(op: Operation): Operation { op.(clientFd := -1, buf := None) }

  /** `size_t` subtraction. */
  function Sub64(a: nat, b: nat): nat {
    if a >= b then a - b else a + U64 - b % U64
  }

  /** It wraps around at 2^64. */
  lemma Sub64Wraps(a: nat, b: nat)
    requires a < U64 && b < U64
    ensures Sub64(a, b) == (a - b) % 0x1_0000_0000_0000_0000
  {
  }

  function Requested(op: Operation): nat { Sub64(op.bufLen, op.processed) }

  /** `op_is_incomplete`: fewer bytes acknowledged than the last submission asked for. */
  predicate IsIncomplete(op: Operation, acknowledged: nat) {
    acknowledged < Requested(op)
  }
}
