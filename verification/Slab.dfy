/** The reference-counted buffer allocator (slab.h, slab.c), proved to behave as `SlabModel.Slab`. */
module Slab {
  import opened Base
  import M = SlabModel

  /** A buffer with its reference count; the ghost constants say which slab allocated it, and when. */
  class BufRef {
    var ref: u64
    const buf: array<byte>
    ghost const cap: nat
    ghost const id: nat

    constructor (cap: nat, ghost id: nat)
      ensures this.cap == cap && this.id == id && fresh(buf)
      ensures ref == 0 && buf[..] == M.Zeros(cap)
    {
      ref := 0;
      buf := new byte[cap](_ => 0);
      this.cap := cap;
      this.id := id;
    }
  }

  class Slab {
    const bufCap: nat
    var len: nat
    var bufRefs: array<BufRef?>

    /** Every buffer ever allocated, in order. */
    ghost var All: seq<BufRef>
    /** The slab as a value. */
    ghost var V: M.Slab
    ghost var Repr: set<object>

    ghost predicate Owned(b: BufRef)
      reads this
    {
      b.id < |All| && All[b.id] == b
    }

    /** The `i`-th buffer is as the value says. */
    ghost predicate BufOk(i: nat)
      reads this, Repr
    {
      && i < |All| == |V.bufs| && All[i] in Repr && All[i].buf in Repr
      && V.bufs[i] == M.Buf(All[i].ref, All[i].buf[..])
    }

    ghost predicate Valid()
      reads this, Repr
    {
      ValidBut(-1)
    }

    /** Valid, except that the bytes of the `x`-th buffer have been written to. */
    ghost predicate ValidBut(x: int)
      reads this, Repr
    {
      && this in Repr && bufRefs in Repr
      && M.SlabOk(V) && V.bufCap == bufCap && |V.bufs| == |All|
      && (forall i :: 0 <= i < |All| ==>
            All[i] in Repr && All[i].buf in Repr && All[i].id == i && All[i].cap == bufCap)
      && (forall i {:trigger BufOk(i)} :: 0 <= i < |All| && i != x ==> BufOk(i))
      && (forall i, j {:trigger All[i].buf, All[j].buf} :: 0 <= i < j < |All| ==> All[i].buf != All[j].buf)
      && len == |V.free| <= bufRefs.Length && bufRefs.Length > 0
      && (forall i :: 0 <= i < len ==> V.free[i] < |All| && bufRefs[i] == All[V.free[i]])
    }

    /** `slab_init_cap`. */
    constructor (bufCap: nat, slabCap: nat)
      requires slabCap > 0
      ensures Valid() && fresh(Repr)
      ensures this.bufCap == bufCap && V == M.FreshSlab(bufCap, slabCap)
    {
      this.bufCap := bufCap;
      len := slabCap;
      bufRefs := new BufRef?[slabCap](_ => null);
      All := [];
      V := M.FreshSlab(bufCap, slabCap);
      new;
      Repr := {this, bufRefs};
      var i := 0;
      while i < slabCap
        invariant 0 <= i == |All| <= slabCap && this in Repr && bufRefs in Repr && fresh(Repr) && fresh(bufRefs)
        invariant len == slabCap == bufRefs.Length && V == M.FreshSlab(bufCap, slabCap)
        invariant forall j :: 0 <= j < i ==>
                    && All[j] in Repr && All[j].buf in Repr
                    && All[j].id == j && All[j].cap == bufCap
                    && All[j].ref == 0 && All[j].buf[..] == M.Zeros(bufCap)
                    && bufRefs[j] == All[j]
        invariant forall j, k :: 0 <= j < k < i ==> All[j].buf != All[k].buf
      {
        var b := new BufRef(bufCap, i);
        bufRefs[i] := b;
        All := All + [b];
        Repr := Repr + {b, b.buf};
        i := i + 1;
      }
      M.FreshSlabOk(bufCap, slabCap);
    }

    /** The most recently released buffer, or a new one, with `ref` references. */
    method Acquire(ref: u64) returns (b: BufRef)
      requires Valid()
      modifies this, All
      ensures Valid() && fresh(Repr - old(Repr))
      ensures V == M.Acquire(old(V), ref) && b.id == M.NextBuf(old(V)) && Owned(b) && b.cap == bufCap
      ensures All == old(All) || All == old(All) + [b]
      ensures if old(V.free) == [] then b.id == |old(V.bufs)| && V.free == [] else old(V.free) == V.free + [b.id]
    {
      if len > 0 {
        b := Reuse(ref);
      } else {
        b := Allocate(ref);
      }
    }

    method Reuse(ref: u64) returns (b: BufRef)
      requires Valid() && len > 0
      modifies this, All
      ensures Valid() && Repr == old(Repr) && All == old(All)
      ensures V == M.Acquire(old(V), ref) && b.id == M.NextBuf(old(V)) && Owned(b) && b.cap == bufCap
    {
      M.AcquireFrame(V, ref);
      b := bufRefs[len - 1];
      assert BufOk(b.id);
      len := len - 1;
      b.ref := ref;
      V := M.Acquire(V, ref);
      forall i | 0 <= i < |All| ensures BufOk(i) {
        assert old(BufOk(i));
      }
    }

    method Allocate(ref: u64) returns (b: BufRef)
      requires Valid() && len == 0
      modifies this
      ensures Valid() && fresh(Repr - old(Repr)) && All == old(All) + [b]
      ensures V == M.Acquire(old(V), ref) && b.id == M.NextBuf(old(V)) && Owned(b) && b.cap == bufCap
    {
      M.AcquireFrame(V, ref);
      b := new BufRef(bufCap, |All|);
      b.ref := ref;
      All := All + [b];
      Repr := Repr + {b, b.buf};
      V := M.Acquire(V, ref);
      forall i | 0 <= i < |All| ensures BufOk(i) {
        assert i < old(|All|) ==> old(BufOk(i));
      }
    }

    /** Doubles the free-list array if it is full; the list and its order stay. */
    method EnsureRoom()
      requires Valid()
      modifies this
      ensures Valid() && fresh(Repr - old(Repr)) && All == old(All) && V == old(V)
      ensures bufRefs == old(bufRefs) || fresh(bufRefs)
      ensures len < bufRefs.Length
    {
      if len == bufRefs.Length {
        var bigger := new BufRef?[2 * bufRefs.Length](_ => null);
        forall i | 0 <= i < len { bigger[i] := bufRefs[i]; }
        bufRefs := bigger;
        Repr := Repr + {bigger};
        forall i | 0 <= i < |All| ensures BufOk(i) {
          assert old(BufOk(i));
        }
      }
    }

    /** One reference less, wrapping around at zero; the one that leaves none puts the buffer back on the free list. */
    method Release(b: BufRef)
      requires Valid() && Owned(b) && M.Taken(V, b.id)
      modifies this, bufRefs, b
      ensures Valid() && fresh(Repr - old(Repr)) && All == old(All)
      ensures V == M.Release(old(V), b.id)
      ensures V.free == if old(b.ref) == 1 then old(V.free) + [b.id] else old(V.free)
    {
      assert BufOk(b.id);
      if b.ref == 1 { EnsureRoom(); }
      Lower(b);
    }

    /** The count lowered, and the buffer put back if it is the last reference, for which there is room. */
    method Lower(b: BufRef)
      requires Valid() && Owned(b) && M.Taken(V, b.id) && (b.ref == 1 ==> len < bufRefs.Length)
      modifies this, bufRefs, b
      ensures Valid() && Repr == old(Repr) && All == old(All)
      ensures V == M.Release(old(V), b.id)
    {
      assert BufOk(b.id);
      M.ReleaseFrame(V, b.id);
      if b.ref == 1 {
        bufRefs[len] := b;
        len := len + 1;
      }
      b.ref := M.OneLess(b.ref);
      V := M.Release(V, b.id);
      forall i | 0 <= i < |All| ensures BufOk(i) {
        assert old(BufOk(i));
      }
    }

    /** Bytes written through a buffer pointer. */
    method Store(b: BufRef, off: nat, bytes: seq<byte>)
      requires Valid() && Owned(b) && off + |bytes| <= bufCap
      modifies this`V, b.buf
      ensures Valid() && Repr == old(Repr) && All == old(All) && bufRefs == old(bufRefs)
      ensures |V.bufs| == |All| && V == M.Write(old(V), b.id, off, bytes)
    {
      assert BufOk(b.id);
      M.WriteFrame(V, b.id, off, bytes);
      forall i | 0 <= i < |bytes| { b.buf[off + i] := bytes[i]; }
      V := M.Write(V, b.id, off, bytes);
      assert b.buf[..] == old(b.buf[..off]) + bytes + old(b.buf[off + |bytes|..]);
      forall i | 0 <= i < |All| ensures BufOk(i) {
        assert old(BufOk(i));
      }
    }

    /** Bytes that have been written to the front of a buffer become part of the value. */
    ghost method Written(b: BufRef, bytes: seq<byte>)
      requires ValidBut(b.id) && Owned(b) && |bytes| <= bufCap
      requires b.ref == V.bufs[b.id].ref && b.buf[..] == bytes + V.bufs[b.id].data[|bytes|..]
      modifies this`V
      ensures Valid() && |V.bufs| == |All| && V == M.Write(old(V), b.id, 0, bytes)
    {
      M.WriteFrame(V, b.id, 0, bytes);
      V := M.Write(V, b.id, 0, bytes);
      forall i | 0 <= i < |All| ensures BufOk(i) {
        assert i != b.id ==> old(BufOk(i));
      }
    }
  }
}
