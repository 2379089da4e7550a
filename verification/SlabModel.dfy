/** A slab as a value: every buffer it ever allocated, and the LIFO list of released ones (slab.h). */
module SlabModel {
  import opened Base

  datatype Buf = Buf(ref: u64, data: seq<byte>)

  datatype Slab = Slab(bufCap: nat, bufs: seq<Buf>, free: seq<nat>)

  /** The buffer `b` has been handed out and has not come back. */
  predicate Taken(s: Slab, b: nat) { b < |s.bufs| && b !in s.free }

  /** It has references left. */
  predicate Held(s: Slab, b: nat) { b < |s.bufs| && s.bufs[b].ref > 0 }

  /** The free list holds buffers without references, each once. */
  ghost predicate SlabOk(s: Slab) {
    && NoDup(s.free)
    && (forall i :: 0 <= i < |s.free| ==> s.free[i] < |s.bufs| && s.bufs[s.free[i]].ref == 0)
    && (forall b: nat :: b < |s.bufs| ==> |s.bufs[b].data| == s.bufCap)
  }

  /** Every buffer without references is on the free list: none was handed out with a count of zero. */
  ghost predicate NoneLost(s: Slab) {
    forall b: nat :: b < |s.bufs| && s.bufs[b].ref == 0 ==> b in s.free
  }

  lemma HeldTaken(s: Slab, b: nat)
    requires SlabOk(s) && Held(s, b)
    ensures Taken(s, b)
  {
  }

  function Zeros(n: nat): seq<byte> { seq(n, _ => 0) }

  /** `slab_init_cap`: `n` buffers, all free. */
  function FreshSlab(bufCap: nat, n: nat): Slab {
    Slab(bufCap, seq(n, i => Buf(0, Zeros(bufCap))), seq(n, i => i))
  }

  lemma FreshSlabOk(bufCap: nat, n: nat)
    ensures SlabOk(FreshSlab(bufCap, n)) && NoneLost(FreshSlab(bufCap, n))
  {
    var s := FreshSlab(bufCap, n);
    forall b: nat | b < n ensures b in s.free {
      assert s.free[b] == b;
    }
    assert forall b: nat :: b < n ==> s.bufs[b] == Buf(0, Zeros(bufCap));
  }

  /** The buffer `slab_acquire` hands out next: the most recently released, else a new one. */
  function NextBuf(s: Slab): nat {
    if |s.free| > 0 then s.free[|s.free| - 1] else |s.bufs|
  }

  function Acquire(s: Slab, ref: u64): Slab
    requires SlabOk(s)
  {
    if |s.free| > 0 then
      var b := s.free[|s.free| - 1];
      Slab(s.bufCap, s.bufs[b := s.bufs[b].(ref := ref)], s.free[..|s.free| - 1])
    else
      Slab(s.bufCap, s.bufs + [Buf(ref, Zeros(s.bufCap))], s.free)
  }

  /** The count after one release, in `size_t` arithmetic. */
  function OneLess(ref: u64): u64 { if ref == 0 then U64 - 1 else ref - 1 }

  function Release(s: Slab, b: nat): Slab
    requires Taken(s, b)
  {
    var ref := OneLess(s.bufs[b].ref);
    Slab(s.bufCap, s.bufs[b := s.bufs[b].(ref := ref)], if ref == 0 then s.free + [b] else s.free)
  }

  /** Bytes stored at `off` in buffer `b`. */
  function Write(s: Slab, b: nat, off: nat, bytes: seq<byte>): Slab
    requires b < |s.bufs| && off + |bytes| <= |s.bufs[b].data|
  {
    var d := s.bufs[b].data;
    Slab(s.bufCap, s.bufs[b := s.bufs[b].(data := d[..off] + bytes + d[off + |bytes|..])], s.free)
  }

  /** Acquiring hands out a buffer nobody has, with the full count, and touches no other. */
  lemma AcquireFrame(s: Slab, ref: u64)
    requires SlabOk(s)
    ensures var t, b := Acquire(s, ref), NextBuf(s);
            && SlabOk(t) && !Taken(s, b) && !Held(s, b) && Taken(t, b) && t.bufs[b].ref == ref
            && |t.bufs| == (if b < |s.bufs| then |s.bufs| else |s.bufs| + 1)
            && (forall c: nat :: c < |s.bufs| && c != b ==> t.bufs[c] == s.bufs[c])
            && (forall c: nat :: c != b ==> (Taken(t, c) <==> Taken(s, c)))
            && (ref > 0 && NoneLost(s) ==> NoneLost(t))
  {
    var t := Acquire(s, ref);
    if |s.free| > 0 {
      var n := |s.free| - 1;
      assert s.free == t.free + [s.free[n]];
      assert s.free[n] !in t.free;
    }
  }

  /** The release that takes the count to zero, and only that, puts a buffer back; no other buffer is touched. */
  lemma ReleaseFrame(s: Slab, b: nat)
    requires SlabOk(s) && Taken(s, b)
    ensures var t := Release(s, b);
            && SlabOk(t)
            && |t.bufs| == |s.bufs|
            && t.bufs[b].ref == OneLess(s.bufs[b].ref)
            && (Taken(t, b) <==> s.bufs[b].ref != 1)
            && (b in t.free <==> s.bufs[b].ref == 1)
            && (forall c: nat :: c < |s.bufs| && c != b ==> t.bufs[c] == s.bufs[c])
            && (forall c: nat :: c != b ==> (Taken(t, c) <==> Taken(s, c)))
            && (NoneLost(s) ==> NoneLost(t))
  {
    var t := Release(s, b);
    assert forall c: nat :: c in t.free <==> c in s.free || (c == b && s.bufs[b].ref == 1);
  }

  lemma WriteFrame(s: Slab, b: nat, off: nat, bytes: seq<byte>)
    requires SlabOk(s) && b < |s.bufs| && off + |bytes| <= |s.bufs[b].data|
    ensures var t := Write(s, b, off, bytes);
            && SlabOk(t) && (NoneLost(s) ==> NoneLost(t))
            && |t.bufs| == |s.bufs|
            && (forall c: nat :: Taken(t, c) <==> Taken(s, c))
            && (forall c: nat :: c < |s.bufs| ==> t.bufs[c].ref == s.bufs[c].ref)
            && (forall c: nat :: c < |s.bufs| && c != b ==> t.bufs[c] == s.bufs[c])
            && t.bufs[b].data[off..off + |bytes|] == bytes
  {
  }

  /** An acquire right after the last release of a buffer hands that one out and leaves the free list as it was. */
  lemma LastReleasedFirst(s: Slab, b: nat, ref: u64)
    requires SlabOk(s) && Taken(s, b) && s.bufs[b].ref == 1
    ensures var t := Release(s, b);
            SlabOk(t) && NextBuf(t) == b && Acquire(t, ref).free == s.free
            && Acquire(t, ref).bufs == s.bufs[b := Buf(ref, s.bufs[b].data)]
  {
    ReleaseFrame(s, b);
    assert (s.free + [b])[..|s.free|] == s.free;
  }
}
