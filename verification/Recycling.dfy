/**
 Recycling is optimal: over every run, a structure that allocates only when nothing is spare has
 allocated exactly as much as was ever in use at once. Stated once for an abstract shelf and then for
 the operation pool, the slabs and the nodes of the client table.
 */
module Recycling {
  import opened Base
  import O = Ops
  import P = PoolModel
  import S = SlabModel

  /** What is in use, and how many are spare. */
  datatype Shelf = Shelf(out: set<nat>, spare: nat)

  function Total(s: Shelf): nat { |s.out| + s.spare }

  /** One more in use: a spare one if there is any, else a new one. */
  ghost predicate Took(s: Shelf, t: Shelf, x: nat) {
    x !in s.out && t == Shelf(s.out + {x}, if s.spare > 0 then s.spare - 1 else 0)
  }

  ghost predicate Gave(s: Shelf, t: Shelf, x: nat) {
    x in s.out && t == Shelf(s.out - {x}, s.spare + 1)
  }

  ghost predicate Follows(s: Shelf, t: Shelf) {
    s == t || exists x :: Took(s, t, x) || Gave(s, t, x)
  }

  function Max(a: nat, b: nat): nat { if a >= b then a else b }

  /** The most in use at once. */
  function Peak(run: seq<Shelf>): nat {
    if |run| == 0 then 0 else Max(Peak(run[..|run| - 1]), |run[|run| - 1].out|)
  }

  ghost predicate ShelfRun(run: seq<Shelf>) {
    |run| > 0 && forall i :: 0 <= i < |run| - 1 ==> Follows(run[i], run[i + 1])
  }

  lemma FollowsTotal(s: Shelf, t: Shelf)
    requires Follows(s, t)
    ensures Total(t) == if s.spare == 0 then Max(Total(s), |t.out|) else Total(s)
  {
    if s != t {
      var x :| Took(s, t, x) || Gave(s, t, x);
    }
  }

  /** The total after any run is the larger of what there was at the start and the peak. */
  lemma {:induction false} TotalIsPeak(run: seq<Shelf>)
    requires ShelfRun(run)
    ensures Total(run[|run| - 1]) == Max(Total(run[0]), Peak(run))
  {
    var n := |run|;
    if n == 1 {
      assert Peak(run[..0]) == 0;
    } else {
      var front := run[..n - 1];
      TotalIsPeak(front);
      FollowsTotal(run[n - 2], run[n - 1]);
    }
  }

  /** A run from nothing, up to `now`. */
  ghost predicate Tracks(run: seq<Shelf>, now: Shelf) {
    ShelfRun(run) && run[0] == Shelf({}, 0) && run[|run| - 1] == now
  }

  lemma TracksNext(run: seq<Shelf>, now: Shelf, next: Shelf)
    requires Tracks(run, now) && Follows(now, next)
    ensures Tracks(run + [next], next)
  {
    var more := run + [next];
    forall i | 0 <= i < |more| - 1 ensures Follows(more[i], more[i + 1]) {
      assert more[i] == run[i];
      if i + 1 < |run| { assert more[i + 1] == run[i + 1]; }
    }
  }

  /** From nothing, the total is the peak. */
  lemma {:induction false} TracksPeak(run: seq<Shelf>, now: Shelf)
    requires Tracks(run, now)
    ensures Total(now) == Peak(run)
  {
    TotalIsPeak(run);
  }

  // ------------------------------------------------------------------------ pool

  /** The pool's entries in use and its free list. */
  ghost function PoolShelf(p: P.Pool): Shelf {
    Shelf(set id: nat | id < |p.ops| && P.Out(p, id), |p.free|)
  }

  lemma PoolTotal(p: P.Pool)
    requires P.PoolOk(p)
    ensures Total(PoolShelf(p)) == |p.ops|
  {
    Partition(|p.ops|, p.free, PoolShelf(p).out);
  }

  /** The numbers below `n`. */
  function UpTo(n: nat): set<nat> {
    if n == 0 then {} else UpTo(n - 1) + {n - 1}
  }

  lemma {:induction false} UpToMeaning(n: nat)
    ensures |UpTo(n)| == n && forall id: nat :: id in UpTo(n) <==> id < n
  {
    if n > 0 { UpToMeaning(n - 1); }
  }

  /** A repetition-free list of numbers below `n` leaves the rest. */
  lemma Partition(n: nat, free: seq<nat>, out: set<nat>)
    requires NoDup(free) && forall i :: 0 <= i < |free| ==> free[i] < n
    requires forall id: nat :: id in out <==> id < n && id !in free
    ensures |out| + |free| == n
  {
    var back := set id | id in free;
    UpToMeaning(n);
    NoDupSize(free, back);
    assert UpTo(n) == out + back;
  }

  /** One use of the pool: an entry handed out and filled in, changed by its holder, or returned. */
  datatype PoolUse = CheckOut(op: O.Operation) | Change(id: nat, op: O.Operation) | GiveBack(id: nat)

  predicate PoolMay(p: P.Pool, u: PoolUse) {
    u.CheckOut? || P.Out(p, u.id)
  }

  function PoolAfter(p: P.Pool, u: PoolUse): P.Pool
    requires P.PoolOk(p) && PoolMay(p, u)
  {
    match u
    case CheckOut(op) => P.CheckOut(p, op)
    case Change(id, op) => P.Put(p, id, op)
    case GiveBack(id) => P.Return(P.Put(p, id, O.Cleared(p.ops[id])), id)
  }

  lemma PoolUseKeeps(p: P.Pool, u: PoolUse)
    requires P.PoolOk(p) && PoolMay(p, u)
    ensures P.PoolOk(PoolAfter(p, u)) && Follows(PoolShelf(p), PoolShelf(PoolAfter(p, u)))
  {
    var q := PoolAfter(p, u);
    var s, t := PoolShelf(p), PoolShelf(q);
    match u
    case CheckOut(op) =>
      P.CheckOutFrame(p, op);
      assert t.out == s.out + {P.NewId(p)};
      assert Took(s, t, P.NewId(p));
    case Change(id, op) =>
      assert s.out == t.out;
    case GiveBack(id) =>
      P.ReturnFrame(p, id, O.Cleared(p.ops[id]));
      assert t.out == s.out - {id};
      assert Gave(s, t, id);
  }

  /** The pools along a run of legal uses. */
  ghost predicate PoolRun(run: seq<P.Pool>, uses: seq<PoolUse>) {
    && |run| == |uses| + 1
    && P.PoolOk(run[0])
    && forall i {:trigger PoolStep(run[i], uses[i], run[i + 1])} :: 0 <= i < |uses| ==>
         PoolStep(run[i], uses[i], run[i + 1])
  }

  ghost predicate PoolStep(before: P.Pool, u: PoolUse, after: P.Pool) {
    P.PoolOk(before) && PoolMay(before, u) && after == PoolAfter(before, u)
  }

  /** Entries in use at once, at most, along a run. */
  ghost function PoolPeak(run: seq<P.Pool>): nat { Peak(seq(|run|, i requires 0 <= i < |run| => PoolShelf(run[i]))) }

  lemma PoolRunStep(run: seq<P.Pool>, uses: seq<PoolUse>, i: nat)
    requires PoolRun(run, uses) && i < |uses|
    ensures P.PoolOk(run[i]) && PoolMay(run[i], uses[i]) && run[i + 1] == PoolAfter(run[i], uses[i])
    ensures P.PoolOk(run[i + 1]) && Follows(PoolShelf(run[i]), PoolShelf(run[i + 1]))
  {
    assert PoolStep(run[i], uses[i], run[i + 1]);
    PoolUseKeeps(run[i], uses[i]);
  }

  /** The pool never allocates an entry it could do without. */
  lemma PoolAllocatesPeak(run: seq<P.Pool>, uses: seq<PoolUse>)
    requires PoolRun(run, uses) && run[0] == P.Pool([], [])
    ensures |run[|run| - 1].ops| == PoolPeak(run)
  {
    var shelves := seq(|run|, i requires 0 <= i < |run| => PoolShelf(run[i]));
    forall i | 0 <= i < |uses| ensures Follows(shelves[i], shelves[i + 1]) {
      PoolRunStep(run, uses, i);
    }
    TotalIsPeak(shelves);
    if |uses| > 0 { PoolRunStep(run, uses, |uses| - 1); }
    PoolTotal(run[|run| - 1]);
    PoolTotal(run[0]);
  }

  // ------------------------------------------------------------------------ slab

  ghost function SlabShelf(s: S.Slab): Shelf {
    Shelf(set b: nat | b < |s.bufs| && S.Taken(s, b), |s.free|)
  }

  lemma SlabTotal(s: S.Slab)
    requires S.SlabOk(s)
    ensures Total(SlabShelf(s)) == |s.bufs|
  {
    Partition(|s.bufs|, s.free, SlabShelf(s).out);
  }

  /** One use of a slab. */
  datatype SlabUse = Acquire(ref: u64) | Release(b: nat) | Store(b: nat, off: nat, bytes: seq<byte>)

  predicate SlabMay(s: S.Slab, u: SlabUse) {
    match u
    case Acquire(ref) => true
    case Release(b) => S.Taken(s, b)
    case Store(b, off, bytes) => S.Taken(s, b) && off + |bytes| <= |s.bufs[b].data|
  }

  function SlabAfter(s: S.Slab, u: SlabUse): S.Slab
    requires S.SlabOk(s) && SlabMay(s, u)
  {
    match u
    case Acquire(ref) => S.Acquire(s, ref)
    case Release(b) => S.Release(s, b)
    case Store(b, off, bytes) => S.Write(s, b, off, bytes)
  }

  lemma SlabUseKeeps(s: S.Slab, u: SlabUse)
    requires S.SlabOk(s) && SlabMay(s, u)
    ensures S.SlabOk(SlabAfter(s, u)) && Follows(SlabShelf(s), SlabShelf(SlabAfter(s, u)))
  {
    var t := SlabAfter(s, u);
    match u
    case Acquire(ref) =>
      S.AcquireFrame(s, ref);
      assert SlabShelf(t).out == SlabShelf(s).out + {S.NextBuf(s)};
      assert Took(SlabShelf(s), SlabShelf(t), S.NextBuf(s));
    case Release(b) =>
      S.ReleaseFrame(s, b);
      if s.bufs[b].ref == 1 {
        assert SlabShelf(t).out == SlabShelf(s).out - {b};
        assert Gave(SlabShelf(s), SlabShelf(t), b);
      } else {
        assert SlabShelf(t).out == SlabShelf(s).out;
      }
    case Store(b, off, bytes) =>
      S.WriteFrame(s, b, off, bytes);
      assert SlabShelf(t).out == SlabShelf(s).out;
  }

  ghost predicate SlabRun(run: seq<S.Slab>, uses: seq<SlabUse>) {
    && |run| == |uses| + 1
    && S.SlabOk(run[0])
    && forall i {:trigger SlabStep(run[i], uses[i], run[i + 1])} :: 0 <= i < |uses| ==>
         SlabStep(run[i], uses[i], run[i + 1])
  }

  ghost predicate SlabStep(before: S.Slab, u: SlabUse, after: S.Slab) {
    S.SlabOk(before) && SlabMay(before, u) && after == SlabAfter(before, u)
  }

  ghost function SlabPeak(run: seq<S.Slab>): nat { Peak(seq(|run|, i requires 0 <= i < |run| => SlabShelf(run[i]))) }

  lemma SlabRunStep(run: seq<S.Slab>, uses: seq<SlabUse>, i: nat)
    requires SlabRun(run, uses) && i < |uses|
    ensures S.SlabOk(run[i]) && SlabMay(run[i], uses[i]) && run[i + 1] == SlabAfter(run[i], uses[i])
    ensures S.SlabOk(run[i + 1]) && Follows(SlabShelf(run[i]), SlabShelf(run[i + 1]))
  {
    assert SlabStep(run[i], uses[i], run[i + 1]);
    SlabUseKeeps(run[i], uses[i]);
  }

  /** Buffers allocated: the initial capacity, or the peak if that was higher. */
  lemma SlabAllocatesPeak(run: seq<S.Slab>, uses: seq<SlabUse>, bufCap: nat, initial: nat)
    requires SlabRun(run, uses) && run[0] == S.FreshSlab(bufCap, initial)
    ensures |run[|run| - 1].bufs| == Max(initial, SlabPeak(run))
  {
    var shelves := seq(|run|, i requires 0 <= i < |run| => SlabShelf(run[i]));
    forall i | 0 <= i < |uses| ensures Follows(shelves[i], shelves[i + 1]) {
      SlabRunStep(run, uses, i);
    }
    TotalIsPeak(shelves);
    if |uses| > 0 { SlabRunStep(run, uses, |uses| - 1); }
    SlabTotal(run[|run| - 1]);
    SlabTotal(run[0]);
  }

  lemma SlabRunPrefix(run: seq<S.Slab>, uses: seq<SlabUse>)
    requires SlabRun(run, uses) && |uses| > 0
    ensures SlabRun(run[..|uses|], uses[..|uses| - 1])
  {
    var r, u := run[..|uses|], uses[..|uses| - 1];
    forall i | 0 <= i < |u| ensures SlabStep(r[i], u[i], r[i + 1]) {
      assert SlabStep(run[i], uses[i], run[i + 1]);
    }
  }

  /** How often a buffer is released along a list of uses. */
  function Releases(uses: seq<SlabUse>, b: nat): nat {
    if |uses| == 0 then 0
    else Releases(uses[..|uses| - 1], b) + if uses[|uses| - 1] == Release(b) then 1 else 0
  }

  /** The releases it takes a buffer with this count to come back; zero wraps around first. */
  function Left(ref: u64): (n: nat)
    ensures n > 0
  {
    if ref == 0 then U64 else ref
  }

  /** Until then a buffer loses one for each of its releases, and is neither free nor handed out. */
  lemma {:induction false} ReferencesCount(run: seq<S.Slab>, uses: seq<SlabUse>, b: nat)
    requires SlabRun(run, uses) && S.Taken(run[0], b) && Releases(uses, b) < Left(run[0].bufs[b].ref)
    ensures var last := run[|run| - 1];
            && S.SlabOk(last) && S.Taken(last, b)
            && Left(last.bufs[b].ref) == Left(run[0].bufs[b].ref) - Releases(uses, b)
            && S.NextBuf(last) != b
  {
    var n := |uses|;
    if n > 0 {
      var front := uses[..n - 1];
      assert run[..n][0] == run[0] && run[..n][n - 1] == run[n - 1];
      SlabRunPrefix(run, uses);
      ReferencesCount(run[..n], front, b);
      SlabRunStep(run, uses, n - 1);
      OneUse(run[n - 1], uses[n - 1], b);
    }
  }

  lemma OneUse(s: S.Slab, u: SlabUse, b: nat)
    requires S.SlabOk(s) && SlabMay(s, u) && S.Taken(s, b)
    ensures b < |SlabAfter(s, u).bufs|
    ensures if u == Release(b) then
              SlabAfter(s, u).bufs[b].ref == S.OneLess(s.bufs[b].ref)
              && (S.Taken(SlabAfter(s, u), b) <==> s.bufs[b].ref != 1)
            else
              SlabAfter(s, u).bufs[b].ref == s.bufs[b].ref && S.Taken(SlabAfter(s, u), b)
  {
    match u
    case Acquire(ref) => S.AcquireFrame(s, ref);
    case Release(c) => S.ReleaseFrame(s, c);
    case Store(c, off, bytes) => S.WriteFrame(s, c, off, bytes);
  }

  /** A buffer acquired with `k` references comes back on its k-th release - its 2^64-th for `k` zero - and is next. */
  lemma {:induction false} ReturnsOnLastRelease(run: seq<S.Slab>, uses: seq<SlabUse>, b: nat)
    requires SlabRun(run, uses) && S.Taken(run[0], b) && Releases(uses, b) == Left(run[0].bufs[b].ref) - 1
    ensures var last := run[|run| - 1];
            && S.Taken(last, b)
            && var t := S.Release(last, b);
               S.SlabOk(t) && t.free == last.free + [b] && !S.Taken(t, b) && S.NextBuf(t) == b
  {
    ReferencesCount(run, uses, b);
    S.ReleaseFrame(run[|run| - 1], b);
  }
}
