/**
 The server recycles optimally: over every run, the pool and the slabs have allocated exactly as much as was ever in
 use at once, counting every moment inside a step at which anything is taken or given back.
 */
module Peaks {
  import opened Base
  import opened Ops
  import opened PoolModel
  import opened SlabModel
  import opened ServerState
  import opened ServerInvariant
  import opened ServerRuns
  import R = Recycling

  /** Pool and slabs each take one more, give one back, or stay. */
  ghost predicate Moves(a: State, b: State) {
    && R.Follows(R.PoolShelf(a.pool), R.PoolShelf(b.pool))
    && R.Follows(R.SlabShelf(a.mem.small), R.SlabShelf(b.mem.small))
    && R.Follows(R.SlabShelf(a.mem.large), R.SlabShelf(b.mem.large))
  }

  ghost predicate MemMoves(m: Mem, n: Mem) {
    R.Follows(R.SlabShelf(m.small), R.SlabShelf(n.small)) && R.Follows(R.SlabShelf(m.large), R.SlabShelf(n.large))
  }

  // ------------------------------------------------------------- one move at a time

  lemma PokeMoves(m: Mem, p: Ptr, off: nat, bytes: seq<byte>)
    requires MemOk(m) && Resolves(m, p) && off + |bytes| <= |BufAt(m, p).data|
    ensures MemMoves(m, Poke(m, p, off, bytes))
    ensures R.SlabShelf(Poke(m, p, off, bytes).small) == R.SlabShelf(m.small)
    ensures R.SlabShelf(Poke(m, p, off, bytes).large) == R.SlabShelf(m.large)
  {
    WriteFrame(SlabFor(m, p.cap), p.idx, off, bytes);
  }

  lemma PutMoves(p: Pool, id: nat, op: Operation)
    requires id < |p.ops|
    ensures R.PoolShelf(Put(p, id, op)) == R.PoolShelf(p)
  {
  }

  lemma FreeMoves(s: State, id: nat)
    requires Shape(s) && FreeOp(s, id).Live?
    ensures Moves(s, FreeOp(s, id).s)
  {
    var op := s.pool.ops[id];
    var sl := SlabFor(s.mem, op.bufCap);
    R.PoolUseKeeps(s.pool, R.GiveBack(id));
    HeldTaken(sl, op.buf.value.idx);
    R.SlabUseKeeps(sl, R.Release(op.buf.value.idx));
  }

  lemma DisconnectMoves(s: State, id: nat)
    requires Shape(s) && DisconnectAndFreeOp(s, id).Live?
    ensures Moves(s, DisconnectAndFreeOp(s, id).s)
  {
    var op := s.pool.ops[id];
    if op.clientId in s.clients {
      FreeMoves(s.(open := s.open - {op.clientFd}, clients := s.clients - {op.clientId}), id);
    } else {
      FreeMoves(s, id);
    }
  }

  lemma AcceptMoves(s: State, id: nat, fd: int)
    requires Shape(s) && HandleAccept(s, id, fd).Live?
    ensures Moves(s, HandleAccept(s, id, fd).s)
  {
    var v := AddRecv(SetFd(s, s.pool.ops[id].clientId, fd), id, fd);
    PutMoves(s.pool, id, v.pool.ops[id]);
    R.PoolUseKeeps(v.pool, R.CheckOut(AcceptOp(v, s.nextId)));
    R.SlabUseKeeps(s.mem.large, R.Acquire(1));
  }

  lemma FilledMoves(m: Mem, bytes: seq<byte>)
    requires MemOk(m) && |bytes| <= SMALL
    ensures MemMoves(m, FilledSmall(m, bytes))
  {
    AcquireFrame(m.small, 1);
    R.SlabUseKeeps(m.small, R.Acquire(1));
    PokeMoves(m.(small := Acquire(m.small, 1)), Ptr(SMALL, NextBuf(m.small)), 0, bytes);
  }

  lemma FrameMoves(s: State, op: Operation, f: Frame)
    requires Shape(s) && op.clientId in s.clients
    ensures Moves(s, HandleSetUsername(s, op, f))
  {
    var u, bytes := Named(s, op.clientId, f.bytes), ReplyBytes(f.bytes, f.seqid);
    R.PoolUseKeeps(u.pool, R.CheckOut(SendOp(u, op.clientFd, op.clientId, |bytes|)));
    FilledMoves(u.mem, bytes);
  }

  lemma RearmMoves(s: State, id: nat, end: Ending)
    requires Shape(s) && Rearm(s, id, end).Live?
    ensures Moves(s, Rearm(s, id, end).s)
  {
    var p := s.pool.ops[id].buf.value;
    if end.move { PokeMoves(s.mem, p, 0, Moved(BufAt(s.mem, p).data, end.pos, end.rem)); }
  }

  lemma SendMoves(s: State, id: nat, n: nat)
    requires Shape(s) && HandleSend(s, id, n).Live?
    ensures Moves(s, HandleSend(s, id, n).s)
  {
    if IsIncomplete(s.pool.ops[id], n) {
      PutMoves(s.pool, id, ResumeSend(s, id, n).pool.ops[id]);
    } else {
      FreeMoves(s, id);
    }
  }

  lemma DeliverMoves(s: State, c: Completion)
    requires Shape(s) && Allowed(s, c) && Deliver(s, c).Live?
    ensures Moves(s, Deliver(s, c).s)
  {
    var q := Pending(s.ring, c.id)[c.which];
    if c.res >= 0 && q.RecvSqe? { PokeMoves(s.mem, q.buf, q.off, c.data); }
  }

  // ------------------------------------------------------- the moments of one step

  /** The server after each of the frames. */
  function ServeMoments(s: State, op: Operation, frames: seq<Frame>): (ms: seq<State>)
    requires Shape(s) && op.clientId in s.clients
  {
    if |frames| == 0 then [] else ServeMoments(s, op, frames[..|frames| - 1]) + [Serve(s, op, frames)]
  }

  /** The moments of `handle_recv` before it drops the client or arms the READ again. */
  function RecvMoments(s: State, id: nat, n: nat): seq<State>
    requires Shape(s)
  {
    if n > 0 && Readable(s, id, n) then
      var op := s.pool.ops[id];
      ServeMoments(s, op, Parse(BufAt(s.mem, op.buf.value).data, 0, n).frames)
    else []
  }

  function DispatchMoments(s: State, c: Completion): seq<State>
    requires Shape(s)
  {
    if && c.res >= 0 && c.id < |s.pool.ops| && s.pool.ops[c.id].clientId in s.clients
       && s.pool.ops[c.id].kind == OpRead
    then RecvMoments(s, c.id, c.res)
    else []
  }

  /** Everything a live step goes through: the completion taken, each frame served, and what it ends in. */
  function Moments(s: State, c: Completion): seq<State>
    requires Shape(s) && Allowed(s, c)
  {
    var d, r := Deliver(s, c), Step(s, c);
    if d.Live? && r.Live? then [d.s] + DispatchMoments(d.s, c) + [r.s] else []
  }

  /** The moments follow one another, up to `now`. */
  ghost predicate Leads(ms: seq<State>, now: State) {
    && |ms| > 0 && ms[|ms| - 1] == now
    && forall i :: 0 <= i < |ms| - 1 ==> Moves(ms[i], ms[i + 1])
  }

  lemma LeadsOn(ms: seq<State>, now: State, next: State)
    requires Leads(ms, now) && Moves(now, next)
    ensures Leads(ms + [next], next)
  {
    var more := ms + [next];
    forall i | 0 <= i < |more| - 1 ensures Moves(more[i], more[i + 1]) {
      assert more[i] == ms[i];
      if i + 1 < |ms| { assert more[i + 1] == ms[i + 1]; }
    }
  }

  lemma {:induction false} LeadsServe(ms: seq<State>, s: State, op: Operation, frames: seq<Frame>)
    requires Leads(ms, s) && Shape(s) && op.clientId in s.clients
    ensures Leads(ms + ServeMoments(s, op, frames), Serve(s, op, frames))
  {
    if |frames| == 0 {
      assert ms + [] == ms;
    } else {
      var n := |frames| - 1;
      var u := Serve(s, op, frames[..n]);
      LeadsServe(ms, s, op, frames[..n]);
      FrameMoves(u, op, frames[n]);
      ServeLast(s, op, frames);
      LeadsOn(ms + ServeMoments(s, op, frames[..n]), u, Serve(s, op, frames));
      SnocAssoc(ms, ServeMoments(s, op, frames[..n]), Serve(s, op, frames));
    }
  }

  lemma {:induction false} ServeLast(s: State, op: Operation, frames: seq<Frame>)
    requires Shape(s) && op.clientId in s.clients && |frames| > 0
    ensures Serve(s, op, frames) ==
            HandleSetUsername(Serve(s, op, frames[..|frames| - 1]), op, frames[|frames| - 1])
  {
  }

  lemma {:induction false} LeadsRecv(ms: seq<State>, d: State, id: nat, n: nat)
    requires Leads(ms, d) && Shape(d) && HandleRecv(d, id, n).Live?
    ensures var t := HandleRecv(d, id, n).s; Leads(ms + RecvMoments(d, id, n) + [t], t)
  {
    var t := HandleRecv(d, id, n).s;
    if n == 0 {
      DisconnectMoves(d, id);
      assert ms + [] == ms;
      LeadsOn(ms, d, t);
    } else {
      var op := d.pool.ops[id];
      var p := Parse(BufAt(d.mem, op.buf.value).data, 0, n);
      var u := Serve(d, op, p.frames);
      LeadsServe(ms, d, op, p.frames);
      FinishMoves(u, id, p.end);
      LeadsOn(ms + ServeMoments(d, op, p.frames), u, t);
    }
  }

  lemma FinishMoves(u: State, id: nat, end: Ending)
    requires Shape(u) && FinishRecv(u, id, end).Live?
    ensures Moves(u, FinishRecv(u, id, end).s)
  {
    if end.Reject? { DisconnectMoves(u, id); } else { RearmMoves(u, id, end); }
  }

  lemma {:induction false} LeadsDispatch(ms: seq<State>, d: State, c: Completion)
    requires Leads(ms, d) && Shape(d) && Dispatch(d, c).Live?
    ensures var t := Dispatch(d, c).s; Leads(ms + DispatchMoments(d, c) + [t], t)
  {
    var op, t := d.pool.ops[c.id], Dispatch(d, c).s;
    if c.res >= 0 && op.clientId in d.clients && op.kind == OpRead {
      LeadsRecv(ms, d, c.id, c.res);
    } else {
      OtherMoves(d, c);
      assert ms + [] == ms;
      LeadsOn(ms, d, t);
    }
  }

  lemma OtherMoves(d: State, c: Completion)
    requires Shape(d) && Dispatch(d, c).Live?
    requires c.res < 0 || d.pool.ops[c.id].clientId !in d.clients || d.pool.ops[c.id].kind != OpRead
    ensures Moves(d, Dispatch(d, c).s)
  {
    var op := d.pool.ops[c.id];
    if c.res < 0 {
      DisconnectMoves(d, c.id);
    } else if op.clientId !in d.clients {
      FreeMoves(d, c.id);
    } else if op.kind == OpAccept {
      AcceptMoves(d, c.id, c.res);
    } else {
      SendMoves(d, c.id, c.res);
    }
  }

  lemma {:induction false} LeadsStep(ms: seq<State>, s: State, c: Completion)
    requires Leads(ms, s) && Shape(s) && Allowed(s, c) && Step(s, c).Live?
    ensures Leads(ms + Moments(s, c), Step(s, c).s)
  {
    var d, t := Deliver(s, c).s, Step(s, c).s;
    DeliverMoves(s, c);
    LeadsOn(ms, s, d);
    LeadsDispatch(ms + [d], d, c);
    Regroup(ms, d, DispatchMoments(d, c), t);
  }

  lemma Regroup<T>(a: seq<T>, x: T, b: seq<T>, y: T)
    ensures ((a + [x]) + b) + [y] == a + ([x] + b + [y])
  {
  }

  // ---------------------------------------------------------------------- whole runs

  /** Everything the server has been through since it was set up. */
  function Past(cs: seq<Completion>): seq<State> {
    if |cs| == 0 then [Initial()] + (if Start().Live? then [Start().s] else [])
    else
      var r, c := Run(cs[..|cs| - 1]), cs[|cs| - 1];
      Past(cs[..|cs| - 1]) + (if r.Live? && Allowed(r.s, c) then Moments(r.s, c) else [])
  }

  lemma StartMoves()
    ensures Start().Live? && Leads(Past([]), Start().s)
  {
    StartInv();
    var s := Initial();
    R.PoolUseKeeps(s.pool, R.CheckOut(AcceptOp(s, 1)));
    R.SlabUseKeeps(s.mem.large, R.Acquire(1));
    assert Moves(s, Start().s);
  }

  lemma {:induction false} PastLeads(cs: seq<Completion>)
    requires Run(cs).Live?
    ensures Leads(Past(cs), Run(cs).s)
  {
    if |cs| == 0 {
      StartMoves();
      assert cs == [];
    } else {
      var n := |cs| - 1;
      var r := Run(cs[..n]);
      assert Run(cs) == Next(r, cs[n]);
      PastLeads(cs[..n]);
      if Allowed(r.s, cs[n]) {
        LeadsStep(Past(cs[..n]), r.s, cs[n]);
      } else {
        assert Past(cs[..n]) + [] == Past(cs[..n]);
      }
    }
  }

  ghost function PoolShelves(ms: seq<State>): seq<R.Shelf> {
    seq(|ms|, i requires 0 <= i < |ms| => R.PoolShelf(ms[i].pool))
  }

  ghost function SmallShelves(ms: seq<State>): seq<R.Shelf> {
    seq(|ms|, i requires 0 <= i < |ms| => R.SlabShelf(ms[i].mem.small))
  }

  ghost function LargeShelves(ms: seq<State>): seq<R.Shelf> {
    seq(|ms|, i requires 0 <= i < |ms| => R.SlabShelf(ms[i].mem.large))
  }

  /**
   Over every run of the server: operations allocated are as many as were ever in flight at once, and buffers of each
   slab as many as were ever in use at once, or the initial 64.
   */
  lemma {:induction false} ServerAllocatesPeak(cs: seq<Completion>)
    requires Run(cs).Live?
    ensures var t := Run(cs).s;
            && |t.pool.ops| == R.Peak(PoolShelves(Past(cs)))
            && |t.mem.small.bufs| == R.Max(64, R.Peak(SmallShelves(Past(cs))))
            && |t.mem.large.bufs| == R.Max(64, R.Peak(LargeShelves(Past(cs))))
  {
    PastLeads(cs);
    PastStarts(cs);
    var ms, t := Past(cs), Run(cs).s;
    R.TotalIsPeak(PoolShelves(ms));
    R.TotalIsPeak(SmallShelves(ms));
    R.TotalIsPeak(LargeShelves(ms));
    R.PoolTotal(t.pool);
    R.SlabTotal(t.mem.small);
    R.SlabTotal(t.mem.large);
    R.PoolTotal(Initial().pool);
    R.SlabTotal(Initial().mem.small);
    R.SlabTotal(Initial().mem.large);
  }

  lemma {:induction false} PastStarts(cs: seq<Completion>)
    ensures |Past(cs)| > 0 && Past(cs)[0] == Initial()
  {
    if |cs| > 0 { PastStarts(cs[..|cs| - 1]); }
  }
}
