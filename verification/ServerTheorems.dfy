/** What every run of the server guarantees, read off the invariant and the step cases. */
module ServerTheorems {
  import opened Base
  import opened Ops
  import opened PoolModel
  import opened SlabModel
  import opened ClientModel
  import opened ServerState
  import opened ServerInvariant
  import opened ServerSteps
  import opened ServerRuns

  // ------------------------------------------------------------------ ownership

  /**
   An operation is either free or in flight with exactly one submission; none is lost, freed twice,
   or both free and in flight.
   */
  ghost predicate OperationsOwnedOnce(s: State) {
    && NoDup(s.pool.free)
    && (forall id: nat :: id in s.pool.free ==> id < |s.pool.ops| && Pending(s.ring, id) == [])
    && (forall id: nat :: id < |s.pool.ops| && id !in s.pool.free ==> |Pending(s.ring, id)| == 1)
    && (forall id: nat :: id >= |s.pool.ops| ==> Pending(s.ring, id) == [])
  }

  /** One holder, of the right capacity, and no other. */
  predicate SoleHolder(s: State, id: nat, p: Ptr) {
    Holder(s.pool, id, p) && s.pool.ops[id].bufCap == p.cap
  }

  /**
   Each slab's buffers are exactly its free list plus the buffers held by in-flight operations of
   that capacity; a held buffer has one reference and one holder.
   */
  ghost predicate BuffersOwnedOnce(s: State, cap: nat) {
    var sl := SlabFor(s.mem, cap);
    && NoDup(sl.free)
    && (forall b: nat :: b in sl.free ==> b < |sl.bufs|)
    && (forall b: nat, id: nat :: b in sl.free ==> !Holder(s.pool, id, Ptr(cap, b)))
    && (forall b: nat :: b < |sl.bufs| && b !in sl.free ==> sl.bufs[b].ref == 1)
    && (forall b: nat :: b < |sl.bufs| && b !in sl.free ==> exists id: nat :: SoleHolder(s, id, Ptr(cap, b)))
    && (forall b: nat, i: nat, j: nat :: Holder(s.pool, i, Ptr(cap, b)) && Holder(s.pool, j, Ptr(cap, b)) ==> i == j)
  }

  predicate InAccept(s: State, id: nat) {
    Out(s.pool, id) && s.pool.ops[id].kind == OpAccept
  }

  /** The operation `a` is the ACCEPT in flight, for the youngest id. */
  predicate IsAccept(s: State, a: nat) {
    && s.nextId > 1 && Out(s.pool, a) && s.pool.ops[a].kind == OpAccept
    && Pending(s.ring, a) == [AcceptSqe(s.nextId - 1)]
  }

  /**
   Exactly one ACCEPT is in flight. Its map entry is present, and the next id is not in the map, so
   the unchecked insertion that follows an accept succeeds.
   */
  ghost predicate OneAccept(s: State) {
    && (exists a: nat :: IsAccept(s, a))
    && (forall i: nat, j: nat :: InAccept(s, i) && InAccept(s, j) ==> i == j)
    && s.nextId > 0 && s.nextId - 1 in s.clients && s.nextId !in s.clients
    && (forall c :: c in s.clients ==> c < s.nextId)
    && (forall id: nat :: Out(s.pool, id) ==> s.pool.ops[id].clientId < s.nextId)
  }

  /**
   The operation `r` is a READ of client `c`, on `c`'s socket, with a window of at least one byte inside the buffer.
   */
  predicate IsReader(s: State, c: nat, r: nat) {
    && c in s.clients && Out(s.pool, r) && s.pool.ops[r].kind == OpRead && s.pool.ops[r].clientId == c
    && |Pending(s.ring, r)| == 1
    && var q := Pending(s.ring, r)[0];
    && q.RecvSqe? && q.fd == s.clients[c].fd && q.off + q.len == LARGE && q.len >= 1
  }

  predicate SendsOn(s: State, id: nat, fd: int) {
    |Pending(s.ring, id)| == 1 && Pending(s.ring, id)[0].SendSqe? && Pending(s.ring, id)[0].fd == fd
  }

  /** Each connected client has exactly one READ in flight, on its own socket; its WRITEs use that socket too. */
  ghost predicate OneReader(s: State, c: nat)
    requires c in s.clients
  {
    && (exists r: nat :: IsReader(s, c, r))
    && (forall i: nat, j: nat :: Owner(s.pool, i, c) && Owner(s.pool, j, c) ==> i == j)
    && (forall id: nat :: Out(s.pool, id) && s.pool.ops[id].kind == OpWrite && s.pool.ops[id].clientId == c
          ==> SendsOn(s, id, s.clients[c].fd))
  }

  /** The open sockets are exactly the connected clients', one each. */
  ghost predicate SocketsMatchClients(s: State) {
    && (forall f :: f in s.open ==> Connected(s.clients, s.nextId, s.open[f]) && s.clients[s.open[f]].fd == f)
    && (forall c: nat :: Connected(s.clients, s.nextId, c) ==>
          s.clients[c].fd in s.open && s.open[s.clients[c].fd] == c)
  }

  /**
   For a WRITE in flight the acknowledged bytes are exactly the first `processed` bytes of its
   message, and the one pending submission covers exactly the rest, which is not empty.
   */
  predicate CoversUnsentSuffix(s: State, id: nat)
    requires id < |s.pool.ops|
  {
    var op := s.pool.ops[id];
    && id in s.msg && id in s.acked && op.processed < |s.msg[id]|
    && s.acked[id] == s.msg[id][..op.processed]
    && |Pending(s.ring, id)| == 1
    && var q := Pending(s.ring, id)[0];
    && q.SendSqe? && Resolves(s.mem, q.buf) && q.off + q.len <= |BufAt(s.mem, q.buf).data|
    && BufAt(s.mem, q.buf).data[q.off..q.off + q.len] == s.msg[id][op.processed..]
  }

  /** The buffer of a WRITE has 64 bytes, that of an ACCEPT or a READ 2048. */
  predicate SizedRight(s: State, id: nat)
    requires id < |s.pool.ops|
  {
    var op := s.pool.ops[id];
    && op.bufCap == (if op.kind == OpWrite then 64 else 2048)
    && op.buf.Some? && Resolves(s.mem, op.buf.value) && |BufAt(s.mem, op.buf.value).data| == op.bufCap
  }

  ghost predicate Guarantees(s: State) {
    && OperationsOwnedOnce(s)
    && (forall id: nat :: Out(s.pool, id) ==> SizedRight(s, id))
    && BuffersOwnedOnce(s, SMALL) && BuffersOwnedOnce(s, LARGE)
    && OneAccept(s)
    && (forall c: nat :: Connected(s.clients, s.nextId, c) ==> OneReader(s, c))
    && SocketsMatchClients(s)
    && (forall id: nat :: Out(s.pool, id) && s.pool.ops[id].kind == OpWrite ==> CoversUnsentSuffix(s, id))
  }

  lemma InvBuffers(s: State, cap: nat)
    requires Inv(s) && (cap == SMALL || cap == LARGE)
    ensures BuffersOwnedOnce(s, cap)
  {
    var sl := SlabFor(s.mem, cap);
    forall b: nat, id: nat | Holder(s.pool, id, Ptr(cap, b)) ensures b !in sl.free {
      assert HoldsBuf(s.pool.ops[id], s.mem);
    }
    forall b: nat | b < |sl.bufs| && b !in sl.free
      ensures sl.bufs[b].ref == 1 && exists id: nat :: SoleHolder(s, id, Ptr(cap, b))
    {
      assert InUse(s.mem, Ptr(cap, b));
      var id: nat :| Holder(s.pool, id, Ptr(cap, b));
      assert HoldsBuf(s.pool.ops[id], s.mem);
      assert SoleHolder(s, id, Ptr(cap, b));
    }
  }

  lemma InvAccept(s: State)
    requires Inv(s)
    ensures OneAccept(s)
  {
    var k := s.nextId - 1;
    var a: nat :| Owner(s.pool, a, k);
    assert SubOk(s, a);
    assert IsAccept(s, a);
    forall i: nat | InAccept(s, i) ensures i == a {
      assert Owner(s.pool, i, k);
    }
  }

  lemma InvReader(s: State, c: nat)
    requires Inv(s) && Connected(s.clients, s.nextId, c)
    ensures OneReader(s, c)
  {
    var r: nat :| Owner(s.pool, r, c);
    assert SubOk(s, r);
    assert IsReader(s, c, r);
    forall id: nat | Out(s.pool, id) && s.pool.ops[id].kind == OpWrite && s.pool.ops[id].clientId == c
      ensures SendsOn(s, id, s.clients[c].fd)
    {
      assert SubOk(s, id);
    }
  }

  lemma InvSend(s: State, id: nat)
    requires Inv(s) && Out(s.pool, id) && s.pool.ops[id].kind == OpWrite
    ensures CoversUnsentSuffix(s, id)
  {
    assert SubOk(s, id) && HoldsBuf(s.pool.ops[id], s.mem);
    var op := s.pool.ops[id];
    var d := BufAt(s.mem, op.buf.value).data;
    assert d[op.processed..op.bufLen] == d[..op.bufLen][op.processed..];
  }

  lemma InvGuarantees(s: State)
    requires Inv(s)
    ensures Guarantees(s)
  {
    InvBuffers(s, SMALL);
    InvBuffers(s, LARGE);
    forall id: nat | Out(s.pool, id) ensures SizedRight(s, id) {
      assert HoldsBuf(s.pool.ops[id], s.mem);
      BufSize(s.mem, s.pool.ops[id].buf.value);
    }
    InvAccept(s);
    forall c: nat | Connected(s.clients, s.nextId, c) ensures OneReader(s, c) { InvReader(s, c); }
    forall id: nat | Out(s.pool, id) && s.pool.ops[id].kind == OpWrite ensures CoversUnsentSuffix(s, id) {
      InvSend(s, id);
    }
  }

  /**
   Every live state of every run meets every guarantee above. A run ends otherwise only by exiting, exactly when
   one of its completions is a cause to, or by reading past a receive buffer, exactly when one of its receives is.
   */
  lemma {:induction false} EveryRun(cs: seq<Completion>)
    ensures !Run(cs).Broken?
    ensures Run(cs).Exited? <==> SomeExit(Start(), cs)
    ensures Run(cs).OverRead? <==> SomeOverRead(Start(), cs)
    ensures Run(cs).Live? ==> Guarantees(Run(cs).s)
  {
    RunSafe(cs);
    if Run(cs).Live? { InvGuarantees(Run(cs).s); }
  }

  // ---------------------------------------------------------- clients and sockets

  /**
   One step touches one client. A socket is closed exactly when its client leaves the map, in the
   same step; the only new socket is the one an accept returned.
   */
  lemma SocketClosedWithClient(s: State, c: Completion)
    requires Inv(s) && Allowed(s, c) && Step(s, c).Live?
    ensures c.id < |s.pool.ops| && ClientStep(s, c, s.pool.ops[c.id].clientId, Step(s, c).s)
  {
    StepSafe(s, c);
    CaseClient(s, c, Step(s, c).s);
  }

  /** What a step may do to the map and the sockets, where `k` is the client whose completion it is. */
  ghost predicate ClientStep(s: State, c: Completion, k: nat, t: State) {
    && s.nextId <= t.nextId
    && (forall x :: x in t.clients && x !in s.clients ==> x >= s.nextId)
    && (forall x :: x in s.clients && x != k ==> x in t.clients && t.clients[x] == s.clients[x])
    && (forall f :: f in s.open ==> (f in t.open <==> s.open[f] in t.clients))
    && (forall f :: f in s.open && f in t.open ==> t.open[f] == s.open[f])
    && (forall f :: f in t.open && f !in s.open ==> c.res == f && k + 1 == s.nextId)
  }

  /** A new client and a new socket leave the others as they are. */
  lemma JoinedMaps(clients: Clients, k: nat, n: nat, a: Client, b: Client, open: map<int, nat>, fd: int)
    requires k in clients && n !in clients && fd !in open && forall f :: f in open ==> open[f] in clients
    ensures var now, os := clients[k := a][n := b], open[fd := k];
            && (forall x :: x in now && x !in clients ==> x == n)
            && (forall x :: x in clients && x != k ==> x in now && now[x] == clients[x])
            && (forall f :: f in open ==> f in os && os[f] == open[f] && open[f] in now)
            && (forall f :: f in os && f !in open ==> f == fd)
  {
  }

  lemma ConnectsClient(s: State, c: Completion, t: State)
    requires Inv(s) && Connects(s, c, t)
    ensures ClientStep(s, c, s.pool.ops[c.id].clientId, t)
  {
    var k := s.nextId - 1;
    JoinedMaps(s.clients, k, s.nextId, s.clients[k].(fd := c.res), Client(0, []), s.open, c.res);
  }

  /** Every case but the accept leaves the sockets of `s` alone or removes exactly the one of `k`. */
  lemma QuietClient(s: State, c: Completion, k: nat, f: int, t: State)
    requires FdInv(s.pool, s.clients, s.nextId, s.open) && t.nextId == s.nextId
    requires || (t.clients.Keys == s.clients.Keys && t.open == s.open)
             || (k !in s.clients && t.clients == s.clients && t.open == s.open)
             || (f in s.open && s.open[f] == k && t.clients == s.clients - {k} && t.open == s.open - {f})
    requires forall x :: x in s.clients && x != k && x in t.clients ==> t.clients[x] == s.clients[x]
    ensures ClientStep(s, c, k, t)
  {
  }

  lemma CaseClient(s: State, c: Completion, t: State)
    requires Inv(s) && Allowed(s, c) && c.id < |s.pool.ops| && Outcomes(s, c, t)
    ensures ClientStep(s, c, s.pool.ops[c.id].clientId, t)
  {
    if Connects(s, c, t) {
      ConnectsClient(s, c, t);
    } else {
      var k := s.pool.ops[c.id].clientId;
      if k !in s.clients { MinusAbsent(s.clients, k); }
      QuietClient(s, c, k, s.pool.ops[c.id].clientFd, t);
    }
  }

  ghost predicate Gone(r: Outcome, k: nat) {
    r.Live? ==> k < r.s.nextId && k !in r.s.clients
  }

  lemma NextKeepsGone(r: Outcome, c: Completion, k: nat)
    requires Safe(r) && Gone(r, k)
    ensures Gone(Next(r, c), k)
  {
    if r.Live? && Allowed(r.s, c) && Step(r.s, c).Live? {
      StepSafe(r.s, c);
      CaseClient(r.s, c, Step(r.s, c).s);
    }
  }

  /** A client id that has left the map never comes back, whatever happens next. */
  lemma {:induction false} DroppedForever(r: Outcome, more: seq<Completion>, k: nat)
    requires Safe(r) && Gone(r, k)
    ensures Gone(RunFrom(r, more), k)
  {
    if |more| > 0 {
      var init := more[..|more| - 1];
      DroppedForever(r, init, k);
      RunFromSafe(r, init);
      NextKeepsGone(RunFrom(r, init), more[|more| - 1], k);
    }
  }

  /** A client in the map now, with an id given out earlier, has been in the map all along. */
  lemma NextWasThere(r: Outcome, c: Completion, k: nat)
    requires Safe(r) && Next(r, c).Live? && k in Next(r, c).s.clients && (r.Live? ==> k < r.s.nextId)
    ensures r.Live? && k in r.s.clients
  {
    if r.Live? && k !in r.s.clients { NextKeepsGone(r, c, k); }
  }

  lemma {:induction false} StillYounger(r: Outcome, cs: seq<Completion>, k: nat)
    requires Safe(r) && r.Live? && k < r.s.nextId
    ensures RunFrom(r, cs).Live? ==> k < RunFrom(r, cs).s.nextId
  {
    if |cs| > 0 {
      var init, c := cs[..|cs| - 1], cs[|cs| - 1];
      StillYounger(r, init, k);
      RunFromSafe(r, init);
      NextYounger(RunFrom(r, init), c, k);
    }
  }

  lemma NextYounger(r: Outcome, c: Completion, k: nat)
    requires Safe(r) && (r.Live? ==> k < r.s.nextId)
    ensures Next(r, c).Live? ==> k < Next(r, c).s.nextId
  {
    if r.Live? && Allowed(r.s, c) && Step(r.s, c).Live? {
      StepSafe(r.s, c);
      CaseClient(r.s, c, Step(r.s, c).s);
    }
  }

  /**
   A completion that arrives for a dropped client only returns resources: the map, the sockets and
   the outbox are as before, and the operation is free.
   */
  lemma LateCompletionHarmless(s: State, c: Completion)
    requires Inv(s) && Allowed(s, c)
    requires c.id < |s.pool.ops| && s.pool.ops[c.id].clientId !in s.clients
    ensures Step(s, c).Live?
    ensures var t := Step(s, c).s;
            && Inv(t) && !Out(t.pool, c.id)
            && t.clients == s.clients && t.open == s.open && t.outbox == s.outbox && t.nextId == s.nextId
            && (forall id: nat :: Out(t.pool, id) <==> Out(s.pool, id) && id != c.id)
            && (forall id: nat :: Out(t.pool, id) ==> Untouched(s, id, t))
  {
    assert Out(s.pool, c.id);
    if c.res < 0 {
      var t := StepFails(s, c);
    } else {
      var t := StepLate(s, c);
    }
    MinusAbsent(s.clients, s.pool.ops[c.id].clientId);
  }

  /** A completion disturbs no other operation: fields, submission, buffer and history stay as they are. */
  lemma OthersUndisturbed(s: State, c: Completion, id: nat)
    requires Inv(s) && Allowed(s, c) && Step(s, c).Live? && Out(s.pool, id) && id != c.id
    ensures Untouched(s, id, Step(s, c).s)
  {
    StepSafe(s, c);
  }

  /**
   The operation in flight names a descriptor that is open for another client. A dropped client's WRITE keeps
   the descriptor that was closed with it, and a later accept may return that number.
   */
  predicate Aliased(s: State, id: nat) {
    && Out(s.pool, id) && s.pool.ops[id].kind != OpAccept
    && s.pool.ops[id].clientFd in s.open && s.open[s.pool.ops[id].clientFd] != s.pool.ops[id].clientId
  }

  /** Among the operations whose descriptor is open, those are exactly the ones of dropped clients. */
  lemma AliasedIff(s: State, id: nat)
    requires Inv(s) && Out(s.pool, id) && s.pool.ops[id].kind != OpAccept
    ensures Aliased(s, id) <==> s.pool.ops[id].clientId !in s.clients && s.pool.ops[id].clientFd in s.open
  {
    assert Connected(s.clients, s.nextId, s.pool.ops[id].clientId) <==> s.pool.ops[id].clientId in s.clients;
  }

  /** It becomes so exactly when an accept returns the descriptor of a dropped client's operation. */
  lemma NewlyAliased(s: State, c: Completion, id: nat)
    requires Inv(s) && Allowed(s, c) && Step(s, c).Live?
    requires Out(s.pool, id) && id != c.id && !Aliased(s, id)
    ensures c.id < |s.pool.ops| && Untouched(s, id, Step(s, c).s)
    ensures Aliased(Step(s, c).s, id) <==>
              && s.pool.ops[c.id].kind == OpAccept && c.res == s.pool.ops[id].clientFd
              && s.pool.ops[id].clientId !in s.clients && s.pool.ops[id].kind != OpAccept
  {
    StepSafe(s, c);
    OthersUndisturbed(s, c, id);
    var t := Step(s, c).s;
    if s.pool.ops[id].kind != OpAccept {
      AliasedIff(s, id);
      AliasedIff(t, id);
      AliasCases(s, c, id, t);
    }
  }

  lemma AliasCases(s: State, c: Completion, id: nat, t: State)
    requires Inv(s) && Allowed(s, c) && c.id < |s.pool.ops| && Outcomes(s, c, t)
    requires Out(s.pool, id) && s.pool.ops[id].kind != OpAccept && id != c.id
    requires s.pool.ops[id].clientId !in s.clients ==> s.pool.ops[id].clientFd !in s.open
    ensures s.pool.ops[id].clientId !in t.clients && s.pool.ops[id].clientFd in t.open <==>
              && s.pool.ops[c.id].kind == OpAccept && c.res == s.pool.ops[id].clientFd
              && s.pool.ops[id].clientId !in s.clients
  {
    CaseClient(s, c, t);
    assert Connected(s.clients, s.nextId, s.pool.ops[id].clientId) <==> s.pool.ops[id].clientId in s.clients;
    if Connects(s, c, t) {
      assert s.pool.ops[id].clientId < s.nextId;
    }
  }

  /** And that does happen: a READ fails while a WRITE is in flight, and the next connection gets the same number. */
  lemma AliasArises(s: State, w: nat, r: nat, a: nat) returns (t: State, u: State)
    requires Inv(s) && Out(s.pool, w) && s.pool.ops[w].kind == OpWrite && s.pool.ops[w].clientId in s.clients
    requires Owner(s.pool, r, s.pool.ops[w].clientId) && InAccept(s, a)
    ensures var fail, accept := Completion(r, 0, -1, []), Completion(a, 0, s.pool.ops[w].clientFd, []);
            && Allowed(s, fail) && Step(s, fail) == Live(t)
            && Allowed(t, accept) && Step(t, accept) == Live(u)
            && Aliased(u, w)
  {
    var fail, accept := Completion(r, 0, -1, []), Completion(a, 0, s.pool.ops[w].clientFd, []);
    assert SubOk(s, r) && SubOk(s, a);
    t := StepFails(s, fail);
    assert Untouched(s, w, t) && Untouched(s, a, t);
    assert SubOk(t, a);
    u := StepConnects(t, accept);
    NewlyAliased(t, accept, w);
  }

  // ---------------------------------------------------------------------- sending

  /**
   A send completion for a connected client acknowledges exactly the next bytes of the message: no
   gap, no repeat. The operation is freed exactly when every byte has been acknowledged.
   */
  lemma SendProgress(s: State, c: Completion)
    requires Inv(s) && Allowed(s, c) && c.res >= 0
    requires c.id < |s.pool.ops| && s.pool.ops[c.id].kind == OpWrite && s.pool.ops[c.id].clientId in s.clients
    ensures Step(s, c).Live?
    ensures var t, op := Step(s, c).s, s.pool.ops[c.id];
            && c.id in s.msg && c.id in s.acked && c.id in t.acked
            && op.processed + c.res <= |s.msg[c.id]|
            && t.acked[c.id] == s.acked[c.id] + s.msg[c.id][op.processed..op.processed + c.res]
            && (!Out(t.pool, c.id) <==> t.acked[c.id] == s.msg[c.id])
            && (Out(t.pool, c.id) ==> c.id in t.msg && t.msg[c.id] == s.msg[c.id])
  {
    assert Out(s.pool, c.id);
    var t := StepWrote(s, c);
    WroteProgress(s, c, t);
  }

  lemma WroteProgress(s: State, c: Completion, t: State)
    requires Wrote(s, c, t)
    ensures var op := s.pool.ops[c.id];
            && t.acked[c.id] == s.acked[c.id] + s.msg[c.id][op.processed..op.processed + c.res]
            && (!Out(t.pool, c.id) <==> t.acked[c.id] == s.msg[c.id])
  {
    var m, n := s.msg[c.id], s.pool.ops[c.id].processed;
    assert m[..n + c.res] == m[..n] + m[n..n + c.res];
    assert |m[..n + c.res]| == n + c.res;
  }
}
