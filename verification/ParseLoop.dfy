/**
 The parse loop of `handle_recv`, turn by turn, and the checks of a request (server.c:14-20, server.c:337-439).

 The predicates that mention recursive functions come in pairs: `XIs` says what is meant, and `X` says the
 same under a quantifier, so that it is unfolded only where `XIs` is named.
 */
module ParseLoop {
  import opened Base
  import O = Ops
  import Protocol
  import M = ServerState

  /** The bytes of a request, as far as they are there, with its sequence id. */
  function FrameIn(data: seq<byte>, pos: nat, len: nat, seqid: u64): M.Frame
    requires pos <= |data|
  {
    M.Frame(if pos + len <= |data| then data[pos..pos + len] else [], seqid)
  }

  /** What one turn of the parse loop decides from the header. */
  function Decide(pos: nat, rem: nat, len: nat, msgt: byte): Option<M.Ending> {
    if len > M.LARGE then Some(M.Reject)
    else if rem < len then Some(M.Stop(pos, rem, pos != 0))
    else if msgt != Protocol.MSGT_SET_USERNAME then Some(M.Reject)
    else if len == 0 then Some(M.Spin)
    else None
  }

  ghost predicate TurnsIs(data: seq<byte>, pos: nat, rem: nat, len: nat, end: Option<M.Ending>, f: M.Frame) {
    && Protocol.PROT_HDR_LEN <= rem && pos + rem <= |data|
    && len == Protocol.HdrLen(data[pos..])
    && end == Decide(pos, rem, len, Protocol.HdrType(data[pos..]))
    && f == FrameIn(data, pos, len, Protocol.HdrSeqid(data[pos..]))
  }

  /** One turn makes this of the bytes; unfolded only where `TurnsIs` is named. */
  ghost predicate Turns(data: seq<byte>, pos: nat, rem: nat, len: nat, end: Option<M.Ending>, f: M.Frame) {
    forall e {:trigger TurnsIs(data, pos, rem, len, e, f)} :: e == end ==> TurnsIs(data, pos, rem, len, e, f)
  }

  /** `deser_header` at the current position. */
  method Look(buf: array<byte>, pos: nat, rem: nat) returns (len: nat, msgt: byte, seqid: u64)
    requires pos + rem <= buf.Length && rem >= Protocol.PROT_HDR_LEN
    ensures Turns(buf[..], pos, rem, len, Decide(pos, rem, len, msgt), FrameIn(buf[..], pos, len, seqid))
  {
    assert buf[pos..] == buf[..][pos..];
    len, msgt, seqid := Protocol.DeserHeader(buf, pos);
  }

  /** The loop has taken the requests `done` and stands at `pos` with `rem` bytes left. */
  ghost predicate StandsIs(data: seq<byte>, n: nat, done: seq<M.Frame>, pos: nat, rem: nat) {
    && pos + rem == n <= |data|
    && M.Parse(data, 0, n) == M.Parsed(done + M.Parse(data, pos, rem).frames, M.Parse(data, pos, rem).end)
  }

  /** The same, unfolded only where `StandsIs` is named; so for the two predicates below. */
  ghost predicate Stands(data: seq<byte>, n: nat, done: seq<M.Frame>, pos: nat, rem: nat) {
    forall d {:trigger StandsIs(data, n, d, pos, rem)} :: d == done ==> StandsIs(data, n, d, pos, rem)
  }

  /** Handling the requests `done` leads from `s` to `t`. */
  ghost predicate ServesIs(s: M.State, op: O.Operation, done: seq<M.Frame>, t: M.State) {
    M.Shape(s) && op.clientId in s.clients && t == M.Serve(s, op, done)
  }

  ghost predicate Serves(s: M.State, op: O.Operation, done: seq<M.Frame>, t: M.State) {
    forall d {:trigger ServesIs(s, op, d, t)} :: d == done ==> ServesIs(s, op, d, t)
  }

  ghost predicate ParsesToIs(data: seq<byte>, n: nat, p: M.Parsed) {
    n <= |data| && p == M.Parse(data, 0, n)
  }

  /** The loop makes `p` of the bytes. */
  ghost predicate ParsesTo(data: seq<byte>, n: nat, p: M.Parsed) {
    forall q {:trigger ParsesToIs(data, n, q)} :: q == p ==> ParsesToIs(data, n, q)
  }

  /** How the loop ends, and the state it leaves. */
  ghost predicate Finishes(data: seq<byte>, n: nat, s: M.State, op: O.Operation, end: M.Ending, t: M.State) {
    exists done :: ParsesTo(data, n, M.Parsed(done, end)) && (!end.Spin? ==> Serves(s, op, done, t))
  }

  lemma NothingTaken(data: seq<byte>, n: nat)
    requires n <= |data|
    ensures Stands(data, n, [], 0, n)
  {
    var p := M.Parse(data, 0, n);
    assert p == M.Parsed([] + p.frames, p.end);
  }

  lemma TurnTakes(data: seq<byte>, n: nat, done: seq<M.Frame>, pos: nat, rem: nat, len: nat, end: Option<M.Ending>,
                  f: M.Frame)
    requires Stands(data, n, done, pos, rem) && Turns(data, pos, rem, len, end, f) && end.None? && len <= rem
    ensures Stands(data, n, done + [f], pos + len, rem - len)
  {
    assert StandsIs(data, n, done, pos, rem) && TurnsIs(data, pos, rem, len, end, f);
    var rest := M.Parse(data, pos + len, rem - len).frames;
    assert (done + [f]) + rest == done + ([f] + rest);
  }

  lemma TurnEnds(data: seq<byte>, n: nat, done: seq<M.Frame>, pos: nat, rem: nat, len: nat, end: Option<M.Ending>,
                 f: M.Frame)
    requires Stands(data, n, done, pos, rem) && Turns(data, pos, rem, len, end, f) && end.Some?
    ensures ParsesTo(data, n, M.Parsed(done, end.value))
  {
    assert StandsIs(data, n, done, pos, rem) && TurnsIs(data, pos, rem, len, end, f);
    assert done + [] == done;
  }

  lemma BytesEnd(data: seq<byte>, n: nat, done: seq<M.Frame>, pos: nat, rem: nat)
    requires Stands(data, n, done, pos, rem) && rem < Protocol.PROT_HDR_LEN
    ensures ParsesTo(data, n, M.Parsed(done, M.Stop(pos, rem, false)))
  {
    assert StandsIs(data, n, done, pos, rem);
    assert done + [] == done;
  }

  lemma NothingServed(s: M.State, op: O.Operation)
    requires M.Shape(s) && op.clientId in s.clients
    ensures Serves(s, op, [], s)
  {
  }

  lemma LoopEnds(data: seq<byte>, n: nat, s: M.State, op: O.Operation, done: seq<M.Frame>, end: M.Ending, t: M.State)
    requires ParsesTo(data, n, M.Parsed(done, end)) && (!end.Spin? ==> Serves(s, op, done, t))
    ensures Finishes(data, n, s, op, end, t)
  {
  }

  /** Storing what memmove copies is storing the whole buffer as it is afterwards. */
  lemma MovedBytes(m: M.Mem, p: O.Ptr, pos: nat, rem: nat)
    requires M.Resolves(m, p) && pos <= rem <= |M.BufAt(m, p).data|
    ensures var data := M.BufAt(m, p).data;
            M.Poke(m, p, 0, data[pos..pos + |data| - rem]) == M.Poke(m, p, 0, M.Moved(data, pos, rem))
  {
    var data := M.BufAt(m, p).data;
    var n := |data| - rem;
    var bytes := data[pos..pos + n];
    assert data[..0] + bytes + data[n..] == data[..0] + (bytes + data[n..]) + data[|data|..];
  }

  /**
   The checks of a SET_USERNAME request, and the error code that answers it: 2 unless the name has 3 to 15 characters,
   else 3 if one of them is not a letter or digit.
   */
  method CheckUsername(req: seq<byte>, ghost seqid: u64) returns (error: Option<byte>)
    ensures error == if !(14 <= |req| <= 26) then Some(2)
                     else if !M.UsernameValid(req[11..]) then Some(3)
                     else None
    ensures M.AnswerBytes(seqid, error) == M.ReplyBytes(req, seqid)
    ensures error.None? <==> M.NameOk(req)
  {
    var unameLen := O.Sub64(|req|, Protocol.PROT_HDR_LEN);
    if unameLen < Protocol.MIN_UNAME_LEN || unameLen > Protocol.MAX_UNAME_LEN {
      return Some(M.CODE_INVALID_MSG_LEN);
    }
    var valid := UsernameValid(req[Protocol.PROT_HDR_LEN..]);
    if !valid {
      return Some(M.CODE_INVALID_USERNAME);
    }
    return None;
  }

  /** `isalnum` in the C locale. */
  function IsAlnum(c: byte): (r: bool)
    ensures r <==> '0' <= c as char <= '9' || 'A' <= c as char <= 'Z' || 'a' <= c as char <= 'z'
  {
    48 <= c <= 57 || 65 <= c <= 90 || 97 <= c <= 122
  }

  /** `username_valid`. */
  method UsernameValid(username: seq<byte>) returns (valid: bool)
    ensures valid <==> forall i :: 0 <= i < |username| ==>
                         var c := username[i] as char; '0' <= c <= '9' || 'A' <= c <= 'Z' || 'a' <= c <= 'z'
    ensures valid <==> M.UsernameValid(username)
  {
    var i := 0;
    while i < |username|
      invariant 0 <= i <= |username| && forall j :: 0 <= j < i ==> IsAlnum(username[j])
    {
      if !IsAlnum(username[i]) { return false; }
      i := i + 1;
    }
    return true;
  }
}
