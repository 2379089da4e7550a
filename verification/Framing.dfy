/**
 Framing: what `handle_recv` makes of the bytes a client sends, over whole runs.

 Receives made of whole frames are dispatched frame by frame, once each and in order. The next
 completion after a cut frame counts only its own bytes, so what becomes of the frame depends on how
 many bytes follow it.
 */
module Framing {
  import opened Base
  import opened Ops
  import opened PoolModel
  import opened Protocol
  import opened ServerState
  import opened ServerInvariant
  import opened ServerSteps
  import opened ServerRuns

  /** A SET_USERNAME request whose frame has a declared length of 11 to 2048. */
  datatype Request = Request(seqid: u64, name: seq<byte>)

  predicate Fits(r: Request) { PROT_HDR_LEN + |r.name| <= LARGE }

  predicate AllFit(rs: seq<Request>) { forall i :: 0 <= i < |rs| ==> Fits(rs[i]) }

  function Encode(r: Request): seq<byte> { EncSetUsername(r.seqid, r.name) }

  function Stream(rs: seq<Request>): seq<byte> {
    if |rs| == 0 then [] else Encode(rs[0]) + Stream(rs[1..])
  }

  function FrameOf(r: Request): Frame { Frame(Encode(r), r.seqid) }

  function FramesOf(rs: seq<Request>): seq<Frame> {
    if |rs| == 0 then [] else [FrameOf(rs[0])] + FramesOf(rs[1..])
  }

  // -------------------------------------------------------------- the parse loop

  /** One whole frame at the front is handed over with its own bytes and seqid. */
  lemma ParseFrame(data: seq<byte>, pos: nat, rem: nat, r: Request)
    requires Fits(r) && |Encode(r)| <= rem && pos + rem <= |data|
    requires data[pos..pos + |Encode(r)|] == Encode(r)
    ensures Continues(Parse(data, pos, rem), [FrameOf(r)], Parse(data, pos + |Encode(r)|, rem - |Encode(r)|))
  {
    var hdr, e := data[pos..], Encode(r);
    assert hdr[..11] == e[..11] == EncHeader(|e|, MSGT_SET_USERNAME, r.seqid) by {
      assert hdr[..|e|] == e;
    }
    HeaderFields(hdr, |e|, MSGT_SET_USERNAME, r.seqid);
  }

  ghost predicate Continues(whole: Parsed, frames: seq<Frame>, rest: Parsed) {
    whole == Parsed(frames + rest.frames, rest.end)
  }

  lemma ContinuesTrans(a: Parsed, f: Frame, b: Parsed, fs: seq<Frame>, c: Parsed)
    requires Continues(a, [f], b) && Continues(b, fs, c)
    ensures Continues(a, [f] + fs, c)
  {
    assert [f] + (fs + c.frames) == [f] + fs + c.frames;
  }

  /** From `pos` the loop hands over these frames and goes on at `next`. */
  ghost predicate GoesIs(data: seq<byte>, pos: nat, rem: nat, frames: seq<Frame>, next: nat, left: nat) {
    && pos + rem == next + left <= |data|
    && Continues(Parse(data, pos, rem), frames, Parse(data, next, left))
  }

  /** The same, unfolded only where `GoesIs` is named. */
  ghost predicate Goes(data: seq<byte>, pos: nat, rem: nat, frames: seq<Frame>, next: nat, left: nat) {
    forall fs {:trigger GoesIs(data, pos, rem, fs, next, left)} :: fs == frames ==>
      GoesIs(data, pos, rem, fs, next, left)
  }

  lemma GoNowhere(data: seq<byte>, pos: nat, rem: nat)
    requires pos + rem <= |data|
    ensures Goes(data, pos, rem, [], pos, rem)
  {
  }

  lemma GoOneFrame(data: seq<byte>, pos: nat, rem: nat, r: Request)
    requires Fits(r) && |Encode(r)| <= rem && pos + rem <= |data|
    requires data[pos..pos + |Encode(r)|] == Encode(r)
    ensures Goes(data, pos, rem, [FrameOf(r)], pos + |Encode(r)|, rem - |Encode(r)|)
  {
    ParseFrame(data, pos, rem, r);
  }

  lemma GoOn(data: seq<byte>, pos: nat, rem: nat, f: Frame, mid: nat, more: nat, fs: seq<Frame>, next: nat, left: nat)
    requires Goes(data, pos, rem, [f], mid, more) && Goes(data, mid, more, fs, next, left)
    ensures Goes(data, pos, rem, [f] + fs, next, left)
  {
    assert GoesIs(data, pos, rem, [f], mid, more) && GoesIs(data, mid, more, fs, next, left);
    ContinuesTrans(Parse(data, pos, rem), f, Parse(data, mid, more), fs, Parse(data, next, left));
  }

  lemma {:induction false} GoStream(data: seq<byte>, pos: nat, rem: nat, rs: seq<Request>, end: nat, left: nat)
    requires AllFit(rs) && pos + rem == end + left <= |data| && end == pos + |Stream(rs)|
    requires data[pos..end] == Stream(rs)
    ensures Goes(data, pos, rem, FramesOf(rs), end, left)
    decreases |rs|
  {
    if |rs| == 0 {
      GoNowhere(data, pos, rem);
    } else {
      var m := |Encode(rs[0])|;
      StreamSplit(data, pos, rs, end);
      GoStream(data, pos + m, rem - m, rs[1..], end, left);
      GoFirst(data, pos, rem, rs[0], FramesOf(rs[1..]), end, left);
    }
  }

  lemma {:induction false} GoFirst(data: seq<byte>, pos: nat, rem: nat, r: Request, fs: seq<Frame>, end: nat, left: nat)
    requires Fits(r) && |Encode(r)| <= rem && pos + rem <= |data|
    requires data[pos..pos + |Encode(r)|] == Encode(r)
    requires Goes(data, pos + |Encode(r)|, rem - |Encode(r)|, fs, end, left)
    ensures Goes(data, pos, rem, [FrameOf(r)] + fs, end, left)
  {
    GoOneFrame(data, pos, rem, r);
    GoOn(data, pos, rem, FrameOf(r), pos + |Encode(r)|, rem - |Encode(r)|, fs, end, left);
  }

  /** Whole frames at the front are handed over in order; the loop goes on behind them, at `end`. */
  lemma {:induction false} ParseStream(data: seq<byte>, pos: nat, rem: nat, rs: seq<Request>, end: nat, left: nat)
    requires AllFit(rs) && pos + rem == end + left <= |data| && end == pos + |Stream(rs)|
    requires data[pos..end] == Stream(rs)
    ensures Continues(Parse(data, pos, rem), FramesOf(rs), Parse(data, end, left))
  {
    GoStream(data, pos, rem, rs, end, left);
    assert GoesIs(data, pos, rem, FramesOf(rs), end, left);
  }

  lemma {:induction false} StreamSplit(data: seq<byte>, pos: nat, rs: seq<Request>, end: nat)
    requires |rs| > 0 && end == pos + |Stream(rs)| <= |data| && data[pos..end] == Stream(rs)
    ensures var n := |Encode(rs[0])|;
            && end == pos + n + |Stream(rs[1..])|
            && data[pos..pos + n] == Encode(rs[0])
            && data[pos + n..end] == Stream(rs[1..])
  {
    SliceSplit(data, pos, Encode(rs[0]), Stream(rs[1..]));
  }

  lemma SliceSplit(data: seq<byte>, pos: nat, a: seq<byte>, b: seq<byte>)
    requires pos + |a| + |b| <= |data| && data[pos..pos + |a| + |b|] == a + b
    ensures data[pos..pos + |a|] == a
    ensures data[pos + |a|..pos + |a| + |b|] == b
  {
    var d := data[pos..pos + |a| + |b|];
    assert data[pos..pos + |a|] == d[..|a|];
    assert data[pos + |a|..pos + |a| + |b|] == d[|a|..];
  }

  /** A header is read the same in the buffer and in a copy of its bytes. */
  lemma SameHeader(data: seq<byte>, pos: nat, end: nat, part: seq<byte>)
    requires pos + PROT_HDR_LEN <= end <= |data| && data[pos..end] == part
    ensures HdrLen(data[pos..]) == HdrLen(part) && HdrType(data[pos..]) == HdrType(part)
  {
    var h := data[pos..];
    assert h[0] == part[0] && h[1] == part[1] && h[2] == part[2];
    assert h[0..2] == part[0..2];
  }

  /** An acceptable name, as the protocol documents it. */
  predicate GoodName(name: seq<byte>) {
    3 <= |name| <= 15 && UsernameValid(name)
  }

  /** A request byte for byte: `<len> <01> <seqid>` and the name. */
  lemma EncodeBytes(r: Request)
    requires Fits(r)
    ensures var e := Encode(r);
            |e| == 11 + |r.name| && Headed(e, |e|, 1, r.seqid) && e[11..] == r.name
  {
    HeaderOnWire(Encode(r), |Encode(r)|, MSGT_SET_USERNAME, r.seqid);
  }

  /** The name stored after a list of requests is that of the last good one; without one it is the name before. */
  ghost predicate NameAfter(before: seq<byte>, rs: seq<Request>, now: seq<byte>) {
    && (forall i: nat :: LastGood(rs, i) ==> now == rs[i].name)
    && ((forall i :: 0 <= i < |rs| ==> !GoodName(rs[i].name)) ==> now == before)
  }

  /** The name of the request `i` is good, and none behind it is. */
  predicate LastGood(rs: seq<Request>, i: nat) {
    i < |rs| && GoodName(rs[i].name) && forall j :: i < j < |rs| ==> !GoodName(rs[j].name)
  }

  /** The answer to a request, byte for byte. */
  predicate AnswerTo(b: seq<byte>, r: Request) {
    if !(3 <= |r.name| <= 15) then |b| == 12 && Headed(b, 12, 0, r.seqid) && b[11] == 2
    else if !UsernameValid(r.name) then |b| == 12 && Headed(b, 12, 0, r.seqid) && b[11] == 3
    else |b| == 11 && Headed(b, 11, 2, r.seqid)
  }

  /** One answer to each request, in order. */
  predicate AnswerEach(bs: seq<seq<byte>>, rs: seq<Request>) {
    |bs| == |rs| && forall i :: 0 <= i < |rs| ==> AnswerTo(bs[i], rs[i])
  }

  /** The frame carries an acceptable name; one shorter than a header carries none. */
  predicate GoodFrame(frame: seq<byte>) {
    |frame| >= PROT_HDR_LEN && GoodName(frame[PROT_HDR_LEN..])
  }

  /**
   Every reply to a dispatched frame, whatever length that declares, carries the frame's seqid, and says success
   exactly for an acceptable name; otherwise its code says whether the length or the characters are wrong.
   */
  lemma ReplyMeaning(frame: seq<byte>, seqid: u64)
    requires |frame| <= LARGE
    ensures var b := ReplyBytes(frame, seqid);
            && |b| >= PROT_HDR_LEN && HdrLen(b) == |b| && HdrSeqid(b) == seqid
            && (HdrType(b) == MSGT_SET_USERNAME_RESPONSE <==> GoodFrame(frame))
            && (HdrType(b) == MSGT_SERVER_ERROR <==> !GoodFrame(frame))
            && (HdrType(b) == MSGT_SERVER_ERROR ==>
                  |b| == 12 && b[11] == (if PROT_HDR_LEN + MIN_UNAME_LEN <= |frame| <= PROT_HDR_LEN + MAX_UNAME_LEN
                                         then CODE_INVALID_USERNAME else CODE_INVALID_MSG_LEN))
    ensures NameOk(frame) <==> GoodFrame(frame)
  {
    HeaderFields(EncSetUsernameResponse(seqid), 11, MSGT_SET_USERNAME_RESPONSE, seqid);
    HeaderFields(EncServerError(seqid, CODE_INVALID_MSG_LEN), 12, MSGT_SERVER_ERROR, seqid);
    HeaderFields(EncServerError(seqid, CODE_INVALID_USERNAME), 12, MSGT_SERVER_ERROR, seqid);
  }

  /**
   A buffer that starts with a frame, of which a receive counts `n` bytes - all of the frame or not, and with
   whatever behind it: the frame is dispatched exactly when it is counted whole. Otherwise nothing is dispatched
   and nothing is moved.
   */
  lemma {:induction false} WholeFrameOrNothing(data: seq<byte>, r: Request, n: nat)
    requires Fits(r) && 0 < n <= |data| && |Encode(r)| <= |data|
    requires data[..Min(n, |Encode(r)|)] == Encode(r)[..Min(n, |Encode(r)|)]
    ensures n >= |Encode(r)| <==> StartsWith(Parse(data, 0, n).frames, FrameOf(r))
    ensures n < |Encode(r)| ==> Parse(data, 0, n) == Parsed([], Stop(0, n, false))
    ensures n >= |Encode(r)| ==> Continues(Parse(data, 0, n), [FrameOf(r)], Parse(data, |Encode(r)|, n - |Encode(r)|))
    ensures n == |Encode(r)| ==> Parse(data, 0, n) == Parsed([FrameOf(r)], Stop(n, 0, false))
  {
    var e := Encode(r);
    if n >= |e| {
      assert data[0..0 + |e|] == data[..|e|] && e[..|e|] == e;
      ParseFrame(data, 0, n, r);
    } else if n >= 11 {
      assert data[0..][..11] == data[..n][..11] == e[..n][..11] == EncHeader(|e|, MSGT_SET_USERNAME, r.seqid);
      HeaderFields(data[0..], |e|, MSGT_SET_USERNAME, r.seqid);
    }
  }

  /**
   The reply byte for byte. `<00 0c> <00> <seqid> <02>` unless the frame has 14 to 26 bytes, `<00 0c> <00> <seqid> <03>`
   if a character of the name is not a letter or digit, and otherwise `<00 0b> <02> <seqid>`.
   */
  lemma ReplyOnWire(frame: seq<byte>, seqid: u64)
    requires |frame| <= 2048
    ensures var b := ReplyBytes(frame, seqid);
            && Headed(b, |b|, if |b| == 12 then 0 else 2, seqid)
            && (!(14 <= |frame| <= 26) ==> |b| == 12 && b[11] == 2)
            && (14 <= |frame| <= 26 ==>
                  if forall i :: 11 <= i < |frame| ==>
                       var c := frame[i] as char; '0' <= c <= '9' || 'A' <= c <= 'Z' || 'a' <= c <= 'z'
                  then |b| == 11
                  else |b| == 12 && b[11] == 3)
  {
    HeaderOnWire(EncServerError(seqid, CODE_INVALID_MSG_LEN), 12, MSGT_SERVER_ERROR, seqid);
    HeaderOnWire(EncServerError(seqid, CODE_INVALID_USERNAME), 12, MSGT_SERVER_ERROR, seqid);
    HeaderOnWire(EncSetUsernameResponse(seqid), 11, MSGT_SET_USERNAME_RESPONSE, seqid);
    if 14 <= |frame| <= 26 {
      var name := frame[11..];
      assert forall i :: 0 <= i < |name| ==> name[i] == frame[11 + i];
      assert forall i :: 11 <= i < |frame| ==> frame[i] == name[i - 11];
    }
  }

  lemma ReplyAnswers(r: Request)
    requires Fits(r)
    ensures AnswerTo(ReplyBytes(Encode(r), r.seqid), r)
    ensures NameOk(Encode(r)) <==> GoodName(r.name)
  {
    EncodeBytes(r);
    ReplyOnWire(Encode(r), r.seqid);
    ReplyMeaning(Encode(r), r.seqid);
    var e := Encode(r);
    assert forall i :: 0 <= i < |r.name| ==> r.name[i] == e[11 + i];
    assert forall i :: 11 <= i < |e| ==> e[i] == r.name[i - 11];
  }

  predicate StartsWith(frames: seq<Frame>, f: Frame) { |frames| > 0 && frames[0] == f }

  // ------------------------------------------------------- memmove of the remainder

  /** The buffer after the memmove, byte by byte: `buf_cap - rem` bytes come from `pos` on, the others stay. */
  lemma MovedAt(d: seq<byte>, pos: nat, rem: nat, i: nat)
    requires pos <= rem <= |d| && i < |d|
    ensures Moved(d, pos, rem)[i] == if i < |d| - rem then d[pos + i] else d[i]
  {
  }

  /**
   The memmove that keeps an incomplete frame of `rem` bytes copies `buf_cap - rem` bytes. It brings this
   remainder to the front exactly when that is enough, or the bytes it leaves behind happen to be the right ones.
   */
  lemma MoveKeepsThis(d: seq<byte>, pos: nat, rem: nat)
    requires 0 < pos <= rem && pos + rem <= |d|
    ensures var n := |d| - rem;
            Moved(d, pos, rem)[..rem] == d[pos..pos + rem] <==> 2 * rem <= |d| || d[n..rem] == d[pos + n..pos + rem]
  {
    var n := |d| - rem;
    var m := Moved(d, pos, rem);
    if 2 * rem <= |d| {
      assert m[..rem] == d[pos..pos + n][..rem] == d[pos..pos + rem];
    } else {
      assert m[..n] == d[pos..pos + n] == d[pos..pos + rem][..n];
      assert m[n..rem] == d[n..rem];
      assert d[pos..pos + rem][n..] == d[pos + n..pos + rem];
      assert m[..rem] == m[..n] + m[n..rem];
      assert d[pos..pos + rem] == d[pos..pos + rem][..n] + d[pos..pos + rem][n..];
    }
  }

  lemma {:induction false} MoveLoses(cap: nat, pos: nat, rem: nat) returns (d: seq<byte>)
    requires 0 < pos <= rem && pos + rem <= cap < 2 * rem
    ensures |d| == cap && Moved(d, pos, rem)[..rem] != d[pos..pos + rem]
  {
    var n := cap - rem;
    d := seq(cap, i => if i == n then 1 else 0);
    assert Moved(d, pos, rem)[..rem][n] == d[n] == 1;
    assert d[pos..pos + rem][n] == d[pos + n] == 0;
  }

  /** It brings every remainder of `rem` bytes to the front exactly when that is at most half of the buffer. */
  lemma MoveKeepsTail(cap: nat, pos: nat, rem: nat)
    requires 0 < pos <= rem && pos + rem <= cap
    ensures (forall d: seq<byte> :: |d| == cap ==> Moved(d, pos, rem)[..rem] == d[pos..pos + rem]) <==> 2 * rem <= cap
  {
    if 2 * rem <= cap {
      forall d: seq<byte> | |d| == cap ensures Moved(d, pos, rem)[..rem] == d[pos..pos + rem] {
        MoveKeepsThis(d, pos, rem);
      }
    } else {
      var d := MoveLoses(cap, pos, rem);
    }
  }
}
