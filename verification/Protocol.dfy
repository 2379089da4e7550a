/**
 The wire codec (protocol.c). Every message starts with a packed 11-byte header
 <len:2> <msgt:1> <seqid:8>; the packed structs give all offsets.

 The `Enc*`, `Hdr*` and `Dec*` functions fix the wire format in network byte order, independently of
 the host. The methods below do what the source does on a little-endian host - swap words, copy
 them in and out of caller-supplied buffers - and are proved to meet that format, and to put every
 byte where the packed structs have it: `ShortAt`, `WordAt` and `Headed` say that without the codec.
 */
module Protocol {
  import opened Base
  import opened Wire

  const PROT_HDR_LEN := 11
  const MAX_UIDS_PER_MSG := 200
  const MIN_UNAME_LEN := 3
  const MAX_UNAME_LEN := 15

  const MSGT_SERVER_ERROR: byte := 0
  const MSGT_SET_USERNAME: byte := 1
  const MSGT_SET_USERNAME_RESPONSE: byte := 2
  const MSGT_CREATE_GROUP: byte := 3

  function HdrLen(b: seq<byte>): nat
    requires |b| >= PROT_HDR_LEN
  {
    FromBe(b[0..2])
  }

  function HdrType(b: seq<byte>): byte
    requires |b| >= PROT_HDR_LEN
  {
    b[2]
  }

  function HdrSeqid(b: seq<byte>): u64
    requires |b| >= PROT_HDR_LEN
  {
    DecWord(b[3..11])
  }

  function EncWord(v: u64): (b: seq<byte>)
    ensures |b| == 8
  {
    Be(v, 8)
  }

  function DecWord(b: seq<byte>): u64
    requires |b| == 8
  {
    Pow256Values();
    FromBe(b)
  }

  function EncHeader(len: nat, msgt: byte, seqid: u64): (b: seq<byte>)
    ensures |b| == PROT_HDR_LEN
  {
    Be(len, 2) + [msgt] + EncWord(seqid)
  }

  function EncServerError(seqid: u64, code: byte): (b: seq<byte>)
    ensures |b| == 12
  {
    EncHeader(12, MSGT_SERVER_ERROR, seqid) + [code]
  }

  function EncSetUsername(seqid: u64, uname: seq<byte>): (b: seq<byte>)
    ensures |b| == PROT_HDR_LEN + |uname|
  {
    EncHeader(PROT_HDR_LEN + |uname|, MSGT_SET_USERNAME, seqid) + uname
  }

  function EncSetUsernameResponse(seqid: u64): (b: seq<byte>)
    ensures |b| == PROT_HDR_LEN
  {
    EncHeader(PROT_HDR_LEN, MSGT_SET_USERNAME_RESPONSE, seqid)
  }

  function EncUids(uids: seq<u64>): (b: seq<byte>)
    ensures |b| == 8 * |uids|
  {
    if |uids| == 0 then [] else EncUids(uids[..|uids| - 1]) + EncWord(uids[|uids| - 1])
  }

  function DecUids(raw: seq<byte>): (uids: seq<u64>)
    ensures |uids| == |raw| / 8
  {
    if |raw| < 8 then [] else DecUids(raw[..|raw| - 8]) + [DecWord(raw[|raw| - 8..])]
  }

  function EncCreateGroup(seqid: u64, uids: seq<u64>): seq<byte>
    requires |uids| <= MAX_UIDS_PER_MSG
  {
    EncHeader(12 + 8 * |uids|, MSGT_CREATE_GROUP, seqid) + [|uids|] + EncUids(uids)
  }

  /** The length rule `deser_create_group` enforces on a message of this many bytes. */
  predicate AcceptsCreateGroup(b: seq<byte>) {
    |b| >= 12 && b[11] <= MAX_UIDS_PER_MSG && |b| - 12 == 8 * (b[11] as int)
  }

  // ------------------------------------------------------------------ byte by byte

  /** The two bytes at `p` are `v`, most significant first. */
  predicate ShortAt(b: seq<byte>, p: nat, v: int) {
    p + 2 <= |b| && v == 0x100 * (b[p] as int) + (b[p + 1] as int)
  }

  /** The eight bytes at `p` are `v`, most significant first. */
  predicate WordAt(b: seq<byte>, p: nat, v: int) {
    && p + 8 <= |b|
    && v == 0x100_0000_0000_0000 * (b[p] as int) + 0x1_0000_0000_0000 * (b[p + 1] as int)
            + 0x100_0000_0000 * (b[p + 2] as int) + 0x1_0000_0000 * (b[p + 3] as int)
            + 0x100_0000 * (b[p + 4] as int) + 0x1_0000 * (b[p + 5] as int)
            + 0x100 * (b[p + 6] as int) + (b[p + 7] as int)
  }

  /** The words from `p` on are these. */
  predicate WordsAt(b: seq<byte>, p: nat, vs: seq<u64>) {
    forall i :: 0 <= i < |vs| ==> WordAt(b, p + 8 * i, vs[i])
  }

  /** `<len:2> <msgt:1> <seqid:8>`. */
  predicate Headed(b: seq<byte>, len: int, msgt: int, seqid: int) {
    |b| >= 11 && ShortAt(b, 0, len) && b[2] as int == msgt && WordAt(b, 3, seqid)
  }

  lemma {:induction false} FromBeStep(b: seq<byte>, k: nat)
    requires k < |b|
    ensures FromBe(b[..k + 1]) == 256 * FromBe(b[..k]) + b[k]
  {
    assert b[..k + 1][..k] == b[..k];
  }

  lemma {:induction false} ShortBytes(b: seq<byte>)
    requires |b| == 2
    ensures ShortAt(b, 0, FromBe(b))
  {
    FromBeStep(b, 0);
    FromBeStep(b, 1);
    assert b[..2] == b && b[..0] == [];
  }

  lemma {:induction false} WordBytes(b: seq<byte>)
    requires |b| == 8
    ensures WordAt(b, 0, FromBe(b))
  {
    FromBeStep(b, 0);
    FromBeStep(b, 1);
    FromBeStep(b, 2);
    FromBeStep(b, 3);
    FromBeStep(b, 4);
    FromBeStep(b, 5);
    FromBeStep(b, 6);
    FromBeStep(b, 7);
    assert b[..8] == b && b[..0] == [];
  }

  /** A word inside a longer message. */
  lemma {:induction false} WordInside(b: seq<byte>, p: nat)
    requires p + 8 <= |b|
    ensures WordAt(b, p, DecWord(b[p..p + 8]))
  {
    var w := b[p..p + 8];
    WordBytes(w);
    assert forall i :: 0 <= i < 8 ==> w[i] == b[p + i];
  }

  /** The header fields, read off the bytes. */
  lemma {:induction false} HeaderBytes(b: seq<byte>)
    requires |b| >= PROT_HDR_LEN
    ensures Headed(b, HdrLen(b), HdrType(b), HdrSeqid(b))
  {
    ShortBytes(b[0..2]);
    WordInside(b, 3);
  }

  /** A header as it stands at the front of a message. */
  lemma {:induction false} HeaderOnWire(b: seq<byte>, len: nat, msgt: byte, seqid: u64)
    requires |b| >= PROT_HDR_LEN && len < 65536 && b[..PROT_HDR_LEN] == EncHeader(len, msgt, seqid)
    ensures Headed(b, len, msgt, seqid)
  {
    HeaderFields(b, len, msgt, seqid);
    HeaderBytes(b);
  }

  // ------------------------------------------------------------------ headers

  lemma WordRoundTrip(v: u64)
    ensures DecWord(EncWord(v)) == v
  {
    Pow256Values();
    FromBeOfBe(v, 8);
  }

  lemma WordReencode(b: seq<byte>)
    requires |b| == 8
    ensures EncWord(DecWord(b)) == b
  {
    BeOfFromBe(b);
  }

  /** A decoder recovers the exact fields of any serializer's header, whatever follows it. */
  lemma HeaderRoundTrip(len: nat, msgt: byte, seqid: u64, rest: seq<byte>)
    requires len < 65536
    ensures var b := EncHeader(len, msgt, seqid) + rest;
            HdrLen(b) == len && HdrType(b) == msgt && HdrSeqid(b) == seqid
  {
    var b := EncHeader(len, msgt, seqid) + rest;
    assert b[0..2] == Be(len, 2);
    assert b[3..11] == EncWord(seqid);
    WordRoundTrip(seqid);
    Pow256Values();
    FromBeOfBe(len, 2);
  }

  /** The decoded fields are in range and re-encode to the very bytes they were read from. */
  lemma HeaderReencode(b: seq<byte>)
    requires |b| >= PROT_HDR_LEN
    ensures HdrLen(b) < 65536
    ensures EncHeader(HdrLen(b), HdrType(b), HdrSeqid(b)) == b[..PROT_HDR_LEN]
  {
    Pow256Values();
    BeOfFromBe(b[0..2]);
    WordReencode(b[3..11]);
    assert b[..PROT_HDR_LEN] == b[0..2] + [b[2]] + b[3..11];
  }

  // ------------------------------------------------------------- CREATE_GROUP

  lemma {:induction false} UidsRoundTrip(uids: seq<u64>)
    ensures DecUids(EncUids(uids)) == uids
  {
    if |uids| > 0 {
      var init, last := uids[..|uids| - 1], uids[|uids| - 1];
      var raw := EncUids(uids);
      UidsRoundTrip(init);
      WordRoundTrip(last);
      assert raw[..|raw| - 8] == EncUids(init);
      assert raw[|raw| - 8..] == EncWord(last);
    }
  }

  lemma {:induction false} UidsReencode(raw: seq<byte>)
    requires |raw| % 8 == 0
    ensures EncUids(DecUids(raw)) == raw
  {
    assert raw[..8 * (|raw| / 8)] == raw;
    WordsReencode(raw, |raw| / 8);
  }

  /** The first `n` words, decoded and encoded again. */
  lemma {:induction false} WordsReencode(raw: seq<byte>, n: nat)
    requires 8 * n <= |raw|
    ensures EncUids(DecUids(raw[..8 * n])) == raw[..8 * n]
  {
    if n > 0 {
      var init, last := raw[..8 * n - 8], raw[8 * n - 8..8 * n];
      WordsReencode(raw, n - 1);
      WordReencode(last);
      assert raw[..8 * n] == init + last;
      DecUidsSnoc(init, last);
      EncUidsSnoc(DecUids(init), DecWord(last));
    }
  }

  lemma {:induction false} DecUidsSnoc(init: seq<byte>, last: seq<byte>)
    requires |last| == 8
    ensures DecUids(init + last) == DecUids(init) + [DecWord(last)]
  {
    assert (init + last)[..|init|] == init && (init + last)[|init|..] == last;
  }

  lemma {:induction false} EncUidsSnoc(uids: seq<u64>, x: u64)
    ensures EncUids(uids + [x]) == EncUids(uids) + EncWord(x)
  {
    assert (uids + [x])[..|uids|] == uids;
  }

  lemma {:induction false} CreateGroupShape(seqid: u64, uids: seq<u64>)
    requires |uids| <= MAX_UIDS_PER_MSG
    ensures var b := EncCreateGroup(seqid, uids);
            && |b| == 12 + 8 * |uids|
            && b[..11] == EncHeader(|b|, MSGT_CREATE_GROUP, seqid)
            && b[11] == |uids|
            && b[12..] == EncUids(uids)
  {
    var h, t := EncHeader(12 + 8 * |uids|, MSGT_CREATE_GROUP, seqid), EncUids(uids);
    assert (h + [|uids|] + t)[..11] == h;
    assert (h + [|uids|] + t)[12..] == t;
  }

  /** A message is its header followed by the rest; decoding looks at nothing else. */
  lemma HeaderFields(b: seq<byte>, len: nat, msgt: byte, seqid: u64)
    requires |b| >= 11 && len < 65536 && b[..11] == EncHeader(len, msgt, seqid)
    ensures HdrLen(b) == len && HdrType(b) == msgt && HdrSeqid(b) == seqid
  {
    assert b == b[..11] + b[11..];
    HeaderRoundTrip(len, msgt, seqid, b[11..]);
  }

  /** Decoding an encoded group request is accepted and gives back ids, raw payload and header. */
  lemma {:induction false} CreateGroupRoundTrip(seqid: u64, uids: seq<u64>)
    requires |uids| <= MAX_UIDS_PER_MSG
    ensures var b := EncCreateGroup(seqid, uids);
            && AcceptsCreateGroup(b)
            && b[11] == |uids|
            && b[12..] == EncUids(uids)
            && DecUids(b[12..]) == uids
            && HdrLen(b) == |b| && HdrType(b) == MSGT_CREATE_GROUP && HdrSeqid(b) == seqid
  {
    var b := EncCreateGroup(seqid, uids);
    CreateGroupShape(seqid, uids);
    UidsRoundTrip(uids);
    HeaderFields(b, |b|, MSGT_CREATE_GROUP, seqid);
  }

  lemma ReencodeMatching(b: seq<byte>)
    requires AcceptsCreateGroup(b) && HdrType(b) == MSGT_CREATE_GROUP && HdrLen(b) == |b|
    ensures EncCreateGroup(HdrSeqid(b), DecUids(b[12..])) == b
  {
    var seqid, uids := HdrSeqid(b), DecUids(b[12..]);
    CreateGroupShape(seqid, uids);
    UidsReencode(b[12..]);
    HeaderReencode(b);
    SplitEqual(EncCreateGroup(seqid, uids), b);
  }

  /** Re-encoding an accepted message reproduces it exactly when its type and length fields agree with it. */
  lemma CreateGroupReencode(b: seq<byte>)
    requires AcceptsCreateGroup(b)
    ensures |DecUids(b[12..])| <= MAX_UIDS_PER_MSG
    ensures EncCreateGroup(HdrSeqid(b), DecUids(b[12..])) == b
       <==> HdrType(b) == MSGT_CREATE_GROUP && HdrLen(b) == |b|
  {
    CreateGroupRoundTrip(HdrSeqid(b), DecUids(b[12..]));
    if HdrType(b) == MSGT_CREATE_GROUP && HdrLen(b) == |b| {
      ReencodeMatching(b);
    }
  }

  lemma SplitEqual(a: seq<byte>, b: seq<byte>)
    requires |a| >= 12 && |b| >= 12
    ensures a == b <==> a[..11] == b[..11] && a[11] == b[11] && a[12..] == b[12..]
  {
    assert a == a[..11] + [a[11]] + a[12..];
    assert b == b[..11] + [b[11]] + b[12..];
  }

  // ------------------------------------------------------- in-place buffer code

  /** memcpy of `bytes` to `buf + at`. */
  method Store(buf: array<byte>, at: nat, bytes: seq<byte>)
    requires at + |bytes| <= buf.Length
    modifies buf
    ensures buf[..] == old(buf[..at]) + bytes + old(buf[at + |bytes|..])
  {
    forall i | 0 <= i < |bytes| {
      buf[at + i] := bytes[i];
    }
  }

  /** `field = htonll(v)` on a packed struct: swap, then a little-endian store. */
  method StoreWord(buf: array<byte>, at: nat, v: u64)
    requires at + 8 <= buf.Length
    modifies buf
    ensures buf[..] == old(buf[..at]) + EncWord(v) + old(buf[at + 8..])
  {
    HtonllLayout(v);
    var net := Htonll(v);
    Store(buf, at, Le(net, 8));
  }

  method StoreHeader(buf: array<byte>, len: nat, msgt: byte, seqid: u64)
    requires PROT_HDR_LEN <= buf.Length
    modifies buf
    ensures buf[..] == EncHeader(len, msgt, seqid) + old(buf[PROT_HDR_LEN..])
  {
    SwapLayout(len, 2);
    Store(buf, 0, Le(Htons(len), 2));
    Store(buf, 2, [msgt]);
    StoreWord(buf, 3, seqid);
  }

  /** memcpy of eight bytes into a `uint64_t`, then `ntohll`. */
  method LoadWord(b: seq<byte>) returns (v: u64)
    requires |b| == 8
    ensures v == DecWord(b)
  {
    Pow256Values();
    var net := FromLe(b);
    HtonllIsSwap(net);
    SwapOfLoad(b);
    v := Ntohll(net);
  }

  /** `deser_header` at `buf + at`. */
  method DeserHeader(buf: array<byte>, at: nat) returns (len: nat, msgt: byte, seqid: u64)
    requires at + PROT_HDR_LEN <= buf.Length
    ensures len == HdrLen(buf[at..]) && msgt == HdrType(buf[at..]) && seqid == HdrSeqid(buf[at..])
    ensures Headed(buf[at..], len, msgt, seqid)
  {
    ghost var b := buf[at..];
    HeaderBytes(b);
    var netLen := FromLe(buf[at..at + 2]);
    SwapOfLoad(buf[at..at + 2]);
    assert b[0..2] == buf[at..at + 2];
    len := Ntohs(netLen);
    msgt := buf[at + 2];
    assert b[3..11] == buf[at + 3..at + 11];
    seqid := LoadWord(buf[at + 3..at + 11]);
  }

  method SerServerError(buf: array<byte>, seqid: u64, code: byte) returns (n: nat)
    requires 12 <= buf.Length
    modifies buf
    ensures n == 12 && Headed(buf[..], 12, 0, seqid) && buf[11] == code
    ensures buf[..] == EncServerError(seqid, code) + old(buf[12..])
  {
    n := 12;
    StoreHeader(buf, n, MSGT_SERVER_ERROR, seqid);
    Store(buf, 11, [code]);
    HeaderOnWire(buf[..], n, MSGT_SERVER_ERROR, seqid);
  }

  /** `deser_server_error`: fails unless the declared length is exactly the packed size; the code is the last byte. */
  method DeserServerError(bufLen: nat, buf: array<byte>) returns (r: Option<byte>)
    requires bufLen <= buf.Length
    ensures bufLen == 12 ==> r == Some(buf[11])
    ensures bufLen != 12 ==> r == None
    ensures forall seqid: u64, code: byte ::
              buf[..bufLen] == EncServerError(seqid, code) ==> r == Some(code)
  {
    if bufLen != 12 { return None; }
    r := Some(buf[11]);
    assert buf[11] == buf[..bufLen][11];
  }

  lemma WrapDigits(len: nat)
    ensures len % 65536 % 256 == len % 256 && len % 65536 / 256 % 256 == len / 256 % 256
  {
  }

  lemma TwoDigits(v: nat)
    ensures Be(v, 2) == [v / 256 % 256, v % 256]
  {
    assert Digit(v, 1) == Digit(v / 256, 0);
    assert Be(v, 2)[0] == Digit(v, 1) && Be(v, 2)[1] == Digit(v, 0);
  }

  lemma WrappedLength(len: nat, seqid: u64)
    ensures EncHeader(len % 65536, MSGT_SET_USERNAME, seqid) == EncHeader(len, MSGT_SET_USERNAME, seqid)
  {
    WrapDigits(len);
    TwoDigits(len);
    TwoDigits(len % 65536);
  }

  /** The length is a `uint16_t`, so that of a long name wraps around; the bytes of the name are copied all the same. */
  method SerSetUsername(buf: array<byte>, seqid: u64, uname: seq<byte>) returns (n: nat)
    requires PROT_HDR_LEN + |uname| <= buf.Length
    modifies buf
    ensures n == (11 + |uname|) % 65536 && Headed(buf[..], n, 1, seqid)
    ensures forall i :: 0 <= i < |uname| ==> buf[11 + i] == uname[i]
    ensures buf[..] == EncSetUsername(seqid, uname) + old(buf[PROT_HDR_LEN + |uname|..])
  {
    n := (PROT_HDR_LEN + |uname|) % 65536;
    StoreHeader(buf, n, MSGT_SET_USERNAME, seqid);
    WrappedLength(PROT_HDR_LEN + |uname|, seqid);
    Store(buf, PROT_HDR_LEN, uname);
    HeaderOnWire(buf[..], n, MSGT_SET_USERNAME, seqid);
  }

  method SerSetUsernameResponse(buf: array<byte>, seqid: u64) returns (n: nat)
    requires PROT_HDR_LEN <= buf.Length
    modifies buf
    ensures n == 11 && Headed(buf[..], 11, 2, seqid)
    ensures buf[..] == EncSetUsernameResponse(seqid) + old(buf[PROT_HDR_LEN..])
  {
    n := PROT_HDR_LEN;
    StoreHeader(buf, n, MSGT_SET_USERNAME_RESPONSE, seqid);
    HeaderOnWire(buf[..], n, MSGT_SET_USERNAME_RESPONSE, seqid);
  }

  lemma {:induction false} EncUidsAt(uids: seq<u64>, i: nat)
    requires i < |uids|
    ensures EncUids(uids)[8 * i..8 * i + 8] == EncWord(uids[i])
  {
    if i < |uids| - 1 {
      var init := uids[..|uids| - 1];
      EncUidsAt(init, i);
      assert EncUids(uids)[8 * i..8 * i + 8] == EncUids(init)[8 * i..8 * i + 8];
    }
  }

  /** The words among the first `n` of `raw`. */
  lemma {:induction false} DecUidsAt(raw: seq<byte>, n: nat, i: nat)
    requires i < n && 8 * n <= |raw|
    ensures |DecUids(raw[..8 * n])| == n && DecUids(raw[..8 * n])[i] == DecWord(raw[8 * i..8 * i + 8])
    decreases n
  {
    var init, last := raw[..8 * n - 8], raw[8 * n - 8..8 * n];
    assert raw[..8 * n] == init + last;
    DecUidsSnoc(init, last);
    if i < n - 1 { DecUidsAt(raw, n - 1, i); }
  }

  /** The encoding loop of `ser_create_group`. */
  method StoreWords(buf: array<byte>, at: nat, uids: seq<u64>)
    requires at + 8 * |uids| <= buf.Length
    modifies buf
    ensures buf[..] == old(buf[..at]) + EncUids(uids) + old(buf[at + 8 * |uids|..])
  {
    ghost var enc := EncUids(uids);
    var i := 0;
    while i < |uids|
      invariant 0 <= i <= |uids|
      invariant forall k :: 0 <= k < 8 * i ==> buf[at + k] == enc[k]
      invariant forall k :: 0 <= k < at || at + 8 * i <= k < buf.Length ==> buf[k] == old(buf[k])
    {
      ghost var before := buf[..];
      StoreWord(buf, at + 8 * i, uids[i]);
      EncUidsAt(uids, i);
      ghost var word := EncWord(uids[i]);
      assert forall k :: 0 <= k < 8 ==> buf[at + 8 * i + k] == word[k] == enc[8 * i..8 * i + 8][k];
      assert forall k :: 0 <= k < at + 8 * i ==> buf[k] == before[k];
      i := i + 1;
    }
  }

  method SerCreateGroup(buf: array<byte>, seqid: u64, uids: seq<u64>) returns (n: nat)
    requires |uids| <= MAX_UIDS_PER_MSG && 12 + 8 * |uids| <= buf.Length
    modifies buf
    ensures n == 12 + 8 * |uids| && Headed(buf[..], n, 3, seqid) && buf[11] as int == |uids|
    ensures WordsAt(buf[..], 12, uids)
    ensures buf[..] == EncCreateGroup(seqid, uids) + old(buf[12 + 8 * |uids|..])
  {
    n := 12 + 8 * |uids|;
    StoreGroup(buf, n, seqid, uids);
    CreateGroupOnWire(buf[..], seqid, uids);
  }

  /** The assignments of `ser_create_group` to the fields of the message. */
  method StoreGroup(buf: array<byte>, n: nat, seqid: u64, uids: seq<u64>)
    requires |uids| <= MAX_UIDS_PER_MSG && n == 12 + 8 * |uids| <= buf.Length
    modifies buf
    ensures buf[..] == EncCreateGroup(seqid, uids) + old(buf[12 + 8 * |uids|..])
  {
    StoreHeader(buf, n, MSGT_CREATE_GROUP, seqid);
    Store(buf, 11, [|uids|]);
    StoreWords(buf, 12, uids);
  }

  /** The ids one after the other behind the count, each in network byte order. */
  lemma {:induction false} CreateGroupOnWire(b: seq<byte>, seqid: u64, uids: seq<u64>)
    requires |uids| <= MAX_UIDS_PER_MSG && 12 + 8 * |uids| <= |b|
    requires b[..12 + 8 * |uids|] == EncCreateGroup(seqid, uids)
    ensures Headed(b, 12 + 8 * |uids|, 3, seqid) && b[11] as int == |uids| && WordsAt(b, 12, uids)
  {
    var m := EncCreateGroup(seqid, uids);
    CreateGroupShape(seqid, uids);
    assert b[..11] == m[..11] && b[11] == m[11];
    HeaderOnWire(b, |m|, MSGT_CREATE_GROUP, seqid);
    assert b[12..12 + 8 * |uids|] == m[12..];
    UidsOnWire(b, 12, uids);
  }

  lemma {:induction false} UidsOnWire(b: seq<byte>, p: nat, uids: seq<u64>)
    requires p + 8 * |uids| <= |b| && b[p..p + 8 * |uids|] == EncUids(uids)
    ensures WordsAt(b, p, uids)
  {
    forall i | 0 <= i < |uids| ensures WordAt(b, p + 8 * i, uids[i]) {
      UidOnWire(b, p, uids, i);
    }
  }

  lemma {:induction false} UidOnWire(b: seq<byte>, p: nat, uids: seq<u64>, i: nat)
    requires p + 8 * |uids| <= |b| && b[p..p + 8 * |uids|] == EncUids(uids) && i < |uids|
    ensures WordAt(b, p + 8 * i, uids[i])
  {
    EncUidsAt(uids, i);
    SliceOfSlice(b, p, 8 * |uids|, 8 * i, 8);
    WordFrom(b, p + 8 * i, uids[i]);
  }

  lemma {:induction false} WordFrom(b: seq<byte>, p: nat, v: u64)
    requires p + 8 <= |b| && b[p..p + 8] == EncWord(v)
    ensures WordAt(b, p, v)
  {
    WordRoundTrip(v);
    WordInside(b, p);
  }

  lemma SliceOfSlice(b: seq<byte>, p: nat, n: nat, q: nat, m: nat)
    requires p + n <= |b| && q + m <= n
    ensures b[p..p + n][q..q + m] == b[p + q..p + q + m]
  {
    var l, r := b[p..p + n][q..q + m], b[p + q..p + q + m];
    assert |l| == |r| && forall i :: 0 <= i < |l| ==> l[i] == r[i];
  }

  /** The decoding loop of `deser_create_group`. */
  method LoadWords(raw: seq<byte>, n: nat, uids: array<u64>)
    requires |raw| == 8 * n && n <= uids.Length
    modifies uids
    ensures uids[..] == DecUids(raw) + old(uids[n..])
    ensures WordsAt(raw, 0, uids[..n])
  {
    ghost var dec := DecUids(raw);
    assert |raw| / 8 == n && |raw| % 8 == 0 && |dec| == n;
    var i := 0;
    while i < n
      invariant 0 <= i <= n
      invariant forall k :: 0 <= k < i ==> uids[k] == dec[k]
      invariant forall k :: i <= k < uids.Length ==> uids[k] == old(uids[k])
    {
      assert raw[..8 * n] == raw;
      DecUidsAt(raw, n, i);
      var uid := LoadWord(raw[8 * i..8 * i + 8]);
      assert uid == dec[i];
      uids[i] := uid;
      i := i + 1;
    }
    assert uids[..n] == dec;
    DecUidsOnWire(raw);
  }

  lemma {:induction false} DecUidsOnWire(raw: seq<byte>)
    requires |raw| % 8 == 0
    ensures WordsAt(raw, 0, DecUids(raw))
  {
    UidsReencode(raw);
    assert raw[0..0 + |raw|] == raw;
    UidsOnWire(raw, 0, DecUids(raw));
  }

  /** Fills `uids` and returns the count and the raw payload, or None for a malformed request. */
  method DeserCreateGroup(bufLen: nat, buf: array<byte>, uids: array<u64>)
    returns (r: Option<(nat, seq<byte>)>)
    requires bufLen <= buf.Length && MAX_UIDS_PER_MSG <= uids.Length
    modifies uids
    ensures r.Some? <==> AcceptsCreateGroup(buf[..bufLen])
    ensures r.Some? <==> bufLen >= 12 && buf[11] as int <= 200 && bufLen == 12 + 8 * (buf[11] as int)
    ensures r.None? ==> uids[..] == old(uids[..])
    ensures r.Some? ==> r.value.0 == buf[11] && r.value.1 == buf[12..bufLen]
    ensures r.Some? ==> uids[..] == DecUids(buf[12..bufLen]) + old(uids[r.value.0..])
    ensures r.Some? ==> WordsAt(r.value.1, 0, uids[..r.value.0])
  {
    if bufLen < 12 { return None; }
    var count := buf[11];
    if count > MAX_UIDS_PER_MSG { return None; }
    if 8 * (count as int) != bufLen - 12 { return None; }
    var raw := buf[12..bufLen];
    LoadWords(raw, count, uids);
    r := Some((count, raw));
  }
}
