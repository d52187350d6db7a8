/** The ACR122U reader driver (Acr122U.cs): PN53x commands wrapped in the
    reader's direct-transmit envelope, sent through PC/SC, and the checks on
    each response, which drop the card or context handle on failure. The
    PC/SC driver is not part of this model: the replies SCardControl gets
    are a script the `Driver` hands out one per call, and the handles it
    issues are parameters. */
module Acr122u {
  import opened Bytes
  import opened EndianConverter
  import Felica

  /** NxpCmd: PN53x command codes. */
  const GET_FIRMWARE_VERSION: uint8 := 0x02
  const SET_PARAMETERS: uint8 := 0x12
  const IN_JUMP_DEP: uint8 := 0x56
  const IN_DATA_EX: uint8 := 0x40
  const IN_ATR: uint8 := 0x50
  const IN_RELEASE: uint8 := 0x52
  const IN_LIST_PASSIVE_TARGET: uint8 := 0x4A
  const TG_INIT_AS_TARGET: uint8 := 0x8C
  const TG_GET_DATA: uint8 := 0x86
  const TG_GET_IN_COMMAND: uint8 := 0x88
  const TG_GET_TARGET_STATUS: uint8 := 0x8A
  const TG_SET_DATA: uint8 := 0x8E
  const TG_RES_TO_IN: uint8 := 0x90

  /** Capacity of sendBuff and recvBuff. */
  const BUFFER_LENGTH: nat := 256
  /** RECV_PREFIX_LEN and RECV_SUFIX_LEN: `D5 op+1 status` before a payload, `90 00` after. */
  const RECV_PREFIX_LEN: nat := 3
  const RECV_SUFIX_LEN: nat := 2

  /** What one SCardControl call yields: the response bytes, or an error code. */
  datatype Reply = Failed | Received(data: seq<uint8>)

  /** The transport succeeded and the response fits recvBuff (a longer one is
      refused by the driver, like any other error). */
  predicate Delivers(reply: Reply)
  {
    reply.Received? && |reply.data| <= BUFFER_LENGTH
  }

  /** The escape command SCardControl carries: `FF 00 00 00`, Lc (the byte
      count of `D4 op body`, truncated to a byte), `D4`, the opcode, the body. */
  function Envelope(op: uint8, body: seq<uint8>): (e: seq<uint8>)
    ensures |e| == 7 + |body|
  {
    [0xFF, 0x00, 0x00, 0x00, (|body| + 2) % 0x100, 0xD4, op] + body
  }

  /** How the reader reads an envelope: the fixed bytes must be present and Lc
      must count the bytes after it. */
  function ParseEnvelope(e: seq<uint8>): Option<(uint8, seq<uint8>)>
  {
    if |e| < 7 || e[..4] != [0xFF, 0x00, 0x00, 0x00] || e[5] != 0xD4 || e[4] as int != |e| - 5 then None
    else Some((e[6], e[7..]))
  }

  /** The reader recovers opcode and body exactly when Lc did not wrap. */
  lemma EnvelopeRoundTrip(op: uint8, body: seq<uint8>)
    ensures ParseEnvelope(Envelope(op, body)).Some? <==> |body| + 2 < 0x100
    ensures |body| + 2 < 0x100 ==> ParseEnvelope(Envelope(op, body)) == Some((op, body))
  {
    var e := Envelope(op, body);
    assert e[..4] == [0xFF, 0x00, 0x00, 0x00];
    assert e[7..] == body;
  }

  /** The opcodes whose response status byte DCommand does not check. */
  predicate Exempt(op: uint8)
  {
    op == GET_FIRMWARE_VERSION || op == IN_LIST_PASSIVE_TARGET || op == TG_INIT_AS_TARGET ||
    op == TG_GET_TARGET_STATUS || op == SET_PARAMETERS
  }

  /** DCommand's view of a response in recvBuff. */
  datatype Verdict = Crash | BadTrailer | BadEcho | BadStatus | Accepted

  /** The checks on recvBuff after a delivered response of `recvLen` bytes:
      indexing `recvLen - 2` throws below two bytes; then the `90 00` trailer,
      the echoed opcode plus one, and the status byte unless exempt. Bytes
      1 and 2 are read even when the response is shorter. */
  function Judge(recv: seq<uint8>, recvLen: nat, op: uint8): Verdict
    requires |recv| == BUFFER_LENGTH && recvLen <= BUFFER_LENGTH
  {
    if recvLen < 2 then Crash
    else if recv[recvLen - 2] != 0x90 || recv[recvLen - 1] != 0x00 then BadTrailer
    else if recv[1] as int != op as int + 1 then BadEcho
    else if !Exempt(op) && recv[2] != 0 then BadStatus
    else Accepted
  }

  /** The driver's state: the two PC/SC handles (0 for none), both buffers,
      the received length, and every envelope handed to SCardControl. */
  datatype Snapshot = Snapshot(context: int, card: int, send: seq<uint8>, recv: seq<uint8>,
                               recvLen: nat, sent: seq<seq<uint8>>)
  {
    predicate WellFormed()
    {
      |send| == BUFFER_LENGTH && |recv| == BUFFER_LENGTH && recvLen <= BUFFER_LENGTH
    }
  }

  /** DCommand as a function of the state before it: its result and the state after. */
  function Exchange(s: Snapshot, op: uint8, body: seq<uint8>, reply: Reply): (r: (Outcome<bool>, Snapshot))
    requires s.WellFormed()
    ensures r.1.WellFormed()
  {
    if s.context == 0 || s.card == 0 then (Normal(false), s)
    else if 7 + |body| > BUFFER_LENGTH then (Threw, s.(send := Overlay(s.send, 0, Envelope(op, body)[..7])))
    else
      var s1 := s.(send := Overlay(s.send, 0, Envelope(op, body)), sent := s.sent + [Envelope(op, body)]);
      if !Delivers(reply) then (Normal(false), s1.(context := 0))
      else
        var s2 := s1.(recv := Overlay(s.recv, 0, reply.data), recvLen := |reply.data|);
        match Judge(s2.recv, s2.recvLen, op)
        case Crash => (Threw, s2)
        case BadTrailer => (Normal(false), s2)
        case BadEcho => (Normal(false), s2.(card := 0))
        case BadStatus => (Normal(false), s2.(card := 0))
        case Accepted => (Normal(true), s2)
  }

  /** The driver replies still to come: the next one, and the rest. Once
      they run out, every SCardControl call fails. */
  function Upcoming(replies: seq<Reply>): (r: (Reply, seq<Reply>))
    ensures replies == [] ==> r == (Failed, [])
    ensures replies != [] ==> [r.0] + r.1 == replies
  {
    if replies == [] then (Failed, []) else (replies[0], replies[1..])
  }

  /** DCommand gets as far as SCardControl: both handles are set and the
      envelope fits sendBuff. */
  predicate Reaches(s: Snapshot, body: seq<uint8>)
  {
    s.context != 0 && s.card != 0 && 7 + |body| <= BUFFER_LENGTH
  }

  /** Short of SCardControl, the exchange does not depend on the reply. */
  lemma ExchangeIgnoresReply(s: Snapshot, op: uint8, body: seq<uint8>, a: Reply, b: Reply)
    requires s.WellFormed() && !Reaches(s, body)
    ensures Exchange(s, op, body, a) == Exchange(s, op, body, b)
    ensures Exchange(s, op, body, a).1.sent == s.sent
  {
  }

  /** DCommand with the driver's replies: the next one is taken only when
      the exchange reaches SCardControl. */
  function Call(s: Snapshot, op: uint8, body: seq<uint8>, replies: seq<Reply>)
    : (r: (Outcome<bool>, Snapshot, seq<Reply>))
    requires s.WellFormed()
    ensures r.1.WellFormed()
    ensures r.0 == Normal(true) ==> Reaches(s, body) && replies != [] && r.2 == replies[1..]
    ensures |r.2| <= |replies| && r.2 == replies[|replies| - |r.2|..]
  {
    if Reaches(s, body) then
      var (reply, rest) := Upcoming(replies);
      var (d, t) := Exchange(s, op, body, reply);
      (d, t, rest)
    else
      var (d, t) := Exchange(s, op, body, Failed);
      (d, t, replies)
  }

  /** One reply per SCardControl call: either an envelope goes out and the
      next reply is taken, or neither happens. */
  lemma CallDrawsPerEnvelope(s: Snapshot, op: uint8, body: seq<uint8>, replies: seq<Reply>)
    requires s.WellFormed()
    ensures var r := Call(s, op, body, replies);
            (r.1.sent == s.sent + [Envelope(op, body)] && r.2 == Upcoming(replies).1) ||
            (r.1.sent == s.sent && r.2 == replies)
    ensures var r := Call(s, op, body, replies);
            r.1.sent == s.sent + [Envelope(op, body)] <==> Reaches(s, body)
  {
    if !Reaches(s, body) {
      ExchangeIgnoresReply(s, op, body, Failed, Failed);
    }
  }

  /** Byte `k` of recvBuff once `data` is copied over `previous`. */
  function ResponseByte(previous: seq<uint8>, data: seq<uint8>, k: nat): uint8
    requires k < |previous|
  {
    if k < |data| then data[k] else previous[k]
  }

  /** DCommand returns true exactly when both handles are open, the envelope
      fits, the transport delivers at least two bytes ending in `90 00`, byte
      1 is the opcode plus one, and byte 2 is zero unless the opcode is
      exempt; bytes past the response are the previous response's. */
  lemma ExchangeAccepts(s: Snapshot, op: uint8, body: seq<uint8>, reply: Reply)
    requires s.WellFormed()
    ensures Exchange(s, op, body, reply).0 == Normal(true) <==>
              s.context != 0 && s.card != 0 && 7 + |body| <= BUFFER_LENGTH && Delivers(reply) &&
              2 <= |reply.data| && reply.data[|reply.data| - 2..] == [0x90, 0x00] &&
              ResponseByte(s.recv, reply.data, 1) as int == op as int + 1 &&
              (Exempt(op) || ResponseByte(s.recv, reply.data, 2) == 0)
  {
    if s.context != 0 && s.card != 0 && 7 + |body| <= BUFFER_LENGTH && Delivers(reply) {
      var t := Exchange(s, op, body, reply).1;
      assert t.recv == Overlay(s.recv, 0, reply.data) && t.recvLen == |reply.data|;
      assert Exchange(s, op, body, reply).0 == Normal(true) <==> Judge(t.recv, t.recvLen, op) == Accepted;
      JudgeDelivered(s.recv, reply.data, op);
    }
  }

  /** Judge accepts a response copied over the previous buffer exactly when
      it ends in `90 00`, echoes the opcode plus one and, unless exempt, has
      status 0. */
  lemma JudgeDelivered(previous: seq<uint8>, data: seq<uint8>, op: uint8)
    requires |previous| == BUFFER_LENGTH && |data| <= BUFFER_LENGTH
    ensures Judge(Overlay(previous, 0, data), |data|, op) == Accepted <==>
              2 <= |data| && data[|data| - 2..] == [0x90, 0x00] &&
              ResponseByte(previous, data, 1) as int == op as int + 1 &&
              (Exempt(op) || ResponseByte(previous, data, 2) == 0)
  {
    var recv := Overlay(previous, 0, data);
    var n := |data|;
    assert recv[..n] == data;
    if n >= 2 {
      assert recv[n - 2] == data[n - 2] && recv[n - 1] == data[n - 1];
      assert data[n - 2..] == [data[n - 2], data[n - 1]];
    }
    assert recv[1] == ResponseByte(previous, data, 1);
    assert recv[2] == ResponseByte(previous, data, 2);
  }

  /** What DCommand does to the handles: it never opens one; only a transport
      failure closes the context, and only a wrong echo or a nonzero status
      closes the card; exactly one envelope is sent once both handles are
      open and the body fits, and none otherwise. */
  lemma ExchangeHandles(s: Snapshot, op: uint8, body: seq<uint8>, reply: Reply)
    requires s.WellFormed()
    ensures var (r, t) := Exchange(s, op, body, reply);
            t.WellFormed() &&
            (t.context == s.context || (t.context == 0 && r == Normal(false) && !Delivers(reply))) &&
            (t.card == s.card || (t.card == 0 && r == Normal(false) && Delivers(reply))) &&
            (if s.context != 0 && s.card != 0 && 7 + |body| <= BUFFER_LENGTH
             then t.sent == s.sent + [Envelope(op, body)] && t.send[..7 + |body|] == Envelope(op, body)
             else t.sent == s.sent)
  {
  }

  /** An accepted 0x88 exchange has status byte 0: 0x88 is not exempt from
      DCommand's status check. */
  lemma AcceptedStatusZero(s: Snapshot, reply: Reply)
    requires s.WellFormed()
    requires Exchange(s, TG_GET_IN_COMMAND, [], reply).0 == Normal(true)
    ensures Exchange(s, TG_GET_IN_COMMAND, [], reply).1.recv[2] == 0
  {
    var t := Exchange(s, TG_GET_IN_COMMAND, [], reply).1;
    assert !Exempt(TG_GET_IN_COMMAND);
    assert Judge(t.recv, t.recvLen, TG_GET_IN_COMMAND) == Accepted;
  }

  /** An accepted exchange kept both handles and holds the delivered response. */
  lemma AcceptedState(s: Snapshot, op: uint8, body: seq<uint8>, reply: Reply)
    requires s.WellFormed()
    requires Exchange(s, op, body, reply).0 == Normal(true)
    ensures s.context != 0 && s.card != 0 && 7 + |body| <= BUFFER_LENGTH && Delivers(reply)
    ensures var t := Exchange(s, op, body, reply).1;
            t.context == s.context && t.card == s.card &&
            t.recv == Overlay(s.recv, 0, reply.data) && t.recvLen == |reply.data|
  {
  }

  /** The slice `recvBuff[3 .. recvLen - 2)` that TgMode, TgGetInCommand and
      InSendData return; allocating it throws below five bytes. */
  function Payload(s: Snapshot): (r: Outcome<seq<uint8>>)
    requires s.WellFormed()
    ensures r.Normal? ==> |r.value| + RECV_PREFIX_LEN + RECV_SUFIX_LEN == s.recvLen
  {
    if s.recvLen < RECV_PREFIX_LEN + RECV_SUFIX_LEN then Threw
    else Normal(s.recv[RECV_PREFIX_LEN..s.recvLen - RECV_SUFIX_LEN])
  }

  /** A command that returns the payload: null when DCommand is false. */
  function Reading(d: Outcome<bool>, s: Snapshot): Outcome<Option<seq<uint8>>>
    requires s.WellFormed()
  {
    match d
    case Threw => Threw
    case Normal(false) => Normal(None)
    case Normal(true) =>
      match Payload(s)
      case Threw => Threw
      case Normal(p) => Normal(Some(p))
  }

  /** An accepted response's payload is what lies between the three prefix
      bytes and the trailer of the bytes the transport delivered. */
  lemma PayloadOfResponse(s: Snapshot, op: uint8, body: seq<uint8>, reply: Reply, t: Snapshot)
    requires s.WellFormed()
    requires Exchange(s, op, body, reply) == (Normal(true), t)
    ensures Delivers(reply)
    ensures |reply.data| < 5 <==> Payload(t).Threw?
    ensures |reply.data| >= 5 ==> Payload(t) == Normal(reply.data[3..|reply.data| - 2])
  {
    AcceptedState(s, op, body, reply);
    assert Exchange(s, op, body, reply).1 == t;
    var n := |reply.data|;
    assert t.recvLen == n && t.recv[..n] == reply.data;
    if n >= 5 {
      SliceOfPrefix(t.recv, n, 3, n - 2);
    }
  }

  lemma SliceOfPrefix(a: seq<uint8>, n: nat, i: nat, j: nat)
    requires i <= j <= n <= |a|
    ensures a[i..j] == a[..n][i..j]
  {
  }

  /** The FPolling command body: one target at 212 kbps, Polling (00) for
      `systemCode`, request code 0, time slot 0. */
  function FPollingCommand(systemCode: uint16): (cmd: seq<uint8>)
    ensures |cmd| == 7 && cmd[..3] == [1, 0x01, 0x00] && cmd[5..] == [0, 0]
  {
    [1, 0x01, 0x00, systemCode / 0x100, systemCode % 0x100, 0, 0]
  }

  /** The system code goes out big-endian. */
  lemma FPollingSystemCode(systemCode: uint16)
    ensures FPollingCommand(systemCode)[3..5] == BigEndian(systemCode, 2)
    ensures BigEndianValue(FPollingCommand(systemCode)[3..5]) == systemCode
  {
    var cmd := FPollingCommand(systemCode);
    assert BigEndian(systemCode, 2) == BigEndian(systemCode / 0x100, 1) + [systemCode % 0x100];
    assert BigEndian(systemCode / 0x100, 1) == [(systemCode / 0x100) % 0x100];
    assert cmd[3..5] == [cmd[3], cmd[4]];
    assert Pow256(2) == 0x1_0000 by {
      assert Pow256(1) == 0x100;
    }
    BigEndianValueOf(systemCode, 2);
  }

  /** `part` copied at `at` into `b` (`CopyTo`), which throws when it does not
      fit; a null part leaves the zeros. */
  function Place(b: Outcome<seq<uint8>>, at: nat, part: Option<seq<uint8>>): (r: Outcome<seq<uint8>>)
    ensures r.Normal? ==> b.Normal? && |r.value| == |b.value|
  {
    match b
    case Threw => Threw
    case Normal(buf) =>
      match part
      case None => b
      case Some(p) => if at + |p| > |buf| then Threw else Normal(Overlay(buf, at, p))
  }

  /** `b[at] := x` on a buffer known to hold that index. */
  function SetAt(b: Outcome<seq<uint8>>, at: nat, x: uint8): (r: Outcome<seq<uint8>>)
    ensures r.Normal? ==> b.Normal? && |r.value| == |b.value|
  {
    match b
    case Threw => Threw
    case Normal(buf) => if at < |buf| then Normal(buf[at := x]) else Threw
  }

  /** The length of an optional part, 0 for null. */
  function LengthOf(part: Option<seq<uint8>>): nat
  {
    if part.None? then 0 else |part.value|
  }

  /** The TgInitAsTarget body TgMode builds, step by step: passive mode, the
      MIFARE parameters at 1, IDm at 7, PMm at 15, the system code at 23,
      NFCID3 at 25, the general-bytes length at 35, the general bytes, and
      a zero historical-bytes length. Each part is copied whatever its
      length, so a long part throws or is overwritten by the next. */
  function TgPayload(mifare: Option<seq<uint8>>, idm: Option<seq<uint8>>, pmm: Option<seq<uint8>>,
                     sysCode: uint16, nfcid3: Option<seq<uint8>>, gt: Option<seq<uint8>>): (r: Outcome<seq<uint8>>)
    ensures r.Normal? ==> |r.value| == 37 + LengthOf(gt)
  {
    TgTail(TgHead(1 + 6 + 18 + 10 + 1 + LengthOf(gt) + 1, mifare, idm, pmm, sysCode), nfcid3, gt)
  }

  /** The first five steps, on a zeroed buffer of `n` bytes: mode, MIFARE
      parameters, IDm, PMm and system code. */
  function TgHead(n: nat, mifare: Option<seq<uint8>>, idm: Option<seq<uint8>>, pmm: Option<seq<uint8>>,
                  sysCode: uint16): (r: Outcome<seq<uint8>>)
    ensures r.Normal? ==> |r.value| == n
  {
    Place(TgIds(n, mifare, idm, pmm), 23, Some(UIntergerToBytes(UInt16(sysCode)).value))
  }

  /** The first four of those steps: mode, MIFARE parameters, IDm and PMm. */
  function TgIds(n: nat, mifare: Option<seq<uint8>>, idm: Option<seq<uint8>>, pmm: Option<seq<uint8>>)
    : (r: Outcome<seq<uint8>>)
    ensures r.Normal? ==> |r.value| == n
  {
    var b0 := SetAt(Normal(Zeros(n)), 0, 0x01);
    var b1 := Place(b0, 1, mifare);
    var b2 := Place(b1, 7, idm);
    Place(b2, 15, pmm)
  }

  /** The remaining steps: NFCID3, the general bytes with their length, and
      the closing zero. */
  function TgTail(b: Outcome<seq<uint8>>, nfcid3: Option<seq<uint8>>, gt: Option<seq<uint8>>): (r: Outcome<seq<uint8>>)
    ensures r.Normal? ==> b.Normal? && |r.value| == |b.value|
  {
    var gtLen := LengthOf(gt);
    var b5 := Place(b, 25, nfcid3);
    var b6 := SetAt(b5, 35, gtLen % 0x100);
    var b7 := Place(b6, 36, gt);
    SetAt(b7, 36 + gtLen, 0)
  }

  /** A part of the expected size, or zeros for a null one. */
  function Field(part: Option<seq<uint8>>, n: nat): seq<uint8>
  {
    if part.None? then Zeros(n) else part.value
  }

  predicate Sized(part: Option<seq<uint8>>, n: nat)
  {
    part.None? || |part.value| == n
  }

  /** Placing a part of size `k` right after `prefix` in zeros. */
  lemma PlaceNext(prefix: seq<uint8>, part: Option<seq<uint8>>, k: nat, rest: nat)
    requires Sized(part, k) && k <= rest
    ensures Place(Normal(prefix + Zeros(rest)), |prefix|, part) == Normal(prefix + Field(part, k) + Zeros(rest - k))
  {
    assert Zeros(rest) == Zeros(k) + Zeros(rest - k);
    if part.None? {
      assert prefix + Zeros(rest) == prefix + Zeros(k) + Zeros(rest - k);
    } else {
      var a := prefix + Zeros(rest);
      var o := Overlay(a, |prefix|, part.value);
      assert o[..|prefix|] == a[..|prefix|] == prefix;
      assert o[|prefix| + k..] == a[|prefix| + k..] == Zeros(rest - k);
      assert o == o[..|prefix|] + o[|prefix|..|prefix| + k] + o[|prefix| + k..];
    }
  }

  /** Setting the byte right after `prefix` in zeros. */
  lemma SetNext(prefix: seq<uint8>, x: uint8, rest: nat)
    requires 1 <= rest
    ensures SetAt(Normal(prefix + Zeros(rest)), |prefix|, x) == Normal(prefix + [x] + Zeros(rest - 1))
  {
    var a := prefix + Zeros(rest);
    var b := a[|prefix| := x];
    assert b[..|prefix|] == prefix;
    assert b[|prefix| + 1..] == Zeros(rest - 1);
    assert b == b[..|prefix|] + [b[|prefix|]] + b[|prefix| + 1..];
  }

  lemma TgIdsLayout(n: nat, mifare: Option<seq<uint8>>, idm: Option<seq<uint8>>, pmm: Option<seq<uint8>>)
    requires Sized(mifare, 6) && Sized(idm, 8) && Sized(pmm, 8) && 23 <= n
    ensures TgIds(n, mifare, idm, pmm) ==
              Normal([0x01] + Field(mifare, 6) + Field(idm, 8) + Field(pmm, 8) + Zeros(n - 23))
  {
    var p0: seq<uint8> := [];
    assert p0 + Zeros(n) == Zeros(n);
    SetNext(p0, 0x01, n);
    var p1 := p0 + [0x01];
    assert p1 == [0x01];
    var b0 := SetAt(Normal(Zeros(n)), 0, 0x01);
    PlaceNext(p1, mifare, 6, n - 1);
    var p2 := p1 + Field(mifare, 6);
    var b1 := Place(b0, 1, mifare);
    PlaceNext(p2, idm, 8, n - 7);
    var p3 := p2 + Field(idm, 8);
    var b2 := Place(b1, 7, idm);
    PlaceNext(p3, pmm, 8, n - 15);
  }

  lemma TgHeadLayout(n: nat, mifare: Option<seq<uint8>>, idm: Option<seq<uint8>>, pmm: Option<seq<uint8>>,
                     sysCode: uint16)
    requires Sized(mifare, 6) && Sized(idm, 8) && Sized(pmm, 8) && 25 <= n
    ensures TgHead(n, mifare, idm, pmm, sysCode) ==
              Normal([0x01] + Field(mifare, 6) + Field(idm, 8) + Field(pmm, 8) + BigEndian(sysCode, 2) + Zeros(n - 25))
  {
    UIntergerToBytesIsBigEndian(UInt16(sysCode));
    var code := Some(UIntergerToBytes(UInt16(sysCode)).value);
    assert Field(code, 2) == BigEndian(sysCode, 2);
    TgIdsLayout(n, mifare, idm, pmm);
    var p4 := [0x01] + Field(mifare, 6) + Field(idm, 8) + Field(pmm, 8);
    PlaceNext(p4, code, 2, n - 23);
  }

  lemma TgTailLayout(prefix: seq<uint8>, nfcid3: Option<seq<uint8>>, gt: Option<seq<uint8>>)
    requires Sized(nfcid3, 10) && |prefix| == 25
    ensures TgTail(Normal(prefix + Zeros(12 + LengthOf(gt))), nfcid3, gt) ==
              Normal(prefix + Field(nfcid3, 10) + [LengthOf(gt) % 0x100] + Field(gt, LengthOf(gt)) + [0])
  {
    var g := LengthOf(gt);
    PlaceNext(prefix, nfcid3, 10, 12 + g);
    var p6 := prefix + Field(nfcid3, 10);
    SetNext(p6, g % 0x100, 2 + g);
    var p7 := p6 + [g % 0x100];
    PlaceNext(p7, gt, g, 1 + g);
    var p8 := p7 + Field(gt, g);
    SetNext(p8, 0, 1);
    assert p8 + [0] + Zeros(0) == p8 + [0];
  }

  /** With parts of their expected sizes the body is the fields in order. */
  lemma TgPayloadLayout(mifare: Option<seq<uint8>>, idm: Option<seq<uint8>>, pmm: Option<seq<uint8>>,
                        sysCode: uint16, nfcid3: Option<seq<uint8>>, gt: Option<seq<uint8>>)
    requires Sized(mifare, 6) && Sized(idm, 8) && Sized(pmm, 8) && Sized(nfcid3, 10)
    ensures TgPayload(mifare, idm, pmm, sysCode, nfcid3, gt) ==
              Normal([0x01] + Field(mifare, 6) + Field(idm, 8) + Field(pmm, 8) + BigEndian(sysCode, 2) +
                     Field(nfcid3, 10) + [LengthOf(gt) % 0x100] + Field(gt, LengthOf(gt)) + [0])
  {
    var n := 37 + LengthOf(gt);
    TgHeadLayout(n, mifare, idm, pmm, sysCode);
    var prefix := [0x01] + Field(mifare, 6) + Field(idm, 8) + Field(pmm, 8) + BigEndian(sysCode, 2);
    TgTailLayout(prefix, nfcid3, gt);
  }

  /** TgMode's result: the success flag, the mode byte and the initiator's first command. */
  function TgModeResult(d: Outcome<bool>, s: Snapshot): Outcome<(bool, uint8, Option<seq<uint8>>)>
    requires s.WellFormed()
  {
    match d
    case Threw => Threw
    case Normal(false) => Normal((false, 0, None))
    case Normal(true) =>
      match Payload(s)
      case Threw => Threw
      case Normal(p) => Normal((true, s.recv[2], Some(p)))
  }

  /** TgMode as a function of the state before it: an exception when the
      payload cannot be built (nothing is sent), otherwise the exchange of
      TgInitAsTarget and its reading. */
  function TgModeEffect(s: Snapshot, mifare: Option<seq<uint8>>, idm: Option<seq<uint8>>, pmm: Option<seq<uint8>>,
                        sysCode: uint16, nfcid3: Option<seq<uint8>>, gt: Option<seq<uint8>>, replies: seq<Reply>)
    : (r: (Outcome<(bool, uint8, Option<seq<uint8>>)>, Snapshot, seq<Reply>))
    requires s.WellFormed()
    ensures r.1.WellFormed()
    ensures |r.2| <= |replies| && r.2 == replies[|replies| - |r.2|..]
  {
    match TgPayload(mifare, idm, pmm, sysCode, nfcid3, gt)
    case Threw => (Threw, s, replies)
    case Normal(p) =>
      var (d, t, rest) := Call(s, TG_INIT_AS_TARGET, p, replies);
      (TgModeResult(d, t), t, rest)
  }

  /** The PC/SC driver's side of SCardControl: the replies it gives, in order. */
  class Driver {
    var replies: seq<Reply>

    constructor(replies: seq<Reply>)
      ensures this.replies == replies
    {
      this.replies := replies;
    }

    /** The reply to one SCardControl call, and a failure once they run out. */
    method Next() returns (reply: Reply)
      modifies this
      ensures (reply, replies) == Upcoming(old(replies))
    {
      if replies == [] {
        reply := Failed;
      } else {
        reply := replies[0];
        replies := replies[1..];
      }
    }
  }

  class Acr122u {
    /** The driver SCardControl talks to. */
    const driver: Driver
    var context: int
    var card: int
    const sendBuff: array<uint8>
    const recvBuff: array<uint8>
    var recvLen: nat
    /** The envelopes handed to SCardControl, in order. */
    var sent: seq<seq<uint8>>

    predicate Valid()
      reads this
    {
      sendBuff.Length == BUFFER_LENGTH && recvBuff.Length == BUFFER_LENGTH && sendBuff != recvBuff &&
      recvLen <= BUFFER_LENGTH
    }

    function State(): (s: Snapshot)
      reads this, sendBuff, recvBuff
      requires Valid()
      ensures s.WellFormed()
    {
      Snapshot(context, card, sendBuff[..], recvBuff[..], recvLen, sent)
    }

    constructor(driver: Driver)
      ensures Valid() && fresh(sendBuff) && fresh(recvBuff) && this.driver == driver
      ensures State() == Snapshot(0, 0, Zeros(BUFFER_LENGTH), Zeros(BUFFER_LENGTH), 0, [])
    {
      this.driver := driver;
      context := 0;
      card := 0;
      sendBuff := new uint8[BUFFER_LENGTH](_ => 0);
      recvBuff := new uint8[BUFFER_LENGTH](_ => 0);
      recvLen := 0;
      sent := [];
    }

    /** Init: nothing to do with a context already open; otherwise take the
        context the driver establishes, and fail when it lists no reader or
        listing their names fails. */
    method Init(established: int, readers: int, listed: bool) returns (ok: bool)
      requires Valid()
      modifies this
      ensures Valid()
      ensures old(context) != 0 ==> ok && State() == old(State())
      ensures old(context) == 0 ==> State() == old(State()).(context := established) && (ok <==> readers >= 1 && listed)
    {
      if context != 0 {
        return true;
      }
      context := established;
      if readers < 1 {
        return false;
      }
      if !listed {
        return false;
      }
      return true;
    }

    /** ReleaseContext: close the context when one is open. */
    method ReleaseContext()
      requires Valid()
      modifies this
      ensures Valid()
      ensures State() == old(State()).(context := 0)
    {
      if context != 0 {
        context := 0;
      }
    }

    /** ConnectCard: nothing to do with a card already connected; otherwise
        take the handle the driver connects, and report whether it succeeded. */
    method ConnectCard(connected: int, success: bool) returns (ok: bool)
      requires Valid()
      modifies this
      ensures Valid()
      ensures old(card) != 0 ==> ok && State() == old(State())
      ensures old(card) == 0 ==> State() == old(State()).(card := connected) && ok == success
    {
      if card != 0 {
        return true;
      }
      card := connected;
      return success;
    }

    /** ReleaseCard: disconnect when a card is connected. */
    method ReleaseCard()
      requires Valid()
      modifies this
      ensures Valid()
      ensures State() == old(State()).(card := 0)
    {
      if card == 0 {
        return;
      }
      card := 0;
    }

    /** The SCardControl call: record the envelope, then either copy the
        response into recvBuff or report failure. */
    method Control(envelope: seq<uint8>) returns (ok: bool)
      requires Valid()
      modifies this, recvBuff, driver
      ensures Valid()
      ensures var (reply, rest) := Upcoming(old(driver.replies));
              driver.replies == rest && ok == Delivers(reply) &&
              (ok ==> State() == old(State()).(sent := old(sent) + [envelope],
                                               recv := Overlay(old(recvBuff[..]), 0, reply.data), recvLen := |reply.data|)) &&
              (!ok ==> State() == old(State()).(sent := old(sent) + [envelope]))
    {
      sent := sent + [envelope];
      var reply := driver.Next();
      if !Delivers(reply) {
        return false;
      }
      CopyInto(reply.data, recvBuff, 0);
      recvLen := |reply.data|;
      return true;
    }

    /** Write the seven envelope header bytes for `op` and a body of `bodyLength` bytes. */
    method WriteHeader(op: uint8, bodyLength: nat)
      requires Valid()
      modifies sendBuff
      ensures sendBuff[..] == Overlay(old(sendBuff[..]), 0, [0xFF, 0x00, 0x00, 0x00, (bodyLength + 2) % 0x100, 0xD4, op])
    {
      var header := [0xFF, 0x00, 0x00, 0x00];
      var index := 0;
      CopyInto(header, sendBuff, index);
      index := index + |header|;
      ghost var before := sendBuff[..];
      sendBuff[index] := (bodyLength + 2) % 0x100;
      index := index + 1;
      sendBuff[index] := 0xD4;
      index := index + 1;
      sendBuff[index] := op;
      index := index + 1;
      OverlayPointwise(old(sendBuff[..]), 0, [0xFF, 0x00, 0x00, 0x00, (bodyLength + 2) % 0x100, 0xD4, op], sendBuff[..]);
    }

    /** DCommand: send `op` with `body` and check the response. */
    method DCommand(op: uint8, body: seq<uint8>) returns (r: Outcome<bool>)
      requires Valid()
      modifies this, sendBuff, recvBuff, driver
      ensures Valid()
      ensures (r, State(), driver.replies) == Call(old(State()), op, body, old(driver.replies))
    {
      if context == 0 {
        return Normal(false);
      }
      if card == 0 {
        return Normal(false);
      }
      WriteHeader(op, |body|);
      var index := 7;
      if index + |body| > sendBuff.Length {
        assert Envelope(op, body)[..7] == [0xFF, 0x00, 0x00, 0x00, (|body| + 2) % 0x100, 0xD4, op];
        return Threw;
      }
      ghost var withHeader := sendBuff[..];
      CopyInto(body, sendBuff, index);
      index := index + |body|;
      assert sendBuff[..] == Overlay(old(sendBuff[..]), 0, Envelope(op, body)) by {
        OverlayPointwise(old(sendBuff[..]), 0, Envelope(op, body), sendBuff[..]);
      }
      var ok := Control(sendBuff[..index]);
      if !ok {
        ReleaseContext();
        return Normal(false);
      }
      r := CheckResponse(op);
    }

    /** The checks DCommand makes on a delivered response. */
    method CheckResponse(op: uint8) returns (r: Outcome<bool>)
      requires Valid()
      modifies this
      ensures Valid()
      ensures var v := Judge(old(recvBuff[..]), old(recvLen), op);
              State() == (if v == BadEcho || v == BadStatus then old(State()).(card := 0) else old(State())) &&
              r == (match v case Crash => Threw case Accepted => Normal(true) case _ => Normal(false))
    {
      if recvLen < 2 {
        return Threw;
      }
      if recvBuff[recvLen - 2] != 0x90 || recvBuff[recvLen - 1] != 0x00 {
        return Normal(false);
      }
      if recvBuff[1] as int != op as int + 1 {
        ReleaseCard();
        return Normal(false);
      }
      if !Exempt(op) && recvBuff[2] != 0 {
        ReleaseCard();
        return Normal(false);
      }
      return Normal(true);
    }

    /** SetParams: SetParameters with the one flag byte. */
    method SetParams(param: uint8) returns (r: Outcome<bool>)
      requires Valid()
      modifies this, sendBuff, recvBuff, driver
      ensures Valid()
      ensures (r, State(), driver.replies) == Call(old(State()), SET_PARAMETERS, [param], old(driver.replies))
    {
      r := DCommand(SET_PARAMETERS, [param]);
    }

    /** SetRfMode: SetParameters with 0, whatever the argument; the result is dropped. */
    method SetRfMode(param: uint8) returns (r: Outcome<()>)
      requires Valid()
      modifies this, sendBuff, recvBuff, driver
      ensures Valid()
      ensures var (d, s, rest) := Call(old(State()), SET_PARAMETERS, [0x00], old(driver.replies));
              State() == s && driver.replies == rest && r == (if d.Threw? then Threw else Normal(()))
    {
      var d := DCommand(SET_PARAMETERS, [0x00]);
      r := if d.Threw? then Threw else Normal(());
    }

    /** TgReadData: TgGetData; on success the whole receive buffer, stale bytes included. */
    method TgReadData() returns (r: Outcome<Option<seq<uint8>>>)
      requires Valid()
      modifies this, sendBuff, recvBuff, driver
      ensures Valid()
      ensures var (d, s, rest) := Call(old(State()), TG_GET_DATA, [], old(driver.replies));
              State() == s && driver.replies == rest && r == (match d case Threw => Threw case Normal(ok) => Normal(if ok then Some(s.recv) else None))
    {
      var d := DCommand(TG_GET_DATA, []);
      if d.Threw? {
        return Threw;
      }
      if d.value {
        return Normal(Some(recvBuff[..]));
      }
      return Normal(None);
    }

    /** TgGetInCommand: the initiator's command, as the response payload. */
    method TgGetInCommand() returns (r: Outcome<Option<seq<uint8>>>)
      requires Valid()
      modifies this, sendBuff, recvBuff, driver
      ensures Valid()
      ensures var (d, s, rest) := Call(old(State()), TG_GET_IN_COMMAND, [], old(driver.replies));
              State() == s && driver.replies == rest && r == Reading(d, s)
    {
      var d := DCommand(TG_GET_IN_COMMAND, []);
      r := ReadPayload(d);
    }

    /** The tail shared by TgGetInCommand and InSendData: allocate the
        payload array and copy `recvBuff[3..]` into it. */
    method ReadPayload(d: Outcome<bool>) returns (r: Outcome<Option<seq<uint8>>>)
      requires Valid()
      ensures r == Reading(d, State())
    {
      if d.Threw? {
        return Threw;
      }
      if !d.value {
        return Normal(None);
      }
      if recvLen - RECV_PREFIX_LEN - RECV_SUFIX_LEN < 0 {
        return Threw;
      }
      var ret := recvBuff[RECV_PREFIX_LEN..recvLen - RECV_SUFIX_LEN];
      return Normal(Some(ret));
    }

    /** TgResToIn: send `data` back to the initiator. */
    method TgResToIn(data: seq<uint8>) returns (r: Outcome<bool>)
      requires Valid()
      modifies this, sendBuff, recvBuff, driver
      ensures Valid()
      ensures (r, State(), driver.replies) == Call(old(State()), TG_RES_TO_IN, data, old(driver.replies))
    {
      r := DCommand(TG_RES_TO_IN, data);
    }

    /** TgSetData: TgSetData with `data`. */
    method TgSetData(data: seq<uint8>) returns (r: Outcome<bool>)
      requires Valid()
      modifies this, sendBuff, recvBuff, driver
      ensures Valid()
      ensures (r, State(), driver.replies) == Call(old(State()), TG_SET_DATA, data, old(driver.replies))
    {
      r := DCommand(TG_SET_DATA, data);
    }

    /** InRelease: release target 0. */
    method InRelease() returns (r: Outcome<bool>)
      requires Valid()
      modifies this, sendBuff, recvBuff, driver
      ensures Valid()
      ensures (r, State(), driver.replies) == Call(old(State()), IN_RELEASE, [0], old(driver.replies))
    {
      r := DCommand(IN_RELEASE, [0]);
    }

    /** TgGetTargetStatus, which sends TgGetInCommand (0x88) rather than
        0x8A: on success the status and bit-rate bytes of the response. */
    method TgGetTargetStatus() returns (r: Outcome<(bool, uint8, uint8)>)
      requires Valid()
      modifies this, sendBuff, recvBuff, driver
      ensures Valid()
      ensures var (d, s, rest) := Call(old(State()), TG_GET_IN_COMMAND, [], old(driver.replies));
              State() == s && driver.replies == rest &&
              r == (match d case Threw => Threw
                            case Normal(ok) => Normal(if ok then (true, s.recv[2], s.recv[3]) else (false, 0, 0)))
    {
      var d := DCommand(TG_GET_IN_COMMAND, []);
      if d.Threw? {
        return Threw;
      }
      if !d.value {
        return Normal((false, 0, 0));
      }
      var status := recvBuff[2];
      var bRit := recvBuff[3];
      return Normal((true, status, bRit));
    }

    /** HasCard: false without a card handle; otherwise whether the status
        query succeeds with status 0. Because the query goes out as 0x88,
        whose status byte DCommand already checks, it is true exactly when
        the exchange is accepted. */
    method HasCard() returns (r: Outcome<bool>)
      requires Valid()
      modifies this, sendBuff, recvBuff, driver
      ensures Valid()
      ensures old(card) == 0 ==> r == Normal(false) && State() == old(State()) && driver.replies == old(driver.replies)
      ensures old(card) != 0 ==>
                (r, State(), driver.replies) == Call(old(State()), TG_GET_IN_COMMAND, [], old(driver.replies))
    {
      if card == 0 {
        return Normal(false);
      }
      ghost var before := State();
      ghost var reply := Upcoming(driver.replies).0;
      var t := TgGetTargetStatus();
      if t.Normal? && t.value.0 {
        AcceptedStatusZero(before, reply);
      }
      if t.Threw? {
        return Threw;
      }
      if !t.value.0 {
        return Normal(false);
      }
      return Normal(t.value.1 == 0);
    }

    /** TgMode: enter target mode with the given parameters and wait for an
        initiator; the mode byte and the initiator's first command. */
    method TgMode(mifare: Option<seq<uint8>>, idm: Option<seq<uint8>>, pmm: Option<seq<uint8>>,
                  sysCode: uint16, nfcid3: Option<seq<uint8>>, gt: Option<seq<uint8>>)
      returns (r: Outcome<(bool, uint8, Option<seq<uint8>>)>)
      requires Valid()
      modifies this, sendBuff, recvBuff, driver
      ensures Valid()
      ensures (r, State(), driver.replies) == TgModeEffect(old(State()), mifare, idm, pmm, sysCode, nfcid3, gt, old(driver.replies))
    {
      ghost var s0 := State();
      ghost var r0 := driver.replies;
      var cmd := BuildTgPayload(mifare, idm, pmm, sysCode, nfcid3, gt);
      if cmd.Threw? {
        return Threw;
      }
      var d := DCommand(TG_INIT_AS_TARGET, cmd.value);
      assert TgModeEffect(s0, mifare, idm, pmm, sysCode, nfcid3, gt, r0) == (TgModeResult(d, State()), State(), driver.replies);
      if d.Threw? {
        return Threw;
      }
      if !d.value {
        return Normal((false, 0, None));
      }
      var mode := recvBuff[2];
      if recvLen < RECV_PREFIX_LEN + RECV_SUFIX_LEN {
        return Threw;
      }
      var ret := recvBuff[RECV_PREFIX_LEN..recvLen - RECV_SUFIX_LEN];
      assert Payload(State()) == Normal(ret);
      return Normal((true, mode, Some(ret)));
    }

    /** FPolling: poll for a FeliCa card with `systemCode`; its IDm when
        exactly one card answers, null otherwise. */
    method FPolling(systemCode: uint16) returns (r: Outcome<Option<seq<uint8>>>)
      requires Valid()
      modifies this, sendBuff, recvBuff, driver
      ensures Valid()
      ensures var (d, s, rest) := Call(old(State()), IN_LIST_PASSIVE_TARGET, FPollingCommand(systemCode), old(driver.replies));
              State() == s && driver.replies == rest &&
              r == (match d case Threw => Threw
                            case Normal(ok) => Normal(if ok && s.recv[2] == 1 then Some(s.recv[6..14]) else None))
    {
      var cmd := new uint8[1 + 1 + 5];
      var index := 0;
      cmd[index] := 1;
      index := index + 1;
      cmd[index] := 0x01;
      index := index + 1;
      cmd[index] := 0x00;
      index := index + 1;
      cmd[index] := systemCode / 0x100;
      index := index + 1;
      cmd[index] := systemCode % 0x100;
      index := index + 1;
      cmd[index] := 0;
      index := index + 1;
      cmd[index] := 0;
      index := index + 1;
      assert cmd[..] == FPollingCommand(systemCode);
      var d := DCommand(IN_LIST_PASSIVE_TARGET, cmd[..]);
      if d.Threw? {
        return Threw;
      }
      if !d.value {
        return Normal(None);
      }
      if recvBuff[2] != 1 {
        return Normal(None);
      }
      var ret := recvBuff[6..6 + Felica.IDM_LENGTH];
      return Normal(Some(ret));
    }

    /** InSendData: exchange `data` with the target (target number 1). */
    method InSendData(data: seq<uint8>) returns (r: Outcome<Option<seq<uint8>>>)
      requires Valid()
      modifies this, sendBuff, recvBuff, driver
      ensures Valid()
      ensures var (d, s, rest) := Call(old(State()), IN_DATA_EX, [1] + data, old(driver.replies));
              State() == s && driver.replies == rest && r == Reading(d, s)
    {
      var cmd := [1] + data;
      var d := DCommand(IN_DATA_EX, cmd);
      r := ReadPayload(d);
    }
  }

  /** TgMode's command body, built in a zeroed array as TgPayload describes. */
  method BuildTgPayload(mifare: Option<seq<uint8>>, idm: Option<seq<uint8>>, pmm: Option<seq<uint8>>,
                        sysCode: uint16, nfcid3: Option<seq<uint8>>, gt: Option<seq<uint8>>)
    returns (r: Outcome<seq<uint8>>)
    ensures r == TgPayload(mifare, idm, pmm, sysCode, nfcid3, gt)
  {
    var gtLen := LengthOf(gt);
    var cmd := new uint8[1 + 6 + 18 + 10 + 1 + gtLen + 1](_ => 0);
    assert cmd[..] == Zeros(cmd.Length);
    var ok := WriteTgHead(cmd, mifare, idm, pmm, sysCode);
    if !ok {
      return Threw;
    }
    ok := WriteTgTail(cmd, nfcid3, gt);
    if !ok {
      return Threw;
    }
    r := Normal(cmd[..]);
  }

  /** TgMode's writes from `cmd[index++] = 0x01` to the system code. */
  method WriteTgHead(cmd: array<uint8>, mifare: Option<seq<uint8>>, idm: Option<seq<uint8>>, pmm: Option<seq<uint8>>,
                     sysCode: uint16) returns (ok: bool)
    requires cmd.Length >= 37 && cmd[..] == Zeros(cmd.Length)
    modifies cmd
    ensures TgHead(cmd.Length, mifare, idm, pmm, sysCode) == (if ok then Normal(cmd[..]) else Threw)
  {
    ghost var n := cmd.Length;
    ghost var b0 := SetAt(Normal(Zeros(n)), 0, 0x01);
    var index := 0;
    cmd[index] := 0x01;
    index := index + 1;
    assert b0 == Normal(cmd[..]);
    ghost var b1 := Place(b0, 1, mifare);
    ok := CopyPart(mifare, cmd, index);
    if !ok {
      assert TgIds(n, mifare, idm, pmm) == Threw;
      return;
    }
    assert b1 == Normal(cmd[..]);
    index := index + 6;
    ghost var b2 := Place(b1, 7, idm);
    ok := CopyPart(idm, cmd, index);
    if !ok {
      assert TgIds(n, mifare, idm, pmm) == Threw;
      return;
    }
    assert b2 == Normal(cmd[..]);
    index := index + 8;
    ok := CopyPart(pmm, cmd, index);
    if !ok {
      assert TgIds(n, mifare, idm, pmm) == Threw;
      return;
    }
    assert TgIds(n, mifare, idm, pmm) == Normal(cmd[..]);
    index := index + 8;
    SetUIntToBytes(UInt16(sysCode), cmd, index);
  }

  /** TgMode's writes from NFCID3 to the closing zero. */
  method WriteTgTail(cmd: array<uint8>, nfcid3: Option<seq<uint8>>, gt: Option<seq<uint8>>) returns (ok: bool)
    requires cmd.Length == 37 + LengthOf(gt)
    modifies cmd
    ensures TgTail(Normal(old(cmd[..])), nfcid3, gt) == (if ok then Normal(cmd[..]) else Threw)
  {
    var gtLen := LengthOf(gt);
    var index := 25;
    ghost var b := Place(Normal(cmd[..]), 25, nfcid3);
    ok := CopyPart(nfcid3, cmd, index);
    if !ok {
      return;
    }
    index := index + 10;
    b := SetAt(b, 35, gtLen % 0x100);
    cmd[index] := gtLen % 0x100;
    index := index + 1;
    assert b == Normal(cmd[..]);
    b := Place(b, 36, gt);
    ok := CopyPart(gt, cmd, index);
    index := index + gtLen;
    b := SetAt(b, 36 + gtLen, 0);
    cmd[index] := 0;
    index := index + 1;
    assert b == Normal(cmd[..]);
  }

  /** Copy an optional part into `cmd` at `at`: nothing for null, false when it does not fit. */
  method CopyPart(part: Option<seq<uint8>>, cmd: array<uint8>, at: nat) returns (ok: bool)
    modifies cmd
    ensures Place(Normal(old(cmd[..])), at, part) == (if ok then Normal(cmd[..]) else Threw)
    ensures !ok ==> cmd[..] == old(cmd[..])
  {
    if part.None? {
      return true;
    }
    if at + |part.value| > cmd.Length {
      return false;
    }
    CopyInto(part.value, cmd, at);
    return true;
  }

  /** HasCard on a connected reader whose previous response left a status
      byte: when the initiator has no command pending the reader answers
      0x89 with a nonzero status, so HasCard drops the card handle. */
  lemma HasCardDropsCard(s: Snapshot, reply: Reply)
    requires s.WellFormed() && s.context != 0 && s.card != 0
    requires reply == Received([0xD5, 0x89, 0x29, 0x90, 0x00])
    ensures Exchange(s, TG_GET_IN_COMMAND, [], reply) == (Normal(false), Exchange(s, TG_GET_IN_COMMAND, [], reply).1)
    ensures Exchange(s, TG_GET_IN_COMMAND, [], reply).1.card == 0
  {
    var recv := Overlay(s.recv, 0, reply.data);
    assert recv[..5] == reply.data;
    assert recv[1] == 0x89 && recv[2] == 0x29 && recv[3] == 0x90 && recv[4] == 0x00;
  }
}
