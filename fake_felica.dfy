/** The FeliCa card emulator (FakeFelica.cs): it decodes the commands an
    initiator sends through the reader, hands them to the attached controller
    as events or answers them itself, frames every response with the IDm, and
    runs the card session over the reader driver. */
module FakeFelica {
  import opened Bytes
  import opened EndianConverter
  import opened Felica
  import FCardController
  import Type3TagController
  import Acr122u

  /* ---------------- Decoding: the specification ---------------- */

  /** What the emulator does with one command: nothing, raise an event for the
      controller, or answer it itself through DoResponse. */
  datatype Action = Ignore | Raise(event: FelicaEvent) | Answer(response: Response)

  /** BitConverter.ToUInt16: two bytes, least significant first. */
  function LittleEndian16(cmd: seq<uint8>, at: nat): uint16
    requires at + 2 <= |cmd|
  {
    cmd[at] as int + 0x100 * cmd[at + 1] as int
  }

  /** `n` service codes, two bytes each, from `at`. */
  function ServiceCodes(cmd: seq<uint8>, at: nat, n: nat): (codes: seq<uint16>)
    requires at + 2 * n <= |cmd|
    ensures |codes| == n
  {
    seq(n, i requires 0 <= i < n => LittleEndian16(cmd, at + 2 * i))
  }

  /** The service code list of a Read, Write or Request Service command: the
      count at byte 9, then the codes; reading the count throws below ten
      bytes, reading a code throws when it is cut short. */
  function ServiceList(cmd: seq<uint8>): (r: Outcome<seq<uint16>>)
    ensures r.Normal? ==> |cmd| >= 10 && |r.value| == cmd[9] as int && 10 + 2 * |r.value| <= |cmd|
  {
    if |cmd| < 10 || 10 + 2 * cmd[9] as int > |cmd| then Threw
    else Normal(ServiceCodes(cmd, 10, cmd[9] as int))
  }

  /** GetBlockElement: the service's position in the list (the low nibble of
      the first byte) and the block number, which is the next byte when bit 7
      of the first byte is set and otherwise the next two bytes big-endian.
      The access mode in bits 4 to 6 is not kept. */
  function GetBlockElement(cmd: seq<uint8>, start: nat): (r: Outcome<(nat, nat)>)
    ensures r.Normal? ==> r.value.0 < 0x10 && r.value.1 < 0x1_0000
    ensures r.Normal? <==> start < |cmd| && start + (if cmd[start] >= 0x80 then 2 else 3) <= |cmd|
  {
    if start >= |cmd| then Threw
    else if cmd[start] >= 0x80 then
      if start + 1 >= |cmd| then Threw else Normal((cmd[start] % 0x10, cmd[start + 1] as nat))
    else if start + 3 > |cmd| then Threw
    else Normal((cmd[start] % 0x10, BytesToUInteger(cmd, start + 1, 2).Value()))
  }

  /** A block list element with its service position replaced by the code
      listed there; a position past the list throws. */
  function ElementAt(cmd: seq<uint8>, start: nat, codes: seq<uint16>): Outcome<BlockElement>
  {
    match GetBlockElement(cmd, start)
    case Threw => Threw
    case Normal((i, number)) => if i >= |codes| then Threw else Normal(BlockElement(codes[i], number))
  }

  /** Every one of `count` elements, two bytes apart from `at`, decodes. */
  predicate ElementsDecode(cmd: seq<uint8>, at: nat, count: nat, codes: seq<uint16>)
  {
    forall i :: 0 <= i < count ==> ElementAt(cmd, at + 2 * i, codes).Normal?
  }

  /** The block list: `count` elements, the cursor moving two bytes per
      element whatever the element's length. */
  function BlockList(cmd: seq<uint8>, at: nat, count: nat, codes: seq<uint16>): (r: Outcome<seq<BlockElement>>)
    ensures r.Normal? <==> ElementsDecode(cmd, at, count, codes)
    ensures r.Normal? ==> |r.value| == count
  {
    if ElementsDecode(cmd, at, count, codes) then
      Normal(seq(count, i requires 0 <= i < count && ElementAt(cmd, at + 2 * i, codes).Normal? =>
                          ElementAt(cmd, at + 2 * i, codes).value))
    else Threw
  }

  /** Where the block count sits: after the service count at byte 9 and the codes. */
  function CountAt(cmd: seq<uint8>): nat
    requires |cmd| >= 10
  {
    10 + 2 * cmd[9] as int
  }

  /** onRead's decoding: the service list, the block count after it, the block list. */
  function ReadRequest(cmd: seq<uint8>): (r: Outcome<seq<BlockElement>>)
    ensures r.Normal? ==> |cmd| > 10 && CountAt(cmd) < |cmd| && |r.value| == cmd[CountAt(cmd)] as int
  {
    match ServiceList(cmd)
    case Threw => Threw
    case Normal(codes) =>
      var at := 10 + 2 * |codes|;
      if at >= |cmd| then Threw else BlockList(cmd, at + 1, cmd[at] as int, codes)
  }

  /** onWrite's decoding: the block list as for a read, then sixteen data
      bytes per block, which must all be present. */
  function WriteRequest(cmd: seq<uint8>): Outcome<(seq<BlockElement>, seq<uint8>)>
  {
    match ReadRequest(cmd)
    case Threw => Threw
    case Normal(blocks) =>
      var start, length := CountAt(cmd) + 1 + 2 * |blocks|, BLOCK_LENGTH * |blocks|;
      if start + length > |cmd| then Threw else Normal((blocks, cmd[start..start + length]))
  }

  /** onReqSv's answer body: the service count, then FFFF (no such service)
      for every listed code. */
  function ServiceReplyBody(n: uint8): seq<uint8>
  {
    [n] + seq(2 * n as int, _ => 0xFF)
  }

  /** onPolling's event: the requested system code, read big-endian from bytes 1 and 2. */
  function PollRequest(cmd: seq<uint8>): Outcome<FelicaEvent>
  {
    if |cmd| < 3 then Threw
    else Normal(PollEvent(BytesToUInteger(cmd, 1, 2).Value() as bv16))
  }

  /** The dispatch on the command code in CardSession and the handler it
      selects; `listening` says whether a controller is attached to
      CommandReceived. Read and Write are decoded, and may throw, even when
      no controller listens; Poll is decoded only when one does. Request
      Service is answered with response code 07 and Request Response with
      mode 0; unknown codes are ignored. */
  function Decode(cmd: seq<uint8>, listening: bool): (r: Outcome<Action>)
    requires |cmd| > 0
    ensures r.Normal? && r.value.Raise? ==> listening && r.value.event.Cmd() == cmd[0]
  {
    var code := cmd[0];
    if code == POLL then
      if !listening then Normal(Ignore)
      else match PollRequest(cmd) case Threw => Threw case Normal(e) => Normal(Raise(e))
    else if code == REQ_SV then
      match ServiceList(cmd)
      case Threw => Threw
      case Normal(codes) => Normal(Answer(Response(READ_WE_RES, ServiceReplyBody(|codes|))))
    else if code == REQ_RES then Normal(Answer(Response(REQ_RES_RES, [0x00])))
    else if code == READ_WE then
      match ReadRequest(cmd)
      case Threw => Threw
      case Normal(blocks) => Normal(if listening then Raise(ReadEvent(blocks)) else Ignore)
    else if code == WRITE_WE then
      match WriteRequest(cmd)
      case Threw => Threw
      case Normal((blocks, data)) => Normal(if listening then Raise(WriteEvent(blocks, data)) else Ignore)
    else if code == REQ_SYS then Normal(if listening then Raise(ReqSysEvent) else Ignore)
    else Normal(Ignore)
  }

  /* ---------------- Decoding: the loops of onRead, onWrite and onReqSv ---------------- */

  /** The service code loop: allocate `svCode` with the count at byte 9 and
      read each code little-endian. */
  method ReadServiceList(cmd: seq<uint8>) returns (r: Outcome<seq<uint16>>)
    ensures r == ServiceList(cmd)
  {
    if |cmd| < 10 {
      return Threw;
    }
    var index := 9;
    var svCode := new uint16[cmd[index]](_ => 0);
    index := index + 1;
    for i := 0 to svCode.Length
      invariant 10 + 2 * i <= |cmd|
      invariant forall k :: 0 <= k < i ==> svCode[k] == LittleEndian16(cmd, 10 + 2 * k)
    {
      if index + i * 2 + 2 > |cmd| {
        return Threw;
      }
      svCode[i] := LittleEndian16(cmd, index + i * 2);
    }
    assert svCode[..] == ServiceCodes(cmd, 10, svCode.Length);
    r := Normal(svCode[..]);
  }

  /** The block list loop: decode each element at the cursor, replace its
      service position by the listed code, and move the cursor two bytes. */
  method ReadBlockList(cmd: seq<uint8>, at: nat, count: nat, codes: seq<uint16>) returns (r: Outcome<seq<BlockElement>>)
    ensures r == BlockList(cmd, at, count, codes)
  {
    var index := at;
    var blockList: seq<BlockElement> := [];
    for i := 0 to count
      invariant index == at + 2 * i && |blockList| == i
      invariant forall k :: 0 <= k < i ==> ElementAt(cmd, at + 2 * k, codes).Normal? &&
                                           blockList[k] == ElementAt(cmd, at + 2 * k, codes).value
    {
      var elm := GetBlockElement(cmd, index);
      if elm.Threw? || elm.value.0 >= |codes| {
        assert ElementAt(cmd, at + 2 * i, codes).Threw?;
        return Threw;
      }
      blockList := blockList + [BlockElement(codes[elm.value.0], elm.value.1)];
      index := index + 2;
    }
    assert blockList == BlockList(cmd, at, count, codes).value;
    r := Normal(blockList);
  }

  /** onRead's parsing (onWrite repeats it word for word). */
  method ParseRead(cmd: seq<uint8>) returns (r: Outcome<seq<BlockElement>>)
    ensures r == ReadRequest(cmd)
  {
    var codes := ReadServiceList(cmd);
    if codes.Threw? {
      return Threw;
    }
    var index := 10 + 2 * |codes.value|;
    if index >= |cmd| {
      return Threw;
    }
    var blockCount := cmd[index];
    r := ReadBlockList(cmd, index + 1, blockCount, codes.value);
  }

  /** onWrite's parsing: the block list, then the data copied from the cursor. */
  method ParseWrite(cmd: seq<uint8>) returns (r: Outcome<(seq<BlockElement>, seq<uint8>)>)
    ensures r == WriteRequest(cmd)
  {
    var blocks := ParseRead(cmd);
    if blocks.Threw? {
      return Threw;
    }
    var index := CountAt(cmd) + 1 + 2 * |blocks.value|;
    var length := BLOCK_LENGTH * |blocks.value|;
    if index + length > |cmd| {
      return Threw;
    }
    r := Normal((blocks.value, cmd[index..index + length]));
  }

  /** onReqSv's body while it is filled: the count, FFFF for the first `i`
      codes, zeros for the rest. */
  ghost function Filled(n: uint8, i: nat): seq<uint8>
    requires i <= n as int
  {
    [n] + seq(2 * i, _ => 0xFF) + Zeros(2 * (n as int - i))
  }

  lemma FilledAt(n: uint8, i: nat, k: nat)
    requires i <= n as int && k < 1 + 2 * n as int
    ensures Filled(n, i)[k] == if k == 0 then n else if k < 1 + 2 * i then 0xFF else 0
  {
    var a, b := [n] + seq(2 * i, _ => 0xFF), Zeros(2 * (n as int - i));
    assert Filled(n, i) == a + b;
  }

  /** Writing FFFF over the next slot fills one more code. */
  lemma FilledStep(n: uint8, i: nat)
    requires i < n as int
    ensures |Filled(n, i)| == 1 + 2 * n as int
    ensures Overlay(Filled(n, i), 1 + 2 * i, [0xFF, 0xFF]) == Filled(n, i + 1)
  {
    var before, after := Filled(n, i), Filled(n, i + 1);
    forall k | 0 <= k < |after|
      ensures after[k] == if 1 + 2 * i <= k < 3 + 2 * i then 0xFF else before[k]
    {
      FilledAt(n, i, k);
      FilledAt(n, i + 1, k);
    }
    OverlayPointwise(before, 1 + 2 * i, [0xFF, 0xFF], after);
  }

  lemma AllOnes()
    ensures UIntergerToBytes(UInt16(0xFFFF)) == Some([0xFF, 0xFF])
  {
    assert ByteOf(0xFFFF, 1) == Shr8(0xFF, 0) % 0x100;
  }

  /** onReqSv: the service count and FFFF per code, written with SetUIntToBytes. */
  method ServiceReply(cmd: seq<uint8>) returns (r: Outcome<seq<uint8>>)
    ensures ServiceList(cmd).Threw? ==> r == Threw
    ensures ServiceList(cmd).Normal? ==> r == Normal(ServiceReplyBody(|ServiceList(cmd).value|))
  {
    var codes := ReadServiceList(cmd);
    if codes.Threw? {
      return Threw;
    }
    var n: uint8 := |codes.value|;
    var fcmd := new uint8[1 + n * 2](_ => 0);
    fcmd[0] := n;
    assert fcmd[..] == Filled(n, 0);
    for i := 0 to n
      invariant fcmd[..] == Filled(n, i)
    {
      FilledStep(n, i);
      AllOnes();
      SetUIntToBytes(UInt16(0xFFFF), fcmd, 1 + i * 2);
    }
    assert Filled(n, n) == ServiceReplyBody(n);
    r := Normal(fcmd[..]);
  }

  /* ---------------- Encoding: the decoder's partner ---------------- */

  /** A block list element as an initiator writes it: the service's position
      in the list, the access mode, the block number, and whether it takes
      the two-byte form (which holds block numbers below 256). */
  datatype Ref = Ref(service: nat, mode: nat, number: nat, short: bool)

  predicate Encodable(r: Ref)
  {
    r.service < 0x10 && r.mode < 8 && r.number < (if r.short then 0x100 else 0x1_0000)
  }

  /** The two-byte form sets bit 7 and carries the number in one byte; the
      three-byte form carries it in two, most significant first. */
  function RefBytes(r: Ref): (b: seq<uint8>)
    requires Encodable(r)
    ensures |b| == if r.short then 2 else 3
  {
    if r.short then [0x80 + 0x10 * r.mode + r.service, r.number]
    else [0x10 * r.mode + r.service, r.number / 0x100, r.number % 0x100]
  }

  lemma BigEndianPair(hi: uint8, lo: uint8)
    ensures BigEndianValue([hi, lo]) == 0x100 * hi as int + lo as int
  {
    assert [hi, lo][..1] == [hi];
    assert [hi][..0] == [];
    assert BigEndianValue([hi]) == hi as int;
  }

  lemma LowNibble(mode: nat, service: nat, high: nat)
    requires service < 0x10
    ensures (0x10 * (high + mode) + service) % 0x10 == service
  {
  }

  /** An element in either form, wherever it sits, decodes to the position and number written. */
  lemma ElementAtRef(cmd: seq<uint8>, start: nat, r: Ref)
    requires Encodable(r) && start + |RefBytes(r)| <= |cmd|
    requires forall k :: 0 <= k < |RefBytes(r)| ==> cmd[start + k] == RefBytes(r)[k]
    ensures GetBlockElement(cmd, start) == Normal((r.service, r.number))
  {
    var b := RefBytes(r);
    assert cmd[start] == b[0];
    if r.short {
      LowNibble(r.mode, r.service, 8);
      assert cmd[start + 1] == b[1];
    } else {
      LowNibble(r.mode, r.service, 0);
      assert cmd[start + 1] == b[1] && cmd[start + 2] == b[2];
      BytesToUIntegerValue(cmd, start + 1, 2);
      assert cmd[start + 1..start + 3] == [b[1], b[2]];
      BigEndianPair(b[1], b[2]);
    }
  }

  /** GetBlockElement reads back the service position and block number of an
      element in either form, whatever follows it; the access mode is dropped. */
  lemma ElementRoundTrip(r: Ref, rest: seq<uint8>)
    requires Encodable(r)
    ensures GetBlockElement(RefBytes(r) + rest, 0) == Normal((r.service, r.number))
  {
    ElementAtRef(RefBytes(r) + rest, 0, r);
  }

  predicate ShortRefs(refs: seq<Ref>)
  {
    forall i :: 0 <= i < |refs| ==> Encodable(refs[i]) && refs[i].short
  }

  /** A block list of two-byte elements. */
  function ListBytes(refs: seq<Ref>): (b: seq<uint8>)
    requires ShortRefs(refs)
    ensures |b| == 2 * |refs|
  {
    seq(2 * |refs|, k requires 0 <= k < 2 * |refs| => RefBytes(refs[k / 2])[k % 2])
  }

  /** Service codes as an initiator sends them, least significant byte first. */
  function ServiceBytes(codes: seq<uint16>): (b: seq<uint8>)
    ensures |b| == 2 * |codes|
  {
    seq(2 * |codes|, k requires 0 <= k < 2 * |codes| =>
      if k % 2 == 0 then codes[k / 2] % 0x100 else codes[k / 2] / 0x100)
  }

  /** A command with a service list: code, IDm, count, codes. */
  function ServiceRequest(code: uint8, idm: seq<uint8>, codes: seq<uint16>): (cmd: seq<uint8>)
    requires |idm| == IDM_LENGTH && |codes| < 0x100
    ensures |cmd| == 10 + 2 * |codes|
  {
    [code] + idm + [|codes| as uint8] + ServiceBytes(codes)
  }

  /** A Read or Write command without its data: the service list, the block
      count, two-byte elements. */
  function Request(code: uint8, idm: seq<uint8>, codes: seq<uint16>, refs: seq<Ref>): (cmd: seq<uint8>)
    requires |idm| == IDM_LENGTH && |codes| < 0x100 && |refs| < 0x100 && ShortRefs(refs)
    ensures |cmd| == 11 + 2 * |codes| + 2 * |refs|
  {
    ServiceRequest(code, idm, codes) + [|refs| as uint8] + ListBytes(refs)
  }

  /** Every element references a position inside the service list. */
  predicate Listed(refs: seq<Ref>, codes: seq<uint16>)
  {
    forall i :: 0 <= i < |refs| ==> refs[i].service < |codes|
  }

  /** The block elements an initiator means by `refs` against the service list `codes`. */
  function Resolve(codes: seq<uint16>, refs: seq<Ref>): (b: seq<BlockElement>)
    requires Listed(refs, codes)
    ensures |b| == |refs|
  {
    seq(|refs|, i requires 0 <= i < |refs| => BlockElement(codes[refs[i].service], refs[i].number))
  }

  /** A service list decodes to the codes laid out little-endian after the count. */
  lemma ServicesOf(cmd: seq<uint8>, codes: seq<uint16>)
    requires 10 + 2 * |codes| <= |cmd| && cmd[9] as int == |codes|
    requires forall i :: 0 <= i < |codes| ==> LittleEndian16(cmd, 10 + 2 * i) == codes[i]
    ensures ServiceList(cmd) == Normal(codes)
  {
    assert ServiceCodes(cmd, 10, |codes|) == codes;
  }

  /** Where each part of a command with a service list lies, whatever follows it. */
  lemma ServiceRequestBytes(code: uint8, idm: seq<uint8>, codes: seq<uint16>, tail: seq<uint8>)
    requires |idm| == IDM_LENGTH && |codes| < 0x100
    ensures var cmd := ServiceRequest(code, idm, codes) + tail;
            cmd[0] == code && ServiceList(cmd) == Normal(codes) && cmd[10 + 2 * |codes|..] == tail
  {
    var h: seq<uint8> := [code] + idm + [|codes| as uint8];
    var b := ServiceBytes(codes);
    var cmd := ServiceRequest(code, idm, codes) + tail;
    assert cmd == h + (b + tail);
    forall i | 0 <= i < |codes|
      ensures LittleEndian16(cmd, 10 + 2 * i) == codes[i]
    {
      assert cmd[10 + 2 * i] == b[2 * i];
      assert cmd[11 + 2 * i] == b[2 * i + 1];
    }
    ServicesOf(cmd, codes);
    assert cmd[10 + 2 * |codes|..] == b[2 * |codes|..] + tail;
  }

  /** Element `i` of a list of two-byte elements laid out from `at`. */
  lemma ListElement(cmd: seq<uint8>, at: nat, codes: seq<uint16>, refs: seq<Ref>, i: nat)
    requires ShortRefs(refs) && at + 2 * |refs| <= |cmd| && i < |refs|
    requires forall k :: 0 <= k < 2 * |refs| ==> cmd[at + k] == ListBytes(refs)[k]
    ensures ElementAt(cmd, at + 2 * i, codes) ==
            if refs[i].service < |codes| then Normal(BlockElement(codes[refs[i].service], refs[i].number)) else Threw
  {
    var b := RefBytes(refs[i]);
    assert cmd[at + 2 * i] == ListBytes(refs)[2 * i] == b[0];
    assert cmd[at + 2 * i + 1] == ListBytes(refs)[2 * i + 1] == b[1];
    ElementAtRef(cmd, at + 2 * i, refs[i]);
  }

  /** Two-byte elements laid out from `at` decode exactly when every
      position is inside the service list, and then to the blocks meant. */
  lemma BlocksOf(cmd: seq<uint8>, at: nat, codes: seq<uint16>, refs: seq<Ref>)
    requires ShortRefs(refs) && at + 2 * |refs| <= |cmd|
    requires forall k :: 0 <= k < 2 * |refs| ==> cmd[at + k] == ListBytes(refs)[k]
    ensures BlockList(cmd, at, |refs|, codes).Normal? <==> Listed(refs, codes)
    ensures Listed(refs, codes) ==> BlockList(cmd, at, |refs|, codes) == Normal(Resolve(codes, refs))
  {
    if Listed(refs, codes) {
      forall i | 0 <= i < |refs|
        ensures ElementAt(cmd, at + 2 * i, codes).Normal?
        ensures ElementAt(cmd, at + 2 * i, codes).value == Resolve(codes, refs)[i]
      {
        ListElement(cmd, at, codes, refs, i);
      }
      assert ElementsDecode(cmd, at, |refs|, codes);
      assert BlockList(cmd, at, |refs|, codes).value == Resolve(codes, refs);
    } else {
      var i :| 0 <= i < |refs| && refs[i].service >= |codes|;
      ListElement(cmd, at, codes, refs, i);
    }
  }

  /** The block list of an encoded request, whatever follows it, is read
      against the codes sent, and what follows starts right after it. */
  lemma RequestRead(code: uint8, idm: seq<uint8>, codes: seq<uint16>, refs: seq<Ref>, rest: seq<uint8>)
    requires |idm| == IDM_LENGTH && |codes| < 0x100 && |refs| < 0x100 && ShortRefs(refs)
    ensures var cmd := Request(code, idm, codes, refs) + rest;
            cmd[0] == code && CountAt(cmd) == 10 + 2 * |codes| &&
            cmd[11 + 2 * |codes| + 2 * |refs|..] == rest &&
            (ReadRequest(cmd).Normal? <==> Listed(refs, codes)) &&
            (Listed(refs, codes) ==> ReadRequest(cmd) == Normal(Resolve(codes, refs)))
  {
    var list := ListBytes(refs);
    var tail := [|refs| as uint8] + list + rest;
    var cmd := Request(code, idm, codes, refs) + rest;
    assert cmd == ServiceRequest(code, idm, codes) + tail;
    ServiceRequestBytes(code, idm, codes, tail);
    var at := 11 + 2 * |codes|;
    assert cmd[at - 1] == tail[0];
    forall k | 0 <= k < 2 * |refs|
      ensures cmd[at + k] == list[k]
    {
      assert cmd[at + k] == cmd[at - 1..][k + 1] == tail[k + 1];
    }
    BlocksOf(cmd, at, codes, refs);
    assert ReadRequest(cmd) == BlockList(cmd, at, |refs|, codes);
    assert cmd[at + 2 * |refs|..] == tail[1 + 2 * |refs|..];
  }

  /** A Read command with two-byte elements decodes to the blocks it
      references, and throws when one references a position past the
      service list. */
  lemma ReadRoundTrip(idm: seq<uint8>, codes: seq<uint16>, refs: seq<Ref>)
    requires |idm| == IDM_LENGTH && |codes| < 0x100 && |refs| < 0x100 && ShortRefs(refs)
    ensures Decode(Request(READ_WE, idm, codes, refs), true).Normal? <==> Listed(refs, codes)
    ensures Listed(refs, codes) ==>
              Decode(Request(READ_WE, idm, codes, refs), true) == Normal(Raise(ReadEvent(Resolve(codes, refs))))
  {
    var cmd := Request(READ_WE, idm, codes, refs);
    assert cmd + [] == cmd;
    RequestRead(READ_WE, idm, codes, refs, []);
  }

  /** A Write command with two-byte elements and sixteen bytes per block
      decodes to the blocks and the data. */
  lemma WriteRoundTrip(idm: seq<uint8>, codes: seq<uint16>, refs: seq<Ref>, data: seq<uint8>)
    requires |idm| == IDM_LENGTH && |codes| < 0x100 && |refs| < 0x100 && ShortRefs(refs)
    requires |data| == BLOCK_LENGTH * |refs|
    ensures Decode(Request(WRITE_WE, idm, codes, refs) + data, true).Normal? <==> Listed(refs, codes)
    ensures Listed(refs, codes) ==>
              Decode(Request(WRITE_WE, idm, codes, refs) + data, true) ==
              Normal(Raise(WriteEvent(Resolve(codes, refs), data)))
  {
    var cmd := Request(WRITE_WE, idm, codes, refs) + data;
    RequestRead(WRITE_WE, idm, codes, refs, data);
    DecodeWrite(cmd, true);
    if Listed(refs, codes) {
      WriteRequestOf(cmd, Resolve(codes, refs), data);
    }
  }

  /** The Write branch of the dispatch. */
  lemma DecodeWrite(cmd: seq<uint8>, listening: bool)
    requires |cmd| > 0 && cmd[0] == WRITE_WE
    ensures Decode(cmd, listening).Normal? <==> WriteRequest(cmd).Normal?
    ensures WriteRequest(cmd).Normal? ==>
              Decode(cmd, listening) ==
              Normal(if listening then Raise(WriteEvent(WriteRequest(cmd).value.0, WriteRequest(cmd).value.1)) else Ignore)
  {
  }

  /** The data of a Write request is what follows its block list, when there
      is exactly a block's worth per element. */
  lemma WriteRequestOf(cmd: seq<uint8>, blocks: seq<BlockElement>, data: seq<uint8>)
    requires ReadRequest(cmd) == Normal(blocks) && |data| == BLOCK_LENGTH * |blocks|
    requires CountAt(cmd) + 1 + 2 * |blocks| + |data| == |cmd|
    requires cmd[CountAt(cmd) + 1 + 2 * |blocks|..] == data
    ensures WriteRequest(cmd) == Normal((blocks, data))
  {
    TailSlice(cmd, CountAt(cmd) + 1 + 2 * |blocks|, data);
  }

  /** A slice running to the end of the bytes is their suffix. */
  lemma TailSlice(b: seq<uint8>, start: nat, data: seq<uint8>)
    requires start + |data| == |b| && b[start..] == data
    ensures b[start..start + |data|] == data
  {
  }

  /** A Polling command raises a poll event for the system code it carries
      (request code and time slot are not read), and is ignored when no
      controller listens. */
  lemma PollRoundTrip(systemCode: uint16, requestCode: uint8, timeSlot: uint8)
    ensures Decode([POLL, systemCode / 0x100, systemCode % 0x100, requestCode, timeSlot], true)
              == Normal(Raise(PollEvent(systemCode as bv16)))
    ensures Decode([POLL, systemCode / 0x100, systemCode % 0x100, requestCode, timeSlot], false) == Normal(Ignore)
  {
    var cmd: seq<uint8> := [POLL, systemCode / 0x100, systemCode % 0x100, requestCode, timeSlot];
    BytesToUIntegerValue(cmd, 1, 2);
    assert cmd[1..3] == [cmd[1], cmd[2]];
    BigEndianPair(cmd[1], cmd[2]);
  }

  /** Request Service is answered, listening controller or not, with the
      count and FFFF for every listed code, under response code 07 (the Read
      response's code) rather than 03. */
  lemma ServiceRequestAnswer(idm: seq<uint8>, codes: seq<uint16>, rest: seq<uint8>, listening: bool)
    requires |idm| == IDM_LENGTH && |codes| < 0x100
    ensures Decode(ServiceRequest(REQ_SV, idm, codes) + rest, listening) ==
            Normal(Answer(Response(READ_WE_RES, ServiceReplyBody(|codes|))))
    ensures READ_WE_RES != REQ_SV_RES
  {
    ServiceRequestBytes(REQ_SV, idm, codes, rest);
  }

  /** A three-byte element takes three bytes, but the cursor moves two: its
      last byte is read as the next element's first. Here block 5 of the
      first service, written as `00 00 05`, is followed by `80 01` (block 1);
      the decoder reads a second element `05 80 01`, whose service position
      5 is past the one-entry list, and throws. */
  lemma ThreeByteElementMisread()
    ensures ElementAt(MISREAD_READ, 13, [0x000B]) == Normal(BlockElement(0x000B, 5))
    ensures GetBlockElement(MISREAD_READ, 15) == Normal((5, 0x8001))
    ensures ReadRequest(MISREAD_READ) == Threw
  {
    FirstMisreadElement();
    SecondMisreadElement();
    MisreadServices();
    assert ElementAt(MISREAD_READ, 13 + 2 * 1, [0x000B]).Threw?;
  }

  /** A Read with IDm 01..08, the one service 000B and the two elements
      `00 00 05` and `80 01`. */
  const MISREAD_READ: seq<uint8> := [READ_WE, 1, 2, 3, 4, 5, 6, 7, 8, 1, 0x0B, 0x00, 2, 0x00, 0x00, 0x05, 0x80, 0x01]

  /** The first element is read whole: block 5 of service 000B. */
  lemma FirstMisreadElement()
    ensures ElementAt(MISREAD_READ, 13, [0x000B]) == Normal(BlockElement(0x000B, 5))
  {
    var cmd := MISREAD_READ;
    BytesToUIntegerValue(cmd, 14, 2);
    assert cmd[14..16] == [0x00, 0x05];
    BigEndianPair(0x00, 0x05);
  }

  /** Two bytes on, the decoder reads `05 80 01`: service position 5. */
  lemma SecondMisreadElement()
    ensures GetBlockElement(MISREAD_READ, 15) == Normal((5, 0x8001))
    ensures ElementAt(MISREAD_READ, 15, [0x000B]) == Threw
  {
    var cmd := MISREAD_READ;
    BytesToUIntegerValue(cmd, 16, 2);
    assert cmd[16..18] == [0x80, 0x01];
    BigEndianPair(0x80, 0x01);
  }

  /** The service list holds 000B, and the block count follows it. */
  lemma MisreadServices()
    ensures ServiceList(MISREAD_READ) == Normal([0x000B]) && MISREAD_READ[12] == 2
  {
    assert ServiceCodes(MISREAD_READ, 10, 1) == [0x000B];
  }

  /** The evidently intended block list decoding: the cursor moves by each
      element's own length, two bytes or three. */
  function ElementsByForm(b: seq<uint8>, count: nat, codes: seq<uint16>): (r: Outcome<seq<BlockElement>>)
    ensures r.Normal? ==> |r.value| == count
    decreases count
  {
    if count == 0 then Normal([])
    else
      match ElementAt(b, 0, codes)
      case Threw => Threw
      case Normal(e) =>
        var width := if b[0] >= 0x80 then 2 else 3;
        match ElementsByForm(b[width..], count - 1, codes)
        case Threw => Threw
        case Normal(es) => Normal([e] + es)
  }

  /** Elements of either form, one after another. */
  function RefsBytes(refs: seq<Ref>): seq<uint8>
    requires forall i :: 0 <= i < |refs| ==> Encodable(refs[i])
  {
    if refs == [] then [] else RefBytes(refs[0]) + RefsBytes(refs[1..])
  }

  /** The corrected decoding reads back any mix of two- and three-byte
      elements against the service list, whatever follows them. */
  lemma {:induction false} ElementsByFormRoundTrip(refs: seq<Ref>, codes: seq<uint16>, rest: seq<uint8>)
    requires forall i :: 0 <= i < |refs| ==> Encodable(refs[i])
    requires Listed(refs, codes)
    ensures ElementsByForm(RefsBytes(refs) + rest, |refs|, codes) == Normal(Resolve(codes, refs))
  {
    if refs != [] {
      var r0 := refs[0];
      var head := RefBytes(r0);
      var tail := RefsBytes(refs[1..]) + rest;
      var e := BlockElement(codes[r0.service], r0.number);
      RefsBytesCons(refs, rest);
      FirstElementAt(r0, tail, codes);
      SuffixAfter(head, tail);
      ElementsByFormRoundTrip(refs[1..], codes, rest);
      ElementsByFormCons(head + tail, |refs|, codes, e, |head|);
      ResolveCons(codes, refs);
    }
  }

  /** The blocks of a list are its first element's block, then the rest's. */
  lemma ResolveCons(codes: seq<uint16>, refs: seq<Ref>)
    requires refs != [] && Listed(refs, codes)
    ensures Listed(refs[1..], codes)
    ensures Resolve(codes, refs) == [BlockElement(codes[refs[0].service], refs[0].number)] + Resolve(codes, refs[1..])
  {
    assert Resolve(codes, refs)[1..] == Resolve(codes, refs[1..]);
  }

  /** A list's bytes are its first element's bytes, then the rest's. */
  lemma RefsBytesCons(refs: seq<Ref>, rest: seq<uint8>)
    requires refs != [] && forall i :: 0 <= i < |refs| ==> Encodable(refs[i])
    ensures RefsBytes(refs) + rest == RefBytes(refs[0]) + (RefsBytes(refs[1..]) + rest)
  {
    var head, tail := RefBytes(refs[0]), RefsBytes(refs[1..]);
    assert RefsBytes(refs) == head + tail;
    AppendAssoc(head, tail, rest);
  }

  lemma AppendAssoc(a: seq<uint8>, b: seq<uint8>, c: seq<uint8>)
    ensures (a + b) + c == a + (b + c)
  {
  }

  /** What follows a prefix. */
  lemma SuffixAfter(head: seq<uint8>, tail: seq<uint8>)
    ensures (head + tail)[|head|..] == tail
  {
  }

  /** An element at the head of the bytes decodes to the block it references,
      and its first byte tells its form. */
  lemma FirstElementAt(r: Ref, tail: seq<uint8>, codes: seq<uint16>)
    requires Encodable(r) && r.service < |codes|
    ensures var b := RefBytes(r) + tail;
            ElementAt(b, 0, codes) == Normal(BlockElement(codes[r.service], r.number)) && (b[0] >= 0x80 <==> r.short)
  {
    ElementRoundTrip(r, tail);
  }

  /** One step of the corrected decoding: the first element, then the rest
      from just past its own bytes. */
  lemma ElementsByFormCons(b: seq<uint8>, count: nat, codes: seq<uint16>, e: BlockElement, width: nat)
    requires count > 0 && ElementAt(b, 0, codes) == Normal(e)
    requires width == (if b[0] >= 0x80 then 2 else 3) && width <= |b|
    ensures ElementsByForm(b[width..], count - 1, codes).Normal? ==>
              ElementsByForm(b, count, codes) == Normal([e] + ElementsByForm(b[width..], count - 1, codes).value)
  {
  }

  /** On the command that ThreeByteElementMisread shows failing, the
      corrected decoding finds blocks 5 and 1 of the listed service. */
  lemma ElementsByFormExample()
    ensures ElementsByForm([0x00, 0x00, 0x05, 0x80, 0x01], 2, [0x000B]) ==
            Normal([BlockElement(0x000B, 5), BlockElement(0x000B, 1)])
  {
    var refs := [Ref(0, 0, 5, false), Ref(0, 0, 1, true)];
    assert RefBytes(refs[0]) == [0x00, 0x00, 0x05];
    assert RefBytes(refs[1]) == [0x80, 0x01];
    assert RefsBytes(refs[1..]) == [0x80, 0x01] by {
      assert refs[1..][0] == refs[1];
      assert refs[1..][1..] == [];
    }
    assert RefsBytes(refs) + [] == [0x00, 0x00, 0x05, 0x80, 0x01];
    ElementsByFormRoundTrip(refs, [0x000B], []);
    assert Resolve([0x000B], refs) == [BlockElement(0x000B, 5), BlockElement(0x000B, 1)];
  }

  /* ---------------- Framing ---------------- */

  /** DoResponse's frame: the total length, the response code, the IDm and
      the body. The array is allocated with the total truncated to a byte, so
      a total of 256 or more leaves it too short and a copy throws. */
  function Frame(idm: seq<uint8>, res: Response): (f: Outcome<seq<uint8>>)
    ensures f.Normal? <==> 2 + |idm| + |res.body| < 0x100
    ensures f.Normal? ==> |f.value| == 2 + |idm| + |res.body|
  {
    var total := 2 + |idm| + |res.body|;
    if total >= 0x100 then Threw else Normal([total as uint8, res.cmd] + idm + res.body)
  }

  /** How an initiator reads a response frame with an eight-byte IDm. */
  function ParseFrame(f: seq<uint8>): Option<(seq<uint8>, Response)>
  {
    if |f| < 2 + IDM_LENGTH || f[0] as int != |f| then None
    else Some((f[2..2 + IDM_LENGTH], Response(f[1], f[2 + IDM_LENGTH..])))
  }

  /** A response is framed exactly when it fits a length byte, and then the
      initiator reads back the IDm and the response. */
  lemma FrameRoundTrip(idm: seq<uint8>, res: Response)
    requires |idm| == IDM_LENGTH
    ensures Frame(idm, res).Normal? <==> |res.body| < 0x100 - 2 - IDM_LENGTH
    ensures Frame(idm, res).Normal? ==> ParseFrame(Frame(idm, res).value) == Some((idm, res))
  {
    if Frame(idm, res).Normal? {
      var f := Frame(idm, res).value;
      assert f == [f[0], res.cmd] + idm + res.body;
      assert f[2..2 + IDM_LENGTH] == idm;
      assert f[2 + IDM_LENGTH..] == res.body;
    }
  }

  /** The bytes DoResponse assembles: header, then IDm, then body. */
  lemma FrameBytes(a: seq<uint8>, total: uint8, cmd: uint8, idm: seq<uint8>, body: seq<uint8>)
    requires |a| == 2 + |idm| + |body| && a[0] == total && a[1] == cmd
    ensures Overlay(Overlay(a, 2, idm), 2 + |idm|, body) == [total, cmd] + idm + body
  {
    var o1 := Overlay(a, 2, idm);
    var o2 := Overlay(o1, 2 + |idm|, body);
    assert o2 == o2[..2 + |idm|] + o2[2 + |idm|..];
    assert o2[..2 + |idm|] == o1[..2 + |idm|];
    assert o1[..2 + |idm|] == o1[..2] + o1[2..2 + |idm|];
    assert o1[..2] == a[..2] == [total, cmd];
  }

  /** DoResponse's frame, built in an array allocated with the total length
      truncated to a byte: the length and code, then the IDm and the body
      copied in, the first copy that does not fit throwing. */
  method BuildFrame(idm: seq<uint8>, cmd: uint8, body: seq<uint8>) returns (f: Outcome<seq<uint8>>)
    ensures f == Frame(idm, Response(cmd, body))
  {
    var total := 2 + |idm| + |body|;
    var length: uint8 := total % 0x100;
    FrameLength(idm, cmd, body, length);
    var fdata := new uint8[length](_ => 0);
    if length < 1 {
      return Threw;
    }
    fdata[0] := length;
    if length < 2 {
      return Threw;
    }
    fdata[1] := cmd;
    if 2 + |idm| > length as int {
      return Threw;
    }
    ghost var header := fdata[..];
    CopyInto(idm, fdata, 2);
    if total > length as int {
      return Threw;
    }
    CopyInto(body, fdata, 2 + |idm|);
    FrameBytes(header, length, cmd, idm, body);
    f := Normal(fdata[..]);
  }

  /** The frame in terms of the length byte: it is built exactly when the
      truncated length is the whole total, which is never less than it. */
  lemma FrameLength(idm: seq<uint8>, cmd: uint8, body: seq<uint8>, length: uint8)
    requires length as int == (2 + |idm| + |body|) % 0x100
    ensures length as int <= 2 + |idm| + |body|
    ensures Frame(idm, Response(cmd, body)) ==
              if length as int == 2 + |idm| + |body| then Normal([length, cmd] + idm + body) else Threw
  {
  }

  /* ---------------- The reader as the emulator sees it ---------------- */

  /** `a` is what is left of `b` after some replies were taken. */
  predicate Suffix(a: seq<Acr122u.Reply>, b: seq<Acr122u.Reply>)
  {
    |a| <= |b| && a == b[|b| - |a|..]
  }

  lemma SuffixTrans(a: seq<Acr122u.Reply>, b: seq<Acr122u.Reply>, c: seq<Acr122u.Reply>)
    requires Suffix(a, b) && Suffix(b, c)
    ensures Suffix(a, c)
  {
    assert c[|c| - |b|..][|b| - |a|..] == c[|c| - |a|..];
  }

  /** DoResponse: frame the response and hand it to TgResToIn, whose result
      is ignored unless it throws. */
  function Send(s: Acr122u.Snapshot, idm: seq<uint8>, res: Response, replies: seq<Acr122u.Reply>)
    : (r: (Outcome<()>, Acr122u.Snapshot, seq<Acr122u.Reply>))
    requires s.WellFormed()
    ensures r.1.WellFormed() && Suffix(r.2, replies)
  {
    match Frame(idm, res)
    case Threw => (Threw, s, replies)
    case Normal(f) =>
      var (d, t, rest) := Acr122u.Call(s, Acr122u.TG_RES_TO_IN, f, replies);
      (if d.Threw? then Threw else Normal(()), t, rest)
  }

  /** A controller's answer, if it gives one, goes out through DoResponse. */
  function Deliver(s: Acr122u.Snapshot, idm: seq<uint8>, res: Option<Response>, replies: seq<Acr122u.Reply>)
    : (r: (Outcome<()>, Acr122u.Snapshot, seq<Acr122u.Reply>))
    requires s.WellFormed()
    ensures r.1.WellFormed() && Suffix(r.2, replies)
  {
    match res
    case None => (Normal(()), s, replies)
    case Some(x) => Send(s, idm, x, replies)
  }

  /* ---------------- Controllers ---------------- */

  /** The controller attached to CommandReceived: the generic card or the Type 3 Tag. */
  datatype Controller = Generic(card: FCardController.FCard) | Type3(tag: Type3TagController.Type3Tag)
  {
    function Card(): FCardController.FCard
    {
      match this
      case Generic(c) => c
      case Type3(t) => t.card
    }
  }

  /** The response a controller hands to DoResponse for an event, if any. */
  function ControllerReply(h: Controller, pmm: seq<uint8>, e: FelicaEvent): (res: Option<Response>)
    ensures res.Some? ==> res.value.cmd == e.Cmd() + 1
  {
    match e
    case PollEvent(r) =>
      if FCardController.Answers(h.Card(), r) then Some(Response(POLL_RES, pmm)) else None
    case ReadEvent(block) =>
      (match h
       case Generic(_) => Some(FCardController.GenericRead(|block|))
       case Type3(t) =>
         var i := Type3TagController.FirstForeign(block);
         if i < |block| then Some(FCardController.OnError(READ_WE_RES, Type3TagController.St1(i), 0xA8))
         else Some(Response(READ_WE_RES, [0, 0, |block| % 0x100] + Type3TagController.Blocks(t.data, block))))
    case WriteEvent(_, _) => Some(FCardController.OnWrite())
    case ReqSysEvent => Some(Response(REQ_SYS_RES, FCardController.SystemCodesBody(h.Card().systemCode)))
  }

  /** Raising the event: the attached controller's handler runs. */
  method Handle(h: Controller, pmm: seq<uint8>, e: FelicaEvent) returns (res: Option<Response>)
    ensures res == ControllerReply(h, pmm, e)
  {
    match h
    case Generic(c) =>
      res := FCardController.CommandReceived(c, pmm, e);
    case Type3(t) =>
      res := Type3TagController.CommandReceived(t, pmm, e);
  }

  /** What one decoded command does to the reader and the replies. */
  function Perform(a: Outcome<Action>, s: Acr122u.Snapshot, idm: seq<uint8>, pmm: seq<uint8>,
                   handler: Option<Controller>, replies: seq<Acr122u.Reply>)
    : (r: (Outcome<()>, Acr122u.Snapshot, seq<Acr122u.Reply>))
    requires s.WellFormed()
    ensures r.1.WellFormed() && Suffix(r.2, replies)
  {
    match a
    case Threw => (Threw, s, replies)
    case Normal(Ignore) => (Normal(()), s, replies)
    case Normal(Answer(res)) => Send(s, idm, res, replies)
    case Normal(Raise(e)) =>
      match handler
      case None => (Normal(()), s, replies)
      case Some(h) => Deliver(s, idm, ControllerReply(h, pmm, e), replies)
  }

  /* ---------------- Target mode and the card session ---------------- */

  /** The MIFARE parameters SetTargetMode passes to TgMode. */
  const MIFARE_PARAMS: seq<uint8> := [0x00, 0x00, 0x00, 0x00, 0x00, 0xFF]

  /** The FeliCa framing type in the low two bits of TgMode's mode byte. */
  const FELICA_FRAMING: nat := 2

  /** SetTargetMode's result from TgMode's: no command unless TgMode
      succeeded with FeliCa framing, otherwise the initiator's command without
      its length byte (empty when there is nothing after it). */
  function TargetCommand(t: Outcome<(bool, uint8, Option<seq<uint8>>)>): Outcome<Option<seq<uint8>>>
  {
    match t
    case Threw => Threw
    case Normal((ok, mode, inCmd)) =>
      if !ok || mode as int % 4 != FELICA_FRAMING then Normal(None)
      else if inCmd.None? then Threw
      else if |inCmd.value| > 1 then Normal(Some(inCmd.value[1..]))
      else Normal(Some([]))
  }

  /** SetTargetMode: TgMode with the emulator's IDm, PMm and system code. */
  function TargetEffect(s: Acr122u.Snapshot, idm: seq<uint8>, pmm: seq<uint8>, systemCode: uint16,
                        replies: seq<Acr122u.Reply>)
    : (r: (Outcome<Option<seq<uint8>>>, Acr122u.Snapshot, seq<Acr122u.Reply>))
    requires s.WellFormed()
    ensures r.1.WellFormed() && Suffix(r.2, replies)
  {
    var (t, s1, rest) := Acr122u.TgModeEffect(s, Some(MIFARE_PARAMS), Some(idm), Some(pmm), systemCode, None, None, replies);
    (TargetCommand(t), s1, rest)
  }

  /** WaitCmd's result from TgGetInCommand's: no command for null or empty,
      otherwise the command without its length byte. */
  function Command(r: Outcome<Option<seq<uint8>>>): Outcome<Option<seq<uint8>>>
  {
    match r
    case Threw => Threw
    case Normal(None) => Normal(None)
    case Normal(Some(c)) => Normal(if |c| == 0 then None else Some(c[1..]))
  }

  /** WaitCmd: TgGetInCommand and the command it delivers; a wait that
      takes no reply delivers no command. */
  function WaitEffect(s: Acr122u.Snapshot, replies: seq<Acr122u.Reply>)
    : (r: (Outcome<Option<seq<uint8>>>, Acr122u.Snapshot, seq<Acr122u.Reply>))
    requires s.WellFormed()
    ensures r.1.WellFormed() && Suffix(r.2, replies)
    ensures |r.2| == |replies| ==> r.0 == Normal(None)
  {
    var (d, t, rest) := Acr122u.Call(s, Acr122u.TG_GET_IN_COMMAND, [], replies);
    (Command(Acr122u.Reading(d, t)), t, rest)
  }

  /** HasCard: false without a card handle, otherwise the status query; the
      card is reported present only once a reply was taken. */
  function HasCardEffect(s: Acr122u.Snapshot, replies: seq<Acr122u.Reply>)
    : (r: (Outcome<bool>, Acr122u.Snapshot, seq<Acr122u.Reply>))
    requires s.WellFormed()
    ensures r.1.WellFormed() && Suffix(r.2, replies)
    ensures r.0 == Normal(true) ==> |r.2| < |replies|
  {
    if s.card == 0 then (Normal(false), s, replies) else Acr122u.Call(s, Acr122u.TG_GET_IN_COMMAND, [], replies)
  }

  /** How a card session ends: HasCard said the card is gone, the abort flag
      was seen, or an exception left it (the worker catches it). */
  datatype SessionEnd = CardGone | Aborted | Crashed

  /** CardSession from its current command: handle the command (or, for no
      command, check that the card is still there), then wait for the next.
      The abort flag is taken to be set once the driver replies run out. A
      round that takes no reply ends the session or is followed by one
      without a command, so the replies and the round's kind bound it. */
  function Session(s: Acr122u.Snapshot, idm: seq<uint8>, pmm: seq<uint8>, handler: Option<Controller>,
                   cmd: Option<seq<uint8>>, replies: seq<Acr122u.Reply>)
    : (r: (SessionEnd, Acr122u.Snapshot, seq<Acr122u.Reply>))
    requires s.WellFormed()
    ensures r.1.WellFormed()
    decreases |replies|, Round(cmd)
  {
    if cmd.Some? && |cmd.value| > 0 then
      var (o, s1, r1) := Perform(Decode(cmd.value, handler.Some?), s, idm, pmm, handler, replies);
      if o.Threw? then (Crashed, s1, r1) else Await(s1, idm, pmm, handler, r1)
    else
      var (h, s1, r1) := HasCardEffect(s, replies);
      if h.Threw? then (Crashed, s1, r1)
      else if !h.value then (CardGone, s1, r1)
      else Await(s1, idm, pmm, handler, r1)
  }

  /** The termination rank of a round: 2 with a command to handle, 0 without. */
  function Round(cmd: Option<seq<uint8>>): nat
  {
    if cmd.Some? && |cmd.value| > 0 then 2 else 0
  }

  /** The end of a session round: WaitCmd, then the loop test. */
  function Await(s: Acr122u.Snapshot, idm: seq<uint8>, pmm: seq<uint8>, handler: Option<Controller>,
                 replies: seq<Acr122u.Reply>)
    : (r: (SessionEnd, Acr122u.Snapshot, seq<Acr122u.Reply>))
    requires s.WellFormed()
    ensures r.1.WellFormed()
    decreases |replies|, 1
  {
    var (c, s1, r1) := WaitEffect(s, replies);
    if c.Threw? then (Crashed, s1, r1)
    else if r1 == [] then (Aborted, s1, r1)
    else Session(s1, idm, pmm, handler, c.value, r1)
  }

  /** What DoResponse puts on the wire with both handles open: a frame of
      at most 249 bytes goes out as one TgResponseToInitiator envelope and
      takes one reply; a longer frame either is not built (256 bytes or
      more) or does not fit sendBuff, and throws with nothing sent and no
      reply taken. */
  lemma SendOnWire(s: Acr122u.Snapshot, idm: seq<uint8>, res: Response, replies: seq<Acr122u.Reply>)
    requires s.WellFormed() && s.context != 0 && s.card != 0
    ensures var n := 2 + |idm| + |res.body|;
            var r := Send(s, idm, res, replies);
            (n <= Acr122u.BUFFER_LENGTH - 7 ==>
               r.1.sent == s.sent + [Acr122u.Envelope(Acr122u.TG_RES_TO_IN, [n as uint8, res.cmd] + idm + res.body)] &&
               r.2 == Acr122u.Upcoming(replies).1) &&
            (n > Acr122u.BUFFER_LENGTH - 7 ==> r.0 == Threw && r.1.sent == s.sent && r.2 == replies)
  {
    var n := 2 + |idm| + |res.body|;
    if n < 0x100 {
      var f := Frame(idm, res).value;
      assert f == [n as uint8, res.cmd] + idm + res.body;
      Acr122u.CallDrawsPerEnvelope(s, Acr122u.TG_RES_TO_IN, f, replies);
    }
  }

  /** A generic card answers a Polling command for 0xFFFF, and only that
      code, with its PMm under the Polling response code; otherwise nothing
      is sent. */
  lemma PollAnswered(s: Acr122u.Snapshot, idm: seq<uint8>, pmm: seq<uint8>, cardIdm: seq<uint8>,
                     code: uint16, requestCode: uint8, timeSlot: uint8, replies: seq<Acr122u.Reply>)
    requires s.WellFormed()
    ensures var cmd: seq<uint8> := [POLL, code / 0x100, code % 0x100, requestCode, timeSlot];
            Perform(Decode(cmd, true), s, idm, pmm, Some(Generic(FCardController.New(cardIdm))), replies) ==
            if code == 0xFFFF then Send(s, idm, Response(POLL_RES, pmm), replies) else (Normal(()), s, replies)
  {
    var cmd: seq<uint8> := [POLL, code / 0x100, code % 0x100, requestCode, timeSlot];
    PollRoundTrip(code, requestCode, timeSlot);
    var h := Generic(FCardController.New(cardIdm));
    AllOnesCode(code);
    GenericPollReply(h, cardIdm, pmm, code as bv16);
  }

  lemma AllOnesCode(code: uint16)
    ensures code as bv16 == 0xFFFF <==> code == 0xFFFF
  {
    if code == 0xFFFF {
      assert SystemCodeBits(0xFFFF) == 0xFFFF;
    }
  }

  /** A system code as the 16 bits the controllers match against. */
  function SystemCodeBits(code: uint16): bv16
  {
    code as bv16
  }

  /** A generic card answers PollRes with the PMm for FFFF and nothing else. */
  lemma GenericPollReply(h: Controller, cardIdm: seq<uint8>, pmm: seq<uint8>, request: bv16)
    requires h == Generic(FCardController.New(cardIdm))
    ensures ControllerReply(h, pmm, PollEvent(request)) ==
            if request == 0xFFFF then Some(Response(POLL_RES, pmm)) else None
  {
    assert FCardController.Answers(h.Card(), request) <==> request == 0xFFFF;
  }

  /** What a Type 3 Tag hands back for a read of `block`: the blocks' bytes
      when all are of the Type 3 service, otherwise the error naming the
      first foreign element. */
  lemma Type3Reply(tag: Type3TagController.Type3Tag, pmm: seq<uint8>, block: seq<BlockElement>, k: nat)
    requires |block| < 0x100 && k <= |block|
    requires forall j :: 0 <= j < k ==> block[j].serviceCode == Type3TagController.TYPE3_SERVICE
    requires k < |block| ==> block[k].serviceCode != Type3TagController.TYPE3_SERVICE
    ensures ControllerReply(Type3(tag), pmm, ReadEvent(block)) ==
            if k == |block| then Some(Response(READ_WE_RES, [0, 0, |block| as uint8] + Type3TagController.Blocks(tag.data, block)))
            else Some(FCardController.OnError(READ_WE_RES, Type3TagController.St1(k), 0xA8))
  {
    FirstForeignIs(block, k);
    if k == |block| {
      Type3ReplyAll(tag, pmm, block);
    } else {
      Type3ReplyForeign(tag, pmm, block);
    }
  }

  /** A Read of the Type 3 service only is answered with the blocks. */
  lemma Type3ReplyAll(tag: Type3TagController.Type3Tag, pmm: seq<uint8>, block: seq<BlockElement>)
    requires |block| < 0x100 && Type3TagController.FirstForeign(block) == |block|
    ensures ControllerReply(Type3(tag), pmm, ReadEvent(block)) ==
            Some(Response(READ_WE_RES, [0, 0, |block| as uint8] + Type3TagController.Blocks(tag.data, block)))
  {
    ByteSized(|block|);
  }

  /** A count below 256 survives truncation to a byte. */
  lemma ByteSized(n: nat)
    requires n < 0x100
    ensures n % 0x100 == n
  {
  }

  /** A Read naming another service is answered with the error statuses. */
  lemma Type3ReplyForeign(tag: Type3TagController.Type3Tag, pmm: seq<uint8>, block: seq<BlockElement>)
    requires Type3TagController.FirstForeign(block) < |block|
    ensures ControllerReply(Type3(tag), pmm, ReadEvent(block)) ==
            Some(FCardController.OnError(READ_WE_RES, Type3TagController.St1(Type3TagController.FirstForeign(block)), 0xA8))
  {
  }

  /** FirstForeign finds the first element of another service. */
  lemma FirstForeignIs(block: seq<BlockElement>, k: nat)
    requires k <= |block|
    requires forall j :: 0 <= j < k ==> block[j].serviceCode == Type3TagController.TYPE3_SERVICE
    requires k < |block| ==> block[k].serviceCode != Type3TagController.TYPE3_SERVICE
    ensures Type3TagController.FirstForeign(block) == k
  {
  }

  /** A Type 3 Tag answers a Read of blocks of the Type 3 service with the
      status 00 00, the block count and the blocks' bytes from its image. */
  lemma Type3ReadAnswered(s: Acr122u.Snapshot, idm: seq<uint8>, pmm: seq<uint8>, tag: Type3TagController.Type3Tag,
                          refs: seq<Ref>, replies: seq<Acr122u.Reply>)
    requires s.WellFormed() && |idm| == IDM_LENGTH && |refs| < 0x100 && ShortRefs(refs)
    requires forall i :: 0 <= i < |refs| ==> refs[i].service == 0
    ensures var codes := [Type3TagController.TYPE3_SERVICE];
            Perform(Decode(Request(READ_WE, idm, codes, refs), true), s, idm, pmm, Some(Type3(tag)), replies) ==
            Send(s, idm, Response(READ_WE_RES, [0, 0, |refs| as uint8] + Type3TagController.Blocks(tag.data, Resolve(codes, refs))), replies)
  {
    var codes := [Type3TagController.TYPE3_SERVICE];
    ReadRoundTrip(idm, codes, refs);
    var block := Resolve(codes, refs);
    Type3Reply(tag, pmm, block, |block|);
    assert Perform(Decode(Request(READ_WE, idm, codes, refs), true), s, idm, pmm, Some(Type3(tag)), replies) ==
           Deliver(s, idm, ControllerReply(Type3(tag), pmm, ReadEvent(block)), replies);
  }

  /** A Type 3 Tag refuses a Read in which some block is of another
      service: the error response names the first such element in status
      flag 1 and gives A8 in status flag 2. */
  lemma Type3ReadRefused(s: Acr122u.Snapshot, idm: seq<uint8>, pmm: seq<uint8>, tag: Type3TagController.Type3Tag,
                         other: uint16, refs: seq<Ref>, k: nat, replies: seq<Acr122u.Reply>)
    requires s.WellFormed() && |idm| == IDM_LENGTH && |refs| < 0x100 && ShortRefs(refs)
    requires other != Type3TagController.TYPE3_SERVICE
    requires forall i :: 0 <= i < |refs| ==> refs[i].service < 2
    requires k < |refs| && refs[k].service == 1
    requires forall i :: 0 <= i < k ==> refs[i].service == 0
    ensures var codes := [Type3TagController.TYPE3_SERVICE, other];
            Perform(Decode(Request(READ_WE, idm, codes, refs), true), s, idm, pmm, Some(Type3(tag)), replies) ==
            Send(s, idm, FCardController.OnError(READ_WE_RES, Type3TagController.St1(k), 0xA8), replies)
  {
    var codes := [Type3TagController.TYPE3_SERVICE, other];
    ReadRoundTrip(idm, codes, refs);
    var block := Resolve(codes, refs);
    assert Listed(refs, codes);
    Type3Reply(tag, pmm, block, k);
    assert Perform(Decode(Request(READ_WE, idm, codes, refs), true), s, idm, pmm, Some(Type3(tag)), replies) ==
           Deliver(s, idm, ControllerReply(Type3(tag), pmm, ReadEvent(block)), replies);
  }

  /** A session only takes replies (what is left is a suffix of what it was
      given), and it ends as aborted only once they have run out. */
  lemma {:induction false} SessionConsumes(s: Acr122u.Snapshot, idm: seq<uint8>, pmm: seq<uint8>, handler: Option<Controller>,
                                           cmd: Option<seq<uint8>>, replies: seq<Acr122u.Reply>)
    requires s.WellFormed()
    ensures var r := Session(s, idm, pmm, handler, cmd, replies);
            Suffix(r.2, replies) && (r.0 == Aborted ==> r.2 == [])
    decreases |replies|, Round(cmd)
  {
    if cmd.Some? && |cmd.value| > 0 {
      var (o, s1, r1) := Perform(Decode(cmd.value, handler.Some?), s, idm, pmm, handler, replies);
      if !o.Threw? {
        AwaitConsumes(s1, idm, pmm, handler, r1);
        SuffixTrans(Await(s1, idm, pmm, handler, r1).2, r1, replies);
      }
    } else {
      var (h, s1, r1) := HasCardEffect(s, replies);
      if !h.Threw? && h.value {
        AwaitConsumes(s1, idm, pmm, handler, r1);
        SuffixTrans(Await(s1, idm, pmm, handler, r1).2, r1, replies);
      }
    }
  }

  lemma {:induction false} AwaitConsumes(s: Acr122u.Snapshot, idm: seq<uint8>, pmm: seq<uint8>, handler: Option<Controller>,
                                         replies: seq<Acr122u.Reply>)
    requires s.WellFormed()
    ensures var r := Await(s, idm, pmm, handler, replies);
            Suffix(r.2, replies) && (r.0 == Aborted ==> r.2 == [])
    decreases |replies|, 1
  {
    var (c, s1, r1) := WaitEffect(s, replies);
    if !c.Threw? && r1 != [] {
      SessionConsumes(s1, idm, pmm, handler, c.value, r1);
      SuffixTrans(Session(s1, idm, pmm, handler, c.value, r1).2, r1, replies);
    }
  }

  /** Without a card handle, a round with no command ends the session at
      once: HasCard answers false without touching the reader or the driver. */
  lemma SessionWithoutCard(s: Acr122u.Snapshot, idm: seq<uint8>, pmm: seq<uint8>, handler: Option<Controller>,
                           replies: seq<Acr122u.Reply>)
    requires s.WellFormed() && s.card == 0
    ensures Session(s, idm, pmm, handler, None, replies) == (CardGone, s, replies)
    ensures Session(s, idm, pmm, handler, Some([]), replies) == (CardGone, s, replies)
  {
  }

  /* ---------------- The emulator ---------------- */

  const DEFAULT_IDM: seq<uint8> := [0x01, 0x02, 0x03, 0x04, 0x05, 0x06, 0x07, 0x08]
  /** The PMm of a mobile FeliCa chip. */
  const DEFAULT_PMM: seq<uint8> := [0x01, 0x13, 0x8B, 0x42, 0x8F, 0xBE, 0xCB, 0xFF]
  /** The wildcard system code. */
  const DEFAULT_SYSTEM_CODE: uint16 := 0xFFFF

  class FakeFelica {
    const rw: Acr122u.Acr122u
    var idm: seq<uint8>
    var pmm: seq<uint8>
    var systemCode: uint16
    /** The controller subscribed to CommandReceived, if any. */
    var handler: Option<Controller>

    predicate Valid()
      reads this, rw
    {
      rw.Valid()
    }

    constructor(rw: Acr122u.Acr122u)
      requires rw.Valid()
      ensures Valid() && this.rw == rw
      ensures idm == DEFAULT_IDM && pmm == DEFAULT_PMM && systemCode == DEFAULT_SYSTEM_CODE && handler == None
    {
      this.rw := rw;
      idm := DEFAULT_IDM;
      pmm := DEFAULT_PMM;
      systemCode := DEFAULT_SYSTEM_CODE;
      handler := None;
    }

    /** FCardController.Init: the controller's IDm and first system code
        become the emulator's, and the controller subscribes. */
    method Attach(ctl: Controller) returns (r: Outcome<()>)
      modifies this
      ensures idm == ctl.Card().idm && pmm == old(pmm)
      ensures |ctl.Card().systemCode| == 0 ==> r == Threw && systemCode == old(systemCode) && handler == old(handler)
      ensures |ctl.Card().systemCode| > 0 ==>
                r == Normal(()) && systemCode == ctl.Card().systemCode[0] as int && handler == Some(ctl)
    {
      idm := ctl.Card().idm;
      if |ctl.Card().systemCode| == 0 {
        return Threw;
      }
      systemCode := ctl.Card().systemCode[0] as int;
      handler := Some(ctl);
      r := Normal(());
    }

    /** DoResponse: build the frame, then send it with TgResToIn. */
    method DoResponse(cmd: uint8, body: seq<uint8>) returns (r: Outcome<()>)
      requires Valid()
      modifies rw, rw.sendBuff, rw.recvBuff, rw.driver
      ensures Valid()
      ensures (r, rw.State(), rw.driver.replies) == Send(old(rw.State()), idm, Response(cmd, body), old(rw.driver.replies))
    {
      var fdata := BuildFrame(idm, cmd, body);
      if fdata.Threw? {
        return Threw;
      }
      var d := rw.TgResToIn(fdata.value);
      r := if d.Threw? then Threw else Normal(());
    }

    /** CommandReceived(this, e): the controller's answer, sent if there is one. */
    method RaiseEvent(e: FelicaEvent) returns (r: Outcome<()>)
      requires Valid()
      modifies rw, rw.sendBuff, rw.recvBuff, rw.driver
      ensures Valid()
      ensures (r, rw.State(), rw.driver.replies) ==
              Perform(Normal(Raise(e)), old(rw.State()), idm, pmm, handler, old(rw.driver.replies))
    {
      if handler.None? {
        return Normal(());
      }
      var res := Handle(handler.value, pmm, e);
      if res.None? {
        return Normal(());
      }
      r := DoResponse(res.value.cmd, res.value.body);
    }

    method OnPolling(cmd: seq<uint8>) returns (r: Outcome<()>)
      requires Valid() && |cmd| > 0 && cmd[0] == POLL
      modifies rw, rw.sendBuff, rw.recvBuff, rw.driver
      ensures Valid()
      ensures (r, rw.State(), rw.driver.replies) ==
              Perform(Decode(cmd, handler.Some?), old(rw.State()), idm, pmm, handler, old(rw.driver.replies))
    {
      if handler.None? {
        return Normal(());
      }
      if |cmd| < 3 {
        return Threw;
      }
      var requested := BytesToUInteger(cmd, 1, 2).Value();
      r := RaiseEvent(PollEvent(requested as bv16));
    }

    method OnReqSv(cmd: seq<uint8>) returns (r: Outcome<()>)
      requires Valid() && |cmd| > 0 && cmd[0] == REQ_SV
      modifies rw, rw.sendBuff, rw.recvBuff, rw.driver
      ensures Valid()
      ensures (r, rw.State(), rw.driver.replies) ==
              Perform(Decode(cmd, handler.Some?), old(rw.State()), idm, pmm, handler, old(rw.driver.replies))
    {
      var body := ServiceReply(cmd);
      if body.Threw? {
        return Threw;
      }
      r := DoResponse(READ_WE_RES, body.value);
    }

    method OnReqRes(cmd: seq<uint8>) returns (r: Outcome<()>)
      requires Valid() && |cmd| > 0 && cmd[0] == REQ_RES
      modifies rw, rw.sendBuff, rw.recvBuff, rw.driver
      ensures Valid()
      ensures (r, rw.State(), rw.driver.replies) ==
              Perform(Decode(cmd, handler.Some?), old(rw.State()), idm, pmm, handler, old(rw.driver.replies))
    {
      r := DoResponse(REQ_RES_RES, [0x00]);
    }

    method OnRead(cmd: seq<uint8>) returns (r: Outcome<()>)
      requires Valid() && |cmd| > 0 && cmd[0] == READ_WE
      modifies rw, rw.sendBuff, rw.recvBuff, rw.driver
      ensures Valid()
      ensures (r, rw.State(), rw.driver.replies) ==
              Perform(Decode(cmd, handler.Some?), old(rw.State()), idm, pmm, handler, old(rw.driver.replies))
    {
      var blocks := ParseRead(cmd);
      if blocks.Threw? {
        return Threw;
      }
      if handler.None? {
        return Normal(());
      }
      r := RaiseEvent(ReadEvent(blocks.value));
    }

    method OnWrite(cmd: seq<uint8>) returns (r: Outcome<()>)
      requires Valid() && |cmd| > 0 && cmd[0] == WRITE_WE
      modifies rw, rw.sendBuff, rw.recvBuff, rw.driver
      ensures Valid()
      ensures (r, rw.State(), rw.driver.replies) ==
              Perform(Decode(cmd, handler.Some?), old(rw.State()), idm, pmm, handler, old(rw.driver.replies))
    {
      var request := ParseWrite(cmd);
      if request.Threw? {
        return Threw;
      }
      if handler.None? {
        return Normal(());
      }
      r := RaiseEvent(WriteEvent(request.value.0, request.value.1));
    }

    method OnReqSys(cmd: seq<uint8>) returns (r: Outcome<()>)
      requires Valid() && |cmd| > 0 && cmd[0] == REQ_SYS
      modifies rw, rw.sendBuff, rw.recvBuff, rw.driver
      ensures Valid()
      ensures (r, rw.State(), rw.driver.replies) ==
              Perform(Decode(cmd, handler.Some?), old(rw.State()), idm, pmm, handler, old(rw.driver.replies))
    {
      if handler.None? {
        return Normal(());
      }
      r := RaiseEvent(ReqSysEvent);
    }

    /** The switch on the command code in CardSession. */
    method Dispatch(cmd: seq<uint8>) returns (r: Outcome<()>)
      requires Valid() && |cmd| > 0
      modifies rw, rw.sendBuff, rw.recvBuff, rw.driver
      ensures Valid()
      ensures (r, rw.State(), rw.driver.replies) ==
              Perform(Decode(cmd, handler.Some?), old(rw.State()), idm, pmm, handler, old(rw.driver.replies))
    {
      var code := cmd[0];
      if code == POLL {
        r := OnPolling(cmd);
      } else if code == REQ_SV {
        r := OnReqSv(cmd);
      } else if code == REQ_RES {
        r := OnReqRes(cmd);
      } else if code == READ_WE {
        r := OnRead(cmd);
      } else if code == WRITE_WE {
        r := OnWrite(cmd);
      } else if code == REQ_SYS {
        r := OnReqSys(cmd);
      } else {
        r := Normal(());
      }
    }

    /** SetTargetMode: wait in target mode for an initiator's first command. */
    method SetTargetMode() returns (r: Outcome<Option<seq<uint8>>>)
      requires Valid()
      modifies rw, rw.sendBuff, rw.recvBuff, rw.driver
      ensures Valid()
      ensures (r, rw.State(), rw.driver.replies) ==
              TargetEffect(old(rw.State()), idm, pmm, systemCode, old(rw.driver.replies))
    {
      var t := rw.TgMode(Some(MIFARE_PARAMS), Some(idm), Some(pmm), systemCode, None, None);
      if t.Threw? {
        return Threw;
      }
      var (ok, mode, inCmd) := t.value;
      if !ok || mode % 4 != FELICA_FRAMING {
        return Normal(None);
      }
      if inCmd.None? {
        return Threw;
      }
      if |inCmd.value| > 1 {
        return Normal(Some(inCmd.value[1..]));
      }
      return Normal(Some([]));
    }

    /** WaitCmd: the initiator's next command. */
    method WaitCmd() returns (r: Outcome<Option<seq<uint8>>>)
      requires Valid()
      modifies rw, rw.sendBuff, rw.recvBuff, rw.driver
      ensures Valid()
      ensures (r, rw.State(), rw.driver.replies) == WaitEffect(old(rw.State()), old(rw.driver.replies))
    {
      var inCmd := rw.TgGetInCommand();
      if inCmd.Threw? {
        return Threw;
      }
      if inCmd.value.None? || |inCmd.value.value| == 0 {
        return Normal(None);
      }
      return Normal(Some(inCmd.value.value[1..]));
    }

    /** HasCard on the reader. */
    method CardPresent() returns (r: Outcome<bool>)
      requires Valid()
      modifies rw, rw.sendBuff, rw.recvBuff, rw.driver
      ensures Valid()
      ensures (r, rw.State(), rw.driver.replies) == HasCardEffect(old(rw.State()), old(rw.driver.replies))
    {
      r := rw.HasCard();
    }

    /** CardSession: handle commands until the card is gone, an exception
        is thrown, or the abort flag is seen. */
    method CardSession(first: Option<seq<uint8>>) returns (end: SessionEnd)
      requires Valid()
      modifies rw, rw.sendBuff, rw.recvBuff, rw.driver
      ensures Valid()
      ensures (end, rw.State(), rw.driver.replies) ==
              Session(old(rw.State()), idm, pmm, handler, first, old(rw.driver.replies))
    {
      var cmd := first;
      while true
        invariant Valid()
        invariant Session(rw.State(), idm, pmm, handler, cmd, rw.driver.replies) ==
                  Session(old(rw.State()), idm, pmm, handler, first, old(rw.driver.replies))
        decreases |rw.driver.replies|, Round(cmd)
      {
        if cmd.Some? && |cmd.value| > 0 {
          var o := Dispatch(cmd.value);
          if o.Threw? {
            return Crashed;
          }
        } else {
          var present := CardPresent();
          if present.Threw? {
            return Crashed;
          }
          if !present.value {
            return CardGone;
          }
        }
        var next := WaitCmd();
        if next.Threw? {
          return Crashed;
        }
        cmd := next.value;
        if rw.driver.replies == [] {
          return Aborted;
        }
      }
    }
  }
}
