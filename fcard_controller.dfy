/** The generic card controller (FCardController.cs): the polling match on
    system codes and the response bodies of a card that holds no data. */
module FCardController {
  import opened Bytes
  import opened Felica
  import opened EndianConverter

  /** An FCardController's own state: the IDm it answers with and its list of
      system codes. Neither changes once the controller is built. */
  datatype FCard = FCard(idm: seq<uint8>, systemCode: seq<bv16>)

  /** The mask of nibble `i`, which the source computes as `0x000f << i * 4`. */
  function NibbleMask(i: nat): bv16
    requires i < 4
  {
    if i == 0 then 0x000F else if i == 1 then 0x00F0 else if i == 2 then 0x0F00 else 0xF000
  }

  /** Each mask is the low nibble shifted left by four bits per nibble. */
  lemma NibbleMaskIsShift(i: nat)
    requires i < 4
    ensures NibbleMask(i) == 0x000F << (i * 4)
  {
  }

  /** Nibble `i` of `r` is all ones. */
  predicate Full(r: bv16, i: nat)
    requires i < 4
  {
    r & NibbleMask(i) == NibbleMask(i)
  }

  /** The mask of nibble `i` when that nibble is all ones in `r`, else 0. */
  function Wildcard(r: bv16, i: nat): bv16
    requires i < 4
  {
    if Full(r, i) then NibbleMask(i) else 0
  }

  /** The OR of the masks of nibbles 0 to n-1 that are all ones in the request `r`. */
  function WildcardMask(r: bv16, n: nat): bv16
    requires n <= 4
  {
    if n == 0 then 0 else WildcardMask(r, n - 1) | Wildcard(r, n - 1)
  }

  /** `a` has no bit that `r` lacks. */
  predicate Within(a: bv16, r: bv16)
  {
    a & r == a
  }

  /** OnPolling's test of one configured code `sys` against the requested code
      `r`: every nibble that is F in the request is a wildcard, and the
      configured code widened by the wildcards must be contained in the request. */
  predicate PollMatch(sys: bv16, r: bv16)
  {
    Within(sys | WildcardMask(r, 4), r)
  }

  /** The wildcard step changes nothing: a configured code matches exactly the
      requests that contain all of its bits. */
  lemma PollMatchIsSubset(sys: bv16, r: bv16)
    ensures PollMatch(sys, r) <==> Within(sys, r)
  {
    var w := WildcardMask(r, 4);
    WildcardInRequest(r, 4);
    WidenWithin(sys, w, r);
  }

  /** Widening by bits the request has does not change containment. */
  lemma WidenWithin(sys: bv16, w: bv16, r: bv16)
    requires Within(w, r)
    ensures Within(sys | w, r) <==> Within(sys, r)
  {
  }

  /** Every wildcard bit is set in the request. */
  lemma {:induction false} WildcardInRequest(r: bv16, n: nat)
    requires n <= 4
    ensures Within(WildcardMask(r, n), r)
  {
    if n > 0 {
      WildcardInRequest(r, n - 1);
      WildcardWithin(r, n - 1);
      UnionWithin(WildcardMask(r, n - 1), Wildcard(r, n - 1), r);
    }
  }

  lemma WildcardWithin(r: bv16, i: nat)
    requires i < 4
    ensures Within(Wildcard(r, i), r)
  {
    var m := NibbleMask(i);
    if Full(r, i) {
      AndCommutes(m, r);
    }
  }

  lemma AndCommutes(a: bv16, b: bv16)
    ensures a & b == b & a
  {
  }

  lemma UnionWithin(a: bv16, b: bv16, r: bv16)
    requires Within(a, r) && Within(b, r)
    ensures Within(a | b, r)
  {
  }

  /** Consequences: a code always matches itself and the all-F request; 0x12FC
      matches 0xF2FC because its bits are a subset, but not 0x02FC or 0xFE00. */
  lemma PollMatchExamples()
    ensures forall sys: bv16 :: PollMatch(sys, sys) && PollMatch(sys, 0xFFFF)
    ensures PollMatch(0x12FC, 0xF2FC)
    ensures !PollMatch(0x12FC, 0x02FC) && !PollMatch(0x12FC, 0xFE00)
  {
    forall sys: bv16
      ensures PollMatch(sys, sys) && PollMatch(sys, 0xFFFF)
    {
      PollMatchIsSubset(sys, sys);
      PollMatchIsSubset(sys, 0xFFFF);
    }
    PollMatchIsSubset(0x12FC, 0xF2FC);
    PollMatchIsSubset(0x12FC, 0x02FC);
    PollMatchIsSubset(0x12FC, 0xFE00);
  }

  /** Some configured code of `c` matches the request. */
  predicate Answers(c: FCard, r: bv16)
  {
    exists k :: 0 <= k < |c.systemCode| && PollMatch(c.systemCode[k], r)
  }

  /** The constructor: the given IDm and the single system code 0xFFFF, which
      answers only a request for 0xFFFF. */
  function New(idm: seq<uint8>): (c: FCard)
    ensures c.idm == idm
    ensures forall r: bv16 :: Answers(c, r) <==> r == 0xFFFF
  {
    var c := FCard(idm, [0xFFFF]);
    forall r: bv16
      ensures Answers(c, r) <==> r == 0xFFFF
    {
      PollMatchIsSubset(0xFFFF, r);
      assert c.systemCode[0] == 0xFFFF;
      assert Answers(c, r) <==> PollMatch(0xFFFF, r);
    }
    c
  }

  /** `maskSys` is `sys` widened by the wildcards among the first `n` nibbles. */
  predicate Widened(maskSys: bv16, sys: bv16, r: bv16, n: nat)
    requires n <= 4
  {
    maskSys == sys | WildcardMask(r, n)
  }

  /** The inner loop of OnPolling: `sys` widened by every nibble that is all
      ones in the request. */
  method WidenBy(sys: bv16, request: bv16) returns (maskSys: bv16)
    ensures Widened(maskSys, sys, request, 4)
  {
    maskSys := sys;
    WidenNone(sys, request);
    for i := 0 to 4
      invariant Widened(maskSys, sys, request, i)
    {
      maskSys := WidenNibble(maskSys, request, i, sys);
    }
  }

  /** One pass of that loop: nibble `i` of the mask joins `maskSys` when the
      request has it all ones. */
  method WidenNibble(maskSys: bv16, request: bv16, i: nat, ghost sys: bv16) returns (next: bv16)
    requires i < 4 && Widened(maskSys, sys, request, i)
    ensures Widened(next, sys, request, i + 1)
  {
    if Full(request, i) {
      next := maskSys | NibbleMask(i);
      WidenFull(sys, request, i, maskSys);
    } else {
      next := maskSys;
      WidenEmpty(sys, request, i, maskSys);
    }
  }

  lemma WidenNone(sys: bv16, r: bv16)
    ensures Widened(sys, sys, r, 0)
  {
    OrZero(sys);
  }

  /** A nibble that is all ones in the request joins the widened code. */
  lemma WidenFull(sys: bv16, r: bv16, i: nat, maskSys: bv16)
    requires i < 4 && Full(r, i) && Widened(maskSys, sys, r, i)
    ensures Widened(maskSys | NibbleMask(i), sys, r, i + 1)
  {
    WildcardFull(r, i);
    OrAssoc(sys, WildcardMask(r, i), NibbleMask(i));
  }

  /** Any other nibble leaves it as it is. */
  lemma WidenEmpty(sys: bv16, r: bv16, i: nat, maskSys: bv16)
    requires i < 4 && !Full(r, i) && Widened(maskSys, sys, r, i)
    ensures Widened(maskSys, sys, r, i + 1)
  {
    WildcardEmpty(r, i);
  }

  lemma WildcardFull(r: bv16, i: nat)
    requires i < 4 && r & NibbleMask(i) == NibbleMask(i)
    ensures WildcardMask(r, i + 1) == WildcardMask(r, i) | NibbleMask(i)
  {
  }

  lemma WildcardEmpty(r: bv16, i: nat)
    requires i < 4 && r & NibbleMask(i) != NibbleMask(i)
    ensures WildcardMask(r, i + 1) == WildcardMask(r, i)
  {
    OrZero(WildcardMask(r, i));
  }

  lemma OrAssoc(a: bv16, b: bv16, c: bv16)
    ensures (a | b) | c == a | (b | c)
  {
  }

  lemma OrZero(b: bv16)
    ensures b | 0 == b
  {
  }

  /** OnPolling: on the first configured code that matches, respond PollRes
      with the emulator's PMm and stop; when none matches, respond nothing. */
  method OnPolling(c: FCard, pmm: seq<uint8>, request: bv16) returns (res: Option<Response>)
    ensures res.Some? <==> Answers(c, request)
    ensures res.Some? ==> res.value == Response(POLL_RES, pmm)
  {
    for k := 0 to |c.systemCode|
      invariant forall j :: 0 <= j < k ==> !PollMatch(c.systemCode[j], request)
    {
      var maskSys := WidenBy(c.systemCode[k], request);
      MatchTest(c.systemCode[k], request, maskSys);
      if maskSys & request == maskSys {
        assert Within(maskSys, request);
        MatchAnswers(c, request, k);
        return Some(Response(POLL_RES, pmm));
      }
    }
    return None;
  }

  /** The test OnPolling makes on the widened code is PollMatch. */
  lemma MatchTest(sys: bv16, r: bv16, maskSys: bv16)
    requires Widened(maskSys, sys, r, 4)
    ensures PollMatch(sys, r) <==> Within(maskSys, r)
  {
  }

  lemma MatchAnswers(c: FCard, r: bv16, k: nat)
    requires k < |c.systemCode| && PollMatch(c.systemCode[k], r)
    ensures Answers(c, r)
  {
  }

  /** The generic OnRead: ReadWERes with a zero body of 3 + 16n bytes (two
      status bytes, the block count left at 0, and n blocks). */
  function GenericRead(n: nat): (res: Response)
    ensures res.cmd == READ_WE_RES && |res.body| == 3 + BLOCK_LENGTH * n
    ensures forall k :: 0 <= k < |res.body| ==> res.body[k] == 0
  {
    Response(READ_WE_RES, Zeros(3 + BLOCK_LENGTH * n))
  }

  /** OnWrite: WriteWERes with both status flags 0 (success). */
  function OnWrite(): (res: Response)
    ensures res.cmd == WRITE_WE_RES && res.body == [0, 0]
  {
    Response(WRITE_WE_RES, [0x00, 0x00])
  }

  /** OnError: the given response code with the two status flags as its body. */
  function OnError(cmd: uint8, st1: uint8, st2: uint8): (res: Response)
    ensures res.cmd == cmd && res.body == [st1, st2]
  {
    Response(cmd, [st1, st2])
  }

  /** The body of the Request System Code response: the count byte, which is
      always 1, then each system code big-endian. */
  function SystemCodesBody(codes: seq<bv16>): (body: seq<uint8>)
    ensures |body| == 1 + 2 * |codes|
  {
    if codes == [] then [1] else SystemCodesBody(codes[..|codes| - 1]) + BigEndian(codes[|codes| - 1] as int, 2)
  }

  /** OnReqSys: ReqSysRes with the count byte and each code written by SetUIntToBytes. */
  method OnReqSys(c: FCard) returns (res: Response)
    ensures res == Response(REQ_SYS_RES, SystemCodesBody(c.systemCode))
  {
    var body := new uint8[1 + |c.systemCode| * 2];
    var index := 0;
    body[index] := 1;
    index := index + 1;
    for k := 0 to |c.systemCode|
      invariant index == 1 + 2 * k
      invariant body[..index] == SystemCodesBody(c.systemCode[..k])
    {
      WriteCode(body, index, c.systemCode[k]);
      SystemCodesStep(c.systemCode, k);
      index := index + 2;
    }
    assert c.systemCode[..|c.systemCode|] == c.systemCode;
    assert body[..] == body[..index];
    res := Response(REQ_SYS_RES, body[..]);
  }

  /** `SetUIntToBytes((ushort)code, body, index)`: the code big-endian after what was written. */
  method WriteCode(body: array<uint8>, index: nat, code: bv16)
    requires index + 2 <= body.Length
    modifies body
    ensures body[..index + 2] == old(body[..index]) + BigEndian(code as int, 2)
  {
    UIntergerToBytesIsBigEndian(UInt16(code as int));
    SetUIntToBytes(UInt16(code as int), body, index);
    assert body[..index + 2] == body[..index] + body[index..index + 2];
  }

  lemma SystemCodesStep(codes: seq<bv16>, k: nat)
    requires k < |codes|
    ensures SystemCodesBody(codes[..k + 1]) == SystemCodesBody(codes[..k]) + BigEndian(codes[k] as int, 2)
  {
    assert codes[..k + 1][..k] == codes[..k];
  }

  /** How a reader decodes a Request System Code response body: the count
      byte, then that many big-endian codes. */
  function ParseSystemCodes(body: seq<uint8>): (codes: Option<seq<nat>>)
  {
    if |body| < 1 then None
    else
      var n: nat := body[0];
      if |body| < 1 + 2 * n then None
      else Some(seq(n, i requires 0 <= i < n => BigEndianValue(body[1 + 2 * i..3 + 2 * i])))
  }

  lemma {:induction false} SystemCodesAt(codes: seq<bv16>, i: nat)
    requires i < |codes|
    ensures SystemCodesBody(codes)[1 + 2 * i..3 + 2 * i] == BigEndian(codes[i] as int, 2)
  {
    var init := codes[..|codes| - 1];
    if i < |init| {
      SystemCodesAt(init, i);
      assert SystemCodesBody(codes)[1 + 2 * i..3 + 2 * i] == SystemCodesBody(init)[1 + 2 * i..3 + 2 * i];
    }
  }

  /** The count byte is 1 and the first code follows it. */
  lemma SystemCodesFirst(codes: seq<bv16>)
    requires |codes| >= 1
    ensures SystemCodesBody(codes)[0] == 1
    ensures BigEndianValue(SystemCodesBody(codes)[1..3]) == codes[0] as int
  {
    SystemCodesAt(codes, 0);
    SystemCodesHead(codes);
    assert Pow256(2) == 0x1_0000 by {
      assert Pow256(1) == 0x100;
    }
    BigEndianValueOf(codes[0] as int, 2);
  }

  /** A body whose count byte is 1 decodes to the one code after it. */
  lemma ParseOneCode(body: seq<uint8>, x: nat)
    requires |body| >= 3 && body[0] == 1 && BigEndianValue(body[1..3]) == x
    ensures ParseSystemCodes(body) == Some([x])
  {
    var decoded := seq(1, i requires 0 <= i < 1 => BigEndianValue(body[1 + 2 * i..3 + 2 * i]));
    assert decoded[0] == x;
    assert decoded == [x];
  }

  /** A reader recovers the first configured code, and only that one, because
      the count byte is always 1. */
  lemma ReqSysRoundTrip(codes: seq<bv16>)
    requires |codes| >= 1
    ensures ParseSystemCodes(SystemCodesBody(codes)) == Some([codes[0] as nat])
  {
    SystemCodesFirst(codes);
    ParseOneCode(SystemCodesBody(codes), codes[0] as nat);
  }

  lemma {:induction false} SystemCodesHead(codes: seq<bv16>)
    ensures SystemCodesBody(codes)[0] == 1
  {
    if codes != [] {
      SystemCodesHead(codes[..|codes| - 1]);
    }
  }

  /** The generic controller's handler: the response it hands to DoResponse for
      each event. */
  method CommandReceived(c: FCard, pmm: seq<uint8>, e: FelicaEvent) returns (res: Option<Response>)
    ensures e.PollEvent? ==> (res.Some? <==> Answers(c, e.systemCode)) &&
                             (res.Some? ==> res.value == Response(POLL_RES, pmm))
    ensures e.ReadEvent? ==> res == Some(GenericRead(|e.block|))
    ensures e.WriteEvent? ==> res == Some(OnWrite())
    ensures e.ReqSysEvent? ==> res == Some(Response(REQ_SYS_RES, SystemCodesBody(c.systemCode)))
    ensures res.Some? ==> res.value.cmd == e.Cmd() + 1
  {
    match e
    case PollEvent(r) =>
      res := OnPolling(c, pmm, r);
    case ReadEvent(block) =>
      res := Some(GenericRead(|block|));
    case WriteEvent(_, _) =>
      res := Some(OnWrite());
    case ReqSysEvent =>
      var body := OnReqSys(c);
      res := Some(body);
  }
}
