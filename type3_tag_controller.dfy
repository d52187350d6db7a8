/** The NFC Forum Type 3 Tag controller (Type3TagController.cs): a 13-block
    memory image holding the Attribute Information Block and one NDEF message,
    served to Read Without Encryption commands. */
module Type3TagController {
  import opened Bytes
  import opened EndianConverter
  import opened Ndef
  import opened Felica
  import opened FCardController

  const BLOCK_COUNT: nat := 0x0D
  const SYSTEM_CODE: bv16 := 0x12FC
  const TYPE3_SERVICE: uint16 := 0x000B
  const AVAILABLE_BLOCK: uint16 := 0x0D
  /** Bytes of the image: 13 blocks of 16. */
  const IMAGE_LENGTH: nat := 208
  /** Room for the message after the Attribute Information Block. */
  const MESSAGE_ROOM: nat := 192

  /** A memory image of BLOCK_COUNT blocks. */
  type Image = s: seq<uint8> | |s| == 208 witness Zeros(208)

  /** A Type3TagController: the card state it inherits, with the system code
      list replaced by [0x12FC], and its image. */
  datatype Type3Tag = Type3Tag(card: FCard, data: Image)

  /** Sum of the bytes, as the checksum loop adds them. */
  function Sum(s: seq<uint8>): nat
  {
    if s == [] then 0 else Sum(s[..|s| - 1]) + s[|s| - 1]
  }

  /** The three length bytes: bytes 2, 1 and 0 of the length taken as a
      32-bit unsigned integer. */
  function LengthBytes(len: nat): (b: seq<uint8>)
    ensures |b| == 3
  {
    UIntergerToBytes(UInt32(len % 0x1_0000_0000)).value[1..4]
  }

  /** Bytes 0 to 13 of the Attribute Information Block for a message of `len`
      bytes: version 1.0, Nbr 4, Nbw 1, 13 available blocks (bytes 3-4),
      four reserved zeros (bytes 5-8), WriteF 0 (byte 9), the RW flag 0, read
      only (byte 10), and the low three bytes of the length (bytes 11-13). */
  function AttributeHead(len: nat): (head: seq<uint8>)
    ensures |head| == 14
  {
    [0x10, 0x04, 0x01, 0x00, 0x0D, 0x00, 0x00, 0x00, 0x00, 0x00, 0x00] + LengthBytes(len)
  }

  /** The whole block: the head, then its byte sum modulo 2^16, big-endian. */
  function AttributeInfo(len: nat): (info: seq<uint8>)
    ensures |info| == BLOCK_LENGTH
  {
    AttributeHead(len) + BigEndian(Sum(AttributeHead(len)) % 0x1_0000, 2)
  }

  /** How a reader decodes an Attribute Information Block: the version must
      be 1.0 and the checksum must match; the result is the message length. */
  function ParseAttributeInfo(info: seq<uint8>): Option<nat>
  {
    if |info| != 16 || info[0] != 0x10 then None
    else if BigEndianValue(info[14..16]) != Sum(info[..14]) % 0x1_0000 then None
    else Some(BigEndianValue(info[11..14]))
  }

  /** Bytes 2, 1 and 0 of `x`, read big-endian, are `x` modulo 2^24. */
  lemma LowThreeBytes(x: nat)
    ensures BigEndianValue([ByteOf(x, 2), ByteOf(x, 1), ByteOf(x, 0)]) == x % 0x100_0000
  {
    var q1 := x / 0x100;
    var q2 := q1 / 0x100;
    assert Shr8(x, 1) == q1;
    assert Shr8(x, 2) == Shr8(q1, 1) == q2;
    BigEndianThree(ByteOf(x, 2), ByteOf(x, 1), ByteOf(x, 0));
    DigitsBase256(x);
  }

  /** The big-endian value of three bytes. */
  lemma BigEndianThree(b0: uint8, b1: uint8, b2: uint8)
    ensures BigEndianValue([b0, b1, b2]) == (b0 as int * 0x100 + b1 as int) * 0x100 + b2 as int
  {
    var s := [b0, b1, b2];
    assert BigEndianValue(s[..1]) == b0 by {
      assert s[..1][..0] == [];
    }
    assert BigEndianValue(s[..2]) == b0 as int * 0x100 + b1 as int by {
      assert s[..2][..1] == s[..1];
    }
    assert s[..3][..2] == s[..2];
  }

  /** The low three base-256 digits of `x` make up `x` modulo 2^24. */
  lemma DigitsBase256(x: nat)
    ensures ((x / 0x100 / 0x100 % 0x100) * 0x100 + x / 0x100 % 0x100) * 0x100 + x % 0x100 == x % 0x100_0000
  {
    var q1 := x / 0x100;
    var q2 := q1 / 0x100;
    var q3 := q2 / 0x100;
    var d0, d1, d2 := x % 0x100, q1 % 0x100, q2 % 0x100;
    assert x == q1 * 0x100 + d0;
    assert q1 == q2 * 0x100 + d1;
    assert q2 == q3 * 0x100 + d2;
    var low := (d2 * 0x100 + d1) * 0x100 + d0;
    assert 0 <= low < 0x100_0000;
    assert x == q3 * 0x100_0000 + low;
    ModOfSplit(x, q3, low);
  }

  /** The remainder of `q * 2^24 + r` by 2^24, for `r` below 2^24, is `r`. */
  lemma ModOfSplit(x: int, q: int, r: int)
    requires 0 <= r < 0x100_0000 && x == q * 0x100_0000 + r
    ensures x % 0x100_0000 == r
  {
  }

  /** Taking the length modulo 2^32 first does not change it modulo 2^24. */
  lemma ModNested(len: nat)
    ensures (len % 0x1_0000_0000) % 0x100_0000 == len % 0x100_0000
  {
    var q := len / 0x1_0000_0000;
    assert len == q * 0x1_0000_0000 + len % 0x1_0000_0000;
    assert q * 0x1_0000_0000 == (q * 0x100) * 0x100_0000;
  }

  /** The length field holds the length modulo 2^24. */
  lemma LengthField(len: nat)
    ensures BigEndianValue(LengthBytes(len)) == len % 0x100_0000
  {
    var l := len % 0x1_0000_0000;
    assert LengthBytes(len) == [ByteOf(l, 2), ByteOf(l, 1), ByteOf(l, 0)];
    LowThreeBytes(l);
    ModNested(len);
  }

  lemma Pow256Two()
    ensures Pow256(2) == 0x1_0000
  {
    assert Pow256(1) == 0x100;
  }

  /** A reader accepts the block and finds the message length (modulo 2^24). */
  lemma AttributeInfoRoundTrip(len: nat)
    ensures ParseAttributeInfo(AttributeInfo(len)) == Some(len % 0x100_0000)
  {
    var head := AttributeHead(len);
    var info := AttributeInfo(len);
    assert info[..14] == head;
    assert info[11..14] == LengthBytes(len);
    LengthField(len);
    Pow256Two();
    BigEndianValueOf(Sum(head) % 0x1_0000, 2);
    assert info[14..16] == BigEndian(Sum(head) % 0x1_0000, 2);
  }

  /** The image GetBlockData builds for a message that fits. */
  function ImageFor(msg: seq<uint8>): Image
    requires |msg| <= MESSAGE_ROOM
  {
    AttributeInfo(|msg|) + msg + Zeros(MESSAGE_ROOM - |msg|)
  }

  /** GetBlockData's result for what NdefMessage.ToBytes returned: the image,
      or an exception when the message threw, was null or does not fit. */
  function ImageOf(m: Outcome<Option<seq<uint8>>>): Outcome<Image>
  {
    match m
    case Threw => Threw
    case Normal(None) => Threw
    case Normal(Some(msg)) => if |msg| > MESSAGE_ROOM then Threw else Normal(ImageFor(msg))
  }

  /** Block 0 is the Attribute Information Block, the message starts at block
      1, and every byte after it is zero. */
  lemma ImageLayout(msg: seq<uint8>)
    requires |msg| <= MESSAGE_ROOM
    ensures ImageFor(msg)[..16] == AttributeInfo(|msg|)
    ensures ImageFor(msg)[16..16 + |msg|] == msg
    ensures forall k :: 16 + |msg| <= k < IMAGE_LENGTH ==> ImageFor(msg)[k] == 0
    ensures ParseAttributeInfo(ImageFor(msg)[..16]) == Some(|msg|)
  {
    var a := AttributeInfo(|msg|);
    var z := Zeros(MESSAGE_ROOM - |msg|);
    assert ImageFor(msg) == a + msg + z;
    Parts(a, msg, z);
    AttributeInfoRoundTrip(|msg|);
  }

  /** Where the three parts of a concatenation sit in it. */
  lemma Parts(a: seq<uint8>, m: seq<uint8>, z: seq<uint8>)
    ensures (a + m + z)[..|a|] == a
    ensures (a + m + z)[|a|..|a| + |m|] == m
    ensures forall k :: |a| + |m| <= k < |a| + |m| + |z| ==> (a + m + z)[k] == z[k - |a| - |m|]
  {
  }

  /** GetBlockData: serialise the message (which sets its MB and ME flags),
      build the Attribute Information Block, and copy block and message into a
      zeroed image; a null message or one longer than the image's room throws. */
  method GetBlockData(ndef: NdefMessage) returns (r: Outcome<Image>)
    modifies if 0 < |ndef.records| then {ndef.records[0].header, ndef.records[|ndef.records| - 1].header} else {}
    ensures |ndef.records| == 9 ==> unchanged(ndef.records[0].header, ndef.records[8].header)
    ensures 0 < |ndef.records| != 9 ==>
              var first, last := ndef.records[0].header, ndef.records[|ndef.records| - 1].header;
              first.Value() == old(first.Value()).(mb := true, me := old(first.me) || first == last) &&
              last.Value() == old(last.Value()).(me := true, mb := old(last.mb) || first == last)
    ensures r == ImageOf(ndef.Serialized())
  {
    var m := ndef.ToBytes();
    ghost var headers := ndef.Headers();
    label serialised:
    r := ImageFromMessage(m);
    // building the image allocates, but leaves the message and its headers alone
    assert unchanged@serialised(ndef, ndef.records, headers);
  }

  /** The rest of GetBlockData, once the message is serialised: a null
      message throws on its length, and the image is built around it. */
  method ImageFromMessage(m: Outcome<Option<seq<uint8>>>) returns (r: Outcome<Image>)
    ensures r == ImageOf(m)
  {
    if m.Threw? || m.value.None? {
      return Threw;
    }
    var msg := m.value.value;
    var info := BuildAttributeInfo(|msg|);
    r := FillImage(info, msg);
  }

  /** The image array: `info` at offset 0, then `msg` at offset 16, which
      throws when the message does not fit. */
  method FillImage(info: seq<uint8>, msg: seq<uint8>) returns (r: Outcome<Image>)
    requires info == AttributeInfo(|msg|)
    ensures |msg| > MESSAGE_ROOM ==> r == Threw
    ensures |msg| <= MESSAGE_ROOM ==> r == Normal(ImageFor(msg))
  {
    var data := new uint8[BLOCK_COUNT * BLOCK_LENGTH](_ => 0);
    CopyInto(info, data, 0);
    if 16 + |msg| > data.Length {
      return Threw;
    }
    ghost var withInfo := data[..];
    assert withInfo[..16] == info;
    assert forall k :: 16 <= k < IMAGE_LENGTH ==> withInfo[k] == 0;
    CopyInto(msg, data, 16);
    assert data[..16] == info;
    assert data[16..16 + |msg|] == msg;
    assert data[16 + |msg|..] == Zeros(MESSAGE_ROOM - |msg|);
    assert data[..] == data[..16] + data[16..16 + |msg|] + data[16 + |msg|..];
    r := Normal(data[..]);
  }

  /** The `info` array of GetBlockData, filled field by field and summed. */
  method BuildAttributeInfo(msgLength: nat) returns (r: seq<uint8>)
    ensures r == AttributeInfo(msgLength)
  {
    var info := new uint8[BLOCK_LENGTH](_ => 0);
    info[0] := 0x10;
    info[1] := 0x04;
    info[2] := 0x01;
    assert UIntergerToBytes(UInt16(AVAILABLE_BLOCK)).value == [0x00, 0x0D];
    SetUIntToBytes(UInt16(AVAILABLE_BLOCK), info, 3);
    info[10] := 0x00;
    var len := UIntergerToBytes(UInt32(msgLength % 0x1_0000_0000)).value;
    CopyInto(len[1..4], info, 11);
    assert info[..14] == AttributeHead(msgLength);
    var sum := SumPrefix(info, 14);
    ghost var head := info[..14];
    UIntergerToBytesIsBigEndian(UInt16(sum % 0x1_0000));
    SetUIntToBytes(UInt16(sum % 0x1_0000), info, 14);
    assert info[..14] == head;
    assert info[..] == info[..14] + info[14..16];
    r := info[..];
  }

  /** The checksum loop of BuildAttributeInfo: the sum of the first `n` bytes. */
  method SumPrefix(info: array<uint8>, n: nat) returns (sum: nat)
    requires n <= info.Length
    ensures sum == Sum(info[..n])
  {
    sum := 0;
    for i := 0 to n
      invariant sum == Sum(info[..i])
    {
      assert info[..i + 1][..i] == info[..i];
      sum := sum + info[i];
    }
  }

  /** `1 << i` on a C# int: the shift count is taken modulo 32, and 1 << 31 is negative. */
  function ShiftOne(i: nat): int
  {
    var k := i % 32;
    if k == 31 then -0x8000_0000 else Pow2(k)
  }

  function Pow2(k: nat): (p: nat)
    ensures p > 0
  {
    if k == 0 then 1 else 2 * Pow2(k - 1)
  }

  /** C#'s `%`: the remainder takes the sign of the dividend. */
  function TruncRem(a: int, b: int): int
    requires b > 0
  {
    if a >= 0 then a % b else -((-a) % b)
  }

  /** The `(byte)` cast: the low eight bits of the two's complement value. */
  function ToByte(x: int): uint8
  {
    x % 0x100
  }

  /** The first status flag of a Read Without Encryption error for block `i`,
      as written: `(byte)((0x01 << i) % 0xff)`. */
  function St1(i: nat): uint8
  {
    ToByte(TruncRem(ShiftOne(i), 0xFF))
  }

  lemma Pow2Small(k: nat)
    requires k < 8
    ensures Pow2(k) <= 0x80
  {
    assert Pow2(1) == 2 && Pow2(2) == 4 && Pow2(3) == 8 && Pow2(4) == 16;
    assert Pow2(5) == 32 && Pow2(6) == 64 && Pow2(7) == 128;
  }

  lemma Pow2Split(k: nat)
    ensures Pow2(k + 8) == 0x100 * Pow2(k)
  {
    var p := Pow2(k);
    assert Pow2(k + 1) == 2 * p;
    assert Pow2(k + 2) == 4 * p;
    assert Pow2(k + 3) == 8 * p;
    assert Pow2(k + 4) == 16 * p;
    assert Pow2(k + 5) == 32 * p;
    assert Pow2(k + 6) == 64 * p;
    assert Pow2(k + 7) == 128 * p;
  }

  lemma Mod255Shift(p: nat)
    ensures (0x100 * p) % 0xFF == p % 0xFF
  {
    assert 0x100 * p == 0xFF * p + p;
  }

  /** 2^k modulo 255 is 2^(k mod 8), since 256 leaves remainder 1. */
  lemma {:induction false} Pow2Mod255(k: nat)
    ensures Pow2(k) % 0xFF == Pow2(k % 8)
  {
    if k >= 8 {
      var p := Pow2(k - 8);
      Pow2Mod255(k - 8);
      Pow2Split(k - 8);
      Mod255Shift(p);
      ModEightStep(k);
    } else {
      Pow2Small(k);
    }
  }

  lemma ModEightStep(k: nat)
    requires k >= 8
    ensures (k - 8) % 8 == k % 8
  {
  }

  lemma Pow2ThirtyOne()
    ensures Pow2(31) == 0x8000_0000
  {
    Pow2Split(23);
    Pow2Split(15);
    Pow2Split(7);
    assert Pow2(7) == 128 by {
      assert Pow2(1) == 2 && Pow2(2) == 4 && Pow2(3) == 8 && Pow2(4) == 16;
      assert Pow2(5) == 32 && Pow2(6) == 64;
    }
  }

  /** The flag marks bit `i mod 8`: blocks 8 apart get the same flag, and the
      block at index 31 too, though its shifted value is negative. */
  lemma St1IsBit(i: nat)
    ensures St1(i) == Pow2(i % 8)
  {
    var k := i % 32;
    ModThirtyTwo(i);
    if k == 31 {
      St1Top(i);
    } else {
      var p := Pow2(k);
      assert ShiftOne(i) == p;
      Pow2Mod255(k);
      Pow2Small(k % 8);
      assert TruncRem(p, 0xFF) == Pow2(i % 8);
    }
  }

  lemma ModThirtyTwo(i: nat)
    ensures (i % 32) % 8 == i % 8
  {
  }

  /** Index 31 mod 32: C#'s `1 << 31` is -2^31, whose truncated remainder by
      255 is -128, and the byte cast turns that into 0x80. */
  lemma St1Top(i: nat)
    requires i % 32 == 31
    ensures St1(i) == Pow2(7)
  {
    assert ShiftOne(i) == -0x8000_0000;
    Pow2ThirtyOne();
    Pow2Mod255(31);
    assert 0x8000_0000 % 0xFF == 128;
    assert TruncRem(ShiftOne(i), 0xFF) == -128;
  }

  /** Index of the first element whose service code is not the NDEF service,
      or the number of elements when there is none. */
  function FirstForeign(block: seq<BlockElement>): (i: nat)
    ensures i <= |block|
    ensures i < |block| ==> block[i].serviceCode != TYPE3_SERVICE
    ensures forall j :: 0 <= j < i ==> block[j].serviceCode == TYPE3_SERVICE
  {
    if block == [] then 0
    else if block[0].serviceCode != TYPE3_SERVICE then 0
    else 1 + FirstForeign(block[1..])
  }

  /** The 16 bytes returned for block `number`: its slice of the image, or
      zeros past the image's end. */
  function BlockOf(data: Image, number: nat): (b: seq<uint8>)
    ensures |b| == BLOCK_LENGTH
  {
    if number * BLOCK_LENGTH < |data| then data[number * BLOCK_LENGTH..number * BLOCK_LENGTH + BLOCK_LENGTH]
    else Zeros(BLOCK_LENGTH)
  }

  /** The requested blocks, one after another. */
  function Blocks(data: Image, block: seq<BlockElement>): (b: seq<uint8>)
    ensures |b| == BLOCK_LENGTH * |block|
  {
    if block == [] then [] else Blocks(data, block[..|block| - 1]) + BlockOf(data, block[|block| - 1].number)
  }

  lemma {:induction false} BlocksAt(data: Image, block: seq<BlockElement>, i: nat)
    requires i < |block|
    ensures Blocks(data, block)[BLOCK_LENGTH * i..BLOCK_LENGTH * i + BLOCK_LENGTH] == BlockOf(data, block[i].number)
  {
    var init := block[..|block| - 1];
    var a := Blocks(data, init);
    var x := BlockOf(data, block[|block| - 1].number);
    assert Blocks(data, block) == a + x;
    if i < |init| {
      BlocksAt(data, init, i);
      assert BLOCK_LENGTH * i + BLOCK_LENGTH <= |a|;
      assert (a + x)[BLOCK_LENGTH * i..BLOCK_LENGTH * i + BLOCK_LENGTH] == a[BLOCK_LENGTH * i..BLOCK_LENGTH * i + BLOCK_LENGTH];
    } else {
      assert BLOCK_LENGTH * i == |a|;
      assert (a + x)[|a|..|a| + BLOCK_LENGTH] == x;
    }
  }

  /** Type3TagController.OnRead: the first element outside the NDEF service
      gets an error response `[St1(i), 0xA8]`; otherwise the two zero status
      flags, the block count and the requested blocks. */
  method OnRead(t: Type3Tag, block: seq<BlockElement>) returns (res: Response)
    ensures FirstForeign(block) < |block| ==>
              res == OnError(READ_WE_RES, St1(FirstForeign(block)), 0xA8)
    ensures FirstForeign(block) == |block| ==>
              res == Response(READ_WE_RES, [0, 0, |block| % 0x100] + Blocks(t.data, block))
  {
    for i := 0 to |block|
      invariant forall j :: 0 <= j < i ==> block[j].serviceCode == TYPE3_SERVICE
    {
      if block[i].serviceCode != TYPE3_SERVICE {
        assert FirstForeign(block) == i;
        var st1 := ToByte(TruncRem(ShiftOne(i), 0xFF));
        var st2 := 0xA8;
        return OnError(READ_WE_RES, st1, st2);
      }
    }
    var body := ReadBody(t.data, block);
    res := Response(READ_WE_RES, body);
  }

  /** The success path of OnRead: a zeroed array with the two status flags,
      the block count, and each requested block copied to its place when it
      lies inside the image. */
  method ReadBody(data: Image, block: seq<BlockElement>) returns (r: seq<uint8>)
    ensures r == [0, 0, |block| % 0x100] + Blocks(data, block)
  {
    var blockCount := |block|;
    var index := 0;
    var body := new uint8[2 + 1 + blockCount * BLOCK_LENGTH](_ => 0);
    body[index] := 0;
    index := index + 1;
    body[index] := 0;
    index := index + 1;
    body[index] := blockCount % 0x100;
    index := index + 1;
    ghost var head := [0, 0, blockCount % 0x100];
    assert body[..] == ReadSoFar(data, block, 0, head);
    for i := 0 to blockCount
      invariant body[..] == ReadSoFar(data, block, i, head)
    {
      ReadNext(data, block, i, head, index + BLOCK_LENGTH * i, body);
    }
    assert block[..blockCount] == block;
    assert ReadSoFar(data, block, blockCount, head) == head + Blocks(data, block);
    r := body[..];
  }

  /** One pass of ReadBody's loop: block `i` lands in its slot. */
  method ReadNext(data: Image, block: seq<BlockElement>, i: nat, ghost head: seq<uint8>, at: nat, body: array<uint8>)
    requires i < |block| && at == |head| + BLOCK_LENGTH * i && body[..] == ReadSoFar(data, block, i, head)
    modifies body
    ensures body[..] == ReadSoFar(data, block, i + 1, head)
  {
    ReadStep(data, block, i, head);
    CopyBlock(data, block[i].number, body, at);
  }

  /** One iteration of ReadBody's copy loop: the block's slice of the image
      when its offset lies inside the image; otherwise the zeros stay. */
  method CopyBlock(data: Image, number: nat, body: array<uint8>, at: nat)
    requires at + BLOCK_LENGTH <= body.Length
    requires body[at..at + BLOCK_LENGTH] == Zeros(BLOCK_LENGTH)
    modifies body
    ensures body[..] == Overlay(old(body[..]), at, BlockOf(data, number))
  {
    if number * BLOCK_LENGTH < |data| {
      CopyInto(data[number * BLOCK_LENGTH..number * BLOCK_LENGTH + BLOCK_LENGTH], body, at);
    } else {
      assert body[..] == Overlay(body[..], at, Zeros(BLOCK_LENGTH));
    }
  }

  /** ReadBody's buffer after `i` blocks: the header, the blocks read so far
      and zeros for the rest. */
  ghost function ReadSoFar(data: Image, block: seq<BlockElement>, i: nat, head: seq<uint8>): seq<uint8>
    requires i <= |block|
  {
    head + Blocks(data, block[..i]) + Zeros(BLOCK_LENGTH * (|block| - i))
  }

  /** One step of ReadBody's loop: the slot of block `i` is still zero, and
      filling it extends the blocks read so far by one. */
  lemma ReadStep(data: Image, block: seq<BlockElement>, i: nat, head: seq<uint8>)
    requires i < |block|
    ensures |head| + BLOCK_LENGTH * i + BLOCK_LENGTH <= |ReadSoFar(data, block, i, head)|
    ensures ReadSoFar(data, block, i, head)[|head| + BLOCK_LENGTH * i..|head| + BLOCK_LENGTH * i + BLOCK_LENGTH]
         == Zeros(BLOCK_LENGTH)
    ensures Overlay(ReadSoFar(data, block, i, head), |head| + BLOCK_LENGTH * i, BlockOf(data, block[i].number))
         == ReadSoFar(data, block, i + 1, head)
  {
    var prefix := head + Blocks(data, block[..i]);
    var x := BlockOf(data, block[i].number);
    var m := |block| - i;
    ReadSoFarBefore(data, block, i, head);
    ReadSoFarAfter(data, block, i, head);
    SlotOfZeros(prefix, m);
    PlaceBlock(prefix, x, m);
  }

  /** Before step `i`: the blocks read so far, then the slots still zero. */
  lemma ReadSoFarBefore(data: Image, block: seq<BlockElement>, i: nat, head: seq<uint8>)
    requires i < |block|
    ensures var prefix := head + Blocks(data, block[..i]);
            |prefix| == |head| + BLOCK_LENGTH * i &&
            ReadSoFar(data, block, i, head) == prefix + Zeros(BLOCK_LENGTH * (|block| - i))
  {
  }

  /** After step `i`: the blocks read before it, block `i`, then the slots
      still zero. */
  lemma ReadSoFarAfter(data: Image, block: seq<BlockElement>, i: nat, head: seq<uint8>)
    requires i < |block|
    ensures ReadSoFar(data, block, i + 1, head) ==
              head + Blocks(data, block[..i]) + BlockOf(data, block[i].number) + Zeros(BLOCK_LENGTH * (|block| - i - 1))
  {
    var before, x := Blocks(data, block[..i]), BlockOf(data, block[i].number);
    var rest := Zeros(BLOCK_LENGTH * (|block| - (i + 1)));
    BlocksSnoc(data, block, i);
    SnocAssoc(head, before, x, rest);
  }

  /** Regrouping `head + (before + x) + rest`. */
  lemma SnocAssoc(head: seq<uint8>, before: seq<uint8>, x: seq<uint8>, rest: seq<uint8>)
    ensures head + (before + x) + rest == head + before + x + rest
  {
  }

  lemma SlotOfZeros(prefix: seq<uint8>, m: nat)
    requires m >= 1
    ensures (prefix + Zeros(BLOCK_LENGTH * m))[|prefix|..|prefix| + BLOCK_LENGTH] == Zeros(BLOCK_LENGTH)
  {
    var z := Zeros(BLOCK_LENGTH * m);
    assert (prefix + z)[|prefix|..|prefix| + BLOCK_LENGTH] == z[..BLOCK_LENGTH];
  }

  lemma BlocksSnoc(data: Image, block: seq<BlockElement>, i: nat)
    requires i < |block|
    ensures Blocks(data, block[..i + 1]) == Blocks(data, block[..i]) + BlockOf(data, block[i].number)
  {
    assert block[..i + 1][..i] == block[..i];
  }

  lemma PlaceBlock(prefix: seq<uint8>, x: seq<uint8>, m: nat)
    requires |x| == BLOCK_LENGTH && m >= 1
    ensures Overlay(prefix + Zeros(BLOCK_LENGTH * m), |prefix|, x) == prefix + x + Zeros(BLOCK_LENGTH * (m - 1))
  {
    var o := Overlay(prefix + Zeros(BLOCK_LENGTH * m), |prefix|, x);
    assert o == o[..|prefix|] + o[|prefix|..|prefix| + BLOCK_LENGTH] + o[|prefix| + BLOCK_LENGTH..];
  }

  /** Reading blocks 0 to 12 of the NDEF service returns the whole image,
      message included. */
  lemma ReadWholeImage(t: Type3Tag, block: seq<BlockElement>)
    requires |block| == BLOCK_COUNT
    requires forall i :: 0 <= i < |block| ==> block[i] == BlockElement(TYPE3_SERVICE, i)
    ensures FirstForeign(block) == |block|
    ensures Blocks(t.data, block) == t.data
  {
    forall i | 0 <= i < BLOCK_COUNT
      ensures Blocks(t.data, block)[BLOCK_LENGTH * i..BLOCK_LENGTH * i + BLOCK_LENGTH]
           == t.data[BLOCK_LENGTH * i..BLOCK_LENGTH * i + BLOCK_LENGTH]
    {
      BlocksAt(t.data, block, i);
    }
    forall k | 0 <= k < IMAGE_LENGTH
      ensures Blocks(t.data, block)[k] == t.data[k]
    {
      var i := k / BLOCK_LENGTH;
      assert Blocks(t.data, block)[BLOCK_LENGTH * i..BLOCK_LENGTH * i + BLOCK_LENGTH][k - BLOCK_LENGTH * i]
          == Blocks(t.data, block)[k];
    }
  }

  /** The constructor: the base controller with the system code list
      replaced by [0x12FC], and the image of the message; GetBlockData's
      exceptions propagate. */
  method New(idm: seq<uint8>, ndef: NdefMessage) returns (r: Outcome<Type3Tag>)
    modifies if 0 < |ndef.records| then {ndef.records[0].header, ndef.records[|ndef.records| - 1].header} else {}
    ensures |ndef.records| == 9 ==> unchanged(ndef.records[0].header, ndef.records[8].header)
    ensures 0 < |ndef.records| != 9 ==>
              var first, last := ndef.records[0].header, ndef.records[|ndef.records| - 1].header;
              first.Value() == old(first.Value()).(mb := true, me := old(first.me) || first == last) &&
              last.Value() == old(last.Value()).(me := true, mb := old(last.mb) || first == last)
    ensures ImageOf(ndef.Serialized()).Threw? <==> r.Threw?
    ensures r.Normal? ==> r.value == Type3Tag(FCard(idm, [SYSTEM_CODE]), ImageOf(ndef.Serialized()).value)
  {
    var base := FCardController.New(idm);
    var data := GetBlockData(ndef);
    if data.Threw? {
      return Threw;
    }
    r := Normal(Type3Tag(base.(systemCode := [SYSTEM_CODE]), data.value));
  }

  /** The tag answers a poll exactly when the request contains every bit of 0x12FC. */
  lemma Type3Answers(t: Type3Tag, r: bv16)
    requires t.card.systemCode == [SYSTEM_CODE]
    ensures Answers(t.card, r) <==> SYSTEM_CODE & r == SYSTEM_CODE
  {
    PollMatchIsSubset(SYSTEM_CODE, r);
    assert t.card.systemCode[0] == SYSTEM_CODE;
    assert Answers(t.card, r) <==> PollMatch(SYSTEM_CODE, r);
  }

  /** The Type 3 Tag controller's handler: the generic one, with OnRead overridden. */
  method CommandReceived(t: Type3Tag, pmm: seq<uint8>, e: FelicaEvent) returns (res: Option<Response>)
    ensures e.PollEvent? ==> (res.Some? <==> Answers(t.card, e.systemCode)) &&
                             (res.Some? ==> res.value == Response(POLL_RES, pmm))
    ensures e.ReadEvent? && FirstForeign(e.block) < |e.block| ==>
              res == Some(OnError(READ_WE_RES, St1(FirstForeign(e.block)), 0xA8))
    ensures e.ReadEvent? && FirstForeign(e.block) == |e.block| ==>
              res == Some(Response(READ_WE_RES, [0, 0, |e.block| % 0x100] + Blocks(t.data, e.block)))
    ensures e.WriteEvent? ==> res == Some(FCardController.OnWrite())
    ensures e.ReqSysEvent? ==> res == Some(Response(REQ_SYS_RES, SystemCodesBody(t.card.systemCode)))
    ensures res.Some? ==> res.value.cmd == e.Cmd() + 1
  {
    match e
    case ReadEvent(block) =>
      var body := OnRead(t, block);
      res := Some(body);
    case _ =>
      res := FCardController.CommandReceived(t.card, pmm, e);
  }
}
