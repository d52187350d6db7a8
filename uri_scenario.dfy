/** The tag the emulation form sets up (CardForm.cs): the IDm typed as hex
    text, and a single NDEF short record of the well-known type "U" whose
    payload is the URI identifier code 00 (no abbreviation) followed by the
    URI's bytes, served by a Type 3 Tag controller. */
module UriScenario {
  import opened Bytes
  import opened Utility
  import opened Ndef
  import opened Felica
  import opened FCardController
  import opened Type3TagController

  /** The record type "U" in ASCII. */
  const URI_TYPE: uint8 := 0x55

  /** The message a one-record URI message serialises to: header D1 (MB, ME,
      SR, TNF well-known), type length 1, the payload length truncated to a
      byte, the type, the identifier code 00 and the URI. */
  function UriMessage(uri: seq<uint8>): (m: seq<uint8>)
    ensures |m| == 5 + |uri|
  {
    [0xD1, 0x01, (|uri| + 1) % 0x100, URI_TYPE, 0x00] + uri
  }

  /** The record's properties once NdefMessage.ToBytes has flagged it first and last. */
  function FlaggedUriRecord(uri: seq<uint8>): RecordFields
  {
    RecordFields(Header(true, true, false, true, false, NfcWkt), None, Some([0x00] + uri), Some([URI_TYPE]))
  }

  /** The flagged record serialises to UriMessage, and a reader parses it
      back as one record of type "U" with payload `00 ‖ uri` when the
      payload length fits its byte. */
  lemma UriRecordBytes(uri: seq<uint8>)
    ensures SerializeAll([FlaggedUriRecord(uri)]) == Normal(UriMessage(uri))
    ensures |uri| + 1 < 0x100 ==>
              ParseMessage(UriMessage(uri)) ==
              Some([RecordView(Header(true, true, false, true, false, NfcWkt), [URI_TYPE], [], [0x00] + uri)])
  {
    var f := FlaggedUriRecord(uri);
    var p := [0x00] + uri;
    assert HeaderByte(f.header) == 0xD1;
    assert f.Writable() && f.TypeBytes() == [URI_TYPE] && f.IdBytes() == [] && f.PayloadBytes() == p;
    assert Serialize(f).value == [0xD1, 0x01, |p| % 0x100] + [URI_TYPE] + p;
    assert [0xD1, 0x01, |p| % 0x100] + [URI_TYPE] + p == UriMessage(uri);
    assert [f][1..] == [];
    assert UriMessage(uri) + [] == UriMessage(uri);
    if |uri| + 1 < 0x100 {
      MessageRoundTrip([f]);
      assert Views([f]) == [View(f)];
    }
  }

  /** The form's button handler up to `control.Init()`: parse the IDm,
      build the URI record and its message, and construct the Type 3 Tag
      controller. HexToByte's format error and the controller's exceptions
      are Threw. The tag is built exactly when the IDm text parses and the
      message (five bytes plus the URI) fits the 192 bytes after the
      Attribute Information Block; its image holds that block and then the
      message bytes. */
  method UriTag(idmText: string, uri: seq<uint8>) returns (r: Outcome<Type3Tag>)
    ensures r.Normal? <==> HexDecode(idmText).Normal? && |uri| + 5 <= MESSAGE_ROOM
    ensures r.Normal? ==> r.value.card == FCard(HexDecode(idmText).value, [SYSTEM_CODE])
    ensures r.Normal? ==> r.value.data == ImageFor(UriMessage(uri))
  {
    var idm := HexToByte(idmText);
    if idm.Threw? {
      return Threw;
    }
    var ndef := NewUriMessage(uri);
    r := Type3TagController.New(idm.value, ndef);
    FlaggedUriSerialized(ndef, uri);
  }

  /** The record and message of the form, before serialisation: SR set, TNF
      well-known, type "U", payload `00 ‖ uri`. */
  method NewUriMessage(uri: seq<uint8>) returns (ndef: NdefMessage)
    ensures fresh(ndef) && |ndef.records| == 1 && fresh(ndef.records[0]) && fresh(ndef.records[0].header)
    ensures ndef.records[0].Fields() ==
              RecordFields(Header(false, false, false, true, false, NfcWkt), None, Some([0x00] + uri), Some([URI_TYPE]))
  {
    var record := new ShortRecord();
    record.header.tnf := NfcWkt;
    record.recordType := Some([URI_TYPE]);
    var payload := new uint8[1 + |uri|];
    payload[0] := 0x00;
    CopyInto(uri, payload, 1);
    assert payload[..] == [0x00] + uri;
    record.payload := Some(payload[..]);
    ndef := new NdefMessage();
    ndef.Add(record);
  }

  /** A message holding just the flagged URI record serialises to UriMessage. */
  lemma FlaggedUriSerialized(ndef: NdefMessage, uri: seq<uint8>)
    requires |ndef.records| == 1 && ndef.records[0].Fields() == FlaggedUriRecord(uri)
    ensures ndef.Serialized() == Normal(Some(UriMessage(uri)))
  {
    assert FieldsOf(ndef.records) == [FlaggedUriRecord(uri)];
    UriRecordBytes(uri);
  }

  /** The tag built from the form: its Attribute Information Block declares
      the message length and carries a valid checksum, reading blocks 0 to 12
      returns the whole image, and block 1 starts with the record header
      bytes D1 01, the payload length, 55 and 00. */
  lemma UriTagImage(t: Type3Tag, uri: seq<uint8>, block: seq<BlockElement>)
    requires |uri| + 5 <= MESSAGE_ROOM && t.data == ImageFor(UriMessage(uri))
    requires |block| == BLOCK_COUNT
    requires forall i :: 0 <= i < |block| ==> block[i] == BlockElement(TYPE3_SERVICE, i)
    ensures t.data[0] == 0x10
    ensures ParseAttributeInfo(t.data[..16]) == Some(|uri| + 5)
    ensures FirstForeign(block) == |block| && Blocks(t.data, block) == t.data
    ensures BlockOf(t.data, 1)[..5] == [0xD1, 0x01, (|uri| + 1) % 0x100, URI_TYPE, 0x00]
    ensures |uri| >= 11 ==> BlockOf(t.data, 1) == UriMessage(uri)[..16]
  {
    var m := UriMessage(uri);
    ImageLayout(m);
    assert t.data[0] == t.data[..16][0] == AttributeInfo(|m|)[0];
    ReadWholeImage(t, block);
    BlockOne(t.data, m);
  }

  /** Block 1 of an image is the start of its message. */
  lemma BlockOne(data: Image, m: seq<uint8>)
    requires 5 <= |m| <= MESSAGE_ROOM && data[16..16 + |m|] == m
    ensures BlockOf(data, 1)[..5] == m[..5]
    ensures |m| >= 16 ==> BlockOf(data, 1) == m[..16]
  {
    var b1 := BlockOf(data, 1);
    assert b1 == data[16..32];
    assert b1[..5] == data[16..21];
    assert m[..5] == data[16..16 + |m|][..5] == data[16..21];
    if |m| >= 16 {
      assert m[..16] == data[16..16 + |m|][..16] == data[16..32];
    }
  }
}
