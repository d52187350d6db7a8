/** NDEF encoding (Ndef.cs): the header byte, the short record and the message
    that concatenates its records after flagging the first and the last. */
module Ndef {
  import opened Bytes

  /** Type Name Format, the three low bits of the header byte. */
  datatype Tnf = Empty | NfcWkt | Mime | Uri | NfcExt | Unknown | Unchanged | Reserved
  {
    function Code(): (c: nat)
      ensures c < 8
    {
      match this
      case Empty => 0
      case NfcWkt => 1
      case Mime => 2
      case Uri => 3
      case NfcExt => 4
      case Unknown => 5
      case Unchanged => 6
      case Reserved => 7
    }
  }

  /** The TNF whose numeric value is `c`. */
  function TnfOf(c: nat): (t: Tnf)
    requires c < 8
    ensures t.Code() == c
  {
    [Empty, NfcWkt, Mime, Uri, NfcExt, Unknown, Unchanged, Reserved][c]
  }

  /** The values of an NdefHeader's six properties. */
  datatype Header = Header(mb: bool, me: bool, cf: bool, sr: bool, il: bool, tnf: Tnf)

  function Bit(f: bool): nat
  {
    if f then 1 else 0
  }

  /** NdefHeader.ToByte: the five flags in bits 7 to 3 and the TNF in bits 2 to 0.
      The source ORs the parts together; they occupy disjoint bits, so the OR is
      the sum of their place values. */
  function HeaderByte(h: Header): uint8
  {
    0x80 * Bit(h.mb) + 0x40 * Bit(h.me) + 0x20 * Bit(h.cf) + 0x10 * Bit(h.sr) + 0x08 * Bit(h.il)
    + h.tnf.Code()
  }

  /** Reference decoding of a header byte, bit by bit. */
  function HeaderOf(b: uint8): Header
  {
    Header(b / 0x80 == 1, b / 0x40 % 2 == 1, b / 0x20 % 2 == 1, b / 0x10 % 2 == 1,
           b / 0x08 % 2 == 1, TnfOf(b % 8))
  }

  /** Every header is recovered from its byte: ToByte loses nothing. */
  lemma HeaderRoundTrip(h: Header)
    ensures HeaderOf(HeaderByte(h)) == h
  {
    HeaderLowBits(h);
    HeaderHighBits(h);
  }

  /** The TNF and the flags below bit 5, read off a header byte. */
  lemma HeaderLowBits(h: Header)
    ensures var b := HeaderByte(h);
            b % 8 == h.tnf.Code() &&
            b / 0x08 == 0x10 * Bit(h.mb) + 0x8 * Bit(h.me) + 0x4 * Bit(h.cf) + 0x2 * Bit(h.sr) + Bit(h.il) &&
            b / 0x10 == 0x8 * Bit(h.mb) + 0x4 * Bit(h.me) + 0x2 * Bit(h.cf) + Bit(h.sr)
  {
  }

  /** The flags from bit 5 up, read off a header byte. */
  lemma HeaderHighBits(h: Header)
    ensures var b := HeaderByte(h);
            b / 0x20 == 0x4 * Bit(h.mb) + 0x2 * Bit(h.me) + Bit(h.cf) &&
            b / 0x40 == 0x2 * Bit(h.mb) + Bit(h.me) &&
            b / 0x80 == Bit(h.mb)
  {
  }

  /** A byte is the sum of its bits' place values. */
  lemma BitsOf(b: uint8)
    ensures b == 0x80 * (b / 0x80) + 0x40 * (b / 0x40 % 2) + 0x20 * (b / 0x20 % 2)
                 + 0x10 * (b / 0x10 % 2) + 0x08 * (b / 0x08 % 2) + b % 8
    ensures b / 0x80 < 2
  {
    LowHalvings(b);
    HighHalvings(b);
  }

  /** Dividing a byte by 8 and by 16 each drop one more bit. */
  lemma LowHalvings(b: uint8)
    ensures b == 0x08 * (b / 0x08) + b % 8
    ensures b / 0x08 == 2 * (b / 0x10) + b / 0x08 % 2
    ensures b / 0x10 == 2 * (b / 0x20) + b / 0x10 % 2
  {
  }

  /** Dividing a byte by 32, 64 and 128 each drop one more bit. */
  lemma HighHalvings(b: uint8)
    ensures b / 0x20 == 2 * (b / 0x40) + b / 0x20 % 2
    ensures b / 0x40 == 2 * (b / 0x80) + b / 0x40 % 2
    ensures b / 0x80 < 2
  {
  }

  /** Every byte is the encoding of exactly one header: ToByte is onto. */
  lemma ByteRoundTrip(b: uint8)
    ensures HeaderByte(HeaderOf(b)) == b
  {
    BitsOf(b);
    var h := HeaderOf(b);
    assert Bit(h.mb) == b / 0x80;
    assert Bit(h.me) == b / 0x40 % 2;
    assert Bit(h.cf) == b / 0x20 % 2;
    assert Bit(h.sr) == b / 0x10 % 2;
    assert Bit(h.il) == b / 0x08 % 2;
    assert h.tnf.Code() == b % 8;
  }

  /** NdefHeader: six mutable properties; a new header has every flag clear and TNF Empty. */
  class NdefHeader {
    var mb: bool
    var me: bool
    var cf: bool
    var sr: bool
    var il: bool
    var tnf: Tnf

    constructor()
      ensures Value() == Header(false, false, false, false, false, Empty)
    {
      mb, me, cf, sr, il, tnf := false, false, false, false, false, Empty;
    }

    function Value(): Header
      reads this
    {
      Header(mb, me, cf, sr, il, tnf)
    }

    /** ToByte: the header byte of the current property values. */
    function ToByte(): (b: uint8)
      reads this
      ensures HeaderOf(b) == Value()
    {
      HeaderRoundTrip(Value());
      HeaderByte(Value())
    }
  }

  /** The properties of a ShortRecord; None is a null array. */
  datatype RecordFields = RecordFields(header: Header, id: Option<seq<uint8>>,
                                       payload: Option<seq<uint8>>, recordType: Option<seq<uint8>>)
  {
    /** The record can be written: a non-Empty TNF needs a type and the IL flag an id. */
    predicate Writable()
    {
      (header.tnf != Empty ==> recordType.Some?) && (header.il ==> id.Some?)
    }

    function TypeBytes(): seq<uint8>
      requires Writable()
    {
      if header.tnf != Empty then recordType.value else []
    }

    function IdBytes(): seq<uint8>
      requires Writable()
    {
      if header.il then id.value else []
    }

    function PayloadBytes(): seq<uint8>
    {
      if payload.Some? then payload.value else []
    }

    /** The lengths fit their one-byte fields. */
    predicate Short()
      requires Writable()
    {
      |TypeBytes()| < 0x100 && |IdBytes()| < 0x100 && |PayloadBytes()| < 0x100
    }
  }

  /** Reference layout of ShortRecord.ToBytes: header, type length, payload length,
      the id length when IL is set, then type, id and payload; each length byte
      is the length truncated to a byte. Threw is the NullReferenceException of
      a missing type or id. */
  function Serialize(f: RecordFields): Outcome<seq<uint8>>
  {
    if !f.Writable() then Threw
    else
      Normal([HeaderByte(f.header), |f.TypeBytes()| % 0x100, |f.PayloadBytes()| % 0x100]
             + (if f.header.il then [|f.IdBytes()| % 0x100] else [])
             + f.TypeBytes() + f.IdBytes() + f.PayloadBytes())
  }

  /** One record as a reader sees it. */
  datatype RecordView = RecordView(header: Header, recordType: seq<uint8>, id: seq<uint8>, payload: seq<uint8>)

  /** What a reader recovers from a writable record. */
  function View(f: RecordFields): RecordView
    requires f.Writable()
  {
    RecordView(f.header, f.TypeBytes(), f.IdBytes(), f.PayloadBytes())
  }

  /** Reference parser of one short record at the head of `b`: the record and the bytes after it. */
  function ParseRecord(b: seq<uint8>): (r: Option<(RecordView, seq<uint8>)>)
    ensures r.Some? ==> |r.value.1| < |b|
  {
    if |b| < 3 then None
    else
      var h := HeaderOf(b[0]);
      var start := if h.il then 4 else 3;
      if |b| < start then None
      else
        var typeLen: nat := b[1];
        var idLen: nat := if h.il then b[3] else 0;
        var payloadLen: nat := b[2];
        var end := start + typeLen + idLen + payloadLen;
        if |b| < end then None
        else
          Some((RecordView(h, b[start..start + typeLen], b[start + typeLen..start + typeLen + idLen],
                           b[start + typeLen + idLen..end]), b[end..]))
  }

  /** ParseRecord undoes Serialize for every record whose lengths fit a byte,
      whatever follows it. */
  lemma RecordRoundTrip(f: RecordFields, rest: seq<uint8>)
    requires f.Writable() && f.Short()
    ensures Serialize(f).Normal?
    ensures ParseRecord(Serialize(f).value + rest) == Some((View(f), rest))
  {
    var t, i, p := f.TypeBytes(), f.IdBytes(), f.PayloadBytes();
    var x := HeaderByte(f.header);
    var h := [x, |t| % 0x100, |p| % 0x100] + (if f.header.il then [|i| % 0x100] else []);
    assert Serialize(f).value == h + t + i + p;
    HeaderRoundTrip(f.header);
    ParseLaidOut(x, t, i, p, rest);
  }

  /** A header byte, the length bytes it calls for and the sections they
      measure parse back into those sections. */
  lemma ParseLaidOut(x: uint8, t: seq<uint8>, i: seq<uint8>, p: seq<uint8>, rest: seq<uint8>)
    requires |t| < 0x100 && |i| < 0x100 && |p| < 0x100
    requires !HeaderOf(x).il ==> i == []
    ensures var h := [x, |t| % 0x100, |p| % 0x100] + (if HeaderOf(x).il then [|i| % 0x100] else []);
      ParseRecord(h + t + i + p + rest) == Some((RecordView(HeaderOf(x), t, i, p), rest))
  {
    var il := HeaderOf(x).il;
    var h := [x, |t| % 0x100, |p| % 0x100] + (if il then [|i| % 0x100] else []);
    var b := h + t + i + p + rest;
    Sections(h, t, i, p, rest);
    assert |h| == if il then 4 else 3;
    assert b[0] == x && b[1] == |t| && b[2] == |p|;
    assert (if il then b[3] as int else 0) == |i|;
  }

  /** Where each of four consecutive sections and the remainder sit. */
  lemma Sections(h: seq<uint8>, t: seq<uint8>, i: seq<uint8>, p: seq<uint8>, rest: seq<uint8>)
    ensures var b, s := h + t + i + p + rest, |h|;
      b[..s] == h && b[s..s + |t|] == t && b[s + |t|..s + |t| + |i|] == i
      && b[s + |t| + |i|..s + |t| + |i| + |p|] == p && b[s + |t| + |i| + |p|..] == rest
  {
  }

  /** `Array.Copy(src, 0, buffer, index, src.Length)` when `buffer[..index]` holds `written`. */
  method CopyAfter(ghost written: seq<uint8>, src: seq<uint8>, buffer: array<uint8>, index: nat)
    requires index + |src| <= buffer.Length && buffer[..index] == written
    modifies buffer
    ensures buffer[..index + |src|] == written + src
  {
    CopyInto(src, buffer, index);
    assert buffer[..index + |src|] == buffer[..index] + buffer[index..index + |src|];
  }

  /** The header byte and the length bytes at the start of `buffer`; the id
      length only when IL is set. */
  method WriteLengths(buffer: array<uint8>, head: uint8, typeLen: uint8, payloadLen: uint8,
                      il: bool, idLen: uint8) returns (index: nat)
    requires 4 <= buffer.Length || (!il && 3 <= buffer.Length)
    modifies buffer
    ensures index <= buffer.Length
    ensures buffer[..index] == [head, typeLen, payloadLen] + (if il then [idLen] else [])
  {
    index := 0;
    buffer[index] := head;
    index := index + 1;
    buffer[index] := typeLen;
    index := index + 1;
    buffer[index] := payloadLen;
    index := index + 1;
    if il {
      buffer[index] := idLen;
      index := index + 1;
    }
  }

  /** ShortRecord: a header object of its own (only SR set) and three nullable arrays. */
  class ShortRecord {
    var header: NdefHeader
    var id: Option<seq<uint8>>
    var payload: Option<seq<uint8>>
    var recordType: Option<seq<uint8>>

    constructor()
      ensures fresh(header)
      ensures Fields() == RecordFields(Header(false, false, false, true, false, Empty), None, None, None)
    {
      var h := new NdefHeader();
      h.sr := true;
      header := h;
      id, payload, recordType := None, None, None;
    }

    function Fields(): RecordFields
      reads this, header
    {
      RecordFields(header.Value(), id, payload, recordType)
    }

    /** ToBytes: the bytes laid out by Serialize, or Threw for a missing type or id. */
    method ToBytes() returns (r: Outcome<seq<uint8>>)
      ensures r == Serialize(Fields())
    {
      if (header.tnf != Empty && recordType.None?) || (header.il && id.None?) {
        return Threw;
      }
      var f := Fields();
      var t, i, p := f.TypeBytes(), f.IdBytes(), f.PayloadBytes();
      var buffer := new uint8[3 + (if header.il then 1 else 0) + |t| + |i| + |p|];
      var index := WriteLengths(buffer, header.ToByte(), |t| % 0x100, |p| % 0x100, header.il, |i| % 0x100);
      ghost var written := buffer[..index];
      if header.tnf != Empty {
        CopyAfter(written, t, buffer, index);
        index := index + |t|;
      }
      written := written + t;
      assert buffer[..index] == written;
      if header.il {
        CopyAfter(written, i, buffer, index);
        index := index + |i|;
      }
      written := written + i;
      assert buffer[..index] == written;
      if payload.Some? {
        CopyAfter(written, p, buffer, index);
        index := index + |p|;
      }
      written := written + p;
      assert buffer[..] == written;
      r := Normal(buffer[..]);
    }
  }

  /** The property values of each record, read in the current heap. */
  function FieldsOf(rs: seq<ShortRecord>): (r: seq<RecordFields>)
    reads rs, set k | 0 <= k < |rs| :: rs[k].header
    ensures |r| == |rs|
    ensures forall k :: 0 <= k < |rs| ==> r[k] == rs[k].Fields()
  {
    if rs == [] then [] else [rs[0].Fields()] + FieldsOf(rs[1..])
  }

  /** The records written one after another; Threw as soon as one throws. */
  function SerializeAll(fs: seq<RecordFields>): Outcome<seq<uint8>>
  {
    if fs == [] then Normal([])
    else
      match Serialize(fs[0])
      case Threw => Threw
      case Normal(head) =>
        match SerializeAll(fs[1..])
        case Threw => Threw
        case Normal(tail) => Normal(head + tail)
  }

  /** Writing the records of `a + b` is writing those of `a`, then those of `b`. */
  lemma {:induction false} SerializeAllAppend(a: seq<RecordFields>, b: seq<RecordFields>)
    ensures SerializeAll(a + b) ==
            (if SerializeAll(a).Normal? && SerializeAll(b).Normal?
             then Normal(SerializeAll(a).value + SerializeAll(b).value) else Threw)
  {
    if a == [] {
      assert a + b == b;
      assert SerializeAll(b).Normal? ==> [] + SerializeAll(b).value == SerializeAll(b).value;
    } else {
      assert (a + b)[0] == a[0];
      assert (a + b)[1..] == a[1..] + b;
      SerializeAllAppend(a[1..], b);
      if Serialize(a[0]).Normal? && SerializeAll(a[1..]).Normal? && SerializeAll(b).Normal? {
        var head, mid, tail := Serialize(a[0]).value, SerializeAll(a[1..]).value, SerializeAll(b).value;
        assert SerializeAll(a + b) == Normal(head + (mid + tail));
        assert head + (mid + tail) == (head + mid) + tail;
      }
    }
  }

  /** One more record written: the output grows by its bytes, and a record
      that throws makes the whole message throw. */
  lemma SerializeAllStep(fs: seq<RecordFields>, i: nat)
    requires i < |fs| && SerializeAll(fs[..i]).Normal?
    ensures Serialize(fs[i]).Normal? ==>
              SerializeAll(fs[..i + 1]) == Normal(SerializeAll(fs[..i]).value + Serialize(fs[i]).value)
    ensures Serialize(fs[i]).Threw? ==> SerializeAll(fs).Threw?
  {
    var done := fs[..i + 1];
    PrefixSnoc(fs, i);
    SerializeAllAppend(fs[..i], [fs[i]]);
    SerializeAllSingle(fs[i]);
    if Serialize(fs[i]).Threw? {
      PrefixSuffix(fs, i + 1);
      SerializeAllAppend(done, fs[i + 1..]);
    }
  }

  lemma PrefixSnoc(fs: seq<RecordFields>, i: nat)
    requires i < |fs|
    ensures fs[..i + 1] == fs[..i] + [fs[i]]
  {
  }

  lemma PrefixSuffix(fs: seq<RecordFields>, i: nat)
    requires i <= |fs|
    ensures fs == fs[..i] + fs[i..]
  {
  }

  /** Writing a single record is writing that record. */
  lemma SerializeAllSingle(f: RecordFields)
    ensures SerializeAll([f]) == Serialize(f)
  {
    assert [f][1..] == [];
    if Serialize(f).Normal? {
      assert Serialize(f).value + [] == Serialize(f).value;
    }
  }

  /** Reference parser of a whole message: records until the bytes run out. */
  function ParseMessage(b: seq<uint8>): Option<seq<RecordView>>
    decreases |b|
  {
    if b == [] then Some([])
    else
      match ParseRecord(b)
      case None => None
      case Some((v, rest)) =>
        match ParseMessage(rest)
        case None => None
        case Some(vs) => Some([v] + vs)
  }

  /** What a reader recovers from each record in turn. */
  function Views(fs: seq<RecordFields>): (r: seq<RecordView>)
    requires forall k :: 0 <= k < |fs| ==> fs[k].Writable()
    ensures |r| == |fs|
  {
    if fs == [] then [] else [View(fs[0])] + Views(fs[1..])
  }

  /** ParseMessage undoes SerializeAll when every record is writable and short. */
  lemma {:induction false} MessageRoundTrip(fs: seq<RecordFields>)
    requires forall k :: 0 <= k < |fs| ==> fs[k].Writable() && fs[k].Short()
    ensures SerializeAll(fs).Normal?
    ensures ParseMessage(SerializeAll(fs).value) == Some(Views(fs))
  {
    if fs != [] {
      MessageRoundTrip(fs[1..]);
      RecordRoundTrip(fs[0], SerializeAll(fs[1..]).value);
      var head, tail := Serialize(fs[0]).value, SerializeAll(fs[1..]).value;
      assert SerializeAll(fs).value == head + tail;
      assert head + tail != [];
    }
  }

  /** NdefMessage: the list of records. */
  class NdefMessage {
    var records: seq<ShortRecord>

    constructor()
      ensures records == []
    {
      records := [];
    }

    /** `Record.Add`. */
    method Add(r: ShortRecord)
      modifies this
      ensures records == old(records) + [r]
    {
      records := records + [r];
    }

    /** The header objects of the records. */
    function Headers(): set<NdefHeader>
      reads this, records
    {
      set k | 0 <= k < |records| :: records[k].header
    }

    /** What ToBytes returns in the current state: null for exactly nine
        records, an exception for none, else the records' bytes in order. */
    function Serialized(): Outcome<Option<seq<uint8>>>
      reads this, records, Headers()
    {
      if |records| == 9 then Normal(None)
      else if |records| == 0 then Threw
      else
        match SerializeAll(FieldsOf(records))
        case Threw => Threw
        case Normal(b) => Normal(Some(b))
    }

    /** ToBytes: null for exactly nine records (nothing changes); an exception
        at `Record[0]` for none; otherwise MB and ME are set and the records'
        bytes are concatenated. */
    method ToBytes() returns (r: Outcome<Option<seq<uint8>>>)
      modifies if 0 < |records| then {records[0].header, records[|records| - 1].header} else {}
      ensures |records| == 9 ==> unchanged(records[0].header, records[8].header)
      ensures 0 < |records| != 9 ==>
                var first, last := records[0].header, records[|records| - 1].header;
                first.Value() == old(first.Value()).(mb := true, me := old(first.me) || first == last) &&
                last.Value() == old(last.Value()).(me := true, mb := old(last.mb) || first == last)
      ensures r == Serialized()
    {
      if |records| == 9 {
        assert Serialized() == Normal(None);
        return Normal(None);
      }
      if |records| == 0 {
        assert Serialized() == Threw;
        return Threw;
      }
      MarkEnds();
      var data := Concatenate(records);
      r := if data.Normal? then Normal(Some(data.value)) else Threw;
    }

    /** `Record[0].Header.Mb = true; Record[Record.Count - 1].Header.Me = true;` */
    method MarkEnds()
      requires 0 < |records|
      modifies records[0].header, records[|records| - 1].header
      ensures var first, last := records[0].header, records[|records| - 1].header;
              first.Value() == old(first.Value()).(mb := true, me := old(first.me) || first == last) &&
              last.Value() == old(last.Value()).(me := true, mb := old(last.mb) || first == last)
    {
      var first, last := records[0].header, records[|records| - 1].header;
      first.mb := true;
      last.me := true;
    }
  }

  /** The `foreach` of NdefMessage.ToBytes: each record's bytes written to the stream in turn. */
  method Concatenate(rs: seq<ShortRecord>) returns (r: Outcome<seq<uint8>>)
    ensures r == SerializeAll(FieldsOf(rs))
  {
    ghost var fs := FieldsOf(rs);
    var data: seq<uint8> := [];
    var i := 0;
    while i < |rs|
      invariant 0 <= i <= |rs|
      invariant SerializeAll(fs[..i]) == Normal(data)
    {
      var d := rs[i].ToBytes();
      assert d == Serialize(fs[i]);
      SerializeAllStep(fs, i);
      if d.Threw? {
        return Threw;
      }
      data := data + d.value;
      i := i + 1;
    }
    assert fs[..i] == fs;
    r := Normal(data);
  }
}
