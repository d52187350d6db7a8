# FakeFelica in Dafny

FakeFelica turns an ACR122U contactless reader (NXP PN53x chip) into an
emulated FeliCa card: an NFC Forum Type 3 Tag holding one NDEF message with a
single URI record. This project models the byte-level core of that program
and proves properties of the model:

- **EndianConverter** (`endian_converter.dfy`): the big-endian codec for
  1-, 2-, 4- and 8-byte unsigned integers. The C# runtime-type dispatch is a
  `Boxed` datatype (`UInt64 | UInt32 | UInt16 | Byte | Int32`). Also models
  `SwapEndian` exactly as written.
- **Utility** (`utility.dfy`): `ByteToHex`, which writes `"XX "` per byte,
  and `HexToByte`. HexToByte removes spaces, then parses pairs with the
  leniency of `byte.Parse(…, HexNumber)`: white space around a single
  digit and a trailing NUL.
- **Ndef** (`ndef.dfy`): the NDEF header byte (MB, ME, CF, SR, IL, 3-bit
  TNF), `ShortRecord` serialisation and `NdefMessage.ToBytes`. Records and
  headers are classes because `ToBytes` sets MB/ME on them in place. A
  reference parser states the layout as a round trip.
- **Type3TagController** (`type3_tag_controller.dfy`): the tag image. It is
  the Attribute Information Block, then the NDEF message, then zeros, 13
  blocks of 16 bytes in all. Also the Read Without Encryption handler, with
  its in-band status error.
- **FCardController** (`fcard_controller.dfy`): the generic card. It covers
  the polling system-code match (nibble wildcards), the read, write, error
  and Request System Code bodies, and the command dispatch.
- **FakeFelica** (`fake_felica.dfy`), the emulator:
  - the FeliCa command decoder: service list, block list in 2- and 3-byte
    element form, write data;
  - response framing `[len, code, IDm, body]` (DoResponse);
  - target-mode setup, waiting for a command, and the card session loop.
  The `FakeFelica` class keeps the emulator's fields. Each handler is
  specified by a function over a snapshot of the reader's state.
- **Acr122u** (`acr122u.dfy`): the direct-transmit envelope
  `FF 00 00 00 Lc D4 op body`. DCommand validates the response: `90 00`
  trailer, echoed opcode + 1, and the status byte unless the opcode is
  exempt. The class models the `context`/`card` handle state machine and
  the two 256-byte buffers that are reused in place. Also the TgMode payload
  layout, FPolling and payload slicing.
- **UriScenario** (`uri_scenario.dfy`): the record the emulation form builds
  (`FakeFelica/CardForm.cs`). It is a well-known type "U" record with payload
  `00 ‖ uri`, and the tag built from it.
- **Bytes** and **Felica** (`bytes.dfy`, `felica.dfy`): byte types,
  `Option`/`Outcome`, the in-place overlay helpers, and the FeliCa command
  codes, block elements and events the other modules share.

Conventions:
- A C# exception is the `Threw` case of `Outcome`. These include the
  exceptions the original catches in its worker loop, such as out-of-range
  indexing, null dereferences and array-length overflow. A C# `null` is
  `None`.
- The PC/SC transport is a scripted sequence of `Reply` values
  (`Received(bytes)` or `Failed`). The reader's `Driver` hands out the next
  one inside each `SCardControl` call and nowhere else. A DCommand that
  stops earlier (a handle is 0, or the envelope does not fit `sendBuff`),
  a `HasCard` without a card and a TgMode whose payload throws take no
  reply.
- `Felica.BLOCK_LENGTH` and `Felica.IDM_LENGTH` are taken as 16 and 8.
- The `Felica` class of the original is not part of this model.

The model follows the C# code wherever it departs from the documented
behaviour of the system:
- the polling match is a bit-subset test, so configured code `12FC` answers
  a request for `F2FC`;
- `onReqSv` answers with response code `07` (Read Without Encryption
  response), not `03`;
- a message of exactly nine records serialises to `null`;
- `TgGetTargetStatus` sends opcode `88` (TgGetInitiatorCommand) rather
  than `8A`.

## Model

| member | source | states |
|---|---|---|
| Bytes.CopyInto | FakeFelica/nfc/felica/Type3TagController.cs:96-98 | copying a sequence into an array at an offset replaces exactly that slice and leaves every other element unchanged |
| EndianConverter.UIntergerToBytes | FakeFelica/com.esp.common/EndianConverter.cs:23-62 | a result exists exactly for UInt64, UInt32, UInt16 and Byte (null for any other type), and it has 8, 4, 2 or 1 bytes |
| EndianConverter.UIntergerToBytesIsBigEndian | FakeFelica/com.esp.common/EndianConverter.cs:25-60 | the bytes are the value most significant byte first, and their big-endian value is the integer |
| EndianConverter.BytesToUInteger | FakeFelica/com.esp.common/EndianConverter.cs:112-148 | lengths 8, 4, 2 and 1 give UInt64, UInt32, UInt16 and Byte respectively, and any other length gives the boxed int 0 |
| EndianConverter.BytesToUIntegerValue | FakeFelica/com.esp.common/EndianConverter.cs:114-146 | for a handled length the result has that width and equals the big-endian value of `buffer[offset..offset+length)` |
| EndianConverter.BigEndianValueOf | FakeFelica/com.esp.common/EndianConverter.cs:25-60 | decoding the n-byte big-endian form of any x below 256^n gives x back |
| EndianConverter.BigEndianOfValue | FakeFelica/com.esp.common/EndianConverter.cs:114-146 | every byte string is the big-endian form of its own value, which is below 256^length |
| EndianConverter.UIntergerRoundTrip | FakeFelica/com.esp.common/EndianConverter.cs:23-62 | decoding the encoding of any supported integer at its own width gives the same boxed integer |
| EndianConverter.SetUIntToBytes | FakeFelica/com.esp.common/EndianConverter.cs:71-103 | writes exactly UIntergerToBytes(x) at the offset and leaves every other byte of the buffer alone; an unsupported type changes nothing |
| EndianConverter.SetThenGet | FakeFelica/com.esp.common/EndianConverter.cs:71-148 | reading back what SetUIntToBytes wrote returns the integer, and bytes outside the written slice are unchanged |
| EndianConverter.SwapEndian | FakeFelica/com.esp.common/EndianConverter.cs:155-190 | UInt16 stays UInt16, while UInt32 and UInt64 come back as UInt32 (the declared result type of those branches) |
| EndianConverter.SwapEndianKeepsHighByte | FakeFelica/com.esp.common/EndianConverter.cs:157-189 | the `(byte)` cast leaves only the input's most significant byte (x>>8, x>>24, x>>56), and other types give 0 |
| EndianConverter.SwapEndianNotInvolutive | FakeFelica/com.esp.common/EndianConverter.cs:157-165 | swapping UInt16 0x1234 twice gives 0, not 0x1234 |
| EndianConverter.SwapEndianIntended | FakeFelica/com.esp.common/EndianConverter.cs:155-190 | the byte reversal the code evidently intends keeps the width of a 2-, 4- or 8-byte value |
| EndianConverter.SwapEndianIntendedInvolutive | FakeFelica/com.esp.common/EndianConverter.cs:155-190 | the intended swap undone twice gives the input back |
| EndianConverter.ReverseReverse | FakeFelica/com.esp.common/EndianConverter.cs:155-190 | reversing a byte string twice is the identity |
| EndianConverter.ReversedInvolutive | FakeFelica/com.esp.common/EndianConverter.cs:155-190 | reversing the n bytes of a value below 256^n twice gives the value back |
| Utility.HexTextShape | FakeFelica/com.esp.common/Utility.cs:25-31 | the text has 3 characters per byte: the high and low uppercase hex digits, then a space |
| Utility.ByteToHex | FakeFelica/com.esp.common/Utility.cs:23-32 | the result is the hex text of exactly `buffer[offset..offset+length)`, of length 3·length, and empty for a non-positive length |
| Utility.ParseHexPair | FakeFelica/com.esp.common/Utility.cs:46 | two hex digits in either case give 16·high + low, a digit before a NUL gives that digit, a leading NUL throws, and no pair without a hex digit parses |
| Utility.RemoveSpacesKeepsOthers | FakeFelica/com.esp.common/Utility.cs:41 | removing spaces leaves no space and keeps every other character (tabs included) with its multiplicity |
| Utility.HexToByte | FakeFelica/com.esp.common/Utility.cs:39-49 | the result has ⌊(non-space characters)/2⌋ bytes (an odd trailing digit is dropped), byte i is the value of pair i, and it throws exactly when some pair does not parse |
| Utility.HexRoundTrip | FakeFelica/com.esp.common/Utility.cs:23-49 | parsing ByteToHex's text gives the bytes back |
| Utility.HexDecodeMixedCase | FakeFelica/com.esp.common/Utility.cs:41-46 | "0a 0B" parses to 0A 0B |
| Utility.HexDecodeOddLength | FakeFelica/com.esp.common/Utility.cs:43-44 | "ABC" parses to the single byte AB |
| Utility.HexDecodeTrailingNul | FakeFelica/com.esp.common/Utility.cs:46 | "A\0" parses to 0A, while "\0A" throws |
| Utility.HexDecodeWhiteAndInvalid | FakeFelica/com.esp.common/Utility.cs:41-46 | a tab next to one digit is accepted by the number parser ("\tA" is 0A), and "0G" fails |
| Ndef.TnfOf | FakeFelica/nfc/ndef/Ndef.cs:9-19 | every 3-bit code names the TNF whose code it is |
| Ndef.HeaderRoundTrip | FakeFelica/nfc/ndef/Ndef.cs:62-72 | decoding the header byte recovers MB, ME, CF, SR, IL and the TNF |
| Ndef.ByteRoundTrip | FakeFelica/nfc/ndef/Ndef.cs:62-72 | every byte is the header byte of its own decoding, so the header encoding is a bijection |
| Ndef.NdefHeader.ToByte | FakeFelica/nfc/ndef/Ndef.cs:62-72 | the byte decodes to the header's current flags and TNF |
| Ndef.ShortRecord.constructor | FakeFelica/nfc/ndef/Ndef.cs:90-93 | a new record has SR set, every other flag clear, TNF Empty, and no type, id or payload |
| Ndef.ShortRecord.ToBytes | FakeFelica/nfc/ndef/Ndef.cs:95-135 | the bytes are the reference layout of the record: header, type length (0 for TNF Empty), payload length mod 256, the id length if IL is set, then type, id and payload; a missing type or id throws |
| Ndef.RecordRoundTrip | FakeFelica/nfc/ndef/Ndef.cs:97-134 | for a record whose lengths fit a byte, a reader parses the serialised bytes back to its header, type, id and payload, whatever follows |
| Ndef.SerializeAllAppend | FakeFelica/nfc/ndef/Ndef.cs:41-48 | the bytes of two record lists are the concatenation of each list's bytes, and either throwing makes the whole throw |
| Ndef.MessageRoundTrip | FakeFelica/nfc/ndef/Ndef.cs:39-48 | a reader splits a serialised list of short records back into the records in order |
| Ndef.NdefMessage.constructor | FakeFelica/nfc/ndef/Ndef.cs:26-29 | a new message has no records |
| Ndef.NdefMessage.Add | FakeFelica/CardForm.cs:37 | the record is appended to the list |
| Ndef.NdefMessage.ToBytes | FakeFelica/nfc/ndef/Ndef.cs:31-50 | nine records give null and touch nothing; otherwise MB is set on the first record and ME on the last, no other flag changes, and the result is the records' bytes in order (an empty message throws at `Record[0]`) |
| Ndef.NdefMessage.MarkEnds | FakeFelica/nfc/ndef/Ndef.cs:36-37 | sets MB on the first header and ME on the last and changes no other flag |
| Ndef.Concatenate | FakeFelica/nfc/ndef/Ndef.cs:39-49 | the stream holds every record's bytes in list order, and throws if any record does |
| Type3TagController.AttributeInfoRoundTrip | FakeFelica/nfc/felica/Type3TagController.cs:68-91 | the block has the fixed fields, bytes 11–13 give the message length mod 2^24, and the checksum holds |
| Type3TagController.LengthField | FakeFelica/nfc/felica/Type3TagController.cs:82-83 | bytes 11–13 are the low three bytes of the message length, big-endian |
| Type3TagController.ImageLayout | FakeFelica/nfc/felica/Type3TagController.cs:93-99 | the 208-byte image is the Attribute Information Block, then the message from byte 16, then zeros, and its header parses back to the message length |
| Type3TagController.BuildAttributeInfo | FakeFelica/nfc/felica/Type3TagController.cs:68-91 | the method's block is the reference block: 10 04 01, 00 0D, six zeros, the 3-byte length, and then the sum of bytes 0–13 mod 2^16 big-endian |
| Type3TagController.SumPrefix | FakeFelica/nfc/felica/Type3TagController.cs:86-90 | the checksum loop adds up exactly the first n bytes |
| Type3TagController.FillImage | FakeFelica/nfc/felica/Type3TagController.cs:93-99 | a message over 192 bytes overruns the image and throws; otherwise the image is ImageFor(message) |
| Type3TagController.GetBlockData | FakeFelica/nfc/felica/Type3TagController.cs:65-100 | the image is built from the message's serialisation (a null message throws), after the MB/ME side effects of ToBytes |
| Type3TagController.St1IsBit | FakeFelica/nfc/felica/Type3TagController.cs:36 | the status byte `(byte)((1 << i) % 0xFF)` is bit i mod 8, with the shift count taken mod 32 |
| Type3TagController.St1Top | FakeFelica/nfc/felica/Type3TagController.cs:36 | when i mod 32 is 31, the negative shift result still gives status 0x80 |
| Type3TagController.FirstForeign | FakeFelica/nfc/felica/Type3TagController.cs:31-41 | the index of the first element whose service is not 000B, with every earlier element in that service |
| Type3TagController.BlocksAt | FakeFelica/nfc/felica/Type3TagController.cs:50-61 | block i of the read body is the 16 image bytes of element i's number, or zeros when that number is out of range |
| Type3TagController.OnRead | FakeFelica/nfc/felica/Type3TagController.cs:28-63 | a foreign service at index i gives only an error response with status `St1(i)`, A8; otherwise the response is `00 00 n` followed by the requested blocks |
| Type3TagController.ReadBody | FakeFelica/nfc/felica/Type3TagController.cs:43-61 | the body has `00 00`, the count byte and then each requested block in order |
| Type3TagController.CopyBlock | FakeFelica/nfc/felica/Type3TagController.cs:53-60 | one block's slot receives the image block and nothing else changes |
| Type3TagController.ReadWholeImage | FakeFelica/nfc/felica/Type3TagController.cs:28-63 | reading blocks 0..12 of service 000B returns the whole image |
| Type3TagController.New | FakeFelica/nfc/felica/Type3TagController.cs:21-26 | the tag exists exactly when the image can be built; it answers only system code 12FC and holds that image |
| Type3TagController.Type3Answers | FakeFelica/nfc/felica/Type3TagController.cs:16-25 | a Type 3 Tag answers a poll exactly when the request includes all bits of 12FC |
| Type3TagController.CommandReceived | FakeFelica/nfc/felica/FCardController.cs:33-52 | with the Type 3 read override, the dispatch gives the poll, read, write and Request System Code responses, each with the command code plus one |
| FCardController.PollMatchIsSubset | FakeFelica/nfc/felica/FCardController.cs:58-70 | the nibble-wildcard match holds exactly when every bit of the configured code is set in the request |
| FCardController.PollMatchExamples | FakeFelica/nfc/felica/FCardController.cs:58-70 | the code itself and FFFF always match; 12FC matches F2FC but not 02FC or FE00 |
| FCardController.WildcardInRequest | FakeFelica/nfc/felica/FCardController.cs:61-68 | the all-ones nibbles collected from a request lie inside that request |
| FCardController.MatchTest | FakeFelica/nfc/felica/FCardController.cs:60-70 | the loop's `maskSys` test agrees with the match predicate |
| FCardController.WidenBy | FakeFelica/nfc/felica/FCardController.cs:60-68 | the loop ORs into the code every nibble mask that is all ones in the request |
| FCardController.New | FakeFelica/nfc/felica/FCardController.cs:19-24 | a generic card keeps its IDm and answers exactly the poll for FFFF |
| FCardController.OnPolling | FakeFelica/nfc/felica/FCardController.cs:54-77 | answers with PollRes and the PMm exactly when some configured code matches, and otherwise sends nothing |
| FCardController.MatchAnswers | FakeFelica/nfc/felica/FCardController.cs:58-74 | any matching configured code makes the card answer |
| FCardController.GenericRead | FakeFelica/nfc/felica/FCardController.cs:79-89 | ReadWERes with 3 + 16n zero bytes (the count byte stays 0) |
| FCardController.OnWrite | FakeFelica/nfc/felica/FCardController.cs:91-100 | WriteWERes with body 00 00 |
| FCardController.OnError | FakeFelica/nfc/felica/FCardController.cs:116-123 | the given command with body [st1, st2] |
| FCardController.SystemCodesBody | FakeFelica/nfc/felica/FCardController.cs:104-111 | the body is 1 + 2k bytes long |
| FCardController.OnReqSys | FakeFelica/nfc/felica/FCardController.cs:102-114 | ReqSysRes with the hard-coded count 1, then every configured code big-endian |
| FCardController.SystemCodesAt | FakeFelica/nfc/felica/FCardController.cs:107-111 | code i sits big-endian at offsets 1+2i and 2+2i |
| FCardController.ReqSysRoundTrip | FakeFelica/nfc/felica/FCardController.cs:102-114 | an initiator that trusts the count byte reads back exactly the first configured code |
| FCardController.CommandReceived | FakeFelica/nfc/felica/FCardController.cs:33-52 | the four events the emulator raises (Poll, ReadWE, WriteWE, ReqSys) go to their handlers, and each response's code is the command's plus one; the empty ReqSv case has no counterpart, because the emulator answers Request Service itself and raises no event for it |
| FakeFelica.ServiceList | FakeFelica/nfc/felica/FakeFelica.cs:215-223 | on success the count is `cmd[9]` and the whole little-endian list lies inside the command |
| FakeFelica.ServicesOf | FakeFelica/nfc/felica/FakeFelica.cs:215-223 | the decoded list is the little-endian pairs at 10 + 2i |
| FakeFelica.GetBlockElement | FakeFelica/nfc/felica/FakeFelica.cs:366-384 | decoding succeeds exactly when the 2-byte (bit 7 set) or 3-byte element lies inside the buffer; the service index is a nibble and the number fits 16 bits |
| FakeFelica.ElementRoundTrip | FakeFelica/nfc/felica/FakeFelica.cs:366-384 | either element form decodes to the service index and block number it encodes |
| FakeFelica.BlockList | FakeFelica/nfc/felica/FakeFelica.cs:227-235 | the list decodes, one element every 2 bytes, exactly when every element lies inside the command and names a listed service |
| FakeFelica.BlocksOf | FakeFelica/nfc/felica/FakeFelica.cs:227-235 | a list of 2-byte elements decodes exactly when every service index is listed, to the elements with their indices replaced by the service codes |
| FakeFelica.ReadRequest | FakeFelica/nfc/felica/FakeFelica.cs:213-235 | on success the element count is the byte after the service list |
| FakeFelica.ReadServiceList | FakeFelica/nfc/felica/FakeFelica.cs:215-223 | the loop computes the reference service list |
| FakeFelica.ReadBlockList | FakeFelica/nfc/felica/FakeFelica.cs:226-235 | the loop computes the reference block list, throwing where an element or service index is out of range |
| FakeFelica.ParseRead | FakeFelica/nfc/felica/FakeFelica.cs:213-235 | the read parser computes ReadRequest |
| FakeFelica.ParseWrite | FakeFelica/nfc/felica/FakeFelica.cs:244-270 | the write parser computes WriteRequest: the block list, then 16 bytes of data per element after the 2-byte cursor |
| FakeFelica.RequestRead | FakeFelica/nfc/felica/FakeFelica.cs:213-235 | a read command built from a service list and 2-byte elements parses exactly when every element's service is listed, to the resolved elements |
| FakeFelica.ReadRoundTrip | FakeFelica/nfc/felica/FakeFelica.cs:213-242 | the decoder raises a read event with exactly the resolved elements, and fails exactly when some service index is unlisted |
| FakeFelica.WriteRoundTrip | FakeFelica/nfc/felica/FakeFelica.cs:244-278 | the same for write commands, with the data carried through unchanged |
| FakeFelica.PollRoundTrip | FakeFelica/nfc/felica/FakeFelica.cs:193-201 | a poll raises its big-endian system code when a controller listens, and is ignored otherwise |
| FakeFelica.ServiceRequestAnswer | FakeFelica/nfc/felica/FakeFelica.cs:280-302 | Request Service is answered with code 07 (not the ReqSvRes code) and body `[n, FF FF × n]`, whether or not a controller listens |
| FakeFelica.ServiceReply | FakeFelica/nfc/felica/FakeFelica.cs:280-301 | the reply body is the count then FFFF per listed service, and a malformed list throws |
| FakeFelica.FilledStep | FakeFelica/nfc/felica/FakeFelica.cs:290-296 | each loop step writes FF FF at the next slot only |
| FakeFelica.ThreeByteElementMisread | FakeFelica/nfc/felica/FakeFelica.cs:226-235 | after a 3-byte element the 2-byte cursor lands inside it: `00 00 05, 80 01` reads element 2 from `05 80 01`, service index 5 is unlisted, and the read throws |
| FakeFelica.ElementsByForm | FakeFelica/nfc/felica/FakeFelica.cs:226-235 | the intended decoder, which moves by each element's own width, yields one element per count |
| FakeFelica.ElementsByFormRoundTrip | FakeFelica/nfc/felica/FakeFelica.cs:226-235 | the intended decoder reads back any mix of 2- and 3-byte elements, resolved against the service list |
| FakeFelica.ElementsByFormExample | FakeFelica/nfc/felica/FakeFelica.cs:226-235 | on the misread input it finds blocks 5 and 1 of service 000B |
| FakeFelica.Frame | FakeFelica/nfc/felica/FakeFelica.cs:313-327 | a frame exists exactly when 2 + |IDm| + |body| is below 256, and has that length |
| FakeFelica.FrameRoundTrip | FakeFelica/nfc/felica/FakeFelica.cs:313-327 | an 8-byte IDm frame parses back into the IDm, the code and the body |
| FakeFelica.BuildFrame | FakeFelica/nfc/felica/FakeFelica.cs:313-326 | the filled array is the reference frame `[L, cmd, IDm, body]` |
| FakeFelica.SendOnWire | FakeFelica/nfc/felica/FakeFelica.cs:313-327 | a frame that fits the reader's buffer goes out as exactly one TgResponseToInitiator envelope and consumes one reply; an oversized one throws, sends nothing and takes no reply |
| FakeFelica.ControllerReply | FakeFelica/nfc/felica/FCardController.cs:33-52 | any controller response carries the command code plus one |
| FakeFelica.Handle | FakeFelica/nfc/felica/FakeFelica.cs:236-240 | raising an event reaches the attached controller's reply |
| FakeFelica.Perform | FakeFelica/nfc/felica/FakeFelica.cs:193-311 | performing a decoded command keeps the reader's state well formed and only consumes scripted replies |
| FakeFelica.PollAnswered | FakeFelica/nfc/felica/FakeFelica.cs:193-201 | a generic card attached to the emulator sends PollRes with the PMm exactly for a poll of FFFF |
| FakeFelica.Type3ReadAnswered | FakeFelica/nfc/felica/FakeFelica.cs:213-242 | a read of service 000B blocks on a Type 3 Tag sends `00 00 n` and the blocks |
| FakeFelica.Type3ReadRefused | FakeFelica/nfc/felica/FakeFelica.cs:213-242 | a read that names another service first at element k sends only the error response with status St1(k), A8 |
| FakeFelica.TargetEffect | FakeFelica/nfc/felica/FakeFelica.cs:331-353 | entering target mode keeps the state well formed and only consumes replies |
| FakeFelica.WaitEffect | FakeFelica/nfc/felica/FakeFelica.cs:355-364 | waiting for a command keeps the reader's state well formed, only consumes replies, and delivers no command when it takes none |
| FakeFelica.HasCardEffect | FakeFelica/acr122u/Acr122U.cs:55-71 | the presence check only consumes replies and reports a card only after taking one |
| FakeFelica.Session | FakeFelica/nfc/felica/FakeFelica.cs:150-188 | the session keeps the reader's state well formed on every path |
| FakeFelica.SessionConsumes | FakeFelica/nfc/felica/FakeFelica.cs:150-188 | a session only consumes scripted replies, and it aborts only when they run out |
| FakeFelica.SessionWithoutCard | FakeFelica/nfc/felica/FakeFelica.cs:154-183 | with no card, an empty or missing command ends the session as CardGone at once, leaving the reader's state and the driver's replies unchanged |
| FakeFelica.FakeFelica.constructor | FakeFelica/nfc/felica/FakeFelica.cs:93-103 | the emulator starts with the default IDm, PMm and system code, and with no controller |
| FakeFelica.FakeFelica.Attach | FakeFelica/nfc/felica/FCardController.cs:26-31 | Init copies the card's IDm and first system code into the emulator and subscribes the controller; an empty code list throws |
| FakeFelica.FakeFelica.DoResponse | FakeFelica/nfc/felica/FakeFelica.cs:313-327 | the reader's new state and the replies left are those of Send for the frame |
| FakeFelica.FakeFelica.OnPolling | FakeFelica/nfc/felica/FakeFelica.cs:193-201 | the handler performs the decoded poll |
| FakeFelica.FakeFelica.OnReqRes | FakeFelica/nfc/felica/FakeFelica.cs:203-211 | the handler performs the decoded Request Response, which answers ReqResRes 00 |
| FakeFelica.FakeFelica.OnRead | FakeFelica/nfc/felica/FakeFelica.cs:213-242 | the handler performs the decoded read |
| FakeFelica.FakeFelica.OnWrite | FakeFelica/nfc/felica/FakeFelica.cs:244-278 | the handler performs the decoded write |
| FakeFelica.FakeFelica.OnReqSv | FakeFelica/nfc/felica/FakeFelica.cs:280-302 | the handler performs the decoded Request Service |
| FakeFelica.FakeFelica.OnReqSys | FakeFelica/nfc/felica/FakeFelica.cs:304-311 | the handler performs the decoded Request System Code |
| FakeFelica.FakeFelica.Dispatch | FakeFelica/nfc/felica/FakeFelica.cs:159-180 | the switch on `cmd[0]` performs the decoded command |
| FakeFelica.FakeFelica.SetTargetMode | FakeFelica/nfc/felica/FakeFelica.cs:331-353 | target mode returns what TargetEffect says: null when TgMode fails or mode & 3 ≠ 2, otherwise the command without its first byte |
| FakeFelica.FakeFelica.WaitCmd | FakeFelica/nfc/felica/FakeFelica.cs:355-364 | null for a missing or empty command, otherwise the command without its first byte |
| FakeFelica.FakeFelica.CardPresent | FakeFelica/nfc/felica/FakeFelica.cs:180-183 | the `rw.HasCard` test of the session loop has the result, new reader state and replies left of HasCardEffect |
| FakeFelica.FakeFelica.CardSession | FakeFelica/nfc/felica/FakeFelica.cs:150-188 | the loop ends in the state and with the outcome of the Session function |
| Acr122u.EnvelopeRoundTrip | FakeFelica/acr122u/Acr122U.cs:336-347 | the envelope `FF 00 00 00 Lc D4 op body` parses back into the opcode and body exactly when Lc = |body| + 2 fits a byte |
| Acr122u.Exchange | FakeFelica/acr122u/Acr122U.cs:325-392 | a DCommand exchange keeps the snapshot well formed |
| Acr122u.Upcoming | FakeFelica/acr122u/Acr122U.cs:350 | the next driver reply is the head of the script and the rest follows it; an exhausted script fails every call |
| Acr122u.ExchangeIgnoresReply | FakeFelica/acr122u/Acr122U.cs:325-333 | a DCommand stopped by a zero handle or an envelope too long for sendBuff does not depend on the driver and sends nothing |
| Acr122u.Call | FakeFelica/acr122u/Acr122U.cs:325-392 | DCommand with the driver's replies: success needs a reply taken, and only a suffix of the replies is left |
| Acr122u.CallDrawsPerEnvelope | FakeFelica/acr122u/Acr122U.cs:325-350 | one reply per SCardControl call: an envelope is sent exactly when the exchange gets that far, and then and only then the next reply is taken |
| Acr122u.Driver.Next | FakeFelica/acr122u/Acr122U.cs:350 | hands out the next scripted reply (a failure once the script is exhausted) |
| Acr122u.Acr122u.Control | FakeFelica/acr122u/Acr122U.cs:350-360 | the SCardControl call records the envelope and takes exactly one reply; a delivered one is copied into recvBuff |
| Acr122u.ExchangeAccepts | FakeFelica/acr122u/Acr122U.cs:325-392 | DCommand succeeds exactly when both handles are set, the envelope fits, a response arrives ending in `90 00`, byte 1 echoes opcode + 1, and the status byte is 0 unless the opcode is exempt |
| Acr122u.ExchangeHandles | FakeFelica/acr122u/Acr122U.cs:329-391 | only a transport failure clears the context and only a bad echo or status clears the card; the envelope is sent exactly when the handles are set and it fits |
| Acr122u.AcceptedStatusZero | FakeFelica/acr122u/Acr122U.cs:192-201 | because opcode 88 is not exempt, an accepted TgGetTargetStatus always reports status 0 |
| Acr122u.PayloadOfResponse | FakeFelica/acr122u/Acr122U.cs:169-178 | after an accepted exchange the payload is `response[3 .. len−2)`, and responses under 5 bytes throw |
| Acr122u.FPollingCommand | FakeFelica/acr122u/Acr122U.cs:261-270 | the InListPassiveTarget body is: one target, 212 kbps, the FeliCa polling command 00, the system code, request code 0 and time slot 0 |
| Acr122u.FPollingSystemCode | FakeFelica/acr122u/Acr122U.cs:265-266 | the system code goes out big-endian |
| Acr122u.TgPayloadLayout | FakeFelica/acr122u/Acr122U.cs:208-239 | the TgInitAsTarget payload is `01, mifare(6), idm(8), pmm(8), sysCode BE(2), nfcid3(10), |gt|, gt, 00`, with zeros for null parts |
| Acr122u.TgPayload | FakeFelica/acr122u/Acr122U.cs:208-239 | the payload has 37 + |gt| bytes |
| Acr122u.BuildTgPayload | FakeFelica/acr122u/Acr122U.cs:208-239 | the array filled in place is the reference payload, and an oversized part throws |
| Acr122u.Acr122u.constructor | FakeFelica/acr122u/Acr122U.cs:47-53 | both handles are 0, both 256-byte buffers are zero, and the reader talks to the given driver |
| Acr122u.Acr122u.Init | FakeFelica/acr122u/Acr122U.cs:73-105 | an established context returns true at once; otherwise the context takes the driver's handle and the result is true exactly when at least one reader is reported and the reader list is read |
| Acr122u.Acr122u.ReleaseContext | FakeFelica/acr122u/Acr122U.cs:107-115 | the context becomes 0 and nothing else changes |
| Acr122u.Acr122u.ConnectCard | FakeFelica/acr122u/Acr122U.cs:117-136 | a connected card returns true at once; otherwise the card handle is set and the result is the driver's success |
| Acr122u.Acr122u.ReleaseCard | FakeFelica/acr122u/Acr122U.cs:138-146 | the card becomes 0 and nothing else changes |
| Acr122u.Acr122u.WriteHeader | FakeFelica/acr122u/Acr122U.cs:336-342 | the first seven bytes of the send buffer become `FF 00 00 00 Lc D4 op` and the rest is kept |
| Acr122u.Acr122u.DCommand | FakeFelica/acr122u/Acr122U.cs:325-392 | the new handles, buffers and result are those of Exchange |
| Acr122u.Acr122u.CheckResponse | FakeFelica/acr122u/Acr122U.cs:362-391 | the trailer, echo and status checks: a bad echo or status releases the card, a short response throws, and only an accepted one returns true |
| Acr122u.Acr122u.SetParams | FakeFelica/acr122u/Acr122U.cs:148-152 | sends SetParameters with the one parameter byte |
| Acr122u.Acr122u.SetRfMode | FakeFelica/acr122u/Acr122U.cs:154-158 | sends SetParameters 00, whatever the argument, and drops the result |
| Acr122u.Acr122u.TgReadData | FakeFelica/acr122u/Acr122U.cs:161-167 | TgGetData returns the whole receive buffer on success, else null |
| Acr122u.Acr122u.TgGetInCommand | FakeFelica/acr122u/Acr122U.cs:169-178 | TgGetInitiatorCommand returns the payload slice on success, else null |
| Acr122u.Acr122u.TgResToIn | FakeFelica/acr122u/Acr122U.cs:180-184 | sends TgResponseToInitiator with the data |
| Acr122u.Acr122u.TgSetData | FakeFelica/acr122u/Acr122U.cs:186-190 | sends TgSetData with the data |
| Acr122u.Acr122u.InRelease | FakeFelica/acr122u/Acr122U.cs:318-322 | sends InRelease 00 |
| Acr122u.Acr122u.TgGetTargetStatus | FakeFelica/acr122u/Acr122U.cs:192-201 | sends opcode 88 and returns bytes 2 and 3 of the response on success |
| Acr122u.Acr122u.HasCard | FakeFelica/acr122u/Acr122U.cs:55-71 | false without any I/O when the card handle is 0; otherwise the result of a TgGetInitiatorCommand exchange |
| Acr122u.HasCardDropsCard | FakeFelica/acr122u/Acr122U.cs:55-71 | a status-29 answer to the presence probe (initiator released) reports no card and clears the handle |
| Acr122u.Acr122u.TgMode | FakeFelica/acr122u/Acr122U.cs:203-252 | sends the TgInitAsTarget payload and returns the mode byte and the payload slice as TgModeEffect says |
| Acr122u.Acr122u.FPolling | FakeFelica/acr122u/Acr122U.cs:257-279 | on success with one target found, returns response bytes 6..13 (the IDm), else null |
| Acr122u.Acr122u.InSendData | FakeFelica/acr122u/Acr122U.cs:303-316 | sends InDataExchange to target 1 and returns the payload slice |
| UriScenario.UriRecordBytes | FakeFelica/nfc/ndef/Ndef.cs:62-72 | the flagged URI record serialises to `D1 01 (|uri|+1) 55 00 uri`, and a reader parses that back to the one record |
| UriScenario.UriTag | FakeFelica/CardForm.cs:24-41 | the form's tag is built exactly when the IDm text parses and the message fits 192 bytes; it holds the parsed IDm, system code 12FC and the image of that message |
| UriScenario.NewUriMessage | FakeFelica/CardForm.cs:29-37 | the record has SR set, TNF well-known, type "U" and payload `00 ‖ uri` |
| UriScenario.UriTagImage | FakeFelica/nfc/felica/Type3TagController.cs:65-100 | the tag's image starts with version 10, declares the message length, reads back whole as blocks 0–12, and block 1 starts with `D1 01 len 55 00` |

## Left out

- PC/SC driver calls (`SCardEstablishContext`, `SCardListReaders`, `SCardConnect`, `SCardDisconnect`, `SCardControl`) are foreign I/O. Their results are parameters (`Init`, `ConnectCard`) or scripted `Reply` values (`SCardControl`).
- Reader-name decoding in `Init` is string plumbing around the driver and is not modelled.
- Threading (`Start`, `Abort` with `Join`, the `Worker` loop with `Thread.Sleep`) and the sleep in `FCardController.OnPolling` are not modelled. The cross-thread `abort` flag is replaced by the script running out, which ends the session as `Aborted`.
- `Debug.WriteLine` logging is not modelled. Caught exceptions are `Threw` outcomes.
- The event plumbing (`CommandReceived`, the `FelicaEventArgs` classes, `+=`) is a direct call from the decoder to the attached controller. Only one controller is attached at a time.
- `InMode` is unused by the program and is not modelled.
- The WinForms UI and the UTF-8 encoding of the URI text are not modelled. The URI is given as bytes.
- The `Felica` class (`BLOCK_LENGTH`, `IDM_LENGTH`) is not part of this model. Its constants are taken as 16 and 8.
- EndianConverter.BytesToUInteger: for lengths 1, 2, 4 and 8 it requires the slice to lie inside the buffer, so the IndexOutOfRangeException the C# throws otherwise is not part of its contract. Every caller in the model checks those bounds first and models that exception itself (`GetBlockElement`, `PollRequest`).
- Utility.HexToByte: a Dafny string is a sequence of Unicode scalar values, whereas a C# string is counted in UTF-16 code units. A character outside the Basic Multilingual Plane is one `char` here and a surrogate pair there. For `"AB\U0001D7D8"` (C# length 4) C# parses the surrogate pair and throws, while the model decodes `AB` and stops, because it sees only three characters. The same holds for `UriScenario.UriTag`, which parses the IDm text with it.
- NdefMessage.ToBytes: an empty message is modelled as throwing (the `Record[0]` access) rather than excluded by a precondition.
- FakeFelica.FakeFelica.CardSession: its `ensures` ties the loop to the `Session` function. Termination is measured by the scripted replies and the kind of round, so an endless session is not modelled.
- FakeFelica.Perform: states only that the reader's state stays well formed and that replies are consumed. What each command sends is stated by SendOnWire, PollAnswered, Type3ReadAnswered and Type3ReadRefused.
- FakeFelica.Session: the same; SessionConsumes and SessionWithoutCard state what it consumes and how it ends without a card.
- The handlers keep the as-written 2-byte block cursor, since they model what the program does. `ElementsByForm` is the corrected decoder, proved on its own.

## Findings

| source | as written | input that shows it | evidently intended | confidence | as-written member | corrected member |
|---|---|---|---|---|---|---|
| FakeFelica/com.esp.common/EndianConverter.cs:157-189 | the swapped value is cast to `(byte)` before it is returned, leaving only the input's high byte | `SwapEndian((ushort)0x1234)` gives 0x12, and swapping that again gives 0 | return the full byte reversal at the input's width, an involution | high; not executed | EndianConverter.SwapEndianNotInvolutive | EndianConverter.SwapEndianIntendedInvolutive |
| FakeFelica/nfc/felica/FakeFelica.cs:234, 265 | the block-list cursor advances 2 bytes per element, even for 3-byte elements | Read with service list `[000B]` and elements `00 00 05`, `80 01`: the second element is read from `05 80 01`, its service index 5 is out of range, and the command throws | advance by each element's own width (2 or 3 bytes) | high; not executed | FakeFelica.ThreeByteElementMisread | FakeFelica.ElementsByFormRoundTrip |
