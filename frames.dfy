/** The command frames of the Linux kernel's Bluetooth Management interface
    that the adapter configuration builds: a 6-byte header of three
    little-endian `uint16_t` fields (code, controller index, payload size)
    followed by an opcode-specific packed payload.

    The encoders follow the packed request structs of src/Mgmt.cpp byte for
    byte. The decoders are reference definitions that read a frame back: they
    state what the encoders' bytes mean, and the lemmas below prove the
    encoders against them. */
module Frames {
  import opened Bytes

  // Command opcodes, numbered as in the BlueZ Management API (mgmt-api.txt).
  const SetPoweredCommand: u16 := 0x0005
  const SetDiscoverableCommand: u16 := 0x0006
  const SetConnectableCommand: u16 := 0x0007
  const SetBondableCommand: u16 := 0x0009
  const SetLowEnergyCommand: u16 := 0x000D
  const SetLocalNameCommand: u16 := 0x000F
  const SetAdvertisingCommand: u16 := 0x0029
  const SetBREDRCommand: u16 := 0x002A
  const SetSecureConnectionsCommand: u16 := 0x002D
  const AddAdvertisingCommand: u16 := 0x003E

  /** `sizeof(HciAdapter::HciHeader)`. */
  const HeaderSize: nat := 6
  /** The largest payload the `dataSize` field can describe. */
  const MaxPayloadSize: nat := 0xFFFF

  datatype Header = Header(code: u16, controllerId: u16, dataSize: u16)

  /** A command as the kernel sees it once the header is parsed. */
  datatype Frame = Frame(code: u16, controllerId: u16, payload: seq<byte>)

  /** The outcome of reading bytes back as a frame or a payload. */
  datatype Decoded<T> = Ok(value: T) | MalformedFrame

  // ---------------------------------------------------------------------------
  // Header and frame
  // ---------------------------------------------------------------------------

  function DecodeHeader(b: seq<byte>): Decoded<Header>
  {
    if |b| < HeaderSize then MalformedFrame
    else Ok(Header(ReadLE16(b, 0), ReadLE16(b, 2), ReadLE16(b, 4)))
  }

  /** The packed `HciHeader`: `code`, `controllerId`, `dataSize`, each little-endian. */
  function EncodeHeader(h: Header): (r: seq<byte>)
    ensures |r| == HeaderSize
    ensures DecodeHeader(r) == Ok(h)
  {
    LE16(h.code) + LE16(h.controllerId) + LE16(h.dataSize)
  }

  /** A buffer holding exactly one frame: a header whose `dataSize` equals
      the number of bytes after it. Anything else is malformed. */
  function DecodeFrame(b: seq<byte>): Decoded<Frame>
  {
    match DecodeHeader(b)
    case MalformedFrame => MalformedFrame
    case Ok(h) =>
      if h.dataSize != |b| - HeaderSize then MalformedFrame
      else Ok(Frame(h.code, h.controllerId, b[HeaderSize..]))
  }

  /** The header, with `dataSize` set to the payload's length, then the payload. */
  function EncodeFrame(f: Frame): (r: seq<byte>)
    requires |f.payload| <= MaxPayloadSize
    ensures |r| == HeaderSize + |f.payload|
    ensures DecodeHeader(r) == Ok(Header(f.code, f.controllerId, |f.payload|))
    ensures r[HeaderSize..] == f.payload
    ensures DecodeFrame(r) == Ok(f)
  {
    EncodeHeader(Header(f.code, f.controllerId, |f.payload|)) + f.payload
  }

  /** Every buffer that reads as a frame is the encoding of that frame. */
  lemma EncodeOfDecodeFrame(b: seq<byte>, f: Frame)
    requires DecodeFrame(b) == Ok(f)
    ensures |f.payload| <= MaxPayloadSize
    ensures EncodeFrame(f) == b
  {
    LE16OfRead(b, 0);
    LE16OfRead(b, 2);
    LE16OfRead(b, 4);
    assert b == b[0..2] + b[2..4] + b[4..6] + b[HeaderSize..];
  }

  // ---------------------------------------------------------------------------
  // Set Local Name: `char name[249]; char shortName[11];`
  // ---------------------------------------------------------------------------

  const NameFieldSize: nat := 249
  const ShortNameFieldSize: nat := 11
  const SetLocalNamePayloadSize: nat := NameFieldSize + ShortNameFieldSize

  datatype LocalName = LocalName(name: seq<byte>, shortName: seq<byte>)

  /** The two names as the kernel reads them: each field up to its first NUL. */
  function DecodeSetLocalName(p: seq<byte>): Decoded<LocalName>
  {
    if |p| != SetLocalNamePayloadSize then MalformedFrame
    else Ok(LocalName(CStr(p[..NameFieldSize]), CStr(p[NameFieldSize..])))
  }

  /** Both fields zero-filled, then written with `snprintf("%s")`. */
  function SetLocalNamePayload(name: seq<byte>, shortName: seq<byte>): (p: seq<byte>)
    ensures |p| == SetLocalNamePayloadSize
  {
    CStringField(name, NameFieldSize) + CStringField(shortName, ShortNameFieldSize)
  }

  function EncodeSetLocalName(controllerId: u16, name: seq<byte>, shortName: seq<byte>): (r: seq<byte>)
    ensures |r| == HeaderSize + 260
    ensures DecodeHeader(r) == Ok(Header(SetLocalNameCommand, controllerId, 260))
    ensures r[HeaderSize..HeaderSize + NameFieldSize] == CStringField(name, NameFieldSize)
    ensures r[HeaderSize + NameFieldSize..] == CStringField(shortName, ShortNameFieldSize)
    ensures r[HeaderSize + NameFieldSize - 1] == 0 && r[|r| - 1] == 0
  {
    var p := SetLocalNamePayload(name, shortName);
    var r := EncodeFrame(Frame(SetLocalNameCommand, controllerId, p));
    assert r[HeaderSize..] == p;
    assert r[HeaderSize..HeaderSize + NameFieldSize] == p[..NameFieldSize];
    r
  }

  /** Names that hold no NUL and fit their fields come back unchanged. */
  lemma {:induction false} SetLocalNameRoundTrip(name: seq<byte>, shortName: seq<byte>)
    requires 0 !in name && |name| < NameFieldSize
    requires 0 !in shortName && |shortName| < ShortNameFieldSize
    ensures DecodeSetLocalName(SetLocalNamePayload(name, shortName)) == Ok(LocalName(name, shortName))
  {
    var p := SetLocalNamePayload(name, shortName);
    assert p[..NameFieldSize] == CStringField(name, NameFieldSize);
    assert p[NameFieldSize..] == CStringField(shortName, ShortNameFieldSize);
    CStrUnique(name, name);
    CStrUnique(shortName, shortName);
  }

  // ---------------------------------------------------------------------------
  // Add Advertising: Instance u8, Flags u32, Duration u16, Timeout u16,
  // Adv_Data_Len u8, Scan_Rsp_Len u8, then the two data blocks.
  // ---------------------------------------------------------------------------

  /** `RawAdvertisingData` of include/Gobbledegook.h: two length bytes and
      the blocks they describe. */
  datatype RawAdvertisingData = RawAdvertisingData(advDataLen: byte, rspDataLen: byte,
                                                   advData: seq<byte>, rspData: seq<byte>)
  {
    /** Each length byte is the length of its block, as `memcpy` relies on. */
    predicate WellFormed()
    {
      |advData| == advDataLen as int && |rspData| == rspDataLen as int
    }
  }

  /** The parameters of one Add Advertising command. */
  datatype AdvertisingParams = AdvertisingParams(instance: byte, flags: u32, duration: u16,
                                                 timeout: u16, advData: seq<byte>, scanRsp: seq<byte>)
  {
    /** Each block's length fits in its one-byte length field. */
    predicate Encodable()
    {
      |advData| < 0x100 && |scanRsp| < 0x100
    }
  }

  /** The size of the fixed part of the payload, before the data blocks. */
  const AddAdvertisingFixedSize: nat := 11

  function DecodeAddAdvertising(p: seq<byte>): Decoded<AdvertisingParams>
  {
    if |p| < AddAdvertisingFixedSize then MalformedFrame
    else
      var advLen, rspLen := p[9] as int, p[10] as int;
      if |p| != AddAdvertisingFixedSize + advLen + rspLen then MalformedFrame
      else Ok(AdvertisingParams(p[0], ReadLE32(p, 1), ReadLE16(p, 5), ReadLE16(p, 7),
                                p[AddAdvertisingFixedSize..AddAdvertisingFixedSize + advLen],
                                p[AddAdvertisingFixedSize + advLen..]))
  }

  function AddAdvertisingPayload(a: AdvertisingParams): (p: seq<byte>)
    requires a.Encodable()
    ensures |p| == AddAdvertisingFixedSize + |a.advData| + |a.scanRsp|
    ensures DecodeAddAdvertising(p) == Ok(a)
  {
    var p := [a.instance] + LE32(a.flags) + LE16(a.duration) + LE16(a.timeout)
      + [|a.advData| as byte, |a.scanRsp| as byte] + a.advData + a.scanRsp;
    assert p[AddAdvertisingFixedSize..AddAdvertisingFixedSize + |a.advData|] == a.advData;
    assert p[AddAdvertisingFixedSize + |a.advData|..] == a.scanRsp;
    p
  }

  /** Every payload that reads as Add Advertising parameters is their encoding. */
  lemma EncodeOfDecodeAddAdvertising(p: seq<byte>, a: AdvertisingParams)
    requires DecodeAddAdvertising(p) == Ok(a)
    ensures a.Encodable()
    ensures AddAdvertisingPayload(a) == p
  {
    LE16OfRead(p, 5);
    LE16OfRead(p, 7);
    LE32OfRead(p, 1);
    assert p == [p[0]] + p[1..5] + p[5..7] + p[7..9] + [p[9], p[10]]
      + p[AddAdvertisingFixedSize..AddAdvertisingFixedSize + p[9] as int]
      + p[AddAdvertisingFixedSize + p[9] as int..];
  }

  /** The fixed parameters src/Mgmt.cpp always sends: instance 1, no flags,
      no duration, no timeout. */
  const AdvertisingInstance: byte := 1
  const AdvertisingFlags: u32 := 0
  const AdvertisingDuration: u16 := 0
  const AdvertisingTimeout: u16 := 0

  function RawAdvertisingParams(adv: RawAdvertisingData): (a: AdvertisingParams)
    requires adv.WellFormed()
    ensures a.Encodable()
  {
    AdvertisingParams(AdvertisingInstance, AdvertisingFlags, AdvertisingDuration, AdvertisingTimeout,
                      adv.advData, adv.rspData)
  }

  function EncodeAddAdvertising(controllerId: u16, adv: RawAdvertisingData): (r: seq<byte>)
    requires adv.WellFormed()
    ensures var dataSize := AddAdvertisingFixedSize + adv.advDataLen as int + adv.rspDataLen as int;
      |r| == HeaderSize + dataSize &&
      DecodeHeader(r) == Ok(Header(AddAdvertisingCommand, controllerId, dataSize))
    ensures r[6] == 1 && r[7..11] == [0, 0, 0, 0] && r[11..15] == [0, 0, 0, 0]
    ensures r[15] == adv.advDataLen && r[16] == adv.rspDataLen
    ensures r[17..17 + adv.advDataLen as int] == adv.advData
    ensures r[17 + adv.advDataLen as int..] == adv.rspData
  {
    var p := AddAdvertisingPayload(RawAdvertisingParams(adv));
    var r := EncodeFrame(Frame(AddAdvertisingCommand, controllerId, p));
    assert r[HeaderSize..] == p;
    assert r[17..17 + adv.advDataLen as int] == p[11..11 + adv.advDataLen as int];
    assert r[17 + adv.advDataLen as int..] == p[11 + adv.advDataLen as int..];
    r
  }

  // ---------------------------------------------------------------------------
  // Set Discoverable: `uint8_t disc; uint16_t timeout;`
  // ---------------------------------------------------------------------------

  datatype DiscoverableParams = DiscoverableParams(disc: byte, timeout: u16)

  function DecodeSetDiscoverable(p: seq<byte>): Decoded<DiscoverableParams>
  {
    if |p| != 3 then MalformedFrame else Ok(DiscoverableParams(p[0], ReadLE16(p, 1)))
  }

  function SetDiscoverablePayload(d: DiscoverableParams): (p: seq<byte>)
    ensures |p| == 3
    ensures DecodeSetDiscoverable(p) == Ok(d)
  {
    [d.disc] + LE16(d.timeout)
  }

  /** Every 3-byte payload is the encoding of the parameters it reads as. */
  lemma EncodeOfDecodeSetDiscoverable(p: seq<byte>, d: DiscoverableParams)
    requires DecodeSetDiscoverable(p) == Ok(d)
    ensures SetDiscoverablePayload(d) == p
  {
    LE16OfRead(p, 1);
    assert p == [p[0]] + p[1..3];
  }

  function EncodeSetDiscoverable(controllerId: u16, disc: byte, timeout: u16): (r: seq<byte>)
    ensures |r| == HeaderSize + 3
    ensures DecodeHeader(r) == Ok(Header(SetDiscoverableCommand, controllerId, 3))
    ensures r[6] == disc && ReadLE16(r, 7) == timeout
  {
    var p := SetDiscoverablePayload(DiscoverableParams(disc, timeout));
    var r := EncodeFrame(Frame(SetDiscoverableCommand, controllerId, p));
    assert r[HeaderSize..] == p;
    r
  }

  // ---------------------------------------------------------------------------
  // The one-byte state commands: `uint8_t state;`
  // ---------------------------------------------------------------------------

  function EncodeSetState(commandCode: u16, controllerId: u16, newState: byte): (r: seq<byte>)
    ensures |r| == HeaderSize + 1
    ensures DecodeHeader(r) == Ok(Header(commandCode, controllerId, 1))
    ensures r[6] == newState
    ensures DecodeFrame(r) == Ok(Frame(commandCode, controllerId, [newState]))
  {
    var r := EncodeFrame(Frame(commandCode, controllerId, [newState]));
    assert r[HeaderSize..] == [newState];
    r
  }

  /** Different commands, adapters or states never share a frame, so the
      kernel can tell every state command apart. */
  lemma EncodeSetStateInjective(code1: u16, id1: u16, state1: byte, code2: u16, id2: u16, state2: byte)
    requires EncodeSetState(code1, id1, state1) == EncodeSetState(code2, id2, state2)
    ensures code1 == code2 && id1 == id2 && state1 == state2
  {
    assert DecodeFrame(EncodeSetState(code1, id1, state1)) == DecodeFrame(EncodeSetState(code2, id2, state2));
  }
}
