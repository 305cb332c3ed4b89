/** The adapter configuration of src/Mgmt.cpp: name truncation, and the
    `Mgmt` object whose setters build management command frames and hand
    them to the management channel.

    The channel (`HciAdapter`) is not part of this model. Everything the
    setters do to it is recorded in `Mgmt.trace`: the initial
    synchronisation, every frame handed over together with the channel's
    verdict on it, and the settle delay of the advertising sequence. */
module Management {
  import opened Bytes
  import opened Frames

  /** `kMaxAdvertisingNameLength`: one less than the 249-byte name field,
      so that `snprintf` keeps the whole truncated name and its NUL. */
  const MaxAdvertisingNameLength: nat := 248
  /** `kMaxAdvertisingShortNameLength`: one less than the 11-byte short-name field. */
  const MaxAdvertisingShortNameLength: nat := 10
  /** The `usleep(200*1000)` between powering off and adding advertising data. */
  const PowerOffSettleMicros: nat := 200 * 1000

  datatype Option<T> = None | Some(value: T)

  // ---------------------------------------------------------------------------
  // Truncation
  // ---------------------------------------------------------------------------

  /** `Mgmt::truncateName`: the name itself when it is short enough,
      otherwise its first `MaxAdvertisingNameLength` bytes. */
  function TruncateName(name: seq<byte>): (r: seq<byte>)
    ensures r <= name
    ensures |name| <= MaxAdvertisingNameLength ==> r == name
    ensures |name| > MaxAdvertisingNameLength ==> |r| == MaxAdvertisingNameLength
  {
    if |name| <= MaxAdvertisingNameLength then name else name[..MaxAdvertisingNameLength]
  }

  /** `Mgmt::truncateShortName`: the same with `MaxAdvertisingShortNameLength`. */
  function TruncateShortName(name: seq<byte>): (r: seq<byte>)
    ensures r <= name
    ensures |name| <= MaxAdvertisingShortNameLength ==> r == name
    ensures |name| > MaxAdvertisingShortNameLength ==> |r| == MaxAdvertisingShortNameLength
  {
    if |name| <= MaxAdvertisingShortNameLength then name else name[..MaxAdvertisingShortNameLength]
  }

  lemma TruncateNameIdempotent(name: seq<byte>)
    ensures |TruncateName(name)| <= MaxAdvertisingNameLength
    ensures TruncateName(TruncateName(name)) == TruncateName(name)
  {
  }

  lemma TruncateShortNameIdempotent(name: seq<byte>)
    ensures |TruncateShortName(name)| <= MaxAdvertisingShortNameLength
    ensures TruncateShortName(TruncateShortName(name)) == TruncateShortName(name)
  {
  }

  /** A field of `width` bytes keeps at most `width - 1` bytes of a string,
      so cutting the string to `width - 1` bytes beforehand changes nothing. */
  lemma FieldIgnoresPrefixCut(s: seq<byte>, width: nat)
    requires 0 < width && width - 1 <= |s|
    ensures CStringField(s[..width - 1], width) == CStringField(s, width)
  {
    var c, c' := CStr(s), CStr(s[..width - 1]);
    CStrOfPrefix(s, width - 1);
    var k := Min(|c|, width - 1);
    assert Min(|c'|, width - 1) == k;
    assert c'[..k] == c[..k];
  }

  /** The name field `setName` writes is the same with or without the
      preceding truncation. */
  lemma NameFieldIgnoresTruncation(name: seq<byte>)
    ensures CStringField(TruncateName(name), NameFieldSize) == CStringField(name, NameFieldSize)
  {
    if |name| > MaxAdvertisingNameLength {
      FieldIgnoresPrefixCut(name, NameFieldSize);
    }
  }

  lemma ShortNameFieldIgnoresTruncation(name: seq<byte>)
    ensures CStringField(TruncateShortName(name), ShortNameFieldSize) == CStringField(name, ShortNameFieldSize)
  {
    if |name| > MaxAdvertisingShortNameLength {
      FieldIgnoresPrefixCut(name, ShortNameFieldSize);
    }
  }

  /** A NUL-free name longer than the limit fills the field with its first
      248 bytes and a final NUL. */
  lemma LongNameField(name: seq<byte>)
    requires 0 !in name && |name| > MaxAdvertisingNameLength
    ensures CStringField(TruncateName(name), NameFieldSize) == name[..MaxAdvertisingNameLength] + [0]
  {
    var t := TruncateName(name);
    assert 0 !in t;
    CStrUnique(t, t);
  }

  /** For NUL-free inputs, the kernel reads back exactly the truncated names. */
  lemma SetNameDeliversTruncatedNames(controllerId: u16, name: seq<byte>, shortName: seq<byte>)
    requires 0 !in name && 0 !in shortName
    ensures var n, s := TruncateName(name), TruncateShortName(shortName);
      DecodeSetLocalName(EncodeSetLocalName(controllerId, n, s)[HeaderSize..]) == Ok(LocalName(n, s))
  {
    var n, s := TruncateName(name), TruncateShortName(shortName);
    var r := EncodeSetLocalName(controllerId, n, s);
    assert r[HeaderSize..] == SetLocalNamePayload(n, s);
    assert 0 !in n && 0 !in s;
    SetLocalNameRoundTrip(n, s);
  }

  // ---------------------------------------------------------------------------
  // What the channel sees
  // ---------------------------------------------------------------------------

  datatype Event =
    | Synced(controllerIndex: u16)             // HciAdapter::sync
    | Sent(frame: seq<byte>, accepted: bool)   // HciAdapter::sendCommand and its result
    | Slept(micros: nat)                       // usleep

  /** The frames handed to the channel, in order. */
  function SentFrames(t: seq<Event>): seq<seq<byte>>
  {
    if t == [] then []
    else SentFrames(t[..|t| - 1]) + (if t[|t| - 1].Sent? then [t[|t| - 1].frame] else [])
  }

  lemma {:induction false} SentFramesAppend(t: seq<Event>, u: seq<Event>)
    ensures SentFrames(t + u) == SentFrames(t) + SentFrames(u)
    decreases |u|
  {
    if u == [] {
      assert t + u == t;
    } else {
      var u' := u[..|u| - 1];
      assert (t + u)[..|t + u| - 1] == t + u';
      SentFramesAppend(t, u');
    }
  }

  /** The state byte of `e` when it hands a Set Powered frame for `controllerId` to the channel. */
  function PowerRequest(e: Event, controllerId: u16): Option<byte>
  {
    if !e.Sent? then None
    else match DecodeFrame(e.frame)
      case Ok(Frame(code, id, p)) =>
        if code == SetPoweredCommand && id == controllerId && |p| == 1 then Some(p[0]) else None
      case MalformedFrame => None
  }

  /** The power state last requested of adapter `controllerId`, if any. */
  function LastRequestedPower(t: seq<Event>, controllerId: u16): Option<byte>
  {
    if t == [] then None
    else match PowerRequest(t[|t| - 1], controllerId)
      case Some(s) => Some(s)
      case None => LastRequestedPower(t[..|t| - 1], controllerId)
  }

  /** After a Set Powered frame, the requested power state is the one it carries. */
  lemma LastRequestedPowerAfterSetPowered(t: seq<Event>, controllerId: u16, newState: byte, accepted: bool)
    ensures LastRequestedPower(t + [Sent(EncodeSetState(SetPoweredCommand, controllerId, newState), accepted)], controllerId)
      == Some(newState)
  {
  }

  /** Any other state command leaves the requested power state as it was. */
  lemma LastRequestedPowerAfterOtherState(t: seq<Event>, controllerId: u16, commandCode: u16, newState: byte,
                                          accepted: bool)
    requires commandCode != SetPoweredCommand
    ensures LastRequestedPower(t + [Sent(EncodeSetState(commandCode, controllerId, newState), accepted)], controllerId)
      == LastRequestedPower(t, controllerId)
  {
    var t' := t + [Sent(EncodeSetState(commandCode, controllerId, newState), accepted)];
    assert t'[..|t'| - 1] == t;
  }

  /** The advertising sequence ends with the adapter asked to be powered
      off: nothing after the power-off request turns it back on. */
  lemma AdvertisingLeavesPowerOff(t: seq<Event>, controllerId: u16, adv: RawAdvertisingData,
                                  poweredOff: bool, accepted: bool)
    requires adv.WellFormed()
    ensures LastRequestedPower(t + [Sent(EncodeSetState(SetPoweredCommand, controllerId, 0), poweredOff),
                                    Slept(PowerOffSettleMicros),
                                    Sent(EncodeAddAdvertising(controllerId, adv), accepted)], controllerId)
      == Some(0)
  {
    var t1 := t + [Sent(EncodeSetState(SetPoweredCommand, controllerId, 0), poweredOff)];
    var t2 := t1 + [Slept(PowerOffSettleMicros)];
    var t3 := t2 + [Sent(EncodeAddAdvertising(controllerId, adv), accepted)];
    LastRequestedPowerAfterSetPowered(t, controllerId, 0, poweredOff);
    assert t2[..|t2| - 1] == t1;
    assert t3[..|t3| - 1] == t2;
    assert PowerRequest(t3[|t3| - 1], controllerId) == None;
    assert t3 == t + [Sent(EncodeSetState(SetPoweredCommand, controllerId, 0), poweredOff),
                      Slept(PowerOffSettleMicros),
                      Sent(EncodeAddAdvertising(controllerId, adv), accepted)];
  }

  /** `newState ? 1 : 0`. */
  function StateByte(newState: bool): (r: byte)
    ensures r == 1 <==> newState
    ensures r == 0 <==> !newState
  {
    if newState then 1 else 0
  }

  // ---------------------------------------------------------------------------
  // The Mgmt object
  // ---------------------------------------------------------------------------

  class Mgmt {
    /** The zero-based index of the adapter every setter addresses. */
    const controllerIndex: u16
    /** Everything handed to the management channel so far, oldest first. */
    var trace: seq<Event>

    /** Stores the index and synchronises the channel with that adapter.
        Without an argument the first adapter, index 0, is used. */
    constructor (controllerIndex: u16 := 0)
      ensures this.controllerIndex == controllerIndex
      ensures trace == [Synced(controllerIndex)]
    {
      this.controllerIndex := controllerIndex;
      trace := [Synced(controllerIndex)];
    }

    /** Hands `frame` to the channel. Whether the channel reports success
        is not determined by this model: `accepted` may be either value. */
    method SendCommand(frame: seq<byte>) returns (accepted: bool)
      modifies this
      ensures trace == old(trace) + [Sent(frame, accepted)]
    {
      accepted :| true;
      trace := trace + [Sent(frame, accepted)];
    }

    method Sleep(micros: nat)
      modifies this
      ensures trace == old(trace) + [Slept(micros)]
    {
      trace := trace + [Slept(micros)];
    }

    /** `memset(field, 0, sizeof(field))` then `snprintf(field, sizeof(field), "%s", s)`. */
    static method FormatCString(field: array<byte>, s: seq<byte>)
      requires field.Length > 0
      modifies field
      ensures field[..] == CStringField(s, field.Length)
    {
      var i := 0;
      while i < field.Length
        invariant 0 <= i <= field.Length
        invariant forall j :: 0 <= j < i ==> field[j] == 0
      {
        field[i] := 0;
        i := i + 1;
      }
      var n := 0;
      while n < field.Length - 1 && n < |s| && s[n] != 0
        invariant 0 <= n <= |s| && n < field.Length
        invariant 0 !in s[..n]
        invariant field[..n] == s[..n]
        invariant forall j :: n <= j < field.Length ==> field[j] == 0
      {
        field[n] := s[n];
        n := n + 1;
        assert s[..n] == s[..n - 1] + [s[n - 1]];
      }
      var c := CStr(s);
      assert |c| >= n;
      assert c[..n] == s[..n];
      assert n < field.Length - 1 ==> |c| == n;
      assert field[..] == field[..n] + Zeros(field.Length - n);
    }

    /** `Mgmt::setName`: truncates both names, writes them into their
        zero-filled fields and sends one Set Local Name frame. */
    method SetName(name: seq<byte>, shortName: seq<byte>) returns (ok: bool)
      modifies this
      ensures trace == old(trace)
        + [Sent(EncodeSetLocalName(controllerIndex, TruncateName(name), TruncateShortName(shortName)), ok)]
    {
      var n := TruncateName(name);
      var sn := TruncateShortName(shortName);
      var nameField := new byte[NameFieldSize];
      FormatCString(nameField, n);
      var shortNameField := new byte[ShortNameFieldSize];
      FormatCString(shortNameField, sn);
      var header := EncodeHeader(Header(SetLocalNameCommand, controllerIndex, SetLocalNamePayloadSize));
      var frame := header + nameField[..] + shortNameField[..];
      assert frame == EncodeFrame(Frame(SetLocalNameCommand, controllerIndex, SetLocalNamePayload(n, sn)));
      ok := SendCommand(frame);
    }

    /** `Mgmt::setRawAdvertisingData`: powers the adapter off (ignoring the
        result), waits 200 ms, then sends one Add Advertising frame whose
        result is the method's. Power is not restored. */
    method SetRawAdvertisingData(adv: RawAdvertisingData) returns (ok: bool)
      requires adv.WellFormed()
      modifies this
      ensures |trace| == |old(trace)| + 3 && trace[..|old(trace)|] == old(trace)
      ensures trace[|old(trace)|].Sent?
      ensures trace[|old(trace)|].frame == EncodeSetState(SetPoweredCommand, controllerIndex, 0)
      ensures trace[|old(trace)| + 1] == Slept(PowerOffSettleMicros)
      ensures trace[|old(trace)| + 2] == Sent(EncodeAddAdvertising(controllerIndex, adv), ok)
      ensures SentFrames(trace) == SentFrames(old(trace))
        + [EncodeSetState(SetPoweredCommand, controllerIndex, 0), EncodeAddAdvertising(controllerIndex, adv)]
      ensures LastRequestedPower(trace, controllerIndex) == Some(0)
    {
      ghost var before := trace;
      var poweredOff := SetPowered(false);
      Sleep(PowerOffSettleMicros);
      var frame := EncodeAddAdvertising(controllerIndex, adv);
      ok := SendCommand(frame);
      var added := [Sent(EncodeSetState(SetPoweredCommand, controllerIndex, 0), poweredOff),
                    Slept(PowerOffSettleMicros), Sent(frame, ok)];
      assert trace == before + added;
      SentFramesAppend(before, added);
      assert SentFrames(added) == [EncodeSetState(SetPoweredCommand, controllerIndex, 0), frame] by {
        var one, two := added[..1], added[..2];
        assert one[..0] == [];
        assert SentFrames(one) == [EncodeSetState(SetPoweredCommand, controllerIndex, 0)];
        assert two[..1] == one;
        assert SentFrames(two) == SentFrames(one);
        assert added[..2] == two;
      }
      AdvertisingLeavesPowerOff(before, controllerIndex, adv, poweredOff, ok);
    }

    /** `Mgmt::setDiscoverable`: one frame carrying `disc` and `timeout`
        unvalidated. */
    method SetDiscoverable(disc: byte, timeout: u16) returns (ok: bool)
      modifies this
      ensures trace == old(trace) + [Sent(EncodeSetDiscoverable(controllerIndex, disc, timeout), ok)]
    {
      ok := SendCommand(EncodeSetDiscoverable(controllerIndex, disc, timeout));
    }

    /** `Mgmt::setState`: one frame with a single state byte. */
    method SetState(commandCode: u16, controllerId: u16, newState: byte) returns (ok: bool)
      modifies this
      ensures trace == old(trace) + [Sent(EncodeSetState(commandCode, controllerId, newState), ok)]
    {
      ok := SendCommand(EncodeSetState(commandCode, controllerId, newState));
    }

    method SetPowered(newState: bool) returns (ok: bool)
      modifies this
      ensures trace == old(trace) + [Sent(EncodeSetState(SetPoweredCommand, controllerIndex, StateByte(newState)), ok)]
      ensures LastRequestedPower(trace, controllerIndex) == Some(StateByte(newState))
    {
      ok := SetState(SetPoweredCommand, controllerIndex, StateByte(newState));
      LastRequestedPowerAfterSetPowered(old(trace), controllerIndex, StateByte(newState), ok);
    }

    method SetBredr(newState: bool) returns (ok: bool)
      modifies this
      ensures trace == old(trace) + [Sent(EncodeSetState(SetBREDRCommand, controllerIndex, StateByte(newState)), ok)]
    {
      ok := SetState(SetBREDRCommand, controllerIndex, StateByte(newState));
    }

    /** 0 disables, 1 enables, 2 selects secure-connections-only mode; passed through unchecked. */
    method SetSecureConnections(newState: byte) returns (ok: bool)
      modifies this
      ensures trace == old(trace) + [Sent(EncodeSetState(SetSecureConnectionsCommand, controllerIndex, newState), ok)]
    {
      ok := SetState(SetSecureConnectionsCommand, controllerIndex, newState);
    }

    method SetBondable(newState: bool) returns (ok: bool)
      modifies this
      ensures trace == old(trace) + [Sent(EncodeSetState(SetBondableCommand, controllerIndex, StateByte(newState)), ok)]
    {
      ok := SetState(SetBondableCommand, controllerIndex, StateByte(newState));
    }

    method SetConnectable(newState: bool) returns (ok: bool)
      modifies this
      ensures trace == old(trace) + [Sent(EncodeSetState(SetConnectableCommand, controllerIndex, StateByte(newState)), ok)]
    {
      ok := SetState(SetConnectableCommand, controllerIndex, StateByte(newState));
    }

    method SetLE(newState: bool) returns (ok: bool)
      modifies this
      ensures trace == old(trace) + [Sent(EncodeSetState(SetLowEnergyCommand, controllerIndex, StateByte(newState)), ok)]
    {
      ok := SetState(SetLowEnergyCommand, controllerIndex, StateByte(newState));
    }

    /** 0 disables, 1 enables, 2 enables in connectable mode; passed through unchecked. */
    method SetAdvertising(newState: byte) returns (ok: bool)
      modifies this
      ensures trace == old(trace) + [Sent(EncodeSetState(SetAdvertisingCommand, controllerIndex, newState), ok)]
    {
      ok := SetState(SetAdvertisingCommand, controllerIndex, newState);
    }
  }
}
